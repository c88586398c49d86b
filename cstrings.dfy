/**
  Bytes and NUL-terminated C strings, and the three routines of the C library
  that the certificate worker relies on to inspect them: strlen, strcmp and
  strncmp.
 */
module CStrings {

  newtype byte = x: int | 0 <= x < 256

  /** The contents of a C string: the bytes before its terminating NUL. */
  type CString = s: seq<byte> | 0 !in s

  /** The byte read at offset i; at and past the end the terminator (NUL) is read. */
  function At(s: seq<byte>, i: nat): byte
  {
    if i < |s| then s[i] else 0
  }

  /** strlen(3) on a buffer: the offset of the first NUL, or the whole buffer. */
  function StrLen(s: seq<byte>): (n: nat)
    ensures n <= |s| && 0 !in s[..n]
    ensures n < |s| ==> s[n] == 0
  {
    if s == [] || s[0] == 0 then 0
    else
      var n := 1 + StrLen(s[1..]);
      assert s[..n] == [s[0]] + s[1..][..n - 1];
      n
  }

  /** strcmp(3): zero when the two strings agree up to and including a common NUL. */
  function StrCmp(a: seq<byte>, b: seq<byte>): int
    decreases |a|
  {
    if At(a, 0) != At(b, 0) then At(a, 0) as int - At(b, 0) as int
    else if At(a, 0) == 0 then 0
    else StrCmp(a[1..], b[1..])
  }

  /** strncmp(3): like strcmp, but looks at no more than n bytes. */
  function StrNCmp(a: seq<byte>, b: seq<byte>, n: nat): int
    decreases n
  {
    if n == 0 then 0
    else if At(a, 0) != At(b, 0) then At(a, 0) as int - At(b, 0) as int
    else if At(a, 0) == 0 then 0
    else StrNCmp(a[1..], b[1..], n - 1)
  }

  /** The bytes b are the ASCII codes of the characters of s, as a C compiler lays out a literal. */
  predicate Spells(b: seq<byte>, s: string)
  {
    |b| == |s| && forall i | 0 <= i < |s| :: b[i] as int == s[i] as int
  }

  /** The length strlen reports for a C string is its length. */
  lemma StrLenOfCString(s: CString)
    ensures StrLen(s) == |s|
  {
  }

  /** strcmp reports equality exactly when the two C strings are equal. */
  lemma {:induction false} StrCmpZeroIff(a: CString, b: CString)
    ensures StrCmp(a, b) == 0 <==> a == b
  {
    if At(a, 0) == At(b, 0) && At(a, 0) != 0 {
      assert a[0] == b[0];
      StrCmpZeroIff(a[1..], b[1..]);
      assert a == [a[0]] + a[1..] && b == [b[0]] + b[1..];
    } else if At(a, 0) == At(b, 0) {
      assert a == [] && b == [];
    } else {
      assert a != b;
    }
  }

  /**
    strncmp(a, b, strlen(b)) against a C string b reports equality exactly when
    the buffer a, at least as long as b, begins with b. Bytes of a after the
    first |b| and any NUL inside a do not disturb the comparison.
   */
  lemma {:induction false} StrNCmpPrefix(a: seq<byte>, b: CString)
    requires |b| <= |a|
    ensures StrNCmp(a, b, |b|) == 0 <==> a[..|b|] == b
  {
    if |b| > 0 {
      assert At(b, 0) == b[0] != 0 && At(a, 0) == a[0];
      if a[0] == b[0] {
        StrNCmpPrefix(a[1..], b[1..]);
        assert a[..|b|] == [a[0]] + a[1..][..|b| - 1];
        assert b == [b[0]] + b[1..];
      } else {
        assert a[..|b|][0] != b[0];
      }
    }
  }

  /** The usual prefix test with strncmp, sz <= strlen(m) || strncmp(b, m, strlen(m)),
      holds exactly when b, of length sz, is not longer than m or does not begin with it. */
  lemma PrefixTest(b: seq<byte>, m: CString)
    ensures (|b| <= StrLen(m) || StrNCmp(b, m, StrLen(m)) != 0) <==> !(|b| > |m| && b[..|m|] == m)
  {
    StrLenOfCString(m);
    if |b| > |m| {
      StrNCmpPrefix(b, m);
    }
  }
}
