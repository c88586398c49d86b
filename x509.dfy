/**
  What the worker sees of an X.509 certificate, and the OpenSSL facilities it
  calls, as oracles. The parsing and encoding behind d2i_X509,
  PEM_write_bio_X509, X509_get_ext_d2i and the i2v conversion are not visible
  here; only the shape of their results is.
 */
module X509 {
  import opened Wrappers
  import opened CStrings

  /** NID_info_access: OpenSSL's number for the Authority Information Access
      extension (section 4.2.2.1 of RFC 5280). */
  const NidInfoAccess: int := 177

  /** One certificate extension: its object's NID, criticality and raw value. */
  datatype Extension = Extension(nid: int, critical: bool, value: seq<byte>)

  /** A decoded certificate: its extensions in order, and everything else as opaque bytes. */
  datatype Cert = Cert(extensions: seq<Extension>, rest: seq<byte>)

  /** One (name, value) pair of the textual form of an extension (a CONF_VALUE). */
  datatype ConfValue = ConfValue(name: CString, value: CString)

  /**
    The OpenSSL oracles:
    - d2i: d2i_X509 over a whole buffer; None is a NULL result;
    - pem: the text PEM_write_bio_X509 writes for a certificate;
    - hasMethod: X509V3_EXT_get finds a registered method for the extension;
    - aiaValues: X509_get_ext_d2i(x, NID_info_access, 0, 0) followed by the
      method's i2v conversion; None is a NULL entries pointer, and a NULL stack
      from i2v reads as the empty list (sk_CONF_VALUE_num is then negative).
   */
  datatype Crypto = Crypto(
    d2i: seq<byte> -> Option<Cert>,
    pem: Cert -> seq<byte>,
    hasMethod: Extension -> bool,
    aiaValues: Cert -> Option<seq<ConfValue>>)

  /** The method label of an access description naming a CA issuer by URI:
      the ASCII bytes of "CA Issuers - URI" (see CaIssuersUriSpells). */
  const CaIssuersUri: CString :=
    [67, 65, 32, 73, 115, 115, 117, 101, 114, 115, 32, 45, 32, 85, 82, 73]

  /** The index of the first extension at or after `from` whose NID is nid, or -1. */
  function FindNid(exts: seq<Extension>, nid: int, from: nat): (idx: int)
    ensures -1 <= idx < |exts|
    decreases |exts| - from
  {
    if from >= |exts| then -1
    else if exts[from].nid == nid then from
    else FindNid(exts, nid, from + 1)
  }

  /** X509_get_ext_by_NID(x, nid, lastpos): the search starts after lastpos. */
  function ExtByNid(x: Cert, nid: int, lastpos: int): (idx: int)
    ensures -1 <= idx < |x.extensions|
  {
    FindNid(x.extensions, nid, if lastpos < 0 then 0 else lastpos + 1)
  }

  /** The value of the first pair named "CA Issuers - URI"; later pairs are never looked at. */
  function FirstIssuer(vals: seq<ConfValue>): Option<CString>
  {
    if vals == [] then None
    else if vals[0].name == CaIssuersUri then Some(vals[0].value)
    else FirstIssuer(vals[1..])
  }

  /** The name/value pairs of the AIA extension, when it is present, has a method and decodes. */
  function AiaEntries(c: Crypto, x: Cert): Option<seq<ConfValue>>
  {
    var idx := ExtByNid(x, NidInfoAccess, -1);
    if idx >= 0 && c.hasMethod(x.extensions[idx]) then c.aiaValues(x) else None
  }

  /** The issuer URL of a certificate, or None when the session must give up. */
  function IssuerUrl(c: Crypto, x: Cert): Option<CString>
  {
    match AiaEntries(c, x)
    case None => None
    case Some(vals) => FirstIssuer(vals)
  }

  /** FindNid returns the lowest matching index at or after `from`, and -1 only when there is none. */
  lemma {:induction false} FindNidIsFirst(exts: seq<Extension>, nid: int, from: nat)
    ensures FindNid(exts, nid, from) == -1 <==> forall k | from <= k < |exts| :: exts[k].nid != nid
    ensures FindNid(exts, nid, from) != -1 ==>
              from <= FindNid(exts, nid, from) && exts[FindNid(exts, nid, from)].nid == nid &&
              forall k | from <= k < FindNid(exts, nid, from) :: exts[k].nid != nid
    decreases |exts| - from
  {
    if from < |exts| && exts[from].nid != nid {
      FindNidIsFirst(exts, nid, from + 1);
    }
  }

  /** The AIA extension consulted is the first one, at the lowest index. */
  lemma ExtByNidIsFirst(x: Cert, nid: int)
    ensures var idx := ExtByNid(x, nid, -1);
            (idx == -1 <==> forall k | 0 <= k < |x.extensions| :: x.extensions[k].nid != nid) &&
            (idx != -1 ==> x.extensions[idx].nid == nid &&
                           forall k | 0 <= k < idx :: x.extensions[k].nid != nid)
  {
    FindNidIsFirst(x.extensions, nid, 0);
  }

  /** When the entry at i is the first one named "CA Issuers - URI", its value is the result. */
  lemma {:induction false} FirstIssuerAt(vals: seq<ConfValue>, i: nat)
    requires i < |vals| && vals[i].name == CaIssuersUri
    requires forall k | 0 <= k < i :: vals[k].name != CaIssuersUri
    ensures FirstIssuer(vals) == Some(vals[i].value)
  {
    if i > 0 {
      assert vals[0].name != CaIssuersUri;
      FirstIssuerAt(vals[1..], i - 1);
    }
  }

  /** There is no result exactly when no entry is named "CA Issuers - URI". */
  lemma {:induction false} FirstIssuerNone(vals: seq<ConfValue>)
    ensures FirstIssuer(vals) == None <==> forall k | 0 <= k < |vals| :: vals[k].name != CaIssuersUri
  {
    if vals != [] && vals[0].name != CaIssuersUri {
      FirstIssuerNone(vals[1..]);
      assert forall k | 1 <= k < |vals| :: vals[k] == vals[1..][k - 1];
    }
  }

  /** Entries after the first match never affect the result. */
  lemma {:induction false} FirstIssuerIgnoresLater(vals: seq<ConfValue>, later: seq<ConfValue>)
    requires FirstIssuer(vals).Some?
    ensures FirstIssuer(vals + later) == FirstIssuer(vals)
  {
    assert (vals + later)[0] == vals[0];
    if vals[0].name != CaIssuersUri {
      assert (vals + later)[1..] == vals[1..] + later;
      FirstIssuerIgnoresLater(vals[1..], later);
    }
  }

  /** A certificate without an AIA extension has no issuer URL. */
  lemma IssuerUrlWithoutAia(c: Crypto, x: Cert)
    requires forall k | 0 <= k < |x.extensions| :: x.extensions[k].nid != NidInfoAccess
    ensures IssuerUrl(c, x) == None
  {
    ExtByNidIsFirst(x, NidInfoAccess);
  }

  /**
    With the first AIA extension at index i, the issuer URL is the first
    "CA Issuers - URI" value of the decoded entries, provided i has a method
    and the entries decode; otherwise there is none.
   */
  lemma IssuerUrlFromFirstAia(c: Crypto, x: Cert, i: nat)
    requires i < |x.extensions| && x.extensions[i].nid == NidInfoAccess
    requires forall k | 0 <= k < i :: x.extensions[k].nid != NidInfoAccess
    ensures IssuerUrl(c, x) ==
              if c.hasMethod(x.extensions[i]) && c.aiaValues(x).Some?
              then FirstIssuer(c.aiaValues(x).value) else None
  {
    ExtByNidIsFirst(x, NidInfoAccess);
  }

  lemma CaIssuersUriSpells()
    ensures Spells(CaIssuersUri, "CA Issuers - URI")
  {
  }
}
