/**
  The certificate worker itself, in the imperative form of certproc.c: a
  process with a heap of owned objects and two sockets, certproc's steps
  funnelled into one cleanup, and x509buf's successive allocations.
 */
module CertProc {
  import opened Wrappers
  import opened CStrings
  import opened X509
  import opened Protocol
  import Properties

  /** A pointer: NULL, or the address of a heap object. */
  datatype Ptr = Null | Ref(addr: nat)

  /** Heap objects: malloc'd byte buffers, X509 structures and memory BIOs. */
  datatype Obj = Buf(bytes: seq<byte>) | X509Obj(cert: Cert) | BioObj(contents: seq<byte>)

  /** The block p refers to, if any. */
  function Addr(p: Ptr): set<nat>
  {
    if p.Ref? then {p.addr} else {}
  }

  /** The blocks the pointers of ps refer to. */
  ghost function Addrs(ps: seq<Ptr>): set<nat>
  {
    if ps == [] then {} else Addr(ps[0]) + Addrs(ps[1..])
  }

  /** No two non-NULL pointers of ps refer to the same block. */
  ghost predicate Distinct(ps: seq<Ptr>)
  {
    ps == [] || (Addr(ps[0]) !! Addrs(ps[1..]) && Distinct(ps[1..]))
  }

  /**
    Ownership since an earlier state with heap h0 and lost blocks l0, given the
    blocks gone that h0 handed over: every other block of h0 is still there
    and unchanged, and the heap holds nothing else but the blocks of ps,
    distinct and not lost, and the blocks lost meanwhile, none of them one
    that h0 kept.
   */
  ghost predicate SinceOf(h0: map<nat, Obj>, l0: set<nat>, h: map<nat, Obj>, l: set<nat>, gone: set<nat>, ps: seq<Ptr>)
  {
    && l0 <= l
    && (forall a | a in h0 && a !in gone :: a in h && h[a] == h0[a])
    && h.Keys == (h0.Keys - gone) + Addrs(ps) + (l - l0)
    && Addrs(ps) !! l
    && Addrs(ps) !! (h0.Keys - gone)
    && (l - l0) !! (h0.Keys - gone)
    && Distinct(ps)
  }

  lemma {:induction false} AddrsAppend(ps: seq<Ptr>, qs: seq<Ptr>)
    ensures Addrs(ps + qs) == Addrs(ps) + Addrs(qs)
    ensures Distinct(ps + qs) <==> Distinct(ps) && Distinct(qs) && Addrs(ps) !! Addrs(qs)
  {
    if ps == [] {
      assert ps + qs == qs;
    } else {
      assert (ps + qs)[1..] == ps[1..] + qs;
      AddrsAppend(ps[1..], qs);
    }
  }

  lemma Addrs1(a: Ptr)
    ensures Addrs([a]) == Addr(a) && Distinct([a])
  {
    assert [a][1..] == [];
  }

  lemma Addrs2(a: Ptr, b: Ptr)
    ensures Addrs([a, b]) == Addr(a) + Addr(b)
    ensures Distinct([a, b]) <==> Addr(a) !! Addr(b)
  {
    assert [a, b][1..] == [b];
    Addrs1(b);
  }

  /** A sequence of NULL pointers holds no block. */
  lemma {:induction false} Nulls(ps: seq<Ptr>)
    requires forall i | 0 <= i < |ps| :: ps[i].Null?
    ensures Addrs(ps) == {} && Distinct(ps)
  {
    if ps != [] {
      assert forall i | 0 <= i < |ps[1..]| :: ps[1..][i] == ps[i + 1];
      Nulls(ps[1..]);
    }
  }

  /** ps holds no more blocks than it has entries. */
  lemma {:induction false} AddrsSize(ps: seq<Ptr>)
    ensures |Addrs(ps)| <= |ps|
  {
    if ps != [] {
      AddrsSize(ps[1..]);
      assert |Addr(ps[0])| <= 1;
    }
  }

  /** Adding the blocks b to l adds at most |b| of them. */
  lemma NewBlocks(l: set<nat>, b: set<nat>)
    ensures |(l + b) - l| <= |b|
  {
    var d := (l + b) - l;
    assert b == d + (b - d);
  }

  /** A log of lost buffers that grew by k entries holds at most k more blocks. */
  lemma LogGrowth(l0: seq<Ptr>, l: seq<Ptr>)
    requires l0 <= l
    ensures |Addrs(l) - Addrs(l0)| <= |l| - |l0|
    ensures |l| == |l0| ==> Addrs(l) == Addrs(l0)
  {
    var lately := l[|l0|..];
    assert l == l0 + lately;
    AddrsAppend(l0, lately);
    AddrsSize(lately);
    NewBlocks(Addrs(l0), Addrs(lately));
  }

  /** A stage that hands back the block p it was given, and does nothing else. */
  lemma SinceKeep(h: map<nat, Obj>, l: set<nat>, p: Ptr)
    requires p.Ref? && p.addr in h && p.addr !in l
    ensures SinceOf(h, l, h, l, {p.addr}, [Null, p])
  {
    Addrs2(Null, p);
  }

  /** A stage that allocates nothing and loses nothing. */
  lemma SinceUnchanged(h: map<nat, Obj>, l: set<nat>, ps: seq<Ptr>)
    requires forall i | 0 <= i < |ps| :: ps[i].Null?
    ensures SinceOf(h, l, h, l, {}, ps)
  {
    Nulls(ps);
  }

  /** What a later stage allocates and loses adds to what an earlier one left. */
  lemma SinceExtend(h0: map<nat, Obj>, l0: set<nat>, h1: map<nat, Obj>, l1: set<nat>,
                    h2: map<nat, Obj>, l2: set<nat>, ps: seq<Ptr>, qs: seq<Ptr>)
    requires SinceOf(h0, l0, h1, l1, {}, ps) && SinceOf(h1, l1, h2, l2, {}, qs)
    ensures SinceOf(h0, l0, h2, l2, {}, ps + qs)
  {
    AddrsAppend(ps, qs);
  }

  /** A stage that allocates the one block a and loses nothing. */
  lemma SinceFresh(h: map<nat, Obj>, l: set<nat>, a: nat, o: Obj, ps: seq<Ptr>)
    requires a !in h && l <= h.Keys && Addrs(ps) == {a} && Distinct(ps)
    ensures SinceOf(h, l, h[a := o], l, {}, ps)
  {
  }

  /** SinceExtend for one block held before and two after. */
  lemma SinceExtend12(h0: map<nat, Obj>, l0: set<nat>, h1: map<nat, Obj>, l1: set<nat>,
                      h2: map<nat, Obj>, l2: set<nat>, a: Ptr, b: Ptr, c: Ptr)
    requires SinceOf(h0, l0, h1, l1, {}, [a]) && SinceOf(h1, l1, h2, l2, {}, [b, c])
    ensures SinceOf(h0, l0, h2, l2, {}, [a, b, c])
  {
    SinceExtend(h0, l0, h1, l1, h2, l2, [a], [b, c]);
    assert [a] + [b, c] == [a, b, c];
  }

  /** SinceExtend for one block held before and three after. */
  lemma SinceExtend13(h0: map<nat, Obj>, l0: set<nat>, h1: map<nat, Obj>, l1: set<nat>,
                      h2: map<nat, Obj>, l2: set<nat>, a: Ptr, b: Ptr, c: Ptr, d: Ptr)
    requires SinceOf(h0, l0, h1, l1, {}, [a]) && SinceOf(h1, l1, h2, l2, {}, [b, c, d])
    ensures SinceOf(h0, l0, h2, l2, {}, [a, b, c, d])
  {
    SinceExtend(h0, l0, h1, l1, h2, l2, [a], [b, c, d]);
    assert [a] + [b, c, d] == [a, b, c, d];
  }

  /** SinceExtend for one block held before and four after. */
  lemma SinceExtend14(h0: map<nat, Obj>, l0: set<nat>, h1: map<nat, Obj>, l1: set<nat>,
                      h2: map<nat, Obj>, l2: set<nat>, a: Ptr, b: Ptr, c: Ptr, d: Ptr, e: Ptr)
    requires SinceOf(h0, l0, h1, l1, {}, [a]) && SinceOf(h1, l1, h2, l2, {}, [b, c, d, e])
    ensures SinceOf(h0, l0, h2, l2, {}, [a, b, c, d, e])
  {
    SinceExtend(h0, l0, h1, l1, h2, l2, [a], [b, c, d, e]);
    assert [a] + [b, c, d, e] == [a, b, c, d, e];
  }

  /** A later stage that takes over the block p, the last of what an earlier stage left. */
  lemma SinceConsume(h0: map<nat, Obj>, l0: set<nat>, h1: map<nat, Obj>, l1: set<nat>,
                     h2: map<nat, Obj>, l2: set<nat>, g: set<nat>, keep: seq<Ptr>, p: Ptr, qs: seq<Ptr>)
    requires p.Ref?
    requires SinceOf(h0, l0, h1, l1, g, keep + [p]) && SinceOf(h1, l1, h2, l2, {p.addr}, qs)
    ensures SinceOf(h0, l0, h2, l2, g, keep + qs)
  {
    AddrsAppend(keep, [p]);
    AddrsAppend(keep, qs);
    assert [p][1..] == [];
  }

  /** SinceConsume for a stage given the one block p held before, leaving two. */
  lemma SinceConsume02(h0: map<nat, Obj>, l0: set<nat>, h1: map<nat, Obj>, l1: set<nat>,
                       h2: map<nat, Obj>, l2: set<nat>, p: Ptr, b: Ptr, c: Ptr)
    requires p.Ref?
    requires SinceOf(h0, l0, h1, l1, {}, [p]) && SinceOf(h1, l1, h2, l2, {p.addr}, [b, c])
    ensures SinceOf(h0, l0, h2, l2, {}, [b, c])
  {
    assert [] + [p] == [p];
    SinceConsume(h0, l0, h1, l1, h2, l2, {}, [], p, [b, c]);
    assert [] + [b, c] == [b, c];
  }

  /** SinceConsume for a stage given the second block p of two held before, leaving one. */
  lemma SinceConsume21(h0: map<nat, Obj>, l0: set<nat>, h1: map<nat, Obj>, l1: set<nat>,
                       h2: map<nat, Obj>, l2: set<nat>, g: set<nat>, a: Ptr, p: Ptr, b: Ptr)
    requires p.Ref?
    requires SinceOf(h0, l0, h1, l1, g, [a, p]) && SinceOf(h1, l1, h2, l2, {p.addr}, [b])
    ensures SinceOf(h0, l0, h2, l2, g, [a, b])
  {
    assert [a] + [p] == [a, p];
    SinceConsume(h0, l0, h1, l1, h2, l2, g, [a], p, [b]);
    assert [a] + [b] == [a, b];
  }

  /** The cleanup's five releases, in the source's order, leave no block held. */
  lemma AllReleased(ps: seq<Ptr>)
    requires |ps| == 5
    ensures Addrs(ps[1 := Null][3 := Null][0 := Null][2 := Null][4 := Null]) == {}
  {
    Nulls(ps[1 := Null][3 := Null][0 := Null][2 := Null][4 := Null]);
  }

  /** Once no block is held, the heap is what it was and the blocks lost meanwhile. */
  lemma SinceNothingHeld(h0: map<nat, Obj>, l0: set<nat>, h: map<nat, Obj>, l: set<nat>, ps: seq<Ptr>)
    requires SinceOf(h0, l0, h, l, {}, ps) && Addrs(ps) == {}
    ensures forall a | a in h0 :: a in h && h[a] == h0[a]
    ensures h.Keys == h0.Keys + (l - l0)
  {
  }

  /** Releasing one held block: the others are held still. */
  lemma {:induction false} AddrsRelease(ps: seq<Ptr>, i: nat)
    requires i < |ps| && ps[i].Ref? && Distinct(ps)
    ensures Addrs(ps[i := Null]) == Addrs(ps) - {ps[i].addr}
    ensures Distinct(ps[i := Null])
    ensures ps[i].addr in Addrs(ps)
  {
    var qs := ps[i := Null];
    if i == 0 {
      assert qs[1..] == ps[1..];
    } else {
      assert qs[1..] == ps[1..][i - 1 := Null];
      AddrsRelease(ps[1..], i - 1);
    }
  }

  /**
    The worker process: its heap, and its two sockets together with what the
    peers on them will do. netIn holds the frames the network process will
    send, in order; netAccepts and fileAccepts count the frames each peer will
    still take before its end of the socket fails.
   */
  class Worker {
    var netIn: seq<Frame>
    var netAccepts: nat
    var fileAccepts: nat
    var netOpen: bool
    var fileOpen: bool
    var heap: map<nat, Obj>
    var next: nat
    /** What the worker did on its sockets. */
    ghost var trace: seq<Event>
    /** Live blocks no pointer refers to any longer. */
    ghost var leaked: set<nat>
    /** The buffers lost so far, in the order they were lost. */
    ghost var lostLog: seq<Ptr>

    /** Every live block lies below next, so allocation at next is fresh; lost blocks are live. */
    ghost predicate Valid()
      reads this
    {
      && (forall a | a in heap :: a < next)
      && leaked <= heap.Keys
      && leaked == Addrs(lostLog)
    }

    /** A pointer the worker may still use and must release: live and not lost. */
    ghost predicate Owns(p: Ptr)
      reads this
    {
      p.Ref? && p.addr in heap && p.addr !in leaked
    }

    /** A connected worker, as the parent process hands it its two sockets. */
    constructor (netIn: seq<Frame>, netAccepts: nat, fileAccepts: nat)
      ensures Valid()
      ensures this.netIn == netIn && this.netAccepts == netAccepts && this.fileAccepts == fileAccepts
      ensures netOpen && fileOpen && heap == map[] && trace == [] && leaked == {} && lostLog == []
    {
      this.netIn, this.netAccepts, this.fileAccepts := netIn, netAccepts, fileAccepts;
      netOpen, fileOpen := true, true;
      heap, next := map[], 0;
      trace, leaked, lostLog := [], {}, [];
    }

    /** An allocation that succeeds, at an address never used before. */
    method Alloc(o: Obj) returns (p: Ptr)
      requires Valid()
      modifies this`heap, this`next
      ensures Valid()
      ensures p.Ref? && p.addr !in old(heap) && heap == old(heap)[p.addr := o]
      ensures p.addr == old(next) && next == old(next) + 1
    {
      p := Ref(next);
      heap := heap[next := o];
      next := next + 1;
    }

    /** free(3), X509_free and BIO_free: releasing NULL does nothing; anything else must be
        owned, which rules out a double free. */
    method Free(p: Ptr)
      requires Valid()
      requires p.Ref? ==> Owns(p)
      modifies this`heap
      ensures Valid()
      ensures p.Null? ==> heap == old(heap)
      ensures p.Ref? ==> heap == old(heap) - {p.addr}
    {
      if p.Ref? {
        heap := heap - {p.addr};
      }
    }

    /** strdup(3) of a C string; ok is whether its allocation succeeds. */
    method Strdup(s: CString, ok: bool) returns (p: Ptr)
      requires Valid()
      modifies this`heap, this`next
      ensures Valid()
      ensures ok ==> p.Ref? && p.addr !in old(heap) && heap == old(heap)[p.addr := Buf(s)]
      ensures !ok ==> p.Null? && heap == old(heap)
    {
      p := Null;
      if ok {
        p := Alloc(Buf(s));
      }
    }

    /** readbuf on the network socket: the next frame, when the network process sends one
        of the expected type, in a fresh buffer of its length. */
    method ReadNet(tag: Comm) returns (p: Ptr, sz: nat)
      requires Valid() && netOpen
      modifies this`netIn, this`heap, this`next, this`trace
      ensures Valid()
      ensures |old(netIn)| > 0 && old(netIn)[0].tag == tag ==>
                p.Ref? && p.addr !in old(heap) && heap == old(heap)[p.addr := Buf(old(netIn)[0].body)] &&
                sz == |old(netIn)[0].body| &&
                netIn == old(netIn)[1..] && trace == old(trace) + [Recv(Net, old(netIn)[0])]
      ensures !(|old(netIn)| > 0 && old(netIn)[0].tag == tag) ==>
                p.Null? && sz == 0 && heap == old(heap) && netIn == old(netIn) && trace == old(trace)
    {
      if |netIn| > 0 && netIn[0].tag == tag {
        p := Alloc(Buf(netIn[0].body));
        sz := |netIn[0].body|;
        trace := trace + [Recv(Net, netIn[0])];
        netIn := netIn[1..];
      } else {
        p, sz := Null, 0;
      }
    }

    /** How many more frames the peer on socket s takes. */
    function Accepts(s: Sock): nat
      reads this
    {
      if s == Net then netAccepts else fileAccepts
    }

    /** Whether socket s is still open. */
    function IsOpen(s: Sock): bool
      reads this
    {
      if s == Net then netOpen else fileOpen
    }

    /** Send one frame on socket s; it fails once the peer takes no more frames. */
    method Transmit(s: Sock, f: Frame) returns (ok: bool)
      requires IsOpen(s)
      modifies this`netAccepts, this`fileAccepts, this`trace
      ensures ok == (old(Accepts(s)) > 0)
      ensures ok ==> trace == old(trace) + [Send(s, f)] && Accepts(s) == old(Accepts(s)) - 1
      ensures !ok ==> trace == old(trace) && Accepts(s) == old(Accepts(s))
      ensures s == Net ==> fileAccepts == old(fileAccepts)
      ensures s == File ==> netAccepts == old(netAccepts)
    {
      ok := Accepts(s) > 0;
      if ok {
        if s == Net { netAccepts := netAccepts - 1; } else { fileAccepts := fileAccepts - 1; }
        trace := trace + [Send(s, f)];
      }
    }

    /** writebuf(sock, tag, p, sz): the first sz bytes of the buffer p as one frame. */
    method WriteBuf(s: Sock, tag: Comm, p: Ptr, sz: nat) returns (ok: bool)
      requires Valid() && IsOpen(s) && Owns(p) && heap[p.addr].Buf? && sz <= |heap[p.addr].bytes|
      modifies this`netAccepts, this`fileAccepts, this`trace
      ensures ok == (old(Accepts(s)) > 0)
      ensures ok ==> trace == old(trace) + [Send(s, Frame(tag, heap[p.addr].bytes[..sz]))] &&
                     Accepts(s) == old(Accepts(s)) - 1
      ensures !ok ==> trace == old(trace) && Accepts(s) == old(Accepts(s))
      ensures s == Net ==> fileAccepts == old(fileAccepts)
      ensures s == File ==> netAccepts == old(netAccepts)
    {
      ok := Transmit(s, Frame(tag, heap[p.addr].bytes[..sz]));
    }

    /** writestr(sock, tag, p): the C string at p, without its terminator, as one frame. */
    method WriteStr(s: Sock, tag: Comm, p: Ptr) returns (ok: bool)
      requires Valid() && IsOpen(s) && Owns(p) && heap[p.addr].Buf?
      modifies this`netAccepts, this`fileAccepts, this`trace
      ensures ok == (old(Accepts(s)) > 0)
      ensures ok ==> trace == old(trace) + [Send(s, Frame(tag, heap[p.addr].bytes[..StrLen(heap[p.addr].bytes)]))] &&
                     Accepts(s) == old(Accepts(s)) - 1
      ensures !ok ==> trace == old(trace) && Accepts(s) == old(Accepts(s))
      ensures s == Net ==> fileAccepts == old(fileAccepts)
      ensures s == File ==> netAccepts == old(netAccepts)
    {
      var bytes := heap[p.addr].bytes;
      ok := Transmit(s, Frame(tag, bytes[..StrLen(bytes)]));
    }

    /** close(2) of an open socket. */
    method CloseSocket(s: Sock)
      requires IsOpen(s)
      modifies this`netOpen, this`fileOpen, this`trace
      ensures !IsOpen(s) && trace == old(trace) + [Close(s)]
      ensures s == Net ==> fileOpen == old(fileOpen)
      ensures s == File ==> netOpen == old(netOpen)
    {
      if s == Net { netOpen := false; } else { fileOpen := false; }
      trace := trace + [Close(s)];
    }

    /** d2i_X509 over the first sz bytes of the buffer p: a fresh X509 object, or NULL. */
    method D2i(c: Crypto, p: Ptr, sz: nat) returns (x: Ptr)
      requires Valid() && Owns(p) && heap[p.addr].Buf? && sz <= |heap[p.addr].bytes|
      modifies this`heap, this`next
      ensures Valid()
      ensures var d := c.d2i(old(heap)[p.addr].bytes[..sz]);
              (d.None? ==> x.Null? && heap == old(heap)) &&
              (d.Some? ==> x.Ref? && x.addr !in old(heap) && heap == old(heap)[x.addr := X509Obj(d.value)])
    {
      match c.d2i(heap[p.addr].bytes[..sz])
      case None =>
        x := Null;
      case Some(cert) =>
        x := Alloc(X509Obj(cert));
    }
 
    /**
      x509buf(x, &sz): the PEM text of the certificate at x in a fresh buffer.
      On success the reported size is the number of bytes the encoder wrote;
      on any failure the result is NULL and *sz is left as it was. The BIO is
      released on every path; when BIO_read comes back short the buffer is
      lost (the source does not free it).
     */
    method X509Buf(c: Crypto, x: Ptr, o: BufOutcomes, sz0: nat) returns (p: Ptr, sz: nat)
      requires Valid() && Owns(x) && heap[x.addr].X509Obj?
      modifies this`heap, this`next, this`leaked, this`lostLog
      ensures Valid() && old(leaked) <= leaked
      ensures var pem := PemBuf(c, old(heap)[x.addr].cert, o);
              (p.Ref? <==> pem.Some?) &&
              (p.Ref? ==> p.addr !in old(heap) && heap == old(heap)[p.addr := Buf(pem.value)] &&
                          sz == |pem.value| && leaked == old(leaked))
      ensures p.Null? ==>
                sz == sz0 &&
                (forall a | a in old(heap) :: a in heap && heap[a] == old(heap)[a]) &&
                heap.Keys == old(heap).Keys + (leaked - old(leaked)) &&
                (leaked - old(leaked)) !! old(heap).Keys
      ensures forall a | a in leaked - old(leaked) :: old(next) <= a
      ensures leaked != old(leaked) <==> ShortRead(c, old(heap)[x.addr].cert, o)
      ensures old(lostLog) <= lostLog && |lostLog| == |old(lostLog)| + Loses(c, old(heap)[x.addr].cert, o)
    {
      var cert := heap[x.addr].cert;
      ghost var heap0 := heap;
      // BIO_new(BIO_s_mem())
      var bio := Null;
      if o.bioNew {
        bio := Alloc(BioObj([]));
      }
      if bio.Null? {
        return Null, sz0;
      }
      // PEM_write_bio_X509(bio, x)
      if !o.pemWrite {
        Free(bio);
        return Null, sz0;
      }
      heap := heap[bio.addr := BioObj(c.pem(cert))];
      var numWrite := |c.pem(cert)|;
      // malloc(bio->num_write)
      var buf := Null;
      if o.malloc {
        buf := Alloc(Buf(seq(numWrite, _ => 0)));
      }
      if buf.Null? {
        Free(bio);
        return Null, sz0;
      }
      // BIO_read(bio, p, bio->num_write)
      var ssz := o.readLen;
      if ssz < 0 || ssz != numWrite {
        leaked := leaked + {buf.addr};
        lostLog := lostLog + [buf];
        AddrsAppend(old(lostLog), [buf]);
        Addrs1(buf);
        Free(bio);
        return Null, sz0;
      }
      assert heap[bio.addr].contents[..ssz] == c.pem(cert);
      heap := heap[buf.addr := Buf(heap[bio.addr].contents[..ssz])];
      sz := ssz;
      Free(bio);
      p := buf;
      assert heap.Keys == heap0.Keys + {buf.addr};
      assert heap == heap0[buf.addr := Buf(c.pem(cert))];
    }
 

    /** The blocks held since the state with heap h0 and lost blocks l0, handed over gone. */
    ghost predicate Since(h0: map<nat, Obj>, l0: set<nat>, gone: set<nat>, ps: seq<Ptr>)
      reads this
    {
      SinceOf(h0, l0, heap, leaked, gone, ps)
    }

    /**
      The AIA scan: the CA issuer URL of the leaf at x, copied with strdup (ok
      is whether that allocation succeeds). The Authority Information Access
      entries are scanned in order for the first one named "CA Issuers - URI".
     */
    method FindIssuer(c: Crypto, ok: bool, x: Ptr) returns (url: Ptr)
      requires Valid() && Owns(x) && heap[x.addr].X509Obj?
      modifies this`heap, this`next
      ensures Valid()
      ensures var u := IssuerUrl(c, old(heap)[x.addr].cert);
              (url.Ref? <==> u.Some? && ok) &&
              (url.Ref? ==> url.addr !in old(heap) && heap == old(heap)[url.addr := Buf(u.value)]) &&
              (url.Null? ==> heap == old(heap))
    {
      url := Null;
      var leaf := heap[x.addr].cert;
      var idx := ExtByNid(leaf, NidInfoAccess, -1);
      var hasMethod := false;
      if idx >= 0 {
        hasMethod := c.hasMethod(leaf.extensions[idx]);
      }
      var entries := c.aiaValues(leaf);
      assert IssuerUrl(c, leaf) == if hasMethod && entries.Some? then FirstIssuer(entries.value) else None;
      if hasMethod && entries.Some? {
        var vals := entries.value;
        ghost var heap0, next0 := heap, next;
        var i := 0;
        while i < |vals|
          invariant 0 <= i <= |vals|
          invariant url.Null? && heap == heap0 && next == next0 && Valid()
          invariant forall k | 0 <= k < i :: vals[k].name != CaIssuersUri
          modifies this`heap, this`next
        {
          StrCmpZeroIff(vals[i].name, CaIssuersUri);
          if StrCmp(vals[i].name, CaIssuersUri) != 0 {
            i := i + 1;
            continue;
          }
          FirstIssuerAt(vals, i);
          url := Strdup(vals[i].value, ok);
          return;
        }
        FirstIssuerNone(vals);
      }
    }

    /**
      The DER branch of the chain normalisation: the chain at p decoded with
      d2i_X509 and re-encoded with x509buf. chainx is the decoded chain; out
      is what the variable chain refers to afterwards: still p when decoding
      fails, otherwise x509buf's result, the buffer p being released in
      between. ok is whether both succeed.
     */
    method Reencode(c: Crypto, o: BufOutcomes, p: Ptr, sz: nat)
      returns (ok: bool, out: Ptr, outsz: nat, chainx: Ptr)
      requires Valid() && Owns(p) && heap[p.addr].Buf? && sz == |heap[p.addr].bytes|
      modifies this`heap, this`next, this`leaked, this`lostLog
      ensures Valid()
      ensures var d := c.d2i(old(heap)[p.addr].bytes);
              var n := if d.None? then None else PemBuf(c, d.value, o);
              (ok <==> n.Some?) &&
              (ok ==> Owns(out) && heap[out.addr] == Buf(n.value) && outsz == |n.value|) &&
              old(lostLog) <= lostLog && |lostLog| == |old(lostLog)| + (if d.None? then 0 else Loses(c, d.value, o))
      ensures c.d2i(old(heap)[p.addr].bytes).None? ==>
                out == p && chainx.Null? && heap == old(heap) && lostLog == old(lostLog)
      ensures Since(old(heap), old(leaked), {p.addr}, [chainx, out])
    {
      ghost var bytes := heap[p.addr].bytes;
      assert bytes[..sz] == bytes;
      out, outsz := p, sz;
      chainx := D2i(c, p, sz);
      if chainx.Null? {
        Addrs2(chainx, out);
        return false, out, outsz, chainx;
      }
      assert p.addr in heap;
      Free(p);
      assert heap[chainx.addr] == X509Obj(c.d2i(bytes).value);
      out, outsz := X509Buf(c, chainx, o, sz);
      Addrs2(chainx, out);
      ok := out.Ref?;
    }

    /**
      The chain normalisation: a chain that is not already PEM (not longer
      than the marker, or not beginning with it) is re-encoded. ok is whether
      the session goes on; out is what the variable chain then refers to and
      chainx the decoded chain, both left for the cleanup to release.
     */
    method NormalizeChain(c: Crypto, o: BufOutcomes, chain: Ptr, chainsz: nat)
      returns (ok: bool, out: Ptr, outsz: nat, chainx: Ptr)
      requires Valid() && Owns(chain) && heap[chain.addr].Buf? && chainsz == |heap[chain.addr].bytes|
      modifies this`heap, this`next, this`leaked, this`lostLog
      ensures Valid()
      ensures var n := Normalize(c, old(heap)[chain.addr].bytes, o);
              (ok <==> n.Some?) &&
              (ok ==> Owns(out) && heap[out.addr] == Buf(n.value) && outsz == |n.value|) &&
              old(lostLog) <= lostLog && |lostLog| == |old(lostLog)| + NormalizeLost(c, old(heap)[chain.addr].bytes, o)
      ensures Since(old(heap), old(leaked), {chain.addr}, [chainx, out])
    {
      ghost var bytes := heap[chain.addr].bytes;
      MarkerTest(bytes);
      var markerLen := StrLen(Marker);
      if chainsz <= markerLen || StrNCmp(heap[chain.addr].bytes, Marker, markerLen) != 0 {
        ok, out, outsz, chainx := Reencode(c, o, chain, chainsz);
      } else {
        ok, out, outsz, chainx := true, chain, chainsz, Null;
        SinceKeep(heap, leaked, chain);
      }
    }

    /**
      The two writes to the file process: the normalised chain, then the leaf
      re-encoded as PEM in place of the chain. out is what the variable chain
      refers to at the end; rc is 1 when every write went through.
     */
    method Deliver(c: Crypto, o: BufOutcomes, x: Ptr, chain: Ptr, chainsz: nat) returns (out: Ptr, rc: int)
      requires Valid() && fileOpen && x != chain
      requires Owns(x) && heap[x.addr].X509Obj?
      requires Owns(chain) && heap[chain.addr].Buf? && chainsz == |heap[chain.addr].bytes|
      modifies this`netAccepts, this`fileAccepts, this`heap, this`next, this`leaked, this`lostLog, this`trace
      ensures Valid()
      ensures var p := DeliverSteps(c, o, old(heap)[x.addr].cert, old(heap)[chain.addr].bytes, old(fileAccepts));
              trace == old(trace) + p.done && rc == (if p.ok then 1 else 0)
      ensures old(lostLog) <= lostLog && |lostLog| == |old(lostLog)| + DeliverSteps(c, o, old(heap)[x.addr].cert, old(heap)[chain.addr].bytes, old(fileAccepts)).lost
      ensures Since(old(heap), old(leaked), {chain.addr}, [out])
    {
      ghost var bytes := heap[chain.addr].bytes;
      assert bytes[..chainsz] == bytes;
      var ok := WriteBuf(File, CommChain, chain, chainsz);
      if !ok {
        Addrs1(chain);
        return chain, 0;
      }
      Free(chain);
      var sz;
      out, sz := X509Buf(c, x, o, chainsz);
      if out.Null? {
        Addrs1(out);
        return out, 0;
      }
      Addrs1(out);
      ghost var pem := heap[out.addr].bytes;
      assert pem[..sz] == pem;
      ok := WriteBuf(File, CommCsr, out, sz);
      if !ok {
        return out, 0;
      }
      rc := 1;
    }

    /**
      From the PEM-marker test on: the chain read back into the buffer at
      chain normalised, then delivered with the leaf at x. What the variables
      chainx and chain refer to at the end (out) is left for the cleanup.
     */
    method AfterChain(c: Crypto, env: Env, x: Ptr, chain: Ptr, chainsz: nat)
      returns (chainx: Ptr, out: Ptr, rc: int)
      requires Valid() && fileOpen && x != chain && Owns(x) && heap[x.addr].X509Obj?
      requires Owns(chain) && heap[chain.addr].Buf? && chainsz == |heap[chain.addr].bytes|
      modifies this`netAccepts, this`fileAccepts, this`heap, this`next, this`leaked, this`lostLog, this`trace
      ensures Valid()
      ensures var p := ChainSteps(c, env, old(heap)[x.addr].cert, old(heap)[chain.addr].bytes, old(fileAccepts));
              trace == old(trace) + p.done && rc == (if p.ok then 1 else 0)
      ensures old(lostLog) <= lostLog && |lostLog| == |old(lostLog)| + ChainSteps(c, env, old(heap)[x.addr].cert, old(heap)[chain.addr].bytes, old(fileAccepts)).lost
      ensures Since(old(heap), old(leaked), {chain.addr}, [chainx, out])
    {
      ghost var h0, l0 := heap, leaked;
      var ok, n, nsz;
      ok, n, nsz, chainx := NormalizeChain(c, env.chainBuf, chain, chainsz);
      if !ok {
        assert trace == old(trace) + [];
        return chainx, n, 0;
      }
      ghost var h1, l1 := heap, leaked;
      Addrs2(chainx, n);
      assert heap[x.addr] == h0[x.addr];
      out, rc := Deliver(c, env.leafBuf, x, n, nsz);
      SinceConsume21(h0, l0, h1, l1, heap, leaked, {chain.addr}, chainx, n, out);
    }

    /**
      From reading the chain back on: the chain read from the network process,
      normalised and delivered with the leaf at x. What the variables chainx
      and chain refer to at the end is left for the cleanup.
     */
    method AfterIssuer(c: Crypto, env: Env, x: Ptr) returns (chainx: Ptr, chain: Ptr, rc: int)
      requires Valid() && netOpen && fileOpen && Owns(x) && heap[x.addr].X509Obj?
      modifies this`netIn, this`netAccepts, this`fileAccepts, this`heap, this`next, this`leaked, this`lostLog, this`trace
      ensures Valid()
      ensures var p := ChainReply(c, env, old(heap)[x.addr].cert, old(netIn), old(fileAccepts));
              trace == old(trace) + p.done && rc == (if p.ok then 1 else 0)
      ensures old(lostLog) <= lostLog && |lostLog| == |old(lostLog)| + ChainReply(c, env, old(heap)[x.addr].cert, old(netIn), old(fileAccepts)).lost
      ensures Since(old(heap), old(leaked), {}, [chainx, chain])
    {
      ghost var h0, l0 := heap, leaked;
      chainx, rc := Null, 0;
      var chainsz;
      chain, chainsz := ReadNet(CommChain);
      if chain.Null? {
        SinceUnchanged(heap, leaked, [chainx, chain]);
        return;
      }
      ghost var h1, l1, body := heap, leaked, heap[chain.addr].bytes;
      Addrs1(chain);
      SinceFresh(h0, l0, chain.addr, Buf(body), [chain]);
      assert heap[x.addr] == h0[x.addr];
      ghost var t1 := trace;
      var out;
      chainx, out, rc := AfterChain(c, env, x, chain, chainsz);
      SinceConsume02(h0, l0, h1, l1, heap, leaked, chain, chainx, out);
      assert trace == old(trace) + ([Recv(Net, old(netIn)[0])] + (trace[|t1|..]));
      chain := out;
    }

    /**
      From writing the issuer URL on: the URL copied to the buffer at url sent
      to the network process, then the chain read back, normalised and
      delivered with the leaf at x. What the variables chainx and chain refer
      to at the end is left for the cleanup.
     */
    method SendIssuer(c: Crypto, env: Env, x: Ptr, url: Ptr) returns (chainx: Ptr, chain: Ptr, rc: int)
      requires Valid() && netOpen && fileOpen && Owns(x) && heap[x.addr].X509Obj?
      requires Owns(url) && heap[url.addr].Buf? && 0 !in heap[url.addr].bytes
      modifies this`netIn, this`netAccepts, this`fileAccepts, this`heap, this`next, this`leaked, this`lostLog, this`trace
      ensures Valid()
      ensures var p := IssuerSteps(c, env, old(heap)[x.addr].cert, old(heap)[url.addr].bytes, old(netIn), old(netAccepts), old(fileAccepts));
              trace == old(trace) + p.done && rc == (if p.ok then 1 else 0)
      ensures old(lostLog) <= lostLog && |lostLog| == |old(lostLog)| + IssuerSteps(c, env, old(heap)[x.addr].cert, old(heap)[url.addr].bytes, old(netIn), old(netAccepts), old(fileAccepts)).lost
      ensures Since(old(heap), old(leaked), {}, [chainx, chain])
    {
      chainx, chain, rc := Null, Null, 0;
      ghost var u: CString := heap[url.addr].bytes;
      StrLenOfCString(u);
      assert u[..StrLen(u)] == u;
      var ok := WriteStr(Net, CommIssuer, url);
      if !ok {
        SinceUnchanged(heap, leaked, [chainx, chain]);
        return;
      }
      ghost var t1 := trace;
      chainx, chain, rc := AfterIssuer(c, env, x);
      assert trace == old(trace) + ([Send(Net, Frame(CommIssuer, u))] + (trace[|t1|..]));
    }

    /**
      From the AIA lookup on: everything after the leaf is decoded, for the
      leaf at x. What the variables url, chainx and chain refer to at the end
      is left for the cleanup.
     */
    method AfterLeaf(c: Crypto, env: Env, x: Ptr) returns (url: Ptr, chainx: Ptr, chain: Ptr, rc: int)
      requires Valid() && netOpen && fileOpen && Owns(x) && heap[x.addr].X509Obj?
      modifies this`netIn, this`netAccepts, this`fileAccepts, this`heap, this`next, this`leaked, this`lostLog, this`trace
      ensures Valid()
      ensures var p := LeafSteps(c, env, old(heap)[x.addr].cert, old(netIn), old(netAccepts), old(fileAccepts));
              trace == old(trace) + p.done && rc == (if p.ok then 1 else 0)
      ensures old(lostLog) <= lostLog && |lostLog| == |old(lostLog)| + LeafSteps(c, env, old(heap)[x.addr].cert, old(netIn), old(netAccepts), old(fileAccepts)).lost
      ensures Since(old(heap), old(leaked), {}, [url, chainx, chain])
    {
      ghost var h0, l0 := heap, leaked;
      chainx, chain, rc := Null, Null, 0;
      url := FindIssuer(c, env.strdup, x);
      if url.Null? {
        SinceUnchanged(heap, leaked, [url, chainx, chain]);
        return;
      }
      ghost var h1, l1, u := heap, leaked, heap[url.addr].bytes;
      Addrs1(url);
      SinceFresh(h0, l0, url.addr, Buf(u), [url]);
      assert heap[x.addr] == h0[x.addr];
      chainx, chain, rc := SendIssuer(c, env, x, url);
      SinceExtend12(h0, l0, h1, l1, heap, leaked, url, chainx, chain);
    }

    /**
      From decoding the leaf on: the leaf frame read into the buffer at csr
      decoded with d2i_X509, and everything after it. What x, url, chainx and
      chain refer to at the end is left for the cleanup.
     */
    method AfterCsr(c: Crypto, env: Env, csr: Ptr, csrsz: nat)
      returns (x: Ptr, url: Ptr, chainx: Ptr, chain: Ptr, rc: int)
      requires Valid() && netOpen && fileOpen && Owns(csr) && heap[csr.addr].Buf? && csrsz == |heap[csr.addr].bytes|
      modifies this`netIn, this`netAccepts, this`fileAccepts, this`heap, this`next, this`leaked, this`lostLog, this`trace
      ensures Valid()
      ensures var p := CsrSteps(c, env, old(heap)[csr.addr].bytes, old(netIn), old(netAccepts), old(fileAccepts));
              trace == old(trace) + p.done && rc == (if p.ok then 1 else 0)
      ensures old(lostLog) <= lostLog && |lostLog| == |old(lostLog)| + CsrSteps(c, env, old(heap)[csr.addr].bytes, old(netIn), old(netAccepts), old(fileAccepts)).lost
      ensures Since(old(heap), old(leaked), {}, [x, url, chainx, chain])
    {
      ghost var h0, l0 := heap, leaked;
      url, chainx, chain, rc := Null, Null, Null, 0;
      ghost var body := heap[csr.addr].bytes;
      assert body[..csrsz] == body;
      x := D2i(c, csr, csrsz);
      if x.Null? {
        SinceUnchanged(heap, leaked, [x, url, chainx, chain]);
        assert trace == old(trace) + [];
        return;
      }
      ghost var h1, l1, leaf := heap, leaked, heap[x.addr].cert;
      Addrs1(x);
      SinceFresh(h0, l0, x.addr, X509Obj(leaf), [x]);
      url, chainx, chain, rc := AfterLeaf(c, env, x);
      SinceExtend13(h0, l0, h1, l1, heap, leaked, x, url, chainx, chain);
    }

    /**
      The steps after jailing, from reading the leaf frame on. What csr, x,
      url, chainx and chain refer to at the end is left for the cleanup.
     */
    method RunSteps(c: Crypto, env: Env)
      returns (x: Ptr, csr: Ptr, url: Ptr, chainx: Ptr, chain: Ptr, rc: int)
      requires Valid() && netOpen && fileOpen
      modifies this`netIn, this`netAccepts, this`fileAccepts, this`heap, this`next, this`leaked, this`lostLog, this`trace
      ensures Valid()
      ensures var p := Steps(c, env, old(netIn), old(netAccepts), old(fileAccepts));
              trace == old(trace) + p.done && rc == (if p.ok then 1 else 0)
      ensures old(lostLog) <= lostLog && |lostLog| == |old(lostLog)| + Steps(c, env, old(netIn), old(netAccepts), old(fileAccepts)).lost
      ensures Since(old(heap), old(leaked), {}, [csr, x, url, chainx, chain])
    {
      ghost var h0, l0 := heap, leaked;
      x, url, chainx, chain, rc := Null, Null, Null, Null, 0;
      var csrsz;
      csr, csrsz := ReadNet(CommCsr);
      if csr.Null? {
        SinceUnchanged(heap, leaked, [csr, x, url, chainx, chain]);
        assert trace == old(trace) + [];
        return;
      }
      ghost var h1, l1, body := heap, leaked, heap[csr.addr].bytes;
      Addrs1(csr);
      SinceFresh(h0, l0, csr.addr, Buf(body), [csr]);
      ghost var t1 := trace;
      x, url, chainx, chain, rc := AfterCsr(c, env, csr, csrsz);
      SinceExtend14(h0, l0, h1, l1, heap, leaked, csr, x, url, chainx, chain);
      assert trace == old(trace) + ([Recv(Net, old(netIn)[0])] + (trace[|t1|..]));
    }

    /** free(3) or X509_free of one of the blocks held since h0 and l0, the i-th of ps. */
    method Release(p: Ptr, ghost h0: map<nat, Obj>, ghost l0: set<nat>, ghost ps: seq<Ptr>, ghost i: nat)
      requires Valid() && i < |ps| && ps[i] == p && Since(h0, l0, {}, ps)
      modifies this`heap
      ensures Valid() && Since(h0, l0, {}, ps[i := Null])
    {
      if p.Ref? {
        AddrsRelease(ps, i);
      } else {
        assert ps[i := Null] == ps;
      }
      Free(p);
    }

    /**
      The releases after the error label. What remains of the heap is what
      was there before and the lost blocks. (The source tests x and chainx for
      NULL before X509_free; Release of NULL does nothing, as free(3) and
      X509_free do.)
     */
    method ReleaseAll(ghost h0: map<nat, Obj>, ghost l0: set<nat>, x: Ptr, csr: Ptr, url: Ptr, chainx: Ptr, chain: Ptr)
      requires Valid() && Since(h0, l0, {}, [csr, x, url, chainx, chain])
      modifies this`heap
      ensures Valid()
      ensures forall a | a in h0 :: a in heap && heap[a] == h0[a]
      ensures heap.Keys == h0.Keys + (leaked - l0)
    {
      ghost var ps := [csr, x, url, chainx, chain];
      Release(x, h0, l0, ps, 1);
      Release(chainx, h0, l0, ps[1 := Null], 3);
      Release(csr, h0, l0, ps[1 := Null][3 := Null], 0);
      Release(url, h0, l0, ps[1 := Null][3 := Null][0 := Null], 2);
      Release(chain, h0, l0, ps[1 := Null][3 := Null][0 := Null][2 := Null], 4);
      AllReleased(ps);
      SinceNothingHeld(h0, l0, heap, leaked, ps[1 := Null][3 := Null][0 := Null][2 := Null][4 := Null]);
    }

    /** The error label, the one exit: release what is held, close both sockets. */
    method Cleanup(ghost h0: map<nat, Obj>, ghost l0: set<nat>, x: Ptr, csr: Ptr, url: Ptr, chainx: Ptr, chain: Ptr)
      requires Valid() && netOpen && fileOpen && Since(h0, l0, {}, [csr, x, url, chainx, chain])
      modifies this`heap, this`netOpen, this`fileOpen, this`trace
      ensures Valid() && !netOpen && !fileOpen && trace == old(trace) + Closing
      ensures forall a | a in h0 :: a in heap && heap[a] == h0[a]
      ensures heap.Keys == h0.Keys + (leaked - l0)
    {
      ReleaseAll(h0, l0, x, csr, url, chainx, chain);
      CloseSocket(Net);
      CloseSocket(File);
      assert old(trace) + [Close(Net)] + [Close(File)] == old(trace) + Closing;
    }

    /**
      The body of certproc: jailing, the steps, and the cleanup. The log of
      lost buffers grows by the count Protocol.Session gives.
     */
    method Serve(c: Crypto, env: Env) returns (exit: Exit)
      requires Valid() && netOpen && fileOpen
      modifies this
      ensures Valid() && old(leaked) <= leaked
      ensures var o := Session(c, env, old(netIn), old(netAccepts), old(fileAccepts));
              exit == o.exit && trace == old(trace) + o.trace &&
              old(lostLog) <= lostLog && |lostLog| == |old(lostLog)| + o.lost
      ensures exit.Return? ==> !netOpen && !fileOpen
      ensures exit.Fatal? ==> netOpen && fileOpen && heap == old(heap) && leaked == old(leaked)
      ensures forall a | a in old(heap) :: a in heap && heap[a] == old(heap)[a]
      ensures heap.Keys == old(heap).Keys + (leaked - old(leaked))
    {
      ghost var h0, l0 := heap, leaked;
      var x, csr, url, chainx, chain := Null, Null, Null, Null, Null;
      var rc := 0;

      label error: {
        // File-system and sandbox jailing.
        if env.jail.sandbox == Some(false) { break error; }
        if !env.jail.chroot { break error; }
        if !env.jail.chdir { break error; }
        if env.jail.pledge == Some(false) { break error; }
        if !env.dropprivs {
          return Fatal;
        }
        ghost var t0, in0, na0, fa0 := trace, netIn, netAccepts, fileAccepts;
        x, csr, url, chainx, chain, rc := RunSteps(c, env);
        ghost var done := Steps(c, env, in0, na0, fa0).done;
        assert t0 + done + Closing == t0 + (done + Closing);
      }
      if !Jailed(env.jail) {
        SinceUnchanged(heap, leaked, [csr, x, url, chainx, chain]);
        assert [] + Closing == Closing;
      }
      Cleanup(h0, l0, x, csr, url, chainx, chain);
      exit := Return(rc);
    }

    /**
      certproc(netsock, filesock, uid, gid). crypto stands for OpenSSL and env
      for the outcomes of the jailing, dropprivs and allocation calls; the
      sockets and their peers are this worker's fields. The session does
      exactly what Protocol.Session describes (see module Properties for what
      that promises), every object it owns is released at the end except at
      most one buffer x509buf loses on a short read, nothing is released
      twice, and each socket is closed once on every exit that returns.
     */
    method Certproc(c: Crypto, env: Env) returns (exit: Exit)
      requires Valid() && netOpen && fileOpen
      modifies this
      ensures Valid() && old(leaked) <= leaked
      ensures var o := Session(c, env, old(netIn), old(netAccepts), old(fileAccepts));
              exit == o.exit && trace == old(trace) + o.trace &&
              old(lostLog) <= lostLog && |lostLog| == |old(lostLog)| + o.lost
      ensures |leaked - old(leaked)| <= 1
      ensures (forall x :: !ShortRead(c, x, env.chainBuf) && !ShortRead(c, x, env.leafBuf)) ==> leaked == old(leaked)
      ensures exit.Return? ==> !netOpen && !fileOpen
      ensures exit.Fatal? ==> netOpen && fileOpen && heap == old(heap) && leaked == old(leaked)
      ensures forall a | a in old(heap) :: a in heap && heap[a] == old(heap)[a]
      ensures heap.Keys == old(heap).Keys + (leaked - old(leaked))
    {
      exit := Serve(c, env);
      Properties.LostBuffers(c, env, old(netIn), old(netAccepts), old(fileAccepts));
      LogGrowth(old(lostLog), lostLog);
    }
  }
}
