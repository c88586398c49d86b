/**
  The certificate worker's session, as a function of what the outside world
  does: the OpenSSL oracles, the outcomes of the jail and allocation calls, the
  frames the network process sends and how many frames each peer accepts. The
  imperative model in module CertProc is proved to produce exactly this
  outcome; the lemmas below state what the session promises.
 */
module Protocol {
  import opened Wrappers
  import opened CStrings
  import opened X509

  /** The frame types used here (COMM_CSR carries the leaf certificate). */
  datatype Comm = CommCsr | CommIssuer | CommChain

  /** The two sockets: netsock to the network process, filesock to the file process. */
  datatype Sock = Net | File

  /** A framed message: its type and its payload bytes. */
  datatype Frame = Frame(tag: Comm, body: seq<byte>)

  /** What the worker does on its sockets, in order. */
  datatype Event = Recv(sock: Sock, frame: Frame) | Send(sock: Sock, frame: Frame) | Close(sock: Sock)

  /** Outcomes of the jailing calls; None stands for a call the platform does not compile in
      (sandbox_init outside macOS, pledge outside OpenBSD). */
  datatype Jail = Jail(sandbox: Option<bool>, chroot: bool, chdir: bool, pledge: Option<bool>)

  /** Outcomes of the steps of one x509buf call: BIO_new, PEM_write_bio_X509, malloc, and
      the count BIO_read returns. */
  datatype BufOutcomes = BufOutcomes(bioNew: bool, pemWrite: bool, malloc: bool, readLen: int)

  /** Everything else the environment decides: jailing, dropprivs, strdup of the URL, and
      the two x509buf calls (for the chain and for the leaf). */
  datatype Env = Env(jail: Jail, dropprivs: bool, strdup: bool, chainBuf: BufOutcomes, leafBuf: BufOutcomes)

  /** certproc either returns rc, or the process exits through doerrx. */
  datatype Exit = Return(rc: int) | Fatal

  /** How a session ends: the exit, the events on the sockets, and how many buffers it
      lost (allocated and never released). */
  datatype Outcome = Outcome(exit: Exit, trace: seq<Event>, lost: nat)

  /** The marker of a PEM certificate (section 5 of RFC 7468): the ASCII bytes of
      "-----BEGIN CERTIFICATE-----" (see MarkerSpells). */
  const Marker: CString :=
    [45, 45, 45, 45, 45, 66, 69, 71, 73, 78, 32, 67, 69, 82, 84, 73, 70, 73, 67, 65, 84, 69, 45, 45, 45, 45, 45]

  /** The jail is in place: no call that the platform makes failed. */
  predicate Jailed(j: Jail)
  {
    j.sandbox != Some(false) && j.chroot && j.chdir && j.pledge != Some(false)
  }

  /** What x509buf yields for a certificate: its PEM text, unless one of its steps fails. */
  function PemBuf(c: Crypto, x: Cert, o: BufOutcomes): Option<seq<byte>>
  {
    if o.bioNew && o.pemWrite && o.malloc && o.readLen == |c.pem(x)| then Some(c.pem(x)) else None
  }

  /** x509buf gets as far as BIO_read and the count it returns is short: the buffer
      malloc gave it is then lost. */
  predicate ShortRead(c: Crypto, x: Cert, o: BufOutcomes)
  {
    o.bioNew && o.pemWrite && o.malloc && o.readLen != |c.pem(x)|
  }

  /** The buffers one x509buf call loses. */
  function Loses(c: Crypto, x: Cert, o: BufOutcomes): nat
  {
    if ShortRead(c, x, o) then 1 else 0
  }

  /** A chain buffer taken to be PEM already: longer than the marker and beginning with it. */
  predicate IsPem(b: seq<byte>)
  {
    |b| > |Marker| && b[..|Marker|] == Marker
  }

  /** The chain as it goes to the file process: unchanged when already PEM, otherwise
      DER-decoded and re-encoded; None aborts the session. */
  function Normalize(c: Crypto, chain: seq<byte>, o: BufOutcomes): Option<seq<byte>>
  {
    if IsPem(chain) then Some(chain)
    else
      match c.d2i(chain)
      case None => None
      case Some(cx) => PemBuf(c, cx, o)
  }

  /** The buffers normalising the chain loses: those of its re-encoding, when there is one. */
  function NormalizeLost(c: Crypto, chain: seq<byte>, o: BufOutcomes): nat
  {
    if IsPem(chain) then 0
    else
      match c.d2i(chain)
      case None => 0
      case Some(cx) => Loses(c, cx, o)
  }

  /** The cleanup's two closes, in the order of the source. */
  const Closing: seq<Event> := [Close(Net), Close(File)]

  /** A session that stopped after the events done: cleanup runs and the result is 0. */
  function Failed(done: seq<Event>): Outcome
  {
    Outcome(Return(0), done + Closing, 0)
  }

  /** How far the steps after jailing got: whether every step succeeded, the events done,
      and the buffers lost on the way. */
  datatype Progress = Progress(ok: bool, done: seq<Event>, lost: nat)

  /** The steps that fail before doing anything. */
  const Stopped: Progress := Progress(false, [], 0)

  /** Progress p, after the events pre. */
  function Then(pre: seq<Event>, p: Progress): Progress
  {
    Progress(p.ok, pre + p.done, p.lost)
  }

  /** The steps from sending the normalised chain to the file process: the chain, then
      the leaf re-encoded as PEM. */
  function DeliverSteps(c: Crypto, leafBuf: BufOutcomes, leaf: Cert, chain: seq<byte>, fileAccepts: nat): Progress
  {
    if fileAccepts == 0 then Stopped
    else
      var t := [Send(File, Frame(CommChain, chain))];
      var leafPem := PemBuf(c, leaf, leafBuf);
      if leafPem.None? then Progress(false, t, Loses(c, leaf, leafBuf))
      else if fileAccepts < 2 then Progress(false, t, 0)
      else Progress(true, t + [Send(File, Frame(CommCsr, leafPem.value))], 0)
  }

  /** The steps from normalising the chain as read from the network process. */
  function ChainSteps(c: Crypto, env: Env, leaf: Cert, chain: seq<byte>, fileAccepts: nat): Progress
  {
    match Normalize(c, chain, env.chainBuf)
    case None => Progress(false, [], NormalizeLost(c, chain, env.chainBuf))
    case Some(n) => DeliverSteps(c, env.leafBuf, leaf, n, fileAccepts)
  }

  /** The steps once the issuer URL is sent: read the chain (the first of the frames
      rest) and go on with it. */
  function ChainReply(c: Crypto, env: Env, leaf: Cert, rest: seq<Frame>, fileAccepts: nat): Progress
  {
    if |rest| == 0 || rest[0].tag != CommChain then Stopped
    else Then([Recv(Net, rest[0])], ChainSteps(c, env, leaf, rest[0].body, fileAccepts))
  }

  /** The steps once the leaf's issuer URL url is copied: send it as ISSUER, then the chain. */
  function IssuerSteps(c: Crypto, env: Env, leaf: Cert, url: seq<byte>, rest: seq<Frame>, netAccepts: nat, fileAccepts: nat): Progress
  {
    if netAccepts == 0 then Stopped
    else Then([Send(Net, Frame(CommIssuer, url))], ChainReply(c, env, leaf, rest, fileAccepts))
  }

  /** The steps once the leaf is decoded: find and copy its issuer URL, then send it. */
  function LeafSteps(c: Crypto, env: Env, leaf: Cert, rest: seq<Frame>, netAccepts: nat, fileAccepts: nat): Progress
  {
    match IssuerUrl(c, leaf)
    case None => Stopped
    case Some(url) => if !env.strdup then Stopped else IssuerSteps(c, env, leaf, url, rest, netAccepts, fileAccepts)
  }

  /** The steps once the leaf frame is read, with body its payload: decode it, then
      go on with the leaf. */
  function CsrSteps(c: Crypto, env: Env, body: seq<byte>, rest: seq<Frame>, netAccepts: nat, fileAccepts: nat): Progress
  {
    match c.d2i(body)
    case None => Stopped
    case Some(leaf) => LeafSteps(c, env, leaf, rest, netAccepts, fileAccepts)
  }

  /**
    The steps after jailing, in the source's order: read and decode the leaf,
    find its issuer URL, copy it, send it as ISSUER, read the CHAIN, normalise
    it, send it to the file process, re-encode the leaf and send it as CSR.
    The first step that fails ends the steps; each stage function above is the
    rest of the steps from one point on.
   */
  function Steps(c: Crypto, env: Env, netIn: seq<Frame>, netAccepts: nat, fileAccepts: nat): Progress
  {
    if |netIn| == 0 || netIn[0].tag != CommCsr then Stopped
    else Then([Recv(Net, netIn[0])], CsrSteps(c, env, netIn[0].body, netIn[1..], netAccepts, fileAccepts))
  }

  /** The whole session: jail, drop privileges, run the steps, clean up. */
  function Session(c: Crypto, env: Env, netIn: seq<Frame>, netAccepts: nat, fileAccepts: nat): Outcome
  {
    if !Jailed(env.jail) then Failed([])
    else if !env.dropprivs then Outcome(Fatal, [], 0)
    else
      var p := Steps(c, env, netIn, netAccepts, fileAccepts);
      Outcome(Return(if p.ok then 1 else 0), p.done + Closing, p.lost)
  }

  /** The frames sent on socket s, in order. */
  function SentOn(tr: seq<Event>, s: Sock): seq<Frame>
  {
    if tr == [] then []
    else (if tr[0].Send? && tr[0].sock == s then [tr[0].frame] else []) + SentOn(tr[1..], s)
  }

  /** How many times socket s is closed. */
  function Closes(tr: seq<Event>, s: Sock): nat
  {
    if tr == [] then 0 else (if tr[0] == Close(s) then 1 else 0) + Closes(tr[1..], s)
  }

  lemma {:induction false} SentOnAppend(a: seq<Event>, b: seq<Event>, s: Sock)
    ensures SentOn(a + b, s) == SentOn(a, s) + SentOn(b, s)
  {
    if a != [] {
      assert (a + b)[1..] == a[1..] + b;
      SentOnAppend(a[1..], b, s);
    } else {
      assert a + b == b;
    }
  }

  lemma {:induction false} ClosesAppend(a: seq<Event>, b: seq<Event>, s: Sock)
    ensures Closes(a + b, s) == Closes(a, s) + Closes(b, s)
  {
    if a != [] {
      assert (a + b)[1..] == a[1..] + b;
      ClosesAppend(a[1..], b, s);
    } else {
      assert a + b == b;
    }
  }

  /** Appending one event adds its frame to the frames sent on its socket, and nothing else. */
  lemma SentOnSnoc(tr: seq<Event>, e: Event, s: Sock)
    ensures SentOn(tr + [e], s) == SentOn(tr, s) + (if e.Send? && e.sock == s then [e.frame] else [])
    ensures Closes(tr + [e], s) == Closes(tr, s) + (if e == Close(s) then 1 else 0)
  {
    SentOnAppend(tr, [e], s);
    ClosesAppend(tr, [e], s);
  }

  /** The cleanup sends nothing and closes each socket once. */
  lemma FailedEffects(done: seq<Event>, s: Sock)
    ensures SentOn(Failed(done).trace, s) == SentOn(done, s)
    ensures Closes(Failed(done).trace, s) == Closes(done, s) + 1
  {
    SentOnAppend(done, Closing, s);
    ClosesAppend(done, Closing, s);
  }

  lemma MarkerSpells()
    ensures Spells(Marker, "-----BEGIN CERTIFICATE-----")
    ensures |Marker| == 27
  {
  }

  /** certproc.c's test for a chain that is not PEM yet, chainsz <= strlen(MARKER) ||
      strncmp(chain, MARKER, strlen(MARKER)), is exactly the negation of IsPem. */
  lemma MarkerTest(b: seq<byte>)
    ensures (|b| <= StrLen(Marker) || StrNCmp(b, Marker, StrLen(Marker)) != 0) <==> !IsPem(b)
  {
    PrefixTest(b, Marker);
  }
}
