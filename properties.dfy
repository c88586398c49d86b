/** What a certproc session promises, proved of Protocol.Session. */
module Properties {
  import opened Wrappers
  import opened CStrings
  import opened X509
  import opened Protocol

  /**
    Where each event of the steps stands: the leaf's CSR read first, then the
    ISSUER request carrying the leaf's issuer URL, the CHAIN read, the
    normalised chain to the file process and the leaf's PEM text last. The
    steps succeed exactly when all five happened.
   */
  lemma StepsInOrder(c: Crypto, env: Env, netIn: seq<Frame>, netAccepts: nat, fileAccepts: nat)
    ensures var p := Steps(c, env, netIn, netAccepts, fileAccepts);
            |p.done| <= 5 && (p.ok <==> |p.done| == 5)
    ensures var p := Steps(c, env, netIn, netAccepts, fileAccepts);
            |p.done| >= 1 ==>
              |netIn| >= 1 && netIn[0].tag == CommCsr && p.done[0] == Recv(Net, netIn[0])
    ensures var p := Steps(c, env, netIn, netAccepts, fileAccepts);
            |p.done| >= 2 ==>
              |netIn| >= 1 && c.d2i(netIn[0].body).Some? && IssuerUrl(c, c.d2i(netIn[0].body).value).Some? &&
              env.strdup && netAccepts >= 1 &&
              p.done[1] == Send(Net, Frame(CommIssuer, IssuerUrl(c, c.d2i(netIn[0].body).value).value))
    ensures var p := Steps(c, env, netIn, netAccepts, fileAccepts);
            |p.done| >= 3 ==>
              |netIn| >= 2 && netIn[1].tag == CommChain && p.done[2] == Recv(Net, netIn[1])
    ensures var p := Steps(c, env, netIn, netAccepts, fileAccepts);
            |p.done| >= 4 ==>
              |netIn| >= 2 && Normalize(c, netIn[1].body, env.chainBuf).Some? && fileAccepts >= 1 &&
              p.done[3] == Send(File, Frame(CommChain, Normalize(c, netIn[1].body, env.chainBuf).value))
    ensures var p := Steps(c, env, netIn, netAccepts, fileAccepts);
            |p.done| >= 5 ==>
              |netIn| >= 1 && c.d2i(netIn[0].body).Some? &&
              PemBuf(c, c.d2i(netIn[0].body).value, env.leafBuf).Some? && fileAccepts >= 2 &&
              p.done[4] == Send(File, Frame(CommCsr, c.pem(c.d2i(netIn[0].body).value)))
  {
  }

  /** The frames sent and the closes of a sequence of events laid out as the steps lay them out. */
  lemma {:induction false} StepEvents(done: seq<Event>)
    requires |done| <= 5
    requires |done| >= 1 ==> done[0].Recv?
    requires |done| >= 2 ==> done[1].Send? && done[1].sock == Net
    requires |done| >= 3 ==> done[2].Recv?
    requires |done| >= 4 ==> done[3].Send? && done[3].sock == File
    requires |done| >= 5 ==> done[4].Send? && done[4].sock == File
    ensures SentOn(done, Net) == if |done| >= 2 then [done[1].frame] else []
    ensures SentOn(done, File) == (if |done| >= 4 then [done[3].frame] else []) +
                                  (if |done| >= 5 then [done[4].frame] else [])
    ensures Closes(done, Net) == 0 && Closes(done, File) == 0
  {
    if done != [] {
      var init := done[..|done| - 1];
      StepEvents(init);
      assert done == init + [done[|done| - 1]];
      SentOnSnoc(init, done[|done| - 1], Net);
      SentOnSnoc(init, done[|done| - 1], File);
    }
  }

  /** A session that got past the jail and dropprivs: its steps, then the two closes. */
  lemma SessionEvents(c: Crypto, env: Env, netIn: seq<Frame>, netAccepts: nat, fileAccepts: nat)
    requires Jailed(env.jail) && env.dropprivs
    ensures var o := Session(c, env, netIn, netAccepts, fileAccepts);
            var p := Steps(c, env, netIn, netAccepts, fileAccepts);
            o.exit == Return(if p.ok then 1 else 0) &&
            o.trace == p.done + [Close(Net), Close(File)] &&
            SentOn(o.trace, Net) == SentOn(p.done, Net) && SentOn(o.trace, File) == SentOn(p.done, File) &&
            Closes(o.trace, Net) == 1 && Closes(o.trace, File) == 1
  {
    var p := Steps(c, env, netIn, netAccepts, fileAccepts);
    StepsInOrder(c, env, netIn, netAccepts, fileAccepts);
    StepEvents(p.done);
    FailedEffects(p.done, Net);
    FailedEffects(p.done, File);
  }

  /** Every exit that returns gives 0 or 1 and closes each socket exactly once, as its last
      two events; the fatal exit does nothing at all. */
  lemma CleanupClosesEachSocketOnce(c: Crypto, env: Env, netIn: seq<Frame>, netAccepts: nat, fileAccepts: nat)
    ensures var o := Session(c, env, netIn, netAccepts, fileAccepts);
            o.exit == Fatal ==> o.trace == []
    ensures var o := Session(c, env, netIn, netAccepts, fileAccepts);
            o.exit.Return? ==>
              o.exit.rc in {0, 1} &&
              Closes(o.trace, Net) == 1 && Closes(o.trace, File) == 1 &&
              |o.trace| >= 2 && o.trace[|o.trace| - 2..] == [Close(Net), Close(File)]
  {
    if !Jailed(env.jail) {
      FailedEffects([], Net);
      FailedEffects([], File);
    } else if env.dropprivs {
      SessionEvents(c, env, netIn, netAccepts, fileAccepts);
    }
  }

  /**
    The network socket receives at most one frame, the ISSUER request, and only
    after the leaf was read as COMM_CSR and decoded: it carries that leaf's
    issuer URL and is the second event of the session.
   */
  lemma IssuerRequestedOnceAfterLeaf(c: Crypto, env: Env, netIn: seq<Frame>, netAccepts: nat, fileAccepts: nat)
    ensures var o := Session(c, env, netIn, netAccepts, fileAccepts);
            SentOn(o.trace, Net) != [] ==>
              |netIn| >= 1 && netIn[0].tag == CommCsr && c.d2i(netIn[0].body).Some? &&
              IssuerUrl(c, c.d2i(netIn[0].body).value).Some? &&
              var url := IssuerUrl(c, c.d2i(netIn[0].body).value).value;
              SentOn(o.trace, Net) == [Frame(CommIssuer, url)] &&
              |o.trace| >= 2 && o.trace[0] == Recv(Net, netIn[0]) && o.trace[1] == Send(Net, Frame(CommIssuer, url))
  {
    if !Jailed(env.jail) {
      FailedEffects([], Net);
    } else if env.dropprivs {
      SessionEvents(c, env, netIn, netAccepts, fileAccepts);
      StepsInOrder(c, env, netIn, netAccepts, fileAccepts);
      StepEvents(Steps(c, env, netIn, netAccepts, fileAccepts).done);
    }
  }

  /**
    The file socket is written only after the ISSUER request went out and a
    CHAIN frame came back and was normalised: first the normalised chain (the
    fourth event), then possibly the leaf's PEM text, and nothing else.
   */
  lemma FileWritesFollowNormalisation(c: Crypto, env: Env, netIn: seq<Frame>, netAccepts: nat, fileAccepts: nat)
    ensures var o := Session(c, env, netIn, netAccepts, fileAccepts);
            SentOn(o.trace, File) != [] ==>
              SentOn(o.trace, Net) != [] &&
              |netIn| >= 2 && netIn[1].tag == CommChain && c.d2i(netIn[0].body).Some? &&
              Normalize(c, netIn[1].body, env.chainBuf).Some? &&
              var chain := Frame(CommChain, Normalize(c, netIn[1].body, env.chainBuf).value);
              |o.trace| >= 4 && o.trace[2] == Recv(Net, netIn[1]) && o.trace[3] == Send(File, chain) &&
              (SentOn(o.trace, File) == [chain] ||
               SentOn(o.trace, File) == [chain, Frame(CommCsr, c.pem(c.d2i(netIn[0].body).value))])
  {
    if !Jailed(env.jail) {
      FailedEffects([], File);
    } else if env.dropprivs {
      SessionEvents(c, env, netIn, netAccepts, fileAccepts);
      StepsInOrder(c, env, netIn, netAccepts, fileAccepts);
      StepEvents(Steps(c, env, netIn, netAccepts, fileAccepts).done);
    }
  }

  /** A jail failure takes the ordinary error exit: 0, and the two sockets closed. */
  lemma JailFailureReturnsZero(c: Crypto, env: Env, netIn: seq<Frame>, netAccepts: nat, fileAccepts: nat)
    requires !Jailed(env.jail)
    ensures Session(c, env, netIn, netAccepts, fileAccepts) == Outcome(Return(0), [Close(Net), Close(File)], 0)
  {
  }

  /** A dropprivs failure ends the process: no return, no cleanup, nothing on either socket. */
  lemma DropprivsFailureIsFatal(c: Crypto, env: Env, netIn: seq<Frame>, netAccepts: nat, fileAccepts: nat)
    requires Jailed(env.jail) && !env.dropprivs
    ensures Session(c, env, netIn, netAccepts, fileAccepts) == Outcome(Fatal, [], 0)
  {
  }

  /** A leaf that cannot be read as COMM_CSR or decoded: result 0 and no write to either socket. */
  lemma LeafFailureIsSilent(c: Crypto, env: Env, netIn: seq<Frame>, netAccepts: nat, fileAccepts: nat)
    requires |netIn| == 0 || netIn[0].tag != CommCsr || c.d2i(netIn[0].body).None?
    ensures var o := Session(c, env, netIn, netAccepts, fileAccepts);
            o.exit != Return(1) && SentOn(o.trace, Net) == [] && SentOn(o.trace, File) == []
  {
    IssuerRequestedOnceAfterLeaf(c, env, netIn, netAccepts, fileAccepts);
    FileWritesFollowNormalisation(c, env, netIn, netAccepts, fileAccepts);
    SuccessfulSession(c, env, netIn, netAccepts, fileAccepts);
  }

  /** No issuer URL (no AIA extension, no method for it, no entries, or no "CA Issuers - URI"
      entry): result 0 before anything is written to either socket, so no chain is requested. */
  lemma NoIssuerIsSilent(c: Crypto, env: Env, netIn: seq<Frame>, netAccepts: nat, fileAccepts: nat)
    requires |netIn| >= 1 && c.d2i(netIn[0].body).Some?
    requires IssuerUrl(c, c.d2i(netIn[0].body).value).None?
    ensures var o := Session(c, env, netIn, netAccepts, fileAccepts);
            o.exit != Return(1) && SentOn(o.trace, Net) == [] && SentOn(o.trace, File) == []
  {
    IssuerRequestedOnceAfterLeaf(c, env, netIn, netAccepts, fileAccepts);
    FileWritesFollowNormalisation(c, env, netIn, netAccepts, fileAccepts);
    SuccessfulSession(c, env, netIn, netAccepts, fileAccepts);
  }

  /** A received chain longer than the marker and starting with it reaches the file process
      byte for byte: any CHAIN frame written there is exactly the received buffer. */
  lemma PemChainForwardedUnchanged(c: Crypto, env: Env, netIn: seq<Frame>, netAccepts: nat, fileAccepts: nat)
    requires |netIn| >= 2 && |netIn[1].body| > |Marker| && netIn[1].body[..|Marker|] == Marker
    ensures var o := Session(c, env, netIn, netAccepts, fileAccepts);
            forall f | f in SentOn(o.trace, File) && f.tag == CommChain :: f.body == netIn[1].body
  {
    FileWritesFollowNormalisation(c, env, netIn, netAccepts, fileAccepts);
  }

  /** A chain no longer than the marker (the bare marker included) is never taken for PEM:
      it always goes through DER decoding. */
  lemma ShortChainIsDecoded(c: Crypto, chain: seq<byte>, o: BufOutcomes)
    requires |chain| <= 27
    ensures Normalize(c, chain, o) == match c.d2i(chain) case None => None case Some(cx) => PemBuf(c, cx, o)
  {
    MarkerSpells();
  }

  /** A chain no longer than the marker that does not decode: result 0, nothing to the file process. */
  lemma ShortUndecodableChainIsSilent(c: Crypto, env: Env, netIn: seq<Frame>, netAccepts: nat, fileAccepts: nat)
    requires |netIn| >= 2 && |netIn[1].body| <= 27 && c.d2i(netIn[1].body).None?
    ensures var o := Session(c, env, netIn, netAccepts, fileAccepts);
            o.exit != Return(1) && SentOn(o.trace, File) == []
  {
    ShortChainIsDecoded(c, netIn[1].body, env.chainBuf);
    FileWritesFollowNormalisation(c, env, netIn, netAccepts, fileAccepts);
    SuccessfulSession(c, env, netIn, netAccepts, fileAccepts);
  }

  /** Delivery succeeds exactly when the leaf re-encodes and the file process takes both frames. */
  lemma DeliverSucceeds(c: Crypto, leafBuf: BufOutcomes, leaf: Cert, chain: seq<byte>, fileAccepts: nat)
    ensures var p := DeliverSteps(c, leafBuf, leaf, chain, fileAccepts);
            (p.ok <==> PemBuf(c, leaf, leafBuf).Some? && fileAccepts >= 2) &&
            (p.ok ==> p.done == [Send(File, Frame(CommChain, chain)), Send(File, Frame(CommCsr, c.pem(leaf)))])
  {
  }

  /** From the chain as read: it normalises, then delivery succeeds. */
  lemma ChainSucceeds(c: Crypto, env: Env, leaf: Cert, chain: seq<byte>, fileAccepts: nat)
    ensures var p := ChainSteps(c, env, leaf, chain, fileAccepts);
            var n := Normalize(c, chain, env.chainBuf);
            (p.ok <==> n.Some? && PemBuf(c, leaf, env.leafBuf).Some? && fileAccepts >= 2) &&
            (p.ok ==> p.done == [Send(File, Frame(CommChain, n.value)), Send(File, Frame(CommCsr, c.pem(leaf)))])
  {
    if n :| Normalize(c, chain, env.chainBuf) == Some(n) {
      DeliverSucceeds(c, env.leafBuf, leaf, n, fileAccepts);
    }
  }

  /** From the chain reply: the network process sends a CHAIN frame, then the chain succeeds. */
  lemma ReplySucceeds(c: Crypto, env: Env, leaf: Cert, rest: seq<Frame>, fileAccepts: nat)
    ensures var p := ChainReply(c, env, leaf, rest, fileAccepts);
            (p.ok <==> |rest| >= 1 && rest[0].tag == CommChain &&
                       Normalize(c, rest[0].body, env.chainBuf).Some? &&
                       PemBuf(c, leaf, env.leafBuf).Some? && fileAccepts >= 2) &&
            (p.ok ==> p.done == [Recv(Net, rest[0]),
                                 Send(File, Frame(CommChain, Normalize(c, rest[0].body, env.chainBuf).value)),
                                 Send(File, Frame(CommCsr, c.pem(leaf)))])
  {
    if |rest| >= 1 && rest[0].tag == CommChain {
      ChainSucceeds(c, env, leaf, rest[0].body, fileAccepts);
    }
  }

  /** From the decoded leaf: its issuer URL is found, copied and sent, then the reply succeeds. */
  lemma LeafSucceeds(c: Crypto, env: Env, leaf: Cert, rest: seq<Frame>, netAccepts: nat, fileAccepts: nat)
    ensures var p := LeafSteps(c, env, leaf, rest, netAccepts, fileAccepts);
            var url := IssuerUrl(c, leaf);
            (p.ok <==> url.Some? && env.strdup && netAccepts >= 1 &&
                       |rest| >= 1 && rest[0].tag == CommChain &&
                       Normalize(c, rest[0].body, env.chainBuf).Some? &&
                       PemBuf(c, leaf, env.leafBuf).Some? && fileAccepts >= 2) &&
            (p.ok ==> p.done == [Send(Net, Frame(CommIssuer, url.value)),
                                 Recv(Net, rest[0]),
                                 Send(File, Frame(CommChain, Normalize(c, rest[0].body, env.chainBuf).value)),
                                 Send(File, Frame(CommCsr, c.pem(leaf)))])
  {
    ReplySucceeds(c, env, leaf, rest, fileAccepts);
  }

  /** The steps succeed exactly when every step does, and then they are these five events. */
  lemma StepsSucceed(c: Crypto, env: Env, netIn: seq<Frame>, netAccepts: nat, fileAccepts: nat)
    ensures var p := Steps(c, env, netIn, netAccepts, fileAccepts);
            (p.ok <==> |netIn| >= 2 && netIn[0].tag == CommCsr && netIn[1].tag == CommChain &&
                       c.d2i(netIn[0].body).Some? && IssuerUrl(c, c.d2i(netIn[0].body).value).Some? &&
                       env.strdup && netAccepts >= 1 &&
                       Normalize(c, netIn[1].body, env.chainBuf).Some? &&
                       PemBuf(c, c.d2i(netIn[0].body).value, env.leafBuf).Some? && fileAccepts >= 2) &&
            (p.ok ==> var leaf := c.d2i(netIn[0].body).value;
                      p.done == [Recv(Net, netIn[0]),
                                 Send(Net, Frame(CommIssuer, IssuerUrl(c, leaf).value)),
                                 Recv(Net, netIn[1]),
                                 Send(File, Frame(CommChain, Normalize(c, netIn[1].body, env.chainBuf).value)),
                                 Send(File, Frame(CommCsr, c.pem(leaf)))])
  {
    if |netIn| >= 1 && netIn[0].tag == CommCsr && c.d2i(netIn[0].body).Some? {
      var rest := netIn[1..];
      assert |rest| >= 1 ==> rest[0] == netIn[1];
      LeafSucceeds(c, env, c.d2i(netIn[0].body).value, rest, netAccepts, fileAccepts);
    }
  }

  /**
    certproc returns 1 exactly when every step succeeds, and then the session
    is: read the leaf, request its issuer URL, read the chain, send the
    normalised chain, send the leaf's PEM text, close both sockets.
   */
  lemma SuccessfulSession(c: Crypto, env: Env, netIn: seq<Frame>, netAccepts: nat, fileAccepts: nat)
    ensures Session(c, env, netIn, netAccepts, fileAccepts).exit == Return(1) <==>
              Jailed(env.jail) && env.dropprivs &&
              |netIn| >= 2 && netIn[0].tag == CommCsr && netIn[1].tag == CommChain &&
              c.d2i(netIn[0].body).Some? && IssuerUrl(c, c.d2i(netIn[0].body).value).Some? &&
              env.strdup && netAccepts >= 1 &&
              Normalize(c, netIn[1].body, env.chainBuf).Some? &&
              PemBuf(c, c.d2i(netIn[0].body).value, env.leafBuf).Some? && fileAccepts >= 2
    ensures var o := Session(c, env, netIn, netAccepts, fileAccepts);
            o.exit == Return(1) ==>
              |netIn| >= 2 && c.d2i(netIn[0].body).Some? &&
              IssuerUrl(c, c.d2i(netIn[0].body).value).Some? &&
              Normalize(c, netIn[1].body, env.chainBuf).Some? &&
              var leaf := c.d2i(netIn[0].body).value;
              o.trace == [Recv(Net, netIn[0]),
                          Send(Net, Frame(CommIssuer, IssuerUrl(c, leaf).value)),
                          Recv(Net, netIn[1]),
                          Send(File, Frame(CommChain, Normalize(c, netIn[1].body, env.chainBuf).value)),
                          Send(File, Frame(CommCsr, c.pem(leaf))),
                          Close(Net), Close(File)]
  {
    StepsSucceed(c, env, netIn, netAccepts, fileAccepts);
  }

  /** When the encoder always writes PEM text, so does the file process always receive it:
      whatever the chain arrived as, and for the leaf. */
  lemma OnlyPemReachesFile(c: Crypto, env: Env, netIn: seq<Frame>, netAccepts: nat, fileAccepts: nat)
    requires forall x :: IsPem(c.pem(x))
    ensures var o := Session(c, env, netIn, netAccepts, fileAccepts);
            forall f | f in SentOn(o.trace, File) :: IsPem(f.body)
  {
    FileWritesFollowNormalisation(c, env, netIn, netAccepts, fileAccepts);
    if |netIn| >= 2 && !IsPem(netIn[1].body) && c.d2i(netIn[1].body).Some? {
      assert IsPem(c.pem(c.d2i(netIn[1].body).value));
    }
  }

  /**
    A session loses at most one buffer, and only when BIO_read comes back
    short: re-encoding a chain that is not PEM yet and decodes, or else
    re-encoding the decoded leaf (a failed chain re-encoding ends the session
    before the leaf is re-encoded). A successful session loses none, and
    neither does a session in which BIO_read is never short.
   */
  lemma LostBuffers(c: Crypto, env: Env, netIn: seq<Frame>, netAccepts: nat, fileAccepts: nat)
    ensures var o := Session(c, env, netIn, netAccepts, fileAccepts);
            o.lost <= 1 && (o.exit == Return(1) ==> o.lost == 0)
    ensures var o := Session(c, env, netIn, netAccepts, fileAccepts);
            o.lost > 0 ==>
              |netIn| >= 2 && c.d2i(netIn[0].body).Some? &&
              ((!IsPem(netIn[1].body) && c.d2i(netIn[1].body).Some? &&
                ShortRead(c, c.d2i(netIn[1].body).value, env.chainBuf)) ||
               ShortRead(c, c.d2i(netIn[0].body).value, env.leafBuf))
    ensures (forall x :: !ShortRead(c, x, env.chainBuf) && !ShortRead(c, x, env.leafBuf)) ==>
              Session(c, env, netIn, netAccepts, fileAccepts).lost == 0
  {
    if Jailed(env.jail) && env.dropprivs && |netIn| >= 1 && netIn[0].tag == CommCsr && c.d2i(netIn[0].body).Some? {
      var leaf := c.d2i(netIn[0].body).value;
      var rest := netIn[1..];
      if IssuerUrl(c, leaf).Some? && env.strdup && netAccepts >= 1 && |rest| >= 1 && rest[0].tag == CommChain {
        assert rest[0] == netIn[1];
        ChainLost(c, env, leaf, rest[0].body, fileAccepts);
      }
    }
  }

  /** The buffers lost from normalising the chain on: the chain's re-encoding, or else the leaf's. */
  lemma ChainLost(c: Crypto, env: Env, leaf: Cert, chain: seq<byte>, fileAccepts: nat)
    ensures var p := ChainSteps(c, env, leaf, chain, fileAccepts);
            p.lost <= 1 && (p.ok ==> p.lost == 0) &&
            (p.lost > 0 ==> (!IsPem(chain) && c.d2i(chain).Some? && ShortRead(c, c.d2i(chain).value, env.chainBuf)) ||
                            ShortRead(c, leaf, env.leafBuf))
  {
  }
}
