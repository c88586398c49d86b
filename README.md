# certproc — a verified model of acme-client's certificate worker

`certproc` is the unprivileged worker of acme-client that turns a freshly
signed certificate into the files the storage process writes. It jails
itself (sandbox, chroot, chdir, pledge), drops privileges, then:

1. reads the leaf certificate from the network process as a `COMM_CSR`
   frame and decodes it from DER;
2. finds the first "CA Issuers - URI" entry of the leaf's Authority
   Information Access extension;
3. copies that URL and sends it back as `COMM_ISSUER`;
4. reads the issuer chain back as `COMM_CHAIN` and normalises it. A buffer
   longer than `-----BEGIN CERTIFICATE-----` that begins with that marker
   passes through unchanged. Anything else is decoded as DER and re-encoded
   as PEM with `x509buf`;
5. sends the normalised chain to the file process as `COMM_CHAIN`, and the
   leaf re-encoded as PEM as `COMM_CSR`.

Every failure jumps to one cleanup. It releases the two certificates and
the three buffers, closes both sockets and returns 0; a full run returns 1.
A `dropprivs` failure ends the process with no cleanup.

The model has five modules:

- `CStrings`: bytes, C strings, and `strlen`, `strcmp` and `strncmp`.
- `X509`: certificates and extensions, the extension lookup by NID, and the
  issuer-URL selection. OpenSSL's DER decoder, PEM encoder and AIA
  conversion are the parameters of a `Crypto` record.
- `Protocol`: the frames and socket events, and the environment's outcomes
  (jailing results, allocation results, what `BIO_read` returns). It
  gives the session as a function (`Session`), built stage by stage
  (`Steps`, `CsrSteps`, `LeafSteps`, `IssuerSteps`, `ChainReply`,
  `ChainSteps`, `DeliverSteps`).
- `Properties`: what a session promises, proved of `Session`.
- `CertProc`: the worker in the source's imperative form. It is a class
  `Worker` with a heap of objects, two sockets with their peers, and a
  ghost trace of socket events. `Certproc` runs the C function's steps in
  a labeled block left with `break` in place of `goto error`, then one
  cleanup. Each stage method is proved against the matching stage function
  of `Protocol`. A ghost ownership relation (`SinceOf`) follows every
  block each stage allocates, hands on or loses.

`Free` requires the block to be owned, that is live and not lost. So the
fact that `Certproc` verifies shows that nothing is released twice. The
ownership relation also shows that every block the session allocates is
released, except the ones it loses.

The lost blocks are logged in a ghost sequence `lostLog`, and `Valid` keeps
the set of lost blocks equal to the blocks of that log. Only `X509Buf` adds
to it: one buffer, exactly when `BIO_read` comes back short
(certproc.c:69-73 returns without freeing the buffer malloc gave it). Each
stage method states how many entries it adds, as the `lost` count of its
stage function (built from `ShortRead`, `Loses` and `NormalizeLost`). So
`Certproc` shows that at most one block is lost, and none when
`BIO_read` is never short. `Properties.LostBuffers` says which one: the
chain's re-encoding or the leaf's. A failed chain re-encoding ends the
session before the leaf is re-encoded (certproc.c:204-205).

Two facts about the code's error paths:

- A jailing failure (sandbox, chroot, chdir, pledge) is not fatal. It
  takes the ordinary error exit, closes both sockets and returns 0
  (`Properties.JailFailureReturnsZero`). Only a `dropprivs` failure is
  fatal (`Properties.DropprivsFailureIsFatal`).
- The chain is written before the leaf is re-encoded, so a failed leaf
  re-encoding leaves the chain written
  (`Properties.FileWritesFollowNormalisation`).

## Model

| member | source | states |
|---|---|---|
| CStrings.StrLen | certproc.c:194-195 | strlen: the result is at most the buffer length, no NUL comes before it, and a NUL sits at it when it is inside the buffer |
| CStrings.StrLenOfCString | certproc.c:194 | strlen of a NUL-free string is its length |
| CStrings.StrCmp | certproc.c:161 | strcmp(3): the difference of the first bytes that differ, 0 when the strings agree up to a common NUL (its meaning is proved in StrCmpZeroIff) |
| CStrings.StrNCmp | certproc.c:195 | strncmp(3): strcmp over at most n bytes (its meaning is proved in StrNCmpPrefix) |
| CStrings.StrCmpZeroIff | certproc.c:161 | strcmp is zero exactly when the two C strings are equal |
| CStrings.StrNCmpPrefix | certproc.c:195 | strncmp over the length of b is zero exactly when a begins with b |
| CStrings.PrefixTest | certproc.c:194-195 | `sz <= strlen(m) \|\| strncmp(b, m, strlen(m))` holds exactly when b is not longer than m or does not begin with m |
| X509.FindNid | certproc.c:152 | the index found is -1 or an index of the extension list |
| X509.ExtByNid | certproc.c:152 | X509_get_ext_by_NID returns -1 or a valid extension index |
| X509.FindNidIsFirst | certproc.c:152 | the search returns the lowest matching index at or after its start, and -1 exactly when none matches |
| X509.ExtByNidIsFirst | certproc.c:152-154 | the AIA extension consulted is the first one, and -1 means the certificate has none |
| X509.FirstIssuer | certproc.c:159-169 | the loop over the entries: the value of the first pair named "CA Issuers - URI", later pairs never looked at (proved in FirstIssuerAt, FirstIssuerNone, FirstIssuerIgnoresLater) |
| X509.AiaEntries | certproc.c:152-158 | the entries the loop scans: those X509_get_ext_d2i and i2v yield, only when the first AIA extension exists and has a method |
| X509.IssuerUrl | certproc.c:152-175 | the URL the loop copies, None when the session must give up (proved in IssuerUrlWithoutAia and IssuerUrlFromFirstAia) |
| X509.FirstIssuerAt | certproc.c:159-168 | when entry i is the first named "CA Issuers - URI", its value is the URL chosen |
| X509.FirstIssuerNone | certproc.c:159-175 | no URL is chosen exactly when no entry is named "CA Issuers - URI" |
| X509.FirstIssuerIgnoresLater | certproc.c:168 | entries after the first match never change the URL chosen (the loop breaks) |
| X509.IssuerUrlWithoutAia | certproc.c:152-157 | a certificate without an AIA extension has no issuer URL |
| X509.IssuerUrlFromFirstAia | certproc.c:152-170 | the issuer URL is the first "CA Issuers - URI" value of the entries X509_get_ext_d2i yields for the certificate, when the first AIA extension has a method and those entries decode, and none otherwise |
| X509.CaIssuersUriSpells | certproc.c:161 | the name compared against is the ASCII text "CA Issuers - URI" |
| Protocol.Jailed | certproc.c:104-128 | the jail is in place: sandbox_init (where the platform has it), chroot, chdir and pledge (where the platform has it) all succeed; any failure takes the error exit |
| Protocol.Failed | certproc.c:219-232 | the error exit after the events done: result 0, then the cleanup's two closes, close(netsock) and then close(filesock) (the constant Closing), and nothing lost |
| Protocol.PemBuf | certproc.c:43-79 | what x509buf yields: the PEM text when BIO_new, PEM_write_bio_X509 and malloc succeed and BIO_read returns the full count, None otherwise |
| Protocol.ShortRead | certproc.c:69-73 | the one failure of x509buf that loses its buffer: every call succeeds up to BIO_read, whose count is short |
| Protocol.Loses | certproc.c:69-73 | the buffers one x509buf call loses: 1 on a short read, else 0 |
| Protocol.IsPem | certproc.c:194-195 | a chain taken as PEM: longer than the marker and beginning with it (tied to the source's test by MarkerTest) |
| Protocol.Normalize | certproc.c:194-206 | the chain sent on: unchanged when PEM, else decoded and re-encoded with x509buf, None when either fails |
| Protocol.NormalizeLost | certproc.c:196-205 | the buffers normalising loses: the re-encoding's, for a chain that is not PEM and decodes |
| Protocol.DeliverSteps | certproc.c:208-217 | the two file writes: the chain, then the leaf's PEM text; stops at the first failed write or re-encoding |
| Protocol.ChainSteps | certproc.c:194-217 | normalising the chain, then delivery; a failed normalisation sends nothing |
| Protocol.ChainReply | certproc.c:184-217 | reading the CHAIN frame, then ChainSteps |
| Protocol.IssuerSteps | certproc.c:177-217 | sending the URL as ISSUER, then ChainReply |
| Protocol.LeafSteps | certproc.c:152-217 | finding and copying the issuer URL, then IssuerSteps; no URL or a failed strdup stops with nothing done |
| Protocol.CsrSteps | certproc.c:140-217 | decoding the leaf, then LeafSteps |
| Protocol.Steps | certproc.c:137-217 | reading the CSR frame, then CsrSteps: the steps after jailing, each stopping the session at its first failure |
| Protocol.Session | certproc.c:81-233 | the whole session: a failed jail is Failed, a failed dropprivs Fatal, otherwise the steps, the result 1 exactly when they succeed, and the two closes (its properties are the Properties lemmas) |
| Protocol.MarkerSpells | certproc.c:36 | the marker is the 27 ASCII bytes of "-----BEGIN CERTIFICATE-----" |
| Protocol.MarkerTest | certproc.c:194-195 | the source's not-yet-PEM test is exactly the negation of IsPem |
| Protocol.FailedEffects | certproc.c:220-229 | the cleanup sends no frame and closes each socket once |
| Properties.StepsInOrder | certproc.c:137-217 | the steps produce at most five events, five exactly on success, and each event at its position is the read, request or write that the source performs at that point, with its preconditions |
| Properties.SessionEvents | certproc.c:129-232 | past the jail and dropprivs, the result is 1 exactly when the steps succeed, the trace is the steps then the two closes, and each socket is closed once |
| Properties.CleanupClosesEachSocketOnce | certproc.c:220-232 | every returning exit gives 0 or 1 and ends with closing the network socket and then the file socket, each once; the fatal exit does nothing |
| Properties.IssuerRequestedOnceAfterLeaf | certproc.c:137-180 | the network socket receives at most the one ISSUER frame, carrying the decoded leaf's issuer URL, as the second event |
| Properties.FileWritesFollowNormalisation | certproc.c:184-217 | the file socket is written only after the CHAIN frame was read and normalised; it receives the normalised chain and then possibly the leaf's PEM text, nothing else |
| Properties.JailFailureReturnsZero | certproc.c:104-128 | a jailing failure returns 0 after closing both sockets, with nothing else done |
| Properties.DropprivsFailureIsFatal | certproc.c:129-130 | a dropprivs failure is a fatal exit with no event at all |
| Properties.LeafFailureIsSilent | certproc.c:137-145 | a leaf not read as COMM_CSR or not decoded: no result 1, nothing sent on either socket |
| Properties.NoIssuerIsSilent | certproc.c:152-175 | a leaf without an issuer URL: no result 1, nothing sent on either socket |
| Properties.PemChainForwardedUnchanged | certproc.c:194-209 | a chain above the marker's length that begins with it reaches the file process byte for byte |
| Properties.ShortChainIsDecoded | certproc.c:194-206 | a chain no longer than the marker, the bare marker included, always goes through DER decoding |
| Properties.ShortUndecodableChainIsSilent | certproc.c:194-202 | a short chain that does not decode: no result 1 and nothing sent to the file process |
| Properties.DeliverSucceeds | certproc.c:208-217 | delivery succeeds exactly when the leaf re-encodes and the file process takes both frames, and then it sends the chain, then the leaf's PEM text |
| Properties.ChainSucceeds | certproc.c:194-217 | from the chain as read: success exactly when it normalises and delivery succeeds, with the two file frames |
| Properties.ReplySucceeds | certproc.c:184-217 | from the chain reply: success exactly when a CHAIN frame comes back and the chain succeeds, with its three events |
| Properties.LeafSucceeds | certproc.c:152-217 | from the decoded leaf: success exactly when its URL is found, copied and sent and the reply succeeds, with its four events |
| Properties.StepsSucceed | certproc.c:137-219 | the steps succeed exactly when every step does, and then they are exactly the five events in the source's order |
| Properties.SuccessfulSession | certproc.c:81-233 | certproc returns 1 if and only if every step succeeds; the trace is then: read leaf, send issuer URL, read chain, send normalised chain, send leaf PEM, close, close |
| Properties.OnlyPemReachesFile | certproc.c:194-217 | when the encoder always writes PEM text, every frame to the file process is PEM |
| Properties.ChainLost | certproc.c:194-217 | from the chain on, at most one buffer is lost, none on success, and only on a short read re-encoding the chain or the leaf |
| Properties.LostBuffers | certproc.c:196-217 | a session loses at most one buffer, none when it returns 1, only on a short read re-encoding a chain that is not PEM and decodes or the decoded leaf, and none when BIO_read is never short |
| CertProc.Worker.constructor | certproc.c:82-100 | a worker starts with both sockets open, an empty heap, no events and nothing lost |
| CertProc.Worker.Alloc | certproc.c:63 | an allocation yields a block that was never used, and adds only it to the heap |
| CertProc.Worker.Free | certproc.c:221-227 | free of NULL changes nothing; anything else must be owned, which excludes a double free, and only that block is removed |
| CertProc.Worker.Strdup | certproc.c:163-167 | strdup yields a fresh copy of the string, or NULL with the heap unchanged |
| CertProc.Worker.ReadNet | certproc.c:137-138 | readbuf yields the next frame's body in a fresh buffer of its size when it has the expected tag, and otherwise NULL with nothing consumed |
| CertProc.Worker.Transmit | certproc.c:208-209 | a frame is sent, and recorded in the trace, exactly when the peer still takes one; the other socket's peer is untouched |
| CertProc.Worker.WriteBuf | certproc.c:208-209 | writebuf sends the first sz bytes of the buffer as one frame, exactly when the peer still takes one |
| CertProc.Worker.WriteStr | certproc.c:179-180 | writestr sends the string up to its NUL as one frame, exactly when the peer still takes one |
| CertProc.Worker.CloseSocket | certproc.c:228-229 | close records one Close event and leaves the other socket as it was |
| CertProc.Worker.D2i | certproc.c:141-145 | d2i_X509 yields a fresh certificate object holding the decoded certificate, or NULL with the heap unchanged |
| CertProc.Worker.X509Buf | certproc.c:43-79 | the result is non-NULL exactly when every call succeeds; it is then a fresh buffer holding the PEM text, with *sz its length (num_write). On failure *sz is untouched, no block of the caller changes, the BIO is released, and a buffer is lost, and logged, exactly when BIO_read comes back short |
| CertProc.Worker.FindIssuer | certproc.c:152-175 | the loop copies the value of the first entry named "CA Issuers - URI": non-NULL exactly when an issuer URL exists and strdup succeeds, and then it holds that URL |
| CertProc.Worker.Reencode | certproc.c:196-205 | decoding the chain then x509buf succeed exactly when the specified re-encoding is Some, and the new chain buffer holds it; when decoding fails, chain still refers to the old buffer, chainx is NULL and nothing else changes, so the old buffer is freed only after a successful decode; a buffer is lost only by that x509buf |
| CertProc.Worker.NormalizeChain | certproc.c:194-206 | the session goes on exactly when Normalize succeeds, and the chain buffer then holds the normalised chain; every block is accounted for, and the buffers lost are NormalizeLost |
| CertProc.Worker.Deliver | certproc.c:208-217 | the events, result and buffers lost are exactly DeliverSteps |
| CertProc.Worker.AfterChain | certproc.c:194-217 | the events, result and buffers lost are exactly ChainSteps, and only chainx and the final chain buffer are held at the end |
| CertProc.Worker.AfterIssuer | certproc.c:184-217 | the events, result and buffers lost are exactly ChainReply |
| CertProc.Worker.SendIssuer | certproc.c:177-217 | the events, result and buffers lost are exactly IssuerSteps |
| CertProc.Worker.AfterLeaf | certproc.c:152-217 | the events, result and buffers lost are exactly LeafSteps, with url, chainx and chain the only blocks held |
| CertProc.Worker.AfterCsr | certproc.c:140-217 | the events, result and buffers lost are exactly CsrSteps |
| CertProc.Worker.RunSteps | certproc.c:137-217 | the events, result and buffers lost are exactly Steps; csr, x, url, chainx and chain are the only blocks held at the end, and they are distinct |
| CertProc.Worker.Release | certproc.c:221-227 | releasing one held pointer leaves every other block held still |
| CertProc.Worker.ReleaseAll | certproc.c:220-227 | after the five releases, the heap is what it was before plus only the blocks lost |
| CertProc.Worker.Cleanup | certproc.c:220-229 | releases everything held and closes the network socket and then the file socket |
| CertProc.Worker.Serve | certproc.c:81-233 | jailing, the steps and the cleanup: the exit, events and buffers lost are exactly Session; a returning exit has both sockets closed; the fatal exit changes nothing |
| CertProc.Worker.Certproc | certproc.c:81-233 | the exit and events are exactly Session. A returning exit has both sockets closed; the fatal exit changes nothing. Every block from before is unchanged, and the only blocks the session leaves behind are the ones it lost: at most one, and none when BIO_read is never short |

## Left out

- OpenSSL itself: DER parsing, PEM encoding, X509V3_EXT_get and the i2v conversion are parameters (`Crypto`), and their inner workings are not modelled.
- Diagnostics: dowarn, dowarnx and doerrx messages, and ERR_load_crypto_strings, ERR_print_errors_fp and ERR_free_strings, have no effect in the model.
- readbuf, writebuf and writestr come from another file of the program, which is not part of this model. A read fails when the next frame is missing or has another tag. A write fails once the peer takes no more frames. A failed write records no event.
- The entries and val structures returned by X509_get_ext_d2i and i2v are never freed by the source; the model does not allocate them.
- An allocation failure inside d2i_X509 is not told apart from a decoding failure: both give NULL.
- The platform `#ifdef`s (sandbox_init on one system, pledge on another) are optional jailing outcomes. PATH_VAR_EMPTY, and the uid and gid passed to dropprivs, appear only through the outcome flags.
- The advance of csrcp and chaincp by d2i_X509 is not modelled, since the source never reads them afterwards.
- Integer widths: sizes are unbounded naturals. The `(unsigned)ssz` cast matters only for ssz >= 0, which the source tests first.
- CertProc.Worker.Free: the model keeps no history of freed blocks. A double free is excluded because Free requires an owned block, not detected against a record of earlier frees.
- CertProc.Worker.Release: the source tests x and chainx for NULL before X509_free, and free(csr), free(url) and free(chain) take NULL. Release covers both, since releasing NULL does nothing.
- CertProc.Worker.Deliver and the other stage methods: their contracts fix how many buffers are lost and when (`lostLog` grows by the stage function's `lost` count, and `Valid` ties `lostLog` to the lost blocks), but not which block is lost. That the lost block is the buffer x509buf allocated rests on the method bodies, not on their contracts.
- The stage methods from Deliver to Certproc list the peers' acceptance counts (`netAccepts`, `fileAccepts`) in their modifies clauses and do not state their final values; only the frames sent are specified, through the trace, and both sockets end closed.
