/** What every run of the host/helper exchange keeps, and how fault-free runs end. */
module ProtocolProof {
  import opened Bytes
  import opened IpcHeader
  import opened Options
  import opened Protocol

  // ---- The invariant ----

  function ReplyHeaderBytes(c: Config, k: nat): (b: seq<Byte>)
    requires k < |c.requests| && c.requests[k].Fits()
    ensures |b| == HEADER_SIZE
  {
    Encode(ReplyHeader(c.requests[k]), c.replyPadding(k))
  }

  /** The whole reply to request `k`: the header and, for HELLO, the payload. */
  function ReplyBytes(c: Config, k: nat): (b: seq<Byte>)
    requires k < |c.requests| && c.requests[k].Fits() && c.Hello().Fits()
  {
    ReplyHeaderBytes(c, k) + (if c.requests[k].kind == HELLO then EncodeHello(c.Hello()) else [])
  }

  function RequestsSent(c: Config, host: Host): nat {
    if host.answered < |c.requests| && host.unsent == [] then host.answered + 1 else host.answered
  }

  /** Where the helper stands on request `k` while the host has `unsent` and `got`. */
  ghost predicate Exchange(c: Config, k: nat, s: State)
    requires c.Sensible() && k < |c.requests|
  {
    var request, reply := RequestBytes(c, k), ReplyBytes(c, k);
    var unsent, received, beat := s.host.unsent, s.host.got + s.toHost, s.shared.heartbeat;
    && |unsent| <= HEADER_SIZE
    && unsent == request[HEADER_SIZE - |unsent|..]
    && (unsent != [] ==> s.host.got == [])
    && match s.helper
       case ReadingHeader(got) =>
         || (beat == k && received == [] && got + s.toHelper == request[..HEADER_SIZE - |unsent|]
             && |got| < HEADER_SIZE)
         || (beat == k + 1 && received == reply && got == [] && s.toHelper == [] && unsent == []
             && k < |c.requests| - 1)
       case ReadingPayload(_, _) => false
       case Marking(header) => Handling(c, k, s, header)
       case Naming(header) => Handling(c, k, s, header)
       case Beating(header) => Handling(c, k, s, header)
       case Replying(header, rest) =>
         && header == c.requests[k] && beat == k + 1 && unsent == [] && s.toHelper == []
         && received + rest == ReplyHeaderBytes(c, k) && rest != []
       case ReplyingHello(header, rest) =>
         && header == c.requests[k] && header.kind == HELLO && beat == k + 1 && unsent == [] && s.toHelper == []
         && received + rest == reply && rest != []
       case Leaving => Finished(c, k, s)
       case Exited(code) => if code == 0 then Finished(c, k, s) else Cut(c, k, s)
       case Killed => Cut(c, k, s)
  }

  /** The request has been read and the heartbeat not yet moved. */
  ghost predicate Handling(c: Config, k: nat, s: State, header: Header)
    requires c.Sensible() && k < |c.requests|
  {
    && header == c.requests[k] && s.shared.heartbeat == k
    && s.host.unsent == [] && s.toHelper == [] && s.host.got == [] && s.toHost == []
  }

  ghost predicate Finished(c: Config, k: nat, s: State)
    requires c.Sensible() && k < |c.requests|
  {
    && k == |c.requests| - 1 && s.shared.heartbeat == k + 1
    && s.host.unsent == [] && s.toHelper == [] && s.host.got + s.toHost == ReplyBytes(c, k)
  }

  /** The helper died: the host can still receive at most a prefix of the reply. */
  ghost predicate Cut(c: Config, k: nat, s: State)
    requires c.Sensible() && k < |c.requests|
  {
    && k <= s.shared.heartbeat <= k + 1
    && (s.shared.heartbeat == k + 1 ==> s.host.unsent == [])
    && (s.host.got + s.toHost != [] ==> s.shared.heartbeat == k + 1)
    && s.host.got + s.toHost <= ReplyBytes(c, k)
    && (k == |c.requests| - 1 && s.host.phase.Talking? ==> s.host.got + s.toHost != ReplyBytes(c, k))
  }

  /** All replies are in; the helper has nothing left but to leave. */
  ghost predicate Over(c: Config, s: State) {
    && s.host.answered == |c.requests|
    && s.host.unsent == [] && s.host.got == [] && s.toHelper == [] && s.toHost == []
    && s.shared.heartbeat == |c.requests|
    && s.helper in {Leaving, Exited(0), Killed}
  }

  ghost predicate SharedConsistent(c: Config, s: State) {
    && s.shared.parentMagic == PARENT_MAGIC
    && (s.shared.heartbeat > 0 || s.helper.Naming? || s.helper.Beating? ==> s.shared.helperMagic == HELPER_MAGIC)
    && (s.shared.heartbeat > 0 || s.helper.Beating? ==> s.shared.helperPid == c.pid)
  }

  ghost predicate PhaseConsistent(c: Config, s: State)
    requires c.Sensible()
  {
    match s.host.phase
    case Talking => s.host.answered < |c.requests|
    case Checking(ok) => ok <==> Completed(c, s.host)
    case Waiting(ok, sharedOk) => (ok <==> Completed(c, s.host)) && (ok ==> sharedOk)
    case Done(pass) => s.helper.Gone() && (pass ==> Completed(c, s.host) && s.helper == Exited(0))
  }

  ghost predicate Completed(c: Config, host: Host) {
    host.answered == |c.requests|
  }

  ghost predicate Inv(c: Config, s: State)
    requires c.Sensible()
  {
    && Core(c, s)
    && (s.host.phase.Talking? ==> |s.host.got| < |ReplyBytes(c, s.host.answered)|)
  }

  /** Everything about the host that its phase does not touch. */
  ghost predicate Settled(c: Config, s: State)
    requires c.Sensible()
  {
    && s.host.answered <= |c.requests|
    && |s.host.replies| == s.host.answered
    && (forall k :: 0 <= k < s.host.answered ==> s.host.replies[k] == ReplyHeader(c.requests[k]))
    && (s.host.answered > 0 ==> s.host.hello == c.Hello())
    && |s.toHelper| <= c.capacity && |s.toHost| <= c.capacity
  }

  ghost predicate Position(c: Config, s: State)
    requires c.Sensible() && s.host.answered <= |c.requests|
  {
    if s.host.answered < |c.requests| then Exchange(c, s.host.answered, s) else Over(c, s)
  }

  /** The invariant, also while a whole reply has been read and not yet acted on. */
  ghost predicate Core(c: Config, s: State)
    requires c.Sensible()
  {
    Settled(c, s) && Position(c, s) && SharedConsistent(c, s) && PhaseConsistent(c, s)
  }

  // ---- Preservation, one action at a time ----

  lemma InitInv(c: Config)
    requires c.Sensible()
    ensures Inv(c, Init(c))
  {
  }

  lemma ReplyDecodes(c: Config, k: nat)
    requires c.Sensible() && k < |c.requests|
    ensures Decode(ReplyHeaderBytes(c, k)) == ReplyHeader(c.requests[k])
    ensures ReplyHeader(c.requests[k]).Valid() && ReplyHeader(c.requests[k]).Fits()
  {
    DecodeEncode(ReplyHeader(c.requests[k]), c.replyPadding(k));
  }

  /** Writing moves bytes from the host to the queue; what the helper gets in all is a longer part of the request. */
  lemma WrittenSoFar(request: seq<Byte>, unsent: seq<Byte>, got: seq<Byte>, toHelper: seq<Byte>, n: nat)
    requires |request| == HEADER_SIZE && |unsent| <= HEADER_SIZE && n <= |unsent|
    requires unsent == request[HEADER_SIZE - |unsent|..]
    requires got + toHelper == request[..HEADER_SIZE - |unsent|]
    ensures unsent[n..] == request[HEADER_SIZE - |unsent[n..]|..]
    ensures got + (toHelper + unsent[..n]) == request[..HEADER_SIZE - |unsent[n..]|]
  {
    assert got + (toHelper + unsent[..n]) == got + toHelper + unsent[..n];
    assert request[..HEADER_SIZE - |unsent|] + unsent[..n] == request[..HEADER_SIZE - |unsent| + n];
  }

  lemma HostWriteKeepsInv(c: Config, s: State, n: nat)
    requires c.Sensible() && Inv(c, s) && HostNext(c, s, HostWrite(n)).Some?
    ensures Inv(c, HostNext(c, s, HostWrite(n)).value)
  {
    var s' := HostNext(c, s, HostWrite(n)).value;
    var k := s.host.answered;
    assert Exchange(c, k, s) && s.helper.ReadingHeader?;
    WrittenSoFar(RequestBytes(c, k), s.host.unsent, s.helper.got, s.toHelper, n);
    assert Exchange(c, k, s');
  }

  /** Reading moves bytes from the queue to the host's buffer; what was received in all stays the same. */
  lemma MoveReceived(c: Config, s: State, n: nat) returns (s': State)
    requires c.Sensible() && s.host.answered < |c.requests| && Exchange(c, s.host.answered, s)
    requires s.host.unsent == [] && n <= |s.toHost|
    ensures s' == s.(host := s.host.(got := s.host.got + s.toHost[..n]), toHost := s.toHost[n..])
    ensures s'.host.got + s'.toHost == s.host.got + s.toHost
    ensures 0 < n ==> Exchange(c, s.host.answered, s')
    ensures s'.host.got + s'.toHost <= ReplyBytes(c, s.host.answered)
  {
    s' := s.(host := s.host.(got := s.host.got + s.toHost[..n]), toHost := s.toHost[n..]);
    assert s'.host.got + s'.toHost == s.host.got + s.toHost;
  }

  /** Once the host holds a whole reply, the helper is done with that request. */
  lemma WholeReply(c: Config, s: State)
    requires c.Sensible() && s.host.answered < |c.requests| && Exchange(c, s.host.answered, s)
    requires s.host.phase.Talking?
    requires s.host.unsent == [] && s.host.got == ReplyBytes(c, s.host.answered)
    ensures s.toHost == []
    ensures s.shared.heartbeat == s.host.answered + 1
    ensures s.host.answered < |c.requests| - 1 ==>
              (s.helper.Gone() && s.helper != Exited(0)) || (s.helper == ReadingHeader([]) && s.toHelper == [])
    ensures s.host.answered == |c.requests| - 1 ==> s.helper in {Leaving, Exited(0)} && s.toHelper == []
  {
    assert s.host.got != [];
    assert |s.host.got + s.toHost| <= |ReplyBytes(c, s.host.answered)|;
  }

  lemma HostReadKeepsInv(c: Config, s: State, n: nat)
    requires c.Sensible() && Inv(c, s) && HostNext(c, s, HostRead(n)).Some?
    ensures Inv(c, HostNext(c, s, HostRead(n)).value)
  {
    var s' := HostNext(c, s, HostRead(n)).value;
    var k := s.host.answered;
    var moved := MoveReceived(c, s, n);
    DigestMeaning(c, s.host, moved.host.got);
    assert Core(c, moved);
    if |moved.host.got| == |ReplyBytes(c, k)| {
      CompleteKeepsInv(c, moved);
      assert s' == moved.(host := Complete(c, moved.host, ReplyHeader(c.requests[k]), c.Hello()));
    } else {
      assert s' == moved;
    }
  }

  /** With one request answered and the helper idle or dead, the next one starts from nothing. */
  lemma NextRequest(c: Config, k: nat, s: State)
    requires c.Sensible() && k + 1 < |c.requests|
    requires s.host.unsent == RequestBytes(c, k + 1) && s.host.got == [] && s.toHost == []
    requires s.shared.heartbeat == k + 1
    requires (s.helper.Gone() && s.helper != Exited(0)) || (s.helper == ReadingHeader([]) && s.toHelper == [])
    ensures Exchange(c, k + 1, s)
  {
    var request := RequestBytes(c, k + 1);
    assert request[0..] == request && request[..0] == [];
    assert |ReplyBytes(c, k + 1)| > 0;
  }

  ghost function Completing(c: Config, s: State): State
    requires c.Sensible() && s.host.answered < |c.requests|
  {
    s.(host := Complete(c, s.host, ReplyHeader(c.requests[s.host.answered]), c.Hello()))
  }

  lemma CompleteKeepsExchange(c: Config, s: State)
    requires c.Sensible() && s.host.answered < |c.requests| && Exchange(c, s.host.answered, s)
    requires s.host.phase.Talking?
    requires s.host.unsent == [] && s.host.got == ReplyBytes(c, s.host.answered)
    ensures Position(c, Completing(c, s))
  {
    WholeReply(c, s);
    if s.host.answered + 1 < |c.requests| {
      NextRequest(c, s.host.answered, Completing(c, s));
    }
  }

  lemma CompleteKeepsRest(c: Config, s: State)
    requires c.Sensible() && s.host.answered < |c.requests| && s.host.phase.Talking?
    requires Settled(c, s) && SharedConsistent(c, s)
    ensures var s' := Completing(c, s); Settled(c, s') && SharedConsistent(c, s') && PhaseConsistent(c, s')
  {
  }

  lemma CompleteKeepsInv(c: Config, s: State)
    requires c.Sensible() && Core(c, s) && s.host.phase.Talking?
    requires s.host.unsent == [] && s.host.got == ReplyBytes(c, s.host.answered)
    ensures Inv(c, Completing(c, s))
  {
    CompleteKeepsExchange(c, s);
    CompleteKeepsRest(c, s);
    var s' := Completing(c, s);
    assert s'.host.answered < |c.requests| ==> |ReplyBytes(c, s'.host.answered)| > |s'.host.got|;
  }

  /** A prefix of the expected reply is either kept or, when whole, completes the request. */
  lemma DigestMeaning(c: Config, host: Host, got: seq<Byte>)
    requires c.Sensible() && host.answered < |c.requests| && 0 < |got| <= HEADER_SIZE + HELLO_SIZE
    requires got <= ReplyBytes(c, host.answered)
    requires host.answered > 0 ==> host.hello == c.Hello()
    ensures |got| < |ReplyBytes(c, host.answered)| ==> Digest(c, host, got) == host.(got := got)
    ensures |got| == |ReplyBytes(c, host.answered)| ==>
              Digest(c, host, got) == Complete(c, host, ReplyHeader(c.requests[host.answered]), c.Hello())
  {
    if |got| == HEADER_SIZE {
      DigestHeader(c, host, got);
    } else if |got| == HEADER_SIZE + HELLO_SIZE {
      DigestPayload(c, host, got);
    }
  }

  /** A whole header ends the reply unless a payload is announced. */
  lemma DigestHeader(c: Config, host: Host, got: seq<Byte>)
    requires c.Sensible() && host.answered < |c.requests| && |got| == HEADER_SIZE
    requires got <= ReplyBytes(c, host.answered)
    requires host.answered > 0 ==> host.hello == c.Hello()
    ensures Digest(c, host, got)
         == if c.requests[host.answered].kind == HELLO then host.(got := got)
            else Complete(c, host, ReplyHeader(c.requests[host.answered]), c.Hello())
  {
    ReplyDecodes(c, host.answered);
    assert got == ReplyHeaderBytes(c, host.answered);
  }

  /** A whole payload ends the reply. */
  lemma DigestPayload(c: Config, host: Host, got: seq<Byte>)
    requires c.Sensible() && host.answered < |c.requests| && |got| == HEADER_SIZE + HELLO_SIZE
    requires got == ReplyBytes(c, host.answered)
    ensures Digest(c, host, got) == Complete(c, host, ReplyHeader(c.requests[host.answered]), c.Hello())
  {
    ReplyDecodes(c, host.answered);
    DecodeEncodeHello(c.Hello());
    assert got[..HEADER_SIZE] == ReplyHeaderBytes(c, host.answered);
    assert got[HEADER_SIZE..] == EncodeHello(c.Hello());
  }

  /** Nothing but the helper's life and the host's phase changed. */
  ghost predicate SameTransfer(s: State, s': State) {
    && s'.host == s.host.(phase := s'.host.phase)
    && s'.toHelper == s.toHelper && s'.toHost == s.toHost && s'.shared == s.shared
    && (s'.host.phase.Talking? ==> s.host.phase.Talking?)
  }

  lemma LeavingLoopKeepsExchange(c: Config, k: nat, s: State, s': State)
    requires c.Sensible() && k < |c.requests| && Exchange(c, k, s)
    requires SameTransfer(s, s') && s'.helper == s.helper
    ensures Exchange(c, k, s')
  {
  }

  lemma ReceivedIsPrefix(c: Config, k: nat, s: State)
    requires c.Sensible() && k < |c.requests| && Exchange(c, k, s)
    ensures s.host.got + s.toHost <= ReplyBytes(c, k)
  {
  }

  /** A helper that dies leaves the host with a prefix of the reply, and with all of it only between requests. */
  lemma DeathKeepsExchange(c: Config, k: nat, s: State, s': State)
    requires c.Sensible() && k < |c.requests| && Exchange(c, k, s)
    requires SameTransfer(s, s') && s'.helper.Gone() && s'.helper != Exited(0)
    requires s.helper.Leaving? || s.helper == Exited(0) ==> !s'.host.phase.Talking?
    ensures Exchange(c, k, s')
  {
    ReceivedIsPrefix(c, k, s);
    assert |ReplyBytes(c, k)| >= |ReplyHeaderBytes(c, k)| > 0;
    assert Cut(c, k, s');
  }

  lemma HostPhaseMoves(c: Config, s: State, a: Action)
    requires c.Sensible() && HostNext(c, s, a).Some?
    requires a.HostCheck? || a.HostReap? || a.HostGiveUp? || a.HostKill?
    ensures var s' := HostNext(c, s, a).value;
            && SameTransfer(s, s') && !s'.host.phase.Talking?
            && s'.helper == if a.HostKill? && !s.helper.Gone() then Killed else s.helper
  {
  }

  lemma HostPhaseKeepsPosition(c: Config, s: State, s': State)
    requires c.Sensible() && s.host.answered <= |c.requests| && Position(c, s)
    requires SameTransfer(s, s') && !s'.host.phase.Talking?
    requires s'.helper == s.helper || s'.helper == Killed
    ensures Position(c, s')
  {
    if s.host.answered < |c.requests| {
      if s'.helper == s.helper {
        LeavingLoopKeepsExchange(c, s.host.answered, s, s');
      } else {
        DeathKeepsExchange(c, s.host.answered, s, s');
      }
    }
  }

  /** The phases follow each other as the verdict demands. */
  lemma HostPhaseKeepsPhase(c: Config, s: State, a: Action)
    requires c.Sensible() && HostNext(c, s, a).Some?
    requires a.HostCheck? || a.HostReap? || a.HostGiveUp? || a.HostKill?
    requires PhaseConsistent(c, s) && SharedConsistent(c, s) && Settled(c, s)
    requires Completed(c, s.host) ==> s.shared.heartbeat == |c.requests|
    ensures PhaseConsistent(c, HostNext(c, s, a).value)
  {
  }

  lemma HostPhaseKeepsInv(c: Config, s: State, a: Action)
    requires c.Sensible() && Inv(c, s) && HostNext(c, s, a).Some?
    requires a.HostCheck? || a.HostReap? || a.HostGiveUp? || a.HostKill?
    ensures Inv(c, HostNext(c, s, a).value)
  {
    HostPhaseMoves(c, s, a);
    HostPhaseKeepsPosition(c, s, HostNext(c, s, a).value);
    HostPhaseKeepsPhase(c, s, a);
  }

  /** The bytes the helper collects are the request; a whole one is valid and has no payload. */
  lemma ReceiveMeaning(c: Config, k: nat, unsent: seq<Byte>, got: seq<Byte>, left: seq<Byte>)
    requires c.Sensible() && k < |c.requests| && |unsent| <= HEADER_SIZE && |got| <= HEADER_SIZE
    requires got + left == RequestBytes(c, k)[..HEADER_SIZE - |unsent|]
    ensures |got| < HEADER_SIZE ==> Receive(got) == ReadingHeader(got)
    ensures |got| == HEADER_SIZE ==> Receive(got) == Marking(c.requests[k]) && unsent == [] && left == []
  {
    assert |got + left| == HEADER_SIZE - |unsent|;
    if |got| == HEADER_SIZE {
      assert left == [] && got == RequestBytes(c, k);
      DecodeEncode(c.requests[k], c.requestPadding(k));
    }
  }

  /** A helper that finds bytes to read is in the middle of a request. */
  lemma ReaderAwaitsRequest(c: Config, s: State)
    requires c.Sensible() && Inv(c, s) && s.toHelper != []
    requires s.helper.ReadingHeader? || s.helper.ReadingPayload?
    ensures s.host.answered < |c.requests| && s.shared.heartbeat == s.host.answered
    ensures s.helper.ReadingHeader? && |s.helper.got| < HEADER_SIZE && |s.host.unsent| <= HEADER_SIZE
    ensures s.helper.got + s.toHelper == RequestBytes(c, s.host.answered)[..HEADER_SIZE - |s.host.unsent|]
  {
  }

  /** What one read does, once it is possible at all. */
  lemma HelperReads(c: Config, s: State, n: nat)
    requires c.Sensible() && HelperNext(c, s, HelperRead(n)).Some?
    ensures s.toHelper != [] && (s.helper.ReadingHeader? || s.helper.ReadingPayload?)
    ensures s.helper.ReadingHeader? ==>
              && 0 < n <= |s.toHelper| && |s.helper.got| + n <= HEADER_SIZE
              && HelperNext(c, s, HelperRead(n)).value
                 == s.(helper := Receive(s.helper.got + s.toHelper[..n]), toHelper := s.toHelper[n..])
  {
  }

  /** Reading moves bytes from the queue to the helper; a whole header is the request. */
  lemma ReadKeepsExchange(c: Config, k: nat, s: State, n: nat)
    requires c.Sensible() && k < |c.requests| && Exchange(c, k, s) && s.helper.ReadingHeader?
    requires 0 < n <= |s.toHelper| && |s.helper.got| + n <= HEADER_SIZE
    ensures var helper := Receive(s.helper.got + s.toHelper[..n]);
            && (helper.ReadingHeader? || helper.Marking?)
            && Exchange(c, k, s.(helper := helper, toHelper := s.toHelper[n..]))
  {
    var got := s.helper.got + s.toHelper[..n];
    assert got + s.toHelper[n..] == s.helper.got + s.toHelper;
    ReceiveMeaning(c, k, s.host.unsent, got, s.toHelper[n..]);
  }

  lemma HelperReadKeepsInv(c: Config, s: State, n: nat)
    requires c.Sensible() && Inv(c, s) && HelperNext(c, s, HelperRead(n)).Some?
    ensures Inv(c, HelperNext(c, s, HelperRead(n)).value)
  {
    HelperReads(c, s, n);
    ReaderAwaitsRequest(c, s);
    ReadKeepsExchange(c, s.host.answered, s, n);
  }

  /** The three stores, one after the other; the last one leads to the answer. */
  lemma StoreKeepsExchange(c: Config, k: nat, s: State)
    requires c.Sensible() && k < |c.requests| && HelperNext(c, s, HelperStore).Some?
    requires s.helper.Marking? || s.helper.Naming? || s.helper.Beating?
    requires Handling(c, k, s, s.helper.header)
    ensures Exchange(c, k, HelperNext(c, s, HelperStore).value)
  {
    if s.helper.Beating? {
      BeatKeepsExchange(c, k, s);
    }
  }

  lemma BeatKeepsExchange(c: Config, k: nat, s: State)
    requires c.Sensible() && k < |c.requests| && s.helper.Beating? && Handling(c, k, s, s.helper.header)
    ensures HelperNext(c, s, HelperStore).Some? && Exchange(c, k, HelperNext(c, s, HelperStore).value)
  {
    var s' := HelperNext(c, s, HelperStore).value;
    assert s'.shared.heartbeat == k + 1;
    assert [] + [] + s'.helper.rest == s'.helper.rest;
    assert s'.helper.rest == ReplyHeaderBytes(c, k);
  }

  lemma StoringIsHandling(c: Config, s: State)
    requires c.Sensible() && Inv(c, s) && HelperNext(c, s, HelperStore).Some?
    ensures s.host.answered < |c.requests| && (s.helper.Marking? || s.helper.Naming? || s.helper.Beating?)
    ensures Handling(c, s.host.answered, s, s.helper.header)
  {
  }

  lemma StoreKeepsShared(c: Config, s: State)
    requires c.Sensible() && SharedConsistent(c, s) && HelperNext(c, s, HelperStore).Some?
    ensures SharedConsistent(c, HelperNext(c, s, HelperStore).value)
    ensures var s' := HelperNext(c, s, HelperStore).value;
            s'.host == s.host && s'.toHelper == s.toHelper && s'.toHost == s.toHost && !s'.helper.Gone()
  {
  }

  lemma HelperStoreKeepsInv(c: Config, s: State)
    requires c.Sensible() && Inv(c, s) && HelperNext(c, s, HelperStore).Some?
    ensures Inv(c, HelperNext(c, s, HelperStore).value)
  {
    StoringIsHandling(c, s);
    StoreKeepsExchange(c, s.host.answered, s);
    StoreKeepsShared(c, s);
  }

  lemma WriteMoves(got: seq<Byte>, toHost: seq<Byte>, rest: seq<Byte>, n: nat)
    requires n <= |rest|
    ensures got + (toHost + rest[..n]) + rest[n..] == got + toHost + rest
    ensures n == |rest| ==> got + (toHost + rest[..n]) == got + toHost + rest
  {
  }

  lemma HelperWriteKeepsExchange(c: Config, s: State, n: nat)
    requires c.Sensible() && Inv(c, s) && HelperNext(c, s, HelperWrite(n)).Some?
    ensures s.host.answered < |c.requests|
    ensures Exchange(c, s.host.answered, HelperNext(c, s, HelperWrite(n)).value)
  {
    var s' := HelperNext(c, s, HelperWrite(n)).value;
    var k := s.host.answered;
    WriteMoves(s.host.got, s.toHost, s.helper.rest, n);
    assert s'.host == s.host && s'.shared == s.shared && s'.toHelper == [];
    if s.helper.Replying? {
      assert s.host.got + s.toHost + s.helper.rest == ReplyHeaderBytes(c, k);
      if n == |s.helper.rest| {
        assert s'.host.got + s'.toHost == ReplyHeaderBytes(c, k);
        if s.helper.header.kind == HELLO {
          assert s'.helper == ReplyingHello(s.helper.header, EncodeHello(c.Hello()));
        } else {
          assert ReplyBytes(c, k) == ReplyHeaderBytes(c, k);
          assert s'.helper == AfterReply(s.helper.header);
        }
      }
    }
  }

  lemma HelperWriteKeepsInv(c: Config, s: State, n: nat)
    requires c.Sensible() && Inv(c, s) && HelperNext(c, s, HelperWrite(n)).Some?
    ensures Inv(c, HelperNext(c, s, HelperWrite(n)).value)
  {
    HelperWriteKeepsExchange(c, s, n);
  }

  /** An exit or a death changes nothing but the helper's life. */
  lemma HelperEnds(c: Config, s: State, a: Action)
    requires c.Sensible() && HelperNext(c, s, a).Some?
    requires !a.HelperRead? && !a.HelperStore? && !a.HelperWrite?
    ensures var s' := HelperNext(c, s, a).value;
            && s' == s.(helper := s'.helper) && s'.helper.Gone()
            && if a.HelperLeave? then s.helper.Leaving? && s'.helper == Exited(0)
               else !s.helper.Leaving? && !s.helper.Gone() && s'.helper != Exited(0)
  {
  }

  lemma HelperEndKeepsPosition(c: Config, s: State, s': State)
    requires c.Sensible() && s.host.answered <= |c.requests| && Position(c, s)
    requires s' == s.(helper := s'.helper) && !s.helper.Gone() && s'.helper.Gone()
    requires s.helper.Leaving? <==> s'.helper == Exited(0)
    ensures Position(c, s')
  {
    if s.host.answered < |c.requests| && !s.helper.Leaving? {
      DeathKeepsExchange(c, s.host.answered, s, s');
    }
  }

  lemma HelperEndKeepsInv(c: Config, s: State, a: Action)
    requires c.Sensible() && Inv(c, s) && HelperNext(c, s, a).Some?
    requires !a.HelperRead? && !a.HelperStore? && !a.HelperWrite?
    ensures Inv(c, HelperNext(c, s, a).value)
  {
    HelperEnds(c, s, a);
    HelperEndKeepsPosition(c, s, HelperNext(c, s, a).value);
  }

  lemma HostKeepsInv(c: Config, s: State, a: Action)
    requires c.Sensible() && Inv(c, s) && HostNext(c, s, a).Some?
    ensures Inv(c, HostNext(c, s, a).value)
  {
    match a
    case HostWrite(n) => HostWriteKeepsInv(c, s, n);
    case HostRead(n) => HostReadKeepsInv(c, s, n);
    case _ => HostPhaseKeepsInv(c, s, a);
  }

  lemma HelperKeepsInv(c: Config, s: State, a: Action)
    requires c.Sensible() && Inv(c, s) && HelperNext(c, s, a).Some?
    ensures Inv(c, HelperNext(c, s, a).value)
  {
    match a
    case HelperRead(n) => HelperReadKeepsInv(c, s, n);
    case HelperStore => HelperStoreKeepsInv(c, s);
    case HelperWrite(n) => HelperWriteKeepsInv(c, s, n);
    case _ => HelperEndKeepsInv(c, s, a);
  }

  lemma NextKeepsInv(c: Config, s: State, a: Action)
    requires c.Sensible() && Inv(c, s) && Next(c, s, a).Some?
    ensures Inv(c, Next(c, s, a).value)
  {
    if a.ByHelper() {
      HelperKeepsInv(c, s, a);
    } else {
      HostKeepsInv(c, s, a);
    }
  }

  /** Every state of every run, with any failures at any point, satisfies the invariant. */
  lemma {:induction false} RunKeepsInv(c: Config, actions: seq<Action>)
    requires c.Sensible() && Run(c, Init(c), actions).Some?
    ensures Inv(c, Run(c, Init(c), actions).value)
    decreases |actions|
  {
    if actions == [] {
      InitInv(c);
    } else {
      var before := actions[..|actions| - 1];
      RunKeepsInv(c, before);
      NextKeepsInv(c, Run(c, Init(c), before).value, actions[|actions| - 1]);
    }
  }

  // ---- What a run means for the caller ----

  /**
   The counters never drift apart: a request is sent only after the previous reply is in, a reply arrives only after
   its heartbeat, and the heartbeat moves only after its request is in. Replies match requests one to one.
   */
  lemma CountersInStep(c: Config, actions: seq<Action>)
    requires c.Sensible() && Run(c, Init(c), actions).Some?
    ensures var s := Run(c, Init(c), actions).value;
            && s.host.answered <= s.shared.heartbeat <= RequestsSent(c, s.host) <= s.host.answered + 1
            && |s.host.replies| == s.host.answered <= |c.requests|
            && forall k :: 0 <= k < s.host.answered ==>
                 && s.host.replies[k].requestId == c.requests[k].requestId
                 && s.host.replies[k].kind == (match c.requests[k].kind case 1 => 1 case 4 => 4 case _ => 3)
                 && s.host.replies[k].payloadSize == (if c.requests[k].kind == 1 then 24 else 0)
  {
    RunKeepsInv(c, actions);
  }

  /** When the host does reap the helper, its verdict is exact. */
  lemma ReapedVerdictIsExact(c: Config, actions: seq<Action>)
    requires c.Sensible() && Run(c, Init(c), actions).Some?
    ensures var s := Run(c, Init(c), actions).value;
            HostNext(c, s, HostReap).Some? ==>
              (HostNext(c, s, HostReap).value.host.phase == Done(true)
               <==> s.host.answered == |c.requests| && s.helper == Exited(0))
  {
    RunKeepsInv(c, actions);
  }

  /** The probe never passes unless the whole exchange took place and the helper left with code 0. */
  lemma PassMeansComplete(c: Config, actions: seq<Action>)
    requires c.Sensible() && Run(c, Init(c), actions).Some?
    ensures var s := Run(c, Init(c), actions).value;
            s.host.phase == Done(true) ==>
              && s.host.answered == |c.requests| == s.shared.heartbeat
              && s.helper == Exited(0)
              && s.host.hello == c.Hello() && s.host.hello.nonce != 0
              && SharedOk(c, s.shared)
              && s.toHelper == [] && s.toHost == []
  {
    RunKeepsInv(c, actions);
  }

  /** The helper never reads a payload it has no room for: headers that ask for more end the helper first. */
  lemma PayloadFitsBuffer(got: seq<Byte>)
    requires |got| <= HEADER_SIZE
    ensures Receive(got).ReadingPayload? ==> 0 < Receive(got).left <= MAX_PAYLOAD
  {
  }

  // ---- Fault-free runs ----

  ghost predicate FaultFree(actions: seq<Action>) {
    forall i :: 0 <= i < |actions| ==> !actions[i].Fault()
  }

  /** No failure has left a trace. */
  ghost predicate Clean(c: Config, s: State) {
    && (s.helper.Gone() ==> s.helper == Exited(0))
    && (s.host.phase.Checking? || s.host.phase.Waiting? ==> s.host.phase.ok)
    && (s.host.phase.Done? ==> s.host.phase.pass)
  }

  /** A host read either extends the current reply or finishes it. */
  lemma HostReadEffect(c: Config, s: State, n: nat)
    requires c.Sensible() && Inv(c, s) && HostNext(c, s, HostRead(n)).Some?
    ensures var s' := HostNext(c, s, HostRead(n)).value;
            && s'.helper == s.helper && s'.shared == s.shared && s'.toHelper == s.toHelper
            && |s'.toHost| == |s.toHost| - n
            && (|| s'.host == s.host.(got := s.host.got + s.toHost[..n])
                || s'.host == Complete(c, s.host, ReplyHeader(c.requests[s.host.answered]), c.Hello()))
  {
    var moved := MoveReceived(c, s, n);
    DigestMeaning(c, s.host, moved.host.got);
  }

  /** A helper read either extends the current request or finishes it. */
  lemma HelperReadEffect(c: Config, s: State, n: nat)
    requires c.Sensible() && Inv(c, s) && HelperNext(c, s, HelperRead(n)).Some?
    ensures var s' := HelperNext(c, s, HelperRead(n)).value;
            && s'.host == s.host && s'.shared == s.shared && s'.toHost == s.toHost
            && |s'.toHelper| == |s.toHelper| - n
            && s.shared.heartbeat == s.host.answered && s.helper.ReadingHeader?
            && (s'.helper.ReadingHeader? || s'.helper.Marking?)
  {
    HelperReads(c, s, n);
    ReaderAwaitsRequest(c, s);
    ReadKeepsExchange(c, s.host.answered, s, n);
  }

  lemma NextKeepsClean(c: Config, s: State, a: Action)
    requires c.Sensible() && Inv(c, s) && Clean(c, s) && !a.Fault() && Next(c, s, a).Some?
    ensures Clean(c, Next(c, s, a).value)
  {
    if a.ByHelper() {
      HelperKeepsClean(c, s, a);
    } else if a.HostRead? {
      HostReadEffect(c, s, a.count);
    } else if a.HostReap? {
      assert s.host.phase.ok && s.helper == Exited(0);
    }
  }

  lemma HelperKeepsClean(c: Config, s: State, a: Action)
    requires c.Sensible() && Inv(c, s) && Clean(c, s) && !a.Fault() && a.ByHelper() && HelperNext(c, s, a).Some?
    ensures Clean(c, HelperNext(c, s, a).value)
  {
    if a.HelperRead? {
      HelperReadEffect(c, s, a.count);
    }
  }

  /** The work left, which every fault-free action reduces. */
  function HelperWork(c: Config, s: State): int {
    match s.helper
    case ReadingHeader(_) => if s.shared.heartbeat == s.host.answered then 200 else 0
    case ReadingPayload(_, _) => 0
    case Marking(_) => 170
    case Naming(_) => 169
    case Beating(_) => 168
    case Replying(_, rest) => 110 + 2 * |rest|
    case ReplyingHello(_, rest) => 50 + 2 * |rest|
    case Leaving => 1
    case Exited(_) => 0
    case Killed => 0
  }

  function HostWork(c: Config, host: Host): int {
    1000 * (|c.requests| - host.answered) + 2 * |host.unsent|
    + match host.phase case Talking => 3 case Checking(_) => 2 case Waiting(_, _) => 1 case Done(_) => 0
  }

  function Work(c: Config, s: State): int {
    HostWork(c, s.host) + HelperWork(c, s) + |s.toHelper| + |s.toHost|
  }

  /** A write moves bytes from the host to the queue, where they count half. */
  lemma HostWriteShrinksWork(c: Config, s: State, n: nat)
    requires c.Sensible() && HostNext(c, s, HostWrite(n)).Some?
    ensures Work(c, HostNext(c, s, HostWrite(n)).value) < Work(c, s)
  {
  }

  lemma HostPhaseShrinksWork(c: Config, s: State, a: Action)
    requires c.Sensible() && (a.HostCheck? || a.HostReap?) && HostNext(c, s, a).Some?
    ensures Work(c, HostNext(c, s, a).value) < Work(c, s)
  {
  }

  /** A read that ends a request starts the next one, whose whole work is below that of one request. */
  lemma HostReadShrinksWork(c: Config, s: State, n: nat)
    requires c.Sensible() && Inv(c, s) && HostNext(c, s, HostRead(n)).Some?
    ensures Work(c, HostNext(c, s, HostRead(n)).value) < Work(c, s)
  {
    HostReadEffect(c, s, n);
    ReadShrinksWork(c, s, HostNext(c, s, HostRead(n)).value, n);
  }

  lemma ReadShrinksWork(c: Config, s: State, s': State, n: nat)
    requires c.Sensible() && s.host.answered < |c.requests| && s.host.unsent == [] && s.host.phase.Talking? && 0 < n
    requires s'.helper == s.helper && s'.shared == s.shared && s'.toHelper == s.toHelper
    requires |s'.toHost| == |s.toHost| - n
    requires || s'.host == s.host.(got := s'.host.got)
             || s'.host == Complete(c, s.host, ReplyHeader(c.requests[s.host.answered]), c.Hello())
    ensures Work(c, s') < Work(c, s)
  {
  }

  lemma HostWorkDecreases(c: Config, s: State, a: Action)
    requires c.Sensible() && Inv(c, s) && !a.Fault() && !a.ByHelper() && Next(c, s, a).Some?
    ensures Work(c, Next(c, s, a).value) < Work(c, s)
  {
    match a
    case HostWrite(n) => HostWriteShrinksWork(c, s, n);
    case HostRead(n) => HostReadShrinksWork(c, s, n);
    case _ => HostPhaseShrinksWork(c, s, a);
  }

  lemma HelperWorkDecreases(c: Config, s: State, a: Action)
    requires c.Sensible() && Inv(c, s) && !a.Fault() && a.ByHelper() && Next(c, s, a).Some?
    ensures Work(c, Next(c, s, a).value) < Work(c, s)
  {
    match a
    case HelperRead(n) => HelperReadEffect(c, s, n);
    case HelperStore => HelperStoreShrinksWork(c, s);
    case HelperWrite(n) => HelperWriteShrinksWork(c, s, n);
    case _ =>
  }

  lemma HelperStoreShrinksWork(c: Config, s: State)
    requires c.Sensible() && Inv(c, s) && HelperNext(c, s, HelperStore).Some?
    ensures Work(c, HelperNext(c, s, HelperStore).value) < Work(c, s)
  {
  }

  lemma HelperWriteShrinksWork(c: Config, s: State, n: nat)
    requires c.Sensible() && Inv(c, s) && HelperNext(c, s, HelperWrite(n)).Some?
    ensures Work(c, HelperNext(c, s, HelperWrite(n)).value) < Work(c, s)
  {
    HelperWriteKeepsExchange(c, s, n);
    assert s.shared.heartbeat == s.host.answered + 1;
  }

  lemma WorkIsNatural(c: Config, s: State)
    requires c.Sensible() && Inv(c, s)
    ensures Work(c, s) >= 0
  {
  }

  // ---- Progress ----

  predicate Ended(s: State) {
    s.host.phase.Done? && s.helper.Gone()
  }

  /** Before the end, some fault-free action is always possible, however small the queues are. */
  lemma NotStuck(c: Config, s: State) returns (a: Action)
    requires c.Sensible() && Inv(c, s) && Clean(c, s) && !Ended(s)
    ensures !a.Fault() && Next(c, s, a).Some?
  {
    if s.host.phase.Checking? {
      a := HostCheck;
    } else if s.host.phase.Waiting? {
      a := if s.helper.Gone() then HostReap else HelperLeave;
      assert s.host.answered == |c.requests|;
    } else if s.host.phase.Talking? {
      a := TalkingNotStuck(c, s);
    } else {
      a := HelperLeave;
    }
  }

  lemma TalkingNotStuck(c: Config, s: State) returns (a: Action)
    requires c.Sensible() && Inv(c, s) && Clean(c, s) && s.host.phase.Talking?
    ensures !a.Fault() && Next(c, s, a).Some?
  {
    var k := s.host.answered;
    assert Exchange(c, k, s);
    ReceivedIsPrefix(c, k, s);
    if s.toHost != [] {
      a := HostRead(1);
      assert |s.host.got| < |ReplyBytes(c, k)| <= HEADER_SIZE + HELLO_SIZE;
    } else if s.toHelper != [] {
      a := HelperRead(1);
      assert |s.helper.got + s.toHelper| <= HEADER_SIZE;
    } else if s.host.unsent != [] {
      a := HostWrite(1);
    } else {
      a := ReplyNotStuck(c, s);
    }
  }

  lemma ReplyNotStuck(c: Config, s: State) returns (a: Action)
    requires c.Sensible() && Inv(c, s) && Clean(c, s) && s.host.phase.Talking?
    requires s.toHost == [] && s.toHelper == [] && s.host.unsent == []
    ensures !a.Fault() && Next(c, s, a).Some?
  {
    assert Exchange(c, s.host.answered, s) && s.host.got + s.toHost == s.host.got;
    match s.helper
    case Marking(_) => a := HelperStore;
    case Naming(_) => a := HelperStore;
    case Beating(_) => a := HelperStore;
    case Replying(_, rest) => a := HelperWrite(1);
    case ReplyingHello(_, rest) => a := HelperWrite(1);
    case _ =>
      a := HostCheck;
      assert false;
  }

  /**
   Every fault-free run is finite, with a bound known in advance, and a run that cannot go on has ended well:
   the probe passes, the heartbeat equals the request count, the nonce is not zero, the helper left with code 0.
   */
  lemma FaultFreeRunsEndWell(c: Config, actions: seq<Action>)
    requires c.Sensible() && FaultFree(actions) && Run(c, Init(c), actions).Some?
    ensures |actions| <= Work(c, Init(c))
    ensures var s := Run(c, Init(c), actions).value;
            (forall a: Action :: !a.Fault() ==> Next(c, s, a).None?) ==>
              && s.host.phase == Done(true)
              && s.shared.heartbeat == |c.requests|
              && s.host.hello.nonce != 0
              && s.helper == Exited(0)
  {
    FaultFreeRunShrinksWork(c, actions);
    RunKeepsInv(c, actions);
    var s := Run(c, Init(c), actions).value;
    WorkIsNatural(c, s);
    if forall a: Action :: !a.Fault() ==> Next(c, s, a).None? {
      if !Ended(s) {
        var a := NotStuck(c, s);
        assert false;
      }
    }
  }

  lemma {:induction false} FaultFreeRunShrinksWork(c: Config, actions: seq<Action>)
    requires c.Sensible() && FaultFree(actions) && Run(c, Init(c), actions).Some?
    ensures Clean(c, Run(c, Init(c), actions).value)
    ensures Work(c, Run(c, Init(c), actions).value) + |actions| <= Work(c, Init(c))
    decreases |actions|
  {
    if actions != [] {
      var before, a := actions[..|actions| - 1], actions[|actions| - 1];
      FaultFreeRunShrinksWork(c, before);
      RunKeepsInv(c, before);
      var s := Run(c, Init(c), before).value;
      NextKeepsClean(c, s, a);
      if a.ByHelper() {
        HelperWorkDecreases(c, s, a);
      } else {
        HostWorkDecreases(c, s, a);
      }
    }
  }

  // ---- After the host has closed its end ----

  /** What an abandoned helper can still do; nothing here depends on how the run got there. */
  function Leftover(s: State): nat {
    |s.toHelper| + match s.helper
                   case ReadingHeader(_) => 6
                   case ReadingPayload(_, _) => 5
                   case Marking(_) => 4
                   case Naming(_) => 3
                   case Beating(_) => 2
                   case Replying(_, _) => 1
                   case ReplyingHello(_, _) => 1
                   case Leaving => 1
                   case Exited(_) => 0
                   case Killed => 0
  }

  lemma AbandonedHelperMovesOn(c: Config, s: State, a: Action)
    requires c.Sensible() && s.host.Closed() && a.ByHelper() && Next(c, s, a).Some?
    ensures var s' := Next(c, s, a).value;
            s'.host == s.host && Leftover(s') < Leftover(s)
  {
  }

  lemma AbandonedHelperNotStuck(c: Config, s: State) returns (a: Action)
    requires c.Sensible() && s.host.Closed() && !s.helper.Gone()
    requires s.helper.ReadingHeader? ==> |s.helper.got| < HEADER_SIZE
    requires s.helper.ReadingPayload? ==> s.helper.left > 0
    ensures a.ByHelper() && Next(c, s, a).Some?
  {
    a := if s.helper.ReadingHeader? || s.helper.ReadingPayload? then
           if s.toHelper == [] then HelperEndOfFile else HelperRead(1)
         else if s.helper.Replying? || s.helper.ReplyingHello? then HelperBrokenPipe
         else if s.helper.Leaving? then HelperLeave
         else HelperStore;
  }

  /** A host that closes its end leaves no helper waiting: every continuation is short and ends in an exit. */
  lemma {:induction false} AbandonedHelperExits(c: Config, s: State, actions: seq<Action>)
    requires c.Sensible() && s.host.Closed() && Run(c, s, actions).Some?
    requires forall i :: 0 <= i < |actions| ==> actions[i].ByHelper()
    requires HelperBuffersSane(s)
    ensures var s' := Run(c, s, actions).value;
            && s'.host == s.host && HelperBuffersSane(s')
            && |actions| + Leftover(s') <= Leftover(s)
            && ((forall a: Action :: a.ByHelper() ==> Next(c, s', a).None?) ==> s'.helper.Gone())
    decreases |actions|
  {
    var s' := Run(c, s, actions).value;
    if actions != [] {
      var before, a := actions[..|actions| - 1], actions[|actions| - 1];
      AbandonedHelperExits(c, s, before);
      AbandonedHelperMovesOn(c, Run(c, s, before).value, a);
    }
    if (forall a: Action :: a.ByHelper() ==> Next(c, s', a).None?) && !s'.helper.Gone() {
      var a := AbandonedHelperNotStuck(c, s');
      assert false;
    }
  }

  predicate HelperBuffersSane(s: State) {
    && (s.helper.ReadingHeader? ==> |s.helper.got| < HEADER_SIZE)
    && (s.helper.ReadingPayload? ==> s.helper.left > 0)
  }

  // ---- The three probes of the source ----

  datatype Mode = Spawn | Shared | Ipc

  function Request(kind: int, id: int): Header {
    Header(MAGIC, VERSION, kind, 0, id)
  }

  /** The request list each probe builds (platform/darwin/graft_probe.c:615-624). */
  function ModeRequests(mode: Mode): seq<Header> {
    [Request(HELLO, 1)]
    + (if mode == Ipc then [Request(PING, 2)] else [])
    + (if mode != Spawn then [Request(SHARED_MEMORY, 3)] else [])
    + (if mode == Ipc then [Request(PING, 4)] else [])
    + [Request(SHUTDOWN, 5)]
  }

  /** The type and the id of each request. */
  function Labels(requests: seq<Header>): (labels: seq<(int, int)>)
    ensures |labels| == |requests|
  {
    seq(|requests|, k requires 0 <= k < |requests| => (requests[k].kind, requests[k].requestId))
  }

  lemma ModesAreSensible(c: Config, mode: Mode)
    requires c.requests == ModeRequests(mode)
    requires 0 < c.pid < TWO_TO_THE_64 / 2 && 0 < c.pageSize < TWO_TO_THE_64
    requires 0 <= c.randomNonce < TWO_TO_THE_64 && 0 < c.capacity
    ensures c.Sensible()
    ensures forall k :: 0 <= k < |c.requests| ==>
              c.requests[k].magic == 0x47524654 && c.requests[k].version == 1 && c.requests[k].payloadSize == 0
    ensures Labels(c.requests) == match mode
                                  case Spawn => [(1, 1), (4, 5)]
                                  case Shared => [(1, 1), (5, 3), (4, 5)]
                                  case Ipc => [(1, 1), (2, 2), (5, 3), (2, 4), (4, 5)]
  {
  }
}
