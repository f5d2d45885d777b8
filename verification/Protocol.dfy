/**
 The host/helper exchange as a state machine over bytes
 (platform/darwin/graft_probe.c:615-658, probes/helper/main.c:37-63).

 Two processes share two byte queues and one record. Every read and write moves any positive number of bytes
 that is available; either process may fail at any call. The host's request list, which has 2, 3 or 5 entries in
 the source, is any list that starts with HELLO and has SHUTDOWN exactly at its end.
 */
module Protocol {
  import opened Bytes
  import opened IpcHeader
  import opened Options

  const PARENT_MAGIC := 0x4752414654504152
  const HELPER_MAGIC := 0x4752414654484c50

  // ---- The two processes ----

  /** What a run is given: the request list, what the helper reports, and everything the system leaves open. */
  datatype Config = Config(
    requests: seq<Header>,
    requireShared: bool,
    pid: int,
    pageSize: int,
    randomNonce: int,
    requestPadding: nat -> Padding,
    replyPadding: nat -> Padding,
    capacity: nat)
  {
    ghost predicate Sensible() {
      && 0 < |requests| < TWO_TO_THE_64
      && requests[0].kind == HELLO
      && (forall k :: 0 <= k < |requests| ==>
            && requests[k].Fits() && requests[k].Valid() && requests[k].payloadSize == 0
            && (requests[k].kind == SHUTDOWN <==> k == |requests| - 1))
      && 0 < pid < TWO_TO_THE_64 / 2
      && 0 < pageSize < TWO_TO_THE_64
      && 0 <= randomNonce < TWO_TO_THE_64
      && 0 < capacity
    }

    /** A zero nonce is replaced. */
    function Hello(): HelloPayload {
      HelloPayload(pid, pageSize, if randomNonce == 0 then 1 else randomNonce)
    }
  }

  datatype SharedRecord = SharedRecord(parentMagic: int, helperMagic: int, helperPid: int, heartbeat: nat)

  datatype HostPhase =
    | Talking
    | Checking(ok: bool)
    | Waiting(ok: bool, sharedOk: bool)
    | Done(pass: bool)

  /**
   `unsent` is what is left to write of request number `answered`; once it is empty, `got` is what has been read of
   the reply to it. `replies` are the headers of the finished replies.
   */
  datatype Host = Host(
    answered: nat, unsent: seq<Byte>, got: seq<Byte>, replies: seq<Header>, hello: HelloPayload, phase: HostPhase)
  {
    predicate Closed() {
      phase.Waiting? || phase.Done?
    }
  }

  type Received = h: Header | h.Fits() witness Header(0, 0, 0, 0, 0)

  datatype Helper =
    | ReadingHeader(got: seq<Byte>)
    | ReadingPayload(header: Received, left: nat)
    | Marking(header: Received)   // about to store helper_magic
    | Naming(header: Received)    // about to store helper_pid
    | Beating(header: Received)   // about to increment the heartbeat
    | Replying(header: Received, rest: seq<Byte>)
    | ReplyingHello(header: Received, rest: seq<Byte>)
    | Leaving
    | Exited(code: int)
    | Killed
  {
    predicate Gone() {
      Exited? || Killed?
    }
  }

  datatype State = State(host: Host, helper: Helper, toHelper: seq<Byte>, toHost: seq<Byte>, shared: SharedRecord)

  function RequestBytes(c: Config, k: nat): (b: seq<Byte>)
    requires k < |c.requests| && c.requests[k].Fits()
    ensures |b| == HEADER_SIZE
  {
    Encode(c.requests[k], c.requestPadding(k))
  }

  function ReplyHeader(h: Header): Header {
    Header(MAGIC, VERSION,
           if h.kind == HELLO then HELLO else if h.kind == SHUTDOWN then SHUTDOWN else PONG,
           if h.kind == HELLO then HELLO_SIZE else 0,
           h.requestId)
  }

  ghost function Init(c: Config): State
    requires c.Sensible()
  {
    State(Host(0, RequestBytes(c, 0), [], [], HelloPayload(0, 0, 0), Talking),
          ReadingHeader([]), [], [], SharedRecord(PARENT_MAGIC, 0, 0, 0))
  }

  // ---- Steps ----

  datatype Action =
    | HostWrite(count: nat) | HostRead(count: nat) | HostCheck | HostReap
    | HelperRead(count: nat) | HelperStore | HelperWrite(count: nat) | HelperLeave
    | HostGiveUp | HostKill
    | HelperReadError | HelperWriteError | HelperEndOfFile | HelperBrokenPipe
  {
    /** A system call failed, a deadline passed, or a peer is gone. */
    predicate Fault() {
      HostGiveUp? || HostKill? || HelperReadError? || HelperWriteError? || HelperEndOfFile? || HelperBrokenPipe?
    }

    predicate ByHelper() {
      HelperRead? || HelperStore? || HelperWrite? || HelperLeave?
      || HelperReadError? || HelperWriteError? || HelperEndOfFile? || HelperBrokenPipe?
    }
  }

  ghost function Complete(c: Config, host: Host, header: Header, hello: HelloPayload): Host
    requires c.Sensible() && host.answered < |c.requests|
  {
    var k := host.answered + 1;
    Host(k, if k < |c.requests| then RequestBytes(c, k) else [], [], host.replies + [header], hello,
         if k < |c.requests| then Talking else Checking(true))
  }

  /** What the host does with `got`, the bytes of the current reply read so far. */
  ghost function Digest(c: Config, host: Host, got: seq<Byte>): Host
    requires c.Sensible() && host.answered < |c.requests| && 0 < |got| <= HEADER_SIZE + HELLO_SIZE
  {
    if |got| == HEADER_SIZE then
      var header := Decode(got);
      if !header.Valid() || header.requestId != c.requests[host.answered].requestId
         || header.payloadSize !in {0, HELLO_SIZE} then
        host.(got := got, phase := Checking(false))
      else if header.payloadSize == 0 then
        Complete(c, host, header, host.hello)
      else
        host.(got := got)
    else if |got| == HEADER_SIZE + HELLO_SIZE then
      Complete(c, host, Decode(got[..HEADER_SIZE]), DecodeHello(got[HEADER_SIZE..]))
    else
      host.(got := got)
  }

  function ReplyNeed(host: Host): int {
    if |host.got| < HEADER_SIZE then HEADER_SIZE - |host.got| else HEADER_SIZE + HELLO_SIZE - |host.got|
  }

  predicate SharedOk(c: Config, shared: SharedRecord) {
    && shared.parentMagic == PARENT_MAGIC
    && shared.helperMagic == HELPER_MAGIC
    && shared.helperPid == c.pid
    && shared.heartbeat >= |c.requests|
  }

  predicate Verdict(c: Config, host: Host, helper: Helper)
    requires host.phase.Waiting?
  {
    && host.phase.ok
    && helper == Exited(0)
    && host.hello.pid > 0 && host.hello.pageSize > 0 && host.hello.nonce != 0
    && (c.requireShared ==> host.phase.sharedOk)
  }

  ghost function HostNext(c: Config, s: State, a: Action): Option<State>
    requires c.Sensible()
  {
    var host := s.host;
    match a
    case HostWrite(n) =>
      if host.phase.Talking? && 0 < n <= |host.unsent| && |s.toHelper| + n <= c.capacity && !s.helper.Gone() then
        Some(s.(host := host.(unsent := host.unsent[n..]), toHelper := s.toHelper + host.unsent[..n]))
      else None
    case HostRead(n) =>
      if host.phase.Talking? && host.unsent == [] && host.answered < |c.requests|
         && |host.got| < HEADER_SIZE + HELLO_SIZE
         && 0 < n <= ReplyNeed(host) && n <= |s.toHost| then
        Some(s.(host := Digest(c, host, host.got + s.toHost[..n]), toHost := s.toHost[n..]))
      else None
    case HostCheck =>
      if host.phase.Checking? then
        Some(s.(host := host.(phase := Waiting(host.phase.ok, SharedOk(c, s.shared)))))
      else None
    case HostReap =>
      if host.phase.Waiting? && s.helper.Gone() then
        Some(s.(host := host.(phase := Done(Verdict(c, host, s.helper)))))
      else None
    case HostGiveUp =>
      if host.phase.Talking? then Some(s.(host := host.(phase := Checking(false)))) else None
    // The deadline passed, or waitpid failed, before the host saw the helper's exit.
    case HostKill =>
      if host.phase.Waiting? then
        Some(s.(host := host.(phase := Done(false)), helper := if s.helper.Gone() then s.helper else Killed))
      else None
    case _ => None
  }

  /** What the helper does with `got`, the bytes of the current header read so far. */
  function Receive(got: seq<Byte>): Helper
    requires |got| <= HEADER_SIZE
  {
    if |got| < HEADER_SIZE then ReadingHeader(got)
    else
      var header := Decode(got);
      if !header.Valid() then Exited(65)
      else if header.payloadSize > 0 then ReadingPayload(header, header.payloadSize)
      else Marking(header)
  }

  function AfterReply(header: Received): Helper {
    if header.kind == SHUTDOWN then Leaving else ReadingHeader([])
  }

  function AfterReplyHeader(c: Config, header: Received): Helper
    requires c.Hello().Fits()
  {
    if header.kind == HELLO then ReplyingHello(header, EncodeHello(c.Hello())) else AfterReply(header)
  }

  ghost function HelperNext(c: Config, s: State, a: Action): Option<State>
    requires c.Sensible()
  {
    var closed := s.host.Closed();
    match (a, s.helper)
    case (HelperRead(n), ReadingHeader(got)) =>
      if 0 < n <= |s.toHelper| && |got| + n <= HEADER_SIZE then
        Some(s.(helper := Receive(got + s.toHelper[..n]), toHelper := s.toHelper[n..]))
      else None
    case (HelperRead(n), ReadingPayload(header, left)) =>
      if 0 < n <= |s.toHelper| && n <= left then
        Some(s.(helper := if n < left then ReadingPayload(header, left - n) else Marking(header),
                toHelper := s.toHelper[n..]))
      else None
    case (HelperStore, Marking(header)) =>
      Some(s.(helper := Naming(header), shared := s.shared.(helperMagic := HELPER_MAGIC)))
    case (HelperStore, Naming(header)) =>
      Some(s.(helper := Beating(header), shared := s.shared.(helperPid := c.pid)))
    case (HelperStore, Beating(header)) =>
      Some(s.(helper := Replying(header, Encode(ReplyHeader(header), c.replyPadding(s.shared.heartbeat))),
              shared := s.shared.(heartbeat := (s.shared.heartbeat + 1) % 0x1_0000_0000_0000_0000)))
    case (HelperWrite(n), Replying(header, rest)) =>
      if !closed && 0 < n <= |rest| && |s.toHost| + n <= c.capacity then
        Some(s.(helper := if n < |rest| then Replying(header, rest[n..]) else AfterReplyHeader(c, header),
                toHost := s.toHost + rest[..n]))
      else None
    case (HelperWrite(n), ReplyingHello(header, rest)) =>
      if !closed && 0 < n <= |rest| && |s.toHost| + n <= c.capacity then
        Some(s.(helper := if n < |rest| then ReplyingHello(header, rest[n..]) else AfterReply(header),
                toHost := s.toHost + rest[..n]))
      else None
    case (HelperLeave, Leaving) => Some(s.(helper := Exited(0)))
    case (HelperReadError, ReadingHeader(_)) => Some(s.(helper := Exited(65)))
    case (HelperReadError, ReadingPayload(_, _)) => Some(s.(helper := Exited(66)))
    case (HelperEndOfFile, ReadingHeader(_)) =>
      if closed && s.toHelper == [] then Some(s.(helper := Exited(65))) else None
    case (HelperEndOfFile, ReadingPayload(_, _)) =>
      if closed && s.toHelper == [] then Some(s.(helper := Exited(66))) else None
    case (HelperWriteError, Replying(_, _)) => Some(s.(helper := Exited(67)))
    case (HelperWriteError, ReplyingHello(_, _)) => Some(s.(helper := Exited(68)))
    case (HelperBrokenPipe, Replying(_, _)) => if closed then Some(s.(helper := Killed)) else None
    case (HelperBrokenPipe, ReplyingHello(_, _)) => if closed then Some(s.(helper := Killed)) else None
    case _ => None
  }

  ghost function Next(c: Config, s: State, a: Action): Option<State>
    requires c.Sensible()
  {
    if a.ByHelper() then HelperNext(c, s, a) else HostNext(c, s, a)
  }

  /** The state after a run, if every action was possible when its turn came. */
  ghost function Run(c: Config, s: State, actions: seq<Action>): Option<State>
    requires c.Sensible()
    decreases |actions|
  {
    if actions == [] then Some(s)
    else
      var before := Run(c, s, actions[..|actions| - 1]);
      if before.None? then None else Next(c, before.value, actions[|actions| - 1])
  }
}
