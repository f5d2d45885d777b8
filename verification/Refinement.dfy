/**
 The loops and the state machine describe the same two processes: a round of the helper's loop, and a turn of the
 host's, are runs of the machine.
 */
module Refinement {
  import opened Bytes
  import opened IpcHeader
  import opened Options
  import opened Protocol
  import HelperLoop
  import HostLoop

  // ---- Runs ----

  lemma {:induction false} RunAppend(c: Config, s: State, first: seq<Action>, rest: seq<Action>)
    requires c.Sensible() && Run(c, s, first).Some?
    ensures Run(c, s, first + rest) == Run(c, Run(c, s, first).value, rest)
    decreases |rest|
  {
    if rest == [] {
      assert first + rest == first;
    } else {
      var n := |rest| - 1;
      RunAppend(c, s, first, rest[..n]);
      assert (first + rest)[..|first + rest| - 1] == first + rest[..n];
    }
  }

  lemma OneAction(c: Config, s: State, a: Action)
    requires c.Sensible()
    ensures Run(c, s, [a]) == Next(c, s, a)
  {
    assert [a][..0] == [];
    assert Run(c, s, []) == Some(s);
  }

  /** A run of one more action. */
  lemma Then(c: Config, s: State, actions: seq<Action>, middle: State, a: Action)
    requires c.Sensible() && Run(c, s, actions) == Some(middle)
    ensures Run(c, s, actions + [a]) == Next(c, middle, a)
  {
    RunAppend(c, s, actions, [a]);
    OneAction(c, middle, a);
  }

  ghost predicate HelperOnly(actions: seq<Action>) {
    forall i :: 0 <= i < |actions| ==> actions[i].ByHelper() && !actions[i].Fault()
  }

  // ---- A round of the helper's loop ----

  /** What reading a whole request does. */
  ghost function AfterReading(s: State, bytes: seq<Byte>, h: Received): State
    requires bytes <= s.toHelper
  {
    s.(helper := Marking(h), toHelper := s.toHelper[|bytes|..])
  }

  lemma ReadingIsRun(c: Config, s: State, bytes: seq<Byte>, h: Received) returns (actions: seq<Action>)
    requires c.Sensible() && s.helper == ReadingHeader([])
    requires HelperLoop.IsRequest(bytes, h) && bytes <= s.toHelper
    ensures HelperOnly(actions) && Run(c, s, actions) == Some(AfterReading(s, bytes, h))
  {
    var head := s.toHelper[..HEADER_SIZE];
    assert head == bytes[..HEADER_SIZE] && [] + head == head;
    var read := s.(helper := Receive(head), toHelper := s.toHelper[HEADER_SIZE..]);
    actions := [HelperRead(HEADER_SIZE)];
    OneAction(c, s, HelperRead(HEADER_SIZE));
    assert Next(c, s, HelperRead(HEADER_SIZE)) == Some(read);
    if h.payloadSize > 0 {
      Then(c, s, actions, read, HelperRead(h.payloadSize));
      assert read.toHelper[h.payloadSize..] == s.toHelper[|bytes|..];
      actions := actions + [HelperRead(h.payloadSize)];
    }
  }

  /** What the three stores do. */
  ghost function AfterStores(c: Config, s: State, h: Received): State
    requires c.Sensible()
  {
    s.(helper := Replying(h, Encode(ReplyHeader(h), c.replyPadding(s.shared.heartbeat))),
       shared := s.shared.(helperMagic := HELPER_MAGIC, helperPid := c.pid,
                           heartbeat := (s.shared.heartbeat + 1) % 0x1_0000_0000_0000_0000))
  }

  lemma StoresAreRun(c: Config, s: State, h: Received) returns (actions: seq<Action>)
    requires c.Sensible() && s.helper == Marking(h)
    ensures HelperOnly(actions) && Run(c, s, actions) == Some(AfterStores(c, s, h))
  {
    var named := s.(helper := Naming(h), shared := s.shared.(helperMagic := HELPER_MAGIC));
    var beating := named.(helper := Beating(h), shared := named.shared.(helperPid := c.pid));
    OneAction(c, s, HelperStore);
    Then(c, s, [HelperStore], named, HelperStore);
    Then(c, s, [HelperStore] + [HelperStore], beating, HelperStore);
    actions := [HelperStore] + [HelperStore] + [HelperStore];
  }

  /** What writing the whole answer does. */
  ghost function AfterWriting(c: Config, s: State, h: Received, reply: seq<Byte>): State {
    s.(helper := AfterReply(h), toHost := s.toHost + reply)
  }

  lemma WritingIsRun(c: Config, s: State, h: Received, padding: Padding) returns (actions: seq<Action>)
    requires c.Sensible() && !s.host.Closed()
    requires s.helper == Replying(h, Encode(ReplyHeader(h), padding))
    requires |s.toHost| + |HelperLoop.Reply(h, padding, c.Hello())| <= c.capacity
    ensures HelperOnly(actions)
    ensures Run(c, s, actions) == Some(AfterWriting(c, s, h, HelperLoop.Reply(h, padding, c.Hello())))
  {
    var header := Encode(ReplyHeader(h), padding);
    assert header[..HEADER_SIZE] == header;
    actions := [HelperWrite(HEADER_SIZE)];
    OneAction(c, s, HelperWrite(HEADER_SIZE));
    var written := s.(helper := AfterReplyHeader(c, h), toHost := s.toHost + header);
    if h.kind == HELLO {
      var payload := EncodeHello(c.Hello());
      assert payload[..HELLO_SIZE] == payload;
      Concatenated(s.toHost, header, payload);
      Then(c, s, actions, written, HelperWrite(HELLO_SIZE));
      actions := actions + [HelperWrite(HELLO_SIZE)];
    } else {
      assert header + [] == header;
    }
  }

  /** What a round of the loop does. */
  ghost function AfterRound(c: Config, s: State, bytes: seq<Byte>, h: Received): State
    requires c.Sensible() && bytes <= s.toHelper
  {
    AfterWriting(c, AfterStores(c, AfterReading(s, bytes, h), h), h,
                 HelperLoop.Reply(h, c.replyPadding(s.shared.heartbeat), c.Hello()))
  }

  /** One request read, marked and answered, as a round of `HelperLoop.Serve` does, is a run of the machine. */
  lemma RoundIsRun(c: Config, s: State, bytes: seq<Byte>, h: Received) returns (actions: seq<Action>)
    requires c.Sensible() && !s.host.Closed() && s.helper == ReadingHeader([])
    requires HelperLoop.IsRequest(bytes, h) && bytes <= s.toHelper
    requires |s.toHost| + |HelperLoop.Reply(h, c.replyPadding(s.shared.heartbeat), c.Hello())| <= c.capacity
    ensures HelperOnly(actions) && Run(c, s, actions) == Some(AfterRound(c, s, bytes, h))
  {
    var reading := ReadingIsRun(c, s, bytes, h);
    var read := AfterReading(s, bytes, h);
    var storing := StoresAreRun(c, read, h);
    var stored := AfterStores(c, read, h);
    var writing := WritingIsRun(c, stored, h, c.replyPadding(s.shared.heartbeat));
    RunAppend(c, s, reading, storing);
    RunAppend(c, s, reading + storing, writing);
    actions := reading + storing + writing;
  }

  /** What the loop leaves after whole requests. */
  ghost predicate Served(c: Config, s: State, s': State, requests: seq<Received>, log: seq<Byte>)
    requires c.Sensible() && log <= s.toHelper
  {
    && s'.host == s.host && s'.toHelper == s.toHelper[|log|..]
    && s'.toHost == s.toHost + HelperLoop.RepliesFrom(requests, c.replyPadding, c.Hello(), s.shared.heartbeat)
    && s'.shared.heartbeat == s.shared.heartbeat + |requests|
    && s'.helper == if HelperLoop.EndsWithShutdown(requests) then Leaving else ReadingHeader([])
  }

  /**
   A run of `HelperLoop.Serve` on whole requests, with SHUTDOWN at most at the end, is a run of the machine: the same
   bytes read and written, the same heartbeat, and the helper leaving exactly after SHUTDOWN.
   */
  lemma {:induction false} ServingIsRun(c: Config, s: State, requests: seq<Received>, log: seq<Byte>)
    returns (actions: seq<Action>, s': State)
    requires c.Sensible() && !s.host.Closed() && s.helper == ReadingHeader([])
    requires HelperLoop.Carries(log, requests) && log <= s.toHelper && HelperLoop.StopsAtShutdown(requests)
    requires s.shared.heartbeat + |requests| < TWO_TO_THE_64
    requires |s.toHost| + |HelperLoop.RepliesFrom(requests, c.replyPadding, c.Hello(), s.shared.heartbeat)|
             <= c.capacity
    ensures HelperOnly(actions) && Run(c, s, actions) == Some(s') && Served(c, s, s', requests, log)
    decreases |requests|
  {
    if requests == [] {
      actions, s' := [], s;
      assert s.toHelper[0..] == s.toHelper && s.toHost + [] == s.toHost;
    } else {
      var h, rest, n := requests[0], requests[1..], MessageLength(log);
      var first := RoundIsRun(c, s, log[..n], h);
      var s1 := AfterRound(c, s, log[..n], h);
      if rest == [] {
        actions, s' := first, s1;
        LastRoundServes(c, s, h, log);
      } else {
        StopsStill(requests);
        RestFollows(c, s, requests, log);
        var more;
        more, s' := ServingIsRun(c, s1, rest, log[n..]);
        RunAppend(c, s, first, more);
        actions := first + more;
        ServedTwice(c, s, s1, s', requests, log);
      }
    }
  }

  lemma LastRoundServes(c: Config, s: State, h: Received, log: seq<Byte>)
    requires c.Sensible() && HelperLoop.Carries(log, [h]) && log <= s.toHelper
    requires s.shared.heartbeat + 1 < TWO_TO_THE_64
    ensures Served(c, s, AfterRound(c, s, log[..MessageLength(log)], h), [h], log)
  {
    assert log[..|log|] == log;
    OnlyMessage(log, h);
    OnlyReply(h, c.replyPadding, c.Hello(), s.shared.heartbeat);
  }

  lemma OnlyMessage(log: seq<Byte>, h: Received)
    requires HelperLoop.Carries(log, [h])
    ensures MessageLength(log) == |log|
  {
    assert [h][1..] == [];
  }

  lemma OnlyReply(h: Received, padding: nat -> Padding, hello: HelloPayload, first: nat)
    requires hello.Fits()
    ensures HelperLoop.RepliesFrom([h], padding, hello, first) == HelperLoop.Reply(h, padding(first), hello)
  {
    assert [h][1..] == [];
    var reply := HelperLoop.Reply(h, padding(first), hello);
    assert reply + [] == reply;
  }

  lemma PartsOfPrefix(log: seq<Byte>, queue: seq<Byte>, n: nat)
    requires log <= queue && n <= |log|
    ensures log[..n] <= queue && log[n..] <= queue[n..]
  {
  }

  lemma StopsStill(requests: seq<Received>)
    requires |requests| > 1 && HelperLoop.StopsAtShutdown(requests)
    ensures requests[0].kind != SHUTDOWN && HelperLoop.StopsAtShutdown(requests[1..])
  {
    assert forall i :: 0 <= i < |requests[1..]| ==> requests[1..][i] == requests[i + 1];
  }

  /** The requirements of the rest hold after the first round. */
  lemma RestFollows(c: Config, s: State, requests: seq<Received>, log: seq<Byte>)
    requires c.Sensible() && |requests| > 1 && requests[0].kind != SHUTDOWN
    requires |log| >= HEADER_SIZE && MessageLength(log) <= |log| && log <= s.toHelper
    requires 0 <= s.shared.heartbeat && s.shared.heartbeat + |requests| < TWO_TO_THE_64
    requires |s.toHost| + |HelperLoop.RepliesFrom(requests, c.replyPadding, c.Hello(), s.shared.heartbeat)|
             <= c.capacity
    ensures var n := MessageLength(log);
            && log[..n] <= s.toHelper
            && var s1 := AfterRound(c, s, log[..n], requests[0]);
            && s1.helper == ReadingHeader([]) && s1.shared.heartbeat == s.shared.heartbeat + 1
            && log[n..] <= s1.toHelper
            && |s1.toHost| + |HelperLoop.RepliesFrom(requests[1..], c.replyPadding, c.Hello(), s1.shared.heartbeat)|
               <= c.capacity
  {
    PartsOfPrefix(log, s.toHelper, MessageLength(log));
  }

  lemma ServedTwice(c: Config, s: State, s1: State, s': State, requests: seq<Received>, log: seq<Byte>)
    requires c.Sensible() && |requests| > 1 && |log| >= HEADER_SIZE && MessageLength(log) <= |log| && log <= s.toHelper
    requires log[..MessageLength(log)] <= s.toHelper
    requires s1 == AfterRound(c, s, log[..MessageLength(log)], requests[0])
    requires s1.shared.heartbeat == s.shared.heartbeat + 1
    requires log[MessageLength(log)..] <= s1.toHelper
    requires Served(c, s1, s', requests[1..], log[MessageLength(log)..])
    ensures Served(c, s, s', requests, log)
  {
    assert requests[|requests| - 1] == requests[1..][|requests| - 2];
    Concatenated(s.toHost, HelperLoop.Reply(requests[0], c.replyPadding(s.shared.heartbeat), c.Hello()),
                 HelperLoop.RepliesFrom(requests[1..], c.replyPadding, c.Hello(), s.shared.heartbeat + 1));
  }

  // ---- A turn of the host's loop ----

  /** A state in which request `k` is about to be sent, and in which its reply has not come yet. */
  ghost predicate AboutToAsk(c: Config, s: State, k: nat)
    requires c.Sensible() && k < |c.requests|
  {
    && s.host.phase.Talking? && s.host.answered == k && s.host.unsent == RequestBytes(c, k) && s.host.got == []
  }

  /** Sending a whole request. */
  lemma SendingIsRun(c: Config, s: State, k: nat)
    requires c.Sensible() && k < |c.requests| && AboutToAsk(c, s, k)
    requires |s.toHelper| + HEADER_SIZE <= c.capacity && !s.helper.Gone()
    ensures Run(c, s, [HostWrite(HEADER_SIZE)])
         == Some(s.(host := s.host.(unsent := []), toHelper := s.toHelper + RequestBytes(c, k)))
  {
    OneAction(c, s, HostWrite(HEADER_SIZE));
    assert RequestBytes(c, k)[..HEADER_SIZE] == RequestBytes(c, k);
    assert RequestBytes(c, k)[HEADER_SIZE..] == [];
  }

  /** What the host does with a whole reply: keeps header and payload, and begins the next request. */
  ghost function AfterReceiving(c: Config, s: State, reply: seq<Byte>): State
    requires c.Sensible() && s.host.answered < |c.requests| && |reply| >= HEADER_SIZE && reply <= s.toHost
  {
    s.(host := Complete(c, s.host, Decode(reply[..HEADER_SIZE]), HostLoop.HelloAfter(reply, s.host.hello)),
       toHost := s.toHost[|reply|..])
  }

  /** A header of an acceptable reply: either more is needed, or the reply is whole. */
  lemma HeaderIsDigested(c: Config, s: State, k: nat, reply: seq<Byte>)
    requires c.Sensible() && k < |c.requests| && s.host.answered == k && s.host.got == []
    requires HostLoop.IsReply(reply, c.requests[k])
    ensures Digest(c, s.host, [] + reply[..HEADER_SIZE])
         == if |reply| > HEADER_SIZE then s.host.(got := reply[..HEADER_SIZE])
            else Complete(c, s.host, Decode(reply[..HEADER_SIZE]), HostLoop.HelloAfter(reply, s.host.hello))
  {
    assert [] + reply[..HEADER_SIZE] == reply[..HEADER_SIZE];
  }

  lemma PayloadIsDigested(c: Config, s: State, k: nat, reply: seq<Byte>)
    requires c.Sensible() && k < |c.requests| && s.host.answered == k
    requires HostLoop.IsReply(reply, c.requests[k]) && |reply| == HEADER_SIZE + HELLO_SIZE
    requires s.host.got == reply[..HEADER_SIZE]
    ensures Digest(c, s.host, s.host.got + reply[HEADER_SIZE..])
         == Complete(c, s.host, Decode(reply[..HEADER_SIZE]), HostLoop.HelloAfter(reply, s.host.hello))
  {
    assert reply[..HEADER_SIZE] + reply[HEADER_SIZE..] == reply;
  }

  lemma HeaderComes(c: Config, s: State, k: nat, reply: seq<Byte>)
    requires c.Sensible() && k < |c.requests| && s.host.phase.Talking? && s.host.answered == k
    requires s.host.unsent == [] && s.host.got == []
    requires HostLoop.IsReply(reply, c.requests[k]) && reply <= s.toHost
    ensures Next(c, s, HostRead(HEADER_SIZE))
         == Some(if |reply| > HEADER_SIZE
                 then s.(host := s.host.(got := reply[..HEADER_SIZE]), toHost := s.toHost[HEADER_SIZE..])
                 else AfterReceiving(c, s, reply))
  {
    assert s.toHost[..HEADER_SIZE] == reply[..HEADER_SIZE];
    HeaderIsDigested(c, s, k, reply);
  }

  /** Receiving what `HostLoop.Ask` accepts as a reply is a run of the machine, to the same header and payload. */
  lemma ReceivingIsRun(c: Config, s: State, k: nat, reply: seq<Byte>) returns (actions: seq<Action>)
    requires c.Sensible() && k < |c.requests| && s.host.phase.Talking? && s.host.answered == k
    requires s.host.unsent == [] && s.host.got == []
    requires HostLoop.IsReply(reply, c.requests[k]) && reply <= s.toHost
    ensures forall i :: 0 <= i < |actions| ==> !actions[i].ByHelper() && !actions[i].Fault()
    ensures Run(c, s, actions) == Some(AfterReceiving(c, s, reply))
  {
    HeaderComes(c, s, k, reply);
    actions := [HostRead(HEADER_SIZE)];
    OneAction(c, s, HostRead(HEADER_SIZE));
    if |reply| > HEADER_SIZE {
      PayloadIsRun(c, s, k, reply);
      actions := actions + [HostRead(HELLO_SIZE)];
    }
  }

  lemma PayloadIsRun(c: Config, s: State, k: nat, reply: seq<Byte>)
    requires c.Sensible() && k < |c.requests| && s.host.phase.Talking? && s.host.answered == k
    requires s.host.unsent == [] && s.host.got == []
    requires HostLoop.IsReply(reply, c.requests[k]) && reply <= s.toHost && |reply| > HEADER_SIZE
    requires Run(c, s, [HostRead(HEADER_SIZE)])
          == Some(s.(host := s.host.(got := reply[..HEADER_SIZE]), toHost := s.toHost[HEADER_SIZE..]))
    ensures Run(c, s, [HostRead(HEADER_SIZE)] + [HostRead(HELLO_SIZE)]) == Some(AfterReceiving(c, s, reply))
  {
    var read := s.(host := s.host.(got := reply[..HEADER_SIZE]), toHost := s.toHost[HEADER_SIZE..]);
    PayloadFollows(c, read, k, reply, s.toHost);
    Then(c, s, [HostRead(HEADER_SIZE)], read, HostRead(HELLO_SIZE));
  }

  lemma PayloadFollows(c: Config, read: State, k: nat, reply: seq<Byte>, queue: seq<Byte>)
    requires c.Sensible() && k < |c.requests| && read.host.phase.Talking? && read.host.answered == k
    requires HostLoop.IsReply(reply, c.requests[k]) && |reply| == HEADER_SIZE + HELLO_SIZE
    requires read.host.unsent == [] && read.host.got == reply[..HEADER_SIZE]
    requires reply <= queue && read.toHost == queue[HEADER_SIZE..]
    ensures HostNext(c, read, HostRead(HELLO_SIZE))
         == Some(read.(host := Complete(c, read.host, Decode(reply[..HEADER_SIZE]),
                                        HostLoop.HelloAfter(reply, read.host.hello)),
                       toHost := queue[|reply|..]))
  {
    assert read.toHost[..HELLO_SIZE] == reply[HEADER_SIZE..];
    assert read.toHost[HELLO_SIZE..] == queue[|reply|..];
    PayloadIsDigested(c, read, k, reply);
  }
}
