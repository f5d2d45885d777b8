/**
 What a passing probe means when nothing is known of the other process: between the host's steps the helper, the two
 queues and the shared record may change in any way (platform/darwin/graft_probe.c:625-658).
 */
module HostVerdict {
  import opened Bytes
  import opened IpcHeader
  import opened Options
  import opened Protocol

  /** A step of the host, or anything that happens around it. */
  datatype Event =
    | Step(a: Action)
    | Around(helper: Helper, toHelper: seq<Byte>, toHost: seq<Byte>, shared: SharedRecord)

  ghost function After(c: Config, s: State, e: Event): Option<State>
    requires c.Sensible()
  {
    match e
    case Step(a) => HostNext(c, s, a)
    case Around(helper, toHelper, toHost, shared) => Some(State(s.host, helper, toHelper, toHost, shared))
  }

  /** The state after these events, if every step of the host was possible when its turn came. */
  ghost function Past(c: Config, events: seq<Event>): Option<State>
    requires c.Sensible()
  {
    if events == [] then Some(Init(c))
    else
      var before := Past(c, events[..|events| - 1]);
      if before.None? then None else After(c, before.value, events[|events| - 1])
  }

  /** A reply header that the host may count as the reply to this request. */
  ghost predicate GoodReply(reply: Header, request: Header) {
    && reply.magic == 0x47524654 && reply.version == 1
    && reply.requestId == request.requestId && reply.payloadSize in {0, 24}
  }

  /** The record shows that both sides see the same memory, and enough beats. */
  ghost predicate SharesMemory(c: Config, shared: SharedRecord) {
    && shared.parentMagic == 0x4752414654504152 && shared.helperMagic == 0x4752414654484c50
    && shared.helperPid == c.pid && shared.heartbeat >= |c.requests|
  }

  /** At event `i` the host looked at a record that shares memory. */
  ghost predicate SawShared(c: Config, events: seq<Event>, i: int)
    requires c.Sensible()
  {
    && 0 <= i < |events| && events[i] == Step(HostCheck)
    && Past(c, events[..i]).Some? && SharesMemory(c, Past(c, events[..i]).value.shared)
  }

  /** At event `i` the host collected a helper that had left with code 0. */
  ghost predicate SawExit(c: Config, events: seq<Event>, i: int)
    requires c.Sensible()
  {
    && 0 <= i < |events| && events[i] == Step(HostReap)
    && Past(c, events[..i]).Some? && Past(c, events[..i]).value.helper == Exited(0)
  }

  /** The replies counted so far. */
  ghost predicate Counted(c: Config, host: Host) {
    && |host.replies| == host.answered <= |c.requests|
    && forall k :: 0 <= k < host.answered ==> GoodReply(host.replies[k], c.requests[k])
  }

  /** A whole header that waits for its payload has been looked at. */
  ghost predicate Pending(c: Config, host: Host) {
    && host.answered < |c.requests| && |host.got| < 48
    && (|host.got| >= 24 ==> GoodReply(Decode(host.got[..24]), c.requests[host.answered]))
  }

  /** What the host's phase says about the past. */
  ghost predicate Earned(c: Config, host: Host, events: seq<Event>)
    requires c.Sensible()
  {
    && Counted(c, host)
    && match host.phase
       case Talking => Pending(c, host)
       case Checking(ok) => ok ==> host.answered == |c.requests|
       case Waiting(ok, sharedOk) =>
         (ok ==> host.answered == |c.requests|) && (sharedOk ==> exists i :: SawShared(c, events, i))
       case Done(pass) =>
         pass ==>
           && host.answered == |c.requests|
           && host.hello.pid > 0 && host.hello.pageSize > 0 && host.hello.nonce != 0
           && (exists i :: SawExit(c, events, i))
           && (c.requireShared ==> exists i :: SawShared(c, events, i))
  }

  lemma StillSeen(c: Config, events: seq<Event>, e: Event, i: int)
    requires c.Sensible()
    ensures SawShared(c, events, i) ==> SawShared(c, events + [e], i)
    ensures SawExit(c, events, i) ==> SawExit(c, events + [e], i)
  {
    if 0 <= i < |events| {
      assert (events + [e])[..i] == events[..i];
    }
  }

  /** More events change nothing about what a host in the same phase has earned. */
  lemma StillEarned(c: Config, host: Host, events: seq<Event>, e: Event)
    requires c.Sensible() && Earned(c, host, events)
    ensures Earned(c, host, events + [e])
  {
    if i :| SawShared(c, events, i) {
      StillSeen(c, events, e, i);
    }
    if i :| SawExit(c, events, i) {
      StillSeen(c, events, e, i);
    }
  }

  lemma OneMoreReply(c: Config, host: Host, header: Header)
    requires Counted(c, host) && host.answered < |c.requests| && GoodReply(header, c.requests[host.answered])
    ensures forall k :: 0 <= k < host.answered + 1 ==> GoodReply((host.replies + [header])[k], c.requests[k])
  {
  }

  /** Completing a counted reply. */
  lemma CompleteIsCounted(c: Config, host: Host, header: Header, hello: HelloPayload)
    requires c.Sensible() && Counted(c, host) && host.answered < |c.requests|
    requires GoodReply(header, c.requests[host.answered])
    ensures var after := Complete(c, host, header, hello);
            && Counted(c, after)
            && (after.phase.Talking? ==> Pending(c, after))
            && (after.phase.Talking? || after.phase == Checking(true))
            && (after.phase.Checking? ==> after.answered == |c.requests|)
  {
    OneMoreReply(c, host, header);
  }

  lemma DigestIsEarned(c: Config, host: Host, got: seq<Byte>, events: seq<Event>)
    requires c.Sensible() && Counted(c, host) && Pending(c, host) && host.phase.Talking?
    requires host.got < got && |got| <= 48 && (|host.got| < 24 ==> |got| <= 24)
    ensures Earned(c, Digest(c, host, got), events)
  {
    if |got| == 24 {
      assert got[..24] == got;
      if GoodReply(Decode(got), c.requests[host.answered]) {
        CompleteIsCounted(c, host, Decode(got), host.hello);
      }
    } else if |got| > 24 {
      assert got[..24] == host.got[..24];
      if |got| == 48 {
        CompleteIsCounted(c, host, Decode(got[..24]), DecodeHello(got[24..]));
      }
    }
  }

  lemma ReadIsEarned(c: Config, s: State, n: nat, events: seq<Event>)
    requires c.Sensible() && Earned(c, s.host, events) && HostNext(c, s, HostRead(n)).Some?
    ensures Earned(c, HostNext(c, s, HostRead(n)).value.host, events + [Step(HostRead(n))])
  {
    var got := s.host.got + s.toHost[..n];
    assert s.host.got < got by {
      assert got[..|s.host.got|] == s.host.got;
    }
    DigestIsEarned(c, s.host, got, events + [Step(HostRead(n))]);
  }

  lemma CheckIsEarned(c: Config, s: State, events: seq<Event>)
    requires c.Sensible() && Past(c, events) == Some(s)
    requires Earned(c, s.host, events) && HostNext(c, s, HostCheck).Some?
    ensures Earned(c, HostNext(c, s, HostCheck).value.host, events + [Step(HostCheck)])
  {
    var more := events + [Step(HostCheck)];
    assert more[..|events|] == events && more[|events|] == Step(HostCheck);
    if SharedOk(c, s.shared) {
      assert SawShared(c, more, |events|);
    }
  }

  lemma ReapIsEarned(c: Config, s: State, events: seq<Event>)
    requires c.Sensible() && Past(c, events) == Some(s)
    requires Earned(c, s.host, events) && HostNext(c, s, HostReap).Some?
    ensures Earned(c, HostNext(c, s, HostReap).value.host, events + [Step(HostReap)])
  {
    var more := events + [Step(HostReap)];
    assert more[..|events|] == events && more[|events|] == Step(HostReap);
    if s.helper == Exited(0) {
      assert SawExit(c, more, |events|);
    }
    if i :| SawShared(c, events, i) {
      StillSeen(c, events, Step(HostReap), i);
    }
  }

  lemma StepIsEarned(c: Config, s: State, a: Action, events: seq<Event>)
    requires c.Sensible() && Past(c, events) == Some(s)
    requires Earned(c, s.host, events) && HostNext(c, s, a).Some?
    ensures Earned(c, HostNext(c, s, a).value.host, events + [Step(a)])
  {
    match a
    case HostRead(n) => ReadIsEarned(c, s, n, events);
    case HostCheck => CheckIsEarned(c, s, events);
    case HostReap => ReapIsEarned(c, s, events);
    case HostWrite(n) =>
    case HostGiveUp =>
    case HostKill =>
    case _ =>
  }

  lemma {:induction false} PastIsEarned(c: Config, events: seq<Event>)
    requires c.Sensible() && Past(c, events).Some?
    ensures Earned(c, Past(c, events).value.host, events)
  {
    if events != [] {
      var before, e := events[..|events| - 1], events[|events| - 1];
      assert events == before + [e];
      PastIsEarned(c, before);
      var s := Past(c, before).value;
      match e
      case Step(a) => StepIsEarned(c, s, a, before);
      case Around(_, _, _, _) => StillEarned(c, s.host, before, e);
    }
  }

  /**
   The probe passes only if every request got a reply under its own id, the last payload names a process, a page size
   and a nonce, the helper was collected with exit code 0, and the shared record, where it counts, was seen in order:
   whatever the other process, the queues and the memory did in between.
   */
  lemma PassIsEarned(c: Config, events: seq<Event>)
    requires c.Sensible() && Past(c, events).Some? && Past(c, events).value.host.phase == Done(true)
    ensures var host := Past(c, events).value.host;
            && |host.replies| == |c.requests|
            && (forall k :: 0 <= k < |c.requests| ==> GoodReply(host.replies[k], c.requests[k]))
            && host.hello.pid > 0 && host.hello.pageSize > 0 && host.hello.nonce != 0
            && (exists i :: SawExit(c, events, i))
            && (c.requireShared ==> exists i :: SawShared(c, events, i))
  {
    PastIsEarned(c, events);
  }
}
