/**
 The loops that turn short reads and writes into whole messages
 (platform/darwin/graft_probe.c:166-185, probes/helper/main.c:13-14).
 A channel carries the outcomes the system has in store for it, so that every pattern of short transfers,
 interruptions, arrivals and failures is some value of `plan`.
 */
module Transfer {
  import opened Bytes

  datatype Outcome =
    | Upto(count: nat)   // at most this many bytes, at least one
    | Interrupted        // EINTR
    | Failed             // any other error; a deadline that has passed; a hang-up

  /** One system call: the bytes the peer puts in first, then what the call does. */
  datatype Call = Call(arrived: seq<Byte>, outcome: Outcome)

  datatype Moved = Transferred(count: nat) | Again | Nothing

  class Channel {
    var inFlight: seq<Byte>
    var plan: seq<Call>
    ghost var sent: seq<Byte>
    ghost var received: seq<Byte>
    /** What every call so far came back with. */
    ghost var results: seq<Moved>

    /** Conservation: what was sent is what was received followed by what is in flight. */
    ghost predicate Valid()
      reads this
    {
      sent == received + inFlight
    }

    constructor (plan: seq<Call>)
      ensures Valid() && this.plan == plan && sent == [] && received == [] && results == []
    {
      this.plan := plan;
      inFlight := [];
      sent, received, results := [], [], [];
    }

    /** `read(fd, buffer + at, size)`. An empty queue reads as end of file. */
    method Read(buffer: array<Byte>, at: nat, size: nat) returns (n: Moved)
      requires Valid() && 0 < size && at + size <= buffer.Length
      modifies this, buffer
      ensures Valid() && old(sent) <= sent
      ensures n.Transferred? ==> 0 < n.count <= size && received == old(received) + buffer[at..at + n.count]
      ensures !n.Transferred? ==> received == old(received)
      ensures forall i :: 0 <= i < buffer.Length && !(n.Transferred? && at <= i < at + n.count) ==>
                buffer[i] == old(buffer[i])
      ensures results == old(results) + [n]
      ensures n == Nothing <==>
                old(plan) == [] || old(plan)[0].outcome.Failed?
                || (old(plan)[0].outcome.Upto? && old(inFlight) + old(plan)[0].arrived == [])
      ensures n == Again <==> old(plan) != [] && old(plan)[0].outcome.Interrupted?
      ensures |plan| <= |old(plan)| && (n != Nothing ==> |plan| < |old(plan)|)
    {
      if plan == [] {
        results := results + [Nothing];
        return Nothing;
      }
      var call := plan[0];
      plan := plan[1..];
      Concatenated(received, inFlight, call.arrived);
      inFlight := inFlight + call.arrived;
      sent := sent + call.arrived;
      match call.outcome
      case Interrupted =>
        results := results + [Again];
        return Again;
      case Failed =>
        results := results + [Nothing];
        return Nothing;
      case Upto(count) =>
        if inFlight == [] {
          results := results + [Nothing];
          return Nothing;
        }
        var k := Min(Max(count, 1), Min(size, |inFlight|));
        forall i | 0 <= i < k {
          buffer[at + i] := inFlight[i];
        }
        assert buffer[at..at + k] == inFlight[..k];
        assert inFlight[..k] + inFlight[k..] == inFlight;
        Concatenated(received, inFlight[..k], inFlight[k..]);
        received := received + inFlight[..k];
        inFlight := inFlight[k..];
        results := results + [Transferred(k)];
        return Transferred(k);
    }

    /** `write(fd, data, |data|)`. */
    method Write(data: seq<Byte>) returns (n: Moved)
      requires Valid() && data != []
      modifies this
      ensures Valid() && received == old(received)
      ensures n.Transferred? ==> 0 < n.count <= |data| && sent == old(sent) + data[..n.count]
      ensures !n.Transferred? ==> sent == old(sent)
      ensures results == old(results) + [n]
      ensures n == Nothing <==> old(plan) == [] || old(plan)[0].outcome.Failed?
      ensures n == Again <==> old(plan) != [] && old(plan)[0].outcome.Interrupted?
      ensures |plan| <= |old(plan)| && (n != Nothing ==> |plan| < |old(plan)|)
    {
      if plan == [] {
        results := results + [Nothing];
        return Nothing;
      }
      var call := plan[0];
      plan := plan[1..];
      match call.outcome
      case Interrupted =>
        results := results + [Again];
        return Again;
      case Failed =>
        results := results + [Nothing];
        return Nothing;
      case Upto(count) =>
        var k := Min(Max(count, 1), |data|);
        inFlight := inFlight + data[..k];
        sent := sent + data[..k];
        results := results + [Transferred(k)];
        return Transferred(k);
    }
  }

  /** A loop that goes on after short transfers and interruptions, and gives up at the first failed call. */
  ghost predicate Persistent(before: seq<Moved>, after: seq<Moved>, ok: bool) {
    && before <= after && (!ok ==> before < after)
    && forall i :: |before| <= i < |after| ==> (after[i] == Nothing <==> !ok && i == |after| - 1)
  }

  /** A loop that gives up at the first call that moves nothing, interruptions included. */
  ghost predicate Impatient(before: seq<Moved>, after: seq<Moved>, ok: bool) {
    && before <= after && (!ok ==> before < after)
    && forall i :: |before| <= i < |after| ==> (!after[i].Transferred? <==> !ok && i == |after| - 1)
  }

  /**
   `read_full_deadline`: success stores exactly the next `size` bytes of the stream; failure has consumed only a
   proper prefix of them. Nothing beyond `size` is written.
   */
  method ReadFullDeadline(channel: Channel, buffer: array<Byte>, size: nat) returns (ok: bool, done: nat)
    requires channel.Valid() && size <= buffer.Length
    modifies channel, buffer
    ensures channel.Valid() && old(channel.sent) <= channel.sent
    ensures done <= size && channel.received == old(channel.received) + buffer[..done]
    ensures ok <==> done == size
    ensures Persistent(old(channel.results), channel.results, ok)
    ensures buffer[done..] == old(buffer[done..])
  {
    done := 0;
    while done < size
      invariant channel.Valid() && old(channel.sent) <= channel.sent
      invariant done <= size && channel.received == old(channel.received) + buffer[..done]
      invariant forall i :: done <= i < buffer.Length ==> buffer[i] == old(buffer[i])
      invariant Persistent(old(channel.results), channel.results, true)
      decreases |channel.plan|
    {
      ghost var before := buffer[..done];
      var n := channel.Read(buffer, done, size - done);
      assert buffer[..done] == before;
      match n
      case Nothing => return false, done;
      case Again =>
      case Transferred(count) =>
        assert buffer[..done + count] == before + buffer[done..done + count];
        done := done + count;
    }
    return true, done;
  }

  /** The helper's `read_full`: the same promise, but an interruption is a failure. */
  method ReadFull(channel: Channel, buffer: array<Byte>, size: nat) returns (ok: bool, done: nat)
    requires channel.Valid() && size <= buffer.Length
    modifies channel, buffer
    ensures channel.Valid() && old(channel.sent) <= channel.sent
    ensures done <= size && channel.received == old(channel.received) + buffer[..done]
    ensures ok <==> done == size
    ensures Impatient(old(channel.results), channel.results, ok)
    ensures buffer[done..] == old(buffer[done..])
    ensures |channel.plan| <= |old(channel.plan)| && (ok && size > 0 ==> |channel.plan| < |old(channel.plan)|)
  {
    done := 0;
    while done < size
      invariant channel.Valid() && old(channel.sent) <= channel.sent
      invariant done <= size && channel.received == old(channel.received) + buffer[..done]
      invariant forall i :: done <= i < buffer.Length ==> buffer[i] == old(buffer[i])
      invariant |channel.plan| <= |old(channel.plan)| && (done > 0 ==> |channel.plan| < |old(channel.plan)|)
      invariant Impatient(old(channel.results), channel.results, true)
      decreases |channel.plan|
    {
      ghost var before := buffer[..done];
      var n := channel.Read(buffer, done, size - done);
      assert buffer[..done] == before;
      match n
      case Nothing => return false, done;
      case Again => return false, done;
      case Transferred(count) =>
        assert buffer[..done + count] == before + buffer[done..done + count];
        done := done + count;
    }
    return true, done;
  }

  /** `write_full_deadline`: the stream gains the whole message, or on failure a proper prefix of it. */
  method WriteFullDeadline(channel: Channel, message: seq<Byte>) returns (ok: bool, done: nat)
    requires channel.Valid()
    modifies channel
    ensures channel.Valid() && channel.received == old(channel.received)
    ensures done <= |message| && channel.sent == old(channel.sent) + message[..done]
    ensures ok <==> done == |message|
    ensures Persistent(old(channel.results), channel.results, ok)
  {
    done := 0;
    while done < |message|
      invariant channel.Valid() && channel.received == old(channel.received)
      invariant done <= |message| && channel.sent == old(channel.sent) + message[..done]
      invariant Persistent(old(channel.results), channel.results, true)
      decreases |channel.plan|
    {
      var n := channel.Write(message[done..]);
      match n
      case Nothing => return false, done;
      case Again =>
      case Transferred(count) =>
        assert message[..done + count] == message[..done] + message[done..][..count];
        done := done + count;
    }
    return true, done;
  }

  /** The helper's `write_full`: the same promise, but an interruption is a failure. */
  method WriteFull(channel: Channel, message: seq<Byte>) returns (ok: bool, done: nat)
    requires channel.Valid()
    modifies channel
    ensures channel.Valid() && channel.received == old(channel.received)
    ensures done <= |message| && channel.sent == old(channel.sent) + message[..done]
    ensures ok <==> done == |message|
    ensures Impatient(old(channel.results), channel.results, ok)
  {
    done := 0;
    while done < |message|
      invariant channel.Valid() && channel.received == old(channel.received)
      invariant done <= |message| && channel.sent == old(channel.sent) + message[..done]
      invariant Impatient(old(channel.results), channel.results, true)
      decreases |channel.plan|
    {
      var n := channel.Write(message[done..]);
      match n
      case Nothing => return false, done;
      case Again => return false, done;
      case Transferred(count) =>
        assert message[..done + count] == message[..done] + message[done..][..count];
        done := done + count;
    }
    return true, done;
  }

  /**
   Two transfers of the same stretch of the same stream agree: whatever the short reads and writes were, the reader
   holds what the writer sent at that place.
   */
  lemma SameBytesAtBothEnds(sent: seq<Byte>, before: seq<Byte>, message: seq<Byte>, received: seq<Byte>, at: nat)
    requires before + message <= sent
    requires received <= sent
    requires at == |before| && at + |message| <= |received|
    ensures received[at..at + |message|] == message
  {
    assert sent[at..at + |message|] == message;
    forall i | 0 <= i < |message| ensures received[at + i] == message[i] {
      assert received[at + i] == sent[at + i] == sent[at..at + |message|][i];
    }
  }
}
