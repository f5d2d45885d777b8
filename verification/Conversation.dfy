/** The two loops face each other: what one side writes is all that the other side can have read. */
module Conversation {
  import opened Bytes
  import opened IpcHeader
  import opened Protocol
  import opened Transfer
  import HelperLoop
  import HostLoop

  /** Requests as the host builds them: valid, and without a payload. */
  ghost predicate Plain(requests: seq<Received>) {
    forall i :: 0 <= i < |requests| ==> requests[i].Valid() && requests[i].payloadSize == 0
  }

  // ---- From the host to the helper ----

  /** A stream that starts with a request's bytes starts with that request. */
  lemma RequestIsRead(h: Received, padding: Padding, log: seq<Byte>)
    requires h.Valid() && h.payloadSize == 0
    requires |log| >= HEADER_SIZE && log[..HEADER_SIZE] == Encode(h, padding)
    ensures Decode(log[..HEADER_SIZE]) == h && MessageLength(log) == HEADER_SIZE
    ensures HelperLoop.IsRequest(log[..HEADER_SIZE], h)
  {
    DecodeEncode(h, padding);
    assert log[..HEADER_SIZE][..HEADER_SIZE] == log[..HEADER_SIZE];
  }

  /** The host's requests are a list that the helper's loop can read. */
  lemma {:induction false} RequestsAreRead(requests: seq<Received>, padding: nat -> Padding, first: nat)
    requires Plain(requests)
    ensures HelperLoop.Carries(HostLoop.RequestsFrom(requests, padding, first), requests)
    decreases |requests|
  {
    if requests != [] {
      var log, rest := HostLoop.RequestsFrom(requests, padding, first), requests[1..];
      assert log[..HEADER_SIZE] == Encode(requests[0], padding(first));
      assert log[HEADER_SIZE..] == HostLoop.RequestsFrom(rest, padding, first + 1);
      RequestIsRead(requests[0], padding(first), log);
      RequestsAreRead(rest, padding, first + 1);
    }
  }

  lemma PrefixTail(log: seq<Byte>, head: seq<Byte>, rest: seq<Byte>)
    requires log <= head + rest && |head| <= |log|
    ensures log[..|head|] == head && log[|head|..] <= rest
  {
    assert log == (head + rest)[..|log|];
  }

  /** The two streams agree on the bytes that both of `log` and `head` have. */
  lemma PrefixFront(log: seq<Byte>, more: seq<Byte>, head: seq<Byte>, rest: seq<Byte>, n: nat)
    requires log + more <= head + rest && n <= |log| && n <= |head|
    ensures log[..n] == head[..n]
    ensures n == |head| ==> log[n..] + more <= rest
  {
    FrontStays(log, more, n);
    FrontStays(head, rest, n);
    assert (log + more)[..n] == (head + rest)[..n];
    assert n == |head| ==> head[n..] + rest == rest;
    LeftIsPrefix(log + more, head + rest, n);
  }

  /** Whatever list was read from the start of the host's stream is the start of the host's list. */
  lemma {:induction false} OnlyTheRequestsAreRead(
    log: seq<Byte>, read: seq<Received>, requests: seq<Received>, padding: nat -> Padding, first: nat)
    requires Plain(requests) && HelperLoop.Carries(log, read)
    requires log <= HostLoop.RequestsFrom(requests, padding, first)
    ensures |read| <= |requests| && read == requests[..|read|] && |log| == HEADER_SIZE * |read|
    decreases |read|
  {
    if read != [] {
      var head, rest := Encode(requests[0], padding(first)), HostLoop.RequestsFrom(requests[1..], padding, first + 1);
      PrefixTail(log, head, rest);
      RequestIsRead(requests[0], padding(first), log);
      OnlyTheRequestsAreRead(log[HEADER_SIZE..], read[1..], requests[1..], padding, first + 1);
      assert read == [read[0]] + read[1..];
    }
  }

  lemma {:induction false} RequestsSplit(requests: seq<Received>, padding: nat -> Padding, first: nat, k: nat)
    requires k <= |requests|
    ensures var all := HostLoop.RequestsFrom(requests, padding, first);
            && |all| == HEADER_SIZE * |requests|
            && all[HEADER_SIZE * k..] == HostLoop.RequestsFrom(requests[k..], padding, first + k)
    decreases |requests|
  {
    var all := HostLoop.RequestsFrom(requests, padding, first);
    if k == 0 {
      assert requests[0..] == requests && all[0..] == all;
      if requests != [] {
        RequestsSplit(requests[1..], padding, first + 1, 0);
      }
    } else {
      RequestsSplit(requests[1..], padding, first + 1, k - 1);
      var rest := HostLoop.RequestsFrom(requests[1..], padding, first + 1);
      assert all[HEADER_SIZE * k..] == rest[HEADER_SIZE * (k - 1)..];
      assert requests[1..][k - 1..] == requests[k..];
    }
  }

  lemma LeftoverIsNoRefusal(code: int, got: seq<Byte>,
                            requests: seq<Received>, padding: nat -> Padding, first: nat, broke: bool)
    requires Plain(requests) && got <= HostLoop.RequestsFrom(requests, padding, first)
    requires HelperLoop.NoRequest(code, got, broke) && code in {65, 66}
    ensures code == 65 && broke && |got| < HEADER_SIZE
  {
    assert got[..|got|] == got;
    if |got| >= HEADER_SIZE {
      PrefixTail(got, Encode(requests[0], padding(first)), HostLoop.RequestsFrom(requests[1..], padding, first + 1));
      RequestIsRead(requests[0], padding(first), got);
    }
  }

  /** What is received and not part of the log is the rest of what is received. */
  lemma LogIsPrefix(start: seq<Byte>, log: seq<Byte>, got: seq<Byte>)
    requires start + log <= start + got
    ensures log <= got && (start + got)[|start + log|..] == got[|log|..]
  {
    assert log == (start + log)[|start|..] && got == (start + got)[|start|..];
  }

  lemma LeftIsPrefix(got: seq<Byte>, all: seq<Byte>, n: nat)
    requires n <= |got| && got <= all
    ensures got[n..] <= all[n..]
  {
  }

  /** What the helper took from the host's stream, and what it left, are parts of the host's requests. */
  lemma PartsOfTheStream(log: seq<Byte>, read: seq<Received>, got: seq<Byte>, requests: seq<Received>,
                         padding: nat -> Padding)
    requires Plain(requests) && HelperLoop.Carries(log, read)
    requires log <= got && got <= HostLoop.Requests(requests, padding)
    ensures read <= requests
    ensures got[|log|..] <= HostLoop.RequestsFrom(requests[|read|..], padding, |read|)
    ensures log == HostLoop.Requests(requests, padding) <==> read == requests
  {
    OnlyTheRequestsAreRead(log, read, requests, padding, 0);
    RequestsSplit(requests, padding, 0, |read|);
    LeftIsPrefix(got, HostLoop.Requests(requests, padding), |log|);
  }

  /**
   A run of the helper's loop that has received nothing but the host's stream has answered a first part of the host's
   requests, and it ended for no reason but SHUTDOWN or a failed system call. Once the whole stream has come, SHUTDOWN
   included, every request has been read.
   */
  lemma HelperReadsTheHost(
    code: int, a: HelperLoop.View, b: HelperLoop.View, read: seq<Received>, log: seq<Byte>,
    replyPadding: nat -> Padding, hello: HelloPayload, got: seq<Byte>, requests: seq<Received>, padding: nat -> Padding)
    requires hello.Fits() && HelperLoop.Outcome(code, a, b, read, log, replyPadding, hello)
    requires Plain(requests) && b.received == a.received + got && got <= HostLoop.Requests(requests, padding)
    ensures read <= requests
    ensures code != 66 && (code == 65 ==> HelperLoop.Broke(a.readResults, b.readResults))
    ensures HelperLoop.StopsAtShutdown(requests) && HelperLoop.EndsWithShutdown(requests) && code in {0, 65} ==>
              (code == 0 <==> read == requests)
    ensures got == HostLoop.Requests(requests, padding) && code != 65 ==> read == requests
  {
    LogIsPrefix(a.received, log, got);
    PartsOfTheStream(log, read, got, requests, padding);
    if code in {65, 66} {
      LeftoverIsNoRefusal(code, got[|log|..], requests[|read|..], padding, |read|,
                          HelperLoop.Broke(a.readResults, b.readResults));
    } else {
      assert (a.received + log)[|a.received|..] == log && (a.received + got)[|a.received|..] == got;
    }
    if HelperLoop.StopsAtShutdown(requests) && HelperLoop.EndsWithShutdown(requests) {
      ShutdownIsLast(requests, read);
    }
  }

  /** A first part of a list with SHUTDOWN at its end only is the whole list once it ends with SHUTDOWN. */
  lemma ShutdownIsLast(requests: seq<Received>, read: seq<Received>)
    requires HelperLoop.StopsAtShutdown(requests) && HelperLoop.EndsWithShutdown(requests) && read <= requests
    ensures HelperLoop.EndsWithShutdown(read) <==> read == requests
  {
    if read != [] {
      assert requests[|read| - 1] == read[|read| - 1];
    }
  }

  // ---- From the helper to the host ----

  /** The payload the host ends with: the helper's, once a HELLO has been asked. */
  function HelloFor(requests: seq<Received>, hello: HelloPayload, before: HelloPayload): HelloPayload {
    if requests == [] then before
    else HelloFor(requests[1..], hello, if requests[0].kind == HELLO then hello else before)
  }

  /** A stream that starts with the helper's answer to a request starts with a reply the host accepts. */
  lemma ReplyIsAccepted(h: Received, padding: Padding, hello: HelloPayload, before: HelloPayload, log: seq<Byte>)
    requires hello.Fits() && HelperLoop.Reply(h, padding, hello) <= log
    ensures var reply := HelperLoop.Reply(h, padding, hello);
            && |log| >= HEADER_SIZE && MessageLength(log) == |reply| && log[..|reply|] == reply
            && HostLoop.IsReply(reply, h)
            && HostLoop.HelloAfter(reply, before) == if h.kind == HELLO then hello else before
  {
    var header := Encode(ReplyHeader(h), padding);
    var reply := HelperLoop.Reply(h, padding, hello);
    DecodeEncode(ReplyHeader(h), padding);
    DecodeEncodeHello(hello);
    assert reply[..HEADER_SIZE] == header && log[..HEADER_SIZE] == reply[..HEADER_SIZE];
    if h.kind == HELLO {
      assert reply[HEADER_SIZE..] == EncodeHello(hello);
    }
  }

  /** The helper's answers to any requests are what the host's loop accepts. */
  lemma {:induction false} RepliesAreAccepted(
    requests: seq<Received>, padding: nat -> Padding, hello: HelloPayload, before: HelloPayload, first: nat)
    requires hello.Fits()
    ensures HostLoop.Answers(HelperLoop.RepliesFrom(requests, padding, hello, first), requests, before,
                             HelloFor(requests, hello, before))
    decreases |requests|
  {
    if requests != [] {
      var log, rest := HelperLoop.RepliesFrom(requests, padding, hello, first), requests[1..];
      var reply := HelperLoop.Reply(requests[0], padding(first), hello);
      ReplyIsAccepted(requests[0], padding(first), hello, before, log);
      assert log[|reply|..] == HelperLoop.RepliesFrom(rest, padding, hello, first + 1);
      RepliesAreAccepted(rest, padding, hello, HostLoop.HelloAfter(reply, before), first + 1);
    }
  }

  /** The first of the accepted replies is the helper's first answer; the others follow it. */
  lemma NextReply(
    log: seq<Byte>, more: seq<Byte>, taken: seq<Received>, rest: seq<Received>, before: HelloPayload,
    after: HelloPayload,
    padding: nat -> Padding, hello: HelloPayload, first: nat)
    requires hello.Fits() && taken != [] && HostLoop.Answers(log, taken, before, after)
    requires log + more <= HelperLoop.RepliesFrom(taken + rest, padding, hello, first)
    ensures var reply := HelperLoop.Reply(taken[0], padding(first), hello);
            && reply <= log
            && log[|reply|..] + more <= HelperLoop.RepliesFrom(taken[1..] + rest, padding, hello, first + 1)
            && HostLoop.Answers(log[|reply|..], taken[1..], if taken[0].kind == HELLO then hello else before, after)
  {
    assert (taken + rest)[1..] == taken[1..] + rest;
    HostLoop.AnswersStep(log, taken, before, after);
    FirstReply(log, more, taken[0], padding(first), hello, before,
               HelperLoop.RepliesFrom(taken[1..] + rest, padding, hello, first + 1));
  }

  /** The log is the answers to `taken`, more is the start of those to `rest`, and `after` is the payload kept. */
  ghost predicate AreAnswers(
    log: seq<Byte>, more: seq<Byte>, taken: seq<Received>, rest: seq<Received>, before: HelloPayload,
    after: HelloPayload,
    padding: nat -> Padding, hello: HelloPayload, first: nat)
    requires hello.Fits()
  {
    && log == HelperLoop.RepliesFrom(taken, padding, hello, first)
    && more <= HelperLoop.RepliesFrom(rest, padding, hello, first + |taken|)
    && after == HelloFor(taken, hello, before)
  }

  /** Replies accepted from the start of the helper's stream are the helper's answers, and so is the payload kept. */
  lemma {:induction false} OnlyTheRepliesAreAccepted(
    log: seq<Byte>, more: seq<Byte>, taken: seq<Received>, rest: seq<Received>, before: HelloPayload,
    after: HelloPayload,
    padding: nat -> Padding, hello: HelloPayload, first: nat)
    requires hello.Fits() && HostLoop.Answers(log, taken, before, after)
    requires log + more <= HelperLoop.RepliesFrom(taken + rest, padding, hello, first)
    ensures AreAnswers(log, more, taken, rest, before, after, padding, hello, first)
    decreases |taken|
  {
    if taken == [] {
      NothingTaken(log, more, taken, rest);
    } else {
      NextReply(log, more, taken, rest, before, after, padding, hello, first);
      var left := log[|HelperLoop.Reply(taken[0], padding(first), hello)|..];
      OnlyTheRepliesAreAccepted(left, more, taken[1..], rest, if taken[0].kind == HELLO then hello else before, after,
                                padding, hello, first + 1);
      OneMoreTaken(log, left, more, taken, rest, before, after, padding, hello, first);
    }
  }

  lemma OneMoreTaken(
    log: seq<Byte>, left: seq<Byte>, more: seq<Byte>, taken: seq<Received>, rest: seq<Received>, before: HelloPayload,
    after: HelloPayload, padding: nat -> Padding, hello: HelloPayload, first: nat)
    requires hello.Fits() && taken != []
    requires var reply := HelperLoop.Reply(taken[0], padding(first), hello); reply <= log && left == log[|reply|..]
    requires AreAnswers(left, more, taken[1..], rest, if taken[0].kind == HELLO then hello else before, after, padding,
                        hello, first + 1)
    ensures AreAnswers(log, more, taken, rest, before, after, padding, hello, first)
  {
    assert log == HelperLoop.Reply(taken[0], padding(first), hello) + left;
  }

  lemma NothingTaken(log: seq<Byte>, more: seq<Byte>, taken: seq<Received>, rest: seq<Received>)
    requires log == [] && taken == []
    ensures log + more == more && taken + rest == rest
  {
  }

  /** A log that starts with a whole message, and continues the helper's stream, starts with the helper's answer. */
  lemma FirstReply(log: seq<Byte>, more: seq<Byte>, h: Received, padding: Padding, hello: HelloPayload,
                   before: HelloPayload, rest: seq<Byte>)
    requires hello.Fits() && log + more <= HelperLoop.Reply(h, padding, hello) + rest
    requires |log| >= HEADER_SIZE && MessageLength(log) <= |log|
    ensures var reply := HelperLoop.Reply(h, padding, hello);
            && MessageLength(log) == |reply| && log[..|reply|] == reply
            && HostLoop.HelloAfter(reply, before) == (if h.kind == HELLO then hello else before)
            && log[|reply|..] + more <= rest
  {
    var reply := HelperLoop.Reply(h, padding, hello);
    ReplyIsAccepted(h, padding, hello, before, reply);
    PrefixFront(log, more, reply, rest, HEADER_SIZE);
    PrefixFront(log, more, reply, rest, |reply|);
  }

  /** No reply of the helper is refused. */
  lemma LeftoverReplyIsNoRefusal(h: Received, padding: Padding, hello: HelloPayload, rest: seq<Byte>,
                                 put: nat, bytes: seq<Byte>, writeFailed: bool, readFailed: bool)
    requires hello.Fits() && bytes <= HelperLoop.Reply(h, padding, hello) + rest
    requires HostLoop.Unanswered(h, put, bytes, writeFailed, readFailed)
    ensures writeFailed || readFailed
  {
    if |bytes| >= HEADER_SIZE {
      var reply := HelperLoop.Reply(h, padding, hello);
      ReplyIsAccepted(h, padding, hello, hello, reply);
      assert bytes[..HEADER_SIZE] == reply[..HEADER_SIZE];
      assert |bytes| == HEADER_SIZE ==> bytes[..HEADER_SIZE] == bytes;
    }
  }

  /**
   A run of the host's loop that has received nothing but the helper's answers succeeds with the helper's payload, or
   stops because a system call failed for good; it never refuses a reply.
   */
  lemma HostAcceptsTheHelper(
    start: HostLoop.View, mid: HostLoop.View, end: HostLoop.View, requests: seq<Received>, answered: nat,
    padding: nat -> Padding, log: seq<Byte>, kept: HelloPayload, put: nat, bytes: seq<Byte>,
    replyPadding: nat -> Padding, hello: HelloPayload)
    requires hello.Fits() && answered <= |requests|
    requires HostLoop.Answered(start, mid, requests[..answered], padding, log, kept)
    requires if answered == |requests| then bytes == []
             else HostLoop.Stopped(mid, end, requests[answered], padding(answered), put, bytes)
    requires log + bytes <= HelperLoop.Replies(requests, replyPadding, hello)
    ensures kept == HelloFor(requests[..answered], hello, HostLoop.NO_HELLO)
    ensures answered == |requests| ==> log == HelperLoop.Replies(requests, replyPadding, hello)
    ensures answered < |requests| ==>
              HostLoop.GaveUp(mid.writeResults, end.writeResults) || HostLoop.GaveUp(mid.readResults, end.readResults)
  {
    var rest := requests[answered..];
    assert requests[..answered] + rest == requests;
    assert answered == |requests| ==> requests[..answered] == requests;
    OnlyTheRepliesAreAccepted(log, bytes, requests[..answered], rest, HostLoop.NO_HELLO, kept, replyPadding, hello, 0);
    if answered < |requests| {
      LeftoverReplyIsNoRefusal(
        rest[0], replyPadding(answered), hello, HelperLoop.RepliesFrom(rest[1..], replyPadding, hello, answered + 1),
        put, bytes, HostLoop.GaveUp(mid.writeResults, end.writeResults),
        HostLoop.GaveUp(mid.readResults, end.readResults));
    }
  }
}
