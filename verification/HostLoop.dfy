/** The host's request loop (platform/darwin/graft_probe.c:625-637), over channels with arbitrary short transfers. */
module HostLoop {
  import opened Bytes
  import opened IpcHeader
  import opened Protocol
  import opened Transfer

  const NO_HELLO: HelloPayload := HelloPayload(0, 0, 0)

  /** The bytes of a list of requests, in order. */
  function Requests(requests: seq<Received>, padding: nat -> Padding): seq<Byte> {
    RequestsFrom(requests, padding, 0)
  }

  /** The same for requests that are numbered from `first` on. */
  function RequestsFrom(requests: seq<Received>, padding: nat -> Padding, first: nat): seq<Byte> {
    if requests == [] then []
    else Encode(requests[0], padding(first)) + RequestsFrom(requests[1..], padding, first + 1)
  }

  /** What the loop accepts as the header of the reply to a request. */
  predicate HeaderAnswers(h: Header, request: Header) {
    h.Valid() && h.requestId == request.requestId && h.payloadSize in {0, HELLO_SIZE}
  }

  /** A whole reply: the header, and the payload it announces. */
  predicate IsReply(bytes: seq<Byte>, request: Header) {
    && |bytes| >= HEADER_SIZE
    && var h := Decode(bytes[..HEADER_SIZE]);
    && HeaderAnswers(h, request) && |bytes| == HEADER_SIZE + h.payloadSize
  }

  /** The last payload received stays in `hello`. */
  function HelloAfter(bytes: seq<Byte>, before: HelloPayload): HelloPayload {
    if |bytes| == HEADER_SIZE + HELLO_SIZE then DecodeHello(bytes[HEADER_SIZE..]) else before
  }

  /** `log` is exactly one reply to each request, in order; the payload kept goes from `before` to `after`. */
  ghost predicate Answers(log: seq<Byte>, requests: seq<Received>, before: HelloPayload, after: HelloPayload)
    decreases |requests|
  {
    if requests == [] then log == [] && after == before
    else
      && |log| >= HEADER_SIZE && MessageLength(log) <= |log|
      && var first := log[..MessageLength(log)];
      && IsReply(first, requests[0])
      && Answers(log[|first|..], requests[1..], HelloAfter(first, before), after)
  }

  lemma AnswersStep(log: seq<Byte>, requests: seq<Received>, before: HelloPayload, after: HelloPayload)
    requires requests != []
    ensures Answers(log, requests, before, after) <==>
              && |log| >= HEADER_SIZE && MessageLength(log) <= |log|
              && var n := MessageLength(log);
              && IsReply(log[..n], requests[0])
              && Answers(log[n..], requests[1..], HelloAfter(log[..n], before), after)
  {
  }

  /** More bytes and requests behind a first reply leave it the first reply. */
  lemma AnswersBehind(log: seq<Byte>, bytes: seq<Byte>, all: seq<Received>, requests: seq<Received>,
                      before: HelloPayload, after: HelloPayload)
    requires all != [] && requests == all[1..]
    requires |log| >= HEADER_SIZE && MessageLength(log) <= |log|
    requires IsReply(log[..MessageLength(log)], all[0])
    requires Answers(log[MessageLength(log)..] + bytes, requests, HelloAfter(log[..MessageLength(log)], before), after)
    ensures Answers(log + bytes, all, before, after)
  {
    FrontStays(log, bytes, HEADER_SIZE);
    FrontStays(log, bytes, MessageLength(log));
    AnswersStep(log + bytes, all, before, after);
  }

  lemma {:induction false} AnswersOneMore(
    log: seq<Byte>, requests: seq<Received>, before: HelloPayload, hello: HelloPayload,
    bytes: seq<Byte>, request: Received)
    requires Answers(log, requests, before, hello) && IsReply(bytes, request)
    ensures Answers(log + bytes, requests + [request], before, HelloAfter(bytes, hello))
    decreases |requests|
  {
    if requests == [] {
      OneAnswer(log + bytes, bytes, requests + [request], request, before);
    } else {
      AnswersStep(log, requests, before, hello);
      var n := MessageLength(log);
      AnswersOneMore(log[n..], requests[1..], HelloAfter(log[..n], before), hello, bytes, request);
      assert (requests + [request])[1..] == requests[1..] + [request];
      AnswersBehind(log, bytes, requests + [request], requests[1..] + [request], before, HelloAfter(bytes, hello));
    }
  }

  lemma OneAnswer(log: seq<Byte>, bytes: seq<Byte>, requests: seq<Received>, request: Received, before: HelloPayload)
    requires log == bytes && requests == [request] && IsReply(bytes, request)
    ensures Answers(log, requests, before, HelloAfter(bytes, before))
  {
    assert bytes[..|bytes|] == bytes && bytes[|bytes|..] == [];
  }

  lemma {:induction false} RequestsOneMore(
    requests: seq<Received>, request: Received, padding: nat -> Padding, first: nat)
    ensures RequestsFrom(requests + [request], padding, first)
         == RequestsFrom(requests, padding, first) + Encode(request, padding(first + |requests|))
    decreases |requests|
  {
    if requests == [] {
      assert [request][1..] == [];
    } else {
      assert (requests + [request])[1..] == requests[1..] + [request];
      RequestsOneMore(requests[1..], request, padding, first + 1);
      Concatenated(Encode(requests[0], padding(first)), RequestsFrom(requests[1..], padding, first + 1),
                   Encode(request, padding(first + |requests|)));
    }
  }

  /** The last call on a channel failed for good. */
  ghost predicate GaveUp(before: seq<Moved>, after: seq<Moved>) {
    before < after && after[|after| - 1] == Nothing
  }

  /** Why a request was left: `put` bytes of it went out and `bytes` came back. */
  ghost predicate Unanswered(request: Header, put: nat, bytes: seq<Byte>, writeFailed: bool, readFailed: bool) {
    || (put < HEADER_SIZE && bytes == [] && writeFailed)
    || (put == HEADER_SIZE && |bytes| < HEADER_SIZE && readFailed)
    || (put == HEADER_SIZE && |bytes| == HEADER_SIZE && !HeaderAnswers(Decode(bytes), request))
    || (put == HEADER_SIZE && HEADER_SIZE <= |bytes| && readFailed
        && var h := Decode(bytes[..HEADER_SIZE]);
        && HeaderAnswers(h, request) && |bytes| < HEADER_SIZE + h.payloadSize)
  }

  /** One turn of the loop: a whole request out, then a whole reply in. */
  method Ask(output: Channel, input: Channel, request: Received, padding: Padding, hello: HelloPayload)
    returns (ok: bool, after: HelloPayload, ghost put: nat, ghost bytes: seq<Byte>)
    requires output.Valid() && input.Valid() && output != input
    modifies output, input
    ensures output.Valid() && input.Valid()
    ensures put <= HEADER_SIZE && output.sent == old(output.sent) + Encode(request, padding)[..put]
    ensures input.received == old(input.received) + bytes
    ensures old(output.results) <= output.results && old(input.results) <= input.results
    ensures ok ==> put == HEADER_SIZE && IsReply(bytes, request) && after == HelloAfter(bytes, hello)
    ensures !ok ==> Unanswered(request, put, bytes, GaveUp(old(output.results), output.results),
                               GaveUp(old(input.results), input.results))
  {
    var done: nat;
    bytes := [];
    ok, done := WriteFullDeadline(output, Encode(request, padding));
    put, after := done, hello;
    if !ok {
      return;
    }
    var response := new Byte[HEADER_SIZE];
    ok, done := ReadFullDeadline(input, response, HEADER_SIZE);
    bytes := response[..done];
    assert ok ==> bytes == response[..] && bytes[..HEADER_SIZE] == bytes;
    if !ok {
      return;
    }
    var header := Decode(response[..]);
    if !header.Valid() || header.requestId != request.requestId {
      ok := false;
      return;
    }
    if header.payloadSize != 0 {
      if header.payloadSize != HELLO_SIZE {
        ok := false;
        return;
      }
      var payload := new Byte[HELLO_SIZE];
      ok, done := ReadFullDeadline(input, payload, HELLO_SIZE);
      bytes := bytes + payload[..done];
      assert bytes[..HEADER_SIZE] == response[..];
      if ok {
        assert payload[..done] == payload[..] && bytes[HEADER_SIZE..] == payload[..];
        after := DecodeHello(payload[..]);
      }
    }
  }

  /** What the two channels show from outside. */
  datatype View = View(sent: seq<Byte>, received: seq<Byte>, writeResults: seq<Moved>, readResults: seq<Moved>)

  ghost function ViewOf(output: Channel, input: Channel): View
    reads output, input
  {
    View(output.sent, input.received, output.results, input.results)
  }

  /** From view `a` to view `b`: these requests went out whole and `log` holds their replies. */
  ghost predicate Answered(
    a: View, b: View, requests: seq<Received>, padding: nat -> Padding, log: seq<Byte>, hello: HelloPayload)
  {
    && b.sent == a.sent + Requests(requests, padding)
    && b.received == a.received + log
    && Answers(log, requests, NO_HELLO, hello)
    && a.writeResults <= b.writeResults && a.readResults <= b.readResults
  }

  lemma OneMoreAnswer(
    a: View, b: View, c: View, requests: seq<Received>, padding: nat -> Padding, log: seq<Byte>, hello: HelloPayload,
    request: Received, bytes: seq<Byte>)
    requires Answered(a, b, requests, padding, log, hello) && IsReply(bytes, request)
    requires c.sent == b.sent + Encode(request, padding(|requests|)) && c.received == b.received + bytes
    requires b.writeResults <= c.writeResults && b.readResults <= c.readResults
    ensures Answered(a, c, requests + [request], padding, log + bytes, HelloAfter(bytes, hello))
  {
    AnswersOneMore(log, requests, NO_HELLO, hello, bytes, request);
    RequestsOneMore(requests, request, padding, 0);
    Concatenated(a.received, log, bytes);
    Concatenated(a.sent, Requests(requests, padding), Encode(request, padding(|requests|)));
  }

  /**
   The loop of `helper_roundtrip`. It succeeds exactly when every request has been sent whole and answered in order;
   otherwise `mid` is where it still was so far, and of the next request `put` bytes went out and `bytes` came back, and
   no more, for a definite reason.
   */
  method Converse(output: Channel, input: Channel, requests: seq<Received>, padding: nat -> Padding)
    returns (ok: bool, hello: HelloPayload,
             ghost answered: nat, ghost log: seq<Byte>, ghost mid: View, ghost put: nat, ghost bytes: seq<Byte>)
    requires output.Valid() && input.Valid() && output != input
    modifies output, input
    ensures output.Valid() && input.Valid()
    ensures answered <= |requests| && (ok <==> answered == |requests|)
    ensures Answered(old(ViewOf(output, input)), mid, requests[..answered], padding, log, hello)
    ensures ok ==> mid == ViewOf(output, input)
    ensures !ok ==> Stopped(mid, ViewOf(output, input), requests[answered], padding(answered), put, bytes)
  {
    ok, hello := true, NO_HELLO;
    log, put, bytes := [], 0, [];
    ghost var start := ViewOf(output, input);
    mid := start;
    for i := 0 to |requests|
      invariant output.Valid() && input.Valid() && mid == ViewOf(output, input)
      invariant Answered(start, mid, requests[..i], padding, log, hello)
    {
      var after: HelloPayload;
      ok, after, put, bytes := Ask(output, input, requests[i], padding(i), hello);
      if !ok {
        answered := i;
        return;
      }
      ghost var now := ViewOf(output, input);
      assert Encode(requests[i], padding(i))[..put] == Encode(requests[i], padding(i));
      OneMoreAnswer(start, mid, now, requests[..i], padding, log, hello, requests[i], bytes);
      assert requests[..i + 1] == requests[..i] + [requests[i]];
      log, hello, mid := log + bytes, after, now;
    }
    assert requests[..|requests|] == requests;
    answered := |requests|;
  }

  /** The exchange of one request broke off between these two views. */
  ghost predicate Stopped(mid: View, end: View, request: Received, padding: Padding, put: nat, bytes: seq<Byte>) {
    && put <= HEADER_SIZE
    && end.sent == mid.sent + Encode(request, padding)[..put]
    && end.received == mid.received + bytes
    && Unanswered(request, put, bytes, GaveUp(mid.writeResults, end.writeResults),
                  GaveUp(mid.readResults, end.readResults))
  }
}
