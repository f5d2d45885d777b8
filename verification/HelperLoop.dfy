/** The helper's endless request loop (probes/helper/main.c:41-60), over channels with arbitrary short transfers. */
module HelperLoop {
  import opened Bytes
  import opened IpcHeader
  import opened Options
  import opened Protocol
  import opened Transfer

  class SharedPage {
    var helperMagic: int
    var helperPid: int
    var heartbeat: int
  }

  /** The heartbeat is a `uint64_t`; a helper without a shared page has none. */
  function Beat(h: Option<int>): Option<int> {
    if h.None? then None else Some((h.value + 1) % 0x1_0000_0000_0000_0000)
  }

  function HeartbeatOf(shared: SharedPage?): Option<int>
    reads shared
  {
    if shared == null then None else Some(shared.heartbeat)
  }

  function Beats(h: Option<int>, n: nat): Option<int> {
    if n == 0 then h else Beat(Beats(h, n - 1))
  }

  lemma {:induction false} BeatsCount(h: int, n: nat)
    requires 0 <= h && h + n < TWO_TO_THE_64
    ensures Beats(Some(h), n) == Some(h + n)
    ensures Beats(None, n) == None
  {
    if n > 0 {
      BeatsCount(h, n - 1);
    }
  }

  /** The bytes that answer one request. */
  function Reply(h: Received, padding: Padding, hello: HelloPayload): seq<Byte>
    requires hello.Fits()
  {
    Encode(ReplyHeader(h), padding) + (if h.kind == HELLO then EncodeHello(hello) else [])
  }

  /** The bytes that answer a list of requests, in order. */
  function Replies(requests: seq<Received>, padding: nat -> Padding, hello: HelloPayload): seq<Byte>
    requires hello.Fits()
  {
    RepliesFrom(requests, padding, hello, 0)
  }

  /** The same for requests that are numbered from `first` on. */
  function RepliesFrom(requests: seq<Received>, padding: nat -> Padding, hello: HelloPayload, first: nat): seq<Byte>
    requires hello.Fits()
  {
    if requests == [] then []
    else Reply(requests[0], padding(first), hello) + RepliesFrom(requests[1..], padding, hello, first + 1)
  }

  /**
   What an answer says: HELLO and SHUTDOWN are answered in kind, everything else by PONG, under the id of the request;
   only HELLO gets a payload.
   */
  ghost predicate Says(reply: seq<Byte>, request: Header, hello: HelloPayload) {
    && |reply| == (if request.kind == 1 then 48 else 24)
    && var h := Decode(reply[..24]);
    && h.magic == 0x47524654 && h.version == 1
    && h.kind == (if request.kind == 1 then 1 else if request.kind == 4 then 4 else 3)
    && h.payloadSize == |reply| - 24
    && h.requestId == request.requestId
    && (request.kind == 1 ==> DecodeHello(reply[24..]) == hello)
  }

  lemma ReplySays(h: Received, padding: Padding, hello: HelloPayload)
    requires hello.Fits()
    ensures Says(Reply(h, padding, hello), h, hello)
  {
    DecodeEncode(ReplyHeader(h), padding);
    DecodeEncodeHello(hello);
    var reply, header := Reply(h, padding, hello), Encode(ReplyHeader(h), padding);
    assert reply[..24] == header;
    if h.kind == HELLO {
      assert reply[24..] == EncodeHello(hello);
    }
  }

  /** A valid header followed by the payload it announces. */
  predicate IsRequest(bytes: seq<Byte>, h: Received) {
    && |bytes| >= HEADER_SIZE
    && Decode(bytes[..HEADER_SIZE]) == h
    && h.Valid()
    && |bytes| == HEADER_SIZE + h.payloadSize
  }

  /** `log` is exactly these requests, one after the other. */
  ghost predicate Carries(log: seq<Byte>, requests: seq<Received>)
    decreases |requests|
  {
    if requests == [] then log == []
    else
      && |log| >= HEADER_SIZE && MessageLength(log) <= |log|
      && IsRequest(log[..MessageLength(log)], requests[0])
      && Carries(log[MessageLength(log)..], requests[1..])
  }

  lemma {:induction false} CarriesOneMore(log: seq<Byte>, requests: seq<Received>, bytes: seq<Byte>, h: Received)
    requires Carries(log, requests) && IsRequest(bytes, h)
    ensures Carries(log + bytes, requests + [h])
    decreases |requests|
  {
    var all := log + bytes;
    if requests == [] {
      assert all == bytes && bytes[..|bytes|] == bytes && bytes[|bytes|..] == [];
    } else {
      var n := MessageLength(log);
      FrontStays(log, bytes, HEADER_SIZE);
      FrontStays(log, bytes, n);
      CarriesOneMore(log[n..], requests[1..], bytes, h);
      assert (requests + [h])[1..] == requests[1..] + [h];
    }
  }

  /** Bytes carry one list of requests at most. */
  lemma {:induction false} CarriesOneList(log: seq<Byte>, a: seq<Received>, b: seq<Received>)
    requires Carries(log, a) && Carries(log, b)
    ensures a == b
    decreases |a|
  {
    if a != [] && b != [] {
      CarriesOneList(log[MessageLength(log)..], a[1..], b[1..]);
      assert a == [a[0]] + a[1..] && b == [b[0]] + b[1..];
    }
  }

  /** A call on this channel moved nothing, and it was the last one. */
  ghost predicate Broke(before: seq<Moved>, after: seq<Moved>) {
    before < after && !after[|after| - 1].Transferred?
  }

  /** Why a request was not taken: `got` is no valid header, or an incomplete message whose last read failed. */
  ghost predicate NoRequest(code: int, got: seq<Byte>, broke: bool) {
    if code == 65 then
      |got| <= HEADER_SIZE && (if |got| == HEADER_SIZE then !Decode(got).Valid() else broke)
    else
      && HEADER_SIZE <= |got| && broke
      && var h := Decode(got[..HEADER_SIZE]);
      && h.Valid() && |got| < HEADER_SIZE + h.payloadSize
  }

  /** Reads one request; the payload never outgrows its 64 KiB buffer because the header was validated first. */
  method ReceiveRequest(input: Channel) returns (code: int, header: Received, ghost bytes: seq<Byte>)
    requires input.Valid()
    modifies input
    ensures input.Valid() && old(input.results) <= input.results
    ensures input.received == old(input.received) + bytes
    ensures code in {0, 65, 66}
    ensures code == 0 ==> IsRequest(bytes, header)
    ensures code != 0 ==> NoRequest(code, bytes, Broke(old(input.results), input.results))
    ensures code == 0 ==> |input.plan| < |old(input.plan)|
  {
    var headerBuffer := new Byte[HEADER_SIZE];
    var ok, done := ReadFull(input, headerBuffer, HEADER_SIZE);
    header := Decode(headerBuffer[..]);
    bytes := headerBuffer[..done];
    assert ok ==> bytes == headerBuffer[..] && bytes[..HEADER_SIZE] == bytes;
    if !ok || !header.Valid() {
      return 65, header, bytes;
    }
    if header.payloadSize > 0 {
      var payloadBuffer := new Byte[MAX_PAYLOAD];
      ok, done := ReadFull(input, payloadBuffer, header.payloadSize);
      bytes := bytes + payloadBuffer[..done];
      assert bytes[..HEADER_SIZE] == headerBuffer[..];
      if !ok {
        return 66, header, bytes;
      }
    }
    return 0, header, bytes;
  }

  /** Code 67 is an answer cut inside its header, 68 one cut inside its payload. */
  predicate CutIn(code: int, before: nat, after: nat) {
    code == 67 <==> after < before + HEADER_SIZE
  }

  /** Marks the shared page, if there is one, and answers; the heartbeat moves before the answer's first byte. */
  method Answer(output: Channel, shared: SharedPage?, header: Received, padding: Padding, hello: HelloPayload)
    returns (code: int)
    requires output.Valid() && hello.Fits()
    modifies output, shared
    ensures output.Valid() && code in {0, 67, 68}
    ensures shared != null ==> shared.helperMagic == HELPER_MAGIC && shared.helperPid == hello.pid
    ensures HeartbeatOf(shared) == Beat(old(HeartbeatOf(shared)))
    ensures old(output.sent) <= output.sent
    ensures code == 0 ==> output.sent == old(output.sent) + Reply(header, padding, hello)
    ensures code == 0 ==> Says(output.sent[|old(output.sent)|..], header, hello)
    ensures code != 0 ==>
              && output.sent < old(output.sent) + Reply(header, padding, hello)
              && CutIn(code, |old(output.sent)|, |output.sent|)
              && Broke(old(output.results), output.results)
    ensures old(output.results) <= output.results
  {
    ReplySays(header, padding, hello);
    if shared != null {
      shared.helperMagic := HELPER_MAGIC;
      shared.helperPid := hello.pid;
      shared.heartbeat := (shared.heartbeat + 1) % 0x1_0000_0000_0000_0000;
    }
    var response := Encode(ReplyHeader(header), padding);
    var payload := if header.kind == HELLO then EncodeHello(hello) else [];
    ghost var before := output.sent;
    assert Reply(header, padding, hello) == response + payload;
    var ok, done := WriteFull(output, response);
    CutShort(before, response, payload, done);
    if !ok {
      return 67;
    }
    if header.kind == HELLO {
      ok, done := WriteFull(output, payload);
      CutShort(before + response, payload, [], done);
      if !ok {
        return 68;
      }
    }
    return 0;
  }

  /** A stream that got only part of a message is a proper prefix of the stream with the message. */
  lemma CutShort(before: seq<Byte>, message: seq<Byte>, rest: seq<Byte>, done: nat)
    requires done <= |message|
    ensures done < |message| ==> before + message[..done] < before + (message + rest)
    ensures done == |message| ==> before + message[..done] + rest == before + (message + rest)
    ensures message + [] == message
    ensures before + message == before + (message + [])
  {
    var full := before + (message + rest);
    assert full[..|before| + done] == before + message[..done];
  }

  /** All requests but the last are ordinary. */
  ghost predicate StopsAtShutdown(requests: seq<Received>) {
    forall i :: 0 <= i < |requests| - 1 ==> requests[i].kind != SHUTDOWN
  }

  ghost predicate EndsWithShutdown(requests: seq<Received>) {
    requests != [] && requests[|requests| - 1].kind == SHUTDOWN
  }

  /** What the helper has written: every answer, or with codes 67 and 68 a proper part of the last one. */
  ghost predicate Written(
    code: int, before: seq<Byte>, after: seq<Byte>, requests: seq<Received>,
    padding: nat -> Padding, hello: HelloPayload)
    requires hello.Fits()
  {
    if code in {67, 68} then
      && requests != []
      && before + Replies(requests[..|requests| - 1], padding, hello) <= after
      && after < before + Replies(requests, padding, hello)
      && CutIn(code, |before + Replies(requests[..|requests| - 1], padding, hello)|, |after|)
    else
      after == before + Replies(requests, padding, hello)
  }

  lemma WrittenOneMore(
    code: int, before: seq<Byte>, middle: seq<Byte>, after: seq<Byte>,
    requests: seq<Received>, h: Received, padding: nat -> Padding, hello: HelloPayload)
    requires hello.Fits() && Written(0, before, middle, requests, padding, hello)
    requires middle <= after && code in {0, 67, 68}
    requires code == 0 ==> after == middle + Reply(h, padding(|requests|), hello)
    requires code != 0 ==> after < middle + Reply(h, padding(|requests|), hello) && CutIn(code, |middle|, |after|)
    ensures Written(code, before, after, requests + [h], padding, hello)
  {
    assert |requests + [h]| - 1 == |requests| && (requests + [h])[..|requests|] == requests;
    RepliesOneMore(requests, h, padding, hello, 0);
    Concatenated(before, Replies(requests, padding, hello), Reply(h, padding(|requests|), hello));
  }

  lemma {:induction false} RepliesOneMore(
    requests: seq<Received>, h: Received, padding: nat -> Padding, hello: HelloPayload, first: nat)
    requires hello.Fits()
    ensures RepliesFrom(requests + [h], padding, hello, first)
         == RepliesFrom(requests, padding, hello, first) + Reply(h, padding(first + |requests|), hello)
    decreases |requests|
  {
    if requests == [] {
      assert [h][1..] == [];
    } else {
      assert (requests + [h])[1..] == requests[1..] + [h];
      RepliesOneMore(requests[1..], h, padding, hello, first + 1);
      Concatenated(Reply(requests[0], padding(first), hello), RepliesFrom(requests[1..], padding, hello, first + 1),
                   Reply(h, padding(first + |requests|), hello));
    }
  }

  /** What the two channels and the heartbeat show from outside. */
  datatype View = View(received: seq<Byte>, sent: seq<Byte>, heartbeat: Option<int>,
    readResults: seq<Moved>, writeResults: seq<Moved>)

  ghost function ViewOf(input: Channel, output: Channel, shared: SharedPage?): View
    reads input, output, shared
  {
    View(input.received, output.sent, HeartbeatOf(shared), input.results, output.results)
  }

  /**
   What the exit code says about a run from view `a` to view `b`. The helper has read whole requests, answered each of
   them in order and moved the heartbeat once for each; code 0 means that the last one was SHUTDOWN, codes 65 and 66
   that no SHUTDOWN came and what follows is no request, codes 67 and 68 that a failed write cut the last answer short.
   */
  ghost predicate Outcome(
    code: int, a: View, b: View, requests: seq<Received>, log: seq<Byte>, padding: nat -> Padding, hello: HelloPayload)
    requires hello.Fits()
  {
    && code in {0, 65, 66, 67, 68}
    && Carries(log, requests)
    && (if code in {65, 66} then
          && a.received + log <= b.received
          && NoRequest(code, b.received[|a.received + log|..], Broke(a.readResults, b.readResults))
        else
          b.received == a.received + log)
    && (code in {67, 68} ==> Broke(a.writeResults, b.writeResults))
    && Written(code, a.sent, b.sent, requests, padding, hello)
    && b.heartbeat == Beats(a.heartbeat, |requests|)
    && StopsAtShutdown(requests)
    && (code in {0, 65, 66} ==> (code == 0 <==> EndsWithShutdown(requests)))
  }

  /** Between two rounds: like an outcome, with everything read and answered and no SHUTDOWN yet. */
  ghost predicate Between(
    a: View, b: View, requests: seq<Received>, log: seq<Byte>, padding: nat -> Padding, hello: HelloPayload)
    requires hello.Fits()
  {
    && Carries(log, requests)
    && b.received == a.received + log
    && a.readResults <= b.readResults && a.writeResults <= b.writeResults
    && Written(0, a.sent, b.sent, requests, padding, hello)
    && b.heartbeat == Beats(a.heartbeat, |requests|)
    && StopsAtShutdown(requests) && !EndsWithShutdown(requests)
  }

  lemma StopsOneMore(requests: seq<Received>, h: Received)
    requires StopsAtShutdown(requests) && !EndsWithShutdown(requests)
    ensures StopsAtShutdown(requests + [h]) && (EndsWithShutdown(requests + [h]) <==> h.kind == SHUTDOWN)
  {
  }

  lemma OneRound(
    code: int, a: View, b: View, c: View, requests: seq<Received>, log: seq<Byte>,
    h: Received, bytes: seq<Byte>, padding: nat -> Padding, hello: HelloPayload)
    requires hello.Fits() && Between(a, b, requests, log, padding, hello)
    requires IsRequest(bytes, h) && code in {0, 67, 68}
    requires c.received == b.received + bytes
    requires b.sent <= c.sent
    requires code == 0 ==> c.sent == b.sent + Reply(h, padding(|requests|), hello)
    requires code != 0 ==>
               && c.sent < b.sent + Reply(h, padding(|requests|), hello)
               && CutIn(code, |b.sent|, |c.sent|) && Broke(b.writeResults, c.writeResults)
    requires b.readResults <= c.readResults && b.writeResults <= c.writeResults
    requires c.heartbeat == Beat(b.heartbeat)
    ensures code == 0 && h.kind != SHUTDOWN ==> Between(a, c, requests + [h], log + bytes, padding, hello)
    ensures code != 0 || h.kind == SHUTDOWN ==> Outcome(code, a, c, requests + [h], log + bytes, padding, hello)
  {
    CarriesOneMore(log, requests, bytes, h);
    WrittenOneMore(code, a.sent, b.sent, c.sent, requests, h, padding, hello);
    Concatenated(a.received, log, bytes);
    StopsOneMore(requests, h);
  }

  /** Nothing more comes in as a request: the run ends with what it has. */
  lemma LastRound(
    code: int, a: View, b: View, c: View, requests: seq<Received>, log: seq<Byte>,
    got: seq<Byte>, padding: nat -> Padding, hello: HelloPayload)
    requires hello.Fits() && Between(a, b, requests, log, padding, hello)
    requires code in {65, 66} && NoRequest(code, got, Broke(b.readResults, c.readResults))
    requires c.received == b.received + got && c.sent == b.sent && c.heartbeat == b.heartbeat
    ensures Outcome(code, a, c, requests, log, padding, hello)
  {
    assert c.received[|a.received + log|..] == got;
  }

  method Round(input: Channel, output: Channel, shared: SharedPage?, hello: HelloPayload, padding: Padding)
    returns (code: int, header: Received, ghost bytes: seq<Byte>)
    requires input.Valid() && output.Valid() && input != output && hello.Fits()
    modifies input, output, shared
    ensures input.Valid() && output.Valid() && code in {0, 65, 66, 67, 68}
    ensures input.received == old(input.received) + bytes
    ensures old(input.results) <= input.results && old(output.results) <= output.results
    ensures code in {65, 66} ==>
              && NoRequest(code, bytes, Broke(old(input.results), input.results))
              && output.sent == old(output.sent) && HeartbeatOf(shared) == old(HeartbeatOf(shared))
    ensures code in {0, 67, 68} ==>
              && IsRequest(bytes, header)
              && old(output.sent) <= output.sent && HeartbeatOf(shared) == Beat(old(HeartbeatOf(shared)))
              && |input.plan| < |old(input.plan)|
    ensures code == 0 ==> output.sent == old(output.sent) + Reply(header, padding, hello)
    ensures code in {67, 68} ==>
              && output.sent < old(output.sent) + Reply(header, padding, hello)
              && CutIn(code, |old(output.sent)|, |output.sent|) && Broke(old(output.results), output.results)
  {
    code, header, bytes := ReceiveRequest(input);
    if code == 0 {
      code := Answer(output, shared, header, padding, hello);
    }
  }

  method Serve(
    input: Channel, output: Channel, shared: SharedPage?, hello: HelloPayload, padding: nat -> Padding)
    returns (code: int, ghost requests: seq<Received>, ghost log: seq<Byte>)
    requires input.Valid() && output.Valid() && input != output && hello.Fits()
    modifies input, output, shared
    ensures input.Valid() && output.Valid()
    ensures Outcome(code, old(ViewOf(input, output, shared)), ViewOf(input, output, shared),
                    requests, log, padding, hello)
  {
    requests, log := [], [];
    var served: nat := 0;
    ghost var start := ViewOf(input, output, shared);
    while true
      invariant input.Valid() && output.Valid() && served == |requests|
      invariant Between(start, ViewOf(input, output, shared), requests, log, padding, hello)
      decreases |input.plan|
    {
      ghost var before := ViewOf(input, output, shared);
      var header: Received;
      ghost var bytes: seq<Byte>;
      code, header, bytes := Round(input, output, shared, hello, padding(served));
      if code in {65, 66} {
        LastRound(code, start, before, ViewOf(input, output, shared), requests, log, bytes, padding, hello);
        return;
      }
      OneRound(code, start, before, ViewOf(input, output, shared), requests, log, header, bytes, padding, hello);
      requests, log := requests + [header], log + bytes;
      served := served + 1;
      if code != 0 || header.kind == SHUTDOWN {
        return;
      }
    }
  }
}
