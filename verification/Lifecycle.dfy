/**
 The code cache that must survive suspend and resume
 (platform/darwin/graft_probe.c:105-140, 671-705). Lifecycle calls come from one actor.
 */
module Lifecycle {
  import opened Bytes
  import opened Jit

  /** `mov w0,#42; ret`. */
  const CODE: seq<Byte> := [0x40, 0x05, 0x80, 0x52, 0xc0, 0x03, 0x5f, 0xd6]

  /** The two instruction words, in the A64 encodings of MOVZ and RET. */
  lemma CodeReturns42()
    ensures |CODE| == 8
    ensures U32(CODE, 0) == 0x5280_0000 + 42 * 32 && U32(CODE, 4) == 0xD65F_03C0
  {
    ReadsInBytes(CODE, 0);
    ReadsInBytes(CODE, 4);
  }

  datatype ProbeResult = Skip | Blocked | Fail(error: int) | NotPrepared | Pass

  class CodeCache {
    const kernel: Kernel
    const region: Region
    var backgroundSeen: bool
    var foregroundSeen: bool
    var ready: bool
    var prepareError: Answer
    /** The mapping committed by the first successful preparation. */
    ghost var committed: Mapping?

    constructor (kernel: Kernel)
      requires kernel.Valid() && kernel.mapped == {}
      ensures Valid() && this.kernel == kernel && fresh(region)
      ensures !backgroundSeen && !foregroundSeen && !ready
    {
      this.kernel := kernel;
      region := new Region();
      backgroundSeen, foregroundSeen, ready, prepareError := false, false, false, 0;
      committed := null;
    }

    ghost predicate CacheHoldsCode()
      reads region, if region.base == null then {} else {region.base, region.base.memory}
    {
      && region.base != null
      && region.base.live && region.base.executable
      && (region.base.governed ==> !region.base.writable)
      && |CODE| <= region.base.memory.Length && region.base.memory[..|CODE|] == CODE
    }

    ghost predicate Valid()
      reads this, kernel, kernel.mapped, region, if region.base == null then {} else {region.base.memory}
    {
      && kernel.Valid() && region.Valid(kernel)
      && (foregroundSeen ==> backgroundSeen)
      && (backgroundSeen ==> ready || prepareError != 0)
      && (ready ==> prepareError == 0 && CacheHoldsCode() && region.base == committed)
      && (!ready ==> region.base == null && committed == null)
      && (forall m :: m in kernel.mapped && m != region.base ==> m.unmapCalls == 1)
    }

    /** Prepares the cache unless it is ready; on any failure nothing is kept and the error is remembered. */
    method Prepare() returns (answer: Answer)
      requires Valid() && !ready
      modifies this`ready, this`committed, kernel, region
      ensures kernel.Valid() && region.Valid(kernel)
      ensures answer == FreshCodeAnswer(kernel.platform, kernel.page, old(kernel.plan))
      ensures answer == 0 <==> ready
      ensures ready ==> CacheHoldsCode() && region.base == committed
      ensures ready ==> fresh(committed) && fresh(committed.memory)
      ensures !ready ==> region.base == null && committed == null
      ensures forall m :: m in kernel.mapped && m != region.base ==> m.unmapCalls == 1
      ensures fresh(kernel.mapped - old(kernel.mapped))
    {
      var code := new Byte[8](i requires 0 <= i < 8 => CODE[i]);
      assert code[..] == CODE;
      answer := Alloc(kernel, 4096, region);
      if answer != 0 {
        return;
      }
      answer := Publish(kernel, region, code);
      if answer != 0 {
        Free(kernel, region);
        return;
      }
      ready := true;
      committed := region.base;
    }

    /** `graft_lifecycle_note_background`. */
    method NoteBackground() returns (answer: Answer)
      requires Valid()
      modifies this, kernel, region
      ensures Valid() && backgroundSeen && foregroundSeen == old(foregroundSeen)
      ensures answer == 0 <==> ready
      ensures prepareError == answer
      ensures !old(ready) ==> answer == FreshCodeAnswer(kernel.platform, kernel.page, old(kernel.plan))
      ensures old(ready) ==> ready && committed == old(committed) && unchanged(region) && unchanged(kernel)
      ensures fresh(kernel.mapped - old(kernel.mapped))
      ensures committed != old(committed) ==> fresh(committed) && fresh(committed.memory)
    {
      answer := 0;
      if !ready {
        answer := Prepare();
      }
      prepareError := answer;
      backgroundSeen := true;
    }

    /** `graft_lifecycle_note_foreground`. */
    method NoteForeground() returns (answer: Answer)
      requires Valid()
      modifies this`foregroundSeen
      ensures Valid()
      ensures answer == 0 <==> backgroundSeen
      ensures foregroundSeen == (old(foregroundSeen) || backgroundSeen)
    {
      if !backgroundSeen {
        return EINVAL;
      }
      foregroundSeen := true;
      return 0;
    }

    /** Calls the code at the start of a mapping; only the two expected instructions have a known result. */
    method Execute(m: Mapping, otherwise: int) returns (value: int)
      requires m.live && m.executable
      ensures |CODE| <= m.memory.Length && m.memory[..|CODE|] == CODE ==> value == 42
    {
      value := if |CODE| <= m.memory.Length && m.memory[..|CODE|] == CODE then 42 else otherwise;
    }

    /**
     `lifecycle_jit`. The branch for a cache that was not prepared is never taken, a pass has run the mapping that was
     committed by the first successful preparation, and on arm64 nothing else can go wrong once it is there.
     */
    method Probe(arm64: bool, otherwise: int) returns (r: ProbeResult, ghost executed: Mapping?)
      requires Valid()
      ensures r != NotPrepared
      ensures r == Skip <==> !foregroundSeen
      ensures r == Pass ==> executed != null && executed == committed && CacheHoldsCode() && executed == region.base
      ensures arm64 ==> (r == Pass <==> foregroundSeen && ready)
      ensures !arm64 && foregroundSeen && ready ==> r == Fail(EIO)
      ensures foregroundSeen && !ready ==>
                r == if prepareError in {EACCES, EPERM} then Blocked else Fail(prepareError)
    {
      executed := null;
      if !backgroundSeen || !foregroundSeen {
        return Skip, executed;
      }
      if prepareError != 0 {
        return if prepareError in {EACCES, EPERM} then Blocked else Fail(prepareError), executed;
      }
      if !ready {
        return NotPrepared, executed;
      }
      var value := -1;
      if arm64 {
        value := Execute(region.base, otherwise);
        executed := region.base;
      }
      return if value == 42 then Pass else Fail(EIO), executed;
    }
  }

  datatype Call = Background | Foreground | RunProbe(otherwise: int)

  function ProbesIn(calls: seq<Call>): nat {
    if calls == [] then 0
    else ProbesIn(calls[..|calls| - 1]) + if calls[|calls| - 1].RunProbe? then 1 else 0
  }

  /** A return to the foreground counts once the app has been in the background. */
  predicate Returned(calls: seq<Call>) {
    calls != []
    && var before := calls[..|calls| - 1];
    Returned(before) || (calls[|calls| - 1] == Foreground && Background in before)
  }

  lemma {:induction false} ReturnedMeans(calls: seq<Call>)
    ensures Returned(calls) <==> exists i, j :: 0 <= i < j < |calls| && calls[i] == Background && calls[j] == Foreground
  {
    if calls != [] {
      var last := |calls| - 1;
      var before := calls[..last];
      ReturnedMeans(before);
      if calls[last] == Foreground && Background in before {
        var i :| 0 <= i < last && before[i] == Background;
        assert calls[i] == Background;
      }
      if i, j :| 0 <= i < j < |before| && before[i] == Background && before[j] == Foreground {
        assert calls[i] == Background && calls[j] == Foreground;
      }
      if i, j :| 0 <= i < j < |calls| && calls[i] == Background && calls[j] == Foreground {
        assert before[i] == Background;
        assert j < last ==> before[j] == Foreground;
      }
    }
  }

  /**
   Any run of background, foreground and probe calls, with any system calls failing: the invariant holds at the end,
   no probe found an unprepared cache, and every pass ran the one mapping the cache ends with.
   */
  method Drive(kernel: Kernel, calls: seq<Call>, arm64: bool)
    returns (cache: CodeCache, results: seq<ProbeResult>, ghost passed: seq<Mapping>)
    requires kernel.Valid() && kernel.mapped == {}
    modifies kernel
    ensures cache.kernel == kernel && cache.Valid()
    ensures NotPrepared !in results
    ensures forall m :: m in passed ==> cache.ready && m == cache.region.base == cache.committed
    ensures |results| == ProbesIn(calls) && multiset(results)[Pass] == |passed|
    ensures cache.backgroundSeen <==> Background in calls
    ensures cache.foregroundSeen <==> Returned(calls)
  {
    cache := new CodeCache(kernel);
    results, passed := [], [];
    for i := 0 to |calls|
      invariant cache.kernel == kernel && cache.Valid() && fresh(cache) && fresh(cache.region)
      invariant fresh(kernel.mapped)
      invariant NotPrepared !in results
      invariant forall m :: m in passed ==> cache.ready && m == cache.committed
      invariant |results| == ProbesIn(calls[..i]) && multiset(results)[Pass] == |passed|
      invariant cache.backgroundSeen <==> Background in calls[..i]
      invariant cache.foregroundSeen <==> Returned(calls[..i])
    {
      OneMoreCall(calls[..i], calls[i]);
      assert calls[..i + 1] == calls[..i] + [calls[i]];
      var more;
      ghost var executed;
      more, executed := Step(cache, calls[i], arm64);
      OneMoreResult(results, more, passed, executed);
      results, passed := results + more, passed + executed;
    }
    assert calls[..|calls|] == calls;
  }

  lemma OneMoreResult(results: seq<ProbeResult>, more: seq<ProbeResult>, passed: seq<Mapping>, executed: seq<Mapping>)
    requires multiset(results)[Pass] == |passed| && multiset(more)[Pass] == |executed|
    ensures multiset(results + more)[Pass] == |passed + executed|
  {
  }

  /** One call: the results and the executed mapping of a probe, if it is one. */
  method Step(cache: CodeCache, call: Call, arm64: bool) returns (more: seq<ProbeResult>, ghost executed: seq<Mapping>)
    requires cache.Valid()
    modifies cache, cache.kernel, cache.region
    ensures cache.Valid() && fresh(cache.kernel.mapped - old(cache.kernel.mapped))
    ensures cache.committed != old(cache.committed) ==> fresh(cache.committed) && fresh(cache.committed.memory)
    ensures old(cache.ready) ==> cache.ready && cache.committed == old(cache.committed)
    ensures cache.backgroundSeen == (old(cache.backgroundSeen) || call == Background)
    ensures cache.foregroundSeen == (old(cache.foregroundSeen) || (call == Foreground && old(cache.backgroundSeen)))
    ensures |more| == if call.RunProbe? then 1 else 0
    ensures NotPrepared !in more && multiset(more)[Pass] == |executed|
    ensures forall m :: m in executed ==> cache.ready && m == cache.committed
  {
    more, executed := [], [];
    match call
    case Background => var answer := cache.NoteBackground();
    case Foreground => var answer := cache.NoteForeground();
    case RunProbe(otherwise) =>
      var r;
      ghost var mapping;
      r, mapping := cache.Probe(arm64, otherwise);
      more := [r];
      if r == Pass {
        executed := [mapping];
      }
  }

  lemma OneMoreCall(calls: seq<Call>, c: Call)
    ensures ProbesIn(calls + [c]) == ProbesIn(calls) + if c.RunProbe? then 1 else 0
    ensures Background in calls + [c] <==> Background in calls || c == Background
    ensures Returned(calls + [c]) <==> Returned(calls) || (c == Foreground && Background in calls)
  {
    assert (calls + [c])[..|calls|] == calls;
  }
}
