/**
 JIT regions (platform/darwin/graft_jit.c).
 The kernel's answers are a plan fixed in advance, so every pattern of failing system calls is some value of `plan`.
 */
module Jit {
  import opened Bits
  import opened Bytes

  datatype Platform = Linux | MacOs | Ios

  const EIO := 5
  const EPERM := 1
  const EACCES := 13
  const EINVAL := 22
  const ENOSYS := 78
  const ENOTSUP := 45

  const MAP_JIT_BACKEND := 1
  const ANONYMOUS_BACKEND := 2

  /** A system call's answer: 0, or an error number. */
  type Answer = int

  /** What the next system call answers, and what is left of the plan after it. */
  function NextAnswer(plan: seq<Answer>): Answer {
    if plan == [] then 0 else plan[0]
  }

  function AfterCall(plan: seq<Answer>): seq<Answer> {
    if plan == [] then [] else plan[1..]
  }

  newtype SizeT = x: int | 0 <= x < 0x1_0000_0000_0000_0000

  /** One address range handed out by `mmap`. */
  class Mapping {
    const memory: array<Byte>
    /** Whether `mprotect` decides its protection; an iOS MAP_JIT range is switched per thread by the hardware. */
    const governed: bool
    var writable: bool
    var executable: bool
    var live: bool
    var unmapCalls: nat

    constructor (size: nat, writable: bool, executable: bool, governed: bool)
      ensures fresh(memory) && memory[..] == Zeros(size)
      ensures this.governed == governed && this.writable == writable && this.executable == executable
      ensures live && unmapCalls == 0
    {
      this.memory := new Byte[size](_ => 0);
      this.governed := governed;
      this.writable, this.executable := writable, executable;
      this.live, this.unmapCalls := true, 0;
    }

    ghost predicate WriteXorExecute()
      reads this
    {
      governed ==> !(writable && executable)
    }
  }

  function Zeros(size: nat): (s: seq<Byte>)
    ensures |s| == size
  {
    seq(size, _ => 0)
  }

  class Kernel {
    const platform: Platform
    const page: int
    var plan: seq<Answer>
    /** Every range ever handed out. */
    ghost var mapped: set<Mapping>

    constructor (platform: Platform, page: int, plan: seq<Answer>)
      requires IsPowerOfTwo(page) && page <= TWO_TO_THE_64
      ensures Valid() && mapped == {}
      ensures this.platform == platform && this.page == page
    {
      this.platform, this.page, this.plan := platform, page, plan;
      mapped := {};
    }

    ghost predicate Valid()
      reads this, mapped
    {
      && IsPowerOfTwo(page) && page <= TWO_TO_THE_64
      && forall m :: m in mapped ==> m.WriteXorExecute() && m.unmapCalls <= 1
    }

    method Call() returns (answer: Answer)
      modifies this`plan
      ensures answer == NextAnswer(old(plan)) && plan == AfterCall(old(plan))
    {
      if plan == [] {
        return 0;
      }
      answer := plan[0];
      plan := plan[1..];
    }

    /** `mmap` of fresh anonymous memory; a request for no bytes is an error. */
    method Mmap(size: SizeT, writable: bool, executable: bool, governed: bool) returns (answer: Answer, m: Mapping?)
      requires Valid() && (governed ==> !(writable && executable))
      modifies this
      ensures Valid() && (answer == 0 <==> m != null)
      ensures answer == 0 ==>
                && fresh(m) && fresh(m.memory) && mapped == old(mapped) + {m}
                && 0 < size && m.memory[..] == Zeros(size as nat)
                && m.governed == governed && m.writable == writable && m.executable == executable
                && m.live && m.unmapCalls == 0
      ensures answer != 0 ==> mapped == old(mapped)
      ensures if size == 0 then answer == EINVAL && plan == old(plan)
              else answer == NextAnswer(old(plan)) && plan == AfterCall(old(plan))
    {
      if size == 0 {
        return EINVAL, null;
      }
      answer := Call();
      if answer != 0 {
        return answer, null;
      }
      m := new Mapping(size as nat, writable, executable, governed);
      mapped := mapped + {m};
    }

    method Mprotect(m: Mapping, writable: bool, executable: bool) returns (answer: Answer)
      requires Valid() && m in mapped && !(writable && executable)
      modifies this`plan, m`writable, m`executable
      ensures Valid()
      ensures answer == 0 ==> m.writable == writable && m.executable == executable
      ensures answer != 0 ==> m.writable == old(m.writable) && m.executable == old(m.executable)
      ensures answer == NextAnswer(old(plan)) && plan == AfterCall(old(plan))
    {
      answer := Call();
      if answer == 0 {
        m.writable, m.executable := writable, executable;
      }
    }

    method Munmap(m: Mapping)
      requires Valid() && m in mapped && m.unmapCalls == 0
      modifies this`plan, m`live, m`unmapCalls
      ensures Valid() && m.unmapCalls == 1
      ensures m.live == (old(m.live) && NextAnswer(old(plan)) != 0) && plan == AfterCall(old(plan))
    {
      var answer := Call();
      m.unmapCalls := m.unmapCalls + 1;
      if answer == 0 {
        m.live := false;
      }
    }
  }

  /** A write that was accepted. */
  datatype Patch = Patch(offset: nat, data: seq<Byte>)

  function Apply(memory: seq<Byte>, p: Patch): (after: seq<Byte>)
    requires p.offset + |p.data| <= |memory|
    ensures |after| == |memory|
  {
    memory[..p.offset] + p.data + memory[p.offset + |p.data|..]
  }

  ghost predicate Fit(patches: seq<Patch>, size: nat) {
    forall i :: 0 <= i < |patches| ==> patches[i].offset + |patches[i].data| <= size
  }

  function ApplyAll(memory: seq<Byte>, patches: seq<Patch>): (after: seq<Byte>)
    requires Fit(patches, |memory|)
    ensures |after| == |memory|
  {
    if patches == [] then memory
    else Apply(ApplyAll(memory, patches[..|patches| - 1]), patches[|patches| - 1])
  }

  class Region {
    var base: Mapping?
    var size: SizeT
    var backend: int
    /** The accepted writes since the allocation. */
    ghost var patches: seq<Patch>

    constructor ()
      ensures base == null && size == 0 && backend == 0 && patches == []
    {
      base, size, backend := null, 0, 0;
      patches := [];
    }

    /** Whether writes go through the per-thread callback instead of `mprotect`. */
    predicate Callback(kernel: Kernel)
      reads this`backend
    {
      kernel.platform == Ios && backend == MAP_JIT_BACKEND
    }

    /** Memory that `mprotect` governs is open for writing, or else open for execution. */
    predicate Protected(open: bool)
      reads this`base, base
    {
      base != null && base.governed ==> (base.writable <==> open) && (base.executable <==> !open)
    }

    /** An allocated region is a mapping not yet given back, filled by exactly its accepted writes. */
    ghost predicate Valid(kernel: Kernel)
      reads this, kernel, kernel.mapped, if base == null then {} else {base.memory}
    {
      && kernel.Valid()
      && (base != null ==>
            && base in kernel.mapped && base.live && base.unmapCalls == 0
            && size as nat == base.memory.Length && 0 < size
            && backend in {MAP_JIT_BACKEND, ANONYMOUS_BACKEND}
            && base.governed == !Callback(kernel)
            && Fit(patches, size as nat)
            && base.memory[..] == ApplyAll(Zeros(size as nat), patches))
      && (base != null && !base.governed ==> base.executable)
    }
  }

  method RoundToPage(kernel: Kernel, size: SizeT) returns (rounded: SizeT)
    requires kernel.Valid() && 0 < size
    ensures rounded as int == PageRound(size as int, kernel.page)
    ensures rounded != 0 ==> rounded >= size && rounded as int % kernel.page == 0
    ensures rounded == 0 <==> size as int > TWO_TO_THE_64 - kernel.page
  {
    PageRoundExact(size as int, kernel.page);
    rounded := PageRound(size as int, kernel.page) as SizeT;
  }

  /** The answer to a request for memory: a size that wraps is refused, and only iOS has a second try. */
  function AllocAnswer(platform: Platform, page: int, size: int, plan: seq<Answer>): Answer {
    if size == 0 || size > TWO_TO_THE_64 - page then EINVAL
    else if platform == Ios && NextAnswer(plan) != 0 then NextAnswer(AfterCall(plan))
    else NextAnswer(plan)
  }

  /**
   `graft_jit_alloc`. A successful allocation is whole pages and never smaller than asked: a size that would wrap
   becomes a request for no bytes, which fails. A failure leaves the caller's region alone.
   */
  method Alloc(kernel: Kernel, size: SizeT, region: Region?) returns (answer: Answer)
    requires kernel.Valid()
    modifies kernel, region
    ensures kernel.Valid()
    ensures region == null || size == 0 ==> answer == EINVAL
    ensures answer == 0 ==>
              && region.Valid(kernel) && fresh(region.base) && fresh(region.base.memory) && region.patches == []
              && kernel.mapped == old(kernel.mapped) + {region.base}
              && size <= region.size && region.size as int == PageRound(size as int, kernel.page)
              && region.base.writable && (region.base.executable <==> !region.base.governed)
    ensures answer != 0 ==> kernel.mapped == old(kernel.mapped) && (region != null ==> unchanged(region))
    ensures region != null ==> answer == AllocAnswer(kernel.platform, kernel.page, size as int, old(kernel.plan))
    ensures answer == 0 ==>
              if kernel.platform == Ios && NextAnswer(old(kernel.plan)) != 0 then
                region.backend == ANONYMOUS_BACKEND && kernel.plan == AfterCall(AfterCall(old(kernel.plan)))
              else
                region.backend == MAP_JIT_BACKEND && kernel.plan == AfterCall(old(kernel.plan))
  {
    if region == null || size == 0 {
      return EINVAL;
    }
    var rounded := RoundToPage(kernel, size);
    var backend := MAP_JIT_BACKEND;
    var base: Mapping?;
    answer, base := kernel.Mmap(rounded, true, kernel.platform == Ios, kernel.platform != Ios);
    if answer != 0 && kernel.platform == Ios {
      answer, base := kernel.Mmap(rounded, true, false, true);
      backend := ANONYMOUS_BACKEND;
    }
    if answer != 0 {
      return;
    }
    region.base, region.size, region.backend := base, rounded, backend;
    region.patches := [];
  }

  /** `graft_jit_begin_write`. */
  method BeginWrite(kernel: Kernel, region: Region?) returns (answer: Answer)
    requires region == null || region.Valid(kernel)
    requires kernel.Valid()
    modifies kernel`plan, if region != null && region.base != null then {region.base} else {}
    ensures kernel.Valid() && (region != null ==> region.Valid(kernel))
    ensures region == null || region.base == null ==> answer == EINVAL
    ensures answer == 0 ==> region.base.governed && region.base.writable && !region.base.executable
    ensures answer != 0 && region != null && region.base != null ==>
              region.base.writable == old(region.base.writable) && region.base.executable == old(region.base.executable)
    ensures region != null && region.base != null ==>
              answer == if region.Callback(kernel) then ENOTSUP else NextAnswer(old(kernel.plan))
    ensures region != null && region.base != null && !region.Callback(kernel) ==>
              kernel.plan == AfterCall(old(kernel.plan))
  {
    if region == null || region.base == null {
      return EINVAL;
    }
    if region.Callback(kernel) {
      return ENOTSUP;
    }
    answer := kernel.Mprotect(region.base, true, false);
  }

  /** The copy itself, with the check that guards it; `size - offset` is only formed when it cannot wrap. */
  method Copy(region: Region, offset: SizeT, data: array<Byte>) returns (answer: Answer)
    requires data.Length < TWO_TO_THE_64
    requires region.base != null && region.size as nat == region.base.memory.Length
    requires region.base.governed ==> region.base.writable
    modifies region.base.memory
    ensures answer == 0 <==> offset as int + data.Length <= region.size as int
    ensures answer == 0 ==>
              region.base.memory[..] == Apply(old(region.base.memory[..]), Patch(offset as nat, old(data[..])))
    ensures answer != 0 ==> region.base.memory[..] == old(region.base.memory[..])
  {
    var size := data.Length as SizeT;
    if offset > region.size || size > region.size - offset {
      return EINVAL;
    }
    var memory, at := region.base.memory, offset as nat;
    forall i | 0 <= i < data.Length {
      memory[at + i] := data[i];
    }
    assert memory[..] == Apply(old(memory[..]), Patch(at, old(data[..])));
    return 0;
  }

  /** The answer of a write within bounds. */
  function WriteAnswer(callback: bool, answer: Answer): Answer {
    if callback && answer < 0 then EIO else answer
  }

  /**
   `graft_jit_write`. An accepted write changes exactly `[offset, offset + size)`, a refused one nothing; on the
   callback path and on the mprotect path the bytes end up the same.
   */
  method Write(kernel: Kernel, region: Region?, offset: SizeT, data: array?<Byte>) returns (answer: Answer)
    requires kernel.Valid() && (region != null ==> region.Valid(kernel))
    requires data != null ==> data.Length < TWO_TO_THE_64
    modifies kernel`plan, if region != null then {region} else {},
             if region != null && region.base != null then {region.base, region.base.memory} else {}
    ensures kernel.Valid() && (region != null ==> region.Valid(kernel))
    ensures region != null ==>
              region.base == old(region.base) && region.size == old(region.size)
              && region.backend == old(region.backend)
    ensures region == null || region.base == null || data == null ==> answer == EINVAL
    ensures answer == 0 ==>
              && offset as int + data.Length <= region.size as int
              && region.patches == old(region.patches) + [Patch(offset as nat, old(data[..]))]
              && region.base.memory[..] == Apply(old(region.base.memory[..]), Patch(offset as nat, old(data[..])))
    ensures answer == 0 && region.base.governed ==> region.base.writable && !region.base.executable
    ensures answer != 0 && region != null && region.base != null ==>
              && region.patches == old(region.patches) && region.base.memory[..] == old(region.base.memory[..])
              && region.base.writable == old(region.base.writable)
              && region.base.executable == old(region.base.executable)
    ensures region != null && region.base != null && data != null ==>
              if offset as int + data.Length > region.size as int then
                answer == EINVAL && kernel.plan == old(kernel.plan)
              else answer == WriteAnswer(region.Callback(kernel), NextAnswer(old(kernel.plan)))
                   && kernel.plan == AfterCall(old(kernel.plan))
  {
    if region == null || region.base == null || data == null
       || offset > region.size || data.Length as SizeT > region.size - offset {
      return EINVAL;
    }
    answer := MakeWritable(kernel, region);
    if answer != 0 {
      return;
    }
    answer := Store(kernel, region, offset, data);
  }

  /** The way to a writable region: the callback's answer on the MAP_JIT backend, `mprotect` elsewhere. */
  method MakeWritable(kernel: Kernel, region: Region) returns (answer: Answer)
    requires region.Valid(kernel) && region.base != null
    modifies kernel`plan, region.base
    ensures region.Valid(kernel)
    ensures answer == WriteAnswer(region.Callback(kernel), NextAnswer(old(kernel.plan)))
    ensures kernel.plan == AfterCall(old(kernel.plan))
    ensures answer == 0 && region.base.governed ==> region.base.writable && !region.base.executable
    ensures answer != 0 ==> region.base.writable == old(region.base.writable)
                            && region.base.executable == old(region.base.executable)
  {
    if region.Callback(kernel) {
      answer := kernel.Call();
      return if answer < 0 then EIO else answer;
    }
    answer := BeginWrite(kernel, region);
  }

  /** A copy within bounds, entered in the region's record of writes. */
  method Store(kernel: Kernel, region: Region, offset: SizeT, data: array<Byte>) returns (answer: Answer)
    requires region.Valid(kernel) && region.base != null && (region.base.governed ==> region.base.writable)
    requires data.Length < TWO_TO_THE_64 && offset as int + data.Length <= region.size as int
    modifies region`patches, region.base.memory
    ensures region.Valid(kernel) && answer == 0
    ensures region.patches == old(region.patches) + [Patch(offset as nat, old(data[..]))]
    ensures region.base.memory[..] == Apply(old(region.base.memory[..]), Patch(offset as nat, old(data[..])))
  {
    ghost var p := Patch(offset as nat, data[..]);
    ApplyOneMore(Zeros(region.size as nat), region.patches, p);
    answer := Copy(region, offset, data);
    region.patches := region.patches + [p];
  }

  lemma ApplyOneMore(memory: seq<Byte>, patches: seq<Patch>, p: Patch)
    requires Fit(patches, |memory|) && p.offset + |p.data| <= |memory|
    ensures Fit(patches + [p], |memory|)
    ensures ApplyAll(memory, patches + [p]) == Apply(ApplyAll(memory, patches), p)
  {
    assert (patches + [p])[..|patches|] == patches;
  }

  /** `graft_jit_commit`. */
  method Commit(kernel: Kernel, region: Region?) returns (answer: Answer)
    requires kernel.Valid() && (region != null ==> region.Valid(kernel))
    modifies kernel`plan, if region != null && region.base != null then {region.base} else {}
    ensures kernel.Valid() && (region != null ==> region.Valid(kernel))
    ensures region == null || region.base == null ==> answer == EINVAL
    ensures answer == 0 ==> region.base.executable && (region.base.governed ==> !region.base.writable)
    ensures answer != 0 && region != null && region.base != null ==>
              region.base.writable == old(region.base.writable) && region.base.executable == old(region.base.executable)
    ensures region != null && region.base != null ==>
              && answer == (if region.Callback(kernel) then 0 else NextAnswer(old(kernel.plan)))
              && kernel.plan == (if region.Callback(kernel) then old(kernel.plan) else AfterCall(old(kernel.plan)))
  {
    if region == null || region.base == null {
      return EINVAL;
    }
    if region.Callback(kernel) {
      return 0;
    }
    answer := kernel.Mprotect(region.base, false, true);
  }

  /** `graft_jit_invalidate`. */
  method Invalidate(region: Region?, offset: SizeT, size: SizeT) returns (answer: Answer)
    ensures answer == 0 <==> region != null && region.base != null && offset as int + size as int <= region.size as int
  {
    if region == null || region.base == null || offset > region.size || size > region.size - offset {
      return EINVAL;
    }
    return 0;
  }

  /** `graft_jit_free`: gives the mapping back once and forgets it, whether or not the kernel took it. */
  method Free(kernel: Kernel, region: Region?)
    requires kernel.Valid() && (region != null ==> region.Valid(kernel))
    modifies kernel`plan, region, if region != null && region.base != null then {region.base} else {}
    ensures kernel.Valid()
    ensures region != null ==> region.Valid(kernel) && region.base == null
    ensures region != null && old(region.base) != null ==>
              && old(region.base).unmapCalls == 1
              && old(region.base).live == (NextAnswer(old(kernel.plan)) != 0)
  {
    if region != null && region.base != null {
      kernel.Munmap(region.base);
      region.base, region.size, region.backend := null, 0, 0;
    }
  }

  /** Whether code that fits can be published: the write must be let through, and then the commit. */
  function PublishAnswer(callback: bool, plan: seq<Answer>): Answer {
    var write := WriteAnswer(callback, NextAnswer(plan));
    if write != 0 || callback then write else NextAnswer(AfterCall(plan))
  }

  /** The sequence every caller uses to publish code at the start of a region: write, invalidate, commit. */
  method Publish(kernel: Kernel, region: Region, code: array<Byte>) returns (answer: Answer)
    requires kernel.Valid() && region.Valid(kernel) && region.base != null
    requires code.Length < TWO_TO_THE_64 && code != region.base.memory
    modifies kernel`plan, region, region.base, region.base.memory
    ensures kernel.Valid() && region.Valid(kernel)
    ensures region.base == old(region.base)
    ensures answer == 0 ==>
              && code.Length <= region.base.memory.Length
              && region.base.memory[..code.Length] == code[..]
              && region.base.executable && (region.base.governed ==> !region.base.writable)
    ensures answer == if code.Length <= region.size as int then PublishAnswer(region.Callback(kernel), old(kernel.plan))
                      else EINVAL
  {
    answer := Write(kernel, region, 0, code);
    if answer != 0 {
      return;
    }
    assert region.base.memory[..code.Length] == region.base.memory[..][..code.Length] == code[..];
    answer := Invalidate(region, 0, code.Length as SizeT);
    if answer != 0 {
      return;
    }
    answer := Commit(kernel, region);
  }

  // ---- Runs ----

  datatype Operation =
    | DoAlloc(size: SizeT) | DoBeginWrite | DoWrite(offset: SizeT, data: seq<Byte>)
    | DoCommit | DoInvalidate(offset: SizeT, size: SizeT) | DoFree

  /** Whether the region holds memory after these operations with these answers. */
  function Held(operations: seq<Operation>, answers: seq<Answer>): bool
    requires |answers| == |operations|
  {
    if operations == [] then false
    else
      var last := |operations| - 1;
      match operations[last]
      case DoAlloc(_) => answers[last] == 0 || Held(operations[..last], answers[..last])
      case DoFree => false
      case _ => Held(operations[..last], answers[..last])
  }

  /** The writes accepted since the memory was obtained. */
  function Accepted(operations: seq<Operation>, answers: seq<Answer>): seq<Patch>
    requires |answers| == |operations|
  {
    if operations == [] then []
    else
      var last := |operations| - 1;
      var before := Accepted(operations[..last], answers[..last]);
      match operations[last]
      case DoAlloc(_) => if answers[last] == 0 then [] else before
      case DoWrite(offset, data) => if answers[last] == 0 then before + [Patch(offset as nat, data)] else before
      case _ => before
  }

  /** The size of the memory that the last successful allocation obtained. */
  function HeldSize(page: int, operations: seq<Operation>, answers: seq<Answer>): int
    requires |answers| == |operations|
  {
    if operations == [] then 0
    else
      var last := |operations| - 1;
      if operations[last].DoAlloc? && answers[last] == 0 then PageRound(operations[last].size as int, page)
      else HeldSize(page, operations[..last], answers[..last])
  }

  /** Whether the memory is open for writing: since it was obtained, or by the last call that changed it. */
  function Open(operations: seq<Operation>, answers: seq<Answer>): bool
    requires |answers| == |operations|
  {
    if operations == [] then false
    else
      var last := |operations| - 1;
      if answers[last] != 0 then Open(operations[..last], answers[..last])
      else match operations[last]
           case DoAlloc(_) => true
           case DoBeginWrite => true
           case DoWrite(_, _) => true
           case DoCommit => false
           case _ => Open(operations[..last], answers[..last])
  }

  /** The region is what these operations, answered like this, leave of a fresh one. */
  ghost predicate DrivenBy(page: int, region: Region, operations: seq<Operation>, answers: seq<Answer>)
    reads region, region.base
  {
    && |answers| == |operations|
    && (region.base != null <==> Held(operations, answers))
    && (region.base != null ==>
          && region.patches == Accepted(operations, answers)
          && region.size as int == HeldSize(page, operations, answers)
          && region.Protected(Open(operations, answers)))
  }

  /**
   Any operations in any order, with any failures: the kernel's invariant (no governed range writable and executable
   at once, none given back twice) and the region's invariant (live, and filled by its accepted writes) survive; and
   the accepted writes are those that were answered with success since the memory was obtained.
   */
  method Drive(kernel: Kernel, region: Region, operations: seq<Operation>) returns (answers: seq<Answer>)
    requires kernel.Valid() && region.base == null && region.Valid(kernel)
    requires forall o :: o in operations && o.DoWrite? ==> |o.data| < TWO_TO_THE_64
    modifies kernel, region
    ensures kernel.Valid() && region.Valid(kernel)
    ensures fresh(kernel.mapped - old(kernel.mapped)) && old(kernel.mapped) <= kernel.mapped
    ensures DrivenBy(kernel.page, region, operations, answers)
  {
    answers := [];
    for i := 0 to |operations|
      invariant kernel.Valid() && region.Valid(kernel)
      invariant fresh(kernel.mapped - old(kernel.mapped)) && old(kernel.mapped) <= kernel.mapped
      invariant region.base != null ==> fresh(region.base) && fresh(region.base.memory)
      invariant DrivenBy(kernel.page, region, operations[..i], answers)
    {
      var answer := Step(kernel, region, operations[i]);
      OneMoreOperation(kernel.page, operations[..i], answers, operations[i], answer);
      assert operations[..i + 1] == operations[..i] + [operations[i]];
      answers := answers + [answer];
    }
    assert operations[..|operations|] == operations;
  }

  lemma OneMoreOperation(page: int, operations: seq<Operation>, answers: seq<Answer>, o: Operation, answer: Answer)
    requires |answers| == |operations|
    ensures Held(operations + [o], answers + [answer])
         == if o.DoFree? then false else (o.DoAlloc? && answer == 0) || Held(operations, answers)
    ensures Accepted(operations + [o], answers + [answer])
         == if o.DoAlloc? && answer == 0 then []
            else if o.DoWrite? && answer == 0 then Accepted(operations, answers) + [Patch(o.offset as nat, o.data)]
            else Accepted(operations, answers)
    ensures HeldSize(page, operations + [o], answers + [answer])
         == if o.DoAlloc? && answer == 0 then PageRound(o.size as int, page) else HeldSize(page, operations, answers)
    ensures Open(operations + [o], answers + [answer])
         == if answer == 0 && (o.DoAlloc? || o.DoBeginWrite? || o.DoWrite?) then true
            else if answer == 0 && o.DoCommit? then false
            else Open(operations, answers)
  {
    assert (operations + [o])[..|operations|] == operations && (answers + [answer])[..|answers|] == answers;
  }

  method Step(kernel: Kernel, region: Region, o: Operation) returns (answer: Answer)
    requires kernel.Valid() && region.Valid(kernel)
    requires o.DoWrite? ==> |o.data| < TWO_TO_THE_64
    modifies kernel, region, if region.base != null then {region.base, region.base.memory} else {}
    ensures kernel.Valid() && region.Valid(kernel)
    ensures fresh(kernel.mapped - old(kernel.mapped)) && old(kernel.mapped) <= kernel.mapped
    ensures region.base == old(region.base) || region.base == null || (fresh(region.base) && fresh(region.base.memory))
    ensures region.base != null <==>
              if o.DoFree? then false else (o.DoAlloc? && answer == 0) || old(region.base) != null
    ensures region.base != null ==>
              region.patches == if o.DoAlloc? && answer == 0 then []
                                else if o.DoWrite? && answer == 0 then
                                    old(region.patches) + [Patch(o.offset as nat, o.data)]
                                else old(region.patches)
    ensures region.base != null ==>
              region.size as int == if o.DoAlloc? && answer == 0 then PageRound(o.size as int, kernel.page)
                                    else old(region.size) as int
    ensures answer == 0 && (o.DoAlloc? || o.DoBeginWrite? || o.DoWrite?) ==> region.Protected(true)
    ensures answer == 0 && o.DoCommit? ==> region.Protected(false)
    ensures answer != 0 || o.DoInvalidate? || o.DoFree? ==>
              forall open :: old(region.Protected(open)) ==> region.Protected(open)
  {
    answer := 0;
    match o
    case DoAlloc(size) => answer := Alloc(kernel, size, region);
    case DoBeginWrite => answer := BeginWrite(kernel, region);
    case DoWrite(offset, data) =>
      var buffer := new Byte[|data|](j requires 0 <= j < |data| => data[j]);
      assert buffer[..] == data;
      answer := Write(kernel, region, offset, buffer);
    case DoCommit => answer := Commit(kernel, region);
    case DoInvalidate(offset, size) => answer := Invalidate(region, offset, size);
    case DoFree => Free(kernel, region);
  }

  /** The answer of allocating 4096 bytes and publishing a little code there. */
  function FreshCodeAnswer(platform: Platform, page: int, plan: seq<Answer>): Answer {
    var answer := AllocAnswer(platform, page, 4096, plan);
    if answer != 0 then answer
    else if platform == Ios && NextAnswer(plan) != 0 then PublishAnswer(false, AfterCall(AfterCall(plan)))
    else PublishAnswer(platform == Ios, AfterCall(plan))
  }

  datatype Status = Enabled | Disabled | Unavailable | Unknown

  function StatusOf(answer: Answer): (s: Status)
    ensures s == Enabled <==> answer == 0
    ensures s == Disabled <==> answer == 13 || answer == 1
    ensures s == Unavailable <==> answer == 45 || answer == 78
  {
    if answer == 0 then Enabled
    else if answer in {EACCES, EPERM} then Disabled
    else if answer in {ENOTSUP, ENOSYS} then Unavailable
    else Unknown
  }

  /** `graft_jit_check`: whatever the outcome, every range it obtained has been given back exactly once. */
  method Check(kernel: Kernel, writeProtectSupported: bool) returns (status: Status)
    requires kernel.Valid()
    modifies kernel
    ensures kernel.Valid()
    ensures old(kernel.mapped) <= kernel.mapped && fresh(kernel.mapped - old(kernel.mapped))
    ensures forall m :: m in kernel.mapped - old(kernel.mapped) ==> m.unmapCalls == 1
    ensures status == if kernel.platform == Linux || (kernel.platform == Ios && !writeProtectSupported) then Unavailable
                      else StatusOf(FreshCodeAnswer(kernel.platform, kernel.page, old(kernel.plan)))
  {
    if kernel.platform == Linux || (kernel.platform == Ios && !writeProtectSupported) {
      return Unavailable;
    }
    var region := new Region();
    var code := new Byte[4](i => if i == 0 then 0x1f else if i == 1 then 0x20 else if i == 2 then 0x03 else 0xd5);
    var answer := Alloc(kernel, 4096, region);
    if answer == 0 {
      answer := Publish(kernel, region, code);
    }
    Free(kernel, region);
    if answer == 0 {
      return Enabled;
    }
    if answer in {EACCES, EPERM} {
      return Disabled;
    }
    if answer in {ENOTSUP, ENOSYS} {
      return Unavailable;
    }
    return Unknown;
  }

  /**
   Two runs, on any platforms and backends and with any failures, that hold memory of the same size and had the same
   writes accepted leave the same bytes.
   */
  lemma BackendsAgree(
    k1: Kernel, r1: Region, operations1: seq<Operation>, answers1: seq<Answer>,
    k2: Kernel, r2: Region, operations2: seq<Operation>, answers2: seq<Answer>)
    requires r1.Valid(k1) && DrivenBy(k1.page, r1, operations1, answers1) && Held(operations1, answers1)
    requires r2.Valid(k2) && DrivenBy(k2.page, r2, operations2, answers2) && Held(operations2, answers2)
    requires HeldSize(k1.page, operations1, answers1) == HeldSize(k2.page, operations2, answers2)
    requires Accepted(operations1, answers1) == Accepted(operations2, answers2)
    ensures r1.base.memory[..] == r2.base.memory[..]
  {
  }

  lemma ApplyAt(memory: seq<Byte>, p: Patch, at: nat)
    requires p.offset + |p.data| <= |memory| && at < |memory|
    ensures Apply(memory, p)[at] == if Touches(p, at) then p.data[at - p.offset] else memory[at]
  {
  }

  /** The number of the last write that touches a byte, if any does. */
  function LastTouch(patches: seq<Patch>, at: nat): (i: int)
    ensures -1 <= i < |patches|
    ensures i >= 0 ==> Touches(patches[i], at)
    ensures forall j :: i < j < |patches| ==> !Touches(patches[j], at)
  {
    if patches == [] then -1
    else
      var last := |patches| - 1;
      if Touches(patches[last], at) then last
      else
        assert forall j :: 0 <= j < last ==> patches[..last][j] == patches[j];
        LastTouch(patches[..last], at)
  }

  /** Later writes win, and a byte no write touched is still zero. */
  lemma {:induction false} ByteIsLastWritten(size: nat, patches: seq<Patch>, at: nat)
    requires Fit(patches, size) && at < size
    ensures var i := LastTouch(patches, at);
            ApplyAll(Zeros(size), patches)[at] == if i < 0 then 0 else patches[i].data[at - patches[i].offset]
    decreases |patches|
  {
    if patches != [] {
      var last := |patches| - 1;
      ByteIsLastWritten(size, patches[..last], at);
      ApplyAt(ApplyAll(Zeros(size), patches[..last]), patches[last], at);
    }
  }

  predicate Touches(p: Patch, at: nat) {
    p.offset <= at < p.offset + |p.data|
  }
}
