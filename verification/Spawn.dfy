/**
 Launching the helper (platform/darwin/graft_process.c:8-61) and the start of the helper (probes/helper/main.c:16-36).
 The outcome of every system call is a parameter; error numbers are Darwin's.
 */
module Spawn {
  import opened Bytes
  import opened Options
  import Decimal

  type Int32 = x: int | -0x8000_0000 <= x < 0x8000_0000
  type SizeT = x: int | 0 <= x < 0x1_0000_0000_0000_0000

  const EINVAL: Int32 := 22
  const EMFILE: Int32 := 24

  datatype LaunchConfig = LaunchConfig(path: Option<string>,
    parentSocket: Int32, socket: Int32, shared: Int32, size: SizeT) {
    /** What the adapter accepts. */
    predicate Usable() {
      && path.Some? && path.value != ""
      && parentSocket >= 0 && socket >= 0 && shared >= 0 && size != 0
    }

    function Highest(): Int32 { Max(parentSocket, Max(socket, shared)) }
  }

  datatype Action = Dup2(from: Int32, to: Int32) | Close(fd: Int32)

  /** What `posix_spawn` is asked to start. */
  datatype Launch = Launch(path: string, actions: seq<Action>, argv: seq<string>)

  /** A `posix_spawn_file_actions_t`. */
  class FileActions {
    var live: bool
    var list: seq<Action>

    constructor ()
      ensures !live && list == []
    {
      live, list := false, [];
    }

    /** Adds an action unless an earlier call, or this one, fails. */
    method Add(before: Int32, action: Action, result: Int32) returns (after: Int32)
      modifies this`list
      ensures after == if before == 0 then result else before
      ensures list == if after == 0 then old(list) + [action] else old(list)
    {
      after := before;
      if before == 0 {
        after := result;
        if result == 0 {
          list := list + [action];
        }
      }
    }
  }

  class HelperProcess {
    var pid: int
  }

  /** What the system calls answer: zero for success, else an error number. */
  datatype Outcome = Outcome(init: Int32, adds: seq<Int32>, spawn: Int32, pid: int) {
    predicate Valid() { |adds| == 5 }

    function FirstFailure(): Int32
      requires Valid()
    {
      if init != 0 then init
      else if adds[0] != 0 then adds[0]
      else if adds[1] != 0 then adds[1]
      else if adds[2] != 0 then adds[2]
      else if adds[3] != 0 then adds[3]
      else if adds[4] != 0 then adds[4]
      else spawn
    }
  }

  /** Duplicate both descriptors out of the way, then close the three originals. */
  function ActionsFor(c: LaunchConfig): seq<Action>
    requires 0 <= c.Highest() <= 1022
  {
    [ Dup2(c.socket, c.Highest() + 1), Dup2(c.shared, c.Highest() + 2),
      Close(c.parentSocket), Close(c.socket), Close(c.shared) ]
  }

  function ArgumentsFor(c: LaunchConfig): seq<string>
    requires c.Usable() && c.Highest() <= 1022
  {
    [ c.path.value,
      Decimal.Fitted(Decimal.Print(c.Highest() + 1), 16),
      Decimal.Fitted(Decimal.Print(c.Highest() + 2), 16),
      Decimal.Fitted(Decimal.Print(c.size), 32) ]
  }

  /** Why a launch is refused, or zero. */
  function Refusal(config: Option<LaunchConfig>, missingOut: bool, outcome: Outcome): Int32
    requires outcome.Valid()
  {
    if config.None? || missingOut || !config.value.Usable() then EINVAL
    else if config.value.Highest() > 1022 then EMFILE
    else outcome.FirstFailure()
  }

  /** Unusable arguments are EINVAL, a number above 1022 is EMFILE, and else the first failing call decides. */
  lemma RefusalMeans(c: LaunchConfig, outcome: Outcome)
    requires outcome.Valid()
    ensures var answers := [outcome.init] + outcome.adds + [outcome.spawn];
            var r := Refusal(Some(c), false, outcome);
            if c.path.None? || c.path.value == "" || c.parentSocket < 0 || c.socket < 0 || c.shared < 0 || c.size == 0
            then r == 22
            else if c.parentSocket > 1022 || c.socket > 1022 || c.shared > 1022 then r == 24
            else
              && (r == 0 <==> forall i :: 0 <= i < 7 ==> answers[i] == 0)
              && forall i :: 0 <= i < 7 && answers[i] != 0 && (forall j :: 0 <= j < i ==> answers[j] == 0)
                   ==> r == answers[i]
    ensures Refusal(None, false, outcome) == Refusal(Some(c), true, outcome) == 22
  {
    var answers := [outcome.init] + outcome.adds + [outcome.spawn];
    assert answers[0] == outcome.init && answers[6] == outcome.spawn;
    assert answers[1] == outcome.adds[0] && answers[2] == outcome.adds[1] && answers[3] == outcome.adds[2];
    assert answers[4] == outcome.adds[3] && answers[5] == outcome.adds[4];
  }

  /** The five additions, each made only if all before it were. */
  method AddAll(actions: FileActions, c: LaunchConfig, childSocket: Int32, childShared: Int32, results: seq<Int32>)
    returns (result: Int32)
    requires |results| == 5 && actions.list == []
    modifies actions`list
    ensures result == 0 <==> forall i :: 0 <= i < 5 ==> results[i] == 0
    ensures forall i :: 0 <= i < 5 && results[i] != 0 && (forall j :: 0 <= j < i ==> results[j] == 0)
              ==> result == results[i]
    ensures result == 0 ==>
              actions.list == [ Dup2(c.socket, childSocket), Dup2(c.shared, childShared),
                                Close(c.parentSocket), Close(c.socket), Close(c.shared) ]
  {
    result := actions.Add(0, Dup2(c.socket, childSocket), results[0]);
    result := actions.Add(result, Dup2(c.shared, childShared), results[1]);
    result := actions.Add(result, Close(c.parentSocket), results[2]);
    result := actions.Add(result, Close(c.socket), results[3]);
    result := actions.Add(result, Close(c.shared), results[4]);
  }

  /**
   `graft_spawn_helper`: nothing is launched or written on failure, and the action list is always given back. The last
   error before and after is `errno`, which success leaves alone.
   */
  method SpawnHelper(
    config: Option<LaunchConfig>, out: HelperProcess?, actions: FileActions, outcome: Outcome, errnoBefore: Int32)
    returns (rc: Int32, errno: Int32, launch: Option<Launch>)
    requires outcome.Valid() && !actions.live && actions.list == []
    modifies out, actions
    ensures !actions.live
    ensures var refusal := Refusal(config, out == null, outcome);
            if refusal == 0 then rc == 0 && errno == errnoBefore else rc == -1 && errno == refusal
    ensures rc == 0 ==>
              && config.Some? && config.value.Usable() && config.value.Highest() <= 1022
              && launch == Some(Launch(config.value.path.value, ActionsFor(config.value), ArgumentsFor(config.value)))
              && out != null && out.pid == outcome.pid
    ensures rc != 0 ==> launch == None && (out != null ==> out.pid == old(out.pid))
  {
    if config.None? || out == null || config.value.path.None? || config.value.path.value == ""
       || config.value.parentSocket < 0 || config.value.socket < 0 || config.value.shared < 0
       || config.value.size == 0 {
      return -1, EINVAL, None;
    }
    var c := config.value;
    var highest := c.parentSocket;
    if c.socket > highest {
      highest := c.socket;
    }
    if c.shared > highest {
      highest := c.shared;
    }
    if highest > 1022 {
      return -1, EMFILE, None;
    }
    var childSocket: Int32, childShared: Int32 := highest + 1, highest + 2;
    var argv := [ c.path.value,
                  Decimal.Fitted(Decimal.Print(childSocket), 16),
                  Decimal.Fitted(Decimal.Print(childShared), 16),
                  Decimal.Fitted(Decimal.Print(c.size), 32) ];
    if outcome.init != 0 {
      return -1, outcome.init, None;
    }
    actions.live := true;
    var result := AddAll(actions, c, childSocket, childShared, outcome.adds);
    if result != 0 {
      actions.live := false;
      return -1, result, None;
    }
    launch := Some(Launch(c.path.value, actions.list, argv));
    actions.live := false;
    if outcome.spawn != 0 {
      return -1, outcome.spawn, None;
    }
    out.pid := outcome.pid;
    return 0, errnoBefore, launch;
  }

  // ---- The descriptors of the child ----

  /** The open file a descriptor stands for, and whether it is closed on exec. */
  datatype Descriptor = Descriptor(file: nat, closeOnExec: bool)

  type Table = map<int, Descriptor>

  function Perform(t: Table, a: Action): Option<Table> {
    match a
    case Dup2(from, to) => if from in t then Some(t[to := Descriptor(t[from].file, false)]) else None
    case Close(fd) => if fd in t then Some(t - {fd}) else None
  }

  function PerformAll(t: Table, actions: seq<Action>): Option<Table>
    decreases |actions|
  {
    if actions == [] then Some(t)
    else
      var next := Perform(t, actions[0]);
      if next.None? then None else PerformAll(next.value, actions[1..])
  }

  function AfterExec(t: Table): Table {
    map fd | fd in t && !t[fd].closeOnExec :: t[fd]
  }

  /** The three descriptors are open, and no two of them are the same number. */
  ghost predicate ThreeOpen(t: Table, c: LaunchConfig) {
    && c.parentSocket in t && c.socket in t && c.shared in t
    && c.parentSocket != c.socket && c.parentSocket != c.shared && c.socket != c.shared
  }

  ghost function ChildTable(t: Table, c: LaunchConfig): Table
    requires ThreeOpen(t, c) && c.Highest() <= 1022
  {
    (t - {c.parentSocket, c.socket, c.shared})[c.Highest() + 1 := Descriptor(t[c.socket].file, false)]
                                              [c.Highest() + 2 := Descriptor(t[c.shared].file, false)]
  }

  lemma Unfold(t: Table, a: Action, rest: seq<Action>)
    ensures PerformAll(t, [a] + rest) == if Perform(t, a).None? then None else PerformAll(Perform(t, a).value, rest)
  {
    assert ([a] + rest)[1..] == rest;
  }

  /** What the five actions do, one after another, to any table. */
  lemma FiveActions(t: Table, c: LaunchConfig)
    requires 0 <= c.Highest() <= 1022
    ensures PerformAll(t, ActionsFor(c))
         == if c.socket !in t then None
            else
              var t1 := t[c.Highest() + 1 := Descriptor(t[c.socket].file, false)];
              if c.shared !in t1 then None
              else
                var t2 := t1[c.Highest() + 2 := Descriptor(t1[c.shared].file, false)];
                if c.parentSocket !in t2 then None
                else if c.socket !in t2 - {c.parentSocket} then None
                else if c.shared !in t2 - {c.parentSocket} - {c.socket} then None
                else Some(t2 - {c.parentSocket} - {c.socket} - {c.shared})
  {
    var a := ActionsFor(c);
    assert a == [a[0]] + ([a[1]] + ([a[2]] + ([a[3]] + ([a[4]] + []))));
    if c.socket in t {
      var t1 := Perform(t, a[0]).value;
      Unfold(t, a[0], [a[1]] + ([a[2]] + ([a[3]] + ([a[4]] + []))));
      Unfold(t1, a[1], [a[2]] + ([a[3]] + ([a[4]] + [])));
      if c.shared in t1 {
        var t2 := Perform(t1, a[1]).value;
        Unfold(t2, a[2], [a[3]] + ([a[4]] + []));
        Unfold(t2 - {c.parentSocket}, a[3], [a[4]] + []);
        Unfold(t2 - {c.parentSocket} - {c.socket}, a[4], []);
      }
    }
  }

  /**
   The actions succeed exactly when three different descriptors are open. The child's table is then the parent's without
   the three, and with the socket and the shared file under two numbers above them.
   */
  lemma ActionsMoveDescriptors(t: Table, c: LaunchConfig)
    requires c.Usable() && c.Highest() <= 1022
    ensures PerformAll(t, ActionsFor(c)) == if ThreeOpen(t, c) then Some(ChildTable(t, c)) else None
  {
    FiveActions(t, c);
    if ThreeOpen(t, c) {
      var t2 := t[c.Highest() + 1 := Descriptor(t[c.socket].file, false)]
                 [c.Highest() + 2 := Descriptor(t[c.shared].file, false)];
      assert t2 - {c.parentSocket} - {c.socket} - {c.shared} == ChildTable(t, c);
    }
  }

  /** The helper finds both descriptors; none of the three originals is left, and nothing else has changed. */
  lemma HelperDescriptors(t: Table, c: LaunchConfig, fd: int)
    requires c.Usable() && c.Highest() <= 1022 && ThreeOpen(t, c)
    ensures var child := AfterExec(ChildTable(t, c));
            var socket, shared := c.Highest() + 1, c.Highest() + 2;
            && socket in child && child[socket].file == t[c.socket].file
            && shared in child && child[shared].file == t[c.shared].file
            && (fd in {c.parentSocket, c.socket, c.shared} ==> fd !in child)
            && (fd !in {c.parentSocket, c.socket, c.shared, socket, shared} ==>
                  (fd in child <==> fd in t && !t[fd].closeOnExec) && (fd in child ==> child[fd] == t[fd]))
  {
  }

  /** If the host holds its end of the socket pair only once, the helper does not hold it at all. */
  lemma HelperLacksTheHostEnd(t: Table, c: LaunchConfig)
    requires c.Usable() && c.Highest() <= 1022 && ThreeOpen(t, c)
    requires forall fd :: fd in t && t[fd].file == t[c.parentSocket].file ==> fd == c.parentSocket
    ensures forall fd :: fd in AfterExec(ChildTable(t, c)) ==>
              AfterExec(ChildTable(t, c))[fd].file != t[c.parentSocket].file
  {
  }

  // ---- The helper's arguments ----

  /** `sizeof(graft_helper_shared_state)`. */
  const SHARED_STATE_SIZE: int := 32

  datatype SharedMapping = SharedMapping(fd: int, size: int)

  datatype Start = Refused | Running(fd: int, shared: Option<SharedMapping>)

  predicate DescriptorText(s: string) {
    var (v, rest) := Decimal.Strtol(s);
    rest == "" && 0 <= v <= 1024
  }

  /** The helper's `main` up to its loop; `maps` tells whether `mmap` succeeds. A refusal is exit code 64. */
  function StartHelper(argv: seq<string>, maps: bool): Start {
    if |argv| < 2 || !DescriptorText(argv[1]) then Refused
    else if |argv| < 4 then Running(Decimal.Strtol(argv[1]).0, None)
    else if !DescriptorText(argv[2]) then Refused
    else
      var (size, rest) := Decimal.Strtoull(argv[3]);
      if rest != "" || size < SHARED_STATE_SIZE || !maps then Refused
      else Running(Decimal.Strtol(argv[1]).0, Some(SharedMapping(Decimal.Strtol(argv[2]).0, size)))
  }

  /** A helper starts exactly if its arguments read as usable numbers; without the last two it has no shared page. */
  lemma StartsExactly(argv: seq<string>, maps: bool)
    ensures StartHelper(argv, maps).Running? <==>
              && |argv| >= 2
              && var (socket, rest) := Decimal.Strtol(argv[1]);
              && rest == "" && 0 <= socket <= 1024
              && (|argv| >= 4 ==>
                    && maps
                    && var (shared, rest) := Decimal.Strtol(argv[2]);
                    && rest == "" && 0 <= shared <= 1024
                    && var (size, rest) := Decimal.Strtoull(argv[3]);
                    && rest == "" && 32 <= size)
    ensures StartHelper(argv, maps).Running? ==>
              StartHelper(argv, maps)
              == Running(Decimal.Strtol(argv[1]).0,
                         if |argv| < 4 then None
                         else Some(SharedMapping(Decimal.Strtol(argv[2]).0, Decimal.Strtoull(argv[3]).0)))
  {
  }

  /** The last three arguments are numbers that fit their buffers and read back. */
  lemma ArgumentsRead(c: LaunchConfig)
    requires c.Usable() && c.Highest() <= 1022
    ensures var argv := ArgumentsFor(c);
            && Decimal.Strtol(argv[1]) == (c.Highest() + 1, "") && Decimal.Strtol(argv[2]) == (c.Highest() + 2, "")
            && Decimal.Strtoull(argv[3]) == (c.size, "")
  {
    Decimal.BuffersAreLargeEnough(c.Highest() + 1);
    Decimal.BuffersAreLargeEnough(c.Highest() + 2);
    Decimal.BuffersAreLargeEnough(c.size);
    Decimal.ReadsBack(c.Highest() + 1);
    Decimal.ReadsBack(c.Highest() + 2);
    Decimal.ReadsBack(c.size);
  }

  /**
   A launched helper understands its arguments: it starts on the two moved descriptors and the whole shared size exactly
   when that size holds the shared state and the mapping succeeds.
   */
  lemma HelperUnderstandsLaunch(c: LaunchConfig, maps: bool)
    requires c.Usable() && c.Highest() <= 1022
    ensures StartHelper(ArgumentsFor(c), maps)
         == if c.size >= SHARED_STATE_SIZE && maps
            then Running(c.Highest() + 1, Some(SharedMapping(c.Highest() + 2, c.size)))
            else Refused
  {
    ArgumentsRead(c);
    StartsExactly(ArgumentsFor(c), maps);
  }
}
