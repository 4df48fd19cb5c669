/**
  Round robin over a growing list of processes, as a step machine and its runs
  (source/process.cpp:95-209). A context is what a switch saves and restores.
 */
module Scheduling {
  import opened Bytes

  datatype Context = Context(eip: u32, esp: u32, ebp: u32)

  datatype Process = Process(pid: nat, context: Context, directory: u32)

  const NO_CONTEXT := Context(0, 0, 0)

  /** cur is the running process's place in the list. */
  datatype Machine = Machine(procs: seq<Process>, cur: nat, pidCounter: nat)

  /** What the running process does next. */
  datatype Event = Switch(context: Context) | Fork(context: Context, directory: u32)

  /** What can be observed: contexts saved, processes created, processes resumed and the directory loaded for them. */
  datatype Entry = Saved(pid: nat, context: Context)
                 | Created(parent: nat, pid: nat, context: Context, directory: u32)
                 | Resumed(pid: nat, context: Context, directory: u32)

  predicate Valid(m: Machine) {
    && m.cur < |m.procs|
    && (forall i :: 0 <= i < |m.procs| ==> 0 < m.procs[i].pid < m.pidCounter)
    && (forall i, j :: 0 <= i < j < |m.procs| ==> m.procs[i].pid < m.procs[j].pid)
  }

  function Next(m: Machine): nat {
    if m.cur + 1 < |m.procs| then m.cur + 1 else 0
  }

  function SaveContext(m: Machine, c: Context): Machine
    requires m.cur < |m.procs|
  {
    m.(procs := m.procs[m.cur := m.procs[m.cur].(context := c)])
  }

  /** switchTask. */
  function Switched(m: Machine, c: Context): Machine
    requires m.cur < |m.procs|
  {
    SaveContext(m, c).(cur := Next(m))
  }

  /** fork, in the parent. */
  function Forked(m: Machine, c: Context, directory: u32): Machine {
    m.(procs := m.procs + [Process(m.pidCounter, c, directory)], pidCounter := m.pidCounter + 1)
  }

  /** init: the running code becomes process 1. */
  function Initial(directory: u32): Machine {
    Machine([Process(1, NO_CONTEXT, directory)], 0, 2)
  }

  function StepState(m: Machine, e: Event): Machine
    requires m.cur < |m.procs|
  {
    match e
    case Switch(c) => Switched(m, c)
    case Fork(c, d) => Forked(m, c, d)
  }

  function StepLog(m: Machine, e: Event): seq<Entry>
    requires m.cur < |m.procs|
  {
    match e
    case Switch(c) =>
      var p := SaveContext(m, c).procs[Next(m)];
      [Saved(m.procs[m.cur].pid, c), Resumed(p.pid, p.context, p.directory)]
    case Fork(c, d) => [Created(m.procs[m.cur].pid, m.pidCounter, c, d)]
  }

  lemma {:induction false} StepValid(m: Machine, e: Event)
    requires Valid(m)
    ensures Valid(StepState(m, e))
  {
    var m' := StepState(m, e);
    assert 0 < m.procs[m.cur].pid < m.pidCounter;
    forall i | 0 <= i < |m'.procs| ensures 0 < m'.procs[i].pid < m'.pidCounter {
      if i < |m.procs| { assert m'.procs[i].pid == m.procs[i].pid; }
    }
  }

  function RunState(m: Machine, es: seq<Event>): Machine
    requires Valid(m)
    decreases |es|
  {
    if es == [] then m else StepValid(m, es[0]); RunState(StepState(m, es[0]), es[1..])
  }

  function RunLog(m: Machine, es: seq<Event>): seq<Entry>
    requires Valid(m)
    decreases |es|
  {
    if es == [] then [] else StepValid(m, es[0]); StepLog(m, es[0]) + RunLog(StepState(m, es[0]), es[1..])
  }

  lemma {:induction false} RunValid(m: Machine, es: seq<Event>)
    requires Valid(m)
    ensures Valid(RunState(m, es))
    decreases |es|
  {
    if es != [] { StepValid(m, es[0]); RunValid(StepState(m, es[0]), es[1..]); }
  }

  // ---------- The numbers that processes get ----------

  /** The process at place i has pid i + 1, and the next one gets the number that follows. */
  predicate Numbered(m: Machine) {
    m.pidCounter == |m.procs| + 1 && forall i :: 0 <= i < |m.procs| ==> m.procs[i].pid == i + 1
  }

  lemma {:induction false} StepNumbered(m: Machine, e: Event)
    requires m.cur < |m.procs| && Numbered(m)
    ensures Numbered(StepState(m, e)) && |StepState(m, e).procs| == |m.procs| + if e.Fork? then 1 else 0
  {
    var m' := StepState(m, e);
    forall i | 0 <= i < |m'.procs| ensures m'.procs[i].pid == i + 1 {
      if i < |m.procs| { assert m'.procs[i].pid == m.procs[i].pid; }
    }
  }

  function Forks(es: seq<Event>): nat {
    if es == [] then 0 else (if es[0].Fork? then 1 else 0) + Forks(es[1..])
  }

  /** Over any run. */
  lemma {:induction false} RunNumbered(m: Machine, es: seq<Event>)
    requires Valid(m) && Numbered(m)
    ensures Numbered(RunState(m, es)) && |RunState(m, es).procs| == |m.procs| + Forks(es)
    decreases |es|
  {
    if es != [] {
      StepValid(m, es[0]);
      StepNumbered(m, es[0]);
      RunNumbered(StepState(m, es[0]), es[1..]);
    }
  }

  /** A process keeps its place, its number and its directory. */
  lemma {:induction false} PlaceKept(m: Machine, es: seq<Event>, i: nat)
    requires Valid(m) && i < |m.procs|
    ensures var m' := RunState(m, es);
      i < |m'.procs| && m'.procs[i].pid == m.procs[i].pid && m'.procs[i].directory == m.procs[i].directory
    decreases |es|
  {
    if es != [] {
      StepValid(m, es[0]);
      PlaceKept(StepState(m, es[0]), es[1..], i);
    }
  }

  // ---------- A dispatched process resumes where it left ----------

  /** The context that pid last saved or was created with, according to the log alone. */
  function LastContext(log: seq<Entry>, pid: nat): Option<Context>
    decreases |log|
  {
    if log == [] then None
    else match log[|log| - 1]
      case Saved(p, c) => if p == pid then Some(c) else LastContext(log[..|log| - 1], pid)
      case Created(_, p, c, _) => if p == pid then Some(c) else LastContext(log[..|log| - 1], pid)
      case Resumed(_, _, _) => LastContext(log[..|log| - 1], pid)
  }

  /** The directory that pid was created with. */
  function OwnDirectory(log: seq<Entry>, pid: nat): Option<u32>
    decreases |log|
  {
    if log == [] then None
    else match log[|log| - 1]
      case Created(_, p, _, d) => if p == pid then Some(d) else OwnDirectory(log[..|log| - 1], pid)
      case _ => OwnDirectory(log[..|log| - 1], pid)
  }

  /** Since its last resumption (or, for process 1, its creation) pid has not given up the processor. */
  function Running(log: seq<Entry>, pid: nat): bool
    decreases |log|
  {
    if log == [] then false
    else match log[|log| - 1]
      case Saved(p, _) => if p == pid then false else Running(log[..|log| - 1], pid)
      case Created(parent, p, _, _) => if p == pid then parent == 0 else Running(log[..|log| - 1], pid)
      case Resumed(p, _, _) => if p == pid then true else Running(log[..|log| - 1], pid)
  }

  /** The log so far explains the machine. */
  ghost predicate Explains(log: seq<Entry>, m: Machine) {
    && Valid(m)
    && (forall i :: 0 <= i < |m.procs| ==>
          && LastContext(log, m.procs[i].pid) == Some(m.procs[i].context)
          && OwnDirectory(log, m.procs[i].pid) == Some(m.procs[i].directory)
          && Running(log, m.procs[i].pid) == (i == m.cur))
    && (forall k :: 0 <= k < |log| ==> PidOf(log[k]) < m.pidCounter)
  }

  function PidOf(e: Entry): nat {
    match e
    case Saved(p, _) => p
    case Created(_, p, _, _) => p
    case Resumed(p, _, _) => p
  }

  /** A resumption loads the context last saved and the process's own directory, and resumes a process that
      was not running; only the running process saves or forks; a created process is new. */
  ghost predicate FaithfulEntry(before: seq<Entry>, e: Entry) {
    match e
    case Resumed(p, c, d) =>
      LastContext(before, p) == Some(c) && OwnDirectory(before, p) == Some(d) && !Running(before, p)
    case Saved(p, _) => Running(before, p)
    case Created(parent, p, _, _) =>
      (forall k :: 0 <= k < |before| ==> PidOf(before[k]) != p) && (parent != 0 ==> Running(before, parent))
  }

  ghost predicate Faithful(log: seq<Entry>) {
    forall k :: 0 <= k < |log| ==> FaithfulEntry(log[..k], log[k])
  }

  lemma {:induction false} FaithfulAppend(log: seq<Entry>, e: Entry)
    requires Faithful(log) && FaithfulEntry(log, e)
    ensures Faithful(log + [e])
  {
    var log' := log + [e];
    forall k | 0 <= k < |log'| ensures FaithfulEntry(log'[..k], log'[k]) {
      assert log'[..k] == log[..k];
    }
  }

  lemma {:induction false} Append(log: seq<Entry>, e: Entry)
    ensures (log + [e])[..|log + [e]| - 1] == log && (log + [e])[|log + [e]| - 1] == e
  {
  }

  lemma {:induction false} SwitchExplained(log: seq<Entry>, m: Machine, c: Context)
    requires Explains(log, m) && Faithful(log)
    ensures Explains(log + StepLog(m, Switch(c)), Switched(m, c)) && Faithful(log + StepLog(m, Switch(c)))
  {
    var m' := Switched(m, c);
    var p := m'.procs[m'.cur];
    var saved, resumed := Saved(m.procs[m.cur].pid, c), Resumed(p.pid, p.context, p.directory);
    Append(log, saved);
    Append(log + [saved], resumed);
    assert log + StepLog(m, Switch(c)) == log + [saved] + [resumed];
    assert Running(log, m.procs[m.cur].pid);
    FaithfulAppend(log, saved);
    assert m'.procs[m'.cur].pid == m.procs[m'.cur].pid && m.procs[m'.cur].directory == p.directory;
    assert FaithfulEntry(log + [saved], resumed);
    FaithfulAppend(log + [saved], resumed);
    forall i | 0 <= i < |m'.procs|
      ensures LastContext(log + [saved] + [resumed], m'.procs[i].pid) == Some(m'.procs[i].context)
      ensures OwnDirectory(log + [saved] + [resumed], m'.procs[i].pid) == Some(m'.procs[i].directory)
      ensures Running(log + [saved] + [resumed], m'.procs[i].pid) == (i == m'.cur)
    {
      assert m'.procs[i].pid == m.procs[i].pid;
      assert i < m.cur ==> m.procs[i].pid < m.procs[m.cur].pid;
      assert i > m.cur ==> m.procs[m.cur].pid < m.procs[i].pid;
    }
  }

  lemma {:induction false} ForkExplained(log: seq<Entry>, m: Machine, c: Context, d: u32)
    requires Explains(log, m) && Faithful(log)
    ensures Explains(log + StepLog(m, Fork(c, d)), Forked(m, c, d)) && Faithful(log + StepLog(m, Fork(c, d)))
  {
    var created := Created(m.procs[m.cur].pid, m.pidCounter, c, d);
    Append(log, created);
    NotMentioned(log, m.pidCounter);
    assert Running(log, m.procs[m.cur].pid);
    FaithfulAppend(log, created);
  }

  lemma {:induction false} Joined(a: seq<Entry>, b: seq<Entry>, c: seq<Entry>)
    ensures a + (b + c) == a + b + c
  {
  }

  /** Over every run of switches and forks, a dispatched process gets back the context it last saved
      and its own directory, and the log goes on explaining the machine. */
  lemma {:induction false} RunFaithful(log: seq<Entry>, m: Machine, es: seq<Event>)
    requires Explains(log, m) && Faithful(log)
    ensures Explains(log + RunLog(m, es), RunState(m, es)) && Faithful(log + RunLog(m, es))
    decreases |es|
  {
    if es == [] {
      assert log + RunLog(m, es) == log;
    } else {
      match es[0] {
        case Switch(c) => SwitchExplained(log, m, c);
        case Fork(c, d) => ForkExplained(log, m, c, d);
      }
      var step, next := StepLog(m, es[0]), StepState(m, es[0]);
      RunFaithful(log + step, next, es[1..]);
      Joined(log, step, RunLog(next, es[1..]));
    }
  }

  lemma {:induction false} InitialExplained(directory: u32)
    ensures var log := [Created(0, 1, NO_CONTEXT, directory)];
      Explains(log, Initial(directory)) && Faithful(log)
  {
    var log := [Created(0, 1, NO_CONTEXT, directory)];
    assert log[..0] == [] && Running(log, 1);
  }

  // ---------- fork returns twice ----------

  /** What fork returns where it comes back: the parent is still current, or it is not. */
  function ForkResult(current: nat, parent: nat, child: nat): nat {
    if current == parent then child else 0
  }

  /** Resumption k of pid comes back inside fork: pid has not yet saved a context. */
  predicate ReturnsFromFork(log: seq<Entry>, k: nat, pid: nat) {
    && k < |log| && log[k].Resumed? && log[k].pid == pid
    && forall i :: 0 <= i < k && log[i].Saved? ==> log[i].pid != pid
  }

  /** A process resumed earlier and not running has saved a context since. */
  lemma {:induction false} SavedSince(log: seq<Entry>, i: nat, pid: nat)
    requires Faithful(log) && i < |log| && log[i].Resumed? && log[i].pid == pid && !Running(log, pid)
    ensures exists k :: i < k < |log| && log[k].Saved? && log[k].pid == pid
    decreases |log|
  {
    var last := |log| - 1;
    if !(log[last].Saved? && log[last].pid == pid) {
      assert i < last;
      assert FaithfulEntry(log[..last], log[last]) && log[..last][i] == log[i];
      FaithfulPrefix(log, last);
      SavedSince(log[..last], i, pid);
      var k :| i < k < last && log[..last][k].Saved? && log[..last][k].pid == pid;
      assert log[k].Saved?;
    } else {
      assert i < last;
    }
  }

  lemma {:induction false} FaithfulPrefix(log: seq<Entry>, n: nat)
    requires Faithful(log) && n <= |log|
    ensures Faithful(log[..n])
  {
    forall k | 0 <= k < n ensures FaithfulEntry(log[..n][..k], log[..n][k]) {
      assert log[..n][..k] == log[..k];
      assert FaithfulEntry(log[..k], log[k]);
    }
  }

  /** The child comes back from fork at most once. */
  lemma {:induction false} ChildReturnsOnce(log: seq<Entry>, i: nat, j: nat, pid: nat)
    requires Faithful(log) && ReturnsFromFork(log, i, pid) && ReturnsFromFork(log, j, pid)
    ensures i == j
  {
    if i < j { Twice(log, i, j, pid); }
    if j < i { Twice(log, j, i, pid); }
  }

  lemma {:induction false} Twice(log: seq<Entry>, i: nat, j: nat, pid: nat)
    requires Faithful(log) && ReturnsFromFork(log, i, pid) && i < j < |log| && log[j].Resumed? && log[j].pid == pid
    ensures !ReturnsFromFork(log, j, pid)
  {
    assert FaithfulEntry(log[..j], log[j]);
    FaithfulPrefix(log, j);
    SavedSince(log[..j], i, pid);
    var k :| i < k < j && log[..j][k].Saved? && log[..j][k].pid == pid;
    assert log[k].Saved?;
  }

  /** Before its first resumption a forked process has not run: no context saved, and the last one is fork's. */
  lemma {:induction false} BeforeFirstResumption(log: seq<Entry>, c: nat, pid: nat)
    requires Faithful(log) && c < |log| && log[c].Created? && log[c].pid == pid && log[c].parent != 0
    requires forall i :: 0 <= i < |log| && log[i].Resumed? ==> log[i].pid != pid
    ensures !Running(log, pid) && LastContext(log, pid) == Some(log[c].context)
    ensures OwnDirectory(log, pid) == Some(log[c].directory)
    ensures forall i :: 0 <= i < |log| && log[i].Saved? ==> log[i].pid != pid
    decreases |log|
  {
    var last := |log| - 1;
    assert FaithfulEntry(log[..last], log[last]);
    if last == c {
      FaithfulPrefix(log, last);
      NotMentioned(log[..last], pid);
    } else {
      FaithfulPrefix(log, last);
      assert log[..last][c] == log[c];
      BeforeFirstResumption(log[..last], c, pid);
    }
    forall i | 0 <= i < |log| && log[i].Saved? ensures log[i].pid != pid {
      if i < last { assert log[..last][i] == log[i]; }
    }
  }

  lemma {:induction false} NotMentioned(log: seq<Entry>, pid: nat)
    requires forall k :: 0 <= k < |log| ==> PidOf(log[k]) != pid
    ensures LastContext(log, pid) == None && OwnDirectory(log, pid) == None && !Running(log, pid)
    decreases |log|
  {
    if log != [] { NotMentioned(log[..|log| - 1], pid); }
  }

  /** No process forks itself: the parent was running when the child did not exist. */
  lemma {:induction false} ParentIsOther(log: seq<Entry>, c: nat)
    requires Faithful(log) && c < |log| && log[c].Created? && log[c].parent != 0
    ensures log[c].parent != log[c].pid
    ensures forall k :: 0 <= k < c ==> PidOf(log[k]) != log[c].pid
  {
    assert FaithfulEntry(log[..c], log[c]);
    forall k | 0 <= k < c ensures PidOf(log[k]) != log[c].pid { assert log[..c][k] == log[k]; }
    NotMentioned(log[..c], log[c].pid);
  }

  /** The first time a forked process is dispatched it comes back inside fork, with the registers and the
      directory that fork gave it; fork yields 0 there and the child's pid in the parent. */
  lemma {:induction false} FirstDispatchReturnsZero(log: seq<Entry>, c: nat, k: nat)
    requires Faithful(log) && c < k < |log| && log[c].Created? && log[c].parent != 0
    requires log[k].Resumed? && log[k].pid == log[c].pid
    requires forall i :: 0 <= i < k && log[i].Resumed? ==> log[i].pid != log[c].pid
    ensures ReturnsFromFork(log, k, log[c].pid) && log[k].context == log[c].context
    ensures log[k].directory == log[c].directory
    ensures ForkResult(log[k].pid, log[c].parent, log[c].pid) == 0
    ensures ForkResult(log[c].parent, log[c].parent, log[c].pid) == log[c].pid
  {
    ParentIsOther(log, c);
    FaithfulPrefix(log, k);
    assert log[..k][c] == log[c] && FaithfulEntry(log[..k], log[k]);
    BeforeFirstResumption(log[..k], c, log[c].pid);
    forall i | 0 <= i < k && log[i].Saved? ensures log[i].pid != log[c].pid { assert log[..k][i] == log[i]; }
  }

  // ---------- Round robin ----------

  function Switches(es: seq<Event>): nat {
    if es == [] then 0 else (if es[0].Switch? then 1 else 0) + Switches(es[1..])
  }

  /** Without forks, k switches move the current position k places around the list. */
  lemma {:induction false} RoundRobin(m: Machine, es: seq<Event>)
    requires Valid(m) && Forks(es) == 0
    ensures RunState(m, es).cur == (m.cur + Switches(es)) % |m.procs|
    decreases |es|
  {
    Around(m, es);
    AroundIs(m.cur, Switches(es), |m.procs|);
  }

  /** k steps around a list of length n from place c. */
  function Walk(c: nat, k: nat, n: nat): nat
    decreases k
  {
    if k == 0 then c else Walk(if c + 1 < n then c + 1 else 0, k - 1, n)
  }

  lemma {:induction false} Around(m: Machine, es: seq<Event>)
    requires Valid(m) && Forks(es) == 0
    ensures RunState(m, es).cur == Walk(m.cur, Switches(es), |m.procs|)
    decreases |es|
  {
    if es != [] {
      StepValid(m, es[0]);
      Around(StepState(m, es[0]), es[1..]);
    }
  }

  lemma {:induction false} AroundIs(c: nat, k: nat, n: nat)
    requires c < n
    ensures Walk(c, k, n) == (c + k) % n
    decreases k
  {
    if k == 0 {
      Small(c, n);
    } else {
      var c' := if c + 1 < n then c + 1 else 0;
      AroundIs(c', k - 1, n);
      if c + 1 == n { ModAdd(k - 1, n); } else { assert c' + (k - 1) == c + k; }
    }
  }

  lemma {:induction false} Small(c: nat, n: nat)
    requires c < n
    ensures c % n == c
  {
  }

  lemma {:induction false} ModAdd(k: nat, n: nat)
    requires 0 < n
    ensures (n + k) % n == k % n
  {
    var q, q' := k / n, (n + k) / n;
    var d := q' - q - 1;
    assert n * d == n * q' - n * q - n;
    Multiple(n, d);
  }

  lemma {:induction false} Multiple(n: int, a: int)
    requires 0 < n
    ensures a > 0 ==> n * a >= n
    ensures a < 0 ==> n * a <= -n
    decreases if a < 0 then -a else a
  {
    if a > 1 {
      Multiple(n, a - 1);
      assert n * a == n * (a - 1) + n;
    } else if a < -1 {
      Multiple(n, a + 1);
      assert n * a == n * (a + 1) - n;
    }
  }

  /** Switches until the process at place q is dispatched, if no process is added. */
  function Distance(m: Machine, q: nat): int {
    if q > m.cur then q - m.cur else |m.procs| - m.cur + q
  }

  /** With n processes at the start, every one of them is dispatched once the switches
      outnumber n by the forks made meanwhile. */
  lemma {:induction false} EveryoneIsDispatched(m: Machine, es: seq<Event>, q: nat)
    requires Valid(m) && q < |m.procs| && Switches(es) >= |m.procs| + Forks(es)
    ensures exists k :: 0 <= k < |RunLog(m, es)| && RunLog(m, es)[k].Resumed? && RunLog(m, es)[k].pid == m.procs[q].pid
  {
    DispatchedWithin(m, es, q);
  }

  lemma {:induction false} DispatchedWithin(m: Machine, es: seq<Event>, q: nat)
    requires Valid(m) && q < |m.procs| && Switches(es) >= Distance(m, q) + Forks(es)
    ensures exists k :: 0 <= k < |RunLog(m, es)| && RunLog(m, es)[k].Resumed? && RunLog(m, es)[k].pid == m.procs[q].pid
    decreases |es|
  {
    if es != [] {
      StepValid(m, es[0]);
      var m', first := StepState(m, es[0]), StepLog(m, es[0]);
      if es[0].Switch? && Next(m) == q {
        assert RunLog(m, es)[1] == first[1];
      } else {
        DispatchedWithin(m', es[1..], q);
        var rest := RunLog(m', es[1..]);
        var k :| 0 <= k < |rest| && rest[k].Resumed? && rest[k].pid == m'.procs[q].pid;
        assert RunLog(m, es)[|first| + k] == rest[k];
      }
    }
  }

  // ---------- Every fork returns twice ----------

  lemma {:induction false} RunSplit(m: Machine, first: seq<Event>, rest: seq<Event>)
    requires Valid(m)
    ensures Valid(RunState(m, first))
    ensures RunState(m, first + rest) == RunState(RunState(m, first), rest)
    ensures RunLog(m, first + rest) == RunLog(m, first) + RunLog(RunState(m, first), rest)
    decreases |first|
  {
    if first == [] {
      assert first + rest == rest;
    } else {
      StepValid(m, first[0]);
      assert (first + rest)[1..] == first[1..] + rest;
      RunSplit(StepState(m, first[0]), first[1..], rest);
    }
  }

  lemma {:induction false} RunFork(m: Machine, c: Context, d: u32, rest: seq<Event>)
    requires Valid(m) && Valid(Forked(m, c, d))
    ensures RunLog(m, [Fork(c, d)] + rest)
         == [Created(m.procs[m.cur].pid, m.pidCounter, c, d)] + RunLog(Forked(m, c, d), rest)
  {
    assert ([Fork(c, d)] + rest)[1..] == rest;
  }

  /** The first resumption of a process. */
  lemma {:induction false} FirstResumption(log: seq<Entry>, pid: nat, k: nat) returns (i: nat)
    requires k < |log| && log[k].Resumed? && log[k].pid == pid
    ensures i <= k && log[i].Resumed? && log[i].pid == pid
    ensures forall j :: 0 <= j < i && log[j].Resumed? ==> log[j].pid != pid
  {
    i := 0;
    while !(log[i].Resumed? && log[i].pid == pid)
      invariant i <= k && forall j :: 0 <= j < i && log[j].Resumed? ==> log[j].pid != pid
      decreases k - i
    {
      i := i + 1;
    }
  }

  /** There is exactly one return from fork in the child, with context c and directory d. */
  ghost predicate ReturnsOnce(log: seq<Entry>, pid: nat, c: Context, d: u32) {
    exists k: nat :: ReturnsFromFork(log, k, pid) && log[k].context == c && log[k].directory == d
                     && forall j: nat :: ReturnsFromFork(log, j, pid) ==> j == k
  }

  lemma {:induction false} DispatchedReturnsOnce(log: seq<Entry>, c: nat, q: nat)
    requires Faithful(log) && c < q < |log| && log[c].Created? && log[c].parent != 0
    requires log[q].Resumed? && log[q].pid == log[c].pid
    ensures ReturnsOnce(log, log[c].pid, log[c].context, log[c].directory)
    ensures log[c].parent != log[c].pid
  {
    ParentIsOther(log, c);
    var pid := log[c].pid;
    var k := FirstResumption(log, pid, q);
    assert c < k;
    FirstDispatchReturnsZero(log, c, k);
    forall j: nat | ReturnsFromFork(log, j, pid) ensures j == k { ChildReturnsOnce(log, j, k, pid); }
  }

  /** In every run, whatever came before it: a fork followed by as many switches as there are then processes, and
      one more for each fork after it, comes back in the child exactly once, with the registers and the directory
      that it was given. It yields 0 there and the child's pid in the parent. */
  lemma {:induction false} ForkReturnsTwice(before: seq<Entry>, m: Machine, first: seq<Event>, c: Context, d: u32,
                                            rest: seq<Event>)
    requires Explains(before, m) && Faithful(before)
    requires Switches(rest) >= |RunState(m, first).procs| + 1 + Forks(rest)
    ensures Valid(RunState(m, first))
    ensures var log, m1 := before + RunLog(m, first + ([Fork(c, d)] + rest)), RunState(m, first);
      var parent, child := m1.procs[m1.cur].pid, m1.pidCounter;
      && ReturnsOnce(log, child, c, d)
      && ForkResult(parent, parent, child) == child && ForkResult(child, parent, child) == 0
  {
    var m1, head := RunState(m, first), before + RunLog(m, first);
    RunSplit(m, first, [Fork(c, d)] + rest);
    StepValid(m1, Fork(c, d));
    var created, tail := Created(m1.procs[m1.cur].pid, m1.pidCounter, c, d), RunLog(Forked(m1, c, d), rest);
    assert before + RunLog(m, first + ([Fork(c, d)] + rest)) == head + ([created] + tail) by {
      RunFork(m1, c, d, rest);
      Regroup(before, RunLog(m, first), [created] + tail);
    }
    RunFaithful(before, m, first + ([Fork(c, d)] + rest));
    EveryoneIsDispatched(Forked(m1, c, d), rest, |m1.procs|);
    CreatedReturnsOnce(head, created, tail);
  }

  lemma {:induction false} CreatedReturnsOnce(head: seq<Entry>, e: Entry, tail: seq<Entry>)
    requires Faithful(head + ([e] + tail)) && e.Created? && e.parent != 0
    requires exists q :: 0 <= q < |tail| && tail[q].Resumed? && tail[q].pid == e.pid
    ensures ReturnsOnce(head + ([e] + tail), e.pid, e.context, e.directory) && e.parent != e.pid
  {
    var log := head + ([e] + tail);
    var q :| 0 <= q < |tail| && tail[q].Resumed? && tail[q].pid == e.pid;
    assert log[|head|] == e && log[|head| + 1 + q] == tail[q];
    DispatchedReturnsOnce(log, |head|, |head| + 1 + q);
  }

  lemma {:induction false} Regroup(a: seq<Entry>, b: seq<Entry>, c: seq<Entry>)
    ensures a + (b + c) == (a + b) + c
  {
  }
}
