/**
  The process queue and the scheduler as objects: a singly linked list that only
  grows at its end (source/utils/linked_list.cpp:10-56), and switchTask and fork
  over it (source/process.cpp:24-60, 84-209). Registers are plain values.
 */
module Processes {
  import opened Bytes
  import opened Scheduling

  const DUMMY_EIP: u32 := 0xABC123

  class SNode<T> {
    var data_: T
    var next_: SNode?<T>

    constructor (data: T)
      ensures data_ == data && next_ == null
    {
      data_, next_ := data, null;
    }
  }

  class SLinkedList<T> {
    var first_: SNode?<T>
    var last_: SNode?<T>
    ghost var nodes: seq<SNode<T>>

    ghost predicate Valid()
      reads this, nodes
    {
      && (forall i, j :: 0 <= i < j < |nodes| ==> nodes[i] != nodes[j])
      && (forall i {:trigger nodes[i].next_} :: 0 <= i < |nodes| ==>
            nodes[i].next_ == if i + 1 < |nodes| then nodes[i + 1] else null)
      && first_ == (if nodes == [] then null else nodes[0])
      && last_ == (if nodes == [] then null else nodes[|nodes| - 1])
    }

    ghost function Contents(): seq<T>
      reads this, nodes
    {
      seq(|nodes|, i requires 0 <= i < |nodes| reads this, nodes => nodes[i].data_)
    }

    constructor ()
      ensures Valid() && nodes == []
    {
      first_, last_, nodes := null, null, [];
    }

    method PushBack(data: T)
      requires Valid()
      modifies this, nodes
      ensures Valid() && |nodes| == |old(nodes)| + 1 && nodes[..|old(nodes)|] == old(nodes)
      ensures fresh(nodes[|old(nodes)|])
      ensures Contents() == old(Contents()) + [data]
      ensures forall i :: 0 <= i < |old(nodes)| ==> nodes[i].data_ == old(nodes[i].data_)
    {
      var node := new SNode<T>(data);
      if first_ == null {
        first_ := node;
        last_ := first_;
      } else {
        last_.next_ := node;
        last_ := last_.next_;
        last_.next_ := null;
      }
      nodes := nodes + [node];
    }
  }

  class Sheduler {
    const processList_: SLinkedList<Process>
    var currentProcess_: SNode?<Process>
    var pidCounter_: nat
    var currentPageDirectory_: u32  // pmmu's
    var loaded: u32                 // the directory whose physical address is in CR3
    ghost var cur: nat

    ghost function Abstract(): Machine
      reads this, processList_, processList_.nodes
    {
      Machine(processList_.Contents(), cur, pidCounter_)
    }

    /** Before Initialize the list is empty; from then on the loaded directory is the current process's own. */
    ghost predicate Valid()
      reads this, processList_, processList_.nodes
    {
      && processList_.Valid()
      && (processList_.nodes == [] ==> currentProcess_ == null)
      && (processList_.nodes != [] ==>
            && Scheduling.Valid(Abstract()) && currentProcess_ == processList_.nodes[cur]
            && currentPageDirectory_ == loaded == Abstract().procs[cur].directory)
    }

    constructor (directory: u32)
      ensures Valid() && processList_.nodes == [] && fresh(processList_)
      ensures currentPageDirectory_ == loaded == directory && pidCounter_ == 1
    {
      processList_ := new SLinkedList<Process>();
      currentProcess_, pidCounter_, cur := null, 1, 0;
      currentPageDirectory_, loaded := directory, directory;
    }

    /** The code that runs becomes the first process. */
    method Initialize()
      requires Valid() && processList_.nodes == [] && currentPageDirectory_ == loaded
      modifies this, processList_
      ensures Valid() && Abstract() == Initial(old(currentPageDirectory_))
      ensures |processList_.nodes| == 1 && fresh(processList_.nodes[0]) && currentProcess_ == processList_.nodes[0]
      ensures processList_.nodes[0].data_ == Process(1, NO_CONTEXT, old(currentPageDirectory_)) && pidCounter_ == 2
    {
      pidCounter_ := 1;
      var process := Process(pidCounter_, NO_CONTEXT, currentPageDirectory_);
      pidCounter_ := pidCounter_ + 1;
      processList_.PushBack(process);
      currentProcess_ := processList_.last_;
      cur := 0;
      assert processList_.Contents() == [process];
    }

    /** The registers of the current process go into its node. */
    method SaveRegisters(c: Context)
      requires Valid() && currentProcess_ != null
      modifies processList_.nodes
      ensures processList_.Valid() && Abstract() == SaveContext(old(Abstract()), c)
    {
      ghost var m := Abstract();
      currentProcess_.data_ := currentProcess_.data_.(context := c);
      assert processList_.Contents() == SaveContext(m, c).procs;
    }

    /** Called with the caller's registers and what get_eip delivered: DUMMY_EIP for a process that
        comes back here after a switch, which then just returns. Otherwise the result is what the
        processor continues with. */
    method SwitchTask(eip: u32, esp: u32, ebp: u32) returns (resumed: Option<Context>)
      requires Valid()
      modifies this, processList_.nodes
      ensures Valid() && processList_.nodes == old(processList_.nodes)
      ensures old(currentProcess_) == null || eip == DUMMY_EIP ==>
                resumed == None && Abstract() == old(Abstract()) && currentProcess_ == old(currentProcess_)
      ensures old(currentProcess_) != null && eip != DUMMY_EIP ==>
        var m, c := old(Abstract()), Context(eip, esp, ebp);
        && Abstract() == Switched(m, c)
        && resumed.Some?
        && StepLog(m, Switch(c))
           == [Saved(m.procs[m.cur].pid, c), Resumed(Abstract().procs[cur].pid, resumed.value, loaded)]
    {
      if currentProcess_ == null { return None; }
      if eip == DUMMY_EIP { return None; }
      ghost var m, c := Abstract(), Context(eip, esp, ebp);
      SaveRegisters(Context(eip, esp, ebp));
      assert currentProcess_ == processList_.nodes[m.cur];
      currentProcess_ := currentProcess_.next_;
      if currentProcess_ == null {
        currentProcess_ := processList_.first_;
      }
      cur := Next(m);
      assert currentProcess_ == processList_.nodes[cur] && processList_.Contents()[cur] == currentProcess_.data_;
      StepValid(m, Switch(c));
      resumed := Some(currentProcess_.data_.context);
      currentPageDirectory_ := currentProcess_.data_.directory;
      loaded := currentPageDirectory_;
      assert Abstract() == Switched(m, c);
    }

    /** fork up to the call of get_eip: pDir is the clone of the current directory. */
    method StartFork(pDir: u32) returns (parentProc: SNode?<Process>, childProc: Process)
      requires Valid() && processList_.nodes != []
      modifies this`pidCounter_
      ensures Valid() && parentProc == currentProcess_ && childProc == Process(old(pidCounter_), NO_CONTEXT, pDir)
      ensures Abstract() == old(Abstract()).(pidCounter := old(pidCounter_) + 1)
    {
      parentProc := currentProcess_;
      childProc := Process(pidCounter_, NO_CONTEXT, pDir);
      pidCounter_ := pidCounter_ + 1;
      assert processList_.Contents() == old(processList_.Contents());
    }

    /** fork from get_eip on, which is executed once by the parent and once by the child, each with its
        own copy of the local variables: it queues the child in the one and returns 0 in the other. */
    method FinishFork(parentProc: SNode?<Process>, childProc: Process, eip: u32, esp: u32, ebp: u32) returns (pid: nat)
      requires Valid() && parentProc in processList_.nodes
      requires currentProcess_ == parentProc ==>
                 childProc.pid + 1 == pidCounter_ && forall p :: p in Abstract().procs ==> p.pid < childProc.pid
      modifies this, processList_, processList_.nodes
      ensures Valid() && currentProcess_ == old(currentProcess_) && currentPageDirectory_ == old(currentPageDirectory_)
      ensures old(processList_.nodes) <= processList_.nodes
      ensures forall i :: |old(processList_.nodes)| <= i < |processList_.nodes| ==> fresh(processList_.nodes[i])
      ensures pid == ForkResult(old(currentProcess_.data_.pid), old(parentProc.data_.pid), childProc.pid)
      ensures old(currentProcess_) != parentProc ==> pid == 0 && Abstract() == old(Abstract())
      ensures old(currentProcess_) == parentProc ==>
                pid == childProc.pid && cur == old(cur) && pidCounter_ == old(pidCounter_)
      ensures old(currentProcess_) == parentProc ==>
                Abstract().procs == old(Abstract()).procs + [childProc.(context := Context(eip, esp, ebp))]
    {
      ghost var i :| 0 <= i < |processList_.nodes| && processList_.nodes[i] == parentProc;
      assert processList_.Contents()[i].pid == parentProc.data_.pid;
      assert processList_.Contents()[cur].pid == currentProcess_.data_.pid;
      if currentProcess_ == parentProc {
        ghost var m := Abstract();
        processList_.PushBack(childProc.(context := Context(eip, esp, ebp)));
        assert forall i :: 0 <= i < |m.procs| ==> m.procs[i] in m.procs;
        pid := childProc.pid;
      } else {
        pid := 0;
      }
    }

    /** fork as the parent sees it, with the local variables of which the child has a copy. */
    method Fork(pDir: u32, eip: u32, esp: u32, ebp: u32)
      returns (pid: nat, parentProc: SNode<Process>, childProc: Process)
      requires Valid() && processList_.nodes != []
      modifies this, processList_, processList_.nodes
      ensures Valid() && pid == old(pidCounter_) && currentProcess_ == old(currentProcess_)
      ensures old(processList_.nodes) <= processList_.nodes
      ensures forall i :: |old(processList_.nodes)| <= i < |processList_.nodes| ==> fresh(processList_.nodes[i])
      ensures Abstract() == Forked(old(Abstract()), Context(eip, esp, ebp), pDir)
      ensures parentProc == old(currentProcess_) == processList_.nodes[old(cur)]
    {
      ghost var m := Abstract();
      parentProc, childProc := StartFork(pDir);
      assert forall p :: p in m.procs ==> p.pid < m.pidCounter;
      pid := FinishFork(parentProc, childProc, eip, esp, ebp);
    }
  }

  /** No process comes to a switch with the value that means that it has just been switched to. */
  predicate Proper(es: seq<Event>) {
    forall i :: 0 <= i < |es| && es[i].Switch? ==> es[i].context.eip != DUMMY_EIP
  }

  /** A run of switches and forks is the machine's; the nodes of the queue stay where they are, and the forks return
      one number after the other. */
  method Perform(sh: Sheduler, es: seq<Event>) returns (pids: seq<nat>)
    requires sh.Valid() && sh.processList_.nodes != [] && Proper(es)
    modifies sh, sh.processList_, sh.processList_.nodes
    ensures sh.Valid() && sh.Abstract() == RunState(old(sh.Abstract()), es)
    ensures old(sh.processList_.nodes) <= sh.processList_.nodes
    ensures forall i :: |old(sh.processList_.nodes)| <= i < |sh.processList_.nodes| ==> fresh(sh.processList_.nodes[i])
    ensures |pids| == Forks(es) && forall k :: 0 <= k < |pids| ==> pids[k] == old(sh.pidCounter_) + k
    decreases |es|
  {
    if es == [] { return []; }
    pids := [];
    match es[0] {
      case Switch(c) => var resumed := sh.SwitchTask(c.eip, c.esp, c.ebp);
      case Fork(c, d) =>
        var pid, parent, child := sh.Fork(d, c.eip, c.esp, c.ebp);
        pids := [pid];
    }
    var rest := Perform(sh, es[1..]);
    pids := pids + rest;
  }

  /** Any run from the start of the system: process i + 1 stands at place i, and the k-th fork, counted from 1,
      returns k + 1. */
  method PerformFromStart(directory: u32, es: seq<Event>) returns (sh: Sheduler, pids: seq<nat>)
    requires Proper(es)
    ensures sh.Valid() && |sh.processList_.nodes| == 1 + Forks(es) && sh.pidCounter_ == |sh.processList_.nodes| + 1
    ensures forall i :: 0 <= i < |sh.processList_.nodes| ==> sh.processList_.nodes[i].data_.pid == i + 1
    ensures |pids| == Forks(es) && forall k :: 0 <= k < |pids| ==> pids[k] == k + 2
    ensures sh.processList_.nodes[0].data_.directory == directory
  {
    sh := new Sheduler(directory);
    sh.Initialize();
    ghost var m := sh.Abstract();
    RunNumbered(m, es);
    PlaceKept(m, es, 0);
    pids := Perform(sh, es);
    assert forall i :: 0 <= i < |sh.processList_.nodes| ==>
             sh.Abstract().procs[i] == sh.processList_.nodes[i].data_;
  }

  /** fork to its end in both processes: the parent's part at once, and the child's whenever a run has brought it
      to the processor. Each has its own copy of the two local variables. */
  method ForkInBoth(sh: Sheduler, pDir: u32, c: Context, es: seq<Event>) returns (inParent: nat, inChild: nat)
    requires sh.Valid() && sh.processList_.nodes != [] && Proper(es)
    requires RunState(Forked(sh.Abstract(), c, pDir), es).cur == |sh.Abstract().procs|
    modifies sh, sh.processList_, sh.processList_.nodes
    ensures sh.Valid() && sh.Abstract() == RunState(Forked(old(sh.Abstract()), c, pDir), es)
    ensures inParent == old(sh.pidCounter_) && inChild == 0
  {
    ghost var parent := sh.cur;
    var parentProc, childProc;
    inParent, parentProc, childProc := sh.Fork(pDir, c.eip, c.esp, c.ebp);
    var pids := Perform(sh, es);
    assert sh.processList_.nodes[parent] == parentProc;
    inChild := sh.FinishFork(parentProc, childProc, DUMMY_EIP, 0, 0);
  }
}
