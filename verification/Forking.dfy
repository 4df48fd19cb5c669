/**
  fork as a whole: the directory clone and the new process together
  (source/process.cpp:161-209), and what keeps the processes' memories apart
  over every run of forks and switches.
 */
module Forking {
  import opened Bytes
  import opened Frames
  import opened AddressSpaces
  import opened Paging
  import Scheduling
  import opened Processes

  /** Every process has a directory of its own. */
  ghost predicate Apart(m: Scheduling.Machine, s: Space) {
    && (forall i :: 0 <= i < |m.procs| ==> m.procs[i].directory in s.dirs)
    && (forall i, j :: 0 <= i < j < |m.procs| ==> m.procs[i].directory != m.procs[j].directory)
  }

  lemma {:induction false} SwitchKeepsApart(m: Scheduling.Machine, c: Scheduling.Context, s: Space)
    requires Scheduling.Valid(m) && Apart(m, s)
    ensures Apart(Scheduling.Switched(m, c), s)
  {
    var m' := Scheduling.Switched(m, c);
    assert forall i :: 0 <= i < |m.procs| ==> m'.procs[i].directory == m.procs[i].directory;
  }

  lemma {:induction false} ForkKeepsApart(m: Scheduling.Machine, c: Scheduling.Context, pDir: u32, s: Space, s': Space)
    requires Scheduling.Valid(m) && Apart(m, s) && s.dirs.Keys <= s'.dirs.Keys && pDir in s'.dirs && pDir !in s.dirs
    ensures Apart(Scheduling.Forked(m, c, pDir), s')
  {
    var m' := Scheduling.Forked(m, c, pDir);
    forall i | 0 <= i < |m.procs| ensures m'.procs[i] == m.procs[i] && m.procs[i].directory in s.dirs {}
  }

  /** At every address where the old directory reads a word the new one reads the same, except in pages on frame 0
      that the old one has for itself: they are empty. */
  ghost predicate SameWords(s0: Space, ram0: seq<FrameData>, src: u32, s: Space, ram: seq<FrameData>, d: u32)
    requires WellShaped(s0) && src in s0.dirs
  {
    forall va: u32 {:trigger WordAt(s0, ram0, src, va)} :: WordAt(s0, ram0, src, va).Some? ==>
      WordAt(s, ram, d, va) ==
      if IsPrivate(s0, src, TableIndex(va)) && OnZero(s0, src, va) then None else WordAt(s0, ram0, src, va)
  }

  lemma {:induction false} CloneSameWords(s0: Space, src: u32, s: Space, pDir: u32, home: map<u32, (u32, nat)>,
                                          words0: seq<Word>, words: seq<Word>, ram0: seq<FrameData>,
                                          ram: seq<FrameData>)
    requires pDir in s.dirs
    requires DirProgress(s0, src, s.(dirs := s0.dirs), s.dirs[pDir], pDir, home, ENTRIES, words0, words, ram0, ram)
    requires FramesUsed(s0, words0) && PrivateMapped(s0, src, ENTRIES) <= |FreeBelow(words0, |ram|)|
    ensures SameWords(s0, ram0, src, s, ram, pDir)
  {
    forall va: u32 | WordAt(s0, ram0, src, va).Some?
      ensures WordAt(s, ram, pDir, va) ==
        if IsPrivate(s0, src, TableIndex(va)) && OnZero(s0, src, va) then None else WordAt(s0, ram0, src, va)
    {
      CloneSeesSame(s0, src, s, pDir, home, words0, words, ram0, ram, va);
    }
  }

  /** At every address the new directory reads what ReadsShared says. */
  ghost predicate AllShared(s0: Space, ram0: seq<FrameData>, words0: seq<Word>, src: u32, s: Space,
                            ram: seq<FrameData>, d: u32)
    requires WellShaped(s0) && src in s0.dirs
  {
    forall va: u32 {:trigger WordAt(s, ram, d, va)} :: ReadsShared(s0, ram0, words0, src, s, ram, d, va)
  }

  lemma {:induction false} CloneAllShared(s0: Space, src: u32, s: Space, pDir: u32, home: map<u32, (u32, nat)>,
                                          words0: seq<Word>, words: seq<Word>, ram0: seq<FrameData>,
                                          ram: seq<FrameData>)
    requires pDir in s.dirs && WellShaped(s) && FramesUsed(s, words) && |words| == |words0|
    requires DirProgress(s0, src, s.(dirs := s0.dirs), s.dirs[pDir], pDir, home, ENTRIES, words0, words, ram0, ram)
    requires FramesUsed(s0, words0) && FreeBelow(words0, |ram|) == {}
    ensures AllShared(s0, ram0, words0, src, s, ram, pDir)
  {
    forall va: u32 ensures ReadsShared(s0, ram0, words0, src, s, ram, pDir, va) {
      CloneWithoutFrames(s0, src, s, pDir, home, words0, words, ram0, ram, va);
    }
  }

  /** At every mapped page that the old directory has for itself the new one reads the words of the last of them. */
  ghost predicate ReadsLast(s0: Space, ram0: seq<FrameData>, src: u32, s: Space, ram: seq<FrameData>, d: u32)
    requires WellShaped(s0) && src in s0.dirs
  {
    |ram0| == |ram| &&
    forall last: u32, va: u32 {:trigger Entry(s0, src, last), WordAt(s, ram, d, va)} ::
      LastReal(s0, src, last, |ram|) && IsPrivate(s0, src, TableIndex(va))
      && !OnZero(s0, src, va) && Entry(s0, src, va).value.present ==>
        WordAt(s, ram, d, va) == Some(ram0[Entry(s0, src, last).value.frame][va % PAGE / 4])
  }

  lemma {:induction false} CloneReadsLast(s0: Space, src: u32, s: Space, pDir: u32, home: map<u32, (u32, nat)>,
                                          words0: seq<Word>, words: seq<Word>, ram0: seq<FrameData>,
                                          ram: seq<FrameData>)
    requires pDir in s.dirs && WellShaped(s) && FramesUsed(s, words) && |words| == |words0|
    requires DirProgress(s0, src, s.(dirs := s0.dirs), s.dirs[pDir], pDir, home, ENTRIES, words0, words, ram0, ram)
    requires FramesUsed(s0, words0) && IsFirstFree(words0, -1) && |ram| <= WORD * |words0|
    ensures ReadsLast(s0, ram0, src, s, ram, pDir)
  {
    forall last: u32, va: u32 | LastReal(s0, src, last, |ram|) && IsPrivate(s0, src, TableIndex(va))
                                && !OnZero(s0, src, va) && Entry(s0, src, va).value.present
      ensures WordAt(s, ram, pDir, va) == Some(ram0[Entry(s0, src, last).value.frame][va % PAGE / 4])
    {
      ExhaustedClone(s0, src, s, pDir, home, words0, words, ram0, ram, last, va);
    }
  }

  /** There is a free real frame for every page that a clone has to copy. */
  ghost predicate EnoughFrames(s: Space, src: u32, words: seq<Word>, frames: nat) {
    WellShaped(s) && src in s.dirs && PrivateMapped(s, src, ENTRIES) <= |FreeBelow(words, frames)|
  }

  /** Every page of its tables that the new directory had to copy is real memory. */
  ghost predicate Backed(s0: Space, src: u32, s: Space, d: u32, frames: nat) {
    WellShaped(s0) && src in s0.dirs && d in s.dirs && |s.dirs[d].pageTables| == ENTRIES &&
    forall k :: 0 <= k < ENTRIES && IsPrivate(s0, src, k) ==>
      s.dirs[d].pageTables[k] in s.tables
      && AllReal(s0.tables[s0.dirs[src].pageTables[k]], s.tables[s.dirs[d].pageTables[k]], frames)
  }

  /** The directory maps no page through a table of its own. */
  ghost predicate MapsOnlyShared(s: Space, d: u32) {
    WellShaped(s) && d in s.dirs &&
    forall va: u32 :: IsPrivate(s, d, TableIndex(va)) && Entry(s, d, va).Some? ==> Entry(s, d, va).value.frame == 0
  }

  /** When no real frame is free, there are enough of them only for a directory without a page to copy. */
  lemma {:induction false} EnoughOfNone(s: Space, d: u32, words: seq<Word>, frames: nat)
    requires WellShaped(s) && d in s.dirs && FreeBelow(words, frames) == {}
    ensures EnoughFrames(s, d, words, frames) <==> MapsOnlyShared(s, d)
  {
    NothingToCopy(s, d, ENTRIES);
    if MapsOnlyShared(s, d) {
      forall k, j | 0 <= k < ENTRIES && IsPrivate(s, d, k) && 0 <= j < ENTRIES
        ensures s.tables[s.dirs[d].pageTables[k]][j].frame == 0
      {
        var va: u32 := (k * ENTRIES + j) * PAGE;
        assert TableIndex(va) == k && PageIndex(va) == j;
        assert Entry(s, d, va).Some?;
      }
    }
  }

  /** All that is known of a clone d of directory src, made when the bitmap was words0. */
  ghost predicate Copied(s0: Space, ram0: seq<FrameData>, words0: seq<Word>, src: u32, s: Space, ram: seq<FrameData>,
                         d: u32)
  {
    && WellShaped(s0) && src in s0.dirs
    && (Backed(s0, src, s, d, |ram|) <==> EnoughFrames(s0, src, words0, |ram|))
    && (EnoughFrames(s0, src, words0, |ram|) ==> SameWords(s0, ram0, src, s, ram, d))
    && (FreeBelow(words0, |ram|) == {} ==> AllShared(s0, ram0, words0, src, s, ram, d))
    && (IsFirstFree(words0, -1) ==> ReadsLast(s0, ram0, src, s, ram, d))
  }

  lemma {:induction false} CloneCopied(s0: Space, src: u32, s: Space, pDir: u32, home: map<u32, (u32, nat)>,
                                       words0: seq<Word>, words: seq<Word>, ram0: seq<FrameData>, ram: seq<FrameData>)
    requires pDir in s.dirs && WellShaped(s) && FramesUsed(s0, words0) && FramesUsed(s, words)
    requires |words| == |words0| && |ram| <= WORD * |words0|
    requires DirProgress(s0, src, s.(dirs := s0.dirs), s.dirs[pDir], pDir, home, ENTRIES, words0, words, ram0, ram)
    ensures Copied(s0, ram0, words0, src, s, ram, pDir) && forall n :: Used(words0, n) ==> Used(words, n)
  {
    if EnoughFrames(s0, src, words0, |ram|) { CloneSameWords(s0, src, s, pDir, home, words0, words, ram0, ram); }
    if FreeBelow(words0, |ram|) == {} { CloneAllShared(s0, src, s, pDir, home, words0, words, ram0, ram); }
    if IsFirstFree(words0, -1) { CloneReadsLast(s0, src, s, pDir, home, words0, words, ram0, ram); }
  }

  /** A clone of the current directory. */
  method CloneCurrent(pmmu: PagingManagement) returns (pDir: u32)
    requires pmmu.Valid() && PrivateCount(pmmu.space, pmmu.current, ENTRIES) < |pmmu.supply|
    modifies pmmu, pmmu.bitmap.frames_, pmmu.ram
    ensures pmmu.Valid() && pmmu.current == old(pmmu.current)
    ensures old(pmmu.space).dirs.Keys <= pmmu.space.dirs.Keys && pDir in pmmu.space.dirs
    ensures pDir !in old(pmmu.space).dirs
    ensures |old(pmmu.supply)| - |pmmu.supply| == 1 + PrivateCount(old(pmmu.space), old(pmmu.current), ENTRIES)
    ensures KeepsUsed(old(pmmu.bitmap.frames_[..]), pmmu.bitmap.frames_[..])
    ensures Copied(old(pmmu.space), old(pmmu.ram[..]), old(pmmu.bitmap.frames_[..]), old(pmmu.current),
                   pmmu.space, pmmu.ram[..], pDir)
  {
    ghost var s0, words0, ram0, src := pmmu.space, pmmu.bitmap.frames_[..], pmmu.ram[..], pmmu.current;
    OwnedUsed(s0, pmmu.owner, words0);
    ghost var list, copied := pmmu.supply, PrivateCount(s0, src, ENTRIES);
    pDir := pmmu.ClonePageDirectory(0);
    assert |pmmu.supply| == |list| - 1 - copied;
    OwnedUsed(pmmu.space, pmmu.owner, pmmu.bitmap.frames_[..]);
    CloneCopied(s0, src, pmmu.space, pDir, pmmu.home, words0, pmmu.bitmap.frames_[..], ram0, pmmu.ram[..]);
  }

  /** The parent's whole fork. The child's directory is new; it reads as the parent's did when there were enough
      free frames, and when there was none it reads at the parent's own pages what frame 0 holds, if anything. */
  method Fork(pmmu: PagingManagement, sheduler: Sheduler, eip: u32, esp: u32, ebp: u32) returns (pid: nat, pDir: u32)
    requires pmmu.Valid() && sheduler.Valid() && sheduler.processList_.nodes != []
    requires pmmu.current == sheduler.currentPageDirectory_ && Apart(sheduler.Abstract(), pmmu.space)
    requires PrivateCount(pmmu.space, pmmu.current, ENTRIES) < |pmmu.supply|
    modifies pmmu, pmmu.bitmap.frames_, pmmu.ram, sheduler, sheduler.processList_, sheduler.processList_.nodes
    ensures pmmu.Valid() && sheduler.Valid() && pmmu.current == sheduler.currentPageDirectory_
    ensures Apart(sheduler.Abstract(), pmmu.space) && pid == old(sheduler.pidCounter_)
    ensures sheduler.Abstract() == Scheduling.Forked(old(sheduler.Abstract()), Scheduling.Context(eip, esp, ebp), pDir)
    ensures old(sheduler.processList_.nodes) <= sheduler.processList_.nodes
    ensures forall i :: |old(sheduler.processList_.nodes)| <= i < |sheduler.processList_.nodes| ==>
              fresh(sheduler.processList_.nodes[i])
    ensures |old(pmmu.supply)| - |pmmu.supply| == 1 + PrivateCount(old(pmmu.space), old(pmmu.current), ENTRIES)
    ensures KeepsUsed(old(pmmu.bitmap.frames_[..]), pmmu.bitmap.frames_[..])
    ensures Copied(old(pmmu.space), old(pmmu.ram[..]), old(pmmu.bitmap.frames_[..]), old(pmmu.current),
                   pmmu.space, pmmu.ram[..], pDir)
  {
    ghost var s0, m := pmmu.space, sheduler.Abstract();
    pDir := CloneCurrent(pmmu);
    assert sheduler.Abstract() == m;
    ForkKeepsApart(m, Scheduling.Context(eip, esp, ebp), pDir, s0, pmmu.space);
    var parentProc, childProc;
    pid, parentProc, childProc := sheduler.Fork(pDir, eip, esp, ebp);
  }

  /** switchTask with the one variable that both components call the current directory; cr3 is what it loads. */
  method Switch(pmmu: PagingManagement, sheduler: Sheduler, eip: u32, esp: u32, ebp: u32)
    returns (resumed: Option<Scheduling.Context>, cr3: u32)
    requires pmmu.Valid() && sheduler.Valid() && sheduler.processList_.nodes != [] && eip != DUMMY_EIP
    requires Apart(sheduler.Abstract(), pmmu.space)
    modifies pmmu`current, sheduler, sheduler.processList_.nodes
    ensures pmmu.Valid() && sheduler.Valid() && pmmu.current == sheduler.currentPageDirectory_
    ensures sheduler.Abstract() == Scheduling.Switched(old(sheduler.Abstract()), Scheduling.Context(eip, esp, ebp))
    ensures Apart(sheduler.Abstract(), pmmu.space) && resumed.Some?
    ensures pmmu.current == sheduler.Abstract().procs[sheduler.cur].directory
    ensures Translates(pmmu.space, cr3, pmmu.current)
    ensures sheduler.processList_.nodes == old(sheduler.processList_.nodes)
  {
    ghost var m := sheduler.Abstract();
    SwitchKeepsApart(m, Scheduling.Context(eip, esp, ebp), pmmu.space);
    resumed := sheduler.SwitchTask(eip, esp, ebp);
    cr3 := pmmu.SwitchPaging(sheduler.currentPageDirectory_);
  }

  // ---------- Runs ----------

  /** A process calls fork, or loses the processor; the context is what is saved of it. */
  datatype Request = CallFork(context: Scheduling.Context) | SwitchAway(context: Scheduling.Context)

  function Forks(rs: seq<Request>): nat {
    if rs == [] then 0 else Forks(rs[1..]) + if rs[0].CallFork? then 1 else 0
  }

  /** A clone that was made: directory d of s, of directory src as it was in s0, with the memories of the two
      moments and the bitmap of the first. */
  datatype Clone = Clone(s0: Space, ram0: seq<FrameData>, words0: seq<Word>, src: u32,
                         s: Space, ram: seq<FrameData>, d: u32)

  /** The event of a request in state m. A fork's clone is made of the directory of the process that forks, when
      every frame of words was busy still. */
  ghost predicate Answers(r: Request, e: Scheduling.Event, c: Clone, m: Scheduling.Machine, words: seq<Word>,
                          frames: nat)
  {
    match r
    case SwitchAway(context) => e == Scheduling.Switch(context)
    case CallFork(context) =>
      && e == Scheduling.Fork(context, c.d) && m.cur < |m.procs| && c.src == m.procs[m.cur].directory
      && |c.ram| == frames && KeepsUsed(words, c.words0)
      && Copied(c.s0, c.ram0, c.words0, c.src, c.s, c.ram, c.d)
  }

  /** The same for a run of them. */
  ghost predicate RunAnswers(rs: seq<Request>, es: seq<Scheduling.Event>, cs: seq<Clone>, m: Scheduling.Machine,
                             words: seq<Word>, frames: nat)
    requires Scheduling.Valid(m)
    decreases |rs|
  {
    && |rs| == |es| == |cs|
    && (rs != [] ==>
          && Answers(rs[0], es[0], cs[0], m, words, frames)
          && (Scheduling.StepValid(m, es[0]);
              RunAnswers(rs[1..], es[1..], cs[1..], Scheduling.StepState(m, es[0]), words, frames)))
  }

  lemma {:induction false} PrivateCountBound(s: Space, d: u32, i: nat)
    requires WellShaped(s) && d in s.dirs && i <= ENTRIES
    ensures PrivateCount(s, d, i) <= i
  {
    if i > 0 { PrivateCountBound(s, d, i - 1); }
  }

  /** One such request; there are heap pages left for the forks that follow. */
  method RunOne(pmmu: PagingManagement, sheduler: Sheduler, r: Request, ghost more: nat)
    returns (ghost e: Scheduling.Event, ghost clone: Clone)
    requires pmmu.Valid() && sheduler.Valid() && sheduler.processList_.nodes != []
    requires pmmu.current == sheduler.currentPageDirectory_ && Apart(sheduler.Abstract(), pmmu.space)
    requires (more + if r.CallFork? then 1 else 0) * (ENTRIES + 1) <= |pmmu.supply|
    requires r.SwitchAway? ==> r.context.eip != DUMMY_EIP
    modifies pmmu, pmmu.bitmap.frames_, pmmu.ram, sheduler, sheduler.processList_, sheduler.processList_.nodes
    ensures pmmu.Valid() && sheduler.Valid()
    ensures Answers(r, e, clone, old(sheduler.Abstract()), old(pmmu.bitmap.frames_[..]), pmmu.ram.Length)
    ensures sheduler.Abstract() == Scheduling.StepState(old(sheduler.Abstract()), e)
    ensures pmmu.current == sheduler.currentPageDirectory_ && Apart(sheduler.Abstract(), pmmu.space)
    ensures more * (ENTRIES + 1) <= |pmmu.supply| && KeepsUsed(old(pmmu.bitmap.frames_[..]), pmmu.bitmap.frames_[..])
    ensures old(sheduler.processList_.nodes) <= sheduler.processList_.nodes
    ensures forall i :: |old(sheduler.processList_.nodes)| <= i < |sheduler.processList_.nodes| ==>
              fresh(sheduler.processList_.nodes[i])
  {
    var c := r.context;
    ghost var s0, ram0, words0, src := pmmu.space, pmmu.ram[..], pmmu.bitmap.frames_[..], pmmu.current;
    clone := Clone(s0, ram0, words0, src, s0, ram0, src);
    if r.CallFork? {
      PrivateCountBound(pmmu.space, pmmu.current, ENTRIES);
      var pid, pDir := Fork(pmmu, sheduler, c.eip, c.esp, c.ebp);
      e := Scheduling.Fork(c, pDir);
      clone := Clone(s0, ram0, words0, src, pmmu.space, pmmu.ram[..], pDir);
    } else {
      var resumed, cr3 := Switch(pmmu, sheduler, c.eip, c.esp, c.ebp);
      e := Scheduling.Switch(c);
    }
  }

  /** Frames that were busy later include those that were busy before. */
  lemma {:induction false} AnswersBefore(rs: seq<Request>, es: seq<Scheduling.Event>, cs: seq<Clone>,
                                         m: Scheduling.Machine, words: seq<Word>, words0: seq<Word>, frames: nat)
    requires Scheduling.Valid(m) && RunAnswers(rs, es, cs, m, words, frames) && KeepsUsed(words0, words)
    ensures RunAnswers(rs, es, cs, m, words0, frames)
    decreases |rs|
  {
    if rs != [] {
      Scheduling.StepValid(m, es[0]);
      AnswersBefore(rs[1..], es[1..], cs[1..], Scheduling.StepState(m, es[0]), words, words0, frames);
    }
  }

  lemma {:induction false} OneMore(rs: seq<Request>, m: Scheduling.Machine, e: Scheduling.Event, c: Clone,
                                   words: seq<Word>, es: seq<Scheduling.Event>, cs: seq<Clone>, words1: seq<Word>,
                                   frames: nat)
    requires Scheduling.Valid(m) && rs != [] && Answers(rs[0], e, c, m, words, frames) && KeepsUsed(words, words1)
    requires Scheduling.Valid(Scheduling.StepState(m, e))
    requires RunAnswers(rs[1..], es, cs, Scheduling.StepState(m, e), words1, frames)
    ensures RunAnswers(rs, [e] + es, [c] + cs, m, words, frames)
    ensures Scheduling.RunState(m, [e] + es) == Scheduling.RunState(Scheduling.StepState(m, e), es)
  {
    assert ([e] + es)[1..] == es && ([c] + cs)[1..] == cs;
    AnswersBefore(rs[1..], es, cs, Scheduling.StepState(m, e), words1, words, frames);
  }

  lemma {:induction false} Prefix<T>(a: seq<T>, b: seq<T>, c: seq<T>)
    requires a <= b <= c
    ensures a <= c && forall i :: |a| <= i < |b| ==> c[i] == b[i]
  {
  }

  /** Any run of forks and switches: the events are those of the step machine, each fork's clone is what Copied says
      of it, the current directory stays the current process's own, every process keeps a directory of its own, and
      no busy frame becomes free. */
  method RunAll(pmmu: PagingManagement, sheduler: Sheduler, rs: seq<Request>)
    returns (ghost es: seq<Scheduling.Event>, ghost clones: seq<Clone>)
    requires pmmu.Valid() && sheduler.Valid() && sheduler.processList_.nodes != []
    requires pmmu.current == sheduler.currentPageDirectory_ && Apart(sheduler.Abstract(), pmmu.space)
    requires Forks(rs) * (ENTRIES + 1) <= |pmmu.supply|
    requires forall i :: 0 <= i < |rs| && rs[i].SwitchAway? ==> rs[i].context.eip != DUMMY_EIP
    modifies pmmu, pmmu.bitmap.frames_, pmmu.ram, sheduler, sheduler.processList_, sheduler.processList_.nodes
    ensures pmmu.Valid() && sheduler.Valid()
    ensures RunAnswers(rs, es, clones, old(sheduler.Abstract()), old(pmmu.bitmap.frames_[..]), pmmu.ram.Length)
    ensures sheduler.Abstract() == Scheduling.RunState(old(sheduler.Abstract()), es)
    ensures pmmu.current == sheduler.currentPageDirectory_ && Apart(sheduler.Abstract(), pmmu.space)
    ensures KeepsUsed(old(pmmu.bitmap.frames_[..]), pmmu.bitmap.frames_[..])
    ensures old(sheduler.processList_.nodes) <= sheduler.processList_.nodes
    ensures forall i :: |old(sheduler.processList_.nodes)| <= i < |sheduler.processList_.nodes| ==>
              fresh(sheduler.processList_.nodes[i])
    decreases |rs|
  {
    if rs == [] { return [], []; }
    ghost var m, n0, words0 := sheduler.Abstract(), sheduler.processList_.nodes, pmmu.bitmap.frames_[..];
    ghost var e, clone := RunOne(pmmu, sheduler, rs[0], Forks(rs[1..]));
    ghost var n1, words1 := sheduler.processList_.nodes, pmmu.bitmap.frames_[..];
    ghost var rest, others := RunAll(pmmu, sheduler, rs[1..]);
    Prefix(n0, n1, sheduler.processList_.nodes);
    es, clones := [e] + rest, [clone] + others;
    OneMore(rs, m, e, clone, words0, rest, others, words1, pmmu.ram.Length);
  }

  /** From the moment that no real frame is free, as boot leaves it, every fork of a run is backed by real memory
      exactly when its parent maps no page through a table of its own, and at such pages its child reads frame 0 or
      nothing: frame 0 with the words of the last of them, when every scanned bit is set. */
  lemma {:induction false} ForksOnExhausted(rs: seq<Request>, es: seq<Scheduling.Event>, cs: seq<Clone>,
                                            m: Scheduling.Machine, words: seq<Word>, frames: nat, i: nat)
    requires Scheduling.Valid(m) && RunAnswers(rs, es, cs, m, words, frames) && i < |rs| && rs[i].CallFork?
    requires FreeBelow(words, frames) == {}
    ensures Scheduling.Valid(Scheduling.RunState(m, es[..i]))
    ensures var m1, c := Scheduling.RunState(m, es[..i]), cs[i];
      && es[i].Fork? && c.d == es[i].directory && c.src == m1.procs[m1.cur].directory
      && (Backed(c.s0, c.src, c.s, c.d, frames) <==> MapsOnlyShared(c.s0, c.src))
      && WellShaped(c.s0) && c.src in c.s0.dirs && AllShared(c.s0, c.ram0, c.words0, c.src, c.s, c.ram, c.d)
      && (IsFirstFree(words, -1) ==> ReadsLast(c.s0, c.ram0, c.src, c.s, c.ram, c.d))
    decreases |rs|
  {
    if i == 0 {
      var c := cs[0];
      assert es[..0] == [];
      assert FreeBelow(c.words0, frames) == {} by {
        forall n | n in FreeBelow(c.words0, frames) ensures n in FreeBelow(words, frames) {}
      }
      EnoughOfNone(c.s0, c.src, c.words0, frames);
    } else {
      Scheduling.StepValid(m, es[0]);
      assert es[..i][0] == es[0] && es[..i][1..] == es[1..][..i - 1];
      ForksOnExhausted(rs[1..], es[1..], cs[1..], Scheduling.StepState(m, es[0]), words, frames, i - 1);
    }
  }

  /** Two processes, in whatever state a run has brought them to: a write of one through a table that is its own
      changes no word that the other reads, unless both pages are on frame 0. */
  lemma {:induction false} ProcessesIsolated(m: Scheduling.Machine, s: Space, owner: map<nat, (u32, nat)>,
                                             home: map<u32, (u32, nat)>, words: seq<Word>, ram: seq<FrameData>, i: nat,
                                             j: nat, va: u32, va': u32, w: int)
    requires Consistent(s, owner, home, words) && Apart(m, s) && i < |m.procs| && j < |m.procs| && i != j
    requires s.dirs[m.procs[i].directory].pageTables[TableIndex(va)] != s.dirs[s.root].pageTables[TableIndex(va)]
    ensures var d, d' := m.procs[i].directory, m.procs[j].directory;
      WordAt(s, Stored(s, ram, d, va, w), d', va') ==
      if OnZero(s, d, va) && OnZero(s, d', va') && WordAt(s, ram, d, va).Some? && WordAt(s, ram, d', va').Some?
         && va % PAGE / 4 == va' % PAGE / 4
      then Some(w) else WordAt(s, ram, d', va')
  {
    PrivateWriteInvisible(s, owner, home, words, ram, m.procs[i].directory, m.procs[j].directory, va, va', w);
  }
}
