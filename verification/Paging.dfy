/**
  The paging unit at work once the kernel heap is enabled: page entries, frame
  allocation and the copying of directories for fork
  (source/paging_management.cpp:133-297, source/memory_management.S:3-33).
 */
module Paging {
  import opened Bytes
  import opened Frames
  import opened AddressSpaces

  const FRAME_WORDS: int := 1024

  /** The 1024 words of one physical frame. */
  type FrameData = f: seq<int> | |f| == 1024 witness seq(1024, i => 0)

  // ---------- What a clone is ----------

  /** A copied page entry: empty for an unmapped one, else the same bits with a frame that was free, or 0. */
  predicate PageCloned(sp: Page, dp: Page, words: seq<Word>) {
    if sp.frame == 0 then dp == EMPTY
    else dp == sp.(frame := dp.frame) && (dp.frame != 0 ==> !Used(words, dp.frame))
  }

  predicate TableCloned(src: seq<Page>, dst: seq<Page>, words: seq<Word>) {
    |src| == |dst| && forall i :: 0 <= i < |src| ==> PageCloned(src[i], dst[i], words)
  }

  /** The mapped pages of src have frames of real memory in dst. */
  predicate AllReal(src: seq<Page>, dst: seq<Page>, frames: nat) {
    |src| == |dst| && forall i :: 0 <= i < |src| && src[i].frame != 0 ==> 0 < dst[i].frame < frames
  }

  /** Every frame that dst has in real memory holds what the frame of src holds. */
  predicate ContentCopied(src: seq<Page>, dst: seq<Page>, ram0: seq<FrameData>, ram: seq<FrameData>) {
    |src| == |dst| && |ram| == |ram0| &&
    forall i :: 0 <= i < |src| && 0 < src[i].frame < |ram| && 0 < dst[i].frame < |ram| ==>
      ram[dst[i].frame] == ram0[src[i].frame]
  }

  /** Frames that were in use keep their contents, except frame 0. */
  predicate BusyKept(ram0: seq<FrameData>, ram: seq<FrameData>, words: seq<Word>) {
    |ram| == |ram0| && forall n :: 0 < n < |ram| && Used(words, n) ==> ram[n] == ram0[n]
  }

  /** Page i of src has a frame of real memory, and its copy in dst has none at all: it was copied to frame 0. */
  predicate CopiedToZero(src: seq<Page>, dst: seq<Page>, i: nat, frames: nat)
    requires i < |src| == |dst|
  {
    0 < src[i].frame < frames && dst[i].frame == 0
  }

  /** What frame 0 holds after a table is copied, when it held z before: the last page that was copied there. */
  function ZeroAfter(src: seq<Page>, dst: seq<Page>, ram0: seq<FrameData>, z: FrameData): FrameData
    requires |src| == |dst|
  {
    if src == [] then z
    else var i := |src| - 1;
         if CopiedToZero(src, dst, i, |ram0|) then ram0[src[i].frame] else ZeroAfter(src[..i], dst[..i], ram0, z)
  }

  function MappedCount(pages: seq<Page>): nat {
    if pages == [] then 0
    else MappedCount(pages[..|pages| - 1]) + if pages[|pages| - 1].frame != 0 then 1 else 0
  }

  function Minus(x: nat, y: nat): nat {
    if y <= x then x - y else 0
  }

  /** What clonePageTable promises: a faithful copy, whose pages are all backed by real memory
      exactly when there was a free real frame for each mapped page. */
  ghost predicate CloneResult(src: seq<Page>, dst: seq<Page>, words0: seq<Word>, words: seq<Word>, ram0: seq<FrameData>,
                              ram: seq<FrameData>)
  {
    && TableCloned(src, dst, words0)
    && ContentCopied(src, dst, ram0, ram) && BusyKept(ram0, ram, words0)
    && (|ram| > 0 ==> ram[0] == ZeroAfter(src, dst, ram0, ram0[0]))
    && (forall n :: Used(words0, n) ==> Used(words, n))
    && (AllReal(src, dst, |ram|) <==> MappedCount(src) <= |FreeBelow(words0, |ram|)|)
    && |FreeBelow(words, |ram|)| == Minus(|FreeBelow(words0, |ram|)|, MappedCount(src))
  }

  /** The same for the first i pages; the rest of dst is still empty. */
  ghost predicate CloneProgress(src: seq<Page>, dst: seq<Page>, i: nat, words0: seq<Word>, words: seq<Word>,
                                ram0: seq<FrameData>, ram: seq<FrameData>)
  {
    && |src| == |dst| == ENTRIES && i <= ENTRIES && |words| == |words0| && |ram| == |ram0|
    && (forall k :: 0 <= k < i ==>
          PageCloned(src[k], dst[k], words0) && (dst[k].frame != 0 ==> Used(words, dst[k].frame)))
    && (forall k :: i <= k < ENTRIES ==> dst[k] == EMPTY)
    && (forall k :: 0 <= k < i && 0 < src[k].frame < |ram| && 0 < dst[k].frame < |ram| ==>
          ram[dst[k].frame] == ram0[src[k].frame])
    && BusyKept(ram0, ram, words0) && (|ram| > 0 ==> ram[0] == ZeroAfter(src[..i], dst[..i], ram0, ram0[0]))
    && (forall n :: Used(words0, n) ==> Used(words, n))
    && ((forall k :: 0 <= k < i && src[k].frame != 0 ==> 0 < dst[k].frame < |ram|)
        <==> MappedCount(src[..i]) <= |FreeBelow(words0, |ram|)|)
    && |FreeBelow(words, |ram|)| == Minus(|FreeBelow(words0, |ram|)|, MappedCount(src[..i]))
  }

  // ---------- What a cloned directory is ----------

  /** The table at index i of directory d is not the root's. */
  ghost predicate IsPrivate(s: Space, d: u32, i: nat)
    requires WellShaped(s) && d in s.dirs && i < ENTRIES
  {
    s.dirs[d].pageTables[i] != 0 && s.dirs[d].pageTables[i] != s.dirs[s.root].pageTables[i]
  }

  /** Tables and mapped pages that a clone of directory d has to copy, among the first i indexes. */
  ghost function PrivateCount(s: Space, d: u32, i: nat): nat
    requires WellShaped(s) && d in s.dirs && i <= ENTRIES
  {
    if i == 0 then 0 else PrivateCount(s, d, i - 1) + if IsPrivate(s, d, i - 1) then 1 else 0
  }

  ghost function PrivateMapped(s: Space, d: u32, i: nat): nat
    requires WellShaped(s) && d in s.dirs && i <= ENTRIES
  {
    if i == 0 then 0
    else PrivateMapped(s, d, i - 1)
         + if IsPrivate(s, d, i - 1) then MappedCount(s.tables[s.dirs[d].pageTables[i - 1]]) else 0
  }

  /** The first i slots of the new directory: empty, shared with the root, or a new table and its place. */
  ghost predicate SlotsCloned(s0: Space, src: u32, s: Space, dir: PageDirectory, pDir: u32, home: map<u32, (u32, nat)>,
                              i: nat)
    requires WellShaped(s0) && src in s0.dirs && i <= ENTRIES
  {
    && s.dirs == s0.dirs && s.root == s0.root
    && (forall t :: t in s0.tables ==> t in s.tables && s.tables[t] == s0.tables[t])
    && |dir.pageTables| == |dir.pageTablesPhysical| == ENTRIES
    && pDir % PAGE == 0 && Located(s, pDir, dir.physicalAddress)
    && (forall k {:trigger dir.pageTables[k]} {:trigger dir.pageTablesPhysical[k]} :: 0 <= k < ENTRIES ==>
          var x, y := s0.dirs[src].pageTables[k], dir.pageTables[k];
          if k >= i || x == 0 then y == 0 && dir.pageTablesPhysical[k] == 0
          else if x == s0.dirs[s0.root].pageTables[k]
          then y == x && dir.pageTablesPhysical[k] == s0.dirs[src].pageTablesPhysical[k]
          else y != 0 && y in s.tables && y !in s0.tables && y in home && home[y] == (pDir, k)
               && dir.pageTablesPhysical[k] % PAGE == 7 && Located(s, y, dir.pageTablesPhysical[k] - 7))
  }

  /** The pages of the first i slots: copied into frames that were free, with the contents they had. */
  ghost predicate PagesCloned(s0: Space, src: u32, s: Space, dir: PageDirectory, i: nat,
                              words0: seq<Word>, words: seq<Word>, ram0: seq<FrameData>, ram: seq<FrameData>)
    requires WellShaped(s0) && src in s0.dirs && i <= ENTRIES && |dir.pageTables| == ENTRIES
  {
    && (forall k :: 0 <= k < i && IsPrivate(s0, src, k) ==>
          && dir.pageTables[k] in s.tables
          && TableCloned(s0.tables[s0.dirs[src].pageTables[k]], s.tables[dir.pageTables[k]], words0)
          && ContentCopied(s0.tables[s0.dirs[src].pageTables[k]], s.tables[dir.pageTables[k]], ram0, ram))
    && BusyKept(ram0, ram, words0)
    && (forall n :: Used(words0, n) ==> Used(words, n))
  }

  /** All copied pages are backed by real memory exactly when there was a free real frame for each of them. */
  ghost predicate RealIff(s0: Space, src: u32, s: Space, dir: PageDirectory, i: nat, free0: nat, free: nat, frames: nat)
    requires WellShaped(s0) && src in s0.dirs && i <= ENTRIES && |dir.pageTables| == ENTRIES
  {
    && free == Minus(free0, PrivateMapped(s0, src, i))
    && ((forall k :: 0 <= k < i && IsPrivate(s0, src, k) ==>
           dir.pageTables[k] in s.tables
           && AllReal(s0.tables[s0.dirs[src].pageTables[k]], s.tables[dir.pageTables[k]], frames))
        <==> PrivateMapped(s0, src, i) <= free0)
  }

  /** What frame 0 holds after the pages of one table are copied into table t, when it held z before. */
  function TableZero(pages: seq<Page>, s: Space, t: u32, ram0: seq<FrameData>, z: FrameData): FrameData {
    if t in s.tables && |s.tables[t]| == |pages| then ZeroAfter(pages, s.tables[t], ram0, z) else z
  }

  /** What frame 0 holds after the first i slots are cloned. */
  ghost function DirZero(s0: Space, src: u32, s: Space, dir: PageDirectory, i: nat, ram0: seq<FrameData>): FrameData
    requires WellShaped(s0) && src in s0.dirs && i <= ENTRIES && |dir.pageTables| == ENTRIES && |ram0| > 0
  {
    if i == 0 then ram0[0]
    else
      var z := DirZero(s0, src, s, dir, i - 1, ram0);
      if IsPrivate(s0, src, i - 1)
      then TableZero(s0.tables[s0.dirs[src].pageTables[i - 1]], s, dir.pageTables[i - 1], ram0, z) else z
  }

  /** All that is known of the new directory after i rounds. */
  ghost predicate DirProgress(s0: Space, src: u32, s: Space, dir: PageDirectory, pDir: u32, home: map<u32, (u32, nat)>,
                              i: nat, words0: seq<Word>, words: seq<Word>, ram0: seq<FrameData>, ram: seq<FrameData>)
  {
    && WellShaped(s0) && src in s0.dirs && i <= ENTRIES
    && SlotsCloned(s0, src, s, dir, pDir, home, i)
    && PagesCloned(s0, src, s, dir, i, words0, words, ram0, ram)
    && (|ram| > 0 ==> ram[0] == DirZero(s0, src, s, dir, i, ram0))
    && RealIff(s0, src, s, dir, i, |FreeBelow(words0, |ram|)|, |FreeBelow(words, |ram|)|, |ram|)
  }

  ghost predicate FramesUsed(s: Space, words: seq<Word>) {
    forall t, i :: t in s.tables && 0 <= i < |s.tables[t]| && s.tables[t][i].frame != 0 ==>
      Used(words, s.tables[t][i].frame)
  }

  // ---------- The steps of clonePageTable ----------

  /** Taking the lowest free frame: it is real memory exactly when some real frame was free. */
  lemma {:induction false} TakenFrom(words: seq<Word>, n: int, limit: nat)
    requires IsFirstFree(words, n) && limit <= WORD * |words|
    ensures 0 <= n < limit <==> FreeBelow(words, limit) != {}
    ensures n == -1 ==> |FreeBelow(words, limit)| == 0
    ensures n != -1 ==> |FreeBelow(Mark(words, n), limit)| == Minus(|FreeBelow(words, limit)|, 1)
    ensures n != -1 ==> forall k :: Used(Mark(words, n), k) <==> k == n || Used(words, k)
  {
    var free := FreeBelow(words, limit);
    if free != {} {
      var k :| k in free;
      assert !Used(words, k);
    }
    if 0 <= n < limit { assert n in free; }
    if n != -1 {
      forall k ensures Used(Mark(words, n), k) <==> k == n || Used(words, k) { MarkIs(words, n, k); }
      MarkFreeBelow(words, n, limit);
      if n >= limit { assert free - {n} == free; }
    }
  }

  /** Frame f, or 0, was handed out: real memory if and only if some real frame was free. */
  ghost predicate Given(words: seq<Word>, words': seq<Word>, f: nat, frames: nat) {
    && |words'| == |words| && (f != 0 ==> !Used(words, f) && Used(words', f))
    && (forall n :: Used(words, n) ==> Used(words', n))
    && (0 < f < frames <==> FreeBelow(words, frames) != {})
    && |FreeBelow(words', frames)| == Minus(|FreeBelow(words, frames)|, 1)
  }

  lemma {:induction false} OwnerSame(s: Space, owner: map<nat, (u32, nat)>, words: seq<Word>, t: u32, i: nat)
    requires Owned(s, owner, words) && t in s.tables && i < |s.tables[t]| && s.tables[t][i].frame != 0
    ensures owner[s.tables[t][i].frame := (t, i)] == owner
  {
  }

  /** The bits of the source are copied over an entry that keeps its frame. */
  lemma {:induction false} CopyGood(s: Space, owner: map<nat, (u32, nat)>, home: map<u32, (u32, nat)>, words: seq<Word>,
                                    supply: seq<u32>, t: u32, i: nat, copy: Page)
    requires Good(s, owner, home, words, supply) && t in s.tables && i < ENTRIES
    requires copy.present && copy.frame == s.tables[t][i].frame
    ensures Good(WithPage(s, t, i, copy), owner, home, words, supply)
  {
    WithPageGood(s, owner, home, words, words, supply, t, i, copy);
    if copy.frame != 0 { OwnerSame(s, owner, words, t, i); }
  }

  lemma {:induction false} MappedCountStep(pages: seq<Page>, i: nat)
    requires i < |pages|
    ensures MappedCount(pages[..i + 1]) == MappedCount(pages[..i]) + if pages[i].frame != 0 then 1 else 0
  {
    assert pages[..i + 1][..i] == pages[..i];
  }

  lemma {:induction false} CloneStep(src: seq<Page>, dst: seq<Page>, i: nat, copy: Page, words0: seq<Word>,
                                     words: seq<Word>, words': seq<Word>, ram0: seq<FrameData>, ram: seq<FrameData>,
                                     ram': seq<FrameData>)
    requires i < ENTRIES && CloneProgress(src, dst, i, words0, words, ram0, ram) && src[i].frame != 0
    requires Given(words, words', copy.frame, |ram|) && PageCloned(src[i], copy, words) && Used(words0, src[i].frame)
    requires ram' == if copy.frame < |ram| && src[i].frame < |ram| then ram[copy.frame := ram[src[i].frame]] else ram
    ensures CloneProgress(src, dst[i := copy], i + 1, words0, words', ram0, ram')
  {
    CountStep(src, dst, i, copy, words0, words, words', |ram|);
    var dst' := dst[i := copy];
    assert copy.frame != 0 ==> !Used(words0, copy.frame) && !Used(words, copy.frame);
    DataStep(src, dst, i, copy, words0, words, ram0, ram, ram');
    forall k | 0 <= k < i + 1
      ensures PageCloned(src[k], dst'[k], words0) && (dst'[k].frame != 0 ==> Used(words', dst'[k].frame))
    {
      if k < i { assert dst'[k] == dst[k]; }
    }
    KeptStep(ram0, ram, ram', words0, copy.frame);
    if |ram| > 0 { ZeroStep(src, dst, i, copy, words0, ram0, ram, ram'); }
  }

  /** Frame 0 after one more page. */
  lemma {:induction false} ZeroStep(src: seq<Page>, dst: seq<Page>, i: nat, copy: Page, words0: seq<Word>,
                                    ram0: seq<FrameData>, ram: seq<FrameData>, ram': seq<FrameData>)
    requires i < |src| == |dst| && 0 < |ram| == |ram0| && BusyKept(ram0, ram, words0)
    requires src[i].frame != 0 && Used(words0, src[i].frame)
    requires ram' == if copy.frame < |ram| && src[i].frame < |ram| then ram[copy.frame := ram[src[i].frame]] else ram
    requires ram[0] == ZeroAfter(src[..i], dst[..i], ram0, ram0[0])
    ensures ram'[0] == ZeroAfter(src[..i + 1], dst[i := copy][..i + 1], ram0, ram0[0])
  {
    var s, d := src[..i + 1], dst[i := copy][..i + 1];
    assert s[..i] == src[..i] && d[..i] == dst[..i] && s[i] == src[i] && d[i] == copy;
  }

  /** The bytes of the frames copied so far stay, and the new frame has those of its source. */
  lemma {:induction false} DataStep(src: seq<Page>, dst: seq<Page>, i: nat, copy: Page, words0: seq<Word>,
                                    words: seq<Word>, ram0: seq<FrameData>, ram: seq<FrameData>, ram': seq<FrameData>)
    requires |src| == |dst| && i < |src| && |ram'| == |ram| == |ram0| && BusyKept(ram0, ram, words0)
    requires Used(words0, src[i].frame)
    requires forall k :: 0 <= k < i ==> (dst[k].frame != 0 ==> Used(words, dst[k].frame))
    requires copy.frame != 0 ==> !Used(words, copy.frame)
    requires forall k :: 0 <= k < i && 0 < src[k].frame < |ram| && 0 < dst[k].frame < |ram| ==>
               ram[dst[k].frame] == ram0[src[k].frame]
    requires ram' == if copy.frame < |ram| && src[i].frame < |ram| then ram[copy.frame := ram[src[i].frame]] else ram
    ensures var dst' := dst[i := copy];
      forall k :: 0 <= k < i + 1 && 0 < src[k].frame < |ram| && 0 < dst'[k].frame < |ram| ==>
        ram'[dst'[k].frame] == ram0[src[k].frame]
  {
    var dst' := dst[i := copy];
    forall k | 0 <= k < i + 1 && 0 < src[k].frame < |ram| && 0 < dst'[k].frame < |ram|
      ensures ram'[dst'[k].frame] == ram0[src[k].frame]
    {
      if k < i { assert Used(words, dst[k].frame); }
    }
  }

  lemma {:induction false} CountStep(src: seq<Page>, dst: seq<Page>, i: nat, copy: Page, words0: seq<Word>,
                                     words: seq<Word>, words': seq<Word>, limit: nat)
    requires |src| == |dst| && i < |src| && src[i].frame != 0
    requires (forall k :: 0 <= k < i && src[k].frame != 0 ==> 0 < dst[k].frame < limit)
             <==> MappedCount(src[..i]) <= |FreeBelow(words0, limit)|
    requires |FreeBelow(words, limit)| == Minus(|FreeBelow(words0, limit)|, MappedCount(src[..i]))
    requires 0 < copy.frame < limit <==> FreeBelow(words, limit) != {}
    requires |FreeBelow(words', limit)| == Minus(|FreeBelow(words, limit)|, 1)
    ensures (forall k :: 0 <= k < i + 1 && src[k].frame != 0 ==> 0 < dst[i := copy][k].frame < limit)
       <==> MappedCount(src[..i + 1]) <= |FreeBelow(words0, limit)|
    ensures |FreeBelow(words', limit)| == Minus(|FreeBelow(words0, limit)|, MappedCount(src[..i + 1]))
  {
    MappedCountStep(src, i);
    EmptyIsZero(FreeBelow(words, limit));
    RealStep(src, dst, i, copy, limit);
  }

  lemma {:induction false} EmptyIsZero(s: set<int>)
    ensures s == {} <==> |s| == 0
  {
  }

  lemma {:induction false} KeptStep(ram0: seq<FrameData>, ram: seq<FrameData>, ram': seq<FrameData>, words0: seq<Word>,
                                    f: nat)
    requires BusyKept(ram0, ram, words0) && |ram'| == |ram| && (f != 0 ==> !Used(words0, f))
    requires forall n :: 0 < n < |ram| && n != f ==> ram'[n] == ram[n]
    ensures BusyKept(ram0, ram', words0)
  {
  }

  lemma {:induction false} CloneStart(src: seq<Page>, words: seq<Word>, ram: seq<FrameData>)
    requires |src| == ENTRIES
    ensures CloneProgress(src, ZeroTable(), 0, words, words, ram, ram)
  {
  }

  lemma {:induction false} CloneEnd(src: seq<Page>, dst: seq<Page>, words0: seq<Word>, words: seq<Word>,
                                    ram0: seq<FrameData>, ram: seq<FrameData>)
    requires CloneProgress(src, dst, ENTRIES, words0, words, ram0, ram)
    ensures CloneResult(src, dst, words0, words, ram0, ram)
  {
    assert src[..ENTRIES] == src && dst[..ENTRIES] == dst;
  }

  lemma {:induction false} AddedTable(s0: Space, t: u32, dst: seq<Page>, i: nat, p: Page)
    requires i < |dst|
    ensures WithPage(s0.(tables := s0.tables[t := dst]), t, i, p) == s0.(tables := s0.tables[t := dst[i := p]])
  {
    assert s0.tables[t := dst][t := dst[i := p]] == s0.tables[t := dst[i := p]];
  }

  lemma {:induction false} RealStep(src: seq<Page>, dst: seq<Page>, i: nat, copy: Page, limit: nat)
    requires |src| == |dst| && i < |src| && src[i].frame != 0
    ensures (forall k :: 0 <= k < i + 1 && src[k].frame != 0 ==> 0 < dst[i := copy][k].frame < limit)
       <==> (forall k :: 0 <= k < i && src[k].frame != 0 ==> 0 < dst[k].frame < limit) && 0 < copy.frame < limit
  {
    var dst' := dst[i := copy];
    if forall k :: 0 <= k < i + 1 && src[k].frame != 0 ==> 0 < dst'[k].frame < limit {
      assert 0 < dst'[i].frame < limit;
      forall k | 0 <= k < i && src[k].frame != 0 ensures 0 < dst[k].frame < limit { assert dst'[k] == dst[k]; }
    }
  }

  lemma {:induction false} SkipStep(src: seq<Page>, dst: seq<Page>, i: nat, words0: seq<Word>, words: seq<Word>,
                                    ram0: seq<FrameData>, ram: seq<FrameData>)
    requires i < ENTRIES && CloneProgress(src, dst, i, words0, words, ram0, ram) && src[i].frame == 0
    ensures CloneProgress(src, dst, i + 1, words0, words, ram0, ram)
  {
    MappedCountStep(src, i);
    assert src[..i + 1][..i] == src[..i] && dst[..i + 1][..i] == dst[..i];
  }

  /** allocFrame on one page entry: an unmapped entry gets the lowest free frame, a mapped one is left alone. */
  method AllocPage(bitmap: FrameBitmap, page: Page, isKernel: bool, isWriteable: bool)
    returns (ok: bool, p: Page, ghost n: int)
    requires WORD * bitmap.frames_.Length <= 0x10_0000
    modifies bitmap.frames_
    ensures page.frame != 0 ==> ok && p == page && bitmap.frames_[..] == old(bitmap.frames_[..])
    ensures page.frame == 0 ==> IsFirstFree(old(bitmap.frames_[..]), n) && ok == (n != -1)
    ensures page.frame == 0 && !ok ==> p == page && bitmap.frames_[..] == old(bitmap.frames_[..])
    ensures page.frame == 0 && ok ==> p == page.(present := true, rw := isWriteable, user := !isKernel, frame := n)
                                      && bitmap.frames_[..] == Mark(old(bitmap.frames_[..]), n)
    ensures page.frame == 0 && ok ==>
              forall k :: Used(bitmap.frames_[..], k) <==> k == n || Used(old(bitmap.frames_[..]), k)
  {
    ok, p, n := true, page, -1;
    if page.frame == 0 {
      ghost var words := bitmap.frames_[..];
      var index := bitmap.Take();
      n := index;
      if index == -1 { return false, page, n; }
      forall k ensures Used(bitmap.frames_[..], k) <==> k == n || Used(words, k) { MarkIs(words, n, k); }
      p := page.(present := true, rw := isWriteable, user := !isKernel, frame := index);
    }
  }

  // ---------- The steps of clonePageDirectory ----------

  lemma {:induction false} EmptyDirectory(s: Space, src: u32, dir: PageDirectory, pDir: u32, home: map<u32, (u32, nat)>,
                                          words: seq<Word>, ram: seq<FrameData>)
    requires WellShaped(s) && src in s.dirs && |dir.pageTables| == |dir.pageTablesPhysical| == ENTRIES
    requires forall k :: 0 <= k < ENTRIES ==> dir.pageTables[k] == dir.pageTablesPhysical[k] == 0
    requires pDir % PAGE == 0 && Located(s, pDir, dir.physicalAddress)
    ensures DirProgress(s, src, s, dir, pDir, home, 0, words, words, ram, ram)
  {
  }

  /** What is left of the supply after the first i slots; there is enough for all of them. */
  ghost predicate Left(s: Space, d: u32, i: nat, list: seq<u32>, left: seq<u32>) {
    && WellShaped(s) && d in s.dirs && i <= ENTRIES
    && PrivateCount(s, d, i) <= PrivateCount(s, d, ENTRIES) <= |list| && left == list[PrivateCount(s, d, i)..]
  }

  lemma {:induction false} LeftStep(s: Space, d: u32, i: nat, list: seq<u32>, left: seq<u32>)
    requires i < ENTRIES && Left(s, d, i, list, left)
    ensures IsPrivate(s, d, i) ==> left != []
    ensures Left(s, d, i + 1, list, if IsPrivate(s, d, i) then left[1..] else left)
  {
    PrivateCountGrows(s, d, i + 1, ENTRIES);
  }

  lemma {:induction false} PrivateCountGrows(s: Space, d: u32, i: nat, j: nat)
    requires WellShaped(s) && d in s.dirs && i <= j <= ENTRIES
    ensures PrivateCount(s, d, i) <= PrivateCount(s, d, j)
    decreases j - i
  {
    if i < j { PrivateCountGrows(s, d, i, j - 1); }
  }

  lemma {:induction false} OwnedUsed(s: Space, owner: map<nat, (u32, nat)>, words: seq<Word>)
    requires Owned(s, owner, words)
    ensures FramesUsed(s, words)
  {
  }

  function WithSlot(dir: PageDirectory, i: nat, t: u32, pde: u32): PageDirectory
    requires i < |dir.pageTables| && i < |dir.pageTablesPhysical|
  {
    dir.(pageTables := dir.pageTables[i := t], pageTablesPhysical := dir.pageTablesPhysical[i := pde])
  }

  lemma {:induction false} CopySlot(s0: Space, src: u32, s1: Space, s: Space, dir: PageDirectory, phys: u32, t: u32,
                                    pDir: u32, home: map<u32, (u32, nat)>, i: nat)
    requires WellShaped(s0) && src in s0.dirs && i < ENTRIES && IsPrivate(s0, src, i)
    requires WellShaped(s1) && WellShaped(s) && SlotsCloned(s0, src, s1, dir, pDir, home, i)
    requires t != 0 && t % PAGE == 0 && t !in s1.tables && t in s.tables
    requires s == s1.(tables := s1.tables[t := s.tables[t]])
    requires Located(s1, t, phys)
    ensures SlotsCloned(s0, src, s, WithSlot(dir, i, t, OrSeven(phys)), pDir, home[t := (pDir, i)], i + 1)
  {
    var dir' := WithSlot(dir, i, t, OrSeven(phys));
    OrSevenIs(phys);
    LocatedKept(s1, s, t, phys);
    LocatedKept(s1, s, pDir, dir.physicalAddress);
    forall k | 0 <= k < ENTRIES && k < i && IsPrivate(s0, src, k)
      ensures Located(s, dir'.pageTables[k], dir'.pageTablesPhysical[k] - 7)
    {
      assert dir'.pageTables[k] == dir.pageTables[k] && dir'.pageTablesPhysical[k] == dir.pageTablesPhysical[k];
      LocatedKept(s1, s, dir.pageTables[k], dir.pageTablesPhysical[k] - 7);
    }
  }

  lemma {:induction false} CopyProgress(s0: Space, src: u32, s1: Space, s: Space, dir: PageDirectory, phys: u32, t: u32,
                                        pDir: u32, home: map<u32, (u32, nat)>, i: nat, words0: seq<Word>,
                                        words1: seq<Word>, words: seq<Word>, ram0: seq<FrameData>, ram1: seq<FrameData>,
                                        ram: seq<FrameData>)
    requires DirProgress(s0, src, s1, dir, pDir, home, i, words0, words1, ram0, ram1) && i < ENTRIES
    requires IsPrivate(s0, src, i)
    requires WellShaped(s1) && WellShaped(s) && FramesUsed(s0, words0) && FramesUsed(s1, words1)
    requires t != 0 && t % PAGE == 0 && t !in s1.tables && t in s.tables
    requires s == s1.(tables := s1.tables[t := s.tables[t]])
    requires Located(s1, t, phys)
    requires CloneResult(s1.tables[s0.dirs[src].pageTables[i]], s.tables[t], words1, words, ram1, ram)
    ensures DirProgress(s0, src, s, WithSlot(dir, i, t, OrSeven(phys)), pDir, home[t := (pDir, i)], i + 1,
                        words0, words, ram0, ram)
  {
    CopySlot(s0, src, s1, s, dir, phys, t, pDir, home, i);
    CopyPages(s0, src, s1, s, dir, phys, t, i, words0, words1, words, ram0, ram1, ram);
    if |ram| > 0 { CopyZero(s0, src, s1, s, dir, phys, t, i, words0, words1, words, ram0, ram1, ram); }
  }

  /** What goes to frame 0 is found in frames that were in use, so the pages copied before do not change it. */
  lemma {:induction false} ZeroAfterSame(src: seq<Page>, dst: seq<Page>, ram0: seq<FrameData>, ram1: seq<FrameData>,
                                         z: FrameData)
    requires |src| == |dst| && |ram1| == |ram0|
    requires forall k :: 0 <= k < |src| && 0 < src[k].frame < |ram0| ==> ram1[src[k].frame] == ram0[src[k].frame]
    ensures ZeroAfter(src, dst, ram1, z) == ZeroAfter(src, dst, ram0, z)
  {
    if src != [] {
      var i := |src| - 1;
      assert forall k :: 0 <= k < i ==> src[..i][k] == src[k];
      ZeroAfterSame(src[..i], dst[..i], ram0, ram1, z);
    }
  }

  lemma {:induction false} DirZeroSame(s0: Space, src: u32, s1: Space, s: Space, dir: PageDirectory,
                                       dir': PageDirectory, i: nat, ram0: seq<FrameData>)
    requires WellShaped(s0) && src in s0.dirs && i <= ENTRIES && |ram0| > 0
    requires |dir.pageTables| == |dir'.pageTables| == ENTRIES
    requires forall k :: 0 <= k < i && IsPrivate(s0, src, k) ==>
               dir'.pageTables[k] == dir.pageTables[k] && dir.pageTables[k] in s1.tables
               && dir.pageTables[k] in s.tables && s.tables[dir.pageTables[k]] == s1.tables[dir.pageTables[k]]
    ensures DirZero(s0, src, s, dir', i, ram0) == DirZero(s0, src, s1, dir, i, ram0)
  {
    if i > 0 { DirZeroSame(s0, src, s1, s, dir, dir', i - 1, ram0); }
  }

  lemma {:induction false} CopyZero(s0: Space, src: u32, s1: Space, s: Space, dir: PageDirectory, phys: u32, t: u32,
                                    i: nat, words0: seq<Word>, words1: seq<Word>, words: seq<Word>,
                                    ram0: seq<FrameData>, ram1: seq<FrameData>, ram: seq<FrameData>)
    requires WellShaped(s0) && src in s0.dirs && i < ENTRIES && IsPrivate(s0, src, i) && |ram0| > 0
    requires |dir.pageTables| == |dir.pageTablesPhysical| == ENTRIES && |ram1| == |ram0|
    requires PagesCloned(s0, src, s1, dir, i, words0, words1, ram0, ram1)
    requires ram1[0] == DirZero(s0, src, s1, dir, i, ram0)
    requires t !in s1.tables && t in s.tables && s == s1.(tables := s1.tables[t := s.tables[t]])
    requires var x := s0.dirs[src].pageTables[i];
      x in s1.tables && s1.tables[x] == s0.tables[x] && CloneResult(s0.tables[x], s.tables[t], words1, words, ram1, ram)
    requires FramesUsed(s0, words0)
    ensures |ram| > 0 && ram[0] == DirZero(s0, src, s, WithSlot(dir, i, t, OrSeven(phys)), i + 1, ram0)
  {
    var dir' := WithSlot(dir, i, t, OrSeven(phys));
    var x := s0.dirs[src].pageTables[i];
    DirZeroSame(s0, src, s1, s, dir, dir', i, ram0);
    ZeroAfterSame(s0.tables[x], s.tables[t], ram0, ram1, ram1[0]);
  }

  lemma {:induction false} HomeGood(s1: Space, s: Space, owner: map<nat, (u32, nat)>, home: map<u32, (u32, nat)>,
                                    words: seq<Word>, supply: seq<u32>, t: u32, place: (u32, nat))
    requires WellShaped(s1) && s.dirs == s1.dirs && s.root == s1.root && t !in s1.tables
    requires Good(s, owner, home, words, supply)
    ensures Good(s, owner, home[t := place], words, supply)
  {
    HomeExtended(s1, s, home, t, place);
  }

  lemma {:induction false} HomeExtended(s1: Space, s: Space, home: map<u32, (u32, nat)>, t: u32, place: (u32, nat))
    requires WellShaped(s1) && s.dirs == s1.dirs && s.root == s1.root && t !in s1.tables && Homed(s, home)
    ensures Homed(s, home[t := place])
  {
  }

  /** A slot that needs no copying: left empty, or shared with the root. */
  lemma {:induction false} KeepSlot(s0: Space, src: u32, s: Space, dir: PageDirectory, pDir: u32,
                                    home: map<u32, (u32, nat)>, i: nat, words0: seq<Word>, words: seq<Word>,
                                    ram0: seq<FrameData>, ram: seq<FrameData>)
    requires DirProgress(s0, src, s, dir, pDir, home, i, words0, words, ram0, ram) && i < ENTRIES
    requires !IsPrivate(s0, src, i)
    ensures var x := s0.dirs[src].pageTables[i];
      && DirProgress(s0, src, s, if x == 0 then dir else WithSlot(dir, i, x, s0.dirs[src].pageTablesPhysical[i]), pDir,
                     home, i + 1, words0, words, ram0, ram)
      && PrivateCount(s0, src, i + 1) == PrivateCount(s0, src, i)
  {
    var x := s0.dirs[src].pageTables[i];
    var dir' := if x == 0 then dir else WithSlot(dir, i, x, s0.dirs[src].pageTablesPhysical[i]);
    assert SlotsCloned(s0, src, s, dir', pDir, home, i + 1);
    assert forall k :: 0 <= k < i ==> dir'.pageTables[k] == dir.pageTables[k];
    assert PagesCloned(s0, src, s, dir', i + 1, words0, words, ram0, ram);
    if |ram| > 0 { DirZeroSame(s0, src, s, s, dir, dir', i, ram0); }
  }

  lemma {:induction false} CopyPages(s0: Space, src: u32, s1: Space, s: Space, dir: PageDirectory, phys: u32, t: u32,
                                     i: nat, words0: seq<Word>, words1: seq<Word>, words: seq<Word>,
                                     ram0: seq<FrameData>, ram1: seq<FrameData>, ram: seq<FrameData>)
    requires WellShaped(s0) && src in s0.dirs && i < ENTRIES && IsPrivate(s0, src, i)
    requires |dir.pageTables| == |dir.pageTablesPhysical| == ENTRIES && |ram| == |ram0|
    requires PagesCloned(s0, src, s1, dir, i, words0, words1, ram0, ram1)
    requires RealIff(s0, src, s1, dir, i, |FreeBelow(words0, |ram|)|, |FreeBelow(words1, |ram|)|, |ram|)
    requires t !in s1.tables && t in s.tables && s == s1.(tables := s1.tables[t := s.tables[t]])
    requires var x := s0.dirs[src].pageTables[i];
      x in s1.tables && s1.tables[x] == s0.tables[x] && CloneResult(s0.tables[x], s.tables[t], words1, words, ram1, ram)
    requires FramesUsed(s0, words0) && FramesUsed(s1, words1)
    ensures PagesCloned(s0, src, s, WithSlot(dir, i, t, OrSeven(phys)), i + 1, words0, words, ram0, ram)
    ensures RealIff(s0, src, s, WithSlot(dir, i, t, OrSeven(phys)), i + 1,
                    |FreeBelow(words0, |ram|)|, |FreeBelow(words, |ram|)|, |ram|)
  {
    var dir' := WithSlot(dir, i, t, OrSeven(phys));
  }

  lemma {:induction false} WithDirGood(s0: Space, src: u32, s: Space, owner: map<nat, (u32, nat)>,
                                       home: map<u32, (u32, nat)>, words: seq<Word>, supply: seq<u32>,
                                       dir: PageDirectory, pDir: u32)
    requires WellShaped(s0) && src in s0.dirs && Good(s, owner, home, words, supply)
    requires SlotsCloned(s0, src, s, dir, pDir, home, ENTRIES) && pDir !in s.dirs && pDir !in supply
    ensures Good(s.(dirs := s.dirs[pDir := dir]), owner, home, words, supply)
  {
    var s' := s.(dirs := s.dirs[pDir := dir]);
    WithDirLinked(s0, src, s, home, dir, pDir);
    WithDirHomed(s0, src, s, home, dir, pDir);
    WithDirBased(s, dir, pDir);
    forall j | 0 <= j < |supply|
      ensures Entry(s', s'.root, supply[j]) == Entry(s, s.root, supply[j])
      ensures dir.pageTables[TableIndex(supply[j])] == s.dirs[s.root].pageTables[TableIndex(supply[j])]
    {
      assert s.dirs[src].pageTables[TableIndex(supply[j])] == s.dirs[s.root].pageTables[TableIndex(supply[j])];
    }
  }

  lemma {:induction false} WithDirBased(s: Space, dir: PageDirectory, pDir: u32)
    requires WellShaped(s) && Based(s) && pDir !in s.dirs && pDir % PAGE == 0 && Located(s, pDir, dir.physicalAddress)
    requires WellShaped(s.(dirs := s.dirs[pDir := dir]))
    ensures Based(s.(dirs := s.dirs[pDir := dir]))
  {
    var s' := s.(dirs := s.dirs[pDir := dir]);
    forall d | d in s'.dirs ensures Loadable(s', d) {
      if d != pDir { assert Loadable(s, d) && s'.dirs[d].physicalAddress == s.dirs[d].physicalAddress; }
      LocatedKept(s, s', d, s'.dirs[d].physicalAddress);
    }
  }

  lemma {:induction false} WithDirLinked(s0: Space, src: u32, s: Space, home: map<u32, (u32, nat)>, dir: PageDirectory,
                                         pDir: u32)
    requires WellShaped(s0) && src in s0.dirs && WellShaped(s) && Linked(s)
    requires SlotsCloned(s0, src, s, dir, pDir, home, ENTRIES) && pDir !in s.dirs
    ensures WellShaped(s.(dirs := s.dirs[pDir := dir])) && Linked(s.(dirs := s.dirs[pDir := dir]))
  {
    var s' := s.(dirs := s.dirs[pDir := dir]);
    assert WellShaped(s');
    forall d, k | d in s'.dirs && 0 <= k < ENTRIES && s'.dirs[d].pageTables[k] != 0
      ensures s'.dirs[d].pageTablesPhysical[k] % PAGE == 7
      ensures Located(s', s'.dirs[d].pageTables[k], s'.dirs[d].pageTablesPhysical[k] - 7)
    {
      if d == pDir {
        assert s.dirs[src].pageTablesPhysical[k] == s0.dirs[src].pageTablesPhysical[k];
        LocatedKept(s, s', dir.pageTables[k], dir.pageTablesPhysical[k] - 7);
      } else {
        assert s.dirs[d].pageTablesPhysical[k] == s'.dirs[d].pageTablesPhysical[k];
        LocatedKept(s, s', s.dirs[d].pageTables[k], s.dirs[d].pageTablesPhysical[k] - 7);
      }
    }
  }

  lemma {:induction false} WithDirHomed(s0: Space, src: u32, s: Space, home: map<u32, (u32, nat)>, dir: PageDirectory,
                                        pDir: u32)
    requires WellShaped(s0) && src in s0.dirs && WellShaped(s) && Homed(s, home)
    requires SlotsCloned(s0, src, s, dir, pDir, home, ENTRIES) && pDir !in s.dirs
    ensures Homed(s.(dirs := s.dirs[pDir := dir]), home)
  {
    var s' := s.(dirs := s.dirs[pDir := dir]);
    forall k | 0 <= k < ENTRIES && dir.pageTables[k] != 0
      ensures var y := dir.pageTables[k];
        y in home && home[y].1 == k
        && (home[y].0 == pDir || (home[y].0 == s.root && s.dirs[s.root].pageTables[k] == y))
    {
      assert s.dirs[s.root].pageTables[k] == s0.dirs[s0.root].pageTables[k];
    }
  }

  lemma {:induction false} SupplyTail(s: Space, supply: seq<u32>)
    requires Supplied(s, supply) && supply != []
    ensures Supplied(s, supply[1..])
    ensures forall d :: d in s.dirs ==> (TableIndex(supply[0]) < |s.dirs[d].pageTables| &&
                s.dirs[d].pageTables[TableIndex(supply[0])] == s.dirs[s.root].pageTables[TableIndex(supply[0])])
  {
    var rest := supply[1..];
    assert forall j :: 0 <= j < |rest| ==> rest[j] == supply[j + 1];
  }

  /** A frame number marked busy fits a page entry, and its address fits a word. */
  lemma {:induction false} FrameBound(words: seq<Word>, n: int)
    requires WORD * |words| <= 0x10_0000
    ensures Used(words, n) ==> n < 0x10_0000 && n * PAGE + PAGE <= WORLD
  {
  }

  class PagingManagement {
    const bitmap: FrameBitmap
    const ram: array<FrameData>
    var space: Space
    var current: u32
    var supply: seq<u32>  // the addresses that kernelHeap.allocate will return
    ghost var owner: map<nat, (u32, nat)>
    ghost var home: map<u32, (u32, nat)>

    ghost predicate Valid()
      reads this, bitmap.frames_, ram
    {
      && ram as object != bitmap.frames_ as object
      && ram.Length <= WORD * bitmap.frames_.Length
      && Good(space, owner, home, bitmap.frames_[..], supply)
      && current in space.dirs
    }

    constructor (bitmap: FrameBitmap, ram: array<FrameData>, space: Space, current: u32, supply: seq<u32>,
                 ghost owner: map<nat, (u32, nat)>, ghost home: map<u32, (u32, nat)>)
      requires ram as object != bitmap.frames_ as object && ram.Length <= WORD * bitmap.frames_.Length
      requires current in space.dirs
      requires Good(space, owner, home, bitmap.frames_[..], supply)
      ensures Valid() && this.bitmap == bitmap && this.ram == ram
      ensures this.space == space && this.current == current && this.supply == supply
    {
      this.bitmap, this.ram, this.space, this.current, this.supply := bitmap, ram, space, current, supply;
      this.owner, this.home := owner, home;
    }

    /** Makes a directory current; the result is what CR3 gets. */
    method SwitchPaging(pDir: u32) returns (cr3: u32)
      requires Valid() && pDir in space.dirs
      modifies this`current
      ensures Valid() && current == pDir && Translates(space, cr3, current)
    {
      current := pDir;
      cr3 := space.dirs[pDir].physicalAddress;
      forall va: u32, p: Page
        ensures WalkFrom(space, cr3, va, p) <==> Entry(space, current, va) == Some(p) && p.present
      {
        LoadedWalkAgrees(space, owner, home, bitmap.frames_[..], pDir, va, p);
      }
    }

    /** pDir 0 means the current directory; without a table the source halts. */
    method FindPage(va: u32, pDir: u32) returns (found: bool, t: u32, i: nat)
      requires Valid() && (pDir == 0 || pDir in space.dirs)
      modifies this`space
      ensures Valid() && space == old(space)
      ensures var d := if pDir == 0 then current else pDir;
        && t == space.dirs[d].pageTables[TableIndex(va)] && i == PageIndex(va) && found == (t != 0)
    {
      var d := if pDir == 0 then current else pDir;
      var dir := space.dirs[d];
      t, i := dir.pageTables[TableIndex(va)], PageIndex(va);
      found := t != 0;
      if found {
        var pde := dir.pageTablesPhysical[TableIndex(va)];
        OrSevenAgain(pde);
        var dir' := dir.(pageTablesPhysical := dir.pageTablesPhysical[TableIndex(va) := OrSeven(pde)]);
        space := space.(dirs := space.dirs[d := dir']);
        assert dir.pageTablesPhysical[TableIndex(va) := pde] == dir.pageTablesPhysical;
        assert space == old(space);
      }
    }

    /** The heap branch of kmalloc, with the physical address that it reports. */
    method Kmalloc() returns (addr: u32, phys: u32)
      requires Valid() && supply != []
      modifies this`space, this`supply
      ensures Valid() && space == old(space) && addr == old(supply)[0] && supply == old(supply)[1..]
      ensures Located(space, addr, phys)
    {
      addr := supply[0];
      SupplyTail(space, supply);
      supply := supply[1..];
      var found, t, i := FindPage(addr, 0);
      var frame := space.tables[t][i].frame;
      FrameBound(bitmap.frames_[..], frame);
      assert Used(bitmap.frames_[..], frame);
      phys := frame * PAGE + addr % PAGE;
    }

    /** getPage with makePageTable. */
    method GetPage(va: u32, pDir: u32) returns (t: u32, i: nat)
      requires Valid() && (pDir == 0 || pDir in space.dirs)
      requires space.dirs[if pDir == 0 then current else pDir].pageTables[TableIndex(va)] == 0 ==> supply != []
      modifies this`space, this`supply, this`home
      ensures Valid()
      ensures var d, k := if pDir == 0 then current else pDir, TableIndex(va);
        var was := old(space).dirs[d].pageTables[k];
        && i == PageIndex(va)
        && (was != 0 ==> t == was && space == old(space) && supply == old(supply))
        && (was == 0 ==> t == old(supply)[0] && supply == old(supply)[1..]
                         && exists phys ::
                              Located(old(space), t, phys) && space == WithTable(old(space), d, k, t, phys))
    {
      var d := if pDir == 0 then current else pDir;
      var found;
      found, t, i := FindPage(va, d);
      if !found {
        ghost var s0, list := space, supply;
        var phys;
        t, phys := Kmalloc();
        WithTableGood(s0, owner, home, bitmap.frames_[..], list, d, TableIndex(va), phys);
        home := home[t := (d, TableIndex(va) as nat)];
        space := WithTable(space, d, TableIndex(va), t, phys);
      }
    }

    /** Gives an unmapped page entry the lowest free frame; a mapped one is left alone. */
    method AllocFrame(t: u32, i: nat, isKernel: bool, isWriteable: bool) returns (ok: bool)
      requires Valid() && t in space.tables && i < ENTRIES
      modifies this`space, this`owner, bitmap.frames_
      ensures Valid()
      ensures old(space).tables[t][i].frame != 0 ==>
                ok && space == old(space) && bitmap.frames_[..] == old(bitmap.frames_[..])
      ensures old(space).tables[t][i].frame == 0 ==>
        exists n :: IsFirstFree(old(bitmap.frames_[..]), n) && ok == (n != -1)
          && (n == -1 ==> space == old(space) && bitmap.frames_[..] == old(bitmap.frames_[..]))
          && (n != -1 ==> bitmap.frames_[..] == Mark(old(bitmap.frames_[..]), n))
          && (n != -1 ==> space == WithPage(old(space), t, i, old(space).tables[t][i].(
                                              present := true, rw := isWriteable, user := !isKernel, frame := n)))
    {
      ghost var words := bitmap.frames_[..];
      var page := space.tables[t][i];
      var p;
      ghost var n;
      ok, p, n := AllocPage(bitmap, page, isKernel, isWriteable);
      if page.frame == 0 && ok {
        WithPageGood(space, owner, home, words, bitmap.frames_[..], supply, t, i, p);
        owner := owner[n as nat := (t, i)];
        space := WithPage(space, t, i, p);
      }
    }

    /** Forgets the frame of a page entry; the frame stays marked busy. In a table of the root's it may be the one
        through which the kernel reaches a table or a directory; elsewhere every invariant stays. */
    method FreeFrame(t: u32, i: nat)
      requires t in space.tables && i < |space.tables[t]|
      modifies this`space
      ensures space == WithPage(old(space), t, i, old(space).tables[t][i].(frame := 0))
      ensures old(Valid()) && t !in old(space).dirs[old(space).root].pageTables ==> Valid()
    {
      ghost var s0, words, kept := space, bitmap.frames_[..], Valid() && t !in space.dirs[space.root].pageTables;
      var page := space.tables[t][i];
      if page.frame != 0 {
        space := WithPage(space, t, i, page.(frame := 0));
      } else {
        assert space.tables[t][i := page.(frame := 0)] == space.tables[t];
        assert space.tables[t := space.tables[t]] == space.tables;
      }
      if kept { UnmappedGood(s0, owner, home, words, supply, t, i); }
    }

    /** Page entry i of table t gets the lowest free frame, or none, and the bits of sp. */
    method CopyBits(t: u32, i: nat, sp: Page) returns (copy: Page)
      requires Valid() && t in space.tables && i < ENTRIES && space.tables[t][i] == EMPTY
      requires sp.frame != 0 && sp.present
      modifies this`space, this`owner, bitmap.frames_
      ensures Valid() && space == WithPage(old(space), t, i, copy)
      ensures PageCloned(sp, copy, old(bitmap.frames_[..]))
      ensures Given(old(bitmap.frames_[..]), bitmap.frames_[..], copy.frame, ram.Length)
    {
      ghost var words, s0 := bitmap.frames_[..], space;
      var ok := AllocFrame(t, i, false, true);
      ghost var n :| IsFirstFree(words, n) && ok == (n != -1)
          && (n == -1 ==> space == s0 && bitmap.frames_[..] == words)
          && (n != -1 ==> bitmap.frames_[..] == Mark(words, n)
                          && space == WithPage(s0, t, i, EMPTY.(
                                                 present := true, rw := true, user := true, frame := n)));
      TakenFrom(words, n, ram.Length);
      var dp := space.tables[t][i];
      copy := sp.(frame := dp.frame);
      CopyGood(space, owner, home, bitmap.frames_[..], supply, t, i, copy);
      WithPageTwice(s0, t, i, dp, copy);
      space := WithPage(space, t, i, copy);
    }

    /** One round of clonePageTable: page entry i of table t becomes a copy of sp, with a frame of its own. Without one
        the contents go to frame 0. */
    method CloneEntry(t: u32, i: nat, sp: Page) returns (copy: Page)
      requires Valid() && t in space.tables && i < ENTRIES && space.tables[t][i] == EMPTY
      requires sp.frame != 0 && sp.present
      modifies this`space, this`owner, bitmap.frames_, ram
      ensures Valid() && space == WithPage(old(space), t, i, copy)
      ensures PageCloned(sp, copy, old(bitmap.frames_[..]))
      ensures Given(old(bitmap.frames_[..]), bitmap.frames_[..], copy.frame, ram.Length)
      ensures copy.frame < ram.Length && sp.frame < ram.Length ==>
                ram[..] == old(ram[..])[copy.frame := old(ram[sp.frame])]
      ensures !(copy.frame < ram.Length && sp.frame < ram.Length) ==> ram[..] == old(ram[..])
    {
      copy := CopyBits(t, i, sp);
      CopyPagePhysical(sp.frame, copy.frame);
    }

    /** Copies a table page by page into frames of its own; an allocation that fails goes unnoticed, as in the
        source. */
    method ClonePageTable(src: u32) returns (t: u32, phys: u32)
      requires Valid() && src in space.tables && supply != []
      modifies this`space, this`supply, this`owner, bitmap.frames_, ram
      ensures Valid() && t == old(supply)[0] && supply == old(supply)[1..] && Located(old(space), t, phys)
      ensures t in space.tables && space == old(space).(tables := old(space).tables[t := space.tables[t]])
      ensures CloneResult(old(space).tables[src], space.tables[t], old(bitmap.frames_[..]), bitmap.frames_[..],
                          old(ram[..]), ram[..])
    {
      ghost var s0 := space;
      OwnedUsed(s0, owner, bitmap.frames_[..]);
      t, phys := NewTable();
      CloneEntries(src, t, s0);
    }

    /** An empty table that no directory points at yet. */
    method NewTable() returns (t: u32, phys: u32)
      requires Valid() && supply != []
      modifies this`space, this`supply
      ensures Valid() && t == old(supply)[0] && supply == old(supply)[1..] && Located(old(space), t, phys)
      ensures t !in old(space).tables && space == old(space).(tables := old(space).tables[t := ZeroTable()])
    {
      ghost var s0, list := space, supply;
      t, phys := Kmalloc();
      BareTableGood(s0, owner, home, bitmap.frames_[..], list);
      space := space.(tables := space.tables[t := ZeroTable()]);
    }

    /** Only table t has been added to s0, and it is a copy of the first i pages of table src. */
    ghost predicate Copying(src: u32, t: u32, i: nat, s0: Space, words0: seq<Word>, ram0: seq<FrameData>)
      reads this, bitmap.frames_, ram
    {
      && src in s0.tables && t in space.tables && space == s0.(tables := s0.tables[t := space.tables[t]])
      && CloneProgress(s0.tables[src], space.tables[t], i, words0, bitmap.frames_[..], ram0, ram[..])
    }

    /** All pages of table src into the new table t. */
    method CloneEntries(src: u32, t: u32, ghost s0: Space)
      requires Valid() && src in s0.tables && t !in s0.tables && FramesUsed(s0, bitmap.frames_[..])
      requires |s0.tables[src]| == ENTRIES && t in space.tables && space.tables[t] == ZeroTable()
      requires space == s0.(tables := s0.tables[t := space.tables[t]])
      modifies this`space, this`owner, bitmap.frames_, ram
      ensures Valid() && t in space.tables && space == s0.(tables := s0.tables[t := space.tables[t]])
      ensures CloneResult(s0.tables[src], space.tables[t], old(bitmap.frames_[..]), bitmap.frames_[..],
                          old(ram[..]), ram[..])
    {
      ghost var words0, ram0 := bitmap.frames_[..], ram[..];
      CloneStart(s0.tables[src], words0, ram0);
      for i := 0 to ENTRIES
        invariant Valid() && Copying(src, t, i, s0, words0, ram0)
      {
        CloneRound(src, t, i, s0, words0, ram0);
      }
      CloneEnd(s0.tables[src], space.tables[t], words0, bitmap.frames_[..], ram0, ram[..]);
    }

    /** Page i of the copy t of table src. */
    method CloneRound(src: u32, t: u32, i: nat, ghost s0: Space, ghost words0: seq<Word>, ghost ram0: seq<FrameData>)
      requires Valid() && i < ENTRIES && src != t && FramesUsed(s0, words0) && Copying(src, t, i, s0, words0, ram0)
      modifies this`space, this`owner, bitmap.frames_, ram
      ensures Valid() && Copying(src, t, i + 1, s0, words0, ram0)
    {
      ghost var pages, dst, words, mem := s0.tables[src], space.tables[t], bitmap.frames_[..], ram[..];
      var sp := space.tables[src][i];
      if sp.frame != 0 {
        assert Used(words0, s0.tables[src][i].frame);
        var copy := CloneEntry(t, i, sp);
        AddedTable(s0, t, dst, i, copy);
        CloneStep(pages, dst, i, copy, words0, words, bitmap.frames_[..], ram0, mem, ram[..]);
      } else {
        SkipStep(pages, dst, i, words0, words, ram0, mem);
      }
    }

    /** Copies a directory for fork: the root's tables are shared, the others copied. */
    method ClonePageDirectory(pSrc: u32) returns (pDir: u32)
      requires Valid() && (pSrc == 0 || pSrc in space.dirs)
      requires PrivateCount(space, if pSrc == 0 then current else pSrc, ENTRIES) < |supply|
      modifies this`space, this`supply, this`owner, this`home, bitmap.frames_, ram
      ensures Valid() && pDir == old(supply)[0] && pDir in space.dirs && current == old(current)
      ensures pDir !in old(space).dirs
      ensures supply == old(supply)[1 + PrivateCount(old(space), if pSrc == 0 then current else pSrc, ENTRIES)..]
      ensures space.root == old(space).root && space.dirs == old(space).dirs[pDir := space.dirs[pDir]]
      ensures DirProgress(old(space), if pSrc == 0 then current else pSrc, space.(dirs := old(space).dirs),
                          space.dirs[pDir], pDir, home, ENTRIES,
                          old(bitmap.frames_[..]), bitmap.frames_[..], old(ram[..]), ram[..])
    {
      ghost var s0, words0, ram0, list := space, bitmap.frames_[..], ram[..], supply;
      var src := if pSrc == 0 then current else pSrc;
      var phys;
      OwnedUsed(s0, owner, words0);
      pDir, phys := Kmalloc();
      var dir := PageDirectory(seq(ENTRIES, k => 0), seq(ENTRIES, k => 0), phys);
      EmptyDirectory(s0, src, dir, pDir, home, words0, ram0);
      dir := CloneSlots(src, dir, pDir, s0, words0, ram0);
      Install(pDir, dir, src, s0, words0, ram0);
    }

    /** Every slot in turn. */
    method CloneSlots(src: u32, empty: PageDirectory, ghost pDir: u32, ghost s0: Space, ghost words0: seq<Word>,
                      ghost ram0: seq<FrameData>)
      returns (dir: PageDirectory)
      requires Valid() && pDir !in supply && FramesUsed(s0, words0)
      requires DirProgress(s0, src, space, empty, pDir, home, 0, words0, bitmap.frames_[..], ram0, ram[..])
      requires PrivateCount(s0, src, ENTRIES) <= |supply|
      modifies this`space, this`supply, this`owner, this`home, bitmap.frames_, ram
      ensures Valid() && pDir !in supply && supply == old(supply)[PrivateCount(s0, src, ENTRIES)..]
      ensures DirProgress(s0, src, space, dir, pDir, home, ENTRIES, words0, bitmap.frames_[..], ram0, ram[..])
    {
      dir := empty;
      ghost var list := supply;
      for i := 0 to ENTRIES
        invariant Valid() && Left(s0, src, i, list, supply)
        invariant DirProgress(s0, src, space, dir, pDir, home, i, words0, bitmap.frames_[..], ram0, ram[..])
      {
        dir := NextSlot(src, dir, i, pDir, s0, words0, ram0, list);
      }
    }

    /** One slot: empty, shared with the root, or cloned. */
    method NextSlot(src: u32, dir: PageDirectory, i: nat, ghost pDir: u32, ghost s0: Space, ghost words0: seq<Word>,
                    ghost ram0: seq<FrameData>, ghost list: seq<u32>)
      returns (dir': PageDirectory)
      requires Valid() && i < ENTRIES && FramesUsed(s0, words0)
      requires DirProgress(s0, src, space, dir, pDir, home, i, words0, bitmap.frames_[..], ram0, ram[..])
      requires Left(s0, src, i, list, supply)
      modifies this`space, this`supply, this`owner, this`home, bitmap.frames_, ram
      ensures Valid() && Left(s0, src, i + 1, list, supply)
      ensures DirProgress(s0, src, space, dir', pDir, home, i + 1, words0, bitmap.frames_[..], ram0, ram[..])
    {
      LeftStep(s0, src, i, list, supply);
      var x := space.dirs[src].pageTables[i];
      if x == 0 || x == space.dirs[space.root].pageTables[i] {
        KeepSlot(s0, src, space, dir, pDir, home, i, words0, bitmap.frames_[..], ram0, ram[..]);
        dir' := if x == 0 then dir else WithSlot(dir, i, x, space.dirs[src].pageTablesPhysical[i]);
      } else {
        dir' := CloneSlot(src, dir, i, pDir, s0, words0, ram0);
      }
    }

    /** The finished directory takes its place. */
    method Install(pDir: u32, dir: PageDirectory, ghost src: u32, ghost s0: Space, ghost words0: seq<Word>,
                   ghost ram0: seq<FrameData>)
      requires Valid() && pDir !in s0.dirs && pDir !in supply
      requires DirProgress(s0, src, space, dir, pDir, home, ENTRIES, words0, bitmap.frames_[..], ram0, ram[..])
      modifies this`space
      ensures Valid() && space.root == s0.root && space.dirs == s0.dirs[pDir := dir]
      ensures DirProgress(s0, src, space.(dirs := s0.dirs), dir, pDir, home, ENTRIES, words0, bitmap.frames_[..],
                          ram0, ram[..])
    {
      WithDirGood(s0, src, space, owner, home, bitmap.frames_[..], supply, dir, pDir);
      ghost var s := space;
      space := space.(dirs := space.dirs[pDir := dir]);
      assert space.(dirs := s0.dirs) == s;
    }

    /** The slot of a table that is not shared with the root. */
    method CloneSlot(src: u32, dir: PageDirectory, i: nat, ghost pDir: u32, ghost s0: Space, ghost words0: seq<Word>,
                     ghost ram0: seq<FrameData>)
      returns (dir': PageDirectory)
      requires Valid() && supply != []
      requires DirProgress(s0, src, space, dir, pDir, home, i, words0, bitmap.frames_[..], ram0, ram[..])
      requires i < ENTRIES && IsPrivate(s0, src, i) && FramesUsed(s0, words0)
      modifies this`space, this`supply, this`owner, this`home, bitmap.frames_, ram
      ensures Valid() && supply == old(supply)[1..]
      ensures DirProgress(s0, src, space, dir', pDir, home, i + 1, words0, bitmap.frames_[..], ram0, ram[..])
    {
      ghost var s1, words1, ram1, home1 := space, bitmap.frames_[..], ram[..], home;
      OwnedUsed(space, owner, words1);
      var t, tablePhys := ClonePageTable(space.dirs[src].pageTables[i]);
      HomeGood(s1, space, owner, home, bitmap.frames_[..], supply, t, (pDir, i));
      home := home[t := (pDir, i)];
      dir' := WithSlot(dir, i, t, OrSeven(tablePhys));
      CopyProgress(s0, src, s1, space, dir, tablePhys, t, pDir, home1, i, words0, words1, bitmap.frames_[..],
                   ram0, ram1, ram[..]);
    }

    /** Copies one frame word by word, with paging off. Frames beyond the memory have nothing to copy to or from. */
    method CopyPagePhysical(src: nat, dst: nat)
      modifies ram
      ensures src < ram.Length && dst < ram.Length ==> ram[..] == old(ram[..])[dst := old(ram[src])]
      ensures !(src < ram.Length && dst < ram.Length) ==> ram[..] == old(ram[..])
    {
      if src < ram.Length && dst < ram.Length {
        var k := 0;
        while k < FRAME_WORDS
          invariant 0 <= k <= FRAME_WORDS
          invariant ram[src] == old(ram[src]) || src == dst
          invariant src == dst ==> ram[..] == old(ram[..])
          invariant forall n :: 0 <= n < ram.Length && n != dst ==> ram[n] == old(ram[n])
          invariant forall j :: 0 <= j < k ==> ram[dst][j] == old(ram[src])[j]
        {
          if src == dst { assert ram[dst][k := ram[dst][k]] == ram[dst]; }
          ram[dst] := ram[dst][k := ram[src][k]];
          k := k + 1;
        }
        assert ram[dst] == old(ram[src]);
      }
    }
  }

  // ---------- What the processes see ----------

  /** The word at a virtual address, where the directory has a present page in real memory. */
  function WordAt(s: Space, ram: seq<FrameData>, d: u32, va: u32): Option<int> {
    var e := Entry(s, d, va);
    if e.Some? && e.value.present && e.value.frame < |ram| then Some(ram[e.value.frame][va % PAGE / 4]) else None
  }

  function Stored(s: Space, ram: seq<FrameData>, d: u32, va: u32, w: int): seq<FrameData> {
    var e := Entry(s, d, va);
    if e.Some? && e.value.present && e.value.frame < |ram| then
      ram[e.value.frame := ram[e.value.frame][va % PAGE / 4 := w]]
    else ram
  }

  /** The page entry has frame 0, like one whose frame was freed or whose copy found none. */
  predicate OnZero(s: Space, d: u32, va: u32) {
    var e := Entry(s, d, va);
    e.Some? && e.value.frame == 0
  }

  /** A page of real memory that was copied to frame 0: page j of slot k. */
  ghost predicate ToZero(s0: Space, src: u32, s: Space, dir: PageDirectory, k: nat, j: nat, frames: nat)
    requires WellShaped(s0) && src in s0.dirs && |dir.pageTables| == ENTRIES
  {
    && k < ENTRIES && j < ENTRIES && IsPrivate(s0, src, k)
    && dir.pageTables[k] in s.tables && |s.tables[dir.pageTables[k]]| == ENTRIES
    && CopiedToZero(s0.tables[s0.dirs[src].pageTables[k]], s.tables[dir.pageTables[k]], j, frames)
  }

  /** It is the last of them among the first i slots. */
  ghost predicate LastToZero(s0: Space, src: u32, s: Space, dir: PageDirectory, i: nat, k: nat, j: nat, frames: nat)
    requires WellShaped(s0) && src in s0.dirs && |dir.pageTables| == ENTRIES
  {
    && k < i && ToZero(s0, src, s, dir, k, j, frames)
    && (forall k', j' :: k <= k' < i && (if k' == k then j else -1) < j' < ENTRIES ==>
          !ToZero(s0, src, s, dir, k', j', frames))
  }

  lemma {:induction false} ZeroAfterNone(src: seq<Page>, dst: seq<Page>, ram0: seq<FrameData>, z: FrameData)
    requires |src| == |dst| && forall j :: 0 <= j < |src| ==> !CopiedToZero(src, dst, j, |ram0|)
    ensures ZeroAfter(src, dst, ram0, z) == z
  {
    if src != [] {
      var i := |src| - 1;
      forall j | 0 <= j < i ensures !CopiedToZero(src[..i], dst[..i], j, |ram0|) {
        assert !CopiedToZero(src, dst, j, |ram0|);
      }
      ZeroAfterNone(src[..i], dst[..i], ram0, z);
    }
  }

  /** Of the pages of a table that go to frame 0 the last one stays there. */
  lemma {:induction false} ZeroAfterLast(src: seq<Page>, dst: seq<Page>, ram0: seq<FrameData>, z: FrameData, j: nat)
    requires |src| == |dst| && j < |src| && CopiedToZero(src, dst, j, |ram0|)
    requires forall k :: j < k < |src| ==> !CopiedToZero(src, dst, k, |ram0|)
    ensures ZeroAfter(src, dst, ram0, z) == ram0[src[j].frame]
  {
    var i := |src| - 1;
    if j < i {
      forall k | j < k < i ensures !CopiedToZero(src[..i], dst[..i], k, |ram0|) {
        assert !CopiedToZero(src, dst, k, |ram0|);
      }
      ZeroAfterLast(src[..i], dst[..i], ram0, z, j);
    }
  }

  /** Without such a page frame 0 holds what it held before. */
  lemma {:induction false} DirZeroNone(s0: Space, src: u32, s: Space, dir: PageDirectory, i: nat, ram0: seq<FrameData>)
    requires WellShaped(s0) && src in s0.dirs && |dir.pageTables| == ENTRIES && i <= ENTRIES && |ram0| > 0
    requires forall k, j :: 0 <= k < i && 0 <= j < ENTRIES ==> !ToZero(s0, src, s, dir, k, j, |ram0|)
    ensures DirZero(s0, src, s, dir, i, ram0) == ram0[0]
  {
    if i > 0 {
      DirZeroNone(s0, src, s, dir, i - 1, ram0);
      SlotZeroNone(s0, src, s, dir, i - 1, ram0, DirZero(s0, src, s, dir, i - 1, ram0));
    }
  }

  lemma {:induction false} SlotZeroNone(s0: Space, src: u32, s: Space, dir: PageDirectory, k: nat, ram0: seq<FrameData>,
                                        z: FrameData)
    requires WellShaped(s0) && src in s0.dirs && |dir.pageTables| == ENTRIES && k < ENTRIES
    requires forall j :: 0 <= j < ENTRIES ==> !ToZero(s0, src, s, dir, k, j, |ram0|)
    ensures IsPrivate(s0, src, k) ==>
              TableZero(s0.tables[s0.dirs[src].pageTables[k]], s, dir.pageTables[k], ram0, z) == z
  {
    if IsPrivate(s0, src, k) && dir.pageTables[k] in s.tables && |s.tables[dir.pageTables[k]]| == ENTRIES {
      var x, y := s0.tables[s0.dirs[src].pageTables[k]], s.tables[dir.pageTables[k]];
      forall j | 0 <= j < ENTRIES ensures !CopiedToZero(x, y, j, |ram0|) {
        assert !ToZero(s0, src, s, dir, k, j, |ram0|);
      }
      ZeroAfterNone(x, y, ram0, z);
    }
  }

  /** Otherwise it holds the last page that was copied there. */
  lemma {:induction false} DirZeroLast(s0: Space, src: u32, s: Space, dir: PageDirectory, i: nat, ram0: seq<FrameData>,
                                       k: nat, j: nat)
    requires WellShaped(s0) && src in s0.dirs && |dir.pageTables| == ENTRIES && i <= ENTRIES && |ram0| > 0
    requires LastToZero(s0, src, s, dir, i, k, j, |ram0|)
    ensures DirZero(s0, src, s, dir, i, ram0) == ram0[s0.tables[s0.dirs[src].pageTables[k]][j].frame]
  {
    if k < i - 1 {
      DirZeroLast(s0, src, s, dir, i - 1, ram0, k, j);
      SlotZeroNone(s0, src, s, dir, i - 1, ram0, DirZero(s0, src, s, dir, i - 1, ram0));
    } else {
      var x, y := s0.tables[s0.dirs[src].pageTables[k]], s.tables[dir.pageTables[k]];
      forall j' | j < j' < ENTRIES ensures !CopiedToZero(x, y, j', |ram0|) {
        assert !ToZero(s0, src, s, dir, k, j', |ram0|);
      }
      ZeroAfterLast(x, y, ram0, DirZero(s0, src, s, dir, k, ram0), j);
    }
  }

  /** With a free real frame for every page to copy, the clone sees at every mapped address the word that
      the original saw, with the same bits; a page of the directory's own that was on frame 0 is empty. */
  lemma {:induction false} CloneSeesSame(s0: Space, src: u32, s: Space, pDir: u32, home: map<u32, (u32, nat)>,
                                         words0: seq<Word>, words: seq<Word>, ram0: seq<FrameData>, ram: seq<FrameData>,
                                         va: u32)
    requires pDir in s.dirs
    requires DirProgress(s0, src, s.(dirs := s0.dirs), s.dirs[pDir], pDir, home, ENTRIES, words0, words, ram0, ram)
    requires FramesUsed(s0, words0) && PrivateMapped(s0, src, ENTRIES) <= |FreeBelow(words0, |ram|)|
    requires WordAt(s0, ram0, src, va).Some?
    ensures if IsPrivate(s0, src, TableIndex(va)) && OnZero(s0, src, va)
            then Entry(s, pDir, va) == Some(EMPTY) && WordAt(s, ram, pDir, va) == None
            else WordAt(s, ram, pDir, va) == WordAt(s0, ram0, src, va)
                 && Entry(s, pDir, va) == Some(Entry(s0, src, va).value.(frame := Entry(s, pDir, va).value.frame))
  {
    var k, j := TableIndex(va), PageIndex(va);
    var x, y := s0.dirs[src].pageTables[k], s.dirs[pDir].pageTables[k];
    var sp := s0.tables[x][j];
    if IsPrivate(s0, src, k) {
      assert TableCloned(s0.tables[x], s.tables[y], words0) && ContentCopied(s0.tables[x], s.tables[y], ram0, ram);
      assert AllReal(s0.tables[x], s.tables[y], |ram|);
      assert PageCloned(sp, s.tables[y][j], words0);
    } else {
      assert y == x && s.tables[x] == s0.tables[x];
      assert sp.frame != 0 ==> Used(words0, sp.frame);
      ZeroKept(s0, src, s.(dirs := s0.dirs), s.dirs[pDir], ram0);
    }
  }

  lemma {:induction false} ZeroKept(s0: Space, src: u32, s: Space, dir: PageDirectory, ram0: seq<FrameData>)
    requires WellShaped(s0) && src in s0.dirs && |dir.pageTables| == ENTRIES && |ram0| > 0
    requires forall k :: 0 <= k < ENTRIES && IsPrivate(s0, src, k) ==>
               dir.pageTables[k] in s.tables
               && AllReal(s0.tables[s0.dirs[src].pageTables[k]], s.tables[dir.pageTables[k]], |ram0|)
    ensures DirZero(s0, src, s, dir, ENTRIES, ram0) == ram0[0]
  {
    DirZeroNone(s0, src, s, dir, ENTRIES, ram0);
  }

  /** Without a free real frame the clone reads at a page that had to be copied what frame 0 holds, or nothing, if a
      bit behind the real frames was still clear. At the other pages it reads what the original reads; that has changed
      on frame 0 only. */
  lemma {:induction false} CloneWithoutFrames(s0: Space, src: u32, s: Space, pDir: u32, home: map<u32, (u32, nat)>,
                                              words0: seq<Word>, words: seq<Word>, ram0: seq<FrameData>,
                                              ram: seq<FrameData>, va: u32)
    requires pDir in s.dirs
    requires DirProgress(s0, src, s.(dirs := s0.dirs), s.dirs[pDir], pDir, home, ENTRIES, words0, words, ram0, ram)
    requires WellShaped(s) && FramesUsed(s0, words0) && FramesUsed(s, words) && |words| == |words0|
    requires FreeBelow(words0, |ram|) == {}
    ensures ReadsShared(s0, ram0, words0, src, s, ram, pDir, va)
  {
    var k, j := TableIndex(va), PageIndex(va);
    var x, y := s0.dirs[src].pageTables[k], s.dirs[pDir].pageTables[k];
    if IsPrivate(s0, src, k) {
      assert TableCloned(s0.tables[x], s.tables[y], words0);
      assert PageCloned(s0.tables[x][j], s.tables[y][j], words0);
      var f := s.tables[y][j].frame;
      assert 0 < f < |ram| && !Used(words0, f) ==> f in FreeBelow(words0, |ram|);
      assert f != 0 ==> Used(words, f);
    } else if x != 0 {
      assert y == x && s.tables[x] == s0.tables[x];
      assert s0.tables[x][j].frame != 0 ==> Used(words0, s0.tables[x][j].frame);
    }
  }

  /** What such a clone reads at va. */
  ghost predicate ReadsShared(s0: Space, ram0: seq<FrameData>, words0: seq<Word>, src: u32, s: Space,
                              ram: seq<FrameData>, d: u32, va: u32)
    requires WellShaped(s0) && src in s0.dirs
  {
    var e0, e, w := Entry(s0, src, va), Entry(s, d, va), WordAt(s, ram, d, va);
    if IsPrivate(s0, src, TableIndex(va)) then
      && e0.Some? && e.Some?
      && w == (if e0.value.frame != 0 && e0.value.present && e.value.frame == 0 && |ram| > 0
               then Some(ram[0][va % PAGE / 4]) else None)
      && (e0.value.frame != 0 && IsFirstFree(words0, -1) ==> e.value.frame == 0)
    else w == WordAt(s0, ram, src, va) && (!OnZero(s0, src, va) ==> w == WordAt(s0, ram0, src, va))
  }

  /** The last page in real memory that directory d maps through a table of its own. */
  ghost predicate LastReal(s: Space, d: u32, last: u32, frames: nat)
    requires WellShaped(s) && d in s.dirs
  {
    && IsPrivate(s, d, TableIndex(last)) && 0 < Entry(s, d, last).value.frame < frames
    && forall va: u32 :: last / PAGE < va / PAGE && IsPrivate(s, d, TableIndex(va)) ==>
         Entry(s, d, va).value.frame == 0 || frames <= Entry(s, d, va).value.frame
  }

  /** When every scanned bit is set, the clone reads at all mapped pages of its own the words of the last of them. */
  lemma {:induction false} ExhaustedClone(s0: Space, src: u32, s: Space, pDir: u32, home: map<u32, (u32, nat)>,
                                          words0: seq<Word>, words: seq<Word>, ram0: seq<FrameData>,
                                          ram: seq<FrameData>, last: u32, va: u32)
    requires pDir in s.dirs
    requires DirProgress(s0, src, s.(dirs := s0.dirs), s.dirs[pDir], pDir, home, ENTRIES, words0, words, ram0, ram)
    requires WellShaped(s) && FramesUsed(s0, words0) && FramesUsed(s, words) && |words| == |words0|
    requires IsFirstFree(words0, -1) && |ram| <= WORD * |words0| && LastReal(s0, src, last, |ram|)
    requires IsPrivate(s0, src, TableIndex(va)) && !OnZero(s0, src, va) && Entry(s0, src, va).value.present
    ensures |ram0| == |ram|
    ensures WordAt(s, ram, pDir, va) == Some(ram0[Entry(s0, src, last).value.frame][va % PAGE / 4])
  {
    var s1, dir, k, j := s.(dirs := s0.dirs), s.dirs[pDir], TableIndex(last), PageIndex(last);
    CloneWithoutFrames(s0, src, s, pDir, home, words0, words, ram0, ram, va);
    CloneWithoutFrames(s0, src, s, pDir, home, words0, words, ram0, ram, last);
    assert TableCloned(s0.tables[s0.dirs[src].pageTables[k]], s1.tables[dir.pageTables[k]], words0);
    assert ToZero(s0, src, s1, dir, k, j, |ram|);
    forall k', j' | k <= k' < ENTRIES && (if k' == k then j else -1) < j' < ENTRIES
      ensures !ToZero(s0, src, s1, dir, k', j', |ram|)
    {
      LaterPage(s0, src, s1, dir, last, k', j', |ram|);
    }
    DirZeroLast(s0, src, s1, dir, ENTRIES, ram0, k, j);
  }

  lemma {:induction false} LaterPage(s0: Space, src: u32, s: Space, dir: PageDirectory, last: u32, k: nat, j: nat,
                                     frames: nat)
    requires WellShaped(s0) && src in s0.dirs && |dir.pageTables| == ENTRIES && LastReal(s0, src, last, frames)
    requires TableIndex(last) <= k < ENTRIES && (if k == TableIndex(last) then PageIndex(last) else -1) < j < ENTRIES
    ensures !ToZero(s0, src, s, dir, k, j, frames)
  {
    var va: u32 := (k * ENTRIES + j) * PAGE;
    assert TableIndex(va) == k && PageIndex(va) == j && last / PAGE < va / PAGE;
  }

  /** There is nothing to copy exactly when no page is mapped through a table of the directory's own. */
  lemma {:induction false} NothingToCopy(s: Space, d: u32, i: nat)
    requires WellShaped(s) && d in s.dirs && i <= ENTRIES
    ensures PrivateMapped(s, d, i) == 0 <==>
            forall k, j :: 0 <= k < i && IsPrivate(s, d, k) && 0 <= j < ENTRIES ==>
              s.tables[s.dirs[d].pageTables[k]][j].frame == 0
  {
    if i > 0 {
      NothingToCopy(s, d, i - 1);
      if IsPrivate(s, d, i - 1) { NothingMapped(s.tables[s.dirs[d].pageTables[i - 1]]); }
    }
  }

  lemma {:induction false} NothingMapped(pages: seq<Page>)
    ensures MappedCount(pages) == 0 <==> forall j :: 0 <= j < |pages| ==> pages[j].frame == 0
  {
    if pages != [] {
      var rest := pages[..|pages| - 1];
      NothingMapped(rest);
      forall j | 0 <= j < |rest| ensures rest[j] == pages[j] {}
    }
  }

  /** A write through a private mapping of one process is seen by no other process, unless both pages are on
      frame 0: then the other reads it at the same place in the page. */
  lemma {:induction false} PrivateWriteInvisible(s: Space, owner: map<nat, (u32, nat)>, home: map<u32, (u32, nat)>,
                                                 words: seq<Word>, ram: seq<FrameData>, d: u32, d': u32, va: u32,
                                                 va': u32, w: int)
    requires Consistent(s, owner, home, words) && d in s.dirs && d' in s.dirs && d != d'
    requires s.dirs[d].pageTables[TableIndex(va)] != s.dirs[s.root].pageTables[TableIndex(va)]
    ensures WordAt(s, Stored(s, ram, d, va, w), d', va') ==
            if OnZero(s, d, va) && OnZero(s, d', va') && WordAt(s, ram, d, va).Some? && WordAt(s, ram, d', va').Some?
               && va % PAGE / 4 == va' % PAGE / 4
            then Some(w) else WordAt(s, ram, d', va')
  {
    if WordAt(s, ram, d, va).Some? && WordAt(s, ram, d', va').Some? && !OnZero(s, d, va) {
      PrivateFrames(s, owner, home, words, d, d', va, va');
    }
  }
}
