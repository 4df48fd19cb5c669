/**
  Boot: page tables are built from the bump allocator before paging is on
  (source/paging_management.cpp:39-92, source/memory_management.cpp:13-29).
 */
module Boot {
  import opened Bytes
  import opened Frames
  import opened AddressSpaces
  import opened Paging

  const MEM_SIZE: int := 0x100_0000
  const FRAMES: int := 0x1000          // MEM_SIZE / PAGE
  const HEAP_START: int := 0xC000_0000
  const HEAP_SIZE: int := 0x200_0000
  const HEAP_PAGE: int := 0xC_0000     // HEAP_START / PAGE
  const HEAP_PAGES: int := 0x2000      // HEAP_SIZE / PAGE

  function RoundUp(x: int): int {
    if x % PAGE == 0 then x else x - x % PAGE + PAGE
  }

  /** Page tables needed for n pages in a row, the first of which starts a table. */
  function TablesFor(n: int): int {
    (n + ENTRIES - 1) / ENTRIES
  }

  /** Every table lies where kmalloc put it and its directory entry names that address. */
  ghost predicate InPlace(s: Space, placement: int) {
    s.root in s.dirs &&
    forall i {:trigger s.dirs[s.root].pageTablesPhysical[i]} ::
      0 <= i < |s.dirs[s.root].pageTables| == |s.dirs[s.root].pageTablesPhysical| ==>
      var t := s.dirs[s.root].pageTables[i];
      if t == 0 then s.dirs[s.root].pageTablesPhysical[i] == 0
      else s.dirs[s.root].pageTablesPhysical[i] == t + 7 && PAGE <= t && t + PAGE <= placement
  }

  ghost predicate BootInv(s: Space, owner: map<nat, (u32, nat)>, home: map<u32, (u32, nat)>, words: seq<Word>,
                          placement: int)
  {
    && WellShaped(s) && Owned(s, owner, words) && Homed(s, home) && InPlace(s, placement)
    && (forall d :: d in s.dirs ==> d == s.root)
    && s.root % PAGE == 0 && PAGE <= s.root < placement && s.dirs[s.root].physicalAddress == s.root
    && (forall t :: t in s.tables ==> t < placement)
  }

  /** Page n is present with frame n for n < k; the other pages below the heap are empty. */
  ghost predicate Identity(s: Space, k: int) {
    forall n: nat {:trigger PageEntry(s, s.root, n)} :: n < HEAP_PAGE ==>
      if n < k then PageEntry(s, s.root, n) == Some(Page(true, true, true, false, false, 0, n))
      else PageEntry(s, s.root, n) in {None, Some(EMPTY)}
  }

  /** From page m of the heap on every page is empty. */
  ghost predicate HeapUnmapped(s: Space, m: int) {
    forall n: nat {:trigger PageEntry(s, s.root, n)} ::
      HEAP_PAGE + m <= n ==> PageEntry(s, s.root, n) in {None, Some(EMPTY)}
  }

  /** There are tables for the first k pages and for the first m pages of the heap, and no others. */
  ghost predicate Tabled(s: Space, k: int, m: int) {
    forall n: nat {:trigger PageEntry(s, s.root, n)} ::
      PageEntry(s, s.root, n).Some? <==>
      n < ENTRIES * TablesFor(k) || HEAP_PAGE <= n < HEAP_PAGE + ENTRIES * TablesFor(m)
  }

  ghost predicate PrefixBusy(words: seq<Word>, k: int) {
    |words| == FRAMES && forall n :: 0 <= n < FRAMES ==> (Used(words, n) <==> n < k)
  }

  lemma {:induction false} FirstFreeIsNext(words: seq<Word>, k: int, n: int)
    requires PrefixBusy(words, k) && 0 <= k < FRAMES && IsFirstFree(words, n)
    ensures n == k
  {
    assert !Used(words, k);
  }

  /** A new table is empty and changes no other entry. */
  lemma {:induction false} NewTable(s: Space, owner: map<nat, (u32, nat)>, home: map<u32, (u32, nat)>, words: seq<Word>,
                                    placement: int, i: nat, t: u32)
    requires BootInv(s, owner, home, words, placement) && i < ENTRIES && s.dirs[s.root].pageTables[i] == 0
    requires PAGE <= t && placement <= t && t % PAGE == 0 && t + PAGE <= WORLD
    ensures BootInv(WithTable(s, s.root, i, t, t), owner, home[t := (s.root, i)], words, t + PAGE)
    ensures forall n: nat {:trigger PageEntry(WithTable(s, s.root, i, t, t), s.root, n)} ::
      PageEntry(WithTable(s, s.root, i, t, t), s.root, n)
      == if n / ENTRIES == i then Some(EMPTY) else PageEntry(s, s.root, n)
  {
    OrSevenIs(t);
    WithTableHomed(s, home, s.root, i, t, t);
    var s' := WithTable(s, s.root, i, t, t);
    var dir, dir' := s.dirs[s.root], s'.dirs[s.root];
    assert forall k :: 0 <= k < ENTRIES && k != i ==> dir'.pageTablesPhysical[k] == dir.pageTablesPhysical[k];
  }

  /** Giving page a a frame changes the entry of that page only. */
  lemma {:induction false} NewFrame(s: Space, owner: map<nat, (u32, nat)>, home: map<u32, (u32, nat)>, words: seq<Word>,
                                    words': seq<Word>, placement: int, a: nat, p: Page)
    requires BootInv(s, owner, home, words, placement) && PageEntry(s, s.root, a).Some?
    requires PageEntry(s, s.root, a).value.frame == 0
    requires a / ENTRIES < ENTRIES && forall n :: Used(words, n) ==> Used(words', n)
    requires p.frame != 0 ==> p.present && !Used(words, p.frame) && Used(words', p.frame)
    ensures var t, i := s.dirs[s.root].pageTables[a / ENTRIES], a % ENTRIES;
      && BootInv(WithPage(s, t, i, p), if p.frame == 0 then owner else owner[p.frame := (t, i)], home, words',
                 placement)
      && forall n: nat {:trigger PageEntry(WithPage(s, t, i, p), s.root, n)} ::
           PageEntry(WithPage(s, t, i, p), s.root, n) == if n == a then Some(p) else PageEntry(s, s.root, n)
  {
    var t, i := s.dirs[s.root].pageTables[a / ENTRIES], a % ENTRIES;
    var s' := WithPage(s, t, i, p);
    forall n: nat ensures PageEntry(s', s.root, n) == if n == a then Some(p) else PageEntry(s, s.root, n) {
      if n != a && PageEntry(s, s.root, n).Some? && s.dirs[s.root].pageTables[n / ENTRIES] == t {
        assert home[t].1 == a / ENTRIES && home[t].1 == n / ENTRIES;
      }
    }
    var dir, dir' := s.dirs[s.root], s'.dirs[s.root];
    assert forall k :: 0 <= k < ENTRIES ==> dir'.pageTablesPhysical[k] == dir.pageTablesPhysical[k];
  }

  /** Of the heap's first m pages, those that still found a frame of the bitmap have k, k + 1, ...; the rest are empty
      or have frames behind it. */
  ghost predicate HeapFrames(s: Space, k: nat, m: int) {
    forall n: nat {:trigger PageEntry(s, s.root, n)} :: HEAP_PAGE <= n < HEAP_PAGE + m ==>
      HeapFrame(PageEntry(s, s.root, n), k + n - HEAP_PAGE)
  }

  ghost predicate HeapFrame(e: Option<Page>, f: nat) {
    e.Some? &&
    if f < FRAMES then e.value == Page(true, true, true, false, false, 0, f)
    else e.value == EMPTY || (e.value.frame >= FRAMES && e.value.present)
  }

  /** Page a, empty before, has got frame n, if there was one, and no other entry has changed. */
  ghost predicate Mapped(s0: Space, s: Space, a: nat, n: int) {
    forall b: nat {:trigger PageEntry(s, s.root, b)} :: PageEntry(s, s.root, b) ==
      if n >= 0 && b == a then Some(Page(true, true, true, false, false, 0, n)) else PageEntry(s0, s0.root, b)
  }

  /** The next page of the heap. */
  lemma {:induction false} HeapPageMapped(s0: Space, s: Space, k: nat, m: nat, n: int)
    requires Mapped(s0, s, HEAP_PAGE + m, n) && m < HEAP_PAGES && PageEntry(s0, s0.root, HEAP_PAGE + m).Some?
    requires if k + m < FRAMES then n == k + m else n == -1 || n >= FRAMES
    requires Identity(s0, k) && HeapFrames(s0, k, m) && HeapUnmapped(s0, m)
    ensures Identity(s, k) && HeapFrames(s, k, m + 1) && HeapUnmapped(s, m + 1)
  {
  }

  lemma {:induction false} TablesForStep(n: int)
    requires 0 <= n
    ensures TablesFor(n + 1) == TablesFor(n) + if n % ENTRIES == 0 then 1 else 0
    ensures if n % ENTRIES == 0 then ENTRIES * TablesFor(n) == n else n < ENTRIES * TablesFor(n)
  {
  }

  /** Page a has an entry now if it had one or page n, which has one, is in the same table. */
  ghost predicate Entered(s0: Space, s: Space, n: nat) {
    forall a: nat {:trigger PageEntry(s, s.root, a)} :: PageEntry(s, s.root, a) ==
      if a / ENTRIES == n / ENTRIES && PageEntry(s0, s0.root, n).None? then Some(EMPTY) else PageEntry(s0, s0.root, a)
  }

  lemma {:induction false} HeapTableEntered(s0: Space, s: Space, m: nat)
    requires Entered(s0, s, HEAP_PAGE + m) && Tabled(s0, 0, m) && m < HEAP_PAGES
    ensures Tabled(s, 0, m + 1) && PageEntry(s0, s0.root, HEAP_PAGE + m).None? == (m % ENTRIES == 0)
  {
    TablesForStep(m);
    assert (HEAP_PAGE + m) % ENTRIES == m % ENTRIES;
  }

  lemma {:induction false} LowTableEntered(s0: Space, s: Space, k: nat)
    requires Entered(s0, s, k) && Tabled(s0, k, HEAP_PAGES) && k < FRAMES
    ensures Tabled(s, k + 1, HEAP_PAGES) && PageEntry(s0, s0.root, k).None? == (k % ENTRIES == 0)
  {
    TablesForStep(k);
  }

  /** Tries of allocFrame have handed out the given frames and no others; fewer only if every bit is set. */
  ghost predicate Gives(words0: seq<Word>, given: seq<int>, words: seq<Word>, tries: nat) {
    HandedOut(words0, given) && words == After(words0, given) && |given| <= tries
    && (|given| < tries ==> IsFirstFree(words, -1))
  }

  lemma {:induction false} HandedOutNext(words0: seq<Word>, given: seq<int>, words: seq<Word>, tries: nat, n: int)
    requires Gives(words0, given, words, tries) && IsFirstFree(words, n)
    ensures if n == -1 then Gives(words0, given, words, tries + 1)
            else Gives(words0, given + [n], Mark(words, n), tries + 1)
  {
    if n != -1 { HandedOutMore(words0, given, n); }
  }

  // ---------- Where the kernel ends ----------

  const DIRECTORY_SIZE: int := 8196  // two arrays of 1024 words and one word

  /** Where the page directory of a kernel that ends at start lies. */
  function DirectoryAt(start: int): int {
    RoundUp(start + FRAMES / 32 * 4)
  }

  /** Bytes between its bitmap and that directory. */
  function Gap(start: int): int {
    DirectoryAt(start) - (start + FRAMES / 32 * 4)
  }

  /** The end of what is allocated after tables for n pages in a row, when it was at x before. */
  function TablesEnd(x: int, n: int): int {
    if n == 0 then x else RoundUp(x) + PAGE * TablesFor(n)
  }

  lemma {:induction false} TablesEndStep(x: int, n: int)
    requires 0 <= n
    ensures TablesEnd(x, n + 1) == if n % ENTRIES == 0 then RoundUp(TablesEnd(x, n)) + PAGE else TablesEnd(x, n)
    ensures n < HEAP_PAGES ==> TablesEnd(x, n) < x + PAGE * (TablesFor(HEAP_PAGES) + 1)
  {
    TablesForStep(n);
    assert RoundUp(x) % PAGE == 0 && (RoundUp(x) + PAGE * TablesFor(n)) % PAGE == 0;
  }

  /** How far below the moving end page k is. */
  lemma {:induction false} BelowEnd(x: int, k: int)
    requires 0 <= k && x % PAGE == 0
    ensures k * PAGE < TablesEnd(x, k) + PAGE <==> k < x / PAGE + 1 + TablesFor(k)
    ensures k == x / PAGE + 1 + TablesFor(k) ==> k * PAGE == TablesEnd(x, k) + PAGE
  {
  }

  /** The least k with from tables' pages and a table for each 1024 of k pages below it. */
  function Moving(from: int): int {
    from + (from + ENTRIES - 2) / (ENTRIES - 1)
  }

  /** How many low pages boot maps: the directory takes three of them, the heap's tables eight, and one more page
      than what is allocated is mapped. */
  function LowPages(start: int): int {
    Moving(DirectoryAt(start) / PAGE + 3 + TablesFor(HEAP_PAGES) + 1)
  }

  lemma {:induction false} MovingBelow(from: int, k: int)
    requires 0 < from && 0 <= k < from + TablesFor(k)
    ensures k < Moving(from)
  {
  }

  /** The first k at which from + TablesFor(k) is reached. */
  lemma {:induction false} MovingIs(from: int, k: int)
    requires 0 < from && 0 < k && k - 1 < from + TablesFor(k - 1) && from + TablesFor(k) <= k
    ensures k == from + TablesFor(k) == Moving(from)
  {
  }

  /** One round below the moving end. */
  lemma {:induction false} RoundBelow(x: int, k: int)
    requires 0 <= k && 0 <= x && x % PAGE == 0 && k * PAGE < TablesEnd(x, k) + PAGE && Moving(x / PAGE + 1) < FRAMES
    ensures k < Moving(x / PAGE + 1) && k < x / PAGE + 1 + TablesFor(k) && TablesEnd(x, k) + 2 * PAGE <= WORLD
    ensures TablesEnd(x, k + 1) == if k % ENTRIES == 0 then RoundUp(TablesEnd(x, k)) + PAGE else TablesEnd(x, k)
  {
    BelowEnd(x, k);
    MovingBelow(x / PAGE + 1, k);
    TablesEndStep(x, k);
  }

  /** The heap's tables start three pages above the directory, and the low tables follow. */
  lemma {:induction false} FirstRecords(start: int)
    ensures DirectoryAt(start) % PAGE == 0 && 0 <= Gap(start) < PAGE
    ensures var end := TablesEnd(DirectoryAt(start) + DIRECTORY_SIZE, HEAP_PAGES);
      end == DirectoryAt(start) + (3 + TablesFor(HEAP_PAGES)) * PAGE && end % PAGE == 0
      && LowPages(start) == Moving(end / PAGE + 1)
    ensures LowPages(start) < FRAMES ==> DirectoryAt(start) < MEM_SIZE
  {
    assert RoundUp(DirectoryAt(start) + DIRECTORY_SIZE) == DirectoryAt(start) + 3 * PAGE;
  }

  lemma {:induction false} NoTableBehind(s: Space, k: int)
    requires Tabled(s, k, HEAP_PAGES) && k < FRAMES
    ensures PageEntry(s, s.root, HEAP_PAGE + HEAP_PAGES) == None
  {
  }

  /** The bitmap and the unused bytes behind it have a clear bit for every frame that boot asks for. */
  ghost predicate InGap(start: int, words: seq<Word>) {
    LowPages(start) + HEAP_PAGES <= |FreeBelow(words, FRAMES + 8 * Gap(start))|
  }

  /** Behind these bytes, where the directory lies, no bit has been set. */
  ghost predicate NothingBehind(start: int, words0: seq<Word>, words: seq<Word>) {
    forall n :: FRAMES + 8 * Gap(start) <= n ==> (Used(words, n) <==> Used(words0, n))
  }

  ghost predicate FullBehind(start: int, words: seq<Word>) {
    forall n :: FRAMES + 8 * Gap(start) <= n < WORD * |words| ==> Used(words, n)
  }

  lemma {:induction false} AllFree(words: seq<Word>, limit: nat)
    requires forall n :: 0 <= n < limit ==> !Used(words, n)
    ensures |FreeBelow(words, limit)| == limit
  {
    if limit > 0 {
      AllFree(words, limit - 1);
      assert FreeBelow(words, limit) == FreeBelow(words, limit - 1) + {limit - 1};
    } else {
      assert FreeBelow(words, limit) == {};
    }
  }

  /** When those bytes are clear the test is one on where the kernel ends; it succeeds for every gap of at least
      1024 bytes. */
  lemma {:induction false} InGapIff(start: int, words: seq<Word>)
    requires |words| == FRAMES && forall n :: 0 <= n < FRAMES + 8 * Gap(start) ==> !Used(words, n)
    ensures InGap(start, words) <==> LowPages(start) + HEAP_PAGES <= FRAMES + 8 * Gap(start)
    ensures LowPages(start) < FRAMES && Gap(start) >= 1024 ==> InGap(start, words)
  {
    FirstRecords(start);
    AllFree(words, FRAMES + 8 * Gap(start));
  }

  lemma {:induction false} FreeAtMost(words: seq<Word>, limit: nat)
    ensures |FreeBelow(words, limit)| <= limit
  {
    if limit > 0 {
      FreeAtMost(words, limit - 1);
      var less := FreeBelow(words, limit - 1);
      assert FreeBelow(words, limit) == if Used(words, limit - 1) then less else less + {limit - 1};
    } else {
      assert FreeBelow(words, limit) == {};
    }
  }

  /** Whatever the memory holds the test fails for every gap of at most 512 bytes; a kernel that ends at 0x120E00
      has none. */
  lemma {:induction false} GapTooShort(start: int, words: seq<Word>)
    requires 0 <= start && Gap(start) <= 512
    ensures !InGap(start, words) && Gap(0x120E00) == 0 && LowPages(0x120E00) == 302
  {
    FirstRecords(start);
    FreeAtMost(words, FRAMES + 8 * Gap(start));
  }

  /** Boot sets no bit behind the gap exactly when the frames that it asks for fit, or no bit is left there. */
  lemma {:induction false} StaysInGapIff(start: int, words0: seq<Word>, given: seq<int>, words: seq<Word>)
    requires |words0| == FRAMES && 0 <= start && Gives(words0, given, words, LowPages(start) + HEAP_PAGES)
    ensures NothingBehind(start, words0, words) <==> InGap(start, words0) || FullBehind(start, words0)
  {
    var limit := FRAMES + 8 * Gap(start);
    FirstRecords(start);
    WithinLimitIff(words0, given, limit);
    HandedOutIncreasing(words0, given);
    forall n ensures Used(words, n) <==> n in given || Used(words0, n) { AfterIs(words0, given, n); }
    AfterIs(words0, given, 0);
    if i :| 0 <= i < |given| && given[i] >= limit {
      assert Used(words, given[i]) && !Used(words0, given[i]);
    } else {
      assert forall n :: n in given ==> n < limit;
    }
  }

  lemma {:induction false} SelfMapped(s: Space, k: int, t: u32)
    requires Identity(s, k) && t % PAGE == 0 && PAGE <= t < k * PAGE <= HEAP_START
    ensures Located(s, t, t)
  {
    assert PageEntry(s, s.root, t / PAGE).Some?;
  }

  /** Every table is mapped to where it lies, so both walks lead to it from the moment paging is on. */
  lemma {:induction false} BootConsistent(s: Space, owner: map<nat, (u32, nat)>, home: map<u32, (u32, nat)>,
                                          words: seq<Word>, placement: int, k: int)
    requires BootInv(s, owner, home, words, placement) && Identity(s, k) && placement <= k * PAGE <= HEAP_START
    ensures Consistent(s, owner, home, words)
  {
    assert Loadable(s, s.root) by { SelfMapped(s, k, s.root); }
    assert Linked(s) by {
      forall d, i | d in s.dirs && 0 <= i < ENTRIES ensures d == s.root && SlotLinked(s, i) {
        BootSlot(s, placement, k, i);
      }
    }
  }

  ghost predicate SlotLinked(s: Space, i: nat)
    requires WellShaped(s) && i < ENTRIES
  {
    var dir := s.dirs[s.root];
    if dir.pageTables[i] == 0 then dir.pageTablesPhysical[i] == 0
    else dir.pageTablesPhysical[i] % PAGE == 7 && Located(s, dir.pageTables[i], dir.pageTablesPhysical[i] - 7)
  }

  lemma {:induction false} BootSlot(s: Space, placement: int, k: int, i: nat)
    requires WellShaped(s) && InPlace(s, placement) && Identity(s, k) && placement <= k * PAGE <= HEAP_START
    requires i < ENTRIES
    ensures SlotLinked(s, i)
  {
    var dir := s.dirs[s.root];
    var t := dir.pageTables[i];
    assert t != 0 ==> dir.pageTablesPhysical[i] == t + 7 && t % PAGE == 0;
    if t != 0 {
      SelfMapped(s, k, t);
      SevenAbove(t);
    }
  }

  lemma {:induction false} SevenAbove(t: int)
    requires t % PAGE == 0
    ensures (t + 7) % PAGE == 7
  {
  }

  class BootPaging {
    const bitmap: FrameBitmap
    const start: int      // where the kernel ends and its first record begins
    var placement: int
    var space: Space
    ghost var owner: map<nat, (u32, nat)>
    ghost var home: map<u32, (u32, nat)>

    ghost predicate Valid()
      reads this, bitmap.frames_
    {
      BootInv(space, owner, home, bitmap.frames_[..], placement) && bitmap.frames_.Length == FRAMES
      && PAGE <= placement
    }

    /** The kernel ends at start. The page directory is the first record; the bitmap has been zeroed. */
    constructor (bitmap: FrameBitmap, start: int)
      requires bitmap.frames_.Length == FRAMES && PAGE <= start && start + 4 * PAGE <= WORLD
      requires PrefixBusy(bitmap.frames_[..], 0)
      ensures Valid() && this.bitmap == bitmap && this.start == start
      ensures Identity(space, 0) && HeapUnmapped(space, 0) && Tabled(space, 0, 0)
      ensures space.root == DirectoryAt(start) && placement == DirectoryAt(start) + DIRECTORY_SIZE
    {
      var afterBitmap := start + FRAMES / 32 * 4;
      var dir := RoundUp(afterBitmap);
      this.bitmap, this.start := bitmap, start;
      placement := dir + DIRECTORY_SIZE;
      space := Space(map[], map[dir := PageDirectory(seq(ENTRIES, i => 0), seq(ENTRIES, i => 0), dir)], dir);
      owner, home := map[], map[];
    }

    /** The boot branch of kmalloc: addresses are physical addresses. */
    method Kmalloc(size: nat, align: bool) returns (addr: u32)
      requires PAGE <= placement && placement + PAGE + size <= WORLD
      modifies this`placement
      ensures addr == (if align then RoundUp(old(placement)) else old(placement)) && placement == addr + size
    {
      if align && placement % PAGE != 0 {
        placement := placement - placement % PAGE;
        placement := placement + PAGE;
      }
      addr := placement;
      placement := placement + size;
    }

    /** The entry of page n, in a new table if there was none. */
    method GetPage(n: nat) returns (t: u32, i: nat)
      requires Valid() && placement + 2 * PAGE <= WORLD && n / ENTRIES < ENTRIES
      modifies this`placement, this`space, this`home
      ensures Valid() && space.root == old(space.root)
      ensures space.root in space.dirs && t == space.dirs[space.root].pageTables[n / ENTRIES] && i == n % ENTRIES
      ensures Entered(old(space), space, n)
      ensures if old(PageEntry(space, space.root, n)).Some? then placement == old(placement) && space == old(space)
              else placement == RoundUp(old(placement)) + PAGE
    {
      t, i := space.dirs[space.root].pageTables[n / ENTRIES], n % ENTRIES;
      if t == 0 {
        ghost var s0, p0 := space, placement;
        t := Kmalloc(4 * ENTRIES, true);
        NewTable(s0, owner, home, bitmap.frames_[..], p0, n / ENTRIES, t);
        home := home[t := (s0.root, n / ENTRIES)];
        space := WithTable(space, space.root, n / ENTRIES, t, t);
      }
    }

    /** allocFrame on the entry of page a, user and writable. */
    method AllocFrame(a: nat) returns (ok: bool, ghost n: int)
      requires Valid() && a / ENTRIES < ENTRIES && PageEntry(space, space.root, a) == Some(EMPTY)
      modifies this`space, this`owner, bitmap.frames_
      ensures Valid() && space.root == old(space.root) && IsFirstFree(old(bitmap.frames_[..]), n) && ok == (n != -1)
      ensures bitmap.frames_[..] == if ok then Mark(old(bitmap.frames_[..]), n) else old(bitmap.frames_[..])
      ensures forall k :: Used(bitmap.frames_[..], k) <==> Used(old(bitmap.frames_[..]), k) || (ok && k == n)
      ensures Mapped(old(space), space, a, n)
    {
      var t, i := space.dirs[space.root].pageTables[a / ENTRIES], a % ENTRIES;
      ghost var words := bitmap.frames_[..];
      var p;
      ok, p, n := AllocPage(bitmap, space.tables[t][i], false, true);
      if ok {
        NewFrame(space, owner, home, words, bitmap.frames_[..], placement, a, p);
        owner := if p.frame == 0 then owner else owner[p.frame := (t, i)];
        space := WithPage(space, t, i, p);
      }
    }

    /** One round of the loop below. */
    method MakeHeapTable(m: nat)
      requires Valid() && Identity(space, 0) && HeapUnmapped(space, 0) && Tabled(space, 0, m)
      requires m < HEAP_PAGES && placement + 2 * PAGE <= WORLD
      modifies this`placement, this`space, this`home
      ensures Valid() && Identity(space, 0) && HeapUnmapped(space, 0) && Tabled(space, 0, m + 1)
      ensures placement == if m % ENTRIES == 0 then RoundUp(old(placement)) + PAGE else old(placement)
    {
      ghost var s0 := space;
      var t, j := GetPage(HEAP_PAGE + m);
      HeapTableEntered(s0, space, m);
    }

    /** The heap's page tables are made first, so that they lie below the region mapped next. */
    method MakeHeapTables()
      requires Valid() && Identity(space, 0) && HeapUnmapped(space, 0) && Tabled(space, 0, 0)
      requires placement + PAGE * (TablesFor(HEAP_PAGES) + 3) <= WORLD
      modifies this`placement, this`space, this`home
      ensures Valid() && Identity(space, 0) && HeapUnmapped(space, 0) && Tabled(space, 0, HEAP_PAGES)
      ensures placement == TablesEnd(old(placement), HEAP_PAGES)
    {
      var i, m := HEAP_START, 0;
      while i < HEAP_START + HEAP_SIZE
        invariant Valid() && Identity(space, 0) && HeapUnmapped(space, 0) && Tabled(space, 0, m)
        invariant 0 <= m <= HEAP_PAGES && i == (HEAP_PAGE + m) * PAGE
        invariant placement == TablesEnd(old(placement), m)
      {
        TablesEndStep(old(placement), m);
        MakeHeapTable(i / PAGE - HEAP_PAGE);
        i, m := i + PAGE, m + 1;
      }
    }

    /** One round of the loop below: page k gets frame k. */
    method MapPage(k: nat, ghost words0: seq<Word>, ghost given: seq<int>)
      requires Gives(words0, given, bitmap.frames_[..], k)
      requires Valid() && Identity(space, k) && HeapUnmapped(space, 0) && PrefixBusy(bitmap.frames_[..], k)
      requires k < FRAMES && placement + 2 * PAGE <= WORLD && Tabled(space, k, HEAP_PAGES)
      modifies this, bitmap.frames_
      ensures Valid() && Tabled(space, k + 1, HEAP_PAGES)
      ensures Identity(space, k + 1) && HeapUnmapped(space, 0) && PrefixBusy(bitmap.frames_[..], k + 1)
      ensures Gives(words0, given + [k as int], bitmap.frames_[..], k + 1)
      ensures placement == if k % ENTRIES == 0 then RoundUp(old(placement)) + PAGE else old(placement)
    {
      ghost var s0 := space;
      var t, j := GetPage(k);
      LowTableEntered(s0, space, k);
      ghost var words := bitmap.frames_[..];
      var ok;
      ghost var n;
      ok, n := AllocFrame(k);
      FirstFreeIsNext(words, k, n);
      HandedOutNext(words0, given, words, k, n);
    }

    /** Maps page k to frame k up to the moving end of what has been allocated; a new page table moves that end. */
    method MapLow() returns (k: nat, ghost given: seq<int>)
      requires Valid() && Identity(space, 0) && HeapUnmapped(space, 0) && PrefixBusy(bitmap.frames_[..], 0)
      requires Tabled(space, 0, HEAP_PAGES) && placement % PAGE == 0 && Moving(placement / PAGE + 1) < FRAMES
      modifies this, bitmap.frames_
      ensures Valid() && k == Moving(old(placement) / PAGE + 1) && Tabled(space, k, HEAP_PAGES)
      ensures placement == TablesEnd(old(placement), k) && placement + PAGE == k * PAGE
      ensures Identity(space, k) && HeapUnmapped(space, 0) && PrefixBusy(bitmap.frames_[..], k)
      ensures Gives(old(bitmap.frames_[..]), given, bitmap.frames_[..], k)
    {
      ghost var words0, from := bitmap.frames_[..], placement / PAGE + 1;
      var i := 0;
      k, given := 0, [];
      while i < placement + PAGE
        invariant Valid() && i == k * PAGE && k <= Moving(from) && Tabled(space, k, HEAP_PAGES)
        invariant Identity(space, k) && HeapUnmapped(space, 0) && PrefixBusy(bitmap.frames_[..], k)
        invariant placement == TablesEnd(old(placement), k) && (0 < k ==> k - 1 < from + TablesFor(k - 1))
        invariant Gives(words0, given, bitmap.frames_[..], k)
        decreases FRAMES - k
      {
        RoundBelow(old(placement), k);
        assert i / PAGE == k;
        MapPage(i / PAGE, words0, given);
        i, k, given := i + PAGE, k + 1, given + [k as int];
      }
      BelowEnd(old(placement), k);
      MovingIs(from, k);
    }

    /** One round of the loop below. */
    method MapHeapPage(ghost k: nat, m: nat, ghost words0: seq<Word>, ghost given: seq<int>)
      returns (ghost given': seq<int>)
      requires Valid() && m < HEAP_PAGES && Gives(words0, given, bitmap.frames_[..], k + m)
      requires Identity(space, k) && HeapFrames(space, k, m) && HeapUnmapped(space, m)
      requires PrefixBusy(bitmap.frames_[..], k + m)
      requires PageEntry(space, space.root, HEAP_PAGE + m).Some? && placement + 2 * PAGE <= WORLD
      modifies this, bitmap.frames_
      ensures Valid() && placement == old(placement) && space.root == old(space).root
      ensures Gives(words0, given', bitmap.frames_[..], k + m + 1)
      ensures Identity(space, k) && HeapFrames(space, k, m + 1) && HeapUnmapped(space, m + 1)
      ensures PrefixBusy(bitmap.frames_[..], k + m + 1)
      ensures forall a: nat {:trigger PageEntry(space, space.root, a)} ::
                PageEntry(space, space.root, a).Some? <==> old(PageEntry(space, space.root, a)).Some?
    {
      var t, j := GetPage(HEAP_PAGE + m);
      ghost var words, s0 := bitmap.frames_[..], space;
      var ok;
      ghost var n;
      ok, n := AllocFrame(HEAP_PAGE + m);
      if k + m < FRAMES { FirstFreeIsNext(words, k + m, n); }
      HeapPageMapped(s0, space, k, m, n);
      HandedOutNext(words0, given, words, k + m, n);
      given' := if n == -1 then given else given + [n];
    }

    /** Frames for the heap's pages, as long as the bitmap has any. When their bits do not fit in front of the
        directory, some are set in it, and nothing is promised of what it maps. */
    method MapHeap(ghost k: nat, ghost words0: seq<Word>, ghost given: seq<int>) returns (ghost given': seq<int>)
      requires Valid() && 0 < k < FRAMES && k == LowPages(start) && placement <= k * PAGE
      requires Identity(space, k) && HeapUnmapped(space, 0) && PrefixBusy(bitmap.frames_[..], k)
      requires Tabled(space, k, HEAP_PAGES) && Gives(words0, given, bitmap.frames_[..], k)
      modifies this, bitmap.frames_
      ensures PrefixBusy(bitmap.frames_[..], k + HEAP_PAGES)
      ensures Gives(words0, given', bitmap.frames_[..], k + HEAP_PAGES)
      ensures InGap(start, words0) ==>
                && Valid() && placement == old(placement)
                && Identity(space, k) && HeapFrames(space, k, HEAP_PAGES) && Tabled(space, k, HEAP_PAGES)
    {
      var i := HEAP_START;
      ghost var m := 0;
      given' := given;
      while i < HEAP_START + HEAP_SIZE
        invariant Valid() && placement == old(placement) && 0 <= m <= HEAP_PAGES && i == (HEAP_PAGE + m) * PAGE
        invariant Identity(space, k) && HeapFrames(space, k, m) && HeapUnmapped(space, m)
        invariant PrefixBusy(bitmap.frames_[..], k + m)
        invariant Tabled(space, k, HEAP_PAGES) && Gives(words0, given', bitmap.frames_[..], k + m)
      {
        given' := MapHeapPage(k, i / PAGE - HEAP_PAGE, words0, given');
        i, m := i + PAGE, m + 1;
      }
    }

    /** The whole of initialisePaging up to the switch. When the bits of all frames fit in front of the directory,
        every page below the end of what was allocated is mapped to itself, both walks agree everywhere, of the heap's
        pages exactly the first FRAMES - k have a frame of the bitmap, and no page table maps anything behind the
        heap. Otherwise a bit behind has been set, and nothing is promised of the directory that lies there, unless
        all bits behind were set before. The bitmap has no free frame left either way. */
    method InitialisePaging() returns (k: nat)
      requires Valid() && Identity(space, 0) && HeapUnmapped(space, 0) && Tabled(space, 0, 0)
      requires PrefixBusy(bitmap.frames_[..], 0)
      requires placement == DirectoryAt(start) + DIRECTORY_SIZE && PAGE <= start && LowPages(start) < FRAMES
      modifies this, bitmap.frames_
      ensures k == LowPages(start) && FreeBelow(bitmap.frames_[..], FRAMES) == {}
      ensures NothingBehind(start, old(bitmap.frames_[..]), bitmap.frames_[..])
              <==> InGap(start, old(bitmap.frames_[..])) || FullBehind(start, old(bitmap.frames_[..]))
      ensures InGap(start, old(bitmap.frames_[..])) ==>
                && Valid() && placement + PAGE == k * PAGE && Identity(space, k)
                && Consistent(space, owner, home, bitmap.frames_[..])
                && HeapFrames(space, k, HEAP_PAGES) && Used(bitmap.frames_[..], 0)
                && PageEntry(space, space.root, HEAP_PAGE + HEAP_PAGES) == None
      ensures InGap(start, old(bitmap.frames_[..])) ==>
                forall n: nat {:trigger PageEntry(space, space.root, n)} ::
                  var e := PageEntry(space, space.root, n);
                  var f := if n < HEAP_PAGE then n else k + n - HEAP_PAGE;
                  if n < k || (HEAP_PAGE <= n && f < FRAMES)
                  then e.Some? && e.value.present && e.value.rw && e.value.user && e.value.frame == f
                  else e.None? || (!e.value.present && e.value.frame == 0)
                       || (HEAP_PAGE <= n < HEAP_PAGE + HEAP_PAGES && e.value.frame >= FRAMES)
    {
      ghost var words0, given := bitmap.frames_[..], [];
      FirstRecords(start);
      MakeHeapTables();
      k, given := MapLow();
      given := MapHeap(k, words0, given);
      if InGap(start, words0) {
        BootConsistent(space, owner, home, bitmap.frames_[..], placement, k);
        NoTableBehind(space, k);
      }
      assert forall n :: 0 <= n < FRAMES ==> Used(bitmap.frames_[..], n);
      StaysInGapIff(start, words0, given, bitmap.frames_[..]);
    }
  }

  /** Page addresses of the heap that got a frame of the bitmap, each at most once. */
  ghost predicate HeapSupply(k: nat, supply: seq<u32>) {
    && (forall j :: 0 <= j < |supply| ==>
          supply[j] % PAGE == 0 && HEAP_START <= supply[j] && supply[j] / PAGE - HEAP_PAGE + k < FRAMES)
    && (forall i, j :: 0 <= i < j < |supply| ==> supply[i] != supply[j])
  }

  /** After boot everything is in place for paging at run time, with such addresses for kmalloc to hand out. */
  lemma {:induction false} BootGood(s: Space, owner: map<nat, (u32, nat)>, home: map<u32, (u32, nat)>, words: seq<Word>,
                                    placement: int, k: nat, supply: seq<u32>)
    requires BootInv(s, owner, home, words, placement) && Identity(s, k) && placement <= k * PAGE <= HEAP_START
    requires 0 < k < FRAMES
    requires HeapFrames(s, k, HEAP_PAGES) && |words| == FRAMES && Used(words, 0) && HeapSupply(k, supply)
    ensures Good(s, owner, home, words, supply)
  {
    BootConsistent(s, owner, home, words, placement, k);
    forall j | 0 <= j < |supply|
      ensures supply[j] !in s.tables && supply[j] !in s.dirs
      ensures Entry(s, s.root, supply[j]).Some? && Entry(s, s.root, supply[j]).value.frame != 0
    {
      assert HEAP_PAGE <= supply[j] / PAGE < HEAP_PAGE + HEAP_PAGES;
      assert PageEntry(s, s.root, supply[j] / PAGE).Some?;
    }
  }

  lemma {:induction false} RootSharesAll(s: Space, i: nat)
    requires WellShaped(s) && i <= ENTRIES
    ensures PrivateCount(s, s.root, i) == 0
  {
    if i > 0 { RootSharesAll(s, i - 1); }
  }

  /** Directory d of s translates every address as directory d0 of s0 does. */
  ghost predicate SameTranslation(s: Space, d: u32, s0: Space, d0: u32) {
    forall va: u32 :: Entry(s, d, va) == Entry(s0, d0, va)
  }

  ghost predicate SharesRoot(s: Space, d: u32) {
    WellShaped(s) && d in s.dirs && forall i :: 0 <= i < ENTRIES ==> !IsPrivate(s, d, i)
  }

  /** At boot the clone of the first directory translates every address as that one does and has no table of its own. */
  method CloneRoot(pmmu: PagingManagement) returns (pDir: u32)
    requires pmmu.Valid() && pmmu.supply != [] && pmmu.current == pmmu.space.root
    modifies pmmu, pmmu.bitmap.frames_, pmmu.ram
    ensures pmmu.Valid() && pDir == old(pmmu.supply)[0] && pmmu.supply == old(pmmu.supply)[1..]
    ensures SameTranslation(pmmu.space, pDir, old(pmmu.space), old(pmmu.space).root) && SharesRoot(pmmu.space, pDir)
    ensures KeepsUsed(old(pmmu.bitmap.frames_[..]), pmmu.bitmap.frames_[..])
  {
    ghost var s0, list, words0, ram0 := pmmu.space, pmmu.supply, pmmu.bitmap.frames_[..], pmmu.ram[..];
    ghost var copied := PrivateCount(s0, s0.root, ENTRIES);
    RootSharesAll(s0, ENTRIES);
    assert list[1 + copied..] == list[1..];
    pDir := pmmu.ClonePageDirectory(pmmu.space.root);
    assert pmmu.supply == list[1 + copied..];
    RootCloned(s0, pmmu.space, pDir, pmmu.home, words0, pmmu.bitmap.frames_[..], ram0, pmmu.ram[..]);
  }

  lemma {:induction false} RootCloned(s0: Space, s: Space, pDir: u32, home: map<u32, (u32, nat)>,
                                      words0: seq<Word>, words: seq<Word>, ram0: seq<FrameData>, ram: seq<FrameData>)
    requires WellShaped(s) && pDir in s.dirs && pDir !in s0.dirs && s.root == s0.root
    requires s.dirs == s0.dirs[pDir := s.dirs[pDir]] && |words| == |words0|
    requires DirProgress(s0, s0.root, s.(dirs := s0.dirs), s.dirs[pDir], pDir, home, ENTRIES, words0, words, ram0, ram)
    ensures SameTranslation(s, pDir, s0, s0.root) && SharesRoot(s, pDir) && KeepsUsed(words0, words)
  {
    SharesAll(s0, s, pDir, home);
  }

  /** The end of initialisePaging: the first clone becomes the current directory. */
  method StartPaging(bitmap: FrameBitmap, ram: array<FrameData>, space: Space, supply: seq<u32>,
                     ghost owner: map<nat, (u32, nat)>, ghost home: map<u32, (u32, nat)>)
    returns (pmmu: PagingManagement, pDir: u32, cr3: u32)
    requires ram as object != bitmap.frames_ as object && ram.Length <= WORD * bitmap.frames_.Length
    requires Good(space, owner, home, bitmap.frames_[..], supply) && supply != []
    modifies bitmap.frames_, ram
    ensures fresh(pmmu) && pmmu.Valid() && pmmu.current == pDir == supply[0] && pmmu.supply == supply[1..]
    ensures SameTranslation(pmmu.space, pDir, space, space.root) && SharesRoot(pmmu.space, pDir)
    ensures Translates(pmmu.space, cr3, pDir)
    ensures FreeBelow(old(bitmap.frames_[..]), FRAMES) == {} ==> FreeBelow(pmmu.bitmap.frames_[..], FRAMES) == {}
  {
    pmmu := new PagingManagement(bitmap, ram, space, space.root, supply, owner, home);
    pDir := CloneRoot(pmmu);
    cr3 := pmmu.SwitchPaging(pDir);
  }

  lemma {:induction false} SharesAll(s0: Space, s: Space, pDir: u32, home: map<u32, (u32, nat)>)
    requires WellShaped(s0) && WellShaped(s) && pDir in s.dirs && pDir !in s0.dirs && s.root == s0.root
    requires s.dirs == s0.dirs[pDir := s.dirs[pDir]]
    requires SlotsCloned(s0, s0.root, s.(dirs := s0.dirs), s.dirs[pDir], pDir, home, ENTRIES)
    ensures SameTranslation(s, pDir, s0, s0.root) && SharesRoot(s, pDir)
  {
    var dir := s.dirs[pDir];
    assert forall i :: 0 <= i < ENTRIES ==> dir.pageTables[i] == s0.dirs[s0.root].pageTables[i];
    assert s.dirs[s.root] == s0.dirs[s0.root];
    forall va: u32 ensures Entry(s, pDir, va) == Entry(s0, s0.root, va) {
      assert dir.pageTables[TableIndex(va)] == s0.dirs[s0.root].pageTables[TableIndex(va)];
    }
  }
}
