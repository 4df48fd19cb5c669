/**
  Page directories and page tables as the kernel keeps them: records at
  addresses, linked by pointers for the software and by physical addresses for
  the processor (source/page.h, source/paging_management.cpp:133-297).
 */
module AddressSpaces {
  import opened Bytes
  import opened Frames

  const ENTRIES: int := 1024

  datatype Page = Page(present: bool, rw: bool, user: bool, accessed: bool, dirty: bool, unused: nat, frame: nat)

  const EMPTY: Page := Page(false, false, false, false, false, 0, 0)

  /** pageTables holds addresses, 0 for none; pageTablesPhysical is what the processor reads. */
  datatype PageDirectory = PageDirectory(pageTables: seq<u32>, pageTablesPhysical: seq<u32>, physicalAddress: u32)

  /** root is the first kernel directory. */
  datatype Space = Space(tables: map<u32, seq<Page>>, dirs: map<u32, PageDirectory>, root: u32)

  function TableIndex(va: u32): (i: nat)
    ensures i < ENTRIES
  {
    va / PAGE / ENTRIES
  }

  function PageIndex(va: u32): (i: nat)
    ensures i < ENTRIES
  {
    va / PAGE % ENTRIES
  }

  function ZeroTable(): (t: seq<Page>)
    ensures |t| == ENTRIES && forall i :: 0 <= i < ENTRIES ==> t[i] == EMPTY
  {
    seq(ENTRIES, i => EMPTY)
  }

  /** x | 0x7: present, writable, user. */
  function OrSeven(x: u32): u32 {
    x - x % 8 + 7
  }

  ghost predicate WellShaped(s: Space) {
    && s.root in s.dirs
    && (forall t :: t in s.tables ==> t != 0 && t % PAGE == 0 && |s.tables[t]| == ENTRIES)
    && (forall d :: d in s.dirs ==>
          |s.dirs[d].pageTables| == |s.dirs[d].pageTablesPhysical| == ENTRIES)
    && (forall d, i {:trigger s.dirs[d].pageTables[i]} ::
          d in s.dirs && 0 <= i < ENTRIES && s.dirs[d].pageTables[i] != 0 ==> s.dirs[d].pageTables[i] in s.tables)
  }

  /** The entry of page number n. */
  function PageEntry(s: Space, d: u32, n: nat): Option<Page> {
    if d in s.dirs && n / ENTRIES < |s.dirs[d].pageTables| then
      var t := s.dirs[d].pageTables[n / ENTRIES];
      if t in s.tables && n % ENTRIES < |s.tables[t]| then Some(s.tables[t][n % ENTRIES]) else None
    else None
  }

  /** The software walk: through pageTables. */
  function Entry(s: Space, d: u32, va: u32): Option<Page> {
    PageEntry(s, d, va / PAGE)
  }

  /** The kernel's own mapping puts the page-aligned address a at physical address base, for the processor too. */
  predicate Located(s: Space, a: u32, base: int) {
    var e := Entry(s, s.root, a);
    e.Some? && e.value.present && e.value.frame != 0 && base == e.value.frame * PAGE + a % PAGE
  }

  /** What a page entry allows under a directory entry, whose low bits are flags: a right needs the bit of both. */
  function Allowed(pde: u32, q: Page): Page {
    var flags := pde % PAGE;
    q.(rw := q.rw && flags % 4 >= 2, user := q.user && flags % 8 >= 4)
  }

  /** The processor's walk: the directory entry gives a physical base, and the table stored there gives the page
      entry; it translates only when both are marked present, with the rights that both give. */
  ghost predicate ProcessorReads(s: Space, d: u32, va: u32, p: Page) {
    && d in s.dirs && |s.dirs[d].pageTablesPhysical| == ENTRIES
    && var pde := s.dirs[d].pageTablesPhysical[TableIndex(va)];
       && pde % 2 == 1 && p.present
       && exists t :: t in s.tables && |s.tables[t]| == ENTRIES && Located(s, t, pde - pde % PAGE)
                      && p == Allowed(pde, s.tables[t][PageIndex(va)])
  }

  // ---------- What every operation keeps ----------

  /** Each frame in use belongs to one page entry, which is present, and is marked busy. */
  ghost predicate Owned(s: Space, owner: map<nat, (u32, nat)>, words: seq<Word>) {
    forall t, i :: t in s.tables && 0 <= i < |s.tables[t]| && s.tables[t][i].frame != 0 ==>
      && s.tables[t][i].present && s.tables[t][i].frame in owner && owner[s.tables[t][i].frame] == (t, i)
      && Used(words, s.tables[t][i].frame)
  }

  /** Each table stands at one index, in the directory it was made for or, if that is the root, in any. */
  ghost predicate Homed(s: Space, home: map<u32, (u32, nat)>) {
    forall d, i {:trigger s.dirs[d].pageTables[i]} ::
      d in s.dirs && 0 <= i < |s.dirs[d].pageTables| && s.dirs[d].pageTables[i] != 0 ==>
      var t := s.dirs[d].pageTables[i];
      && t in home && home[t].1 == i
      && (home[t].0 == d || (home[t].0 == s.root && s.root in s.dirs
                             && i < |s.dirs[s.root].pageTables| && s.dirs[s.root].pageTables[i] == t))
  }

  /** The two halves of a directory agree: an entry for the processor exactly where there is a table, and at its
      place. */
  ghost predicate Linked(s: Space) {
    forall d, i {:trigger s.dirs[d].pageTablesPhysical[i]} ::
      d in s.dirs && 0 <= i < |s.dirs[d].pageTables| == |s.dirs[d].pageTablesPhysical| ==>
      if s.dirs[d].pageTables[i] == 0 then s.dirs[d].pageTablesPhysical[i] == 0
      else s.dirs[d].pageTablesPhysical[i] % PAGE == 7
           && Located(s, s.dirs[d].pageTables[i], s.dirs[d].pageTablesPhysical[i] - 7)
  }

  /** The address that CR3 gets for a directory is where the kernel's mapping puts that directory. */
  ghost predicate Loadable(s: Space, d: u32)
    requires d in s.dirs
  {
    d % PAGE == 0 && Located(s, d, s.dirs[d].physicalAddress)
  }

  ghost predicate Based(s: Space) {
    forall d {:trigger Loadable(s, d)} :: d in s.dirs ==> Loadable(s, d)
  }

  ghost predicate Consistent(s: Space, owner: map<nat, (u32, nat)>, home: map<u32, (u32, nat)>, words: seq<Word>) {
    WellShaped(s) && Owned(s, owner, words) && Homed(s, home) && Linked(s) && Based(s)
  }

  /** Two pages of the kernel's memory, tables or directories, are never at the same physical place. */
  lemma {:induction false} LocatedInjective(s: Space, owner: map<nat, (u32, nat)>, home: map<u32, (u32, nat)>,
                                            words: seq<Word>, t: u32, t': u32, base: int)
    requires Consistent(s, owner, home, words)
    requires t % PAGE == 0 && t' % PAGE == 0 && Located(s, t, base) && Located(s, t', base)
    ensures t == t'
  {
    var root := s.dirs[s.root];
    var x, y := root.pageTables[TableIndex(t)], root.pageTables[TableIndex(t')];
    assert s.tables[x][PageIndex(t)].frame == s.tables[y][PageIndex(t')].frame;
    assert owner[s.tables[x][PageIndex(t)].frame] == (x, PageIndex(t));
    assert owner[s.tables[y][PageIndex(t')].frame] == (y, PageIndex(t'));
    assert x == y && PageIndex(t) == PageIndex(t');
    assert home[x].1 == TableIndex(t) && home[y].1 == TableIndex(t');
    assert t / PAGE == t' / PAGE;
  }

  /** For every directory and every address the processor finds the page entry that the software finds, with all its
      rights, if that is present, and else none. */
  lemma {:induction false} WalksAgree(s: Space, owner: map<nat, (u32, nat)>, home: map<u32, (u32, nat)>,
                                      words: seq<Word>, d: u32, va: u32, p: Page)
    requires Consistent(s, owner, home, words) && d in s.dirs
    ensures ProcessorReads(s, d, va, p) <==> Entry(s, d, va) == Some(p) && p.present
  {
    var i := TableIndex(va);
    var x := s.dirs[d].pageTables[i];
    assert Entry(s, d, va) == if x == 0 then None else Some(s.tables[x][PageIndex(va)]);
    if x == 0 {
      assert s.dirs[d].pageTablesPhysical[i] == 0;
    } else {
      PlaceOfTable(s, d, i);
      forall t | t in s.tables && Located(s, t, s.dirs[d].pageTablesPhysical[i] - 7) ensures t == x {
        LocatedInjective(s, owner, home, words, t, x, s.dirs[d].pageTablesPhysical[i] - 7);
      }
    }
  }

  /** The processor's walk from the address in CR3: what is stored there is taken for a directory. */
  ghost predicate WalkFrom(s: Space, cr3: int, va: u32, p: Page) {
    exists d :: d in s.dirs && Located(s, d, cr3) && ProcessorReads(s, d, va, p)
  }

  /** With cr3 loaded the processor translates as the software does in directory d. */
  ghost predicate Translates(s: Space, cr3: int, d: u32) {
    forall va: u32, p: Page {:trigger WalkFrom(s, cr3, va, p)} ::
      WalkFrom(s, cr3, va, p) <==> Entry(s, d, va) == Some(p) && p.present
  }

  /** Loading a directory's physicalAddress makes the processor translate as the software does in that directory. */
  lemma {:induction false} LoadedWalkAgrees(s: Space, owner: map<nat, (u32, nat)>, home: map<u32, (u32, nat)>,
                                            words: seq<Word>, d: u32, va: u32, p: Page)
    requires Consistent(s, owner, home, words) && d in s.dirs
    ensures WalkFrom(s, s.dirs[d].physicalAddress, va, p) <==> Entry(s, d, va) == Some(p) && p.present
  {
    var base := s.dirs[d].physicalAddress;
    WalksAgree(s, owner, home, words, d, va, p);
    assert Loadable(s, d);
    forall e | e in s.dirs && Located(s, e, base) ensures e == d {
      assert Loadable(s, e);
      LocatedInjective(s, owner, home, words, e, d, base);
    }
  }

  /** The address part of a directory entry is where its table is, and the entry takes no right away. */
  lemma {:induction false} PlaceOfTable(s: Space, d: u32, i: nat)
    requires WellShaped(s) && Linked(s) && d in s.dirs && i < ENTRIES && s.dirs[d].pageTables[i] != 0
    ensures var pde := s.dirs[d].pageTablesPhysical[i];
      && pde % 2 == 1 && pde - pde % PAGE == pde - 7 && Located(s, s.dirs[d].pageTables[i], pde - 7)
      && forall q: Page :: Allowed(pde, q) == q
  {
    var pde := s.dirs[d].pageTablesPhysical[i];
    assert pde % PAGE == 7;
  }

  /** A table that directory d does not share with the root belongs to no other directory. */
  lemma {:induction false} PrivateTables(s: Space, home: map<u32, (u32, nat)>, d: u32, d': u32, i: nat, j: nat)
    requires WellShaped(s) && Homed(s, home) && d in s.dirs && d' in s.dirs && d != d' && i < ENTRIES && j < ENTRIES
    requires s.dirs[d].pageTables[i] != 0 && s.dirs[d].pageTables[i] != s.dirs[s.root].pageTables[i]
    ensures s.dirs[d].pageTables[i] != s.dirs[d'].pageTables[j]
  {
    var t := s.dirs[d].pageTables[i];
    assert home[t].1 == i && home[t].0 == d;
  }

  /** Frames mapped through a private table are reached from no other page entry, in any directory. */
  lemma {:induction false} PrivateFrames(s: Space, owner: map<nat, (u32, nat)>, home: map<u32, (u32, nat)>,
                                         words: seq<Word>, d: u32, d': u32, va: u32, va': u32)
    requires Consistent(s, owner, home, words) && d in s.dirs && d' in s.dirs && d != d'
    requires s.dirs[d].pageTables[TableIndex(va)] != s.dirs[s.root].pageTables[TableIndex(va)]
    requires Entry(s, d, va).Some? && Entry(s, d', va').Some? && Entry(s, d, va).value.frame != 0
    ensures Entry(s, d', va').value.frame != Entry(s, d, va).value.frame
  {
    PrivateTables(s, home, d, d', TableIndex(va), TableIndex(va'));
    var x, y := s.dirs[d].pageTables[TableIndex(va)], s.dirs[d'].pageTables[TableIndex(va')];
    assert owner[s.tables[x][PageIndex(va)].frame] == (x, PageIndex(va));
  }

  // ---------- Single changes ----------

  function WithPage(s: Space, t: u32, i: nat, p: Page): Space
    requires t in s.tables && i < |s.tables[t]|
  {
    s.(tables := s.tables[t := s.tables[t][i := p]])
  }

  /** A new empty table t, in directory d at index i, which kmalloc reported at physical address phys. */
  function WithTable(s: Space, d: u32, i: nat, t: u32, phys: u32): Space
    requires d in s.dirs && i < |s.dirs[d].pageTables| && i < |s.dirs[d].pageTablesPhysical|
  {
    var dir := s.dirs[d];
    s.(tables := s.tables[t := ZeroTable()],
       dirs := s.dirs[d := dir.(pageTables := dir.pageTables[i := t],
                                pageTablesPhysical := dir.pageTablesPhysical[i := OrSeven(phys)])])
  }

  /** A new table or a changed page entry moves nothing whose frame is already set. */
  lemma {:induction false} LocatedKept(s: Space, s': Space, a: u32, base: int)
    requires WellShaped(s) && WellShaped(s') && s'.root == s.root && Located(s, a, base)
    requires forall i :: 0 <= i < ENTRIES && s.dirs[s.root].pageTables[i] != 0 ==>
               s'.dirs[s.root].pageTables[i] == s.dirs[s.root].pageTables[i]
    requires forall t, i :: t in s.tables && 0 <= i < ENTRIES && s.tables[t][i].frame != 0 ==>
               t in s'.tables && s'.tables[t][i].frame == s.tables[t][i].frame
               && (s.tables[t][i].present ==> s'.tables[t][i].present)
    ensures Located(s', a, base)
  {
  }

  lemma {:induction false} BasedKept(s: Space, s': Space)
    requires WellShaped(s) && WellShaped(s') && Based(s) && s'.root == s.root && s'.dirs.Keys == s.dirs.Keys
    requires forall d {:trigger s'.dirs[d].physicalAddress} :: d in s.dirs ==>
               s'.dirs[d].physicalAddress == s.dirs[d].physicalAddress
    requires forall i :: 0 <= i < ENTRIES && s.dirs[s.root].pageTables[i] != 0 ==>
               s'.dirs[s.root].pageTables[i] == s.dirs[s.root].pageTables[i]
    requires forall t, i :: t in s.tables && 0 <= i < ENTRIES && s.tables[t][i].frame != 0 ==>
               t in s'.tables && s'.tables[t][i].frame == s.tables[t][i].frame
               && (s.tables[t][i].present ==> s'.tables[t][i].present)
    ensures Based(s')
  {
    forall d | d in s'.dirs ensures Loadable(s', d) {
      assert Loadable(s, d) && s'.dirs[d].physicalAddress == s.dirs[d].physicalAddress;
      LocatedKept(s, s', d, s.dirs[d].physicalAddress);
    }
  }

  /** Giving a page entry a frame that was not marked busy. */
  lemma {:induction false} WithPageConsistent(s: Space, owner: map<nat, (u32, nat)>, home: map<u32, (u32, nat)>,
                                              words: seq<Word>, words': seq<Word>, t: u32, i: nat, p: Page)
    requires Consistent(s, owner, home, words) && t in s.tables && i < ENTRIES
    requires s.tables[t][i].frame == 0 || p.frame == s.tables[t][i].frame
    requires forall n :: Used(words, n) ==> Used(words', n)
    requires p.frame != 0 && s.tables[t][i].frame == 0 ==> !Used(words, p.frame) && Used(words', p.frame)
    requires p.frame != 0 ==> p.present
    ensures Consistent(WithPage(s, t, i, p), if p.frame == 0 then owner else owner[p.frame := (t, i)], home, words')
  {
    var s' := WithPage(s, t, i, p);
    forall d, k | d in s'.dirs && 0 <= k < ENTRIES && s'.dirs[d].pageTables[k] != 0
      ensures Located(s', s'.dirs[d].pageTables[k], s'.dirs[d].pageTablesPhysical[k] - 7)
    {
      LocatedKept(s, s', s.dirs[d].pageTables[k], s.dirs[d].pageTablesPhysical[k] - 7);
    }
    BasedKept(s, s');
  }

  lemma {:induction false} OrSevenIs(x: u32)
    requires x % PAGE == 0
    ensures OrSeven(x) == x + 7 && OrSeven(x) % PAGE == 7
  {
    assert x == 8 * (512 * (x / PAGE));
  }

  lemma {:induction false} OrSevenAgain(x: u32)
    requires x % PAGE == 7
    ensures OrSeven(x) == x
  {
    assert x == 8 * (512 * (x / PAGE)) + 7;
  }

  lemma {:induction false} WithTableHomed(s: Space, home: map<u32, (u32, nat)>, d: u32, i: nat, t: u32, phys: u32)
    requires WellShaped(s) && Homed(s, home) && d in s.dirs && i < ENTRIES && s.dirs[d].pageTables[i] == 0
    requires t != 0 && t !in s.tables
    ensures Homed(WithTable(s, d, i, t, phys), home[t := (d, i)])
  {
    var s' := WithTable(s, d, i, t, phys);
    forall e, k | e in s'.dirs && 0 <= k < ENTRIES && s'.dirs[e].pageTables[k] != 0 && !(e == d && k == i)
      ensures s'.dirs[e].pageTables[k] == s.dirs[e].pageTables[k] && s.dirs[e].pageTables[k] in s.tables
    {
    }
  }

  lemma {:induction false} WithTableLinked(s: Space, d: u32, i: nat, t: u32, phys: u32)
    requires WellShaped(s) && Linked(s) && d in s.dirs && i < ENTRIES && s.dirs[d].pageTables[i] == 0
    requires WellShaped(WithTable(s, d, i, t, phys))
    requires t != 0 && t !in s.tables && Located(s, t, phys) && phys % PAGE == 0
    ensures Linked(WithTable(s, d, i, t, phys))
  {
    var s' := WithTable(s, d, i, t, phys);
    OrSevenIs(phys);
    LocatedKept(s, s', t, phys);
    forall e, k | e in s'.dirs && 0 <= k < ENTRIES && s'.dirs[e].pageTables[k] != 0 && !(e == d && k == i)
      ensures s'.dirs[e].pageTablesPhysical[k] == s.dirs[e].pageTablesPhysical[k]
      ensures Located(s', s'.dirs[e].pageTables[k], s'.dirs[e].pageTablesPhysical[k] - 7)
    {
      LocatedKept(s, s', s.dirs[e].pageTables[k], s.dirs[e].pageTablesPhysical[k] - 7);
    }
  }

  /** Adding an empty table at a fresh address that the kernel maps to phys. */
  lemma {:induction false} WithTableConsistent(s: Space, owner: map<nat, (u32, nat)>, home: map<u32, (u32, nat)>,
                                               words: seq<Word>, d: u32, i: nat, t: u32, phys: u32)
    requires Consistent(s, owner, home, words) && d in s.dirs && i < ENTRIES && s.dirs[d].pageTables[i] == 0
    requires t != 0 && t % PAGE == 0 && t !in s.tables && Located(s, t, phys) && phys % PAGE == 0
    ensures Consistent(WithTable(s, d, i, t, phys), owner, home[t := (d, i)], words)
  {
    WithTableHomed(s, home, d, i, t, phys);
    WithTableLinked(s, d, i, t, phys);
    BasedKept(s, WithTable(s, d, i, t, phys));
  }

  // ---------- Addresses from the kernel heap ----------

  /** The addresses that kmalloc will hand out next: unused, page-aligned, mapped by the kernel and alike in every
      directory. */
  ghost predicate Supplied(s: Space, supply: seq<u32>) {
    && (forall j {:trigger supply[j]} :: 0 <= j < |supply| ==>
          && supply[j] != 0 && supply[j] % PAGE == 0 && supply[j] !in s.tables && supply[j] !in s.dirs
          && Entry(s, s.root, supply[j]).Some? && Entry(s, s.root, supply[j]).value.frame != 0
          && Entry(s, s.root, supply[j]).value.present
          && forall d :: d in s.dirs ==> (TableIndex(supply[j]) < |s.dirs[d].pageTables| &&
                s.dirs[d].pageTables[TableIndex(supply[j])] == s.dirs[s.root].pageTables[TableIndex(supply[j])]))
    && (forall j, k :: 0 <= j < k < |supply| ==> supply[j] != supply[k])
  }

  ghost predicate Good(s: Space, owner: map<nat, (u32, nat)>, home: map<u32, (u32, nat)>, words: seq<Word>,
                       supply: seq<u32>)
  {
    Consistent(s, owner, home, words) && Supplied(s, supply) && Used(words, 0) && WORD * |words| <= 0x10_0000
  }

  lemma {:induction false} WithPageGood(s: Space, owner: map<nat, (u32, nat)>, home: map<u32, (u32, nat)>,
                                        words: seq<Word>, words': seq<Word>, supply: seq<u32>, t: u32, i: nat, p: Page)
    requires Good(s, owner, home, words, supply) && t in s.tables && i < ENTRIES && |words'| == |words|
    requires s.tables[t][i].frame == 0 || p.frame == s.tables[t][i].frame
    requires forall n :: Used(words, n) ==> Used(words', n)
    requires p.frame != 0 && s.tables[t][i].frame == 0 ==> !Used(words, p.frame) && Used(words', p.frame)
    requires p.frame != 0 ==> p.present
    ensures Good(WithPage(s, t, i, p), if p.frame == 0 then owner else owner[p.frame := (t, i)], home, words', supply)
  {
    WithPageConsistent(s, owner, home, words, words', t, i, p);
  }

  /** Unmapping a page of a table that is none of the root's changes nothing in the kernel's own mapping. */
  lemma {:induction false} UnmappedEntry(s: Space, t: u32, i: nat, a: u32)
    requires WellShaped(s) && t in s.tables && i < ENTRIES && t !in s.dirs[s.root].pageTables
    ensures var s' := WithPage(s, t, i, s.tables[t][i].(frame := 0));
      Entry(s', s.root, a) == Entry(s, s.root, a)
  {
    assert s.dirs[s.root].pageTables[TableIndex(a)] in s.dirs[s.root].pageTables;
  }

  lemma {:induction false} UnmappedLinked(s: Space, t: u32, i: nat)
    requires WellShaped(s) && Linked(s) && Based(s)
    requires t in s.tables && i < ENTRIES && t !in s.dirs[s.root].pageTables
    ensures var s' := WithPage(s, t, i, s.tables[t][i].(frame := 0)); WellShaped(s') && Linked(s') && Based(s')
  {
    var s' := WithPage(s, t, i, s.tables[t][i].(frame := 0));
    assert WellShaped(s');
    forall d | d in s'.dirs ensures Loadable(s', d) {
      assert Loadable(s, d);
      UnmappedEntry(s, t, i, d);
    }
    forall d, k | d in s'.dirs && 0 <= k < ENTRIES && s'.dirs[d].pageTables[k] != 0
      ensures s'.dirs[d].pageTablesPhysical[k] % PAGE == 7
      ensures Located(s', s'.dirs[d].pageTables[k], s'.dirs[d].pageTablesPhysical[k] - 7)
    {
      assert s.dirs[d].pageTablesPhysical[k] == s'.dirs[d].pageTablesPhysical[k];
      UnmappedEntry(s, t, i, s.dirs[d].pageTables[k]);
    }
  }

  lemma {:induction false} UnmappedGood(s: Space, owner: map<nat, (u32, nat)>, home: map<u32, (u32, nat)>,
                                        words: seq<Word>, supply: seq<u32>, t: u32, i: nat)
    requires Good(s, owner, home, words, supply) && t in s.tables && i < ENTRIES
    requires t !in s.dirs[s.root].pageTables
    ensures Good(WithPage(s, t, i, s.tables[t][i].(frame := 0)), owner, home, words, supply)
  {
    var s' := WithPage(s, t, i, s.tables[t][i].(frame := 0));
    UnmappedLinked(s, t, i);
    forall j | 0 <= j < |supply| ensures Entry(s', s.root, supply[j]) == Entry(s, s.root, supply[j]) {
      UnmappedEntry(s, t, i, supply[j]);
    }
  }

  lemma {:induction false} WithTableGood(s: Space, owner: map<nat, (u32, nat)>, home: map<u32, (u32, nat)>,
                                         words: seq<Word>, supply: seq<u32>, d: u32, i: nat, phys: u32)
    requires Good(s, owner, home, words, supply) && d in s.dirs && i < ENTRIES && s.dirs[d].pageTables[i] == 0
    requires supply != [] && Located(s, supply[0], phys)
    ensures Good(WithTable(s, d, i, supply[0], phys), owner, home[supply[0] := (d, i)], words, supply[1..])
  {
    var t, s', rest := supply[0], WithTable(s, d, i, supply[0], phys), supply[1..];
    WithTableConsistent(s, owner, home, words, d, i, t, phys);
    forall j | 0 <= j < |rest| ensures
      && rest[j] != 0 && rest[j] % PAGE == 0 && rest[j] !in s'.tables && rest[j] !in s'.dirs
      && Entry(s', s'.root, rest[j]).Some? && Entry(s', s'.root, rest[j]).value.frame != 0
      && Entry(s', s'.root, rest[j]).value.present
      && forall e :: e in s'.dirs ==> (TableIndex(rest[j]) < |s'.dirs[e].pageTables| &&
            s'.dirs[e].pageTables[TableIndex(rest[j])] == s'.dirs[s'.root].pageTables[TableIndex(rest[j])])
    {
      assert rest[j] == supply[j + 1];
    }
  }

  lemma {:induction false} BareTableConsistent(s: Space, owner: map<nat, (u32, nat)>, home: map<u32, (u32, nat)>,
                                               words: seq<Word>, t: u32)
    requires Consistent(s, owner, home, words) && t != 0 && t % PAGE == 0 && t !in s.tables
    ensures Consistent(s.(tables := s.tables[t := ZeroTable()]), owner, home, words)
  {
    var s' := s.(tables := s.tables[t := ZeroTable()]);
    assert WellShaped(s');
    forall d, k | d in s'.dirs && 0 <= k < ENTRIES && s'.dirs[d].pageTables[k] != 0
      ensures s'.dirs[d].pageTablesPhysical[k] == s.dirs[d].pageTablesPhysical[k]
      ensures Located(s', s'.dirs[d].pageTables[k], s'.dirs[d].pageTablesPhysical[k] - 7)
    {
      LocatedKept(s, s', s.dirs[d].pageTables[k], s.dirs[d].pageTablesPhysical[k] - 7);
    }
    BasedKept(s, s');
  }

  /** A new empty table that stands in no directory yet. */
  lemma {:induction false} BareTableGood(s: Space, owner: map<nat, (u32, nat)>, home: map<u32, (u32, nat)>,
                                         words: seq<Word>, supply: seq<u32>)
    requires Good(s, owner, home, words, supply) && supply != []
    ensures Good(s.(tables := s.tables[supply[0] := ZeroTable()]), owner, home, words, supply[1..])
  {
    var t, rest := supply[0], supply[1..];
    BareTableConsistent(s, owner, home, words, t);
    forall j | 0 <= j < |rest| ensures rest[j] == supply[j + 1] {}
  }

  lemma {:induction false} WithPageTwice(s: Space, t: u32, i: nat, p: Page, q: Page)
    requires t in s.tables && i < |s.tables[t]|
    ensures WithPage(WithPage(s, t, i, p), t, i, q) == WithPage(s, t, i, q)
  {
    assert s.tables[t][i := p][i := q] == s.tables[t][i := q];
    assert s.tables[t := s.tables[t][i := p]][t := s.tables[t][i := q]] == s.tables[t := s.tables[t][i := q]];
  }

  // ---------- getPage ----------

  /** Adding a table changes no entry that was there; the new table's pages are unmapped. */
  lemma {:induction false} WithTableEntries(s: Space, d: u32, i: nat, t: u32, phys: u32, e: u32, va: u32)
    requires WellShaped(s) && d in s.dirs && e in s.dirs && i < ENTRIES && s.dirs[d].pageTables[i] == 0 && t != 0
    requires t !in s.tables
    ensures Entry(WithTable(s, d, i, t, phys), e, va) ==
            if e == d && TableIndex(va) == i then Some(EMPTY) else Entry(s, e, va)
  {
  }

  /** In one directory, addresses on different pages have different page entries. */
  lemma {:induction false} EntriesDistinct(s: Space, home: map<u32, (u32, nat)>, d: u32, va: u32, va': u32)
    requires WellShaped(s) && Homed(s, home) && d in s.dirs && va / PAGE != va' / PAGE
    requires s.dirs[d].pageTables[TableIndex(va)] != 0 && s.dirs[d].pageTables[TableIndex(va')] != 0
    ensures (s.dirs[d].pageTables[TableIndex(va)], PageIndex(va))
            != (s.dirs[d].pageTables[TableIndex(va')], PageIndex(va'))
  {
  }
}
