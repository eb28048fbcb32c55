/** The methods of src/mmu.c over the tables in memory and the pages the page allocator still has. */
module Mmu {
  import opened Words
  import opened PageTables
  import opened TableTrees
  import opened PageRanges
  import opened MissingTables
  import opened Sv39

  lemma TreeRoot(m: Tables, level: map<nat, nat>, root: nat, path: Path)
    requires Tree(m, level, root)
    ensures root in m && Reach(m, root, 2, path) == root
  {
  }

  lemma NoneMissing(m: Tables, t: nat, path: Path, lvl: nat)
    requires lvl <= 2
    ensures Missing(m, t, lvl, path, lvl) == 0
  {
  }

  lemma EntryInTable(m: Tables, level: map<nat, nat>, root: nat, t: nat, i: nat)
    requires Tree(m, level, root) && t in m && i < ENTRIES
    ensures i < |m[t]| && |m[t]| == ENTRIES
    ensures IsBranch(m[t][i]) ==> t in level && level[t] > 0 && Target(m[t][i]) in m
  {
  }

  lemma SubsetSize<T>(a: set<T>, b: set<T>)
    requires a <= b
    ensures |a| <= |b| && |b - a| == |b| - |a|
  {
    assert b == a + (b - a);
  }

  class Mmu {
    var tables: Tables
    /** The pages `page_zalloc` will hand out, in whatever order. */
    var pool: seq<nat>
    ghost var level: map<nat, nat>

    ghost predicate PoolOk()
      reads this
    {
      && (forall k :: 0 <= k < |pool| ==> IsPage(pool[k]) && pool[k] !in tables)
      && forall j, k :: 0 <= j < k < |pool| ==> pool[j] != pool[k]
    }

    ghost predicate Valid(root: nat)
      reads this
    {
      Tree(tables, level, root) && PoolOk()
    }

    constructor (root: nat, pages: seq<nat>)
      requires IsPage(root) && root !in pages && forall k :: 0 <= k < |pages| ==> IsPage(pages[k])
      requires forall j, k :: 0 <= j < k < |pages| ==> pages[j] != pages[k]
      ensures Valid(root) && pool == pages
      ensures CleanBranches(tables) && forall va: nat :: Translation(tables, root, va) == PAGE_FAULT
    {
      tables := map[root := NewTable()];
      pool := pages;
      level := map[root := 2];
      new;
      forall j: nat | j < ENTRIES ensures !IsValid(tables[root][j]) {
        NewTableEmpty(j);
      }
    }

    /** `page_zalloc`: an empty page, or NULL. */
    method TableCreate() returns (p: nat)
      requires PoolOk()
      modifies `tables, `pool
      ensures PoolOk()
      ensures if old(pool) == [] then p == NULL && tables == old(tables) && pool == old(pool)
              else p == old(pool[0]) && pool == old(pool[1..]) && tables == old(tables)[p := NewTable()]
    {
      if |pool| == 0 {
        p := NULL;
      } else {
        p := pool[0];
        pool := pool[1..];
        tables := tables[p := NewTable()];
      }
    }

    /** Hangs a new table below an invalid entry, if there is a page left for it. */
    method Grow(tab: nat, pt: nat, path: Path, i: nat) returns (p: nat)
      requires Valid(tab) && 0 < i <= 2 && pt in tables && pt == Reach(tables, tab, i, path)
      requires !IsValid(tables[pt][Index(path, i)])
      modifies this
      ensures Valid(tab)
      ensures forall at :: Lookup(tables, tab, 2, at) == old(Lookup(tables, tab, 2, at))
      ensures if old(pool) == [] then p == NULL && tables == old(tables) && pool == old(pool)
              else p != NULL && p in tables && tables[p] == NewTable() && p == Reach(tables, tab, i - 1, path)
                   && pool == old(pool[1..])
      ensures p != NULL ==> TableAdded(old(tables), tables, tab, path, i)
      ensures old(CleanBranches(tables)) ==> CleanBranches(tables)
    {
      hide IsValid, IsLeaf, Index, Reach, Target, BranchTo, Lookup, NewTable, CleanBranches, TableAdded;
      p := TableCreate();
      if p != NULL {
        HangTable(old(tables), level, tab, i, path, p);
        HangAdds(old(tables), level, tab, i, path, p);
        if old(CleanBranches(tables)) {
          HangKeepsClean(old(tables), pt, Index(path, i), p);
        }
        tables := Write(tables, pt, Index(path, i), BranchTo(p));
        level := level[p := i - 1];
        assert tables == Write(old(tables), pt, Index(path, i), BranchTo(p))[p := NewTable()];
      }
    }

    /** One turn of the loop of `mmu_map`: makes sure the entry at level `i` is a branch and follows it. */
    method Descend(tab: nat, pt: nat, path: Path, i: nat, ghost lvl: nat) returns (next: nat)
      requires Valid(tab) && lvl < i <= 2 && pt in tables && pt == Reach(tables, tab, i, path)
      requires NoSuperpage(tables, tab, path, lvl)
      modifies this
      ensures Valid(tab)
      ensures forall at :: Lookup(tables, tab, 2, at) == old(Lookup(tables, tab, 2, at))
      ensures next != NULL ==> next in tables && next == Reach(tables, tab, i - 1, path)
      ensures next != NULL ==> |pool| - Missing(tables, next, i - 1, path, lvl)
                               == old(|pool| - Missing(tables, pt, i, path, lvl))
      ensures next == NULL ==> old(|pool| < Missing(tables, pt, i, path, lvl))
      ensures next != NULL ==> TableAdded(old(tables), tables, tab, path, i)
      ensures old(CleanBranches(tables)) ==> CleanBranches(tables)
    {
      hide IsValid, IsLeaf, Index, Reach, Target, BranchTo, IsPage, Lookup, NewTable, TableAdded, CleanBranches;
      var pte := tables[pt][Index(path, i)];
      if !IsValid(pte) {
        next := Grow(tab, pt, path, i);
        if next != NULL {
          NewTableEmpty(Index(path, i - 1));
        }
      } else {
        BranchOnPath(tables, level, tab, i, path, lvl);
        ReachDown(tables, tab, i, path);
        next := Target(pte);
        PresentAdds(tables, level, tab, i, path);
      }
    }

    /** `mmu_map` along a path: the leaf goes to the entry at level `lvl`. */
    method MapPath(tab: nat, path: Path, paddr: nat, lvl: nat, bits: nat) returns (ok: bool)
      requires Valid(tab) && lvl <= 2 && GoodBits(bits) && NoSuperpage(tables, tab, path, lvl)
      modifies this
      ensures Valid(tab)
      ensures ok <==> old(Missing(tables, tab, 2, path, lvl) <= |pool|)
      ensures ok ==> |pool| == old(|pool| - Missing(tables, tab, 2, path, lvl))
      ensures ok ==> PathFilled(old(tables), tables, tab, path, lvl)
      ensures old(CleanBranches(tables)) ==> CleanBranches(tables)
      ensures forall at :: Lookup(tables, tab, 2, at)
                           == if ok && SamePath(path, at, lvl) then Leaf(LeafTo(paddr, bits), lvl)
                              else old(Lookup(tables, tab, 2, at))
    {
      hide IsValid, IsLeaf, Index, Target, Lookup, LeafTo, GoodBits, Tree, Missing, Filled, PathFilled, CleanBranches;
      ok := true;
      var pt, i := tab, 2;
      assert tab in tables && Reach(tables, tab, 2, path) == tab by { TreeRoot(tables, level, tab, path); }
      FilledNone(tables, tab, path);
      while i > lvl && ok
        invariant lvl <= i <= 2 && Valid(tab) && NoSuperpage(tables, tab, path, lvl)
        invariant forall at :: Lookup(tables, tab, 2, at) == old(Lookup(tables, tab, 2, at))
        invariant ok ==> pt in tables && pt == Reach(tables, tab, i, path)
        invariant ok ==> |pool| - Missing(tables, pt, i, path, lvl) == old(|pool| - Missing(tables, tab, 2, path, lvl))
        invariant ok ==> Filled(old(tables), tables, tab, path, i)
        invariant old(CleanBranches(tables)) ==> CleanBranches(tables)
        invariant !ok ==> old(|pool| < Missing(tables, tab, 2, path, lvl))
        decreases i, ok
      {
        ghost var was := tables;
        pt := Descend(tab, pt, path, i, lvl);
        if pt == NULL {
          ok := false;
        } else {
          FilledDown(old(tables), was, tables, tab, path, i);
          i := i - 1;
        }
      }
      if ok {
        NoneMissing(tables, pt, path, lvl);
        LeafTarget(paddr, bits);
        WriteLeaf(tables, level, tab, lvl, path, LeafTo(paddr, bits));
        EntryInTable(tables, level, tab, pt, Index(path, lvl));
        LeafFills(old(tables), tables, level, tab, path, lvl, LeafTo(paddr, bits));
        if CleanBranches(tables) {
          LeafKeepsClean(tables, pt, Index(path, lvl), LeafTo(paddr, bits));
        }
        tables := Write(tables, pt, Index(path, lvl), LeafTo(paddr, bits));
      }
    }

    /** `mmu_map`. */
    method Map(tab: nat, vaddr: nat, paddr: nat, lvl: nat, bits: nat) returns (ok: bool)
      requires tab != NULL ==> Valid(tab)
      requires tab != NULL && lvl <= 2 ==> NoSuperpage(tables, tab, PathOf(vaddr), lvl)
      requires bits < 0x400
      modifies this
      ensures tab != NULL ==> Valid(tab)
      ensures ok <==> tab != NULL && lvl <= 2 && IsLeaf(bits)
                      && old(Missing(tables, tab, 2, PathOf(vaddr), lvl) <= |pool|)
      ensures ok ==> |pool| == old(|pool| - Missing(tables, tab, 2, PathOf(vaddr), lvl))
      ensures ok ==> PathFilled(old(tables), tables, tab, PathOf(vaddr), lvl)
      ensures if ok then PageLeaves(tables, old(tables), tab, vaddr, Leaf(LeafTo(paddr, bits), lvl), lvl)
              else forall va: nat :: Lookup(tables, tab, 2, PathOf(va)) == old(Lookup(tables, tab, 2, PathOf(va)))
      ensures ok ==> forall va: nat :: SamePage(vaddr, va, lvl) ==>
                Lookup(tables, tab, 2, PathOf(va))
                == Leaf(paddr / 0x1000 % 0x1000_0000_0000 * 0x400 + bits + (1 - bits % 2), lvl)
      ensures old(CleanBranches(tables)) ==> CleanBranches(tables)
      ensures ok && old(CleanBranches(tables)) ==> MachineMapped(tables, old(tables), tab, vaddr, paddr, lvl, bits)
      ensures forall va: nat :: Translation(tables, tab, va)
                                == if ok && SamePage(vaddr, va, lvl) then InPage(paddr, lvl, va)
                                   else old(Translation(tables, tab, va))
      ensures forall path, l: nat ::
                lvl <= l && old(NoSuperpage(tables, tab, path, l)) ==> NoSuperpage(tables, tab, path, l)
    {
      hide IsValid, IsLeaf, Index, Target, Lookup, LeafTo, InPage, SamePage, SamePath, PathOf, Tree, Missing, PoolOk,
        Resolve, PathFilled, CleanBranches, MachineMapped, PageLeaves;
      if tab == NULL || lvl > 2 || !IsLeaf(bits) {
        ok := false;
      } else {
        ok := MapPath(tab, PathOf(vaddr), paddr, lvl, bits);
        forall va: nat | ok && SamePage(vaddr, va, lvl) ensures Translation(tables, tab, va) == InPage(paddr, lvl, va) {
          SamePageIff(vaddr, va, lvl);
          LeafResolves(paddr, bits, lvl, va);
        }
        forall va: nat | !(ok && SamePage(vaddr, va, lvl))
          ensures Translation(tables, tab, va) == old(Translation(tables, tab, va))
        {
          SamePageIff(vaddr, va, lvl);
        }
        if ok {
          LeavesOfPath(tables, old(tables), tab, vaddr, Leaf(LeafTo(paddr, bits), lvl), lvl);
          LeafIs(paddr, bits);
          LeavesAt(tables, old(tables), tab, vaddr, Leaf(LeafTo(paddr, bits), lvl), lvl);
        }
        if ok && old(CleanBranches(tables)) {
          PageForMachine(tables, old(tables), tab, vaddr, paddr, lvl, bits);
        }
      }
    }

    /** `mmu_translate`. */
    method Translate(tab: nat, vaddr: nat) returns (result: nat)
      requires tab != NULL ==> Valid(tab)
      ensures result == if tab == NULL then 0xFFFF_FFFF_FFFF_FFFF else Translation(tables, tab, vaddr)
      ensures tab != NULL && Lookup(tables, tab, 2, PathOf(vaddr)).Fault? ==> result == 0xFFFF_FFFF_FFFF_FFFF
    {
      hide IsValid, IsLeaf, Index, Target, PathOf;
      if tab == NULL {
        return PAGE_FAULT;
      }
      var vpn := PathOf(vaddr);
      var t: nat, i: nat, lvl: nat := tab, 2, 2;
      while true
        invariant i <= 2 && t in tables && t == Reach(tables, tab, i, vpn)
        invariant Lookup(tables, tab, 2, vpn) == Lookup(tables, t, i, vpn)
        decreases i
      {
        EntryInTable(tables, level, tab, t, Index(vpn, i));
        ReachLevel(tables, level, tab, i, vpn);
        var pte := tables[t][Index(vpn, i)];
        if !IsValid(pte) {
          return PAGE_FAULT;
        } else if !IsLeaf(pte) {
          ReachDown(tables, tab, i, vpn);
          t := Target(pte);
          i := i - 1;
        } else {
          lvl := i;
          break;
        }
      }
      var size := PageSize(lvl);
      var paddr := Target(tables[t][Index(vpn, lvl)]);
      result := paddr - paddr % size + vaddr % size;
    }

    /** The tables that are missing for a page are among those that are missing for the range. */
    lemma PagesNeeded(tab: nat, virt: nat, i: nat, numBytes: nat, lvl: nat)
      requires Valid(tab) && lvl <= 2 && i < numBytes && NoSuperpage(tables, tab, PathAt(virt, i), lvl)
      ensures var need := MissingOn(tables, tab, PathAt(virt, i), lvl);
              && need <= MissingIn(tables, tab, virt, i, numBytes, lvl)
              && |need| == Missing(tables, tab, 2, PathAt(virt, i), lvl)
              && |need| <= |MissingIn(tables, tab, virt, i, numBytes, lvl)|
              && |MissingIn(tables, tab, virt, i, numBytes, lvl) - need|
                  == |MissingIn(tables, tab, virt, i, numBytes, lvl)| - |need|
    {
      hide MissingOn, MissingIn, Missing, NoSuperpage, PathAt;
      MissingOfPage(tables, tab, virt, i, numBytes, lvl);
      MissingCount(tables, level, tab, PathAt(virt, i), lvl);
      SubsetSize(MissingOn(tables, tab, PathAt(virt, i), lvl), MissingIn(tables, tab, virt, i, numBytes, lvl));
    }

    /** One page of a range. */
    method MapOne(tab: nat, virt: nat, phys: nat, i: nat, lvl: nat, bits: nat, numBytes: nat, ghost was: Tables)
      returns (ok: bool)
      requires tab != NULL ==> Valid(tab)
      requires lvl <= 2 && bits < 0x400 && i < numBytes <= VIRT
      requires virt % PageSize(lvl) == 0 && phys % PageSize(lvl) == 0 && i % PageSize(lvl) == 0
      requires tab != NULL ==> RangeClear(tables, tab, virt, numBytes, lvl)
      requires Mapped(tables, was, tab, virt, phys, i) && RangeLeaves(tables, was, tab, virt, phys, i, lvl, bits)
      modifies this
      ensures tab != NULL ==> Valid(tab)
      ensures tab != NULL ==> RangeClear(tables, tab, virt, numBytes, lvl)
      ensures Mapped(tables, was, tab, virt, phys, if ok then i + PageSize(lvl) else i)
      ensures RangeLeaves(tables, was, tab, virt, phys, if ok then i + PageSize(lvl) else i, lvl, bits)
      ensures old(CleanBranches(tables)) ==> CleanBranches(tables)
      ensures ok ==> tab != NULL && IsLeaf(bits)
      ensures ok ==> |MissingIn(tables, tab, virt, i + PageSize(lvl), numBytes, lvl)| - |pool|
                     == old(|MissingIn(tables, tab, virt, i, numBytes, lvl)| - |pool|)
      ensures !ok ==> tab == NULL || !IsLeaf(bits) || old(|MissingIn(tables, tab, virt, i, numBytes, lvl)| > |pool|)
    {
      hide Translation, PageSize, SamePage, InPage, Distance, NoSuperpage, PathOf, Missing, IsLeaf, Valid, MissingIn,
        MissingOn, PathFilled, CleanBranches, RangeLeaves, PageLeaves, Lookup, LeafTo, MachineMapped;
      DistanceOf(virt, i);
      ghost var need := if tab == NULL then {} else MissingOn(tables, tab, PathAt(virt, i), lvl);
      if tab != NULL {
        PagesNeeded(tab, virt, i, numBytes, lvl);
      }
      ok := Map(tab, (virt + i) % WORD64, (phys + i) % WORD64, lvl, bits);
      if ok {
        MappedStep(was, old(tables), tables, tab, virt, phys, i, lvl);
        MissingStep(old(tables), tables, tab, virt, i, numBytes, lvl);
        RangeLeavesStep(was, old(tables), tables, tab, virt, phys, i, lvl, bits);
      } else {
        RangeLeavesStay(was, old(tables), tables, tab, virt, phys, i, lvl, bits);
      }
    }

    /** Every address between the ends of a range is mapped, once all of it is. */
    lemma MappedBetween(m: Tables, m0: Tables, tab: nat, startVirt: nat, endVirt: nat, startPhys: nat, size: nat,
                        i: nat)
      requires 0 < size && i <= VIRT && endVirt <= startVirt - startVirt % size + i
      requires Mapped(m, m0, tab, AlignDown(startVirt, size), AlignDown(startPhys, size), i)
      ensures forall va: nat :: startVirt <= va < endVirt ==>
                Translation(m, tab, va)
                == (startPhys - startPhys % size + (va - (startVirt - startVirt % size))) % 0x100_0000_0000_0000
    {
      hide Translation, Distance;
      forall va: nat | startVirt <= va < endVirt
        ensures Translation(m, tab, va)
                == (startPhys - startPhys % size + (va - (startVirt - startVirt % size))) % 0x100_0000_0000_0000
      {
        DistanceInRange(AlignDown(startVirt, size), va, i);
      }
    }

    lemma RangeAgrees(m0: Tables, tab: nat, virt: nat, phys: nat, i: nat, lvl: nat, bits: nat)
      requires lvl <= 2 && bits < 0x400 && BitsAccepted(bits) && phys % PageSize(lvl) == 0 && (i > 0 ==> IsLeaf(bits))
      requires CleanBranches(tables) && CleanBranches(m0) && RangeLeaves(tables, m0, tab, virt, phys, i, lvl, bits)
      ensures MachineAgrees(tables, m0, tab, virt, i)
    {
      if i > 0 {
        RangeForMachine(tables, m0, tab, virt, phys, i, lvl, bits);
      } else {
        EmptyRangeForMachine(tables, m0, tab, virt, phys, lvl, bits);
      }
    }

    /** `mmu_map_range`.  It maps page after page and stops at the first that cannot be mapped; `done` is
        how many bytes it came.  It comes to the end exactly when there are pages for all the tables that the
        range is short of. */
    method MapRange(tab: nat, startVirt: nat, endVirt: nat, startPhys: nat, lvl: nat, bits: nat)
      returns (pagesMapped: nat, done: nat)
      requires tab != NULL ==> Valid(tab)
      requires lvl <= 2 && bits < 0x400 && RangeBytes(startVirt, endVirt, PageSize(lvl)) <= VIRT
      requires tab != NULL ==> RangeClear(tables, tab, AlignDown(startVirt, PageSize(lvl)),
                                          RangeBytes(startVirt, endVirt, PageSize(lvl)), lvl)
      modifies this
      ensures tab != NULL ==> Valid(tab)
      ensures done <= RangeBytes(startVirt, endVirt, PageSize(lvl))
      ensures if done == RangeBytes(startVirt, endVirt, PageSize(lvl)) then pagesMapped * PageSize(lvl) == done
              else pagesMapped == 0
      ensures Mapped(tables, old(tables), tab, AlignDown(startVirt, PageSize(lvl)),
              AlignDown(startPhys, PageSize(lvl)), done)
      ensures forall va: nat :: Distance(AlignDown(startVirt, PageSize(lvl)), va) < done ==>
                var e := Lookup(tables, tab, 2, PathOf(va));
                e.Leaf? && e.lvl == lvl && e.pte % 0x400 == bits + (1 - bits % 2)
      ensures var size := PageSize(lvl);
              pagesMapped > 0 && startVirt <= endVirt && endVirt + size - 1 < 0x1_0000_0000_0000_0000 ==>
                && endVirt <= startVirt - startVirt % size + pagesMapped * size < endVirt + size
                && forall va: nat :: startVirt <= va < endVirt ==>
                     Translation(tables, tab, va)
                     == (startPhys - startPhys % size + (va - (startVirt - startVirt % size))) % 0x100_0000_0000_0000
      ensures pagesMapped > 0 <==> done == RangeBytes(startVirt, endVirt, PageSize(lvl)) > 0
      ensures done == RangeBytes(startVirt, endVirt, PageSize(lvl))
              <==> RangeBytes(startVirt, endVirt, PageSize(lvl)) == 0
                   || (tab != NULL && IsLeaf(bits) && old(TablesNeeded(tables, tab, startVirt, endVirt, lvl) <= |pool|))
      ensures old(CleanBranches(tables)) ==> CleanBranches(tables)
      ensures old(CleanBranches(tables)) && BitsAccepted(bits)
              ==> MachineAgrees(tables, old(tables), tab, AlignDown(startVirt, PageSize(lvl)), done)
      ensures done == RangeBytes(startVirt, endVirt, PageSize(lvl))
              ==> |pool| == old(|pool| - TablesNeeded(tables, tab, startVirt, endVirt, lvl))
    {
      hide PageSize, AlignDown, RangeBytes, NoSuperpage, RangeClear, Translation, MissingIn, IsLeaf,
        CleanBranches, RangeLeaves, MachineAgrees, BitsAccepted;
      var size := PageSize(lvl);
      AlignDownAligned(startVirt, size);
      AlignDownAligned(startPhys, size);
      RangeBytesAligned(startVirt, endVirt, lvl);
      var virt, phys := AlignDown(startVirt, size), AlignDown(startPhys, size);
      var numBytes := RangeBytes(startVirt, endVirt, size);
      var i: nat, ok := 0, true;
      RangeLeavesNone(tables, tab, virt, phys, lvl, bits);
      ghost var lack := |MissingIn(tables, tab, virt, 0, numBytes, lvl)| - |pool|;
      pagesMapped := 0;
      while i < numBytes && ok
        invariant tab != NULL ==> Valid(tab)
        invariant tab != NULL ==> RangeClear(tables, tab, virt, numBytes, lvl)
        invariant i <= numBytes && i == pagesMapped * size && i % size == 0
        invariant !ok ==> i < numBytes
        invariant Mapped(tables, old(tables), tab, virt, phys, i)
        invariant RangeLeaves(tables, old(tables), tab, virt, phys, i, lvl, bits)
        invariant old(CleanBranches(tables)) ==> CleanBranches(tables)
        invariant i > 0 ==> tab != NULL && IsLeaf(bits)
        invariant ok ==> |MissingIn(tables, tab, virt, i, numBytes, lvl)| - |pool| == lack
        invariant !ok ==> tab == NULL || !IsLeaf(bits) || lack > 0
        decreases numBytes - i, ok
      {
        ok := MapOne(tab, virt, phys, i, lvl, bits, numBytes, old(tables));
        if ok {
          NextMultiple(i, numBytes, size);
          pagesMapped := pagesMapped + 1;
          i := i + size;
        }
      }
      done := i;
      RangeFlags(tables, old(tables), tab, virt, phys, i, lvl, bits);
      if startVirt <= endVirt && endVirt + size - 1 < 0x1_0000_0000_0000_0000 && i == numBytes {
        RangeBytesReach(startVirt, endVirt, size);
        MappedBetween(tables, old(tables), tab, startVirt, endVirt, startPhys, size, i);
      }
      NothingMissing(tables, tab, virt, numBytes, lvl);
      if old(CleanBranches(tables)) && BitsAccepted(bits) {
        RangeAgrees(old(tables), tab, virt, phys, i, lvl, bits);
      }
      if i < numBytes {
        pagesMapped := 0;
      }
    }
  }
}
