/** The tables that are missing for a page or a range of pages, and so the pages a mapping uses up. */
module MissingTables {
  import opened Words
  import opened PageTables
  import opened TableTrees
  import opened PageRanges

  /** No leaf above level `lvl` lies on the path; the code would descend through it. */
  predicate NoSuperpage(m: Tables, root: nat, path: Path, lvl: nat) {
    Lookup(m, root, 2, path).Leaf? ==> Lookup(m, root, 2, path).lvl <= lvl
  }

  /** No superpage lies above level `lvl` on the path of any address in a range. */
  ghost predicate RangeClear(m: Tables, root: nat, virt: nat, numBytes: nat, lvl: nat) {
    forall va: nat :: Distance(virt, va) < numBytes ==> NoSuperpage(m, root, PathOf(va), lvl)
  }

  /** How many tables are missing on a path below table `t` of level `k`, down to level `lvl`. */
  function Missing(m: Tables, t: nat, k: nat, path: Path, lvl: nat): nat
    requires k <= 2
    decreases k
  {
    if k <= lvl then 0
    else if t !in m || |m[t]| != ENTRIES || !IsValid(m[t][Index(path, k)]) then k - lvl
    else Missing(m, Target(m[t][Index(path, k)]), k - 1, path, lvl)
  }

  /** On the way down a path without superpages every valid entry above `lvl` is a branch. */
  lemma BranchOnPath(m: Tables, level: map<nat, nat>, root: nat, k: nat, path: Path, lvl: nat)
    requires Tree(m, level, root) && lvl < k <= 2 && NoSuperpage(m, root, path, lvl)
    requires Reach(m, root, k, path) in m && IsValid(m[Reach(m, root, k, path)][Index(path, k)])
    ensures IsBranch(m[Reach(m, root, k, path)][Index(path, k)])
  {
    hide IsValid, IsLeaf, Index, Reach;
    LookupOnPath(m, level, root, k, path);
  }

  // ---------------------------------------------------------------- places for tables

  /** The place of a table of level 0 or 1: the entries that lead to it. */
  datatype Place = Place(lvl: nat, path: Path)

  function PlaceOf(path: Path, lvl: nat): Place { Place(lvl, Path(0, if lvl == 0 then path.middle else 0, path.top)) }

  lemma SamePlaceIff(a: Path, b: Path, lvl: nat)
    requires lvl < 2
    ensures PlaceOf(a, lvl) == PlaceOf(b, lvl) <==> SamePath(a, b, lvl + 1)
  {
  }

  predicate Absent(m: Tables, root: nat, lvl: nat, path: Path)
    requires lvl <= 2
  {
    Reach(m, root, lvl, path) == NULL
  }

  lemma {:induction false} ReachSamePath(m: Tables, root: nat, lvl: nat, a: Path, b: Path)
    requires lvl < 2 && SamePath(a, b, lvl + 1)
    ensures Reach(m, root, lvl, a) == Reach(m, root, lvl, b)
    decreases 2 - lvl
  {
    if lvl < 1 {
      ReachSamePath(m, root, lvl + 1, a, b);
    }
  }

  /** The places without a table on a path, down to level `lvl`. */
  function MissingOn(m: Tables, root: nat, path: Path, lvl: nat): set<Place>
    requires lvl <= 2
    decreases 2 - lvl
  {
    if lvl == 2 then {}
    else MissingOn(m, root, path, lvl + 1) + if Absent(m, root, lvl, path) then {PlaceOf(path, lvl)} else {}
  }

  lemma {:induction false} InMissingOn(m: Tables, root: nat, path: Path, lvl: nat, p: Place)
    requires lvl <= 2
    ensures p in MissingOn(m, root, path, lvl)
            <==> lvl <= p.lvl < 2 && Absent(m, root, p.lvl, path) && p == PlaceOf(path, p.lvl)
    decreases 2 - lvl
  {
    hide Absent;
    if lvl < 2 {
      InMissingOn(m, root, path, lvl + 1, p);
    }
  }

  /** The count of the walk is the number of these places. */
  lemma MissingCount(m: Tables, level: map<nat, nat>, root: nat, path: Path, lvl: nat)
    requires Tree(m, level, root) && lvl <= 2 && NoSuperpage(m, root, path, lvl)
    ensures |MissingOn(m, root, path, lvl)| == Missing(m, root, 2, path, lvl)
  {
    hide NoSuperpage, IsValid, IsLeaf, Target, Index;
    if lvl < 2 {
      assert Reach(m, root, 2, path) == root;
      if IsValid(m[root][Index(path, 2)]) {
        BranchOnPath(m, level, root, 2, path, lvl);
        ReachLevel(m, level, root, 1, path);
        if lvl < 1 && IsValid(m[Reach(m, root, 1, path)][Index(path, 1)]) {
          BranchOnPath(m, level, root, 1, path, lvl);
          ReachLevel(m, level, root, 0, path);
        }
      }
    }
  }

  // ---------------------------------------------------------------- what a write does to the places

  /** A write to a table of level `lvl` changes no table of that level or above. */
  lemma {:induction false} ReachAbove(m: Tables, level: map<nat, nat>, root: nat, m': Tables, lvl: nat, t: nat, i: nat,
                                      k: nat, at: Path)
    requires Tree(m, level, root) && lvl <= k <= 2 && t in m && level[t] == lvl
    requires SameBut(m, m', t, i) && NULL !in m'
    ensures Reach(m', root, k, at) == Reach(m, root, k, at)
    decreases 2 - k
  {
    hide IsBranch, Target, Index;
    if k < 2 {
      ReachAbove(m, level, root, m', lvl, t, i, k + 1, at);
      ReachLevel(m, level, root, k + 1, at);
    }
  }

  /** A new table is reached in its own place, and every other table where it was. */
  lemma {:induction false} HangReach(m: Tables, level: map<nat, nat>, root: nat, lvl: nat, va: Path, p: nat, k: nat,
                                     at: Path)
    requires Tree(m, level, root) && 0 < lvl <= 2 && Reach(m, root, lvl, va) in m && k <= 2
    requires !IsValid(m[Reach(m, root, lvl, va)][Index(va, lvl)])
    requires p !in m && IsPage(p)
    ensures var m' := Write(m, Reach(m, root, lvl, va), Index(va, lvl), BranchTo(p))[p := NewTable()];
            Reach(m', root, k, at) == if k == lvl - 1 && SamePath(va, at, lvl) then p else Reach(m, root, k, at)
    decreases 2 - k
  {
    hide IsValid, IsLeaf, Target, Index, SamePath, BranchTo, NewTable;
    var t, i := Reach(m, root, lvl, va), Index(va, lvl);
    var m' := Write(m, t, i, BranchTo(p))[p := NewTable()];
    ReachLevel(m, level, root, lvl, va);
    BranchTarget(p);
    if k < 2 {
      HangReach(m, level, root, lvl, va, p, k + 1, at);
      ReachLevel(m, level, root, k + 1, at);
      if SamePath(va, at, lvl) {
        SameIndexes(va, at, lvl);
        PageFrom(m, level, root, m, lvl, va, lvl, at);
      }
      var u := Reach(m, root, k + 1, at);
      if k + 1 == lvl - 1 && SamePath(va, at, lvl) {
        NewTableEmpty(Index(at, k + 1));
      } else if u == t && Index(at, k + 1) == i {
        OffPath(m, level, root, lvl, va, k + 1, at);
      }
    }
  }

  /** A table is on the path at the level below `lvl`, and no other place has got or lost one. */
  ghost predicate TableAdded(m: Tables, m': Tables, root: nat, path: Path, lvl: nat) {
    forall at, k :: 0 <= k <= 2 ==>
      (Absent(m', root, k, at) <==> Absent(m, root, k, at) && !(k + 1 == lvl <= 2 && SamePath(path, at, lvl)))
  }

  lemma HangAdds(m: Tables, level: map<nat, nat>, root: nat, lvl: nat, va: Path, p: nat)
    requires Tree(m, level, root) && 0 < lvl <= 2 && Reach(m, root, lvl, va) in m
    requires !IsValid(m[Reach(m, root, lvl, va)][Index(va, lvl)])
    requires p !in m && IsPage(p)
    ensures var m' := Write(m, Reach(m, root, lvl, va), Index(va, lvl), BranchTo(p))[p := NewTable()];
            TableAdded(m, m', root, va, lvl)
  {
    hide IsValid, IsLeaf, Target, Index, SamePath, BranchTo, NewTable, Reach;
    var m' := Write(m, Reach(m, root, lvl, va), Index(va, lvl), BranchTo(p))[p := NewTable()];
    forall at, k | 0 <= k <= 2
      ensures Absent(m', root, k, at) <==> Absent(m, root, k, at) && !(k + 1 == lvl && SamePath(va, at, lvl))
    {
      HangReach(m, level, root, lvl, va, p, k, at);
    }
  }

  lemma PresentAdds(m: Tables, level: map<nat, nat>, root: nat, lvl: nat, path: Path)
    requires Tree(m, level, root) && 0 < lvl <= 2 && Reach(m, root, lvl - 1, path) != NULL
    ensures TableAdded(m, m, root, path, lvl)
  {
    hide Reach, SamePath;
    forall at | SamePath(path, at, lvl) ensures !Absent(m, root, lvl - 1, at) {
      ReachSamePath(m, root, lvl - 1, path, at);
    }
  }

  /** The tables on a path are there down to level `lvl`, and no other place has got or lost one. */
  ghost predicate Filled(m: Tables, m': Tables, root: nat, path: Path, lvl: nat) {
    forall at, k :: 0 <= k <= 2 ==>
      (Absent(m', root, k, at) <==> Absent(m, root, k, at) && !(lvl <= k < 2 && SamePath(path, at, k + 1)))
  }

  lemma FilledNone(m: Tables, root: nat, path: Path)
    ensures Filled(m, m, root, path, 2)
  {
  }

  lemma FilledDown(m0: Tables, m: Tables, m': Tables, root: nat, path: Path, lvl: nat)
    requires 0 < lvl <= 2 && Filled(m0, m, root, path, lvl) && TableAdded(m, m', root, path, lvl)
    ensures Filled(m0, m', root, path, lvl - 1)
  {
    hide Absent, SamePath;
  }

  // ---------------------------------------------------------------- a range

  /** The path of the byte `j` bytes into a range. */
  function PathAt(virt: nat, j: nat): Path { PathOf((virt + j) % WORD64) }

  predicate AbsentAt(m: Tables, root: nat, virt: nat, j: nat, lvl: nat)
    requires lvl <= 2
  {
    Absent(m, root, lvl, PathAt(virt, j))
  }

  /** The places without a table, down to level `lvl`, on the paths of bytes `i` to `n` of a range. */
  ghost function MissingIn(m: Tables, root: nat, virt: nat, i: nat, n: nat, lvl: nat): set<Place> {
    set j: nat, k: nat | i <= j < n && lvl <= k < 2 && AbsentAt(m, root, virt, j, k) :: PlaceOf(PathAt(virt, j), k)
  }

  /** How many tables a whole range is short of. */
  ghost function TablesNeeded(m: Tables, root: nat, startVirt: nat, endVirt: nat, lvl: nat): nat
    requires lvl <= 2
  {
    var size := PageSize(lvl);
    |MissingIn(m, root, AlignDown(startVirt, size), 0, RangeBytes(startVirt, endVirt, size), lvl)|
  }

  /** With a page mapped the tables on its path are there. */
  ghost predicate PathFilled(m: Tables, m': Tables, root: nat, path: Path, lvl: nat) {
    forall at, k :: lvl <= k < 2 ==> (Absent(m', root, k, at) <==> Absent(m, root, k, at) && !SamePath(path, at, k + 1))
  }

  /** The leaf at level `lvl` takes nothing away above. */
  lemma LeafFills(m0: Tables, m: Tables, level: map<nat, nat>, root: nat, path: Path, lvl: nat, pte: nat)
    requires Tree(m, level, root) && lvl <= 2 && Reach(m, root, lvl, path) in m && Filled(m0, m, root, path, lvl)
    ensures PathFilled(m0, Write(m, Reach(m, root, lvl, path), Index(path, lvl), pte), root, path, lvl)
  {
    hide Reach, SamePath, Index;
    ReachLevel(m, level, root, lvl, path);
    var t := Reach(m, root, lvl, path);
    var m' := Write(m, t, Index(path, lvl), pte);
    forall at, k | lvl <= k < 2 ensures Absent(m', root, k, at) == Absent(m, root, k, at) {
      ReachAbove(m, level, root, m', lvl, t, Index(path, lvl), k, at);
    }
  }

  /** The bytes of a page share its path down to its level. */
  lemma BytesOfPage(virt: nat, i: nat, j: nat, lvl: nat, k: nat)
    requires lvl <= 2 && virt % PageSize(lvl) == 0 && i % PageSize(lvl) == 0 && i <= j < i + PageSize(lvl) && j < VIRT
    requires lvl <= k < 2
    ensures SamePath(PathAt(virt, i), PathAt(virt, j), k + 1)
  {
    hide PageSize, PathOf, Distance, SamePage;
    DistanceOf(virt, j);
    PageOfRange(virt, i, lvl, (virt + j) % WORD64);
    SamePageIff((virt + i) % WORD64, (virt + j) % WORD64, lvl);
  }

  /** Of what is missing in the rest of a range, mapping a page leaves what is not missing on its path. */
  lemma MissingStep(m: Tables, m': Tables, root: nat, virt: nat, i: nat, n: nat, lvl: nat)
    requires lvl <= 2 && virt % PageSize(lvl) == 0 && i % PageSize(lvl) == 0 && i < n <= VIRT
    requires PathFilled(m, m', root, PathAt(virt, i), lvl)
    ensures MissingOn(m, root, PathAt(virt, i), lvl) <= MissingIn(m, root, virt, i, n, lvl)
    ensures MissingIn(m', root, virt, i + PageSize(lvl), n, lvl)
            == MissingIn(m, root, virt, i, n, lvl) - MissingOn(m, root, PathAt(virt, i), lvl)
  {
    hide PageSize, PathAt, PlaceOf, MissingOn, Absent, SamePath;
    MissingOfPage(m, root, virt, i, n, lvl);
    var path, size := PathAt(virt, i), PageSize(lvl);
    var before, after, gone := MissingIn(m, root, virt, i, n, lvl), MissingIn(m', root, virt, i + size, n, lvl),
        MissingOn(m, root, path, lvl);
    forall p ensures p in after <==> p in before - gone {
      InMissingOn(m, root, path, lvl, p);
      if p in after {
        var j: nat, k: nat :| i + size <= j < n && lvl <= k < 2 && AbsentAt(m', root, virt, j, k)
            && p == PlaceOf(PathAt(virt, j), k);
        assert AbsentAt(m, root, virt, j, k);
        SamePlaceIff(path, PathAt(virt, j), k);
        PlaceLevel(PathAt(virt, j), k);
      }
      if p in before - gone {
        var j: nat, k: nat :| i <= j < n && lvl <= k < 2 && AbsentAt(m, root, virt, j, k)
            && p == PlaceOf(PathAt(virt, j), k);
        SamePlaceIff(path, PathAt(virt, j), k);
        PlaceLevel(PathAt(virt, j), k);
        if SamePath(path, PathAt(virt, j), k + 1) {
          AbsentSame(m, root, k, path, PathAt(virt, j));
        } else if j < i + size {
          BytesOfPage(virt, i, j, lvl, k);
        }
        assert AbsentAt(m', root, virt, j, k);
      }
    }
  }

  lemma PlaceLevel(path: Path, k: nat)
    ensures PlaceOf(path, k).lvl == k
  {
  }

  lemma AbsentSame(m: Tables, root: nat, k: nat, a: Path, b: Path)
    requires k < 2 && SamePath(a, b, k + 1)
    ensures Absent(m, root, k, a) == Absent(m, root, k, b)
  {
    ReachSamePath(m, root, k, a, b);
  }

  lemma MissingOfPage(m: Tables, root: nat, virt: nat, i: nat, n: nat, lvl: nat)
    requires lvl <= 2 && i < n
    ensures MissingOn(m, root, PathAt(virt, i), lvl) <= MissingIn(m, root, virt, i, n, lvl)
  {
    hide PathAt, PlaceOf, MissingOn, Absent;
    forall p | p in MissingOn(m, root, PathAt(virt, i), lvl) ensures p in MissingIn(m, root, virt, i, n, lvl) {
      InMissingOn(m, root, PathAt(virt, i), lvl, p);
      assert AbsentAt(m, root, virt, i, p.lvl);
    }
  }

  lemma NothingMissing(m: Tables, root: nat, virt: nat, n: nat, lvl: nat)
    ensures MissingIn(m, root, virt, n, n, lvl) == {}
  {
  }
}
