/** What writing one entry of a tree of page tables does to the translation of every address. */
module TableTrees {
  import opened PageTables

  function NewTable(): (t: seq<nat>)
    ensures |t| == ENTRIES && forall i :: 0 <= i < ENTRIES ==> t[i] == 0
  {
    seq(ENTRIES, i => 0)
  }

  /** The table of level `lvl` that the walk for `va` comes to; NULL when it ends before. */
  function Reach(m: Tables, root: nat, lvl: nat, va: Path): nat
    requires lvl <= 2
    decreases 2 - lvl
  {
    if lvl == 2 then root
    else
      var t := Reach(m, root, lvl + 1, va);
      if t in m && |m[t]| == ENTRIES && IsBranch(m[t][Index(va, lvl + 1)]) then Target(m[t][Index(va, lvl + 1)])
          else NULL
  }

  /** The two memories have the same entries in the tables of the first, except perhaps entry `i` of `t`. */
  ghost predicate SameBut(m: Tables, m': Tables, t: nat, i: nat) {
    forall u :: u in m ==> u in m' && |m'[u]| == |m[u]|
                           && forall j :: 0 <= j < |m[u]| && !(u == t && j == i) ==> m'[u][j] == m[u][j]
  }

  // ---------------------------------------------------------------- paths

  lemma SameIndexes(a: Path, b: Path, lvl: nat)
    requires lvl <= 2
    ensures SamePath(a, b, lvl) <==> forall k :: lvl <= k <= 2 ==> Index(a, k) == Index(b, k)
  {
    var top, middle, low := Index(a, 2) == Index(b, 2), Index(a, 1) == Index(b, 1), Index(a, 0) == Index(b, 0);
  }

  lemma {:induction false} ReachLevel(m: Tables, level: map<nat, nat>, root: nat, lvl: nat, va: Path)
    requires Tree(m, level, root) && lvl <= 2
    ensures var t := Reach(m, root, lvl, va); t == NULL || (t in m && t in level && level[t] == lvl)
    decreases 2 - lvl
  {
    hide IsBranch, Target, Index;
    if lvl < 2 {
      ReachLevel(m, level, root, lvl + 1, va);
    }
  }

  /** A walk that comes to a table has come through a branch of a table one level up. */
  lemma ReachUp(m: Tables, level: map<nat, nat>, root: nat, lvl: nat, va: Path)
    requires Tree(m, level, root) && lvl < 2 && Reach(m, root, lvl, va) in m
    ensures var u := Reach(m, root, lvl + 1, va);
            u in m && u in level && level[u] == lvl + 1
            && IsBranch(m[u][Index(va, lvl + 1)]) && Target(m[u][Index(va, lvl + 1)]) == Reach(m, root, lvl, va)
  {
    hide IsBranch, Target, Index;
    ReachLevel(m, level, root, lvl + 1, va);
  }

  /** Two walks that come to one table have taken the same entries on the way. */
  lemma {:induction false} OnePath(m: Tables, level: map<nat, nat>, root: nat, lvl: nat, a: Path, b: Path)
    requires Tree(m, level, root) && lvl <= 2
    requires Reach(m, root, lvl, a) == Reach(m, root, lvl, b) && Reach(m, root, lvl, a) in m
    ensures forall k :: lvl < k <= 2 ==> Index(a, k) == Index(b, k)
    decreases 2 - lvl
  {
    hide IsBranch, Target, Index, Reach;
    if lvl < 2 {
      ReachUp(m, level, root, lvl, a);
      ReachUp(m, level, root, lvl, b);
      OnePath(m, level, root, lvl + 1, a, b);
    }
  }

  /** The entry written lies on the walk for `at` only in the pages of `va`. */
  lemma OffPath(m: Tables, level: map<nat, nat>, root: nat, lvl: nat, va: Path, k: nat, at: Path)
    requires Tree(m, level, root) && lvl <= 2 && k <= 2
    requires Reach(m, root, lvl, va) in m && Reach(m, root, k, at) in m
    requires Reach(m, root, k, at) == Reach(m, root, lvl, va) && Index(at, k) == Index(va, lvl)
    ensures k == lvl && SamePath(va, at, lvl)
  {
    hide IsBranch, Target, Index, Reach, SamePath;
    ReachLevel(m, level, root, lvl, va);
    ReachLevel(m, level, root, k, at);
    OnePath(m, level, root, lvl, va, at);
    SameIndexes(va, at, lvl);
  }

  /** The write leaves every walk that does not take the entry as it was. */
  lemma {:induction false} OthersFrom(m: Tables, level: map<nat, nat>, root: nat, m': Tables, lvl: nat, va: Path,
                                      k: nat, at: Path)
    requires Tree(m, level, root) && lvl <= 2 && k <= 2
    requires Reach(m, root, lvl, va) in m && SameBut(m, m', Reach(m, root, lvl, va), Index(va, lvl))
    requires !SamePath(va, at, lvl) && Reach(m, root, k, at) in m
    ensures Lookup(m', Reach(m, root, k, at), k, at) == Lookup(m, Reach(m, root, k, at), k, at)
    decreases k
  {
    hide IsValid, IsLeaf, Target, Index, SamePath, SameBut;
    var cur := Reach(m, root, k, at);
    EntryStays(m, level, root, m', lvl, va, k, at);
    if k > 0 && IsBranch(m[cur][Index(at, k)]) {
      assert Reach(m, root, k - 1, at) == Target(m[cur][Index(at, k)]);
      OthersFrom(m, level, root, m', lvl, va, k - 1, at);
    }
    assert Lookup(m', cur, k, at) == Lookup(m, cur, k, at);
  }

  lemma EntryStays(m: Tables, level: map<nat, nat>, root: nat, m': Tables, lvl: nat, va: Path, k: nat, at: Path)
    requires Tree(m, level, root) && lvl <= 2 && k <= 2
    requires Reach(m, root, lvl, va) in m && SameBut(m, m', Reach(m, root, lvl, va), Index(va, lvl))
    requires Reach(m, root, k, at) in m && (k != lvl || !SamePath(va, at, lvl))
    ensures var cur := Reach(m, root, k, at);
            cur in m' && |m'[cur]| == ENTRIES && m'[cur][Index(at, k)] == m[cur][Index(at, k)]
  {
    hide IsBranch, Target, Index, Reach, SamePath;
    if Reach(m, root, k, at) == Reach(m, root, lvl, va) && Index(at, k) == Index(va, lvl) {
      OffPath(m, level, root, lvl, va, k, at);
    }
  }

  lemma ReachDown(m: Tables, root: nat, lvl: nat, va: Path)
    requires 0 < lvl <= 2
    requires var t := Reach(m, root, lvl, va); t in m && |m[t]| == ENTRIES && IsBranch(m[t][Index(va, lvl)])
    ensures Reach(m, root, lvl - 1, va) == Target(m[Reach(m, root, lvl, va)][Index(va, lvl)])
  {
  }

  lemma LookupDown(m: Tables, t: nat, lvl: nat, at: Path)
    requires 0 < lvl <= 2 && t in m && |m[t]| == ENTRIES && IsBranch(m[t][Index(at, lvl)])
    ensures Lookup(m, t, lvl, at) == Lookup(m, Target(m[t][Index(at, lvl)]), lvl - 1, at)
  {
    hide Target, Index;
  }

  /** In the pages of `va` the walk still comes to the table that was written. */
  lemma {:induction false} PageFrom(m: Tables, level: map<nat, nat>, root: nat, m': Tables, lvl: nat, va: Path,
                                    k: nat, at: Path)
    requires Tree(m, level, root) && lvl <= k <= 2
    requires Reach(m, root, lvl, va) in m && SameBut(m, m', Reach(m, root, lvl, va), Index(va, lvl))
    requires SamePath(va, at, lvl)
    ensures Reach(m, root, k, va) in m && Reach(m, root, k, va) == Reach(m', root, k, at)
    ensures Lookup(m', root, 2, at) == Lookup(m', Reach(m, root, k, va), k, at)
    decreases 2 - k
  {
    if k < 2 {
      hide *;
      PageFrom(m, level, root, m', lvl, va, k + 1, at);
      ReachAll(m, level, root, lvl, va, k);
      ReachUp(m, level, root, k, va);
      EntryStays(m, level, root, m', lvl, va, k + 1, va);
      SameIndexes(va, at, lvl);
      ReachDown(m', root, k + 1, at);
      LookupDown(m', Reach(m, root, k + 1, va), k + 1, at);
    }
  }

  lemma {:induction false} ReachAll(m: Tables, level: map<nat, nat>, root: nat, lvl: nat, va: Path, k: nat)
    requires Tree(m, level, root) && lvl <= k <= 2 && Reach(m, root, lvl, va) in m
    ensures Reach(m, root, k, va) in m
    decreases k
  {
    hide IsBranch, Target, Index, Reach;
    if lvl < k {
      ReachAll(m, level, root, lvl, va, k - 1);
      ReachUp(m, level, root, k - 1, va);
    }
  }

  /** The walk from the top is the walk from any table on it. */
  lemma LookupOnPath(m: Tables, level: map<nat, nat>, root: nat, lvl: nat, va: Path)
    requires Tree(m, level, root) && lvl <= 2 && Reach(m, root, lvl, va) in m
    ensures Lookup(m, root, 2, va) == Lookup(m, Reach(m, root, lvl, va), lvl, va)
  {
    hide IsBranch, Target, Index, Reach, SamePath, Lookup;
    SameIndexes(va, va, lvl);
    PageFrom(m, level, root, m, lvl, va, lvl, va);
  }

  // ---------------------------------------------------------------- one write

  lemma ReachTop(m: Tables, root: nat, at: Path)
    ensures Reach(m, root, 2, at) == root
  {
  }

  lemma LeafKeepsTree(m: Tables, level: map<nat, nat>, root: nat, t: nat, i: nat, pte: nat)
    requires Tree(m, level, root) && t in m && i < ENTRIES && !IsBranch(pte)
    ensures Tree(Write(m, t, i, pte), level, root)
  {
    hide Target, IsBranch;
    var m' := Write(m, t, i, pte);
    forall u, j | u in m' && 0 <= j < ENTRIES && IsBranch(m'[u][j]) ensures m'[u][j] == m[u][j] {
    }
    assert Tree(m', level, root);
  }

  lemma LookupLeaf(m: Tables, t: nat, lvl: nat, at: Path, pte: nat)
    requires lvl <= 2 && t in m && |m[t]| == ENTRIES && m[t][Index(at, lvl)] == pte && IsValid(pte) && IsLeaf(pte)
    ensures Lookup(m, t, lvl, at) == Leaf(pte, lvl)
  {
  }

  /** Writing a leaf maps the pages of `va` to it and leaves every other address alone. */
  lemma WriteLeaf(m: Tables, level: map<nat, nat>, root: nat, lvl: nat, va: Path, pte: nat)
    requires Tree(m, level, root) && lvl <= 2 && Reach(m, root, lvl, va) in m && IsValid(pte) && IsLeaf(pte)
    ensures var m' := Write(m, Reach(m, root, lvl, va), Index(va, lvl), pte);
            && Tree(m', level, root)
            && forall at :: Lookup(m', root, 2, at) == if SamePath(va, at, lvl) then Leaf(pte, lvl)
                else Lookup(m, root, 2, at)
  {
    hide Target, Index, Reach, SamePath, Lookup;
    var t, i := Reach(m, root, lvl, va), Index(va, lvl);
    var m' := Write(m, t, i, pte);
    LeafKeepsTree(m, level, root, t, i, pte);
    assert SameBut(m, m', t, i);
    forall at ensures Lookup(m', root, 2, at) == if SamePath(va, at, lvl) then Leaf(pte, lvl)
        else Lookup(m, root, 2, at) {
      if SamePath(va, at, lvl) {
        PageFrom(m, level, root, m', lvl, va, lvl, at);
        SameIndexes(va, at, lvl);
        LookupLeaf(m', t, lvl, at, pte);
      } else {
        ReachTop(m, root, at);
        OthersFrom(m, level, root, m', lvl, va, 2, at);
      }
    }
  }

  lemma NewTableEmpty(j: nat)
    requires j < ENTRIES
    ensures !IsValid(NewTable()[j])
  {
  }

  lemma HangKeepsTree(m: Tables, level: map<nat, nat>, root: nat, lvl: nat, t: nat, i: nat, pte: nat, p: nat)
    requires Tree(m, level, root) && 0 < lvl <= 2 && t in m && level[t] == lvl && i < ENTRIES
    requires p !in m && p != NULL && Target(pte) == p
    ensures Tree(Write(m, t, i, pte)[p := NewTable()], level[p := lvl - 1], root)
  {
    hide Target, IsLeaf, IsValid, NewTable;
    var m', level' := Write(m, t, i, pte)[p := NewTable()], level[p := lvl - 1];
    forall j: nat | j < ENTRIES ensures !IsBranch(m'[p][j]) {
      NewTableEmpty(j);
    }
    forall u, j | u in m' && 0 <= j < ENTRIES && IsBranch(m'[u][j])
      ensures u in m && level'[u] == level[u]
      ensures if u == t && j == i then Target(m'[u][j]) == p
              else IsBranch(m[u][j]) && m'[u][j] == m[u][j] && Target(m[u][j]) != p
    {
      assert u != p;
      if u == t && j == i {
        assert m'[u][j] == pte;
      } else {
        assert m'[u][j] == m[u][j];
        assert Target(m[u][j]) in m;
      }
    }
  }

  /** Hanging an empty table below an invalid entry changes no translation. */
  lemma HangTable(m: Tables, level: map<nat, nat>, root: nat, lvl: nat, va: Path, p: nat)
    requires Tree(m, level, root) && 0 < lvl <= 2 && Reach(m, root, lvl, va) in m
    requires !IsValid(m[Reach(m, root, lvl, va)][Index(va, lvl)])
    requires p !in m && IsPage(p)
    ensures var m' := Write(m, Reach(m, root, lvl, va), Index(va, lvl), BranchTo(p))[p := NewTable()];
            && Tree(m', level[p := lvl - 1], root)
            && Reach(m', root, lvl - 1, va) == p
            && forall at :: Lookup(m', root, 2, at) == Lookup(m, root, 2, at)
  {
    hide Target, Index, Reach, SamePath, IsValid, IsLeaf, BranchTo, Lookup, NewTable;
    var t, i := Reach(m, root, lvl, va), Index(va, lvl);
    var m' := Write(m, t, i, BranchTo(p))[p := NewTable()];
    ReachLevel(m, level, root, lvl, va);
    BranchTarget(p);
    HangKeepsTree(m, level, root, lvl, t, i, BranchTo(p), p);
    assert SameBut(m, m', t, i);
    SameIndexes(va, va, lvl);
    PageFrom(m, level, root, m', lvl, va, lvl, va);
    ReachDown(m', root, lvl, va);
    forall at ensures Lookup(m', root, 2, at) == Lookup(m, root, 2, at) {
      if SamePath(va, at, lvl) {
        SameIndexes(va, at, lvl);
        PageFrom(m, level, root, m', lvl, va, lvl, at);
        PageFrom(m, level, root, m, lvl, va, lvl, at);
        EmptyBelow(m', t, lvl, at, p);
        LookupInvalid(m, t, lvl, at);
      } else {
        ReachTop(m, root, at);
        OthersFrom(m, level, root, m', lvl, va, 2, at);
      }
    }
  }

  lemma LookupInvalid(m: Tables, t: nat, lvl: nat, at: Path)
    requires lvl <= 2 && t in m && |m[t]| == ENTRIES && !IsValid(m[t][Index(at, lvl)])
    ensures Lookup(m, t, lvl, at) == Fault
  {
  }

  lemma EmptyBelow(m: Tables, t: nat, lvl: nat, at: Path, p: nat)
    requires 0 < lvl <= 2 && t in m && |m[t]| == ENTRIES && p in m && m[p] == NewTable()
    requires IsBranch(m[t][Index(at, lvl)]) && Target(m[t][Index(at, lvl)]) == p
    ensures Lookup(m, t, lvl, at) == Fault
  {
    hide Target, Index, IsLeaf, NewTable, IsValid;
    NewTableEmpty(Index(at, lvl - 1));
    LookupInvalid(m, p, lvl - 1, at);
  }
}
