/** Descriptors of memory ranges and the lists they are linked into. */
module BlockList {
  import opened Sequences
  import opened HeapModel

  class Block {
    var addr: nat
    var next: Block?
    var size: nat

    constructor ()
    {
      addr, next, size := 0, null, 0;
    }
  }

  /** The node at position `i` of a list, or null past its end. */
  ghost function At(s: seq<Block>, i: nat): Block? {
    if i < |s| then s[i] else null
  }

  ghost predicate Chained(s: seq<Block>)
    reads s
  {
    forall i {:trigger s[i].next} :: 0 <= i < |s| ==> s[i].next == At(s, i + 1)
  }

  /** `s` lists distinct nodes, all of them in `owned`. */
  ghost predicate Within(s: seq<Block>, owned: set<Block>) {
    && (forall i :: 0 <= i < |s| ==> s[i] in owned)
    && (forall i, j :: 0 <= i < j < |s| ==> s[i] != s[j])
  }

  ghost predicate List(head: Block?, s: seq<Block>, owned: set<Block>)
    reads owned
  {
    head == At(s, 0) && Within(s, owned) && Chained(s)
  }

  ghost function Elems(s: seq<Block>): set<Block> {
    set b | b in s
  }

  /** The address ranges a list of descriptors stands for. */
  ghost function Segs(s: seq<Block>): (r: seq<Seg>)
    reads s
    ensures |r| == |s|
    ensures forall i :: 0 <= i < |s| ==> r[i] == Seg(s[i].addr, s[i].size)
  {
    seq(|s|, i requires 0 <= i < |s| reads s => Seg(s[i].addr, s[i].size))
  }

  // ---------------------------------------------------------------- the loops, as facts about lists

  /** The two assignments that put `b` into a list. */
  lemma SplicedList(s: seq<Block>, owned: set<Block>, k: nat, b: Block)
    requires k <= |s| && Within(s, owned) && b !in owned
    requires forall i {:trigger s[i].next} :: 0 <= i < |s| && i + 1 != k ==> s[i].next == At(s, i + 1)
    requires 0 < k ==> s[k - 1].next == b
    requires b.next == At(s, k)
    ensures List(if k == 0 then b else s[0], Spliced(s, k, b), owned + {b})
    ensures Segs(Spliced(s, k, b)) == Spliced(Segs(s), k, Seg(b.addr, b.size))
  {
  }

  /** A maximal run of adjacent blocks at the head of a list becomes one block. */
  lemma {:induction false} CoalesceRun(fs: seq<Seg>, k: nat)
    requires k < |fs|
    requires forall m :: 0 <= m < k ==> fs[m].End() == fs[m + 1].addr
    requires k + 1 < |fs| ==> fs[k].End() != fs[k + 1].addr
    ensures fs[0].addr <= fs[k].addr
    ensures Coalesce(fs) == [Seg(fs[0].addr, fs[k].addr - fs[0].addr + fs[k].size)] + Coalesce(fs[k + 1..])
    decreases k
  {
    if k == 0 {
      if |fs| == 1 {
        assert fs == [fs[0]] + fs[1..];
      }
    } else {
      var m := Seg(fs[0].addr, fs[0].size + fs[1].size);
      var gs := [m] + fs[2..];
      if k == 1 {
        CoalesceRun(gs, 0);
        assert gs[1..] == fs[2..];
      } else {
        assert forall i :: 1 <= i < |gs| ==> gs[i] == fs[i + 1];
        CoalesceRun(gs, k - 1);
        assert gs[k..] == fs[k + 1..];
      }
    }
  }

  lemma {:induction false} FindUsedIs(us: seq<Seg>, p: nat, k: nat)
    requires k <= |us| && forall j :: 0 <= j < k ==> us[j].addr != p
    requires k < |us| ==> us[k].addr == p
    ensures FindUsed(us, p) == k
  {
    if FindUsed(us, p) < k {
    }
  }

  lemma {:induction false} FirstFitIs(fs: seq<Seg>, top: nat, limit: nat, n: nat, k: nat)
    requires k <= |fs| && forall j :: 0 <= j < k ==> !Fits(fs[j], top, limit, n)
    requires k < |fs| ==> Fits(fs[k], top, limit, n)
    ensures FirstFit(fs, top, limit, n) == k
  {
    if FirstFit(fs, top, limit, n) < k {
    }
  }

  ghost function Merged(segs: seq<Seg>, k: nat, j: nat): seq<Seg>
    requires k <= j < |segs| && segs[k].addr <= segs[j].addr
  {
    segs[..k] + [Seg(segs[k].addr, segs[j].addr - segs[k].addr + segs[j].size)] + segs[j + 1..]
  }

  lemma MergedParts(segs: seq<Seg>, k: nat, j: nat)
    requires k <= j < |segs| && segs[k].addr <= segs[j].addr
    ensures var m, after := Seg(segs[k].addr, segs[j].addr - segs[k].addr + segs[j].size), Merged(segs, k, j);
            && k < |after| <= |segs|
            && after[..k + 1] == segs[..k] + [m] && after[k + 1..] == segs[j + 1..]
    ensures j == k ==> Merged(segs, k, j) == segs
  {
  }

  lemma DropTwice<T>(s: seq<T>, k: nat, n: nat)
    requires k + n <= |s|
    ensures s[k..][n..] == s[k + n..]
  {
  }

  /** Merging the maximal run k..j is one step of coalescing the list from `k` on. */
  lemma CoalesceFrom(segs: seq<Seg>, k: nat, j: nat)
    requires k <= j < |segs|
    requires forall m :: k <= m < j ==> segs[m].End() == segs[m + 1].addr
    requires j + 1 < |segs| ==> segs[j].End() != segs[j + 1].addr
    ensures segs[k].addr <= segs[j].addr
    ensures var after := Merged(segs, k, j);
            k < |after| <= |segs| && after[..k + 1] + Coalesce(after[k + 1..]) == segs[..k] + Coalesce(segs[k..])
    ensures j == k ==> Merged(segs, k, j) == segs
  {
    hide Coalesce, Merged;
    CoalesceRun(segs[k..], j - k);
    DropTwice(segs, k, j - k + 1);
    MergedParts(segs, k, j);
    hide *;
    var m := Seg(segs[k].addr, segs[j].addr - segs[k].addr + segs[j].size);
    AppendAssociates(segs[..k], [m], Coalesce(segs[j + 1..]));
  }

  /** Leaving out the elements i..j of a sequence. */
  ghost function Cut<T>(s: seq<T>, i: nat, j: nat): (r: seq<T>)
    requires i <= j <= |s|
    ensures |r| == |s| - (j - i)
    ensures forall m :: 0 <= m < |r| ==> r[m] == if m < i then s[m] else s[m + (j - i)]
  {
    s[..i] + s[j..]
  }

  lemma CutSegs(s: seq<Block>, i: nat, j: nat)
    requires i <= j <= |s|
    ensures Segs(Cut(s, i, j)) == Cut(Segs(s), i, j)
  {
  }

  lemma CutUpdate(segs: seq<Seg>, k: nat, j: nat)
    requires k <= j < |segs| && segs[k].addr <= segs[j].addr
    ensures var b := Seg(segs[k].addr, segs[j].addr - segs[k].addr + segs[j].size);
            Cut(segs, k + 1, j + 1)[k := b] == Merged(segs, k, j)
  {
  }

  lemma CutMerged(s: seq<Block>, k: nat, j: nat)
    requires k <= j < |s| && s[k].addr <= s[j].addr
    ensures var b := Seg(s[k].addr, s[j].addr - s[k].addr + s[j].size);
            Segs(Cut(s, k + 1, j + 1))[k := b] == Merged(Segs(s), k, j)
  {
    CutSegs(s, k + 1, j + 1);
    CutUpdate(Segs(s), k, j);
  }

  lemma CutWithin(s: seq<Block>, owned: set<Block>, i: nat, j: nat)
    requires i <= j <= |s| && Within(s, owned)
    ensures Within(s[i..j], Elems(s[i..j])) && Elems(s[i..j]) <= owned
    ensures Within(Cut(s, i, j), owned - Elems(s[i..j]))
  {
  }

  lemma CutChained(s: seq<Block>, i: nat, j: nat)
    requires 0 < i <= j <= |s| && Chained(s)
    ensures var rest, part := Cut(s, i, j), s[i..j];
            && At(rest, i) == At(s, j)
            && (forall m {:trigger rest[m].next} :: 0 <= m < |rest| && m + 1 != i ==> rest[m].next == At(rest, m + 1))
            && (forall m {:trigger part[m].next} :: 0 <= m < |part| ==>
                  part[m].next == if m + 1 < |part| then part[m + 1] else At(s, j))
  {
  }

  /** Splits a list into what stays when the run k..j is merged, and what becomes blank. */
  lemma Split(s: seq<Block>, owned: set<Block>, k: nat, j: nat)
    returns (rest: seq<Block>, restS: set<Block>, part: seq<Block>, partS: set<Block>)
    requires k < j < |s| && Within(s, owned) && Chained(s) && s[k].addr <= s[j].addr
    ensures restS !! partS && restS + partS == owned && Within(rest, restS) && Within(part, partS)
    ensures |rest| + |part| == |s| && k < |rest| && rest[k] == s[k] && rest[0] == s[0]
    ensures s[k].next == if part == [] then At(rest, k + 1) else part[0]
    ensures s[j].next == At(rest, k + 1)
    ensures forall m {:trigger rest[m].next} :: 0 <= m < |rest| && m != k ==> rest[m].next == At(rest, m + 1)
    ensures forall m {:trigger part[m].next} :: 0 <= m < |part| ==>
              part[m].next == if m + 1 < |part| then part[m + 1] else At(rest, k + 1)
    ensures Segs(rest)[k := Seg(s[k].addr, s[j].addr - s[k].addr + s[j].size)] == Merged(Segs(s), k, j)
  {
    rest, part := Cut(s, k + 1, j + 1), s[k + 1..j + 1];
    partS := Elems(part);
    restS := owned - partS;
    CutWithin(s, owned, k + 1, j + 1);
    CutChained(s, k + 1, j + 1);
    CutMerged(s, k, j);
  }

  /** A list from which the element at position `k` has been left out. */
  lemma WithoutList(s: seq<Block>, owned: set<Block>, k: nat)
    requires k < |s| && Within(s, owned) && Chained(s)
    ensures var r := Without(s, k);
            && Within(r, owned - {s[k]})
            && At(r, 0) == (if k == 0 then At(s, 1) else s[0])
            && (0 < k ==> r[k - 1] == s[k - 1])
            && At(r, k) == At(s, k + 1)
            && (forall m {:trigger r[m].next} :: 0 <= m < |r| && m + 1 != k ==> r[m].next == At(r, m + 1))
            && Segs(r) == Without(Segs(s), k)
  {
    var r := Without(s, k);
    assert forall m :: 0 <= m < |r| ==> r[m] == s[if m < k then m else m + 1];
  }
}
