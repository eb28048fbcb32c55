/** The page allocator's marks, src/page.c, as a set of runs of pages. */
module PageRuns {
  const PAGE_SIZE: nat := 4096

  /** The two marks of a page. */
  datatype Mark = Mark(taken: bool, last: bool)

  datatype Run = Run(start: nat, len: nat)

  function End(r: Run): nat { r.start + r.len }

  predicate In(i: nat, r: Run) { r.start <= i < End(r) }

  predicate IsFree(m: Mark) { !m.taken && !m.last }

  /** The runs lie in the heap, are not empty, and do not overlap. */
  ghost predicate Disjoint(runs: set<Run>, size: nat) {
    && (forall r :: r in runs ==> r.len > 0 && End(r) <= size)
    && forall q, r, i: nat | q in runs && r in runs :: In(i, q) && In(i, r) ==> q == r
  }

  ghost predicate Covered(i: nat, runs: set<Run>) { exists r :: r in runs && In(i, r) }

  ghost predicate Ended(i: nat, runs: set<Run>) { exists r :: r in runs && End(r) == i + 1 }

  /** The marks say which pages the runs take, and mark the last page of each. */
  ghost predicate Encodes(v: seq<Mark>, runs: set<Run>) {
    && Disjoint(runs, |v|)
    && forall i :: 0 <= i < |v| ==> (v[i].taken <==> Covered(i, runs)) && (v[i].last <==> Ended(i, runs))
  }

  ghost predicate WellFormed(v: seq<Mark>) { exists runs :: Encodes(v, runs) }

  /** The pages `start` to `start + n` are free. */
  ghost predicate FreeRun(v: seq<Mark>, start: nat, n: nat) {
    start + n <= |v| && forall i :: start <= i < start + n ==> IsFree(v[i])
  }

  /** The marks after a run is taken. */
  function Taken(v: seq<Mark>, r: Run): (w: seq<Mark>)
    ensures |w| == |v|
  {
    seq(|v|, i requires 0 <= i < |v| => Mark(v[i].taken || In(i, r), v[i].last || End(r) == i + 1))
  }

  /** The marks after the pages `x` to `e` are cleared. */
  function Cleared(v: seq<Mark>, x: nat, e: nat): (w: seq<Mark>)
    ensures |w| == |v|
  {
    seq(|v|, i requires 0 <= i < |v| => if x <= i < e then Mark(false, false) else v[i])
  }

  /** The number of pages whose taken mark is `b`. */
  function Count(v: seq<Mark>, b: bool): nat {
    if v == [] then 0 else Count(v[..|v| - 1], b) + if v[|v| - 1].taken == b then 1 else 0
  }

  // ---------------------------------------------------------------- the encoding is one

  lemma RunOf(v: seq<Mark>, runs: set<Run>, i: nat) returns (r: Run)
    requires Encodes(v, runs) && i < |v| && v[i].taken
    ensures r in runs && In(i, r) && End(r) <= |v|
  {
    assert Covered(i, runs);
    r :| r in runs && In(i, r);
  }

  /** Below its last page, a run has no last mark. */
  lemma NoLastInside(v: seq<Mark>, runs: set<Run>, r: Run, i: nat)
    requires Encodes(v, runs) && r in runs && r.start <= i < |v| && i + 1 < End(r)
    ensures v[i].taken && !v[i].last
  {
    assert In(i, r);
    if v[i].last {
      var q :| q in runs && End(q) == i + 1;
      assert In(i, q);
    }
  }

  lemma LastAtEnd(v: seq<Mark>, runs: set<Run>, r: Run)
    requires Encodes(v, runs) && r in runs
    ensures 0 < End(r) <= |v| && v[End(r) - 1].taken && v[End(r) - 1].last
  {
    assert In(End(r) - 1, r);
    assert Ended(End(r) - 1, runs);
  }

  /** A page before the first page of a run is free or the last of its own run. */
  lemma BeforeStart(v: seq<Mark>, runs: set<Run>, r: Run)
    requires Encodes(v, runs) && r in runs && 0 < r.start
    ensures r.start <= |v| && (v[r.start - 1].taken ==> v[r.start - 1].last)
  {
    assert End(r) <= |v|;
    if v[r.start - 1].taken {
      var q := RunOf(v, runs, r.start - 1);
      assert In(r.start, r);
      assert !In(r.start, q);
      assert End(q) == r.start;
      assert Ended(r.start - 1, runs);
    }
  }

  /** No run of one encoding starts inside a run of the other that ends with it. */
  lemma SameStart(v: seq<Mark>, p: set<Run>, q: set<Run>, r: Run, s: Run)
    requires Encodes(v, p) && Encodes(v, q) && r in p && s in q && End(r) == End(s)
    ensures s.start >= r.start
  {
    if s.start < r.start {
      BeforeStart(v, p, r);
      NoLastInside(v, q, s, r.start - 1);
    }
  }

  lemma EncodingIncluded(v: seq<Mark>, p: set<Run>, q: set<Run>, r: Run)
    requires Encodes(v, p) && Encodes(v, q) && r in p
    ensures r in q
  {
    LastAtEnd(v, p, r);
    var s :| s in q && End(s) == End(r) - 1 + 1;
    SameStart(v, p, q, r, s);
    SameStart(v, q, p, s, r);
    assert r == s;
  }

  /** Marks encode at most one set of runs. */
  lemma EncodingUnique(v: seq<Mark>, p: set<Run>, q: set<Run>)
    requires Encodes(v, p) && Encodes(v, q)
    ensures p == q
  {
    forall r ensures r in p <==> r in q {
      if r in p {
        EncodingIncluded(v, p, q, r);
      }
      if r in q {
        EncodingIncluded(v, q, p, r);
      }
    }
  }

  // ---------------------------------------------------------------- taking and clearing

  /** Taking free pages adds a run. */
  lemma TakenEncodes(v: seq<Mark>, runs: set<Run>, r: Run)
    requires Encodes(v, runs) && r.len > 0 && FreeRun(v, r.start, r.len)
    ensures r !in runs && Encodes(Taken(v, r), runs + {r})
  {
    var w, more := Taken(v, r), runs + {r};
    forall q, i: nat | q in runs && In(i, q) ensures !In(i, r) {
      assert Covered(i, runs);
    }
    assert In(r.start, r);
    forall i | 0 <= i < |v| ensures (w[i].taken <==> Covered(i, more)) && (w[i].last <==> Ended(i, more)) {
      if v[i].taken {
        var q :| q in runs && In(i, q);
        assert q in more;
      }
      if v[i].last {
        var q :| q in runs && End(q) == i + 1;
        assert q in more;
      }
      assert r in more;
    }
  }

  /** Clearing a whole run removes it. */
  lemma ClearedEncodes(v: seq<Mark>, runs: set<Run>, r: Run)
    requires Encodes(v, runs) && r in runs
    ensures Encodes(Cleared(v, r.start, End(r)), runs - {r})
  {
    var w, less := Cleared(v, r.start, End(r)), runs - {r};
    forall i | 0 <= i < |v| ensures (w[i].taken <==> Covered(i, less)) && (w[i].last <==> Ended(i, less)) {
      if In(i, r) {
        forall q | q in less ensures !In(i, q) && End(q) != i + 1 {
          assert In(End(q) - 1, q);
        }
      } else {
        if v[i].taken {
          var q :| q in runs && In(i, q);
          assert q in less;
        }
        if v[i].last {
          var q :| q in runs && End(q) == i + 1;
          assert q in less;
        }
      }
    }
  }

  /** Clearing a run from a later page on leaves marks that encode nothing. */
  lemma PartIsNotWellFormed(v: seq<Mark>, runs: set<Run>, r: Run, x: nat)
    requires Encodes(v, runs) && r in runs && r.start < x < End(r)
    ensures !WellFormed(Cleared(v, x, End(r)))
  {
    var w := Cleared(v, x, End(r));
    if WellFormed(w) {
      var p :| Encodes(w, p);
      assert In(x - 1, r);
      NoLastInside(v, runs, r, x - 1);
      var q := RunOf(w, p, x - 1);
      LastAtEnd(w, p, q);
      if End(q) > x {
        assert In(x, q);
        assert Covered(x, p);
      }
    }
  }

  // ---------------------------------------------------------------- counts

  /** Every page is free or taken. */
  lemma {:induction false} CountsAddUp(v: seq<Mark>)
    ensures Count(v, true) + Count(v, false) == |v|
  {
    if v != [] {
      CountsAddUp(v[..|v| - 1]);
    }
  }

  lemma {:induction false} CountChanges(v: seq<Mark>, w: seq<Mark>, x: nat, e: nat)
    requires |v| == |w| && x <= e <= |v|
    requires forall i :: 0 <= i < |v| ==> if x <= i < e then !v[i].taken && w[i].taken else v[i].taken == w[i].taken
    ensures Count(w, true) == Count(v, true) + (e - x)
    decreases |v|
  {
    if v != [] {
      var n := |v| - 1;
      CountChanges(v[..n], w[..n], if x < n then x else n, if e < n then e else n);
    }
  }

  /** Taking a free run of `n` pages makes `n` more pages taken; clearing a run gives its pages back. */
  lemma TakenCounts(v: seq<Mark>, r: Run)
    requires FreeRun(v, r.start, r.len)
    ensures Count(Taken(v, r), true) == Count(v, true) + r.len
  {
    CountChanges(v, Taken(v, r), r.start, End(r));
  }

  lemma ClearedCounts(v: seq<Mark>, runs: set<Run>, r: Run)
    requires Encodes(v, runs) && r in runs
    ensures Count(v, true) == Count(Cleared(v, r.start, End(r)), true) + r.len
  {
    forall i: nat | In(i, r) ensures Covered(i, runs) {
    }
    CountChanges(Cleared(v, r.start, End(r)), v, r.start, End(r));
  }

  /** Taking a run and clearing it gives back the marks there were. */
  lemma TakenCleared(v: seq<Mark>, r: Run)
    requires FreeRun(v, r.start, r.len) && r.len > 0
    ensures Cleared(Taken(v, r), r.start, End(r)) == v
  {
    var w := Cleared(Taken(v, r), r.start, End(r));
    forall i | 0 <= i < |v| ensures w[i] == v[i] {
      if In(i, r) {
        assert IsFree(v[i]);
      }
    }
  }

  // ---------------------------------------------------------------- the bookkeeping area

  /** The bytes set aside for the marks: a quarter of the pages, rounded down, rounded up to whole pages. */
  function BookkeepingBytes(pages: nat): nat { (pages / 4 + PAGE_SIZE - 1) / PAGE_SIZE * PAGE_SIZE }

  /** The marks of all pages fit the area, except when a remainder of one to three pages is dropped just
      where the quarter fills whole pages. */
  lemma MarksFitIff(pages: nat)
    ensures BookkeepingBytes(pages) % 4096 == 0 && pages / 4 <= BookkeepingBytes(pages) < pages / 4 + 4096
    ensures (pages + 3) / 4 <= BookkeepingBytes(pages) <==> !(pages % 4 != 0 && pages / 4 % PAGE_SIZE == 0)
  {
    var q, r := pages / 4 / PAGE_SIZE, pages / 4 % PAGE_SIZE;
    assert pages / 4 == q * PAGE_SIZE + r;
    if r == 0 {
      assert (pages / 4 + PAGE_SIZE - 1) / PAGE_SIZE == q;
    } else {
      assert (pages / 4 + PAGE_SIZE - 1) / PAGE_SIZE == q + 1;
    }
  }
}
