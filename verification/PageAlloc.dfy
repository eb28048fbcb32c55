/** The page allocator of src/page.c: two bits a page, four pages a byte. */
module PageAlloc {
  import opened PageRuns

  /** The marks of page `index` in its byte: bits 0 and 1, 2 and 3, 4 and 5, or 6 and 7. */
  function TakenBit(index: nat): bv8 { (1 as bv8) << ((index % 4) * 2) }

  function LastBit(index: nat): bv8 { (1 as bv8) << ((index % 4) * 2 + 1) }

  function MarkOf(b: bv8, index: nat): Mark {
    Mark(b & TakenBit(index) != 0, b & LastBit(index) != 0)
  }

  lemma BitCases(index: nat)
    ensures TakenBit(index)
            == if index % 4 == 0 then 1 else if index % 4 == 1 then 4 else if index % 4 == 2 then 16 else 64
    ensures LastBit(index)
            == if index % 4 == 0 then 2 else if index % 4 == 1 then 8 else if index % 4 == 2 then 32 else 128
  {
  }

  /** Setting or clearing one mark of a page changes that mark and no other of the byte. */
  lemma SetTakenBits(b: bv8, i: nat, j: nat)
    ensures MarkOf(b | TakenBit(i), i) == MarkOf(b, i).(taken := true)
    ensures i % 4 != j % 4 ==> MarkOf(b | TakenBit(i), j) == MarkOf(b, j)
  {
    hide TakenBit, LastBit;
    BitCases(i);
    BitCases(j);
  }

  lemma ClearTakenBits(b: bv8, i: nat, j: nat)
    ensures MarkOf(b & !TakenBit(i), i) == MarkOf(b, i).(taken := false)
    ensures i % 4 != j % 4 ==> MarkOf(b & !TakenBit(i), j) == MarkOf(b, j)
  {
    hide TakenBit, LastBit;
    BitCases(i);
    BitCases(j);
  }

  lemma SetLastBits(b: bv8, i: nat, j: nat)
    ensures MarkOf(b | LastBit(i), i) == MarkOf(b, i).(last := true)
    ensures i % 4 != j % 4 ==> MarkOf(b | LastBit(i), j) == MarkOf(b, j)
  {
    hide TakenBit, LastBit;
    BitCases(i);
    BitCases(j);
  }

  lemma ClearLastBits(b: bv8, i: nat, j: nat)
    ensures MarkOf(b & !LastBit(i), i) == MarkOf(b, i).(last := false)
    ensures i % 4 != j % 4 ==> MarkOf(b & !LastBit(i), j) == MarkOf(b, j)
  {
    hide TakenBit, LastBit;
    BitCases(i);
    BitCases(j);
  }

  /** The marks of all pages. */
  function View(bytes: seq<bv8>, pages: nat): (v: seq<Mark>)
    requires pages <= 4 * |bytes|
    ensures |v| == pages && forall i :: 0 <= i < pages ==> v[i] == MarkOf(bytes[i / 4], i)
  {
    seq(pages, i requires 0 <= i < pages => MarkOf(bytes[i / 4], i))
  }

  /** The marks of page `i` are two bits of byte `i / 4`, from the low end. */
  lemma MarkPlaces(bytes: seq<bv8>, pages: nat, i: nat)
    requires pages <= 4 * |bytes| && i < pages
    ensures var b, m := bytes[i / 4], View(bytes, pages)[i];
            && m.taken == (b & [0x01, 0x04, 0x10, 0x40][i % 4] != 0)
            && m.last == (b & [0x02, 0x08, 0x20, 0x80][i % 4] != 0)
  {
    BitCases(i);
    hide TakenBit, LastBit;
  }

  /** Writing a byte so that one page's marks change and the other three pages' do not. */
  lemma ViewAfter(bytes: seq<bv8>, pages: nat, index: nat, b: bv8)
    requires pages <= 4 * |bytes| && index < pages
    requires forall j: nat :: j % 4 != index % 4 ==> MarkOf(b, j) == MarkOf(bytes[index / 4], j)
    ensures View(bytes[index / 4 := b], pages) == View(bytes, pages)[index := MarkOf(b, index)]
  {
    hide MarkOf;
    var v, w := View(bytes, pages), View(bytes[index / 4 := b], pages);
    forall j | 0 <= j < pages ensures w[j] == v[index := MarkOf(b, index)][j] {
      if j / 4 == index / 4 && j != index {
        assert j % 4 != index % 4;
      }
    }
  }

  lemma AllBlank(bytes: seq<bv8>, pages: nat)
    requires pages <= 4 * |bytes| && forall k :: 0 <= k < |bytes| ==> bytes[k] == 0
    ensures forall i :: 0 <= i < pages ==> View(bytes, pages)[i] == Mark(false, false)
  {
    forall i: nat { ZeroMark(i); }
  }

  lemma ZeroMark(i: nat)
    ensures MarkOf(0, i) == Mark(false, false)
  {
  }

  lemma BlankEncodes(v: seq<Mark>)
    requires forall i :: 0 <= i < |v| ==> v[i] == Mark(false, false)
    ensures Encodes(v, {})
  {
  }

  /** The marks when the first `j` pages of a run are marked as taken. */
  function TakenSoFar(v: seq<Mark>, start: nat, j: nat): (w: seq<Mark>)
    ensures |w| == |v|
  {
    seq(|v|, i requires 0 <= i < |v| => Mark(v[i].taken || start <= i < start + j, v[i].last))
  }

  lemma TakenStep(v: seq<Mark>, start: nat, j: nat, n: nat)
    requires j < n && start + n <= |v|
    ensures var w := TakenSoFar(v, start, j); var m := w[start + j].(taken := true);
            if j + 1 < n then TakenSoFar(v, start, j + 1) == w[start + j := m]
            else Taken(v, Run(start, n)) == w[start + j := m.(last := true)]
  {
    var w := TakenSoFar(v, start, j);
    var m := w[start + j].(taken := true);
    if j + 1 < n {
      assert TakenSoFar(v, start, j + 1) == w[start + j := m];
    } else {
      assert Taken(v, Run(start, n)) == w[start + j := m.(last := true)];
    }
  }

  /** The loop of `page_free` does not stop before the end of the run, and stops there. */
  lemma InsideRun(v: seq<Mark>, runs: set<Run>, r: Run)
    requires Encodes(v, runs) && r in runs
    ensures End(r) <= |v|
    ensures forall i :: r.start <= i < End(r) ==> v[i].taken && (v[i].last <==> i + 1 == End(r))
  {
    LastAtEnd(v, runs, r);
    forall i: nat | r.start <= i && i + 1 < End(r) ensures v[i].taken && !v[i].last {
      NoLastInside(v, runs, r, i);
    }
  }

  function PageToIndex(p: nat, base: nat): nat
    requires base <= p
  {
    (p - base) / PAGE_SIZE
  }

  function IndexToPage(index: nat, base: nat): nat { index * PAGE_SIZE + base }

  /** Indices survive the way to an address and back; an address does exactly when it is the first of a page. */
  lemma PageIndexRoundTrip(index: nat, p: nat, base: nat)
    requires base <= p
    ensures PageToIndex(IndexToPage(index, base), base) == index
    ensures IndexToPage(PageToIndex(p, base), base) == p <==> (p - base) % PAGE_SIZE == 0
  {
  }

  class PageAllocator {
    const bookkeeping: array<bv8>
    const pages: nat
    const base: nat
    /** What the marks stand for. */
    ghost var runs: set<Run>

    ghost predicate Fits()
    {
      pages <= 4 * bookkeeping.Length && base > 0
    }

    ghost function Marks(): (v: seq<Mark>)
      reads bookkeeping
      requires Fits()
      ensures |v| == pages
    {
      View(bookkeeping[..], pages)
    }

    ghost predicate Valid()
      reads this, bookkeeping
    {
      Fits() && Encodes(Marks(), runs)
    }

    // -------------------------------------------------------------- the marks of one page

    method SetTaken(index: nat)
      requires Fits() && index < pages
      modifies bookkeeping
      ensures Marks() == old(Marks())[index := old(Marks())[index].(taken := true)]
    {
      var b := bookkeeping[index / 4];
      forall j: nat { SetTakenBits(b, index, j); }
      ViewAfter(bookkeeping[..], pages, index, b | TakenBit(index));
      bookkeeping[index / 4] := b | TakenBit(index);
    }

    method ClearTaken(index: nat)
      requires Fits() && index < pages
      modifies bookkeeping
      ensures Marks() == old(Marks())[index := old(Marks())[index].(taken := false)]
    {
      var b := bookkeeping[index / 4];
      forall j: nat { ClearTakenBits(b, index, j); }
      ViewAfter(bookkeeping[..], pages, index, b & !TakenBit(index));
      bookkeeping[index / 4] := b & !TakenBit(index);
    }

    method SetLast(index: nat)
      requires Fits() && index < pages
      modifies bookkeeping
      ensures Marks() == old(Marks())[index := old(Marks())[index].(last := true)]
    {
      var b := bookkeeping[index / 4];
      forall j: nat { SetLastBits(b, index, j); }
      ViewAfter(bookkeeping[..], pages, index, b | LastBit(index));
      bookkeeping[index / 4] := b | LastBit(index);
    }

    method ClearLast(index: nat)
      requires Fits() && index < pages
      modifies bookkeeping
      ensures Marks() == old(Marks())[index := old(Marks())[index].(last := false)]
    {
      var b := bookkeeping[index / 4];
      forall j: nat { ClearLastBits(b, index, j); }
      ViewAfter(bookkeeping[..], pages, index, b & !LastBit(index));
      bookkeeping[index / 4] := b & !LastBit(index);
    }

    method IsTaken(index: nat) returns (r: bool)
      requires Fits() && index < pages
      ensures r == Marks()[index].taken
    {
      r := bookkeeping[index / 4] & TakenBit(index) != 0;
    }

    method IsLast(index: nat) returns (r: bool)
      requires Fits() && index < pages
      ensures r == Marks()[index].last
    {
      r := bookkeeping[index / 4] & LastBit(index) != 0;
    }

    // -------------------------------------------------------------- the operations

    /** `page_init`: the bookkeeping pages are the first run. */
    constructor (pages: nat, base: nat)
      requires pages >= 4 && base > 0 && !(pages % 4 != 0 && pages / 4 % PAGE_SIZE == 0)
      ensures Valid() && this.pages == pages && this.base == base
      ensures runs == {Run(0, (pages / 4 + 4095) / 4096)}
    {
      MarksFitIff(pages);
      bookkeeping := new bv8[BookkeepingBytes(pages)](_ => 0);
      this.pages := pages;
      this.base := base;
      runs := {Run(0, BookkeepingBytes(pages) / PAGE_SIZE)};
      new;
      var n := BookkeepingBytes(pages) / PAGE_SIZE;
      ghost var blank := Marks();
      AllBlank(bookkeeping[..], pages);
      assert 0 < n <= pages;
      MarkRun(0, n);
      BlankEncodes(blank);
      TakenEncodes(blank, {}, Run(0, n));
      assert {} + {Run(0, n)} == runs;
    }

    /** Marks `n` pages as taken and the last of them as last. */
    method MarkRun(start: nat, n: nat)
      requires Fits() && n > 0 && start + n <= pages
      modifies bookkeeping
      ensures Marks() == Taken(old(Marks()), Run(start, n))
    {
      ghost var v := Marks();
      assert TakenSoFar(v, start, 0) == v;
      hide *;
      var j := 0;
      while j < n
        invariant 0 <= j <= n
        invariant Marks() == if j < n then TakenSoFar(v, start, j) else Taken(v, Run(start, n))
      {
        SetTaken(start + j);
        if j == n - 1 {
          SetLast(start + j);
        }
        TakenStep(v, start, j, n);
        j := j + 1;
      }
    }

    /** `page_nalloc`: takes the lowest `n` free pages in a row, or gives NULL when there are none. */
    method Nalloc(n: nat) returns (p: nat)
      requires Valid()
      modifies this`runs, bookkeeping
      ensures Valid()
      ensures p == 0 <==> n == 0 || !exists s :: FreeRun(old(Marks()), s, n)
      ensures p == 0 ==> Marks() == old(Marks()) && runs == old(runs)
      ensures p != 0 ==> exists s: nat ::
                && p == base + 4096 * s && FreeRun(old(Marks()), s, n)
                && (forall t :: 0 <= t < s ==> !FreeRun(old(Marks()), t, n))
                && Marks() == Taken(old(Marks()), Run(s, n))
                && Run(s, n) !in old(runs) && runs == old(runs) + {Run(s, n)}
    {
      p := 0;
      if n > 0 {
        var found, start := FindFree(n);
        if found {
          TakenEncodes(Marks(), runs, Run(start, n));
          MarkRun(start, n);
          runs := runs + {Run(start, n)};
          p := IndexToPage(start, base);
        }
      }
    }

    /** The scan of `page_nalloc`. */
    method FindFree(n: nat) returns (found: bool, start: nat)
      requires Fits() && n > 0
      ensures found ==> FreeRun(Marks(), start, n) && forall t :: 0 <= t < start ==> !FreeRun(Marks(), t, n)
      ensures !found ==> forall t :: !FreeRun(Marks(), t, n)
    {
      hide View, MarkOf, Marks, TakenBit, LastBit;
      start, found := 0, false;
      var consecutive, i := 0, 0;
      while i < pages && !found
        invariant 0 <= i <= pages && 0 <= consecutive <= i
        invariant !found ==> consecutive < n
        invariant consecutive > 0 ==> start == i - consecutive
        invariant forall k :: i - consecutive <= k < i ==> IsFree(Marks()[k])
        invariant consecutive < i ==> !IsFree(Marks()[i - consecutive - 1])
        invariant found ==> consecutive == n
        invariant forall t :: 0 <= t && t + n <= i && (found ==> t < start) ==> !FreeRun(Marks(), t, n)
        decreases pages - i, !found
      {
        var taken := IsTaken(i);
        var last := IsLast(i);
        if !taken && !last {
          if consecutive == 0 {
            start := i;
          }
          consecutive := consecutive + 1;
          if consecutive >= n {
            found := true;
          }
        } else {
          consecutive := 0;
        }
        i := i + 1;
      }
    }

    /** `page_free`.  Nothing happens for a free page; a run is given up from the page on; what is left
        encodes runs exactly when the page was free or the first of its run. */
    method Free(p: nat)
      requires Valid() && (p == 0 || (base <= p && PageToIndex(p, base) < pages))
      modifies this`runs, bookkeeping
      ensures p == 0 || !old(Marks())[(p - base) / 4096].taken ==> Marks() == old(Marks()) && runs == old(runs)
      ensures p != 0 && old(Marks())[(p - base) / 4096].taken ==>
                exists r :: r in old(runs) && In((p - base) / 4096, r)
                            && Marks() == Cleared(old(Marks()), (p - base) / 4096, End(r))
                            && ((p - base) / 4096 == r.start ==> Valid() && runs == old(runs) - {r})
                            && ((p - base) / 4096 != r.start ==> !WellFormed(Marks()))
    {
      if p == 0 {
        return;
      }
      var x := PageToIndex(p, base);
      var taken := IsTaken(x);
      if taken {
        ghost var r := RunOf(Marks(), runs, x);
        ClearRun(x, r);
        if x == r.start {
          ClearedEncodes(old(Marks()), runs, r);
          runs := runs - {r};
        } else {
          PartIsNotWellFormed(old(Marks()), runs, r, x);
        }
      }
    }

    /** The loop of `page_free`: clears up to and with the next last page. */
    method ClearRun(index: nat, ghost r: Run)
      requires Valid() && r in runs && In(index, r) && End(r) <= pages
      modifies bookkeeping
      ensures Marks() == Cleared(old(Marks()), index, End(r))
    {
      hide View, MarkOf, Marks, TakenBit, LastBit, Encodes;
      ghost var v := Marks();
      InsideRun(v, runs, r);
      var x := index;
      var taken := IsTaken(x);
      var last := IsLast(x);
      while taken && !last
        invariant index <= x < End(r) && Marks() == Cleared(v, index, x)
        invariant taken == Marks()[x].taken && last == Marks()[x].last
        decreases End(r) - x
      {
        ClearTaken(x);
        x := x + 1;
        taken := IsTaken(x);
        last := IsLast(x);
      }
      ClearTaken(x);
      ClearLast(x);
    }

    method CountFree() returns (ret: nat)
      requires Fits()
      ensures ret == Count(Marks(), false)
    {
      hide View, MarkOf, Marks, TakenBit, LastBit;
      ret := 0;
      var i := 0;
      while i < pages
        invariant 0 <= i <= pages && ret == Count(Marks()[..i], false)
      {
        assert Marks()[..i + 1][..i] == Marks()[..i];
        var taken := IsTaken(i);
        if !taken {
          ret := ret + 1;
        }
        i := i + 1;
      }
      assert Marks()[..pages] == Marks();
    }

    method CountTaken() returns (ret: nat)
      requires Fits()
      ensures ret == Count(Marks(), true)
    {
      hide View, MarkOf, Marks, TakenBit, LastBit;
      ret := 0;
      var i := 0;
      while i < pages
        invariant 0 <= i <= pages && ret == Count(Marks()[..i], true)
      {
        assert Marks()[..i + 1][..i] == Marks()[..i];
        var taken := IsTaken(i);
        if taken {
          ret := ret + 1;
        }
        i := i + 1;
      }
      assert Marks()[..pages] == Marks();
    }
  }
}
