/** What the kernel heap promises over every sequence of calls. */
module HeapLaws {
  import opened Options
  import opened Arith
  import opened HeapModel

  /** A range of `n` bytes of the arena that no used block touches. */
  ghost predicate Unused(c: Config, h: Heap, a: nat, n: nat) {
    && c.start <= a && a + n <= c.limit
    && forall x :: a <= x < a + n ==> Cover(h.used, x) == 0
  }

  lemma InitInv(c: Config)
    requires c.Ok()
    ensures Inv(c, InitHeap(c))
  {
  }

  // ---------------------------------------------------------------- every call keeps the invariant

  /** Taking a free block out of the list and marking `taken`, a prefix of it, used. */
  lemma TakeKeeps(c: Config, h: Heap, i: nat, taken: Seg)
    requires c.Ok() && Inv(c, h) && i < |h.free|
    requires taken.addr == h.free[i].addr && Sound([taken], c.alignment)
    ensures var g := h.(free := Without(h.free, i), used := [taken] + h.used);
            && Sound(g.free, c.alignment) && Separated(g.free) && Sound(g.used, c.alignment)
            && |g.free| + |g.used| == |h.free| + |h.used|
            && forall x :: Cover(g.free, x) + Cover(g.used, x)
                        == Cover(h.free, x) + Cover(h.used, x)
                           - (if h.free[i].Has(x) then 1 else 0) + (if taken.Has(x) then 1 else 0)
  {
    WithoutKeeps(h.free, i, c.alignment);
    ConsKeeps(taken, h.used, c.alignment);
  }

  /** A free block lies inside the tiled part of the arena. */
  lemma FreeInside(c: Config, h: Heap, i: nat)
    requires c.Ok() && Inv(c, h) && i < |h.free|
    ensures c.start <= h.free[i].addr && h.free[i].End() <= h.top
    ensures forall x :: h.free[i].Has(x) ==> Cover(h.used, x) == 0
  {
    var b := h.free[i];
    forall x | b.Has(x) ensures Cover(h.free, x) >= 1 && Cover(h.used, x) == 0 {
      CoverMember(h.free, i, x);
    }
    assert b.Has(b.addr) && b.Has(b.End() - 1);
  }

  lemma AllocFromTop(c: Config, h: Heap, i: nat, n: nat)
    requires c.Ok() && Inv(c, h) && i < |h.free|
    requires 0 < n && n % c.alignment == 0 && IsTop(h.free[i], h.top, c.limit, n)
    ensures var taken := Seg(h.free[i].addr, n);
            Inv(c, Heap(Without(h.free, i), [taken] + h.used, h.blank, taken.End()))
  {
    var taken := Seg(h.free[i].addr, n);
    assert [taken][0] == taken;
    FreeInside(c, h, i);
    TakeKeeps(c, h, i, taken);
    MultipleAdd(taken.addr, n, c.alignment);
    var g := Heap(Without(h.free, i), [taken] + h.used, h.blank, taken.End());
    assert h.free[i].End() == h.top;
    forall x ensures Cover(g.free, x) + Cover(g.used, x) == if c.start <= x < g.top then 1 else 0 {
      assert taken.Has(x) <==> taken.addr <= x < g.top;
      assert h.free[i].Has(x) <==> taken.addr <= x < h.top;
    }
  }

  lemma AllocWhole(c: Config, h: Heap, i: nat)
    requires c.Ok() && Inv(c, h) && i < |h.free|
    ensures Inv(c, h.(free := Without(h.free, i), used := [h.free[i]] + h.used))
  {
    assert [h.free[i]][0] == h.free[i];
    TakeKeeps(c, h, i, h.free[i]);
  }

  lemma AllocSplit(c: Config, h: Heap, i: nat, n: nat)
    requires c.Ok() && Inv(c, h) && i < |h.free| && h.blank > 0
    requires 0 < n < h.free[i].size && n % c.alignment == 0
    ensures var b := h.free[i];
            Inv(c, Release(h.(free := Without(h.free, i), used := [Seg(b.addr, n)] + h.used, blank := h.blank - 1),
                           Seg(b.addr + n, b.size - n)))
  {
    var b := h.free[i];
    var taken, split := Seg(b.addr, n), Seg(b.addr + n, b.size - n);
    assert [taken][0] == taken && [split][0] == split;
    TakeKeeps(c, h, i, taken);
    MultipleAdd(b.addr, n, c.alignment);
    MultipleAdd(b.size, n, c.alignment);
    var g := h.(free := Without(h.free, i), used := [taken] + h.used, blank := h.blank - 1);
    forall x ensures (if b.Has(x) then 1 else 0) == (if taken.Has(x) then 1 else 0) + (if split.Has(x) then 1 else 0) {
    }
    ReleaseKeeps(g, split, c.alignment);
  }

  lemma AllocBump(c: Config, h: Heap, n: nat)
    requires c.Ok() && Inv(c, h) && h.blank > 0
    requires 0 < n && n % c.alignment == 0 && h.top + n <= c.limit
    ensures Inv(c, h.(used := [Seg(h.top, n)] + h.used, blank := h.blank - 1, top := h.top + n))
  {
    var taken := Seg(h.top, n);
    assert [taken][0] == taken;
    ConsKeeps(taken, h.used, c.alignment);
    MultipleAdd(h.top, n, c.alignment);
  }

  lemma AllocKeepsInv(c: Config, h: Heap, num: nat)
    requires c.Ok() && Inv(c, h) && 0 < num
    ensures Inv(c, Alloc(c, h, num).0)
  {
    var n := RoundUp(num, c.alignment);
    RoundUpIsLeastMultiple(num, c.alignment);
    var i := FirstFit(h.free, h.top, c.limit, n);
    if i < |h.free| {
      if IsTop(h.free[i], h.top, c.limit, n) {
        AllocFromTop(c, h, i, n);
      } else if h.blank > 0 && h.free[i].size - n >= c.threshold {
        AllocSplit(c, h, i, n);
      } else {
        AllocWhole(c, h, i);
      }
    } else if h.blank > 0 && h.top + n <= c.limit {
      AllocBump(c, h, n);
    }
  }

  /** When a request of any size keeps the invariant: one of zero bytes must be refused, or be handed a whole
      block that is neither the top nor worth splitting; otherwise it leaves a used block without bytes. */
  predicate IsKept(c: Config, h: Heap, num: nat) {
    || num > 0
    || (if h.free == [] then h.blank == 0
        else !IsTop(h.free[0], h.top, c.limit, 0) && (h.blank == 0 || h.free[0].size < c.threshold))
  }

  lemma AllocKeepsInvIff(c: Config, h: Heap, num: nat)
    requires c.Ok() && Inv(c, h)
    ensures Inv(c, Alloc(c, h, num).0) <==> IsKept(c, h, num)
  {
    if num > 0 {
      AllocKeepsInv(c, h, num);
    } else {
      RoundUpZero(c.alignment);
      assert h.free != [] ==> FirstFit(h.free, h.top, c.limit, 0) == 0;
      var g := Alloc(c, h, 0).0;
      if IsKept(c, h, 0) {
        if h.free != [] {
          AllocWhole(c, h, 0);
        }
      } else {
        assert g.used[0].size == 0;
      }
    }
  }

  lemma RoundUpZero(a: nat)
    requires 0 < a
    ensures RoundUp(0, a) == 0
  {
    DivModUnique(a - 1, a, 0, a - 1);
  }

  lemma FreeKeepsInv(c: Config, h: Heap, p: nat)
    requires c.Ok() && Inv(c, h)
    ensures Inv(c, Free(h, p))
  {
    var i := FindUsed(h.used, p);
    if i < |h.used| {
      WithoutKeeps(h.used, i, c.alignment);
      var g := h.(used := Without(h.used, i));
      forall x ensures Cover(g.free, x) + (if h.used[i].Has(x) then 1 else 0) <= 1 {
        if h.used[i].Has(x) {
          CoverMember(h.used, i, x);
        }
      }
      ReleaseKeeps(g, h.used[i], c.alignment);
    }
  }

  /** A call to the allocator: `kmalloc` of a non-zero size, or `kfree` of any address. */
  datatype Call = Malloc(size: nat) | Kfree(addr: nat)

  function Run(c: Config, h: Heap, calls: seq<Call>): Heap
    requires c.Ok()
    decreases |calls|
  {
    if calls == [] then h
    else match calls[0]
      case Malloc(size) => Run(c, Alloc(c, h, size).0, calls[1..])
      case Kfree(addr) => Run(c, Free(h, addr), calls[1..])
  }

  /** The invariant holds after every sequence of calls on a fresh heap. */
  lemma {:induction false} EveryRunKeepsInv(c: Config, h: Heap, calls: seq<Call>)
    requires c.Ok() && Inv(c, h)
    requires forall i :: 0 <= i < |calls| && calls[i].Malloc? ==> 0 < calls[i].size
    ensures Inv(c, Run(c, h, calls))
    decreases |calls|
  {
    if calls == [] {
    } else {
      match calls[0]
      case Malloc(size) =>
        AllocKeepsInv(c, h, size);
        EveryRunKeepsInv(c, Alloc(c, h, size).0, calls[1..]);
      case Kfree(addr) =>
        FreeKeepsInv(c, h, addr);
        EveryRunKeepsInv(c, Free(h, addr), calls[1..]);
    }
  }

  // ---------------------------------------------------------------- soundness of one allocation

  /** The block handed out is aligned, big enough, and overlaps nothing that was in use. */
  lemma AllocIsSound(c: Config, h: Heap, num: nat)
    requires c.Ok() && Inv(c, h)
    ensures var (g, r) := Alloc(c, h, num);
            match r
            case None => g == h
            case Some(b) =>
              && g.used == [b] + h.used
              && num <= b.size && b.addr % c.alignment == 0
              && Unused(c, h, b.addr, b.size)
  {
    var n := RoundUp(num, c.alignment);
    RoundUpIsLeastMultiple(num, c.alignment);
    var i := FirstFit(h.free, h.top, c.limit, n);
    if i < |h.free| {
      var b := h.free[i];
      FreeInside(c, h, i);
      assert h.free[i].End() == h.top || !IsTop(b, h.top, c.limit, n);
    }
  }

  // ---------------------------------------------------------------- completeness

  /** An unused run that starts below `top` lies in one free block, or that block reaches `top`:
      there are no two adjacent free blocks. */
  lemma RunInOneBlock(c: Config, h: Heap, a: nat, n: nat) returns (i: nat)
    requires c.Ok() && Inv(c, h) && 0 < n && Unused(c, h, a, n) && a < h.top
    ensures i < |h.free| && h.free[i].Has(a)
    ensures Fits(h.free[i], h.top, c.limit, n)
  {
    i := CoverWitness(h.free, a);
    var e := h.free[i].End();
    if e < a + n && e < h.top {
      var j := CoverWitness(h.free, e);
      assert false;
    }
  }

  /** When no free block fits and the top cannot move, no run of `n` unused bytes exists. */
  lemma NoFitNoRun(c: Config, h: Heap, a: nat, n: nat)
    requires c.Ok() && Inv(c, h) && 0 < n
    requires FirstFit(h.free, h.top, c.limit, n) == |h.free|
    requires h.blank == 0 || c.limit < h.top + n
    ensures !(Unused(c, h, a, n) && (h.blank > 0 || a < h.top))
  {
    if Unused(c, h, a, n) && a < h.top {
      var i := RunInOneBlock(c, h, a, n);
    }
  }

  /** `Alloc` fails exactly when no unused run of the rounded size is left; with no blank
      descriptor, runs above `top` do not count because only a bump could serve them.  Zero bytes are
      refused only when there is neither a free block nor a blank descriptor. */
  lemma AllocFailsIff(c: Config, h: Heap, num: nat)
    requires c.Ok() && Inv(c, h)
    ensures Alloc(c, h, num).1 == None
       <==> if num == 0 then h.free == [] && h.blank == 0
            else !exists a: nat :: Unused(c, h, a, RoundUp(num, c.alignment)) && (h.blank > 0 || a < h.top)
  {
    if num == 0 {
      RoundUpZero(c.alignment);
      return;
    }
    var n := RoundUp(num, c.alignment);
    RoundUpIsLeastMultiple(num, c.alignment);
    var k := FirstFit(h.free, h.top, c.limit, n);
    if k < |h.free| {
      FreeInside(c, h, k);
      assert Unused(c, h, h.free[k].addr, n);
    } else if h.blank > 0 && h.top + n <= c.limit {
      assert Unused(c, h, h.top, n);
    } else {
      forall a: nat ensures !(Unused(c, h, a, n) && (h.blank > 0 || a < h.top)) {
        NoFitNoRun(c, h, a, n);
      }
    }
  }

  /** The block handed out has the rounded size, unless it is a whole free block that could not be split or
      was not worth it. */
  lemma AllocIsTight(c: Config, h: Heap, num: nat)
    requires c.Ok() && Inv(c, h)
    ensures var r, n := Alloc(c, h, num).1, RoundUp(num, c.alignment);
            r.Some? && r.value.size != n ==>
              && r.value in h.free && n < r.value.size
              && (h.blank == 0 || r.value.size - n < c.threshold)
              && !(r.value.End() >= h.top && r.value.addr + n <= c.limit)
  {
    var n := RoundUp(num, c.alignment);
    var i := FirstFit(h.free, h.top, c.limit, n);
    if i < |h.free| {
      assert h.free[i] in h.free;
    }
  }

  /** It is the lowest place: every unused run of the rounded size starts at it or behind it. */
  lemma AllocIsLowest(c: Config, h: Heap, num: nat, a: nat)
    requires c.Ok() && Inv(c, h) && 0 < num && Unused(c, h, a, RoundUp(num, c.alignment))
    ensures var r := Alloc(c, h, num).1; r.Some? ==> r.value.addr <= a
  {
    var n := RoundUp(num, c.alignment);
    RoundUpIsLeastMultiple(num, c.alignment);
    var k := FirstFit(h.free, h.top, c.limit, n);
    if k < |h.free| {
      FreeInside(c, h, k);
    }
    if a < h.top {
      var i := RunInOneBlock(c, h, a, n);
      assert k <= i;
      assert k < i ==> h.free[k].addr <= h.free[i].addr;
    }
  }

  // ---------------------------------------------------------------- maximal unused runs

  /** The free list with the untouched tail [top, limit) joined to it. */
  function Runs(c: Config, h: Heap): seq<Seg> {
    var k := |h.free|;
    if c.limit <= h.top then h.free
    else if k > 0 && h.free[k - 1].End() == h.top then
      h.free[..k - 1] + [Seg(h.free[k - 1].addr, c.limit - h.free[k - 1].addr)]
    else
      h.free + [Seg(h.top, c.limit - h.top)]
  }

  ghost predicate Canonical(rs: seq<Seg>) {
    Separated(rs) && forall i :: 0 <= i < |rs| ==> 0 < rs[i].size
  }

  lemma RunsCanonical(c: Config, h: Heap)
    requires c.Ok() && Inv(c, h)
    ensures Canonical(Runs(c, h))
  {
    forall i | 0 <= i < |h.free| ensures h.free[i].End() <= h.top {
      FreeInside(c, h, i);
    }
  }

  lemma RunsCover(c: Config, h: Heap, x: int)
    requires c.Ok() && Inv(c, h)
    ensures Cover(Runs(c, h), x) == if c.start <= x < c.limit && Cover(h.used, x) == 0 then 1 else 0
  {
    var k := |h.free|;
    if c.limit <= h.top {
    } else if k > 0 && h.free[k - 1].End() == h.top {
      var last := Seg(h.free[k - 1].addr, c.limit - h.free[k - 1].addr);
      assert h.free == h.free[..k - 1] + [h.free[k - 1]];
      CoverAppend(h.free[..k - 1], [h.free[k - 1]], x);
      CoverAppend(h.free[..k - 1], [last], x);
      CoverOne(h.free[k - 1], x);
      CoverOne(last, x);
      FreeInside(c, h, k - 1);
    } else {
      CoverAppend(h.free, [Seg(h.top, c.limit - h.top)], x);
      CoverOne(Seg(h.top, c.limit - h.top), x);
    }
  }

  /** `Runs` are the maximal runs of addresses in the arena that are in no used block. */
  lemma RunsAreMaximal(c: Config, h: Heap)
    requires c.Ok() && Inv(c, h)
    ensures Canonical(Runs(c, h))
    ensures forall x :: Cover(Runs(c, h), x) == if c.start <= x < c.limit && Cover(h.used, x) == 0 then 1 else 0
  {
    RunsCanonical(c, h);
    forall x ensures Cover(Runs(c, h), x) == if c.start <= x < c.limit && Cover(h.used, x) == 0 then 1 else 0 {
      RunsCover(c, h, x);
    }
  }

  /** In a canonical list, nothing before the first block is covered. */
  lemma {:induction false} NotBefore(rs: seq<Seg>, x: int)
    requires Canonical(rs) && (rs == [] || x < rs[0].addr)
    ensures Cover(rs, x) == 0
  {
    if rs == [] {
    } else {
      NotBefore(rs[1..], x);
    }
  }

  lemma HeadCovers(rs: seq<Seg>)
    requires Canonical(rs) && rs != []
    ensures Cover(rs, rs[0].addr) >= 1
    ensures forall x :: rs[0].Has(x) ==> Cover(rs, x) >= 1
    ensures Cover(rs, rs[0].End()) == 0
    ensures forall x :: x < rs[0].addr ==> Cover(rs, x) == 0
  {
    assert rs[0].Has(rs[0].addr);
    NotBefore(rs[1..], rs[0].End());
    forall x | x < rs[0].addr ensures Cover(rs, x) == 0 {
      NotBefore(rs, x);
    }
  }

  /** Two canonical lists that cover the same addresses are the same list. */
  lemma {:induction false} CanonicalUnique(a: seq<Seg>, b: seq<Seg>)
    requires Canonical(a) && Canonical(b)
    requires forall x :: Cover(a, x) >= 1 <==> Cover(b, x) >= 1
    ensures a == b
  {
    if a == [] {
      if b != [] {
        HeadCovers(b);
      }
    } else if b == [] {
      HeadCovers(a);
    } else {
      HeadCovers(a);
      HeadCovers(b);
      assert a[0].addr == b[0].addr;
      assert a[0].Has(b[0].End()) || b[0].Has(a[0].End()) || a[0].End() == b[0].End();
      assert a[0] == b[0];
      forall x ensures Cover(a[1..], x) >= 1 <==> Cover(b[1..], x) >= 1 {
        if x < a[0].End() {
          NotBefore(a[1..], x);
          NotBefore(b[1..], x);
        } else {
          assert Cover(a, x) == Cover(a[1..], x) && Cover(b, x) == Cover(b[1..], x);
        }
      }
      CanonicalUnique(a[1..], b[1..]);
      assert a == [a[0]] + a[1..] && b == [b[0]] + b[1..];
    }
  }

  /** No two used blocks start at the same address, so `kfree` of an address frees the right one. */
  lemma UsedAddressesDistinct(c: Config, h: Heap, i: nat, j: nat)
    requires c.Ok() && Inv(c, h) && i < j < |h.used|
    ensures h.used[i].addr != h.used[j].addr
  {
    if h.used[i].addr == h.used[j].addr {
      CoverTwo(h.used, i, j, h.used[i].addr);
    }
  }

  /** `kfree` of what `kmalloc` returned gives back the live blocks and the maximal unused runs. */
  lemma MallocThenFree(c: Config, h: Heap, num: nat)
    requires c.Ok() && Inv(c, h) && 0 < num && Alloc(c, h, num).1.Some?
    ensures var (g, r) := Alloc(c, h, num);
            var back := Free(g, r.value.addr);
            back.used == h.used && Runs(c, back) == Runs(c, h)
  {
    var (g, r) := Alloc(c, h, num);
    AllocIsSound(c, h, num);
    AllocKeepsInv(c, h, num);
    assert FindUsed(g.used, r.value.addr) == 0;
    assert Without(g.used, 0) == h.used;
    var back := Free(g, r.value.addr);
    FreeKeepsInv(c, g, r.value.addr);
    RunsAreMaximal(c, h);
    RunsAreMaximal(c, back);
    CanonicalUnique(Runs(c, back), Runs(c, h));
  }

  /** `kfree` removes exactly the named live block; any other address is refused. */
  lemma FreeExact(c: Config, h: Heap, p: nat)
    requires c.Ok() && Inv(c, h)
    ensures forall q :: q in Free(h, p).used <==> q in h.used && q.addr != p
    ensures (forall q :: q in h.used ==> q.addr != p) ==> Free(h, p) == h
  {
    var i := FindUsed(h.used, p);
    if i < |h.used| {
      var w := Without(h.used, i);
      assert forall k :: 0 <= k < |w| ==> w[k] == h.used[if k < i then k else k + 1];
      forall q | q in h.used && q.addr != p ensures q in w {
        var k :| 0 <= k < |h.used| && h.used[k] == q;
        assert w[if k < i then k else k - 1] == q;
      }
      forall q | q in w ensures q in h.used && q.addr != p {
        var k :| 0 <= k < |w| && w[k] == q;
        var m := if k < i then k else k + 1;
        UsedAddressesDistinct(c, h, if m < i then m else i, if m < i then i else m);
      }
    }
  }
}
