/** The kernel heap of src/kmalloc.c as a function of values.

    A heap is two lists of address ranges (free and used blocks), a number of blank
    descriptors and a top mark.  `Alloc` and `Free` are what one call does to them; the
    linked lists that carry the ranges are in KernelHeap.dfy and are proved to follow
    these functions.  The laws of the allocator are proved here, once, about the functions.
  */
module HeapModel {
  import opened Options
  import opened Arith

  datatype Seg = Seg(addr: nat, size: nat) {
    function End(): nat { addr + size }

    predicate Has(x: int) { addr <= x < addr + size }
  }

  /** The constants `init` fixes: the bounds of the arena and the allocator's tuning. */
  datatype Config = Config(start: nat, limit: nat, maxBlocks: nat, threshold: nat, alignment: nat) {
    predicate Ok() {
      && 0 < alignment && 0 < threshold && 0 < maxBlocks
      && start <= limit && start % alignment == 0
    }
  }

  datatype Heap = Heap(free: seq<Seg>, used: seq<Seg>, blank: nat, top: nat)

  /** `(n + a - 1) & -a` for a power of two `a`. */
  function RoundUp(n: nat, a: nat): nat
    requires 0 < a
  {
    (n + a - 1) / a * a
  }

  /** First fit takes a block that is large enough, or the top block when it can be resized. */
  predicate IsTop(b: Seg, top: nat, limit: nat, n: nat) {
    b.End() >= top && b.addr + n <= limit
  }

  predicate Fits(b: Seg, top: nat, limit: nat, n: nat) {
    IsTop(b, top, limit, n) || b.size >= n
  }

  function FirstFit(fs: seq<Seg>, top: nat, limit: nat, n: nat): (i: nat)
    ensures i <= |fs|
    ensures i < |fs| ==> Fits(fs[i], top, limit, n)
    ensures forall j :: 0 <= j < i ==> !Fits(fs[j], top, limit, n)
  {
    if fs == [] || Fits(fs[0], top, limit, n) then 0 else 1 + FirstFit(fs[1..], top, limit, n)
  }

  function Without<T>(s: seq<T>, i: nat): seq<T>
    requires i < |s|
  {
    s[..i] + s[i + 1..]
  }

  /** Insertion into the free list, which is kept sorted by address. */
  function Insert(fs: seq<Seg>, b: Seg): seq<Seg> {
    if fs == [] || b.addr <= fs[0].addr then [b] + fs else [fs[0]] + Insert(fs[1..], b)
  }

  /** Adjacent free blocks become one. */
  function Coalesce(fs: seq<Seg>): seq<Seg>
    decreases |fs|
  {
    if |fs| < 2 then fs
    else if fs[0].End() == fs[1].addr then Coalesce([Seg(fs[0].addr, fs[0].size + fs[1].size)] + fs[2..])
    else [fs[0]] + Coalesce(fs[1..])
  }

  function InitHeap(c: Config): Heap {
    Heap([], [], c.maxBlocks, c.start)
  }

  /** Puts `b` into the free list and merges; merged descriptors become blank again. */
  function Release(h: Heap, b: Seg): Heap {
    var fs := Insert(h.free, b);
    var merged := Coalesce(fs);
    h.(free := merged, blank := h.blank + if |merged| <= |fs| then |fs| - |merged| else 0)
  }

  /** What becomes of the free block at position `i` when it serves a request of `n` bytes: the
      top block is resized, a block with enough excess is split, any other is handed out whole. */
  function Take(c: Config, h: Heap, i: nat, n: nat): (Heap, Seg)
    requires i < |h.free| && Fits(h.free[i], h.top, c.limit, n)
  {
    var b := h.free[i];
    var rest := h.(free := Without(h.free, i));
    if IsTop(b, h.top, c.limit, n) then
      var taken := Seg(b.addr, n);
      (rest.(used := [taken] + h.used, top := taken.End()), taken)
    else if h.blank > 0 && b.size - n >= c.threshold then
      var taken := Seg(b.addr, n);
      var split := Seg(b.addr + n, b.size - n);
      (Release(rest.(used := [taken] + h.used, blank := h.blank - 1), split), taken)
    else
      (rest.(used := [b] + h.used), b)
  }

  /** The three ways a block is handed out. */
  lemma TakeCases(c: Config, h: Heap, i: nat, n: nat)
    requires i < |h.free| && Fits(h.free[i], h.top, c.limit, n)
    ensures var b, rest := h.free[i], h.(free := Without(h.free, i));
            Take(c, h, i, n) ==
            if IsTop(b, h.top, c.limit, n) then (rest.(used := [Seg(b.addr, n)] + h.used, top := b.addr + n),
                Seg(b.addr, n))
            else if h.blank > 0 && b.size - n >= c.threshold then
              (Release(rest.(used := [Seg(b.addr, n)] + h.used, blank := h.blank - 1), Seg(b.addr + n, b.size - n)),
                  Seg(b.addr, n))
            else (rest.(used := [b] + h.used), b)
  {
    hide Release, Without;
  }

  /** A request already rounded: first fit, then a bump of `top`.  The block handed out is the
      head of the new used list. */
  function Serve(c: Config, h: Heap, n: nat): (Heap, Option<Seg>) {
    var i := FirstFit(h.free, h.top, c.limit, n);
    if i < |h.free| then
      var (g, taken) := Take(c, h, i, n);
      (g, Some(taken))
    else if h.blank > 0 && h.top + n <= c.limit then
      var taken := Seg(h.top, n);
      (h.(used := [taken] + h.used, blank := h.blank - 1, top := taken.End()), Some(taken))
    else
      (h, None)
  }

  lemma ServeCases(c: Config, h: Heap, n: nat)
    ensures var i := FirstFit(h.free, h.top, c.limit, n);
            Serve(c, h, n) ==
            if i < |h.free| then (Take(c, h, i, n).0, Some(Take(c, h, i, n).1))
            else if h.blank > 0 && h.top + n <= c.limit then
              (h.(used := [Seg(h.top, n)] + h.used, blank := h.blank - 1, top := h.top + n), Some(Seg(h.top, n)))
            else (h, None)
  {
    hide Take;
  }

  function Alloc(c: Config, h: Heap, num: nat): (Heap, Option<Seg>)
    requires c.Ok()
  {
    Serve(c, h, RoundUp(num, c.alignment))
  }

  function FindUsed(us: seq<Seg>, p: nat): (i: nat)
    ensures i <= |us|
    ensures i < |us| ==> us[i].addr == p
    ensures forall j :: 0 <= j < i ==> us[j].addr != p
  {
    if us == [] || us[0].addr == p then 0 else 1 + FindUsed(us[1..], p)
  }

  /** Freeing an address that is not the start of a used block changes nothing. */
  function Free(h: Heap, p: nat): Heap {
    var i := FindUsed(h.used, p);
    if i < |h.used| then Release(h.(used := Without(h.used, i)), h.used[i]) else h
  }

  // ---------------------------------------------------------------- the invariant

  /** How many of the blocks hold address `x`. */
  ghost function Cover(bs: seq<Seg>, x: int): nat {
    if bs == [] then 0 else (if bs[0].Has(x) then 1 else 0) + Cover(bs[1..], x)
  }

  ghost predicate Sound(bs: seq<Seg>, alignment: nat)
    requires 0 < alignment
  {
    forall i :: 0 <= i < |bs| ==> 0 < bs[i].size && bs[i].addr % alignment == 0 && bs[i].size % alignment == 0
  }

  ghost predicate Sorted(fs: seq<Seg>) {
    forall i, j :: 0 <= i < j < |fs| ==> fs[i].addr <= fs[j].addr
  }

  /** No two blocks overlap, and the list is in address order. */
  ghost predicate Ordered(fs: seq<Seg>) {
    forall i, j :: 0 <= i < j < |fs| ==> fs[i].End() <= fs[j].addr
  }

  /** Address order with a gap between any two blocks: nothing is left to coalesce. */
  ghost predicate Separated(fs: seq<Seg>) {
    forall i, j :: 0 <= i < j < |fs| ==> fs[i].End() < fs[j].addr
  }

  /** Every address of [start, top) lies in exactly one block, and no other address in any. */
  ghost predicate Tiled(c: Config, h: Heap) {
    forall x :: Cover(h.free, x) + Cover(h.used, x) == if c.start <= x < h.top then 1 else 0
  }

  ghost predicate Inv(c: Config, h: Heap)
    requires c.Ok()
  {
    && c.start <= h.top <= c.limit
    && h.top % c.alignment == 0
    && Sound(h.free, c.alignment) && Sound(h.used, c.alignment)
    && Separated(h.free)
    && Tiled(c, h)
    && |h.free| + |h.used| + h.blank == c.maxBlocks
  }

  // ---------------------------------------------------------------- arithmetic of rounding

  lemma {:induction false} RoundUpIsLeastMultiple(n: nat, a: nat)
    requires 0 < a
    ensures RoundUp(n, a) % a == 0
    ensures n <= RoundUp(n, a) < n + a
  {
    var q := (n + a - 1) / a;
    assert q * a == (n + a - 1) - (n + a - 1) % a;
    DivModUnique(q * a, a, q, 0);
  }

  // ---------------------------------------------------------------- covering

  lemma {:induction false} CoverAppend(a: seq<Seg>, b: seq<Seg>, x: int)
    ensures Cover(a + b, x) == Cover(a, x) + Cover(b, x)
  {
    if a == [] {
      assert a + b == b;
    } else {
      assert (a + b)[1..] == a[1..] + b;
      CoverAppend(a[1..], b, x);
    }
  }

  lemma CoverOne(b: Seg, x: int)
    ensures Cover([b], x) == if b.Has(x) then 1 else 0
  {
    assert Cover([b], x) == (if b.Has(x) then 1 else 0) + Cover([b][1..], x);
  }

  lemma CoverWithout(bs: seq<Seg>, i: nat, x: int)
    requires i < |bs|
    ensures Cover(bs, x) == Cover(Without(bs, i), x) + if bs[i].Has(x) then 1 else 0
  {
    assert bs == bs[..i] + ([bs[i]] + bs[i + 1..]);
    CoverAppend(bs[..i], [bs[i]] + bs[i + 1..], x);
    CoverAppend([bs[i]], bs[i + 1..], x);
    CoverAppend(bs[..i], bs[i + 1..], x);
    CoverOne(bs[i], x);
  }

  lemma CoverCons(b: Seg, bs: seq<Seg>, x: int)
    ensures Cover([b] + bs, x) == Cover(bs, x) + if b.Has(x) then 1 else 0
  {
    CoverAppend([b], bs, x);
    CoverOne(b, x);
  }

  lemma {:induction false} CoverMember(bs: seq<Seg>, i: nat, x: int)
    requires i < |bs| && bs[i].Has(x)
    ensures Cover(bs, x) >= 1
  {
    CoverWithout(bs, i, x);
  }

  lemma {:induction false} CoverWitness(bs: seq<Seg>, x: int) returns (i: nat)
    requires Cover(bs, x) >= 1
    ensures i < |bs| && bs[i].Has(x)
  {
    if bs[0].Has(x) {
      i := 0;
    } else {
      var j := CoverWitness(bs[1..], x);
      i := j + 1;
    }
  }

  lemma CoverTwo(bs: seq<Seg>, i: nat, j: nat, x: int)
    requires i < j < |bs| && bs[i].Has(x) && bs[j].Has(x)
    ensures Cover(bs, x) >= 2
  {
    CoverWithout(bs, j, x);
    assert Without(bs, j)[i] == bs[i];
    CoverMember(Without(bs, j), i, x);
  }

  /** Sorted blocks that cover no address twice do not overlap. */
  lemma OrderedFromCover(fs: seq<Seg>)
    requires Sorted(fs)
    requires forall i :: 0 <= i < |fs| ==> 0 < fs[i].size
    requires forall x :: Cover(fs, x) <= 1
    ensures Ordered(fs)
  {
    forall i, j | 0 <= i < j < |fs| ensures fs[i].End() <= fs[j].addr {
      if fs[j].addr < fs[i].End() {
        CoverTwo(fs, i, j, fs[j].addr);
        assert false;
      }
    }
  }

  // ---------------------------------------------------------------- insertion and coalescing

  ghost function Spliced<T>(s: seq<T>, k: nat, b: T): (r: seq<T>)
    requires k <= |s|
    ensures |r| == |s| + 1
    ensures forall i :: 0 <= i <= |s| ==> r[i] == if i < k then s[i] else if i == k then b else s[i - 1]
  {
    s[..k] + [b] + s[k..]
  }

  lemma {:induction false} InsertIs(fs: seq<Seg>, b: Seg, k: nat)
    requires k <= |fs|
    requires forall j :: 0 <= j < k ==> fs[j].addr < b.addr
    requires k < |fs| ==> b.addr <= fs[k].addr
    ensures Insert(fs, b) == Spliced(fs, k, b)
  {
    if k == 0 {
      assert fs[..0] + [b] + fs[0..] == [b] + fs;
    } else {
      InsertIs(fs[1..], b, k - 1);
      assert fs[..k] == [fs[0]] + fs[1..][..k - 1];
      assert fs[k..] == fs[1..][k - 1..];
      assert [fs[0]] + (fs[1..][..k - 1] + [b] + fs[1..][k - 1..]) == fs[..k] + [b] + fs[k..];
    }
  }

  lemma {:induction false} InsertAt(fs: seq<Seg>, b: Seg) returns (k: nat)
    requires Sorted(fs)
    ensures k <= |fs| && Insert(fs, b) == Spliced(fs, k, b)
    ensures forall i :: 0 <= i < k ==> fs[i].addr < b.addr
    ensures k < |fs| ==> b.addr <= fs[k].addr
  {
    k := 0;
    while k < |fs| && fs[k].addr < b.addr
      invariant k <= |fs|
      invariant forall i :: 0 <= i < k ==> fs[i].addr < b.addr
    {
      k := k + 1;
    }
    InsertIs(fs, b, k);
  }

  lemma CoverSpliced(fs: seq<Seg>, k: nat, b: Seg, x: int)
    requires k <= |fs|
    ensures Cover(Spliced(fs, k, b), x) == Cover(fs, x) + if b.Has(x) then 1 else 0
  {
    assert fs == fs[..k] + fs[k..];
    CoverAppend(fs[..k], fs[k..], x);
    CoverAppend(fs[..k] + [b], fs[k..], x);
    CoverAppend(fs[..k], [b], x);
    CoverOne(b, x);
  }

  lemma SplicedSorted(fs: seq<Seg>, k: nat, b: Seg)
    requires k <= |fs| && Sorted(fs)
    requires forall i :: 0 <= i < k ==> fs[i].addr <= b.addr
    requires k < |fs| ==> b.addr <= fs[k].addr
    ensures Sorted(Spliced(fs, k, b))
  {
  }

  lemma InsertKeeps(fs: seq<Seg>, b: Seg, a: nat)
    requires 0 < a && Sorted(fs) && Sound(fs, a) && Sound([b], a)
    ensures Sorted(Insert(fs, b)) && Sound(Insert(fs, b), a)
    ensures |Insert(fs, b)| == |fs| + 1
    ensures forall x :: Cover(Insert(fs, b), x) == Cover(fs, x) + if b.Has(x) then 1 else 0
  {
    var k := InsertAt(fs, b);
    SplicedSorted(fs, k, b);
    assert [b][0] == b;
    forall x ensures Cover(Insert(fs, b), x) == Cover(fs, x) + if b.Has(x) then 1 else 0 {
      CoverSpliced(fs, k, b, x);
    }
  }

  lemma {:induction false} CoalesceSound(fs: seq<Seg>, a: nat)
    requires 0 < a && Sound(fs, a)
    ensures Sound(Coalesce(fs), a)
    decreases |fs|
  {
    if |fs| < 2 {
    } else if fs[0].End() == fs[1].addr {
      var m := Seg(fs[0].addr, fs[0].size + fs[1].size);
      MultipleAdd(fs[0].size, fs[1].size, a);
      CoalesceSound([m] + fs[2..], a);
    } else {
      CoalesceSound(fs[1..], a);
    }
  }

  lemma {:induction false} CoalesceCover(fs: seq<Seg>, x: int)
    ensures Cover(Coalesce(fs), x) == Cover(fs, x)
    decreases |fs|
  {
    if |fs| < 2 {
    } else if fs[0].End() == fs[1].addr {
      var m := Seg(fs[0].addr, fs[0].size + fs[1].size);
      CoalesceCover([m] + fs[2..], x);
      CoverCons(m, fs[2..], x);
      assert fs == [fs[0]] + ([fs[1]] + fs[2..]);
      CoverCons(fs[0], [fs[1]] + fs[2..], x);
      CoverCons(fs[1], fs[2..], x);
    } else {
      CoalesceCover(fs[1..], x);
      CoverCons(fs[0], Coalesce(fs[1..]), x);
      assert fs == [fs[0]] + fs[1..];
      CoverCons(fs[0], fs[1..], x);
    }
  }

  lemma {:induction false} CoalesceSeparates(fs: seq<Seg>)
    requires Ordered(fs) && forall i :: 0 <= i < |fs| ==> 0 < fs[i].size
    ensures Separated(Coalesce(fs)) && |Coalesce(fs)| <= |fs|
    ensures fs != [] ==> Coalesce(fs) != [] && Coalesce(fs)[0].addr == fs[0].addr
    decreases |fs|
  {
    if |fs| < 2 {
    } else if fs[0].End() == fs[1].addr {
      CoalesceSeparates([Seg(fs[0].addr, fs[0].size + fs[1].size)] + fs[2..]);
    } else {
      CoalesceSeparates(fs[1..]);
      CoalesceSizes(fs[1..]);
      assert fs[0].End() < Coalesce(fs[1..])[0].addr;
    }
  }

  lemma {:induction false} CoalesceSizes(fs: seq<Seg>)
    requires forall i :: 0 <= i < |fs| ==> 0 < fs[i].size
    ensures forall i :: 0 <= i < |Coalesce(fs)| ==> 0 < Coalesce(fs)[i].size
    decreases |fs|
  {
    if |fs| < 2 {
    } else if fs[0].End() == fs[1].addr {
      CoalesceSizes([Seg(fs[0].addr, fs[0].size + fs[1].size)] + fs[2..]);
    } else {
      CoalesceSizes(fs[1..]);
    }
  }

  /** Giving an unused block back: the free list stays coalesced and covers exactly its bytes more. */
  lemma ReleaseKeeps(h: Heap, b: Seg, a: nat)
    requires 0 < a && Separated(h.free) && Sound(h.free, a) && Sound([b], a)
    requires forall x :: Cover(h.free, x) + (if b.Has(x) then 1 else 0) <= 1
    ensures var g := Release(h, b);
            && g.used == h.used && g.top == h.top
            && Separated(g.free) && Sound(g.free, a)
            && |g.free| + g.blank == |h.free| + h.blank + 1
            && forall x :: Cover(g.free, x) == Cover(h.free, x) + if b.Has(x) then 1 else 0
  {
    InsertKeeps(h.free, b, a);
    OrderedFromCover(Insert(h.free, b));
    CoalesceSeparates(Insert(h.free, b));
    CoalesceSound(Insert(h.free, b), a);
    forall x ensures Cover(Release(h, b).free, x) == Cover(h.free, x) + if b.Has(x) then 1 else 0 {
      CoalesceCover(Insert(h.free, b), x);
    }
  }

  lemma WithoutKeeps(bs: seq<Seg>, i: nat, a: nat)
    requires 0 < a && i < |bs| && Sound(bs, a)
    ensures Sound(Without(bs, i), a) && Sound([bs[i]], a)
    ensures Separated(bs) ==> Separated(Without(bs, i))
    ensures |Without(bs, i)| == |bs| - 1
    ensures forall x :: Cover(bs, x) == Cover(Without(bs, i), x) + if bs[i].Has(x) then 1 else 0
  {
    var w := Without(bs, i);
    assert forall k :: 0 <= k < |w| ==> w[k] == bs[if k < i then k else k + 1];
    forall x ensures Cover(bs, x) == Cover(w, x) + if bs[i].Has(x) then 1 else 0 {
      CoverWithout(bs, i, x);
    }
  }

  lemma ConsKeeps(b: Seg, bs: seq<Seg>, a: nat)
    requires 0 < a && Sound(bs, a) && Sound([b], a)
    ensures Sound([b] + bs, a)
    ensures forall x :: Cover([b] + bs, x) == Cover(bs, x) + if b.Has(x) then 1 else 0
  {
    assert [b][0] == b;
    forall x ensures Cover([b] + bs, x) == Cover(bs, x) + if b.Has(x) then 1 else 0 {
      CoverCons(b, bs, x);
    }
  }
}
