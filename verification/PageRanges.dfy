/** The arithmetic of mapping a range page by page. */
module PageRanges {
  import opened Words
  import opened Arith
  import opened PageTables

  function AlignDown(x: nat, size: nat): nat
    requires 0 < size
  {
    x - x % size
  }

  /** The number of bytes `mmu_map_range` maps, as the 64-bit difference of the aligned ends. */
  function RangeBytes(start: nat, end: nat, size: nat): nat
    requires 0 < size
  {
    (AlignDown((end + size - 1) % WORD64, size) - AlignDown(start, size)) % WORD64
  }

  /** How far an address lies behind the start of a range; virtual addresses wrap at 39 bits. */
  function Distance(start: nat, va: nat): nat { (va - start) % VIRT }

  lemma Distribute(a: int, n: int, b: int, s: int)
    ensures (a * n + b) * s == a * (n * s) + b * s
  {
    assert (a * n + b) * s == (a * n) * s + b * s;
  }

  lemma Factors(x: nat, s: nat, n: nat) returns (a: nat, b: nat)
    requires 0 < s && 0 < n && x % s == 0
    ensures x == a * (n * s) + b * s == (a * n + b) * s && b < n && b * s <= n * s - s
  {
    var q := x / s;
    a, b := q / n, q % n;
    assert q == a * n + b && x == q * s;
    Distribute(a, n, b, s);
    MulLe(b, n - 1, s);
    Distribute(1, n, -1, s);
  }

  /** Remainders of an aligned address and an offset, by a multiple of the alignment. */
  lemma AlignedRem(x: nat, o: nat, s: nat, n: nat)
    requires 0 < s && 0 < n && x % s == 0 && o < s
    ensures (x + o) % (n * s) == x % (n * s) + o && (x + o) % s == o
    ensures x % (n * s) % s == 0 && (x % (n * s) + o) / s * s == x % (n * s)
  {
    var a, b := Factors(x, s, n);
    assert x == (a * n + b) * s;
    DivModUnique(x + o, n * s, a, b * s + o);
    DivModUnique(x, n * s, a, b * s);
    DivModUnique(b * s + o, s, b, o);
    DivModUnique(b * s, s, b, 0);
    DivModUnique(x + o, s, a * n + b, o);
  }

  lemma PagesFit(lvl: nat) returns (virt: nat, phys: nat)
    requires lvl <= 2
    ensures 0 < virt && 0 < phys && VIRT == virt * PageSize(lvl) && PHYS == phys * PageSize(lvl)
  {
    virt, phys := VIRT / PageSize(lvl), PHYS / PageSize(lvl);
  }

  /** The page number of the address `j + o` bytes after an aligned start. */
  lemma PageAt(x: nat, o: nat, lvl: nat, va: nat)
    requires lvl <= 2 && x % PageSize(lvl) == 0 && o < PageSize(lvl) && va % VIRT == (x + o) % VIRT
    ensures PageNumber(va, lvl) * PageSize(lvl) == x % VIRT && va % PageSize(lvl) == o
  {
    var n, m := PagesFit(lvl);
    AlignedRem(x, o, PageSize(lvl), n);
    ModMod(va, VIRT, PageSize(lvl));
  }

  lemma SameMultipleIff(i: nat, d: nat, size: nat)
    requires 0 < size && i % size == 0
    ensures AlignDown(d, size) == i <==> i <= d < i + size
    ensures AlignDown(d, size) >= 0 && AlignDown(d, size) % size == 0
  {
    assert AlignDown(d, size) == d / size * size;
    DivModUnique(d / size * size, size, d / size, 0);
    if i <= d < i + size {
      DivModUnique(d, size, i / size, d - i);
    }
  }

  lemma AlignSplit(d: nat, size: nat)
    requires 0 < size
    ensures AlignDown(d, size) + d % size == d
  {
  }

  lemma DistanceBack(start: nat, va: nat)
    ensures va % VIRT == (start + Distance(start, va)) % VIRT
  {
    var q := (va - start) / VIRT;
    assert va == start + Distance(start, va) + q * VIRT;
  }

  lemma CongruentIff(start: nat, i: nat, j: nat)
    requires i < VIRT && j < VIRT
    ensures (start + i) % VIRT == (start + j) % VIRT <==> i == j
  {
  }

  /** Page `i` bytes into the range is the page of the addresses at distances `i` to `i + size`. */
  lemma PageOfRange(start: nat, i: nat, lvl: nat, va: nat)
    requires lvl <= 2 && start % PageSize(lvl) == 0 && i % PageSize(lvl) == 0 && i < VIRT
    ensures SamePage((start + i) % WORD64, va, lvl) <==> i <= Distance(start, va) < i + PageSize(lvl)
  {
    hide PageSize, PageNumber, AlignDown;
    var d, size := Distance(start, va), PageSize(lvl);
    var j := AlignDown(d, size);
    SameMultipleIff(i, d, size);
    assert j + d % size == d by { AlignSplit(d, size); }
    MultipleAdd(start, j, size);
    MultipleAdd(start, i, size);
    DistanceBack(start, va);
    PageAt(start + j, d % size, lvl, va);
    PageAt(start + i, 0, lvl, (start + i) % WORD64) by { ModMod(start + i, WORD64, VIRT); }
    CongruentIff(start, i, j);
    MulEqualIff(PageNumber(va, lvl), PageNumber((start + i) % WORD64, lvl), size);
  }

  lemma MulEqualIff(x: int, y: int, a: int)
    requires 0 < a
    ensures x * a == y * a <==> x == y
  {
    if x < y {
      MulLe(x + 1, y, a);
    } else if y < x {
      MulLe(y + 1, x, a);
    }
  }

  /** The physical side of the same step. */
  lemma PhysOfRange(start: nat, phys: nat, i: nat, lvl: nat, va: nat)
    requires lvl <= 2 && start % PageSize(lvl) == 0 && phys % PageSize(lvl) == 0 && i % PageSize(lvl) == 0
    requires i <= Distance(start, va) < i + PageSize(lvl)
    ensures InPage((phys + i) % WORD64, lvl, va) == (phys + Distance(start, va)) % PHYS
  {
    hide PageSize, PageNumber, AlignDown;
    var d, size := Distance(start, va), PageSize(lvl);
    var virt, n := PagesFit(lvl);
    SameMultipleIff(i, d, size);
    assert i + d % size == d by { AlignSplit(d, size); }
    MultipleAdd(start, i, size);
    MultipleAdd(phys, i, size);
    DistanceBack(start, va);
    PageAt(start + i, d % size, lvl, va);
    AlignedRem(phys + i, d % size, size, n);
    ModMod(phys + i, WORD64, PHYS);
  }

  lemma AlignDownAligned(x: nat, size: nat)
    requires 0 < size
    ensures AlignDown(x, size) >= 0 && AlignDown(x, size) % size == 0
  {
    SameMultipleIff(0, x, size);
  }

  lemma RangeBytesAligned(start: nat, end: nat, lvl: nat)
    requires lvl <= 2
    ensures RangeBytes(start, end, PageSize(lvl)) % PageSize(lvl) == 0
  {
    hide AlignDown;
    var size := PageSize(lvl);
    var x: int, y: int := AlignDown((end + size - 1) % WORD64, size), AlignDown(start, size);
    AlignDownAligned((end + size - 1) % WORD64, size);
    AlignDownAligned(start, size);
    MultipleAdd(x, y, size);
    ModMod(x - y, WORD64, size);
  }

  /** Without wrap-around the range ends at the least multiple of the page size that is not below its end. */
  lemma RangeBytesReach(start: nat, end: nat, size: nat)
    requires 0 < size && start <= end && end + size - 1 < 0x1_0000_0000_0000_0000
    ensures var reached := start - start % size + RangeBytes(start, end, size);
            reached % size == 0 && end <= reached < end + size
  {
    var x, y: int := end + size - 1, start - start % size;
    AlignDownAligned(x, size);
    AlignDownAligned(start, size);
    assert x % WORD64 == x;
    assert AlignDown(x, size) == x - x % size && AlignDown(start, size) == y;
    AlignDownMonotone(start, x, size);
    assert RangeBytes(start, end, size) == AlignDown(x, size) - y;
  }

  lemma AlignDownMonotone(a: nat, b: nat, size: nat)
    requires 0 < size && a <= b
    ensures AlignDown(a, size) <= AlignDown(b, size)
  {
    var p, q := a / size, b / size;
    assert a == p * size + a % size && b == q * size + b % size;
    if q < p {
      MulLe(q + 1, p, size);
      Distributes(q, 1, size);
    }
    MulLe(p, q, size);
  }

  /** An address between the ends of a range that does not wrap lies as far behind its start as it says. */
  lemma DistanceInRange(virt: nat, va: nat, i: nat)
    requires virt <= va < virt + i && i <= VIRT
    ensures Distance(virt, va) == va - virt < i
  {
  }

  lemma NextMultiple(i: nat, n: nat, size: nat)
    requires 0 < size && i % size == 0 && n % size == 0 && i < n
    ensures i + size <= n && (i + size) % size == 0
  {
    var a, b := i / size, n / size;
    assert i == a * size && n == b * size;
    if b <= a {
      MulLe(b, a, size);
    }
    MulLe(a + 1, b, size);
    assert (a + 1) * size == a * size + size;
    DivModUnique(i + size, size, a + 1, 0);
  }

  /** The first `i` bytes of the range are mapped, and every other address is as it was. */
  ghost predicate Mapped(m: Tables, m0: Tables, tab: nat, virt: nat, phys: nat, i: nat) {
    forall va: nat :: Translation(m, tab, va) == if Distance(virt, va) < i then (phys + Distance(virt, va)) % PHYS
                                                 else Translation(m0, tab, va)
  }

  /** Mapping the next page extends the range by a page. */
  lemma MappedStep(m0: Tables, m: Tables, m': Tables, tab: nat, virt: nat, phys: nat, i: nat, lvl: nat)
    requires lvl <= 2 && virt % PageSize(lvl) == 0 && phys % PageSize(lvl) == 0 && i % PageSize(lvl) == 0 && i < VIRT
    requires Mapped(m, m0, tab, virt, phys, i)
    requires forall va: nat :: Translation(m', tab, va)
                               == if SamePage((virt + i) % WORD64, va, lvl) then InPage((phys + i) % WORD64, lvl, va)
                                  else Translation(m, tab, va)
    ensures Mapped(m', m0, tab, virt, phys, i + PageSize(lvl))
  {
    hide Translation, PageSize, SamePage, InPage, Distance;
    forall va: nat
      ensures Translation(m', tab, va)
              == if Distance(virt, va) < i + PageSize(lvl) then (phys + Distance(virt, va)) % PHYS
                 else Translation(m0, tab, va)
    {
      PageOfRange(virt, i, lvl, va);
      if SamePage((virt + i) % WORD64, va, lvl) {
        PhysOfRange(virt, phys, i, lvl, va);
      }
    }
  }

  lemma DistanceOf(virt: nat, i: nat)
    requires i < VIRT
    ensures Distance(virt, (virt + i) % WORD64) == i
  {
    assert ((virt + i) % WORD64 - virt) % VIRT == i by {
      var q := (virt + i) / WORD64;
      assert (virt + i) % WORD64 == virt + i - q * WORD64;
      DivModUnique(i - q * WORD64, VIRT, -(q * (WORD64 / VIRT)), i);
    }
  }
}
