/** Sv39 page tables as src/mmu.c keeps them (section 4.4 of the RISC-V Privileged Architecture 1.12): the
    fields of addresses and entries, and what a tree of tables means.  Words are natural numbers; a shift is
    a product or a quotient by a power of two, a mask a remainder, and `|` of disjoint fields a sum. */
module PageTables {
  import opened Words
  import opened Arith

  const ENTRIES: nat := 512
  /** Physical addresses have 56 bits, virtual addresses 39. */
  const PHYS: nat := 0x100_0000_0000_0000
  const VIRT: nat := 0x80_0000_0000
  const PAGE_FAULT: nat := WORD64 - 1
  const NULL: nat := 0

  /** The tables in memory, by physical address. */
  type Tables = map<nat, seq<nat>>

  function PageSize(lvl: nat): (size: nat)
    requires lvl <= 2
    ensures size > 0
  {
    if lvl == 0 then 0x1000 else if lvl == 1 then 0x20_0000 else 0x4000_0000
  }

  // ---------------------------------------------------------------- entries

  /** Bit 0 of an entry. */
  predicate IsValid(pte: nat) { pte % 2 == 1 }

  /** Any of bits 1 to 3. */
  predicate IsLeaf(pte: nat) { pte / 2 % 8 != 0 }

  predicate IsBranch(pte: nat) { IsValid(pte) && !IsLeaf(pte) }

  /** The page an entry points to: the low ten bits are cleared and the rest is moved up by two. */
  function Target(pte: nat): nat { pte / 0x400 * 0x1000 % WORD64 }

  function SetValid(x: nat): nat { if x % 2 == 1 then x else x + 1 }

  function BranchTo(table: nat): nat { SetValid(table / 4) }

  /** The leaf entry for a physical address: three page numbers put next to each other, then the bits. */
  function LeafTo(paddr: nat, bits: nat): nat {
    (paddr / 0x4000_0000) % 0x400_0000 * 0x1000_0000 + (paddr / 0x20_0000) % 0x200 * 0x8_0000
    + (paddr / 0x1000) % 0x200 * 0x400 + SetValid(bits)
  }

  /** The address of a page of physical memory, not NULL. */
  predicate IsPage(p: nat) { p % 0x1000 == 0 && NULL < p < PHYS }

  predicate GoodBits(bits: nat) { bits < 0x400 && IsLeaf(bits) }

  // ---------------------------------------------------------------- virtual addresses

  type PageIndex = i: nat | i < ENTRIES

  /** The entries an address takes in the tables of levels 0, 1 and 2. */
  datatype Path = Path(low: PageIndex, middle: PageIndex, top: PageIndex)

  function Index(path: Path, lvl: nat): PageIndex
    requires lvl <= 2
  {
    if lvl == 0 then path.low else if lvl == 1 then path.middle else path.top
  }

  function PathOf(va: nat): Path {
    Path(va / 0x1000 % 0x200, va / 0x20_0000 % 0x200, va / 0x4000_0000 % 0x200)
  }

  /** Two paths are the same from the top down to a level. */
  predicate SamePath(a: Path, b: Path, lvl: nat)
    requires lvl <= 2
  {
    a.top == b.top && (lvl < 2 ==> a.middle == b.middle) && (lvl < 1 ==> a.low == b.low)
  }

  /** The number of the page of a level that a virtual address lies in; only its low 39 bits matter. */
  function PageNumber(va: nat, lvl: nat): nat
    requires lvl <= 2
  {
    va % VIRT / PageSize(lvl)
  }

  predicate SamePage(a: nat, b: nat, lvl: nat)
    requires lvl <= 2
  {
    PageNumber(a, lvl) == PageNumber(b, lvl)
  }

  // ---------------------------------------------------------------- translation

  datatype Mapping = Fault | Leaf(pte: nat, lvl: nat)

  /** The entry that the walk along a path from table `t` of level `lvl` ends at. */
  function Lookup(m: Tables, t: nat, lvl: nat, path: Path): (r: Mapping)
    requires lvl <= 2
    ensures r.Leaf? ==> r.lvl <= lvl
    decreases lvl
  {
    if t !in m || |m[t]| != ENTRIES then Fault
    else
      var pte := m[t][Index(path, lvl)];
      if !IsValid(pte) then Fault
      else if IsLeaf(pte) then Leaf(pte, lvl)
      else if lvl == 0 then Fault
      else Lookup(m, Target(pte), lvl - 1, path)
  }

  /** The address an entry gives: the page it points to, aligned for the level, and the offset of `va`. */
  function Resolve(e: Mapping, va: nat): nat
    requires e.Leaf? ==> e.lvl <= 2
  {
    if e.Fault? then PAGE_FAULT
    else Target(e.pte) - Target(e.pte) % PageSize(e.lvl) + va % PageSize(e.lvl)
  }

  /** The translation of an address by the tree at `root`. */
  function Translation(m: Tables, root: nat, va: nat): nat {
    Resolve(Lookup(m, root, 2, PathOf(va)), va)
  }

  /** The physical address at the place of `va` in the page of level `lvl` that `paddr` lies in. */
  function InPage(paddr: nat, lvl: nat, va: nat): nat
    requires lvl <= 2
  {
    paddr % PHYS - paddr % PHYS % PageSize(lvl) + va % PageSize(lvl)
  }

  /** The tables form a tree: every branch goes one level down to a table of its own, and level 0 has no
      branches. */
  ghost predicate Tree(m: Tables, level: map<nat, nat>, root: nat) {
    && root in m && root in level && level[root] == 2
    && (forall t :: t in m ==> t != NULL && t in level && level[t] <= 2 && |m[t]| == ENTRIES)
    && (forall t, i :: t in m && 0 <= i < ENTRIES && IsBranch(m[t][i]) ==>
          level[t] > 0 && Target(m[t][i]) in m && level[Target(m[t][i])] == level[t] - 1)
    && (forall t, i, u, j | t in m && u in m && 0 <= i < ENTRIES && 0 <= j < ENTRIES ::
          IsBranch(m[t][i]) && IsBranch(m[u][j]) && Target(m[t][i]) == Target(m[u][j]) ==> t == u && i == j)
  }

  /** The tables after entry `i` of table `t` is written. */
  function Write(m: Tables, t: nat, i: nat, pte: nat): Tables
    requires t in m && i < |m[t]|
  {
    var entries: seq<nat> := m[t][i := pte];
    m[t := entries]
  }

  // ---------------------------------------------------------------- the fields fit together

  /** The last digit of a number in base 512. */
  lemma LastDigit(x: nat, q: nat, r: nat)
    requires x == q * 0x200 + r && r < 0x200
    ensures x / 0x200 == q && x % 0x200 == r
  {
  }

  /** An address from its fields: `high` above bit 38 for a virtual address. */
  lemma FieldsOf(x: nat, high: nat, top: nat, middle: nat, low: nat, offset: nat)
    requires top < 0x200 && middle < 0x200 && low < 0x200 && offset < 0x1000
    requires x == high * 0x80_0000_0000 + top * 0x4000_0000 + middle * 0x20_0000 + low * 0x1000 + offset
    ensures x / 0x1000 % 0x200 == low && x / 0x20_0000 % 0x200 == middle && x / 0x4000_0000 % 0x200 == top
    ensures x % 0x1000 == offset && x % VIRT == x - high * 0x80_0000_0000
  {
    var a := high * 0x800_0000 + top * 0x4_0000 + middle * 0x200 + low;
    var b, c := high * 0x4_0000 + top * 0x200 + middle, high * 0x200 + top;
    DivModUnique(x, 0x1000, a, offset);
    DivModUnique(x, 0x20_0000, b, low * 0x1000 + offset);
    DivModUnique(x, 0x4000_0000, c, middle * 0x20_0000 + low * 0x1000 + offset);
    DivModUnique(x, VIRT, high, top * 0x4000_0000 + middle * 0x20_0000 + low * 0x1000 + offset);
    LastDigit(a, b, low);
    LastDigit(b, c, middle);
    LastDigit(c, high, top);
  }

  /** The low 39 bits of an address are its three indices and the offset in the page. */
  lemma AddressFields(va: nat)
    ensures va % VIRT ==
            PathOf(va).top * 0x4000_0000 + PathOf(va).middle * 0x20_0000 + PathOf(va).low * 0x1000 + va % 0x1000
  {
    var a, b, c := va / 0x1000, va / 0x1000 / 0x200, va / 0x1000 / 0x200 / 0x200;
    FieldsOf(va, c / 0x200, c % 0x200, b % 0x200, a % 0x200, va % 0x1000);
  }

  lemma PageNumberIs(va: nat)
    ensures PageNumber(va, 2) == PathOf(va).top
    ensures PageNumber(va, 1) == PathOf(va).top * 0x200 + PathOf(va).middle
    ensures PageNumber(va, 0) == PathOf(va).top * 0x4_0000 + PathOf(va).middle * 0x200 + PathOf(va).low
  {
    hide PathOf;
    AddressFields(va);
  }

  /** Two addresses are in one page exactly if they take the same entries from the top down to its level. */
  lemma SamePageIff(a: nat, b: nat, lvl: nat)
    requires lvl <= 2
    ensures SamePage(a, b, lvl) <==> SamePath(PathOf(a), PathOf(b), lvl)
  {
    hide PathOf, PageNumber;
    PageNumberIs(a);
    PageNumberIs(b);
  }

  lemma BranchFlags(n: nat)
    ensures SetValid(n * 0x400) == n * 0x400 + 1
    ensures IsValid(n * 0x400 + 1) && !IsLeaf(n * 0x400 + 1) && (n * 0x400 + 1) / 0x400 == n
  {
    assert n * 0x400 % 2 == 0;
    assert (n * 0x400 + 1) / 2 == n * 0x200;
  }

  /** A branch to a page can be followed back to it. */
  lemma BranchTarget(p: nat)
    requires IsPage(p)
    ensures IsBranch(BranchTo(p)) && Target(BranchTo(p)) == p
  {
    hide IsValid, IsLeaf, SetValid;
    var n := p / 0x1000;
    assert p / 4 == n * 0x400;
    BranchFlags(n);
  }

  lemma LeafFlags(ppn: nat, bits: nat)
    requires GoodBits(bits)
    ensures IsValid(ppn * 0x400 + SetValid(bits)) && IsLeaf(ppn * 0x400 + SetValid(bits))
    ensures (ppn * 0x400 + SetValid(bits)) / 0x400 == ppn
  {
    assert SetValid(bits) < 0x400 && SetValid(bits) / 2 == bits / 2;
    assert (ppn * 0x400 + SetValid(bits)) / 2 == ppn * 0x200 + bits / 2;
  }

  /** The physical page number of an address, and the leaf entry as that number and the bits. */
  lemma LeafFields(paddr: nat, bits: nat) returns (ppn: nat)
    requires bits < 0x400
    ensures ppn < 0x1000_0000_0000 && LeafTo(paddr, bits) == ppn * 0x400 + SetValid(bits)
    ensures paddr % PHYS - paddr % 0x1000 == ppn * 0x1000
  {
    var a, b, c := paddr / 0x1000, paddr / 0x1000 / 0x200, paddr / 0x1000 / 0x200 / 0x200;
    FieldsOf(paddr, c / 0x200, c % 0x200, b % 0x200, a % 0x200, paddr % 0x1000);
    ppn := c % 0x400_0000 * 0x4_0000 + b % 0x200 * 0x200 + a % 0x200;
    assert paddr / 0x4000_0000 == c && paddr / 0x20_0000 == b;
    PhysicalFields(paddr, c / 0x400_0000, ppn, paddr % 0x1000);
  }

  /** The leaf entry, bit for bit: the 44 bits of the page number, then the bits asked for with bit 0 set. */
  lemma LeafIs(paddr: nat, bits: nat)
    requires bits < 0x400
    ensures LeafTo(paddr, bits) == paddr / 0x1000 % 0x1000_0000_0000 * 0x400 + bits + (1 - bits % 2)
  {
    var a, b, c := paddr / 0x1000, paddr / 0x1000 / 0x200, paddr / 0x1000 / 0x200 / 0x200;
    assert paddr / 0x4000_0000 == c && paddr / 0x20_0000 == b;
    DivModUnique(a, 0x1000_0000_0000, c / 0x400_0000,
                 c % 0x400_0000 * 0x4_0000 + b % 0x200 * 0x200 + a % 0x200);
  }

  lemma PhysicalFields(paddr: nat, high: nat, ppn: nat, offset: nat)
    requires paddr == high * PHYS + ppn * 0x1000 + offset && ppn < 0x1000_0000_0000 && offset < 0x1000
    ensures paddr % PHYS == ppn * 0x1000 + offset && paddr % 0x1000 == offset
  {
  }

  /** A leaf entry is valid, is a leaf, and points to the page of the physical address. */
  lemma LeafTarget(paddr: nat, bits: nat)
    requires GoodBits(bits)
    ensures IsValid(LeafTo(paddr, bits)) && IsLeaf(LeafTo(paddr, bits))
    ensures Target(LeafTo(paddr, bits)) == paddr % PHYS - paddr % 0x1000
  {
    assert bits < 0x400;
    hide LeafTo, SetValid, IsValid, IsLeaf, GoodBits;
    var ppn := LeafFields(paddr, bits);
    LeafFlags(ppn, bits);
  }

  lemma AlignedTwice(x: nat, lvl: nat)
    requires lvl <= 2
    ensures var y := x - x % 0x1000; y >= 0 && y - y % PageSize(lvl) == x - x % PageSize(lvl)
  {
    var size := PageSize(lvl);
    var q, r := x / size, x % size;
    assert size % 0x1000 == 0;
    ModMod(x, size, 0x1000);
    assert 0 <= r - r % 0x1000 < size;
    hide PageSize;
    DivModUnique(x - x % 0x1000, size, q, r - r % 0x1000);
  }

  /** The address a leaf entry gives is the aligned base plus the offset in the page. */
  lemma LeafResolves(paddr: nat, bits: nat, lvl: nat, va: nat)
    requires lvl <= 2 && GoodBits(bits)
    ensures Resolve(Leaf(LeafTo(paddr, bits), lvl), va) == InPage(paddr, lvl, va)
  {
    hide LeafTo, Target, GoodBits, PageSize;
    LeafTarget(paddr, bits);
    assert paddr % PHYS % 0x1000 == paddr % 0x1000;
    AlignedTwice(paddr % PHYS, lvl);
  }
}
