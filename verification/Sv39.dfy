/** The address translation of the machine itself (section 4.3.2 of the RISC-V Privileged Architecture 1.12, with
    the entries of section 4.4), access rights and the accessed and dirty bits aside, and when it agrees with
    the walk of src/mmu.c. */
module Sv39 {
  import opened Words
  import opened Arith
  import opened PageTables
  import opened TableTrees
  import opened PageRanges

  predicate CanRead(pte: nat) { pte / 2 % 2 == 1 }

  predicate CanWrite(pte: nat) { pte / 4 % 2 == 1 }

  predicate CanExecute(pte: nat) { pte / 8 % 2 == 1 }

  /** Writable but not readable, or with one of the bits 54 to 63; a pointer to a table with U, A or D. */
  predicate IsReserved(pte: nat) {
    || (!CanRead(pte) && CanWrite(pte))
    || pte >= 0x40_0000_0000_0000
    || (!CanRead(pte) && !CanExecute(pte) && (pte / 0x10 % 2 == 1 || pte / 0x40 % 4 != 0))
  }

  /** The physical page number in bits 10 to 53, and its parts below a level. */
  function Ppn(pte: nat): nat { pte / 0x400 % 0x1000_0000_0000 }

  predicate IsMisaligned(pte: nat, lvl: nat) {
    (lvl == 1 && Ppn(pte) % 0x200 != 0) || (lvl == 2 && Ppn(pte) % 0x4_0000 != 0)
  }

  /** The nine bits of an address that choose an entry of a table. */
  function Vpn(va: nat, lvl: nat): (i: nat)
    ensures i < 0x200
  {
    if lvl == 0 then va / 0x1000 % 0x200 else if lvl == 1 then va / 0x20_0000 % 0x200 else va / 0x4000_0000 % 0x200
  }

  /** The bits of an address that are kept. */
  function PageOffset(va: nat, lvl: nat): nat {
    if lvl == 0 then va % 0x1000 else if lvl == 1 then va % 0x20_0000 else va % 0x4000_0000
  }

  /** The leaf that the walk of the machine ends at. */
  function Walk(m: Tables, t: nat, lvl: nat, va: nat): (r: Mapping)
    requires lvl <= 2
    ensures r.Leaf? ==> r.lvl <= lvl
    decreases lvl
  {
    if t !in m || |m[t]| != 0x200 then Fault
    else
      var pte := m[t][Vpn(va, lvl)];
      if pte % 2 == 0 || IsReserved(pte) then Fault
      else if CanRead(pte) || CanExecute(pte) then (if IsMisaligned(pte, lvl) then Fault else Leaf(pte, lvl))
      else if lvl == 0 then Fault
      else Walk(m, Ppn(pte) * 0x1000, lvl - 1, va)
  }

  /** Bits 39 to 63 are copies of bit 38. */
  predicate IsCanonical(va: nat) { va < VIRT / 2 || WORD64 - VIRT / 2 <= va < WORD64 }

  function MachineTranslation(m: Tables, root: nat, va: nat): nat {
    if !IsCanonical(va) || Walk(m, root, 2, va).Fault? then PAGE_FAULT
    else
      var leaf := Walk(m, root, 2, va);
      Ppn(leaf.pte) * 0x1000 + PageOffset(va, leaf.lvl)
  }

  /** No pointer to a table has a reserved bit. */
  ghost predicate CleanBranches(m: Tables) {
    forall t, i :: t in m && 0 <= i < |m[t]| && IsBranch(m[t][i]) ==> !IsReserved(m[t][i])
  }

  /** What the machine makes of a leaf of src/mmu.c. */
  function Accepted(e: Mapping): Mapping
    requires e.Leaf? ==> e.lvl <= 2
  {
    if e.Leaf? && (IsReserved(e.pte) || IsMisaligned(e.pte, e.lvl)) then Fault else e
  }

  lemma LeafBits(pte: nat)
    ensures IsLeaf(pte) <==> CanRead(pte) || CanWrite(pte) || CanExecute(pte)
  {
    var q := pte / 2;
    assert q / 2 == pte / 4 && q / 4 == pte / 8;
    EightIsZero(q);
  }

  lemma EightIsZero(q: nat)
    ensures q % 8 == 0 <==> q % 2 == 0 && q / 2 % 2 == 0 && q / 4 % 2 == 0
  {
    var a, r := q / 8, q % 8;
    DivModUnique(q, 2, 4 * a + r / 2, r % 2);
    DivModUnique(q, 4, 2 * a + r / 4, r % 4);
    DivModUnique(4 * a + r / 2, 2, 2 * a + r / 4, r / 2 % 2);
    DivModUnique(2 * a + r / 4, 2, a, r / 4);
  }

  lemma IndexIsVpn(va: nat, lvl: nat)
    requires lvl <= 2
    ensures Index(PathOf(va), lvl) == Vpn(va, lvl)
  {
  }

  lemma TargetIsPpn(pte: nat)
    requires pte < 0x40_0000_0000_0000
    ensures Target(pte) == Ppn(pte) * 0x1000
  {
    assert pte / 0x400 < 0x1000_0000_0000;
  }

  lemma NotReserved(pte: nat)
    requires !IsReserved(pte)
    ensures pte < 0x40_0000_0000_0000
  {
  }

  /** Where the tables are linked as `mmu_map` links them, the machine comes to the same leaf, and faults only
      if the leaf is reserved or misaligned. */
  lemma {:induction false} WalkIsLookup(m: Tables, t: nat, lvl: nat, va: nat)
    requires lvl <= 2 && CleanBranches(m)
    ensures Walk(m, t, lvl, va) == Accepted(Lookup(m, t, lvl, PathOf(va)))
    decreases lvl
  {
    hide IsReserved, CanRead, CanWrite, CanExecute, IsMisaligned, IsLeaf, Target, Ppn, Index, PathOf, Vpn;
    IndexIsVpn(va, lvl);
    if t in m && |m[t]| == ENTRIES {
      var pte := m[t][Vpn(va, lvl)];
      LeafBits(pte);
      WriteOnlyReserved(pte);
      if IsBranch(pte) && lvl > 0 {
        NotReserved(pte);
        TargetIsPpn(pte);
        WalkIsLookup(m, Target(pte), lvl - 1, va);
      }
    }
  }

  /** The address that an accepted leaf gives is that of `mmu_translate`. */
  lemma AcceptedResolves(pte: nat, lvl: nat, va: nat)
    requires lvl <= 2 && !IsReserved(pte) && !IsMisaligned(pte, lvl)
    ensures Resolve(Leaf(pte, lvl), va) == Ppn(pte) * 0x1000 + PageOffset(va, lvl)
  {
    hide IsReserved, Target, Ppn;
    NotReserved(pte);
    TargetIsPpn(pte);
    var q := Ppn(pte);
    if lvl == 1 {
      DivModUnique(q * 0x1000, 0x20_0000, q / 0x200, 0);
    } else if lvl == 2 {
      DivModUnique(q * 0x1000, 0x4000_0000, q / 0x4_0000, 0);
    }
  }

  lemma FaultResolves(va: nat)
    ensures Resolve(Fault, va) == 0xFFFF_FFFF_FFFF_FFFF
  {
  }

  /** The machine's translation in terms of the walk of src/mmu.c. */
  lemma MachineIs(m: Tables, root: nat, va: nat)
    requires CleanBranches(m)
    ensures MachineTranslation(m, root, va)
            == if IsCanonical(va) then Resolve(Accepted(Lookup(m, root, 2, PathOf(va))), va) else PAGE_FAULT
  {
    hide CleanBranches, IsReserved, IsMisaligned, Ppn, PageOffset, Walk, Lookup, PathOf, IsCanonical, Resolve;
    WalkIsLookup(m, root, 2, va);
    FaultResolves(va);
    var e := Walk(m, root, 2, va);
    if e.Leaf? {
      AcceptedResolves(e.pte, e.lvl, va);
    }
  }

  lemma WriteOnlyReserved(pte: nat)
    ensures !CanRead(pte) && CanWrite(pte) ==> IsReserved(pte)
  {
  }

  // ---------------------------------------------------------------- the entries that are written

  /** A branch that is written has no reserved bit. */
  lemma BranchIsClean(p: nat)
    requires IsPage(p)
    ensures !IsReserved(BranchTo(p))
  {
    var n := p / 0x1000;
    assert p / 4 == n * 0x400;
    BranchFlags(n);
    assert n * 0x400 < 0x40_0000_0000_0000;
    FlagsAbove(n, 1);
  }

  /** The flags of an entry are its low ten bits. */
  lemma FlagsAbove(n: nat, bits: nat)
    requires bits < 0x400
    ensures var pte := n * 0x400 + bits;
            && pte / 2 % 2 == bits / 2 % 2 && pte / 4 % 2 == bits / 4 % 2 && pte / 8 % 2 == bits / 8 % 2
            && pte / 0x10 % 2 == bits / 0x10 % 2 && pte / 0x40 % 4 == bits / 0x40 % 4
  {
    FlagAbove(n, bits, 2, 0x200, 2);
    FlagAbove(n, bits, 4, 0x100, 2);
    FlagAbove(n, bits, 8, 0x80, 2);
    FlagAbove(n, bits, 0x10, 0x40, 2);
    FlagAbove(n, bits, 0x40, 0x10, 4);
  }

  lemma FlagAbove(n: nat, bits: nat, s: nat, h: nat, c: nat)
    requires 0 < s && 0 < h && 0 < c && h * s == 0x400 && h % c == 0
    ensures (n * 0x400 + bits) / s % c == bits / s % c
  {
    var x := bits / s;
    assert n * (h * s) == n * 0x400;
    AboveBlock(n, h, s, bits);
    assert (n * 0x400 + bits) / s == n * h + x;
    assert h == h / c * c;
    AboveBlock(n, h / c, c, x);
  }

  /** What lies above `b * c` does not matter to a remainder by `c`. */
  lemma AboveBlock(n: nat, b: nat, c: nat, x: nat)
    requires 0 < c
    ensures (n * (b * c) + x) / c == n * b + x / c && (n * (b * c) + x) % c == x % c
  {
    var q, r := x / c, x % c;
    Associates(n, b, c);
    Distributes(n * b, q, c);
    assert x == q * c + r;
    DivModUnique(n * (b * c) + x, c, n * b + q, r);
  }

  /** The bits a caller may ask for: writable pages are readable. */
  predicate BitsAccepted(bits: nat) { CanWrite(bits) ==> CanRead(bits) }

  lemma LeafReservedIff(paddr: nat, bits: nat)
    requires GoodBits(bits)
    ensures IsReserved(LeafTo(paddr, bits)) <==> !BitsAccepted(bits)
  {
    hide LeafTo;
    var ppn := LeafFields(paddr, bits);
    FlagsAbove(ppn, SetValid(bits));
    LeafBits(bits);
    assert SetValid(bits) / 2 == bits / 2;
    assert SetValid(bits) / 4 == bits / 4 && SetValid(bits) / 8 == bits / 8;
  }

  /** The page number of a leaf that is written is that of the physical address. */
  lemma LeafPpn(paddr: nat, bits: nat)
    requires bits < 0x400
    ensures Ppn(LeafTo(paddr, bits)) == paddr / 0x1000 % 0x1000_0000_0000
    ensures LeafTo(paddr, bits) < 0x40_0000_0000_0000
  {
    LeafIs(paddr, bits);
    hide LeafTo;
    var n, f := paddr / 0x1000 % 0x1000_0000_0000, bits + (1 - bits % 2);
    DivModUnique(n * 0x400 + f, 0x400, n, f);
  }

  /** A leaf that is written is aligned for its level exactly when the address lies in the first small page of
      its page of that level. */
  lemma LeafAlignedIff(paddr: nat, bits: nat, lvl: nat)
    requires lvl <= 2 && bits < 0x400
    ensures !IsMisaligned(LeafTo(paddr, bits), lvl) <==> paddr % PageSize(lvl) < 0x1000
  {
    LeafPpn(paddr, bits);
    hide LeafTo, Ppn;
    var q := paddr / 0x1000;
    ModMod(q, 0x1000_0000_0000, 0x200);
    ModMod(q, 0x1000_0000_0000, 0x4_0000);
    SmallPart(paddr, 0x200);
    SmallPart(paddr, 0x4_0000);
  }

  lemma SmallPart(x: nat, k: nat)
    requires 0 < k
    ensures x % (0x1000 * k) < 0x1000 <==> x / 0x1000 % k == 0
  {
    var q, r := x / 0x1000, x % 0x1000;
    var a, b := q / k, q % k;
    assert x == q * 0x1000 + r && q == a * k + b;
    Associates(a, 0x1000, k);
    Associates(0x1000, a, k);
    assert a * (0x1000 * k) == 0x1000 * (a * k);
    DivModUnique(x, 0x1000 * k, a, b * 0x1000 + r);
  }

  /** What the machine makes of a leaf that is written. */
  lemma LeafAcceptedIff(paddr: nat, bits: nat, lvl: nat)
    requires lvl <= 2 && GoodBits(bits)
    ensures Accepted(Leaf(LeafTo(paddr, bits), lvl))
            == if BitsAccepted(bits) && paddr % PageSize(lvl) < 0x1000 then Leaf(LeafTo(paddr, bits), lvl) else Fault
  {
    hide LeafTo, IsReserved, IsMisaligned, BitsAccepted, PageSize;
    LeafReservedIff(paddr, bits);
    LeafAlignedIff(paddr, bits, lvl);
  }

  lemma LeafKeepsClean(m: Tables, t: nat, i: nat, pte: nat)
    requires CleanBranches(m) && t in m && i < |m[t]| && !IsBranch(pte)
    ensures CleanBranches(Write(m, t, i, pte))
  {
    hide IsReserved, IsBranch;
    var m' := Write(m, t, i, pte);
    forall u, j | u in m' && 0 <= j < |m'[u]| && IsBranch(m'[u][j]) ensures m'[u][j] == m[u][j] {
    }
  }

  lemma HangKeepsClean(m: Tables, t: nat, i: nat, p: nat)
    requires CleanBranches(m) && t in m && i < |m[t]| && p !in m && IsPage(p)
    ensures CleanBranches(Write(m, t, i, BranchTo(p))[p := NewTable()])
  {
    hide IsReserved, IsBranch, NewTable;
    var m' := Write(m, t, i, BranchTo(p))[p := NewTable()];
    BranchIsClean(p);
    forall j: nat | j < ENTRIES ensures !IsBranch(m'[p][j]) {
      NewTableNoBranch(j);
    }
    forall u, j | u in m' && 0 <= j < |m'[u]| && IsBranch(m'[u][j]) ensures !IsReserved(m'[u][j]) {
      assert u != p;
      assert (u == t && j == i) || m'[u][j] == m[u][j];
    }
  }

  lemma NewTableNoBranch(j: nat)
    requires j < ENTRIES
    ensures !IsBranch(NewTable()[j])
  {
    NewTableEmpty(j);
  }

  // ---------------------------------------------------------------- pages and ranges

  /** A page that is mapped: the machine translates it as asked exactly when the leaf is accepted. */
  ghost predicate MachineMapped(m: Tables, m0: Tables, root: nat, vaddr: nat, paddr: nat, lvl: nat, bits: nat)
    requires lvl <= 2
  {
    forall va: nat :: MachineTranslation(m, root, va)
                      == if SamePage(vaddr, va, lvl) && IsCanonical(va)
                         then (if BitsAccepted(bits) && paddr % PageSize(lvl) < 0x1000 then InPage(paddr, lvl, va)
                               else PAGE_FAULT)
                         else MachineTranslation(m0, root, va)
  }

  /** The leaves of one page are new, and every other address ends where it did. */
  ghost predicate PageLeaves(m: Tables, m0: Tables, root: nat, vaddr: nat, leaf: Mapping, lvl: nat)
    requires lvl <= 2
  {
    forall va: nat :: Lookup(m, root, 2, PathOf(va))
                      == if SamePage(vaddr, va, lvl) then leaf else Lookup(m0, root, 2, PathOf(va))
  }

  lemma LeavesOfPath(m: Tables, m0: Tables, root: nat, vaddr: nat, leaf: Mapping, lvl: nat)
    requires lvl <= 2
    requires forall at :: Lookup(m, root, 2, at)
                          == if SamePath(PathOf(vaddr), at, lvl) then leaf else Lookup(m0, root, 2, at)
    ensures PageLeaves(m, m0, root, vaddr, leaf, lvl)
  {
    hide Lookup, PathOf, SamePage, SamePath;
    forall va: nat ensures SamePage(vaddr, va, lvl) <==> SamePath(PathOf(vaddr), PathOf(va), lvl) {
      SamePageIff(vaddr, va, lvl);
    }
  }

  lemma LeavesAt(m: Tables, m0: Tables, root: nat, vaddr: nat, leaf: Mapping, lvl: nat)
    requires lvl <= 2 && PageLeaves(m, m0, root, vaddr, leaf, lvl)
    ensures forall va: nat :: SamePage(vaddr, va, lvl) ==> Lookup(m, root, 2, PathOf(va)) == leaf
  {
    hide Lookup, PathOf, SamePage;
  }

  lemma PageForMachine(m: Tables, m0: Tables, root: nat, vaddr: nat, paddr: nat, lvl: nat, bits: nat)
    requires lvl <= 2 && GoodBits(bits) && CleanBranches(m) && CleanBranches(m0)
    requires PageLeaves(m, m0, root, vaddr, Leaf(LeafTo(paddr, bits), lvl), lvl)
    ensures MachineMapped(m, m0, root, vaddr, paddr, lvl, bits)
  {
    hide Accepted, Lookup, MachineTranslation, LeafTo, InPage, SamePage, PathOf, BitsAccepted, PageSize, IsCanonical,
      Resolve, CleanBranches, GoodBits;
    forall va: nat ensures MachineTranslation(m, root, va)
                           == if SamePage(vaddr, va, lvl) && IsCanonical(va)
                              then (if BitsAccepted(bits) && paddr % PageSize(lvl) < 0x1000 then InPage(paddr, lvl, va)
                                    else PAGE_FAULT)
                              else MachineTranslation(m0, root, va)
    {
      MachineIs(m, root, va);
      MachineIs(m0, root, va);
      LeafAcceptedIff(paddr, bits, lvl);
      LeafResolves(paddr, bits, lvl, va);
      FaultResolves(va);
    }
  }

  /** The leaves of the first `i` bytes of a range are new, and every other address ends where it did. */
  ghost predicate RangeLeaves(m: Tables, m0: Tables, root: nat, virt: nat, phys: nat, i: nat, lvl: nat, bits: nat)
    requires lvl <= 2
  {
    forall va: nat :: Lookup(m, root, 2, PathOf(va))
                      == if Distance(virt, va) < i
                         then Leaf(LeafTo((phys + AlignDown(Distance(virt, va), PageSize(lvl))) % WORD64, bits), lvl)
                         else Lookup(m0, root, 2, PathOf(va))
  }

  lemma RangeLeavesStay(m0: Tables, m: Tables, m': Tables, root: nat, virt: nat, phys: nat, i: nat, lvl: nat, bits: nat)
    requires lvl <= 2 && RangeLeaves(m, m0, root, virt, phys, i, lvl, bits)
    requires forall va: nat :: Lookup(m', root, 2, PathOf(va)) == Lookup(m, root, 2, PathOf(va))
    ensures RangeLeaves(m', m0, root, virt, phys, i, lvl, bits)
  {
    hide Lookup, PathOf, LeafTo, Distance, PageSize, AlignDown;
  }

  lemma RangeLeavesStep(m0: Tables, m: Tables, m': Tables, root: nat, virt: nat, phys: nat, i: nat, lvl: nat, bits: nat)
    requires lvl <= 2 && virt % PageSize(lvl) == 0 && i % PageSize(lvl) == 0 && i < VIRT
    requires RangeLeaves(m, m0, root, virt, phys, i, lvl, bits)
    requires PageLeaves(m', m, root, (virt + i) % WORD64, Leaf(LeafTo((phys + i) % WORD64, bits), lvl), lvl)
    ensures RangeLeaves(m', m0, root, virt, phys, i + PageSize(lvl), lvl, bits)
  {
    hide Lookup, PathOf, LeafTo, SamePage, Distance, PageSize, AlignDown;
    forall va: nat
      ensures Lookup(m', root, 2, PathOf(va))
              == if Distance(virt, va) < i + PageSize(lvl)
                 then Leaf(LeafTo((phys + AlignDown(Distance(virt, va), PageSize(lvl))) % WORD64, bits), lvl)
                 else Lookup(m0, root, 2, PathOf(va))
    {
      PageOfRange(virt, i, lvl, va);
      SameMultipleIff(i, Distance(virt, va), PageSize(lvl));
    }
  }

  /** A range is mapped from an aligned start, so no leaf of it is misaligned: the machine translates it as
      `mmu_translate` does. */
  ghost predicate MachineAgrees(m: Tables, m0: Tables, root: nat, virt: nat, i: nat) {
    forall va: nat :: MachineTranslation(m, root, va)
                      == if Distance(virt, va) < i && IsCanonical(va) then Translation(m, root, va)
                         else MachineTranslation(m0, root, va)
  }

  lemma RangeForMachine(m: Tables, m0: Tables, root: nat, virt: nat, phys: nat, i: nat, lvl: nat, bits: nat)
    requires lvl <= 2 && GoodBits(bits) && BitsAccepted(bits) && phys % PageSize(lvl) == 0
    requires CleanBranches(m) && CleanBranches(m0) && RangeLeaves(m, m0, root, virt, phys, i, lvl, bits)
    ensures MachineAgrees(m, m0, root, virt, i)
  {
    hide Accepted, Lookup, MachineTranslation, LeafTo, PathOf, BitsAccepted, PageSize, IsCanonical, Resolve,
      CleanBranches, GoodBits, Distance, AlignDown;
    forall va: nat ensures MachineTranslation(m, root, va)
                           == if Distance(virt, va) < i && IsCanonical(va) then Translation(m, root, va)
                              else MachineTranslation(m0, root, va)
    {
      MachineIs(m, root, va);
      MachineIs(m0, root, va);
      var k := AlignDown(Distance(virt, va), PageSize(lvl));
      AlignDownAligned(Distance(virt, va), PageSize(lvl));
      AlignedInWord(phys, k, lvl);
      LeafAcceptedIff((phys + k) % WORD64, bits, lvl);
    }
  }

  /** Every leaf of a range has the flags asked for, and bit 0. */
  lemma RangeFlags(m: Tables, m0: Tables, root: nat, virt: nat, phys: nat, i: nat, lvl: nat, bits: nat)
    requires lvl <= 2 && bits < 0x400 && RangeLeaves(m, m0, root, virt, phys, i, lvl, bits)
    ensures forall va: nat :: Distance(virt, va) < i ==>
              var e := Lookup(m, root, 2, PathOf(va));
              e.Leaf? && e.lvl == lvl && e.pte % 0x400 == bits + (1 - bits % 2)
  {
    hide Lookup, LeafTo, PathOf, PageSize, Distance, AlignDown;
    forall va: nat | Distance(virt, va) < i
      ensures var e := Lookup(m, root, 2, PathOf(va));
              e.Leaf? && e.lvl == lvl && e.pte % 0x400 == bits + (1 - bits % 2)
    {
      LeafFlagsAre((phys + AlignDown(Distance(virt, va), PageSize(lvl))) % WORD64, bits);
    }
  }

  lemma LeafFlagsAre(paddr: nat, bits: nat)
    requires bits < 0x400
    ensures LeafTo(paddr, bits) % 0x400 == bits + (1 - bits % 2)
  {
    hide LeafTo;
    LeafIs(paddr, bits);
    var n, f := paddr / 0x1000 % 0x1000_0000_0000, bits + (1 - bits % 2);
    DivModUnique(n * 0x400 + f, 0x400, n, f);
  }

  lemma RangeLeavesNone(m: Tables, root: nat, virt: nat, phys: nat, lvl: nat, bits: nat)
    requires lvl <= 2
    ensures RangeLeaves(m, m, root, virt, phys, 0, lvl, bits)
  {
  }

  lemma EmptyRangeForMachine(m: Tables, m0: Tables, root: nat, virt: nat, phys: nat, lvl: nat, bits: nat)
    requires lvl <= 2 && CleanBranches(m) && CleanBranches(m0) && RangeLeaves(m, m0, root, virt, phys, 0, lvl, bits)
    ensures MachineAgrees(m, m0, root, virt, 0)
  {
    hide Accepted, Lookup, MachineTranslation, LeafTo, PathOf, PageSize, IsCanonical, Resolve, CleanBranches, AlignDown;
    forall va: nat ensures MachineTranslation(m, root, va) == MachineTranslation(m0, root, va) {
      MachineIs(m, root, va);
      MachineIs(m0, root, va);
    }
  }

  lemma AlignedInWord(phys: nat, k: nat, lvl: nat)
    requires lvl <= 2 && phys % PageSize(lvl) == 0 && k % PageSize(lvl) == 0
    ensures (phys + k) % WORD64 % PageSize(lvl) == 0
  {
    MultipleAdd(phys, k, PageSize(lvl));
    ModMod(phys + k, WORD64, PageSize(lvl));
  }
}
