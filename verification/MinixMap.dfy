/** Which disk block holds block `k` of a Minix 3 file, said by quotients and remainders: the numbers are read off
    the disk byte by byte, without the lists of zones that the code walks over. */
module MinixMap {
  import opened Arith
  import opened BlockIo
  import opened MinixLayout

  /** The number in the four bytes from `at` on, the least significant one first. */
  function NumberAt(d: seq<byte>, at: nat): nat {
    if at + 4 <= |d| then
      d[at] as int + 0x100 * d[at + 1] as int + 0x1_0000 * d[at + 2] as int + 0x100_0000 * d[at + 3] as int
    else 0
  }

  /** The bytes are its base-256 digits. */
  lemma NumberDigits(d: seq<byte>, at: nat)
    requires at + 4 <= |d|
    ensures var x := NumberAt(d, at);
            && x % 0x100 == d[at] && x / 0x100 % 0x100 == d[at + 1]
            && x / 0x1_0000 % 0x100 == d[at + 2] && x / 0x100_0000 == d[at + 3]
  {
    var a: int, b: int, c: int, e: int := d[at], d[at + 1], d[at + 2], d[at + 3];
    var x := NumberAt(d, at);
    DivModUnique(x, 0x100, b + 0x100 * (c + 0x100 * e), a);
    DivModUnique(b + 0x100 * (c + 0x100 * e), 0x100, c + 0x100 * e, b);
    DivModUnique(x, 0x1_0000, c + 0x100 * e, a + 0x100 * b);
    DivModUnique(c + 0x100 * e, 0x100, e, c);
    DivModUnique(x, 0x100_0000, e, a + 0x100 * b + 0x1_0000 * c);
  }

  /** Entry `j` of an indirect block; there are none in block 0. */
  function Pointer(d: seq<byte>, size: nat, block: nat, j: nat): nat {
    if block == 0 then 0 else NumberAt(d, block * size + 4 * j)
  }

  /** Entry `j` of all those below a double indirect block, `n` in a block. */
  function Pointer2(d: seq<byte>, size: nat, n: nat, block: nat, j: nat): nat
    requires 0 < n
  {
    Pointer(d, size, Pointer(d, size, block, j / n), j % n)
  }

  /** Entry `j` of all those below a triple indirect block. */
  function Pointer3(d: seq<byte>, size: nat, n: nat, block: nat, j: nat): nat
    requires 0 < n
  {
    Pointer(d, size, Pointer(d, size, Pointer(d, size, block, j / n / n), j / n % n), j % n)
  }

  /** The disk block that holds block `k` of the file; 0 where there is none. */
  function BlockNumber(d: seq<byte>, size: nat, zones: seq<nat>, k: nat): nat
    requires |zones| == 10 && 4 <= size
  {
    var n := size / 4;
    if k < 7 then zones[k]
    else if k < 7 + n then Pointer(d, size, zones[7], k - 7)
    else if k < 7 + n + n * n then Pointer2(d, size, n, zones[8], k - 7 - n)
    else if k < 7 + n + n * n + n * n * n then Pointer3(d, size, n, zones[9], k - 7 - n - n * n)
    else 0
  }

  /** How many blocks a file can have, with `n` numbers in a block. */
  function MaxBlocks(n: nat): nat { 7 + n + n * n + n * n * n }

  /** The block numbers of the whole file. */
  function FileMap(d: seq<byte>, size: nat, zones: seq<nat>): (s: seq<nat>)
    requires |zones| == 10 && 4 <= size
    ensures |s| == MaxBlocks(size / 4)
    ensures forall k :: 0 <= k < |s| ==> s[k] == BlockNumber(d, size, zones, k)
  {
    seq(MaxBlocks(size / 4), k requires 0 <= k => BlockNumber(d, size, zones, k))
  }

  lemma BeyondMap(d: seq<byte>, size: nat, zones: seq<nat>, k: nat)
    requires |zones| == 10 && 4 <= size && k >= MaxBlocks(size / 4)
    ensures BlockNumber(d, size, zones, k) == 0
  {
    hide Pointer, Pointer2, Pointer3;
  }

  /** No block of the file is missing up to block `k`. */
  ghost predicate NoGap(d: seq<byte>, size: nat, zones: seq<nat>, k: nat)
    requires |zones| == 10 && 4 <= size
  {
    forall i: nat :: i <= k ==> BlockNumber(d, size, zones, i) != 0
  }

  /** Byte `i` of block `z`, which reads as zeros unless its number lies between `first` and `last`. */
  function BlockByte(d: seq<byte>, size: nat, first: nat, last: nat, z: nat, i: nat): byte {
    if first <= z <= last && z * size + i < |d| then d[z * size + i] else 0
  }

  /** Byte `o` of the file, where no block is missing up to it. */
  ghost predicate IsFileByte(d: seq<byte>, size: nat, zones: seq<nat>, first: nat, last: nat, o: nat, x: byte)
    requires |zones| == 10 && 4 <= size
  {
    NoGap(d, size, zones, o / size) ==>
      x == BlockByte(d, size, first, last, BlockNumber(d, size, zones, o / size), o % size)
  }

  /** Some bytes are those of the file from `offset` on, as far as no block is missing before. */
  ghost predicate FromMap(d: seq<byte>, size: nat, zones: seq<nat>, first: nat, last: nat, offset: nat,
                          bytes: seq<byte>)
    requires |zones| == 10 && 4 <= size
  {
    forall i :: 0 <= i < |bytes| ==> IsFileByte(d, size, zones, first, last, offset + i, bytes[i])
  }

  /** The blocks a read visits, of the map `s` of a file with `n` numbers in a block: a block that is missing
      counts if it is missing in the single indirect block, and only then. */
  function Visited(s: seq<nat>, n: nat, single: bool): seq<nat>
    requires 7 + n <= |s|
  {
    Keep(s[..7]) + (if single then s[7..7 + n] else []) + Keep(s[7 + n..])
  }

  function ReadMap(d: seq<byte>, size: nat, zones: seq<nat>): seq<nat>
    requires |zones| == 10 && 4 <= size
  {
    assert MaxBlocks(size / 4) >= 7 + size / 4;
    Visited(FileMap(d, size, zones), size / 4, zones[7] != 0)
  }

  /** Byte `o` of a file that has the blocks `bs`, one after the other, or `x` behind its end. */
  function ByteOr(d: seq<byte>, size: nat, first: nat, last: nat, bs: seq<nat>, o: nat, x: byte): byte
    requires 0 < size
  {
    if o / size < |bs| then BlockByte(d, size, first, last, bs[o / size], o % size) else x
  }

  /** A buffer after `count` bytes from `offset` on have been read into it. */
  ghost predicate IsRead(d: seq<byte>, size: nat, first: nat, last: nat, bs: seq<nat>, offset: nat, count: nat,
                         was: seq<byte>, now: seq<byte>)
    requires 0 < size
  {
    && |now| == |was|
    && forall i :: 0 <= i < |was| ==>
         now[i] == if i < count then ByteOr(d, size, first, last, bs, offset + i, was[i]) else was[i]
  }

  /** The place on the disk of byte `o` of a file that has the blocks `bs`, one after the other. */
  ghost predicate IsPlace(size: nat, bs: seq<nat>, o: nat, a: nat)
    requires 0 < size
  {
    o / size < |bs| && a == bs[o / size] * size + o % size
  }

  /** The bytes of the file from `offset` on have become `bytes`, and no other byte of the disk has changed. */
  ghost predicate ToMap(d0: seq<byte>, d: seq<byte>, size: nat, bs: seq<nat>, offset: nat, bytes: seq<byte>)
    requires 0 < size
  {
    && |d| == |d0|
    && (forall o, a: nat | offset <= o < offset + |bytes| && IsPlace(size, bs, o, a) ::
          a < |d| && d[a] == bytes[o - offset])
    && (forall a: nat :: a < |d| && d[a] != d0[a] ==>
          exists o: nat :: offset <= o < offset + |bytes| && IsPlace(size, bs, o, a))
  }

  // ---------------------------------------------------------------- the indirect blocks

  ghost predicate Stored2(g: Geo, d: seq<byte>, es: seq<nat>) {
    forall i :: 0 <= i < |es| && es[i] != 0 ==> g.Stored(es[i], |d|)
  }

  ghost predicate Stored3(g: Geo, d: seq<byte>, es: seq<nat>) {
    Stored2(g, d, es) && forall i :: 0 <= i < |es| && es[i] != 0 ==> Stored2(g, d, g.Entries(d, es[i]))
  }

  /** Every indirect block of the file is on the disk. */
  ghost predicate TreeStored(g: Geo, d: seq<byte>, zones: seq<nat>)
    requires |zones| == 10
  {
    && (forall i :: 7 <= i < 10 && zones[i] != 0 ==> g.Stored(zones[i], |d|))
    && (zones[8] != 0 ==> Stored2(g, d, g.Entries(d, zones[8])))
    && (zones[9] != 0 ==> Stored3(g, d, g.Entries(d, zones[9])))
  }

  lemma WordIsNumber(d: seq<byte>, b: nat, size: nat, i: nat)
    requires b + size <= |d| && 4 * i + 4 <= size
    ensures Word(d[b..b + size], i) == NumberAt(d, b + 4 * i)
  {
    var s := d[b..b + size];
    assert s[4 * i] == d[b + 4 * i] && s[4 * i + 1] == d[b + 4 * i + 1];
    assert s[4 * i + 2] == d[b + 4 * i + 2] && s[4 * i + 3] == d[b + 4 * i + 3];
  }

  lemma EntryIsPointer(g: Geo, d: seq<byte>, b: nat, j: nat)
    requires g.Ok() && g.Stored(b, |d|) && b != 0 && j < g.size / 4
    ensures |g.Entries(d, b)| == g.size / 4 && g.Entries(d, b)[j] == Pointer(d, g.size, b, j)
  {
    g.StartIsProduct(b);
    WordIsNumber(d, g.Start(b), g.size, j);
  }

  /** The entries below an indirect block of each level, as far as `count`. */
  function Row(d: seq<byte>, size: nat, block: nat, count: nat): (s: seq<nat>)
    ensures |s| == count && forall j :: 0 <= j < count ==> s[j] == Pointer(d, size, block, j)
  {
    seq(count, j requires 0 <= j => Pointer(d, size, block, j))
  }

  function Row2(d: seq<byte>, size: nat, n: nat, block: nat, count: nat): (s: seq<nat>)
    requires 0 < n
    ensures |s| == count && forall j :: 0 <= j < count ==> s[j] == Pointer2(d, size, n, block, j)
  {
    seq(count, j requires 0 <= j => Pointer2(d, size, n, block, j))
  }

  function Row3(d: seq<byte>, size: nat, n: nat, block: nat, count: nat): (s: seq<nat>)
    requires 0 < n
    ensures |s| == count && forall j :: 0 <= j < count ==> s[j] == Pointer3(d, size, n, block, j)
  {
    seq(count, j requires 0 <= j => Pointer3(d, size, n, block, j))
  }

  lemma EntriesAreRow(g: Geo, d: seq<byte>, b: nat)
    requires g.Ok() && g.Stored(b, |d|) && b != 0
    ensures g.Entries(d, b) == Row(d, g.size, b, g.size / 4)
  {
    hide Geo.Entries, Geo.Stored, Pointer;
    assert g.size / 4 > 0;
    EntryIsPointer(g, d, b, 0);
    forall j | 0 <= j < g.size / 4 ensures g.Entries(d, b)[j] == Pointer(d, g.size, b, j) {
      EntryIsPointer(g, d, b, j);
    }
  }

  lemma RowOfNone(d: seq<byte>, size: nat, n: nat, count: nat)
    requires 0 < n
    ensures Keep(Row(d, size, 0, count)) == [] && Keep(Row2(d, size, n, 0, count)) == []
    ensures Keep(Row3(d, size, n, 0, count)) == []
  {
    hide Keep, NumberAt;
    KeepZeros(Row(d, size, 0, count));
    KeepZeros(Row2(d, size, n, 0, count));
    KeepZeros(Row3(d, size, n, 0, count));
  }

  lemma {:induction false} KeepZeros(s: seq<nat>)
    requires forall i :: 0 <= i < |s| ==> s[i] == 0
    ensures Keep(s) == []
  {
    if s != [] {
      KeepZeros(s[..|s| - 1]);
    }
  }

  /** Place `m * n + j` is place `j` of part `m`. */
  lemma Digit(m: nat, n: nat, j: nat)
    requires j < n
    ensures (m * n + j) / n == m && (m * n + j) % n == j
  {
    DivModUnique(m * n + j, n, m, j);
  }

  lemma Pointer2At(d: seq<byte>, size: nat, n: nat, block: nat, m: nat, j: nat)
    requires j < n
    ensures Pointer2(d, size, n, block, m * n + j) == Pointer(d, size, Pointer(d, size, block, m), j)
  {
    hide Pointer;
    Digit(m, n, j);
  }

  lemma Row2Step(d: seq<byte>, size: nat, n: nat, block: nat, m: nat)
    requires 0 < n
    ensures m * n + n == (m + 1) * n
    ensures Row2(d, size, n, block, m * n + n)
            == Row2(d, size, n, block, m * n) + Row(d, size, Pointer(d, size, block, m), n)
  {
    Distributes(m, 1, n);
    hide Pointer, Pointer2, Row, Row2;
    var lo := m * n;
    var s, r := Row2(d, size, n, block, lo + n), Row2(d, size, n, block, lo);
    var t := Row(d, size, Pointer(d, size, block, m), n);
    forall i | 0 <= i < lo + n ensures s[i] == (r + t)[i] {
      if i >= lo {
        Pointer2At(d, size, n, block, m, i - lo);
      }
    }
  }

  /** Part `m` of the numbers below a triple indirect block is those below its entry `m`. */
  lemma Row3Step(d: seq<byte>, size: nat, n: nat, block: nat, m: nat)
    requires 0 < n
    ensures m * (n * n) + n * n == (m + 1) * (n * n)
    ensures Row3(d, size, n, block, m * (n * n) + n * n)
            == Row3(d, size, n, block, m * (n * n)) + Row2(d, size, n, Pointer(d, size, block, m), n * n)
  {
    var p := n * n;
    Distributes(m, 1, p);
    var s, t := Row3(d, size, n, block, m * p + p), Row2(d, size, n, Pointer(d, size, block, m), p);
    hide Pointer;
    forall j | 0 <= j < p ensures s[m * p + j] == t[j] {
      TwoDigits(m, n, j);
    }
    forall i | m * p <= i < m * p + p ensures s[i] == t[i - m * p] {
      assert s[m * p + (i - m * p)] == t[i - m * p];
    }
  }

  lemma TwoDigits(m: nat, n: nat, j: nat)
    requires 0 < n && j < n * n
    ensures var i := m * (n * n) + j; i / n / n == m && i / n % n == j / n && i % n == j % n
  {
    var q, r := j / n, j % n;
    assert j == q * n + r;
    if q >= n {
      MulLe(n, q, n);
    }
    Associates(m, n, n);
    Distributes(m * n, q, n);
    Digit(m * n + q, n, r);
    Digit(m, n, q);
  }

  lemma {:induction false} Leaves2AreKept(g: Geo, d: seq<byte>, b: nat, m: nat)
    requires g.Ok() && g.Stored(b, |d|) && b != 0 && m <= g.size / 4 && Stored2(g, d, g.Entries(d, b))
    ensures m <= |g.Entries(d, b)|
    ensures g.Leaves2(d, g.Entries(d, b)[..m]) == Keep(Row2(d, g.size, g.size / 4, b, m * (g.size / 4)))
    decreases m
  {
    var es, n := g.Entries(d, b), g.size / 4;
    EntriesAreRow(g, d, b);
    hide Geo.Entries, Geo.Stored, Geo.Leaves2, Keep, Pointer, Row, Row2, Stored2;
    if m == 0 {
      g.LeavesOfNone(d);
      KeepZeros(Row2(d, g.size, n, b, 0));
      assert es[..0] == [];
    } else {
      Leaves2AreKept(g, d, b, m - 1);
      assert es[m - 1] == Pointer(d, g.size, b, m - 1);
      Leaves2Part(g, d, b, m - 1, n);
    }
  }

  lemma Leaves2Part(g: Geo, d: seq<byte>, b: nat, m: nat, n: nat)
    requires g.Ok() && Stored2(g, d, g.Entries(d, b)) && n == g.size / 4
    requires m < |g.Entries(d, b)| && g.Entries(d, b)[m] == Pointer(d, g.size, b, m)
    requires g.Leaves2(d, g.Entries(d, b)[..m]) == Keep(Row2(d, g.size, n, b, m * n))
    ensures g.Leaves2(d, g.Entries(d, b)[..m + 1]) == Keep(Row2(d, g.size, n, b, (m + 1) * n))
  {
    hide Geo.Entries, Geo.Stored, Geo.Leaves, Geo.Leaves2, Keep, Pointer, Row, Row2, Stored2;
    var es, e := g.Entries(d, b), g.Entries(d, b)[m];
    assert 0 < n;
    g.Leaves2Snoc(d, es, m);
    Row2Step(d, g.size, n, b, m);
    KeepAppend(Row2(d, g.size, n, b, m * n), Row(d, g.size, e, n));
    LeavesAreRow(g, d, es, m, n);
  }

  lemma LeavesAreRow(g: Geo, d: seq<byte>, es: seq<nat>, m: nat, n: nat)
    requires g.Ok() && Stored2(g, d, es) && m < |es| && n == g.size / 4
    ensures Keep(Row(d, g.size, es[m], n)) == if es[m] == 0 then [] else g.Leaves(d, es[m])
  {
    var e := es[m];
    assert 0 < n && (e != 0 ==> g.Stored(e, |d|));
    hide Geo.Entries, Geo.Stored, Geo.Leaves, Keep, Pointer, Row, Stored2;
    if e == 0 {
      RowOfNone(d, g.size, n, n);
    } else {
      EntriesAreRow(g, d, e);
      g.LeavesAre(d, e);
    }
  }

  /** All the zones below an indirect block that holds indirect blocks. */
  lemma Leaves2Whole(g: Geo, d: seq<byte>, b: nat)
    requires g.Ok() && g.Stored(b, |d|) && b != 0 && Stored2(g, d, g.Entries(d, b))
    ensures var n := g.size / 4; g.Leaves2(d, g.Entries(d, b)) == Keep(Row2(d, g.size, n, b, n * n))
  {
    var es, n := g.Entries(d, b), g.size / 4;
    EntriesAreRow(g, d, b);
    Leaves2AreKept(g, d, b, n);
    assert es[..n] == es;
  }

  lemma {:induction false} Leaves3AreKept(g: Geo, d: seq<byte>, b: nat, m: nat)
    requires g.Ok() && g.Stored(b, |d|) && b != 0 && m <= g.size / 4 && Stored3(g, d, g.Entries(d, b))
    ensures m <= |g.Entries(d, b)|
    ensures var n := g.size / 4; g.Leaves3(d, g.Entries(d, b)[..m]) == Keep(Row3(d, g.size, n, b, m * (n * n)))
    decreases m
  {
    var es, n := g.Entries(d, b), g.size / 4;
    EntriesAreRow(g, d, b);
    hide Geo.Entries, Geo.Stored, Geo.Leaves2, Geo.Leaves3, Keep, Pointer, Row, Row2, Row3, Stored2;
    if m == 0 {
      g.LeavesOfNone(d);
      KeepZeros(Row3(d, g.size, n, b, 0));
      assert es[..0] == [];
    } else {
      Leaves3AreKept(g, d, b, m - 1);
      assert es[m - 1] == Pointer(d, g.size, b, m - 1);
      Leaves3Part(g, d, b, m - 1, n);
    }
  }

  lemma Leaves3Part(g: Geo, d: seq<byte>, b: nat, m: nat, n: nat)
    requires g.Ok() && Stored3(g, d, g.Entries(d, b)) && n == g.size / 4
    requires m < |g.Entries(d, b)| && g.Entries(d, b)[m] == Pointer(d, g.size, b, m)
    requires g.Leaves3(d, g.Entries(d, b)[..m]) == Keep(Row3(d, g.size, n, b, m * (n * n)))
    ensures g.Leaves3(d, g.Entries(d, b)[..m + 1]) == Keep(Row3(d, g.size, n, b, (m + 1) * (n * n)))
  {
    hide Geo.Entries, Geo.Stored, Geo.Leaves2, Geo.Leaves3, Keep, Pointer, Row, Row2, Row3, Stored2;
    var es, e := g.Entries(d, b), g.Entries(d, b)[m];
    assert 0 < n;
    g.Leaves3Snoc(d, es, m);
    Row3Step(d, g.size, n, b, m);
    KeepAppend(Row3(d, g.size, n, b, m * (n * n)), Row2(d, g.size, n, e, n * n));
    if e == 0 {
      RowOfNone(d, g.size, n, n * n);
    } else {
      BelowEntry(g, d, es, m);
      Leaves2Whole(g, d, e);
    }
  }

  lemma BelowEntry(g: Geo, d: seq<byte>, es: seq<nat>, i: nat)
    requires g.Ok() && Stored3(g, d, es) && i < |es| && es[i] != 0
    ensures g.Stored(es[i], |d|) && Stored2(g, d, g.Entries(d, es[i]))
  {
  }

  lemma Leaves3Whole(g: Geo, d: seq<byte>, b: nat)
    requires g.Ok() && g.Stored(b, |d|) && b != 0 && Stored3(g, d, g.Entries(d, b))
    ensures var n := g.size / 4; g.Leaves3(d, g.Entries(d, b)) == Keep(Row3(d, g.size, n, b, n * (n * n)))
  {
    var es, n := g.Entries(d, b), g.size / 4;
    EntriesAreRow(g, d, b);
    Leaves3AreKept(g, d, b, n);
    assert es[..n] == es;
  }

  // ---------------------------------------------------------------- the whole file

  lemma FileMapParts(d: seq<byte>, size: nat, zones: seq<nat>)
    requires |zones| == 10 && 4 <= size
    ensures var n := size / 4;
            FileMap(d, size, zones) == zones[..7] + Row(d, size, zones[7], n) + Row2(d, size, n, zones[8], n * n)
                                       + Row3(d, size, n, zones[9], n * n * n)
  {
    hide Pointer, Pointer2, Pointer3;
  }

  lemma SingleIsKept(g: Geo, d: seq<byte>, z: nat, n: nat)
    requires g.Ok() && (z != 0 ==> g.Stored(z, |d|)) && n == g.size / 4
    ensures z != 0 ==> g.Single(d, z) == Row(d, g.size, z, n)
    ensures Keep(g.Single(d, z)) == Keep(Row(d, g.size, z, n))
  {
    assert 0 < n;
    hide Geo.Entries, Geo.Stored, Row, Keep;
    if z != 0 {
      EntriesAreRow(g, d, z);
    } else {
      RowOfNone(d, g.size, n, n);
      KeepZeros([]);
    }
  }

  lemma DoubleIsKept(g: Geo, d: seq<byte>, z: nat, n: nat)
    requires g.Ok() && (z != 0 ==> g.Stored(z, |d|) && Stored2(g, d, g.Entries(d, z))) && n == g.size / 4
    ensures g.Double(d, z) == Keep(Row2(d, g.size, n, z, n * n))
  {
    assert 0 < n;
    hide Geo.Entries, Geo.Stored, Geo.Leaves2, Row2, Keep, Stored2;
    if z != 0 {
      Leaves2Whole(g, d, z);
    } else {
      RowOfNone(d, g.size, n, n * n);
    }
  }

  lemma TripleIsKept(g: Geo, d: seq<byte>, z: nat, n: nat)
    requires g.Ok() && (z != 0 ==> g.Stored(z, |d|) && Stored3(g, d, g.Entries(d, z))) && n == g.size / 4
    ensures g.Triple(d, z) == Keep(Row3(d, g.size, n, z, n * n * n))
  {
    assert 0 < n;
    Associates(n, n, n);
    hide Geo.Entries, Geo.Stored, Geo.Leaves3, Row3, Keep, Stored3;
    if z != 0 {
      Leaves3Whole(g, d, z);
    } else {
      RowOfNone(d, g.size, n, n * n * n);
    }
  }

  /** The parts of the map without their holes are the zones of the code's levels. */
  lemma LevelsAreKept(g: Geo, d: seq<byte>, zones: seq<nat>)
    requires g.Ok() && |zones| == 10 && TreeStored(g, d, zones)
    ensures var n := g.size / 4;
            && (zones[7] != 0 ==> g.Single(d, zones[7]) == Row(d, g.size, zones[7], n))
            && Keep(g.Single(d, zones[7])) == Keep(Row(d, g.size, zones[7], n))
            && g.Double(d, zones[8]) == Keep(Row2(d, g.size, n, zones[8], n * n))
            && g.Triple(d, zones[9]) == Keep(Row3(d, g.size, n, zones[9], n * n * n))
  {
    var n := g.size / 4;
    hide Geo.Entries, Geo.Stored, Geo.Single, Geo.Double, Geo.Triple, Row, Row2, Row3, Keep, Stored2, Stored3;
    SingleIsKept(g, d, zones[7], n);
    DoubleIsKept(g, d, zones[8], n);
    TripleIsKept(g, d, zones[9], n);
  }

  /** A write visits the blocks of the map in order, without the holes. */
  lemma WriteZonesAreMap(g: Geo, d: seq<byte>, zones: seq<nat>)
    requires g.Ok() && |zones| == 10 && TreeStored(g, d, zones)
    ensures g.WriteZones(d, zones) == Keep(FileMap(d, g.size, zones))
  {
    var n := g.size / 4;
    var a, b := zones[..7], Row(d, g.size, zones[7], n);
    var c, e := Row2(d, g.size, n, zones[8], n * n), Row3(d, g.size, n, zones[9], n * n * n);
    LevelsAreKept(g, d, zones);
    FileMapParts(d, g.size, zones);
    hide Keep, FileMap, Row, Row2, Row3, Geo.Single, Geo.Double, Geo.Triple;
    KeepAppend(a, b);
    KeepAppend(a + b, c);
    KeepAppend(a + b + c, e);
  }

  /** A read visits the blocks of `ReadMap`, in order. */
  lemma ReadZonesAreMap(g: Geo, d: seq<byte>, zones: seq<nat>)
    requires g.Ok() && |zones| == 10 && TreeStored(g, d, zones)
    ensures g.ReadZones(d, zones) == ReadMap(d, g.size, zones)
  {
    var n := g.size / 4;
    var b := Row(d, g.size, zones[7], n);
    var c, e := Row2(d, g.size, n, zones[8], n * n), Row3(d, g.size, n, zones[9], n * n * n);
    LevelsAreKept(g, d, zones);
    FileMapParts(d, g.size, zones);
    hide Keep, FileMap, Row, Row2, Row3, Visited, Geo.Double, Geo.Triple, Geo.Entries, TreeStored, Geo.Stored;
    VisitedParts(FileMap(d, g.size, zones), zones[..7], b, c, e, zones[7] != 0);
  }

  lemma VisitedParts(s: seq<nat>, a: seq<nat>, b: seq<nat>, c: seq<nat>, e: seq<nat>, single: bool)
    requires |a| == 7 && s == a + b + c + e
    ensures Visited(s, |b|, single) == Keep(a) + (if single then b else []) + Keep(c) + Keep(e)
  {
    hide Keep;
    KeepAppend(c, e);
    assert s[..7] == a && s[7..7 + |b|] == b && s[7 + |b|..] == c + e;
  }

  /** A list without zeros up to a place keeps that part as it is. */
  lemma KeepsPrefix(s: seq<nat>, m: nat)
    requires m <= |s| && forall i :: 0 <= i < m ==> s[i] != 0
    ensures s[..m] <= Keep(s)
  {
    hide Keep;
    assert s == s[..m] + s[m..];
    KeepsFront(s[..m], s[m..]);
  }

  lemma KeepsFront(s: seq<nat>, t: seq<nat>)
    requires 0 !in s
    ensures s <= Keep(s + t)
  {
    hide Keep;
    KeepAppend(s, t);
    KeepNonzero(s);
  }

  lemma MapHasNoGap(d: seq<byte>, size: nat, zones: seq<nat>, k: nat)
    requires |zones| == 10 && 4 <= size && NoGap(d, size, zones, k)
    ensures k < |FileMap(d, size, zones)| && forall i :: 0 <= i <= k ==> FileMap(d, size, zones)[i] != 0
    ensures FileMap(d, size, zones)[k] == BlockNumber(d, size, zones, k)
  {
    hide BlockNumber, FileMap, MaxBlocks;
    assert BlockNumber(d, size, zones, k) != 0;
    if k >= MaxBlocks(size / 4) {
      BeyondMap(d, size, zones, k);
    }
  }

  /** Up to the first gap both a read and a write visit the blocks of the map, in order. */
  lemma ZonesAreMap(g: Geo, d: seq<byte>, zones: seq<nat>, k: nat)
    requires g.Ok() && |zones| == 10 && TreeStored(g, d, zones) && NoGap(d, g.size, zones, k)
    ensures k < |g.WriteZones(d, zones)| && g.WriteZones(d, zones)[k] == BlockNumber(d, g.size, zones, k)
    ensures k < |g.ReadZones(d, zones)| && g.ReadZones(d, zones)[k] == BlockNumber(d, g.size, zones, k)
  {
    MapHasNoGap(d, g.size, zones, k);
    hide BlockNumber, FileMap, NoGap, TreeStored, Geo.WriteZones, Geo.ReadZones, Keep;
    var s := FileMap(d, g.size, zones);
    KeepsPrefix(s, k + 1);
    WriteZonesAreMap(g, d, zones);
    ReadIsWrite(g, d, zones, k);
    assert s[..k + 1][k] == s[k];
  }

  /** Holes of the second part count, those of the first and the third do not. */
  lemma PrefixOfParts(a: seq<nat>, b: seq<nat>, c: seq<nat>, s: seq<nat>, k: nat)
    requires s == a + b + c && k < |s| && forall i :: 0 <= i <= k ==> s[i] != 0
    ensures if k < |a| then s[..k + 1] <= Keep(a) else s[..k + 1] <= Keep(a) + b + Keep(c)
  {
    hide Keep;
    if k < |a| {
      forall i | 0 <= i < k + 1 ensures a[i] != 0 { assert s[i] == a[i]; }
      KeepsPrefix(a, k + 1);
      assert s[..k + 1] == a[..k + 1];
    } else {
      forall i | 0 <= i < |a| ensures a[i] != 0 { assert s[i] == a[i]; }
      KeepNonzero(a);
      LastPart(a + b, c, s, k);
    }
  }

  lemma LastPart(a: seq<nat>, c: seq<nat>, s: seq<nat>, k: nat)
    requires s == a + c && k < |s| && forall i :: |a| <= i <= k ==> s[i] != 0
    ensures s[..k + 1] <= a + Keep(c)
  {
    hide Keep;
    if k < |a| {
      assert s[..k + 1] == a[..k + 1];
    } else {
      var m := k - |a|;
      forall i | 0 <= i < m + 1 ensures c[i] != 0 { assert s[|a| + i] == c[i]; }
      KeepsPrefix(c, m + 1);
      assert s[..k + 1] == a + c[..m + 1];
    }
  }

  lemma ReadOfParts(g: Geo, d: seq<byte>, zones: seq<nat>, b: seq<nat>, c: seq<nat>, e: seq<nat>, s: seq<nat>, k: nat)
    requires |zones| == 10 && s == zones[..7] + b + c + e && k < |s| && forall i :: 0 <= i <= k ==> s[i] != 0
    requires k >= 7 ==> g.Single(d, zones[7]) == b
    requires g.Double(d, zones[8]) == Keep(c) && g.Triple(d, zones[9]) == Keep(e)
    ensures s[..k + 1] <= g.ReadZones(d, zones)
  {
    hide Keep, Geo.Single, Geo.Double, Geo.Triple;
    assert s == zones[..7] + b + (c + e);
    PrefixOfParts(zones[..7], b, c + e, s, k);
    KeepAppend(c, e);
    assert g.ReadZones(d, zones) == Keep(zones[..7]) + g.Single(d, zones[7]) + Keep(c + e);
  }

  /** A read visits the same zones as a write, up to the first gap. */
  lemma ReadIsWrite(g: Geo, d: seq<byte>, zones: seq<nat>, k: nat)
    requires g.Ok() && |zones| == 10 && TreeStored(g, d, zones) && k < |FileMap(d, g.size, zones)|
    requires forall i :: 0 <= i <= k ==> FileMap(d, g.size, zones)[i] != 0
    ensures FileMap(d, g.size, zones)[..k + 1] <= g.ReadZones(d, zones)
  {
    hide Keep, FileMap, Row, Row2, Row3, Geo.Single, Geo.Double, Geo.Triple, TreeStored, Geo.ReadZones;
    var n, s := g.size / 4, FileMap(d, g.size, zones);
    LevelsAreKept(g, d, zones);
    FileMapParts(d, g.size, zones);
    if k >= 7 {
      SeventhEntry(d, g.size, zones);
    }
    ReadOfParts(g, d, zones, Row(d, g.size, zones[7], n), Row2(d, g.size, n, zones[8], n * n),
                Row3(d, g.size, n, zones[9], n * n * n), s, k);
  }

  lemma SeventhEntry(d: seq<byte>, size: nat, zones: seq<nat>)
    requires |zones| == 10 && 4 <= size && 7 < |FileMap(d, size, zones)| && FileMap(d, size, zones)[7] != 0
    ensures zones[7] != 0
  {
    assert BlockNumber(d, size, zones, 7) == Pointer(d, size, zones[7], 0);
  }

  // ---------------------------------------------------------------- bytes

  lemma FlatAt(g: Geo, d: seq<byte>, vs: seq<nat>, k: nat)
    requires k < |vs|
    ensures |g.Flat(d, vs[..k])| + g.size <= |g.Flat(d, vs)|
    ensures g.Flat(d, vs)[|g.Flat(d, vs[..k])|..|g.Flat(d, vs[..k])| + g.size] == g.ZoneBytes(d, vs[k])
  {
    var before, rest := vs[..k], vs[k + 1..];
    assert vs == before + ([vs[k]] + rest);
    FlatParts(g, d, before, vs[k], rest);
    SliceOfParts(g.Flat(d, vs), g.Flat(d, before), g.ZoneBytes(d, vs[k]), g.Flat(d, rest));
  }

  lemma FlatOne(g: Geo, d: seq<byte>, z: nat)
    ensures g.Flat(d, [z]) == g.ZoneBytes(d, z)
  {
    g.FlatSnoc(d, [], z);
    assert [] + [z] == [z] && g.Flat(d, []) + g.ZoneBytes(d, z) == g.ZoneBytes(d, z);
  }

  lemma FlatParts(g: Geo, d: seq<byte>, before: seq<nat>, z: nat, rest: seq<nat>)
    ensures g.Flat(d, before + ([z] + rest)) == g.Flat(d, before) + (g.ZoneBytes(d, z) + g.Flat(d, rest))
  {
    FlatOne(g, d, z);
    hide *;
    g.FlatAppend(d, before, [z] + rest);
    g.FlatAppend(d, [z], rest);
  }

  lemma SliceOfParts(s: seq<byte>, a: seq<byte>, b: seq<byte>, c: seq<byte>)
    requires s == a + (b + c)
    ensures |a| + |b| <= |s| && s[|a|..|a| + |b|] == b
  {
  }

  lemma {:induction false} FlatSize(g: Geo, d: seq<byte>, vs: seq<nat>)
    ensures |g.Flat(d, vs)| == |vs| * g.size
  {
    hide Geo.ZoneBytes;
    if vs != [] {
      FlatSize(g, d, vs[..|vs| - 1]);
      Distributes(|vs| - 1, 1, g.size);
    }
  }

  lemma SliceByte(f: seq<byte>, lo: nat, z: seq<byte>, i: nat)
    requires lo + |z| <= |f| && f[lo..lo + |z|] == z && i < |z|
    ensures f[lo + i] == z[i]
  {
    assert f[lo..lo + |z|][i] == z[i];
  }

  lemma FlatPlace(g: Geo, d: seq<byte>, vs: seq<nat>, k: nat, i: nat)
    requires k < |vs| && i < g.size
    ensures k * g.size + i < |g.Flat(d, vs)| && g.Flat(d, vs)[k * g.size + i] == g.ZoneBytes(d, vs[k])[i]
  {
    FlatAt(g, d, vs, k);
    FlatSize(g, d, vs[..k]);
    hide *;
    SliceByte(g.Flat(d, vs), |g.Flat(d, vs[..k])|, g.ZoneBytes(d, vs[k]), i);
  }

  lemma Place(o: nat, size: nat) returns (k: nat, i: nat)
    requires 0 < size
    ensures k == o / size && i == o % size && i < size && o == k * size + i
  {
    k, i := o / size, o % size;
  }

  lemma PlaceBound(o: nat, size: nat, n: nat)
    requires 0 < size
    ensures o / size < n <==> o < n * size
  {
    var q := o / size;
    assert o == q * size + o % size;
    if q < n {
      MulLe(q + 1, n, size);
      Distributes(q, 1, size);
    } else {
      MulLe(n, q, size);
    }
  }

  /** A zone is `size` bytes from `z * size` on, and zeros if its number is not accepted. */
  lemma ZoneByte(g: Geo, d: seq<byte>, z: nat, i: nat)
    requires g.Ok() && i < g.size && (g.InRange(z) ==> g.Start(z) + g.size <= |d|)
    ensures g.InRange(z) ==> z * g.size + i < |d|
    ensures g.ZoneBytes(d, z)[i] == BlockByte(d, g.size, g.first, g.last, z, i)
  {
    g.StartIsProduct(z);
  }

  lemma StoredZoneByte(g: Geo, d: seq<byte>, z: nat, i: nat)
    requires g.Stored(z, |d|) && i < g.size
    ensures z * g.size + i < |d| && g.ZoneBytes(d, z)[i] == d[z * g.size + i]
  {
    g.StartIsProduct(z);
  }
}
