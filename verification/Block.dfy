/** The byte layer of src/block.c: requests for bytes served by whole 512-byte sectors. */
module BlockIo {
  type byte = b: int | 0 <= b < 256

  const SECTOR: nat := 512

  /** The number of sectors a request of `n` bytes moves. */
  function Sectors(n: nat): nat { (n + 511) / 512 }

  /** Byte `i` of a request that starts `shift` bytes into a sector is looked for in cell `Cell(shift, i)`
      of the sector buffer: the sector follows `i`, the place in the sector wraps around. */
  function Cell(shift: nat, i: nat): nat { i / 512 * 512 + (shift + i) % 512 }

  /** The byte of the request that a cell of the sector buffer stands for. */
  function Source(shift: nat, cell: nat): nat { cell / 512 * 512 + (cell % 512 - shift) % 512 }

  lemma CellSource(shift: nat, c: nat)
    ensures Cell(shift, Source(shift, c)) == c
  {
    var r := (c % 512 - shift) % 512;
    assert Source(shift, c) / 512 == c / 512;
    assert (shift + Source(shift, c)) % 512 == (shift + r) % 512;
  }

  lemma SourceCell(shift: nat, i: nat)
    ensures Source(shift, Cell(shift, i)) == i
  {
    assert Cell(shift, i) / 512 == i / 512;
    assert ((shift + i) % 512 - shift) % 512 == i % 512;
  }

  /** A request whose bytes are consecutive on the disk. */
  predicate Straight(start: nat, n: nat) {
    start % 512 == 0 || start % 512 + n <= 512
  }

  /** The disk address that byte `i` of a request at `start` is taken from or goes to. */
  function Addr(start: nat, i: nat): nat { start / 512 * 512 + Cell(start % 512, i) }

  /** Byte `i` is sought as many sectors behind the first as its number says, at its place modulo a sector. */
  lemma AddrIs(start: nat, i: nat)
    ensures Addr(start, i) == (start / 512 + i / 512) * 512 + (start + i) % 512
  {
    var q, r := start / 512, start % 512;
    assert start == q * 512 + r;
  }

  /** The request touches exactly the addresses it names when, and only when, it starts on a sector
      boundary or stays inside one sector. */
  lemma AddrExactIff(start: nat, n: nat)
    ensures (forall i :: 0 <= i < n ==> Addr(start, i) == start + i) <==> Straight(start, n)
  {
    var shift := start % 512;
    if Straight(start, n) {
      forall i | 0 <= i < n ensures Addr(start, i) == start + i {
        assert i / 512 * 512 + i % 512 == i;
      }
    } else {
      var i := 512 - shift;
      assert Cell(shift, i) == 0;
      assert Addr(start, i) != start + i;
    }
  }

  /** The sectors of the request lie on the disk, and the 8-bit sector count of a packet holds them. */
  predicate OnDisk(size: nat, start: nat, n: nat) {
    Sectors(n) <= 255 && start / 512 * 512 + Sectors(n) * 512 <= size
  }

  lemma AddrOnDisk(size: nat, start: nat, n: nat, i: nat)
    requires OnDisk(size, start, n) && i < n
    ensures Addr(start, i) < size
  {
    assert i / 512 < Sectors(n);
  }

  /** What a read request returns. */
  function Fetched(disk: seq<byte>, start: nat, n: nat): seq<byte>
    requires OnDisk(|disk|, start, n)
  {
    seq(n, i requires 0 <= i < n => AddrOnDisk(|disk|, start, n, i); disk[Addr(start, i)])
  }

  /** What a write request leaves on the disk. */
  function Stored(disk: seq<byte>, start: nat, d: seq<byte>): (r: seq<byte>)
    ensures |r| == |disk|
    ensures forall a :: 0 <= a < |r| ==> r[a] == StoredByte(disk, start, d, a)
  {
    seq(|disk|, a requires 0 <= a < |disk| => StoredByte(disk, start, d, a))
  }

  function StoredByte(disk: seq<byte>, start: nat, d: seq<byte>, a: nat): byte
    requires a < |disk|
  {
    var base, shift := start / 512 * 512, start % 512;
    if base <= a && Source(shift, a - base) < |d| then d[Source(shift, a - base)] else disk[a]
  }

  /** `s` with the bytes from `off` on replaced by `d`. */
  function Overlay(s: seq<byte>, off: nat, d: seq<byte>): (r: seq<byte>)
    requires off + |d| <= |s|
    ensures |r| == |s|
    ensures forall i :: 0 <= i < |s| ==> r[i] == if off <= i < off + |d| then d[i - off] else s[i]
  {
    s[..off] + d + s[off + |d|..]
  }

  lemma FetchedAt(disk: seq<byte>, start: nat, n: nat, i: nat)
    requires OnDisk(|disk|, start, n) && i < n
    ensures Addr(start, i) < |disk| && Fetched(disk, start, n)[i] == disk[Addr(start, i)]
  {
    AddrOnDisk(|disk|, start, n, i);
  }

  lemma FetchedStraight(disk: seq<byte>, start: nat, n: nat)
    requires OnDisk(|disk|, start, n) && Straight(start, n) && 0 < n
    ensures start + n <= |disk| && Fetched(disk, start, n) == disk[start..start + n]
  {
    AddrExactIff(start, n);
    AddrOnDisk(|disk|, start, n, n - 1);
    assert Addr(start, n - 1) == start + (n - 1);
    var f := Fetched(disk, start, n);
    forall i | 0 <= i < n ensures f[i] == disk[start + i] {
      FetchedAt(disk, start, n, i);
    }
    hide *;
    assert f == disk[start..start + n];
  }

  lemma StoredStraight(disk: seq<byte>, start: nat, d: seq<byte>)
    requires OnDisk(|disk|, start, |d|) && Straight(start, |d|) && 0 < |d|
    ensures start + |d| <= |disk| && Stored(disk, start, d) == Overlay(disk, start, d)
  {
    FetchedStraight(disk, start, |d|);
    var base, shift := start / 512 * 512, start % 512;
    forall a | 0 <= a < |disk| ensures Stored(disk, start, d)[a] == Overlay(disk, start, d)[a] {
      if base <= a {
        StraightSource(start, |d|, a);
      }
    }
  }

  lemma StraightSource(start: nat, n: nat, a: nat)
    requires Straight(start, n) && start / 512 * 512 <= a
    ensures Source(start % 512, a - start / 512 * 512) < n <==> start <= a < start + n
    ensures start <= a < start + n ==> Source(start % 512, a - start / 512 * 512) == a - start
  {
    var shift, c := start % 512, a - start / 512 * 512;
    CellSource(shift, c);
    AddrExactIff(start, n);
    var i := Source(shift, c);
    if i < n {
      assert Addr(start, i) == start + i;
    }
    if start <= a < start + n {
      SourceCell(shift, a - start);
      assert Addr(start, a - start) == a;
    }
  }

  lemma StoredAt(disk: seq<byte>, start: nat, d: seq<byte>, i: nat)
    requires OnDisk(|disk|, start, |d|) && i < |d|
    ensures Addr(start, i) < |disk| && Stored(disk, start, d)[Addr(start, i)] == d[i]
  {
    var a, base, shift := Addr(start, i), start / 512 * 512, start % 512;
    AddrOnDisk(|disk|, start, |d|, i);
    SourceCell(shift, i);
    assert a == base + Cell(shift, i);
    StoredByteIs(disk, start, d, a, i);
  }

  lemma StoredByteIs(disk: seq<byte>, start: nat, d: seq<byte>, a: nat, i: nat)
    requires a < |disk| && i < |d| && start / 512 * 512 <= a && Source(start % 512, a - start / 512 * 512) == i
    ensures StoredByte(disk, start, d, a) == d[i]
  {
  }

  /** What a request means byte by byte, wherever it starts. */
  lemma RequestByte(disk: seq<byte>, start: nat, d: seq<byte>, i: nat)
    requires OnDisk(|disk|, start, |d|) && i < |d|
    ensures var a := (start / 512 + i / 512) * 512 + (start + i) % 512;
            && a < |disk| && Fetched(disk, start, |d|)[i] == disk[a] && Stored(disk, start, d)[a] == d[i]
  {
    AddrIs(start, i);
    FetchedAt(disk, start, |d|, i);
    StoredAt(disk, start, d, i);
  }

  /** A byte of the disk that no byte of the request goes to stays. */
  lemma OtherByte(disk: seq<byte>, start: nat, d: seq<byte>, a: nat)
    requires a < |disk| && forall i: nat :: i < |d| ==> Addr(start, i) != a
    ensures Stored(disk, start, d)[a] == disk[a]
  {
    var base, shift := start / 512 * 512, start % 512;
    if base <= a {
      CellSource(shift, a - base);
      assert Addr(start, Source(shift, a - base)) == a;
    }
  }

  /** A write followed by a read of the same request returns what was written, wherever it starts. */
  lemma ReadBack(disk: seq<byte>, start: nat, d: seq<byte>)
    requires OnDisk(|disk|, start, |d|)
    ensures Fetched(Stored(disk, start, d), start, |d|) == d
  {
    var f := Fetched(Stored(disk, start, d), start, |d|);
    forall i | 0 <= i < |d| ensures f[i] == d[i] {
      StoredAt(disk, start, d, i);
    }
  }

  /** A block device: its sectors, one after another. */
  class BlockDevice {
    var bytes: seq<byte>

    constructor (contents: seq<byte>)
      ensures bytes == contents
    {
      bytes := contents;
    }

    /** The device copies `count` sectors into the buffer. */
    method ReadSectors(sector: nat, buffer: array<byte>, count: nat)
      requires sector * SECTOR + count * SECTOR <= |bytes| && count * SECTOR <= buffer.Length
      modifies buffer
      ensures buffer[..] == bytes[sector * SECTOR..sector * SECTOR + count * SECTOR] + old(buffer[count * SECTOR..])
    {
      var i := 0;
      while i < count * SECTOR
        invariant 0 <= i <= count * SECTOR
        invariant buffer[..i] == bytes[sector * SECTOR..sector * SECTOR + i]
        invariant buffer[i..] == old(buffer[i..])
      {
        buffer[i] := bytes[sector * SECTOR + i];
        i := i + 1;
      }
    }

    /** The device copies `count` sectors out of the buffer. */
    method WriteSectors(sector: nat, buffer: array<byte>, count: nat)
      requires sector * SECTOR + count * SECTOR <= |bytes| && count * SECTOR <= buffer.Length
      modifies this
      ensures bytes == Overlay(old(bytes), sector * SECTOR, buffer[..count * SECTOR])
    {
      bytes := Overlay(bytes, sector * SECTOR, buffer[..count * SECTOR]);
    }

    method ReadBytes(start: nat, data: array<byte>, n: nat)
      requires OnDisk(|bytes|, start, n) && n <= data.Length
      modifies data
      ensures data[..] == Fetched(bytes, start, n) + old(data[n..])
    {
      var sectors, sector := Sectors(n), start / SECTOR;
      var buffer := new byte[sectors * SECTOR];
      ReadSectors(sector, buffer, sectors);
      var shift := start % SECTOR;
      var i := 0;
      while i < n
        invariant 0 <= i <= n
        invariant forall j :: 0 <= j < i ==> data[j] == Fetched(bytes, start, n)[j]
        invariant forall j :: i <= j < data.Length ==> data[j] == old(data[j])
        invariant buffer[..] == bytes[sector * SECTOR..sector * SECTOR + sectors * SECTOR]
      {
        AddrOnDisk(|bytes|, start, n, i);
        assert i / 512 < sectors;
        data[i] := buffer[i / SECTOR * SECTOR + (shift + i) % SECTOR];
        i := i + 1;
      }
    }

    method WriteBytes(start: nat, data: array<byte>, n: nat)
      requires OnDisk(|bytes|, start, n) && n <= data.Length
      modifies this
      ensures bytes == Stored(old(bytes), start, data[..n])
    {
      var sectors, sector := Sectors(n), start / SECTOR;
      var buffer := new byte[sectors * SECTOR];
      var shift := start % SECTOR;
      ReadSectors(sector, buffer, sectors);
      FillBuffer(buffer, shift, data, n);
      BufferStored(bytes, start, data[..n], buffer[..]);
      assert buffer[..sectors * SECTOR] == buffer[..];
      WriteSectors(sector, buffer, sectors);
    }
  }

  /** The copy loop of a write: byte `i` of the data goes to cell `Cell(shift, i)`. */
  method FillBuffer(buffer: array<byte>, shift: nat, data: array<byte>, n: nat)
    requires buffer != data && n <= data.Length && buffer.Length == Sectors(n) * SECTOR
    modifies buffer
    ensures forall c :: 0 <= c < buffer.Length ==>
              buffer[c] == if Source(shift, c) < n then data[Source(shift, c)] else old(buffer[c])
  {
    var i := 0;
    while i < n
      invariant 0 <= i <= n
      invariant forall c :: 0 <= c < buffer.Length ==>
                  buffer[c] == if Source(shift, c) < i then data[Source(shift, c)] else old(buffer[c])
    {
      assert i / 512 < Sectors(n);
      SourceCell(shift, i);
      forall c | 0 <= c < buffer.Length && Source(shift, c) == i ensures c == Cell(shift, i) {
        CellSource(shift, c);
      }
      buffer[i / SECTOR * SECTOR + (shift + i) % SECTOR] := data[i];
      i := i + 1;
    }
  }

  /** The sectors written back are those of `Stored`. */
  lemma BufferStored(disk: seq<byte>, start: nat, d: seq<byte>, buffer: seq<byte>)
    requires OnDisk(|disk|, start, |d|) && |buffer| == Sectors(|d|) * SECTOR
    requires var base, shift := start / 512 * 512, start % 512;
             forall c :: 0 <= c < |buffer|
                 ==> buffer[c] == if Source(shift, c) < |d| then d[Source(shift, c)] else disk[base + c]
    ensures Overlay(disk, start / 512 * 512, buffer) == Stored(disk, start, d)
  {
    var base, shift := start / 512 * 512, start % 512;
    var l := Overlay(disk, base, buffer);
    forall a | 0 <= a < |disk| ensures l[a] == StoredByte(disk, start, d, a) {
      if base <= a < base + |buffer| {
        assert l[a] == buffer[a - base];
      } else if base + |buffer| <= a {
        assert (a - base) / 512 >= Sectors(|d|);
      }
    }
  }
}
