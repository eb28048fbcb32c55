/** Reading and writing whole blocks and zones (src/minix3.c, minix3_get_blocks to minix3_put_zone). */
module MinixZone {
  import opened Words
  import opened BlockIo
  import opened MinixLayout

  /** The fields of the superblock that the file layer uses. */
  datatype SuperBlock = SuperBlock(imapBlocks: nat, zmapBlocks: nat, firstDataZone: nat, logZoneSize: nat,
      numZones: nat) {
    /** `1024 << log_zone_size`, returned as a 16-bit number. */
    function ZoneSize(): nat { 1024 * Power2(logZoneSize) % 0x1_0000 }

    function Geometry(): Geo {
      Geo(ZoneSize(), firstDataZone, (numZones + firstDataZone) % WORD32)
    }
  }

  function Power2(n: nat): nat {
    if n == 0 then 1 else 2 * Power2(n - 1)
  }

  lemma {:induction false} Power2Multiple(n: nat)
    requires n >= 6
    ensures Power2(n) % 64 == 0
  {
    if n == 6 {
      assert Power2(6) == 2 * Power2(5) == 4 * Power2(4) == 8 * Power2(3) == 16 * Power2(2);
    } else {
      Power2Multiple(n - 1);
    }
  }

  /** The 16-bit zone size is usable exactly up to a shift of five: beyond that it is zero. */
  lemma ZoneSizeOkIff(sb: SuperBlock)
    ensures sb.Geometry().Ok() <==> sb.logZoneSize <= 5
    ensures sb.logZoneSize > 5 ==> sb.ZoneSize() == 0
    ensures sb.logZoneSize <= 5 ==> sb.ZoneSize() == [1024, 2048, 4096, 8192, 16384, 32768][sb.logZoneSize]
  {
    if sb.logZoneSize > 5 {
      Power2Multiple(sb.logZoneSize);
      var k := Power2(sb.logZoneSize) / 64;
      assert 1024 * Power2(sb.logZoneSize) == 0x1_0000 * k;
    } else {
      assert Power2(1) == 2 && Power2(2) == 4 && Power2(3) == 8;
      assert Power2(4) == 16 && Power2(5) == 32;
    }
  }

  /** A disk whose byte addresses fit the 32-bit arithmetic of the block layer. */
  ghost predicate DiskOk(d: seq<byte>) {
    |d| <= WORD32
  }

  lemma BlockRequest(g: Geo, n: nat, block: nat, count: nat)
    requires g.Ok() && n <= WORD32 && 0 < count && g.Start(block + count) <= n && g.size * count <= 255 * SECTOR
    ensures g.Start(block) + g.size * count == g.Start(block + count)
    ensures block * g.size == g.Start(block) < WORD32
    ensures OnDisk(n, g.Start(block), g.size * count) && Straight(g.Start(block), g.size * count)
  {
    g.StartIsProduct(block);
    g.StartIsProduct(block + count);
    assert (block + count) * g.size == block * g.size + g.size * count;
    g.StartAligned(block);
    g.StartAligned(block + count);
    assert g.size * count > 0;
    Sectors512(g.size * count, g.Start(block));
  }

  lemma Sectors512(n: nat, start: nat)
    requires start % 1024 == 0 && (start + n) % 1024 == 0 && n <= 255 * SECTOR
    ensures Sectors(n) * 512 == n && Sectors(n) <= 255 && start / 512 * 512 == start
  {
  }

  /** A read whose bytes are consecutive on the disk. */
  method ReadRun(dev: BlockDevice, start: nat, data: array<byte>, n: nat)
    requires OnDisk(|dev.bytes|, start, n) && Straight(start, n) && 0 < n <= data.Length
    modifies data
    ensures start + n <= |dev.bytes|
    ensures data[..] == dev.bytes[start..start + n] + old(data[n..])
  {
    FetchedStraight(dev.bytes, start, n);
    dev.ReadBytes(start, data, n);
  }

  /** A write whose bytes are consecutive on the disk. */
  method WriteRun(dev: BlockDevice, start: nat, data: array<byte>, n: nat)
    requires OnDisk(|dev.bytes|, start, n) && Straight(start, n) && 0 < n <= data.Length
    modifies dev
    ensures start + n <= |old(dev.bytes)|
    ensures dev.bytes == Overlay(old(dev.bytes), start, data[..n])
  {
    StoredStraight(dev.bytes, start, data[..n]);
    dev.WriteBytes(start, data, n);
  }

  method GetBlocks(dev: BlockDevice, g: Geo, start: nat, data: array<byte>, count: nat)
    requires g.Ok() && DiskOk(dev.bytes) && 0 < count && g.Start(start + count) <= |dev.bytes|
    requires g.size * count <= 255 * SECTOR && g.size * count <= data.Length
    modifies data
    ensures g.Start(start) + g.size * count == g.Start(start + count)
    ensures data[..] == dev.bytes[g.Start(start)..g.Start(start + count)] + old(data[g.size * count..])
  {
    BlockRequest(g, |dev.bytes|, start, count);
    var at, n := start * g.size % WORD32, g.size * count;
    assert at == g.Start(start);
    ReadRun(dev, at, data, n);
  }

  method PutBlocks(dev: BlockDevice, g: Geo, start: nat, data: array<byte>, count: nat)
    requires g.Ok() && DiskOk(dev.bytes) && 0 < count && g.Start(start + count) <= |dev.bytes|
    requires g.size * count <= 255 * SECTOR && g.size * count <= data.Length
    modifies dev
    ensures g.Start(start) + g.size * count <= |old(dev.bytes)|
    ensures dev.bytes == Overlay(old(dev.bytes), g.Start(start), data[..g.size * count])
  {
    BlockRequest(g, |dev.bytes|, start, count);
    var at, n := start * g.size % WORD32, g.size * count;
    assert at == g.Start(start);
    WriteRun(dev, at, data, n);
  }

  /** Reads a zone; a zone number that is not accepted leaves the buffer as it was. */
  method GetZone(dev: BlockDevice, g: Geo, zone: nat, data: array<byte>)
    requires g.Ok() && DiskOk(dev.bytes) && data.Length == g.size
    requires g.InRange(zone) ==> g.Stored(zone, |dev.bytes|)
    modifies data
    ensures data[..] == if g.InRange(zone) then g.Block(dev.bytes, zone) else old(data[..])
  {
    if zone > g.last {
      return;
    }
    if zone < g.first {
      return;
    }
    assert g.Start(zone + 1) == g.Start(zone) + g.size;
    GetBlocks(dev, g, zone, data, 1);
  }

  /** Writes a zone; a zone number that is not accepted leaves the disk as it was. */
  method PutZone(dev: BlockDevice, g: Geo, zone: nat, data: array<byte>)
    requires g.Ok() && DiskOk(dev.bytes) && data.Length == g.size
    requires g.InRange(zone) ==> g.Stored(zone, |dev.bytes|)
    modifies dev
    ensures dev.bytes == if g.InRange(zone) then Overlay(old(dev.bytes), g.Start(zone), data[..]) else old(dev.bytes)
  {
    if zone > g.last {
      return;
    }
    if zone < g.first {
      return;
    }
    assert g.Start(zone + 1) == g.Start(zone) + g.size;
    assert data[..g.size] == data[..];
    PutBlocks(dev, g, zone, data, 1);
  }
}
