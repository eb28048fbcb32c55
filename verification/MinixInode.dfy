/** Inode records on the disk, and the one that is kept in memory (src/minix3.c). */
module MinixInode {
  import opened Arith
  import opened BlockIo
  import opened MinixMap
  import opened MinixZone

  type u16 = x: int | 0 <= x < 0x1_0000
  type u32 = x: int | 0 <= x < 0x1_0000_0000

  const INODE_SIZE: nat := 64
  const FS_IMAP_IDX: nat := 2
  const INVALID_INODE: nat := 0

  datatype Inode = Inode(mode: u16, numLinks: u16, uid: u16, gid: u16,
                         size: u32, atime: u32, mtime: u32, ctime: u32, zones: seq<u32>)
  {
    predicate Ok() { |zones| == 10 }
  }

  const ZERO_INODE := Inode(0, 0, 0, 0, 0, 0, 0, 0, [0, 0, 0, 0, 0, 0, 0, 0, 0, 0])

  /** Little-endian bytes of a number, and back. */
  function Bytes2(x: u16): seq<byte> { [x % 0x100, x / 0x100] }

  function Bytes4(x: u32): seq<byte> { [x % 0x100, x / 0x100 % 0x100, x / 0x1_0000 % 0x100, x / 0x100_0000] }

  function Number2(s: seq<byte>): u16
    requires |s| == 2
  {
    s[0] as int + 0x100 * s[1] as int
  }

  function Number4(s: seq<byte>): u32
    requires |s| == 4
  {
    s[0] as int + 0x100 * s[1] as int + 0x1_0000 * s[2] as int + 0x100_0000 * s[3] as int
  }

  lemma Number4Bytes4(x: u32)
    ensures Number4(Bytes4(x)) == x
  {
    var h := x / 0x1_0000;
    assert x / 0x100_0000 == h / 0x100;
    assert x / 0x100 == h * 0x100 + x % 0x1_0000 / 0x100;
  }

  lemma Bytes4Number4(s: seq<byte>)
    requires |s| == 4
    ensures Bytes4(Number4(s)) == s
  {
    var a: int, b: int, c: int, d: int := s[0], s[1], s[2], s[3];
    var n: int := Number4(s);
    DivModUnique(n, 0x100, b + 0x100 * c + 0x1_0000 * d, a);
    DivModUnique(b + 0x100 * c + 0x1_0000 * d, 0x100, c + 0x100 * d, b);
    DivModUnique(n, 0x1_0000, c + 0x100 * d, a + 0x100 * b);
    DivModUnique(c + 0x100 * d, 0x100, d, c);
    DivModUnique(n, 0x100_0000, d, a + 0x100 * b + 0x1_0000 * c);
  }

  function BytesOfWords(xs: seq<u32>): (r: seq<byte>)
    ensures |r| == 4 * |xs|
  {
    if xs == [] then [] else Bytes4(xs[0]) + BytesOfWords(xs[1..])
  }

  function WordsOfBytes(s: seq<byte>): (r: seq<u32>)
    requires |s| % 4 == 0
    ensures 4 * |r| == |s|
  {
    if s == [] then [] else [Number4(s[..4])] + WordsOfBytes(s[4..])
  }

  lemma {:induction false} WordsRoundTrip(xs: seq<u32>)
    ensures WordsOfBytes(BytesOfWords(xs)) == xs
  {
    if xs != [] {
      var s := BytesOfWords(xs);
      assert s[..4] == Bytes4(xs[0]) && s[4..] == BytesOfWords(xs[1..]);
      Number4Bytes4(xs[0]);
      WordsRoundTrip(xs[1..]);
    }
  }

  lemma {:induction false} BytesRoundTrip(s: seq<byte>)
    requires |s| % 4 == 0
    ensures BytesOfWords(WordsOfBytes(s)) == s
  {
    if s != [] {
      var xs := WordsOfBytes(s);
      assert xs[1..] == WordsOfBytes(s[4..]);
      Bytes4Number4(s[..4]);
      BytesRoundTrip(s[4..]);
      assert s == s[..4] + s[4..];
    }
  }

  /** The record as the C structure lies in memory: four 16-bit fields, then fourteen 32-bit words. */
  function Encode(n: Inode): (r: seq<byte>)
    requires n.Ok()
    ensures |r| == INODE_SIZE
  {
    Bytes2(n.mode) + Bytes2(n.numLinks) + Bytes2(n.uid) + Bytes2(n.gid)
    + BytesOfWords([n.size, n.atime, n.mtime, n.ctime] + n.zones)
  }

  function Decode(s: seq<byte>): (n: Inode)
    requires |s| == INODE_SIZE
    ensures n.Ok()
  {
    var words := WordsOfBytes(s[8..]);
    Inode(Number2(s[..2]), Number2(s[2..4]), Number2(s[4..6]), Number2(s[6..8]),
          words[0], words[1], words[2], words[3], words[4..])
  }

  lemma DecodeEncode(n: Inode)
    requires n.Ok()
    ensures Decode(Encode(n)) == n
  {
    var s, words := Encode(n), [n.size, n.atime, n.mtime, n.ctime] + n.zones;
    assert s[..2] == Bytes2(n.mode) && s[2..4] == Bytes2(n.numLinks) && s[4..6] == Bytes2(n.uid)
        && s[6..8] == Bytes2(n.gid);
    assert s[8..] == BytesOfWords(words);
    WordsRoundTrip(words);
    assert words[4..] == n.zones;
  }

  lemma EncodeDecode(s: seq<byte>)
    requires |s| == INODE_SIZE
    ensures Encode(Decode(s)) == s
  {
    var words, n := WordsOfBytes(s[8..]), Decode(s);
    assert [n.size, n.atime, n.mtime, n.ctime] + n.zones == words;
    BytesRoundTrip(s[8..]);
    assert s == s[..2] + s[2..4] + s[4..6] + s[6..8] + s[8..];
  }

  // ---------------------------------------------------------------- where records are

  function InodeTable(sb: SuperBlock): nat { (FS_IMAP_IDX + sb.imapBlocks + sb.zmapBlocks) * sb.ZoneSize() }

  function InodeOffset(sb: SuperBlock, inode: nat): nat
    requires inode != INVALID_INODE
  {
    InodeTable(sb) + (inode - 1) * INODE_SIZE
  }

  /** The record lies on a disk of `n` bytes, and so does the sector it begins in. */
  predicate InodeOnDisk(sb: SuperBlock, inode: nat, n: nat) {
    inode != INVALID_INODE ==>
      var offset := InodeOffset(sb, inode);
      offset + INODE_SIZE <= n && offset / SECTOR * SECTOR + SECTOR <= n
  }

  /** The record of an inode; number 0 stands for an empty one. */
  function InodeAt(d: seq<byte>, sb: SuperBlock, inode: nat): (r: Inode)
    requires InodeOnDisk(sb, inode, |d|)
    ensures r.Ok()
  {
    if inode == INVALID_INODE then ZERO_INODE
    else Decode(d[InodeOffset(sb, inode)..InodeOffset(sb, inode) + INODE_SIZE])
  }

  lemma {:induction false} WordAt(s: seq<byte>, k: nat)
    requires |s| % 4 == 0 && 4 * k < |s|
    ensures WordsOfBytes(s)[k] == NumberAt(s, 4 * k)
    decreases k
  {
    if k > 0 {
      WordAt(s[4..], k - 1);
      NumberMoved(s, s[4..], 4, 4 * (k - 1));
    }
  }

  lemma NumberMoved(s: seq<byte>, t: seq<byte>, at: nat, i: nat)
    requires at + |t| <= |s| && s[at..at + |t|] == t && i + 4 <= |t|
    ensures NumberAt(t, i) == NumberAt(s, at + i)
  {
    assert forall j :: 0 <= j < |t| ==> t[j] == s[at + j];
  }

  /** The fields of a record, byte by byte. */
  ghost predicate HasFields(d: seq<byte>, at: nat, n: Inode)
    requires at + 64 <= |d|
  {
    && n.mode as int == d[at] as int + 0x100 * d[at + 1] as int
    && n.numLinks as int == d[at + 2] as int + 0x100 * d[at + 3] as int
    && n.uid as int == d[at + 4] as int + 0x100 * d[at + 5] as int
    && n.gid as int == d[at + 6] as int + 0x100 * d[at + 7] as int
    && n.size as int == NumberAt(d, at + 8) && n.atime as int == NumberAt(d, at + 12)
    && n.mtime as int == NumberAt(d, at + 16) && n.ctime as int == NumberAt(d, at + 20)
    && |n.zones| == 10 && forall j :: 0 <= j < 10 ==> n.zones[j] as int == NumberAt(d, at + 24 + 4 * j)
  }

  lemma DecodeWords(s: seq<byte>, k: nat)
    requires |s| == 64 && k < 14
    ensures WordsOfBytes(s[8..])[k] as int == NumberAt(s, 8 + 4 * k)
  {
    hide NumberAt, WordsOfBytes;
    WordAt(s[8..], k);
    NumberMoved(s, s[8..], 8, 4 * k);
  }

  lemma DecodeHasFields(s: seq<byte>)
    requires |s| == 64
    ensures HasFields(s, 0, Decode(s))
  {
    hide NumberAt, WordsOfBytes;
    var words := WordsOfBytes(s[8..]);
    forall k | 0 <= k < 14 ensures words[k] as int == NumberAt(s, 8 + 4 * k) {
      DecodeWords(s, k);
    }
    assert words[0] as int == NumberAt(s, 8) && words[1] as int == NumberAt(s, 12);
    assert words[2] as int == NumberAt(s, 16) && words[3] as int == NumberAt(s, 20);
    forall j | 0 <= j < 10 ensures words[4..][j] as int == NumberAt(s, 24 + 4 * j) {
      assert words[4..][j] == words[4 + j];
    }
  }

  /** Record `inode` lies 64 bytes behind the one before it, the first `2 + imap_blocks + zmap_blocks` blocks
      into the disk. */
  lemma RecordBytes(d: seq<byte>, sb: SuperBlock, inode: nat)
    requires inode != 0 && InodeOnDisk(sb, inode, |d|)
    ensures var at := (2 + sb.imapBlocks + sb.zmapBlocks) * sb.ZoneSize() + 64 * (inode - 1);
            at + 64 <= |d| && HasFields(d, at, InodeAt(d, sb, inode))
  {
    var at := InodeOffset(sb, inode);
    assert at == (2 + sb.imapBlocks + sb.zmapBlocks) * sb.ZoneSize() + 64 * (inode - 1);
    var s, n := d[at..at + 64], InodeAt(d, sb, inode);
    DecodeHasFields(s);
    hide Decode;
    FieldsMoved(d, at, s, n);
  }

  lemma FieldsMoved(d: seq<byte>, at: nat, s: seq<byte>, n: Inode)
    requires at + 64 <= |d| && s == d[at..at + 64] && HasFields(s, 0, n)
    ensures HasFields(d, at, n)
  {
    assert forall j :: 0 <= j < 64 ==> s[j] == d[at + j];
    forall j | 0 <= j <= 60 ensures NumberAt(s, j) == NumberAt(d, at + j) {
      NumberMoved(d, s, at, j);
    }
    hide NumberAt;
  }

  lemma TableAligned(sb: SuperBlock)
    requires sb.Geometry().Ok()
    ensures InodeTable(sb) % 64 == 0
  {
    var k, m := FS_IMAP_IDX + sb.imapBlocks + sb.zmapBlocks, sb.ZoneSize() / 64;
    assert sb.ZoneSize() == 64 * m;
    assert k * (64 * m) == 64 * (k * m);
  }

  lemma AlignedInSector(k: nat)
    ensures 64 * k % 512 + 64 <= 512
  {
    var q, r := k / 8, k % 8;
    assert 64 * k == q * 512 + 64 * r;
    DivModUnique(64 * k, 512, q, 64 * r);
  }

  /** Every 64-byte record lies inside one sector. */
  lemma RecordStraight(sb: SuperBlock, inode: nat, n: nat)
    requires sb.Geometry().Ok() && inode != INVALID_INODE && InodeOnDisk(sb, inode, n)
    ensures Straight(InodeOffset(sb, inode), INODE_SIZE) && OnDisk(n, InodeOffset(sb, inode), INODE_SIZE)
  {
    TableAligned(sb);
    AlignedInSector(InodeTable(sb) / 64 + inode - 1);
    assert InodeOffset(sb, inode) == 64 * (InodeTable(sb) / 64 + inode - 1);
  }

  // ---------------------------------------------------------------- the inode kept in memory

  /** The inode a caller gets while `last` is kept with its `data`. */
  function Seen(last: nat, data: Inode, d: seq<byte>, sb: SuperBlock, inode: nat): Inode
    requires InodeOnDisk(sb, inode, |d|)
  {
    if inode == INVALID_INODE then ZERO_INODE
    else if inode == last then data
    else InodeAt(d, sb, inode)
  }

  /** What is kept is what is on the disk. */
  predicate Coherent(last: nat, data: Inode, d: seq<byte>, sb: SuperBlock)
    requires InodeOnDisk(sb, last, |d|)
  {
    last != INVALID_INODE ==> data == InodeAt(d, sb, last)
  }

  /** `last_inode` and `last_inode_data`. */
  class InodeCache {
    var last: nat
    var data: Inode

    constructor ()
      ensures last == INVALID_INODE && data == ZERO_INODE
    {
      last, data := INVALID_INODE, ZERO_INODE;
    }
  }

  method GetInode(dev: BlockDevice, cache: InodeCache, sb: SuperBlock, inode: nat) returns (r: Inode)
    requires sb.Geometry().Ok() && InodeOnDisk(sb, inode, |dev.bytes|)
    modifies cache
    ensures r == old(Seen(cache.last, cache.data, dev.bytes, sb, inode))
    ensures if inode == INVALID_INODE then unchanged(cache) else cache.last == inode && cache.data == r
  {
    if inode == INVALID_INODE {
      return ZERO_INODE;
    } else if inode == cache.last {
      return cache.data;
    }
    var offset := InodeOffset(sb, inode);
    var data := new byte[INODE_SIZE];
    RecordStraight(sb, inode, |dev.bytes|);
    FetchedStraight(dev.bytes, offset, INODE_SIZE);
    dev.ReadBytes(offset, data, INODE_SIZE);
    assert data[..] == dev.bytes[offset..offset + INODE_SIZE];
    r := Decode(data[..]);
    cache.data := r;
    cache.last := inode;
  }

  method PutInode(dev: BlockDevice, sb: SuperBlock, inode: nat, n: Inode)
    requires sb.Geometry().Ok() && InodeOnDisk(sb, inode, |dev.bytes|) && n.Ok()
    modifies dev
    ensures dev.bytes == if inode == INVALID_INODE then old(dev.bytes)
                         else Overlay(old(dev.bytes), InodeOffset(sb, inode), Encode(n))
  {
    if inode == INVALID_INODE {
      return;
    }
    var offset := InodeOffset(sb, inode);
    var data := new byte[INODE_SIZE];
    var record := Encode(n);
    for k := 0 to INODE_SIZE
      invariant dev.bytes == old(dev.bytes)
      invariant forall j :: 0 <= j < k ==> data[j] == record[j]
    {
      data[k] := record[k];
    }
    assert data[..INODE_SIZE] == record;
    RecordStraight(sb, inode, |dev.bytes|);
    StoredStraight(dev.bytes, offset, record);
    dev.WriteBytes(offset, data, INODE_SIZE);
  }

  /** Writing one inode makes its record the new one and leaves every other inode unchanged. */
  lemma PutGetInode(d: seq<byte>, sb: SuperBlock, i: nat, n: Inode, j: nat)
    requires sb.Geometry().Ok() && InodeOnDisk(sb, i, |d|) && InodeOnDisk(sb, j, |d|)
    requires i != INVALID_INODE && n.Ok()
    ensures var e := Overlay(d, InodeOffset(sb, i), Encode(n));
            InodeAt(e, sb, j) == if j == i then n else InodeAt(d, sb, j)
  {
    var e, off := Overlay(d, InodeOffset(sb, i), Encode(n)), InodeOffset(sb, i);
    if j == i {
      assert e[off..off + INODE_SIZE] == Encode(n);
      DecodeEncode(n);
    } else if j != INVALID_INODE {
      var at := InodeOffset(sb, j);
      assert at + INODE_SIZE <= off || off + INODE_SIZE <= at;
      assert e[at..at + INODE_SIZE] == d[at..at + INODE_SIZE];
    }
  }

  /** Every inode is seen as it is on the disk exactly when the one kept is. */
  lemma SeenIsStoredIff(last: nat, data: Inode, d: seq<byte>, sb: SuperBlock)
    requires InodeOnDisk(sb, last, |d|)
    ensures Coherent(last, data, d, sb)
            <==> forall i :: InodeOnDisk(sb, i, |d|) ==> Seen(last, data, d, sb, i) == InodeAt(d, sb, i)
  {
    if !Coherent(last, data, d, sb) {
      assert Seen(last, data, d, sb, last) != InodeAt(d, sb, last);
    }
  }

  /** A write does not touch what is kept, whether that is on the disk or not.  The inode written is seen as
      written exactly when another one is kept or what is kept is what was written. */
  lemma SeenAfterPutIff(last: nat, data: Inode, d: seq<byte>, sb: SuperBlock, i: nat, n: Inode)
    requires sb.Geometry().Ok() && InodeOnDisk(sb, i, |d|) && InodeOnDisk(sb, last, |d|)
    requires i != INVALID_INODE && n.Ok()
    ensures var e := Overlay(d, InodeOffset(sb, i), Encode(n));
            && (Seen(last, data, e, sb, i) == n <==> i != last || n == data)
            && (Coherent(last, data, e, sb) <==> if i == last then n == data else Coherent(last, data, d, sb))
  {
    PutGetInode(d, sb, i, n, i);
    PutGetInode(d, sb, i, n, last);
  }

  /** A record read, another written in its place, and written again: the second write changes nothing, and
      yet the first record is seen. */
  method PutTwiceThenGet(dev: BlockDevice, cache: InodeCache, sb: SuperBlock, i: nat, n: Inode)
    returns (was: Inode, r: Inode)
    requires sb.Geometry().Ok() && InodeOnDisk(sb, i, |dev.bytes|) && i != INVALID_INODE && n.Ok()
    modifies dev, cache
    ensures was == old(Seen(cache.last, cache.data, dev.bytes, sb, i)) && r == was
    ensures dev.bytes == Overlay(old(dev.bytes), InodeOffset(sb, i), Encode(n)) && InodeAt(dev.bytes, sb, i) == n
    ensures r == n <==> was == n
  {
    was := GetInode(dev, cache, sb, i);
    PutInode(dev, sb, i, n);
    ghost var once := dev.bytes;
    PutGetInode(old(dev.bytes), sb, i, n, i);
    PutInode(dev, sb, i, n);
    assert dev.bytes == once;
    r := GetInode(dev, cache, sb, i);
  }
}
