/** What reads and writes of a Minix 3 file mean for each other. */
module MinixFile {
  import opened Sequences
  import opened BlockIo
  import opened MinixLayout
  import opened MinixMap
  import opened MinixZone
  import opened MinixInode
  import opened MinixRead
  import opened MinixWrite

  // ---------------------------------------------------------------- the zones a read and a write visit

  lemma {:induction false} NoHoles2(g: Geo, d: seq<byte>, es: seq<nat>)
    ensures 0 !in g.Leaves2(d, es)
  {
    if es != [] {
      NoHoles2(g, d, es[..|es| - 1]);
    }
  }

  lemma {:induction false} NoHoles3(g: Geo, d: seq<byte>, es: seq<nat>)
    ensures 0 !in g.Leaves3(d, es)
  {
    if es != [] {
      NoHoles3(g, d, es[..|es| - 1]);
      NoHoles2(g, d, g.Entries(d, es[|es| - 1]));
    }
  }

  /** A write visits the zones a read visits, without the holes. */
  lemma WriteZonesKeepReadZones(g: Geo, d: seq<byte>, zones: seq<nat>)
    requires |zones| == 10
    ensures g.WriteZones(d, zones) == Keep(g.ReadZones(d, zones))
  {
    var a, b, c, e := Keep(zones[..7]), g.Single(d, zones[7]), g.Double(d, zones[8]), g.Triple(d, zones[9]);
    NoHoles2(g, d, g.Entries(d, zones[8]));
    NoHoles3(g, d, g.Entries(d, zones[9]));
    KeepNonzero(a);
    KeepNonzero(c);
    KeepNonzero(e);
    KeepAppend(a, b);
    KeepAppend(a + b, c);
    KeepAppend(a + b + c, e);
  }

  /** Reads and writes number the zones of a file alike exactly when no hole of the single indirect
      block comes before a zone. */
  lemma SameZonesIffDense(g: Geo, d: seq<byte>, zones: seq<nat>)
    requires |zones| == 10
    ensures g.WriteZones(d, zones) <= g.ReadZones(d, zones) <==> Dense(g.ReadZones(d, zones))
  {
    WriteZonesKeepReadZones(g, d, zones);
    KeepIsPrefixIff(g.ReadZones(d, zones));
  }

  // ---------------------------------------------------------------- a write keeps the tree

  lemma {:induction false} Leaves2Unchanged(g: Geo, d0: seq<byte>, d: seq<byte>, all: seq<nat>, es: seq<nat>)
    requires Frame(g, d0, d, all) && Writable2(g, d0, es, all)
    ensures g.Leaves2(d, es) == g.Leaves2(d0, es)
  {
    if es != [] {
      var e := es[|es| - 1];
      Leaves2Unchanged(g, d0, d, all, es[..|es| - 1]);
      if e != 0 {
        ZoneUnchanged(g, d0, d, all, e);
      }
    }
  }

  lemma {:induction false} Leaves3Unchanged(g: Geo, d0: seq<byte>, d: seq<byte>, all: seq<nat>, es: seq<nat>)
    requires Frame(g, d0, d, all) && Writable3(g, d0, es, all)
    ensures g.Leaves3(d, es) == g.Leaves3(d0, es)
  {
    if es != [] {
      var e := es[|es| - 1];
      Leaves3Unchanged(g, d0, d, all, es[..|es| - 1]);
      if e != 0 {
        ZoneUnchanged(g, d0, d, all, e);
        Leaves2Unchanged(g, d0, d, all, g.Entries(d0, e));
      }
    }
  }

  /** A write leaves every indirect block, and so the zones of the file, as they were. */
  lemma TreeUnchanged(g: Geo, zones: seq<nat>, d0: seq<byte>, d: seq<byte>)
    requires |zones| == 10 && FileWritable(g, d0, zones) && Frame(g, d0, d, g.WriteZones(d0, zones))
    ensures g.ReadZones(d, zones) == g.ReadZones(d0, zones)
    ensures g.WriteZones(d, zones) == g.WriteZones(d0, zones)
  {
    var all := g.WriteZones(d0, zones);
    if zones[7] != 0 {
      ZoneUnchanged(g, d0, d, all, zones[7]);
    }
    if zones[8] != 0 {
      ZoneUnchanged(g, d0, d, all, zones[8]);
      Leaves2Unchanged(g, d0, d, all, g.Entries(d0, zones[8]));
    }
    if zones[9] != 0 {
      ZoneUnchanged(g, d0, d, all, zones[9]);
      Leaves3Unchanged(g, d0, d, all, g.Entries(d0, zones[9]));
    }
  }

  // ---------------------------------------------------------------- a read after a write

  /** The flat file as a read sees it. */
  function ReadView(g: Geo, d: seq<byte>, zones: seq<nat>): seq<byte>
    requires |zones| == 10
  {
    g.Flat(d, g.ReadZones(d, zones))
  }

  /** The bytes of the file that a write can reach. */
  function WriteView(g: Geo, d: seq<byte>, zones: seq<nat>): seq<byte>
    requires |zones| == 10
  {
    g.Flat(d, g.WriteZones(d, zones))
  }

  lemma ResultIsOverlay(f: seq<byte>, rest: seq<byte>, offset: nat, payload: seq<byte>)
    requires offset + |payload| <= |f|
    ensures WriteResult(f, offset, payload) + rest == Overlay(f + rest, offset, payload)
  {
    WriteInside(f, rest, offset, payload);
    assert payload[..|payload|] == payload;
  }

  lemma HolesSame(g: Geo, all: seq<nat>, rs: seq<nat>, d0: seq<byte>, d: seq<byte>) returns (rest: seq<nat>)
    requires all == Keep(rs) && all <= rs && Dense(rs) && Frame(g, d0, d, all)
    ensures rs == all + rest && g.Flat(d, rest) == g.Flat(d0, rest)
  {
    rest := rs[|all|..];
    forall i | 0 <= i < |rest| ensures g.ZoneBytes(d, rest[i]) == g.ZoneBytes(d0, rest[i]) {
      RestIsHoles(rs, i + |all|);
      ZoneUnchanged(g, d0, d, all, rest[i]);
    }
    g.FlatSame(d, d0, rest);
  }

  /** The zones of a dense file that follow the written ones are holes, which a write does not touch. */
  lemma HolesUnchanged(g: Geo, zones: seq<nat>, d0: seq<byte>, d: seq<byte>) returns (rest: seq<nat>)
    requires |zones| == 10 && Dense(g.ReadZones(d0, zones)) && Frame(g, d0, d, g.WriteZones(d0, zones))
    ensures g.ReadZones(d0, zones) == g.WriteZones(d0, zones) + rest
    ensures g.Flat(d, rest) == g.Flat(d0, rest)
  {
    SameZonesIffDense(g, d0, zones);
    WriteZonesKeepReadZones(g, d0, zones);
    rest := HolesSame(g, g.WriteZones(d0, zones), g.ReadZones(d0, zones), d0, d);
  }

  /** In a dense file a write that fits overlays the range in what every later read sees. */
  lemma PutThenGet(g: Geo, zones: seq<nat>, offset: nat, payload: seq<byte>, d0: seq<byte>, d: seq<byte>)
    requires |zones| == 10 && FileWritable(g, d0, zones) && Dense(g.ReadZones(d0, zones))
    requires offset + |payload| <= |WriteView(g, d0, zones)|
    requires FileWritten(g, zones, offset, payload, d0, d)
    ensures offset + |payload| <= |ReadView(g, d0, zones)|
    ensures ReadView(g, d, zones) == Overlay(ReadView(g, d0, zones), offset, payload)
  {
    var all := g.WriteZones(d0, zones);
    TreeUnchanged(g, zones, d0, d);
    var rest := HolesUnchanged(g, zones, d0, d);
    ResultIsOverlay(g.Flat(d0, all), g.Flat(d0, rest), offset, payload);
    hide *;
    g.FlatAppend(d, all, rest);
    g.FlatAppend(d0, all, rest);
  }

  // ---------------------------------------------------------------- one call after the other

  lemma ZoneHasRoom(g: Geo, z: nat, n: nat)
    requires g.Stored(z, n)
    ensures g.Start(0) + g.size <= n
  {
  }

  lemma MiddleIn(a: seq<nat>, b: seq<nat>, c: seq<nat>)
    requires a + b <= c
    ensures forall z :: z in b ==> z in c
  {
    forall z | z in b ensures z in c {
      var i :| 0 <= i < |b| && b[i] == z;
      assert c[|a| + i] == (a + b)[|a| + i] == z;
    }
  }

  lemma LeavesInLeaves2(g: Geo, d: seq<byte>, es: seq<nat>, i: nat)
    requires i < |es| && es[i] != 0
    ensures forall z :: z in g.Leaves(d, es[i]) ==> z in g.Leaves2(d, es)
  {
    hide Geo.Leaves, Geo.Leaves2;
    g.Leaves2Snoc(d, es, i);
    g.Leaves2Prefix(d, es, i + 1);
    MiddleIn(g.Leaves2(d, es[..i]), g.Leaves(d, es[i]), g.Leaves2(d, es));
  }

  lemma Leaves2InLeaves3(g: Geo, d: seq<byte>, es: seq<nat>, i: nat)
    requires i < |es| && es[i] != 0
    ensures forall z :: z in g.Leaves2(d, g.Entries(d, es[i])) ==> z in g.Leaves3(d, es)
  {
    hide Geo.Leaves2, Geo.Leaves3, Geo.Entries;
    g.Leaves3Snoc(d, es, i);
    g.Leaves3Prefix(d, es, i + 1);
    MiddleIn(g.Leaves3(d, es[..i]), g.Leaves2(d, g.Entries(d, es[i])), g.Leaves3(d, es));
  }

  lemma WritableReadable2(g: Geo, d: seq<byte>, es: seq<nat>, all: seq<nat>)
    requires Writable2(g, d, es, all) && g.AllStored(all, |d|) && forall z :: z in g.Leaves2(d, es) ==> z in all
    ensures Readable2(g, d, es)
  {
    hide Geo.Stored, Geo.Leaves, Geo.Leaves2;
    forall i | 0 <= i < |es| && es[i] != 0 ensures g.Readable(g.Leaves(d, es[i]), |d|) {
      LeavesInLeaves2(g, d, es, i);
      StoredReadable(g, g.Leaves(d, es[i]), all, |d|);
    }
  }

  lemma StoredReadable(g: Geo, vs: seq<nat>, all: seq<nat>, n: nat)
    requires g.AllStored(all, n) && forall z :: z in vs ==> z in all
    ensures g.Readable(vs, n)
  {
    forall i | 0 <= i < |vs| ensures g.Stored(vs[i], n) {
      assert vs[i] in all;
    }
  }

  lemma WritableReadable3(g: Geo, d: seq<byte>, es: seq<nat>, all: seq<nat>)
    requires Writable3(g, d, es, all) && g.AllStored(all, |d|) && forall z :: z in g.Leaves3(d, es) ==> z in all
    ensures Readable3(g, d, es)
  {
    hide Geo.Stored, Geo.Leaves2, Geo.Leaves3;
    forall i | 0 <= i < |es| && es[i] != 0 ensures Readable2(g, d, g.Entries(d, es[i])) {
      Leaves2InLeaves3(g, d, es, i);
      WritableReadable2(g, d, g.Entries(d, es[i]), all);
    }
  }

  /** A file that can be written can be read. */
  lemma WritableIsReadable(g: Geo, d: seq<byte>, zones: seq<nat>)
    requires |zones| == 10 && FileWritable(g, d, zones)
    ensures FileReadable(g, d, zones)
  {
    hide Geo.Stored, Geo.Leaves2, Geo.Leaves3, Geo.Entries;
    var all := g.WriteZones(d, zones);
    StoredReadable(g, Keep(zones[..7]), all, |d|);
    if zones[7] != 0 {
      SingleReadable(g, d, zones[7], all);
    }
    if zones[8] != 0 {
      WritableReadable2(g, d, g.Entries(d, zones[8]), all);
    }
    if zones[9] != 0 {
      WritableReadable3(g, d, g.Entries(d, zones[9]), all);
    }
  }

  lemma SingleReadable(g: Geo, d: seq<byte>, z: nat, all: seq<nat>)
    requires g.Stored(z, |d|) && g.AllStored(all, |d|) && forall x :: x in Keep(g.Entries(d, z)) ==> x in all
    ensures g.Readable(g.Entries(d, z), |d|)
  {
    ZoneHasRoom(g, z, |d|);
    var es := g.Entries(d, z);
    forall i | 0 <= i < |es| && es[i] != 0 ensures g.Stored(es[i], |d|) {
      assert es[i] in Keep(es);
    }
  }

  lemma Writable2Unchanged(g: Geo, d0: seq<byte>, d: seq<byte>, es: seq<nat>, all: seq<nat>)
    requires Frame(g, d0, d, all) && Writable2(g, d0, es, all)
    ensures Writable2(g, d, es, all)
  {
  }

  lemma Writable3Unchanged(g: Geo, d0: seq<byte>, d: seq<byte>, es: seq<nat>, all: seq<nat>)
    requires Frame(g, d0, d, all) && Writable3(g, d0, es, all)
    ensures Writable3(g, d, es, all)
  {
    hide Geo.Stored, Geo.Entries;
    forall i | 0 <= i < |es| && es[i] != 0 ensures Writable2(g, d, g.Entries(d, es[i]), all) {
      ZoneUnchanged(g, d0, d, all, es[i]);
    }
  }

  /** A write leaves the file one that can be written, and so read. */
  lemma WritableUnchanged(g: Geo, zones: seq<nat>, d0: seq<byte>, d: seq<byte>)
    requires |zones| == 10 && FileWritable(g, d0, zones) && Frame(g, d0, d, g.WriteZones(d0, zones))
    ensures FileWritable(g, d, zones)
  {
    hide Geo.Stored, Geo.Entries, Geo.WriteZones;
    var all := g.WriteZones(d0, zones);
    TreeUnchanged(g, zones, d0, d);
    if zones[8] != 0 {
      ZoneUnchanged(g, d0, d, all, zones[8]);
      Writable2Unchanged(g, d0, d, g.Entries(d0, zones[8]), all);
    }
    if zones[9] != 0 {
      ZoneUnchanged(g, d0, d, all, zones[9]);
      Writable3Unchanged(g, d0, d, g.Entries(d0, zones[9]), all);
    }
  }

  lemma StartUnchanged(g: Geo, r: Request, zones: seq<nat>, d0: seq<byte>, d: seq<byte>)
    requires |zones| == 10 && g.ReadZones(d, zones) == g.ReadZones(d0, zones) && StartReadable(g, r, d0, zones)
    ensures StartReadable(g, r, d, zones)
  {
    var vs := g.ReadZones(d0, zones);
    hide Geo.Flat, Geo.ReadZones;
    forall k | 0 <= k < |vs| ensures |g.Flat(d, vs[..k])| == |g.Flat(d0, vs[..k])| {
      FlatLength(g, d, d0, vs[..k], vs[..k]);
    }
  }

  /** After a write a read of any range finds what it asks for, and the overlay. */
  lemma ReadableAfterPut(g: Geo, r: Request, zones: seq<nat>, offset: nat, payload: seq<byte>, d0: seq<byte>,
                         d: seq<byte>)
    requires |zones| == 10 && FileWritable(g, d0, zones) && Dense(g.ReadZones(d0, zones))
    requires offset + |payload| <= |WriteView(g, d0, zones)| && FileWritten(g, zones, offset, payload, d0, d)
    requires StartReadable(g, r, d0, zones)
    ensures |d| == |d0| && FileReadable(g, d, zones) && StartReadable(g, r, d, zones)
    ensures offset + |payload| <= |ReadView(g, d0, zones)|
    ensures ReadView(g, d, zones) == Overlay(ReadView(g, d0, zones), offset, payload)
  {
    FrameOfWrite(g, zones, offset, payload, d0, d);
    assert |d| == |d0|;
    hide *;
    PutThenGet(g, zones, offset, payload, d0, d);
    TreeUnchanged(g, zones, d0, d);
    WritableUnchanged(g, zones, d0, d);
    WritableIsReadable(g, d, zones);
    StartUnchanged(g, r, zones, d0, d);
  }

  /** A range that starts in the data of a dense file, or at its end, starts in no hole. */
  lemma DenseStartReadable(g: Geo, r: Request, zones: seq<nat>, d: seq<byte>)
    requires |zones| == 10 && FileWritable(g, d, zones) && Dense(g.ReadZones(d, zones))
    requires r.offset <= |WriteView(g, d, zones)|
    ensures StartReadable(g, r, d, zones)
  {
    var all, rs := g.WriteZones(d, zones), g.ReadZones(d, zones);
    SameZonesIffDense(g, d, zones);
    hide Geo.Flat, Geo.ReadZones, Geo.WriteZones, Geo.Stored;
    forall k | 0 <= k < |rs| && StartsInside(r, |g.Flat(d, rs[..k])|, g.size) ensures g.Stored(rs[k], |d|) {
      if k < |all| {
        assert rs[k] == all[k];
      } else {
        assert all <= rs[..k];
        g.FlatPrefix(d, all, rs[..k]);
        assert false;
      }
    }
    StoredInRange(g, d, r, rs);
  }

  lemma StoredInRange(g: Geo, d: seq<byte>, r: Request, rs: seq<nat>)
    requires forall k :: 0 <= k < |rs| && StartsInside(r, |g.Flat(d, rs[..k])|, g.size) ==> g.Stored(rs[k], |d|)
    ensures StartClear(g, r, d, rs, false)
  {
  }

  /** minix3_put_data, then minix3_get_data of any range: the buffer receives the bytes of the file as it was
      with the data laid over them.  Both calls use the inode as it is seen, on the disk or kept. */
  method PutThenGetData(dev: BlockDevice, cache: InodeCache, sb: SuperBlock, inode: nat, data: array<byte>,
                        offset: nat, count: nat, buffer: array<byte>, at: nat, n: nat)
    requires sb.Geometry().Ok() && DiskOk(dev.bytes) && InodeOnDisk(sb, inode, |dev.bytes|) && cache.data.Ok()
    requires Request(offset, count).Ok(sb.Geometry()) && count <= data.Length
    requires Request(at, n).Ok(sb.Geometry()) && n <= buffer.Length && buffer != data
    requires var g, zones := sb.Geometry(), Seen(cache.last, cache.data, dev.bytes, sb, inode).zones;
             && FileWritable(g, dev.bytes, zones) && Dense(g.ReadZones(dev.bytes, zones))
             && StartReadable(g, Request(at, n), dev.bytes, zones)
             && offset + count <= |WriteView(g, dev.bytes, zones)|
    modifies dev, cache, buffer
    ensures var zones := old(Seen(cache.last, cache.data, dev.bytes, sb, inode).zones);
            var was := old(ReadView(sb.Geometry(), dev.bytes, zones));
            && offset + count <= |was|
            && buffer[..] == ReadResult(Overlay(was, offset, data[..count]), at, n, old(buffer[..]))
  {
    ghost var g, seen, d0 := sb.Geometry(), Seen(cache.last, cache.data, dev.bytes, sb, inode), dev.bytes;
    hide FileWritable, FileReadable, StartReadable, Dense, ReadResult, ReadView, WriteView, FileWritten;
    PutData(dev, cache, sb, inode, data, offset, count);
    ReadableAfterPut(g, Request(at, n), seen.zones, offset, data[..count], d0, dev.bytes);
    assert Seen(cache.last, cache.data, dev.bytes, sb, inode) == seen;
    GetData(dev, cache, sb, inode, buffer, at, n);
    ViewIsFile(dev.bytes, sb, seen);
  }

  lemma ViewIsFile(d: seq<byte>, sb: SuperBlock, n: Inode)
    requires n.Ok()
    ensures ReadView(sb.Geometry(), d, n.zones) == FileOf(d, sb, n)
  {
  }

  /** In a dense list only holes follow the zones that are kept. */
  lemma RestIsHoles(rs: seq<nat>, i: nat)
    requires Dense(rs) && |Keep(rs)| <= i < |rs|
    ensures rs[i] == 0 && rs[i] !in Keep(rs)
  {
    if 0 in rs {
      KeepFirstHole(rs);
    } else {
      KeepNonzero(rs);
    }
  }

  /** The record of the inode is not in a data zone of the file. */
  ghost predicate RecordApart(g: Geo, sb: SuperBlock, d: seq<byte>, inode: nat, zones: seq<nat>)
    requires |zones| == 10
  {
    inode != INVALID_INODE ==>
      forall a :: InodeOffset(sb, inode) <= a < InodeOffset(sb, inode) + INODE_SIZE
          ==> g.Outside(g.WriteZones(d, zones), a)
  }

  /** The same, for the file of an inode: the inode itself is unchanged, and later reads see the overlay. */
  lemma PutThenGetInode(sb: SuperBlock, inode: nat, offset: nat, payload: seq<byte>, d0: seq<byte>, d: seq<byte>)
    requires InodeOnDisk(sb, inode, |d0|) && |d| == |d0|
    requires var g, zones := sb.Geometry(), InodeAt(d0, sb, inode).zones;
             && FileWritable(g, d0, zones) && Dense(g.ReadZones(d0, zones)) && RecordApart(g, sb, d0, inode, zones)
             && offset + |payload| <= |WriteView(g, d0, zones)|
             && FileWritten(g, zones, offset, payload, d0, d)
    ensures InodeAt(d, sb, inode) == InodeAt(d0, sb, inode)
    ensures offset + |payload| <= |FileBytes(d0, sb, inode)|
    ensures FileBytes(d, sb, inode) == Overlay(FileBytes(d0, sb, inode), offset, payload)
  {
    var g, zones := sb.Geometry(), InodeAt(d0, sb, inode).zones;
    if inode != INVALID_INODE {
      var off := InodeOffset(sb, inode);
      assert d[off..off + INODE_SIZE] == d0[off..off + INODE_SIZE];
    }
    PutThenGet(g, zones, offset, payload, d0, d);
  }

  // ---------------------------------------------------------------- when density is missing

  /** Where, in bytes, zone `k` of a list begins. */
  function ZoneOffset(g: Geo, d: seq<byte>, vs: seq<nat>, k: nat): nat
    requires k <= |vs|
  {
    |g.Flat(d, vs[..k])|
  }

  lemma {:induction false} FlatLength(g: Geo, d: seq<byte>, e: seq<byte>, vs: seq<nat>, ws: seq<nat>)
    requires |vs| == |ws|
    ensures |g.Flat(d, vs)| == |g.Flat(e, ws)|
  {
    if vs != [] {
      FlatLength(g, d, e, vs[..|vs| - 1], ws[..|ws| - 1]);
    }
  }

  /** A one-byte write that a read of the same place gives back. */
  ghost predicate ReadsBack(g: Geo, zones: seq<nat>, d: seq<byte>, offset: nat, v: byte)
    requires |zones| == 10
  {
    offset < |ReadView(g, d, zones)| && ReadView(g, d, zones)[offset] == v
  }

  /** Storing one byte at the start of zone `k` is what a one-byte write there does. */
  lemma OneByteWrite(g: Geo, zones: seq<nat>, d0: seq<byte>, k: nat, v: byte) returns (d: seq<byte>)
    requires g.Ok() && |zones| == 10 && FileWritable(g, d0, zones) && k < |g.WriteZones(d0, zones)|
    ensures FileWritten(g, zones, ZoneOffset(g, d0, g.WriteZones(d0, zones), k), [v], d0, d)
  {
    var all := g.WriteZones(d0, zones);
    var vs, z := all[..k], all[k];
    assert g.Stored(z, |d0|) && Distinct(all);
    d := ByteStored(g, all, d0, k, v);
  }

  lemma ByteStored(g: Geo, all: seq<nat>, d0: seq<byte>, k: nat, v: byte) returns (d: seq<byte>)
    requires g.Ok() && k < |all| && Distinct(all) && g.AllStored(all, |d0|)
    ensures Written(g, |g.Flat(d0, all[..k])|, [v], d0, d, all, 1, |g.Flat(d0, all[..k])|, true)
  {
    var vs, z := all[..k], all[k];
    var f0, block := g.Flat(d0, vs), Overlay(g.ZoneBytes(d0, z), 0, [v]);
    d := Overlay(d0, g.Start(z), block);
    assert g.Stored(z, |d0|) && Min(1, g.size) == 1 && g.size >= 1;
    assert vs + [z] == all[..k + 1];
    FreshInPrefix(all, vs, z);
    hide *;
    StartsUnwritten(g, |f0|, [v], d0, vs);
    assert [v][0..0 + 1] == [v];
    NextWritten(g, |f0|, [v], d0, d0, d, vs, z, 0, |f0|, 1, 1, true);
    WrittenExtends(g, |f0|, [v], d0, d, vs + [z], all, all, 1, |f0|);
  }

  /** Before the range is reached nothing has been written. */
  lemma StartsUnwritten(g: Geo, offset: nat, payload: seq<byte>, d0: seq<byte>, vs: seq<nat>)
    requires offset == |g.Flat(d0, vs)|
    ensures Written(g, offset, payload, d0, d0, vs, 0, offset, payload == [])
  {
    assert WriteResult(g.Flat(d0, vs), offset, payload) == g.Flat(d0, vs);
  }

  /** What a read finds at a hole: the first byte of zone 0 where that is an accepted zone, and 0 otherwise. */
  lemma HoleByte(g: Geo, d: seq<byte>, rs: seq<nat>, k: nat)
    requires g.Ok() && k < |rs| && rs[k] == 0
    ensures |g.Flat(d, rs[..k])| < |g.Flat(d, rs)| && g.Flat(d, rs)[|g.Flat(d, rs[..k])|] == g.ZoneBytes(d, 0)[0]
  {
    FlatAt(g, d, rs, k);
    var at, z, f := |g.Flat(d, rs[..k])|, g.ZoneBytes(d, 0), g.Flat(d, rs);
    hide *;
    FirstOfSlice(f, at, g.size, z);
  }

  /** After any write, a read finds at hole `k` what zone 0 held before: the hole is no data zone. */
  lemma HoleStays(g: Geo, d0: seq<byte>, d: seq<byte>, all: seq<nat>, rs: seq<nat>, k: nat)
    requires g.Ok() && Frame(g, d0, d, all) && 0 !in all
    requires k < |all| && k < |rs| && rs[k] == 0
    ensures |g.Flat(d0, all[..k])| < |g.Flat(d, rs)|
    ensures g.Flat(d, rs)[|g.Flat(d0, all[..k])|] == g.ZoneBytes(d0, 0)[0]
  {
    assert g.size > 0;
    hide *;
    ZoneUnchanged(g, d0, d, all, 0);
    FlatLength(g, d0, d, all[..k], rs[..k]);
    HoleByte(g, d, rs, k);
  }

  /** A hole that a read finds where a write has a zone. */
  lemma FindHole(g: Geo, zones: seq<nat>, d0: seq<byte>) returns (k: nat)
    requires |zones| == 10 && !Dense(g.ReadZones(d0, zones))
    ensures k < |g.WriteZones(d0, zones)| && k < |g.ReadZones(d0, zones)| && g.ReadZones(d0, zones)[k] == 0
    ensures 0 !in g.WriteZones(d0, zones)
  {
    hide *;
    WriteZonesKeepReadZones(g, d0, zones);
    assert 0 !in Keep(g.ReadZones(d0, zones));
    k := HoleInKept(g.ReadZones(d0, zones));
  }

  lemma FrameOfWrite(g: Geo, zones: seq<nat>, offset: nat, payload: seq<byte>, d0: seq<byte>, d: seq<byte>)
    requires |zones| == 10 && FileWritten(g, zones, offset, payload, d0, d)
    ensures Frame(g, d0, d, g.WriteZones(d0, zones))
  {
  }

  /** Without density some one-byte write is not read back: the read finds the hole, which holds another
      byte before and after the write. */
  lemma HoleIsNotReadBack(g: Geo, zones: seq<nat>, d0: seq<byte>) returns (offset: nat, v: byte, d: seq<byte>)
    requires g.Ok() && |zones| == 10 && FileWritable(g, d0, zones)
    requires !Dense(g.ReadZones(d0, zones))
    ensures offset < |WriteView(g, d0, zones)|
    ensures FileWritten(g, zones, offset, [v], d0, d) && !ReadsBack(g, zones, d, offset, v)
  {
    var k := FindHole(g, zones, d0);
    var all, rs := g.WriteZones(d0, zones), g.ReadZones(d0, zones);
    offset, v := ZoneOffset(g, d0, all, k), OtherByte(g, d0);
    assert g.size > 0 && offset == |g.Flat(d0, all[..k])|;
    assert |WriteView(g, d0, zones)| == |g.Flat(d0, all)|;
    d := HoleWrite(g, zones, d0, k, v);
    assert ReadView(g, d, zones) == g.Flat(d, rs);
  }

  /** The write at hole `k`, and what a read finds there. */
  lemma HoleWrite(g: Geo, zones: seq<nat>, d0: seq<byte>, k: nat, v: byte) returns (d: seq<byte>)
    requires g.Ok() && |zones| == 10 && FileWritable(g, d0, zones) && 0 !in g.WriteZones(d0, zones)
    requires k < |g.WriteZones(d0, zones)| && k < |g.ReadZones(d0, zones)| && g.ReadZones(d0, zones)[k] == 0
    ensures var all, rs := g.WriteZones(d0, zones), g.ReadZones(d0, zones);
            var offset := |g.Flat(d0, all[..k])|;
            && offset + g.size <= |g.Flat(d0, all)| && offset < |g.Flat(d, rs)|
            && g.ReadZones(d, zones) == rs
            && FileWritten(g, zones, ZoneOffset(g, d0, all, k), [v], d0, d)
            && g.Flat(d, rs)[offset] == g.ZoneBytes(d0, 0)[0]
  {
    hide *;
    var all, rs := g.WriteZones(d0, zones), g.ReadZones(d0, zones);
    d := OneByteWrite(g, zones, d0, k, v);
    FlatAt(g, d0, all, k);
    FrameOfWrite(g, zones, ZoneOffset(g, d0, all, k), [v], d0, d);
    TreeUnchanged(g, zones, d0, d);
    HoleStays(g, d0, d, all, rs, k);
  }

  /** A byte that zone 0 does not begin with. */
  function OtherByte(g: Geo, d: seq<byte>): (v: byte)
    requires g.Ok()
    ensures v != g.ZoneBytes(d, 0)[0]
  {
    if g.ZoneBytes(d, 0)[0] == 1 then 2 else 1
  }

  lemma FirstOfSlice(s: seq<byte>, at: nat, n: nat, t: seq<byte>)
    requires at + n <= |s| && 0 < n && s[at..at + n] == t
    ensures s[at] == t[0]
  {
  }

  /** In a list that is not dense, a hole stands at a position that a kept zone takes. */
  lemma {:induction false} HoleInKept(rs: seq<nat>) returns (k: nat)
    requires !Dense(rs)
    ensures k < |Keep(rs)| && k < |rs| && rs[k] == 0
  {
    var t, e := rs[..|rs| - 1], rs[|rs| - 1];
    assert rs == t + [e];
    if !Dense(t) {
      k := HoleInKept(t);
    } else {
      assert e != 0 && 0 in t by {
        var i, j :| 0 <= i < j < |rs| && rs[i] == 0 && rs[j] != 0;
        assert j == |t| && t[i] == 0;
      }
      KeepFirstHole(t);
      k := |Keep(t)|;
    }
  }

  /** Every one-byte write inside the file is read back exactly when the file is dense. */
  lemma ReadBackIffDense(g: Geo, zones: seq<nat>, d0: seq<byte>)
    requires g.Ok() && |zones| == 10 && FileWritable(g, d0, zones)
    ensures (forall offset: nat, v: byte, d: seq<byte> ::
               offset < |WriteView(g, d0, zones)| && FileWritten(g, zones, offset, [v], d0, d)
               ==> ReadsBack(g, zones, d, offset, v))
       <==> Dense(g.ReadZones(d0, zones))
  {
    if Dense(g.ReadZones(d0, zones)) {
      forall offset: nat, v: byte, d: seq<byte> |
        offset < |WriteView(g, d0, zones)| && FileWritten(g, zones, offset, [v], d0, d)
        ensures ReadsBack(g, zones, d, offset, v)
      {
        PutThenGet(g, zones, offset, [v], d0, d);
      }
    } else {
      var offset, v, d := HoleIsNotReadBack(g, zones, d0);
    }
  }

  /** A small file that is not dense: one indirect block, whose first entry is a hole and whose second is zone 2. */
  lemma FileWithHole() returns (g: Geo, zones: seq<nat>, d: seq<byte>)
    ensures g.Ok() && DiskOk(d) && |zones| == 10 && FileWritable(g, d, zones)
    ensures !Dense(g.ReadZones(d, zones)) && WriteView(g, d, zones) == Zeros(1024)
  {
    g, zones := Geo(1024, 1, 3), [0, 0, 0, 0, 0, 0, 0, 1, 0, 0];
    d := Zeros(4096)[1028 := 2];
    EntriesOfSmall(g, d);
    KeepOne(g.Entries(d, 1), 1);
    KeepNone(zones[..7]);
    SmallStarts(g);
    ZonesOfSmall(g, zones, d);
    DataOfSmall(g, d);
  }

  lemma ZonesOfSmall(g: Geo, zones: seq<nat>, d: seq<byte>)
    requires g == Geo(1024, 1, 3) && zones == [0, 0, 0, 0, 0, 0, 0, 1, 0, 0] && |d| == 4096
    requires g.Start(1) == 1024 && g.Start(2) == 2048 && Keep(zones[..7]) == []
    requires var es := g.Entries(d, 1); |es| == 256 && es[0] == 0 && es[1] == 2 && Keep(es) == [2]
    ensures g.WriteZones(d, zones) == [2] && FileWritable(g, d, zones) && !Dense(g.ReadZones(d, zones))
  {
    hide Keep, Geo.Start, Geo.Entries;
    assert g.WriteZones(d, zones) == [2];
    assert g.ReadZones(d, zones) == g.Entries(d, 1);
  }

  lemma DataOfSmall(g: Geo, d: seq<byte>)
    requires g == Geo(1024, 1, 3) && d == Zeros(4096)[1028 := 2]
    ensures g.Flat(d, [2]) == Zeros(1024)
  {
    SmallStarts(g);
    FlatOne(g, d, 2);
    assert g.Block(d, 2) == Zeros(1024);
  }

  function Zeros(n: nat): (r: seq<byte>)
    ensures |r| == n && forall i :: 0 <= i < n ==> r[i] == 0
  {
    seq(n, _ => 0)
  }

  lemma SmallStarts(g: Geo)
    requires g.size == 1024
    ensures g.Start(0) == 0 && g.Start(1) == 1024 && g.Start(2) == 2048
  {
    assert g.Start(1) == g.Start(0) + g.size;
  }

  lemma EntriesOfSmall(g: Geo, d: seq<byte>)
    requires g == Geo(1024, 1, 3) && d == Zeros(4096)[1028 := 2]
    ensures var es := g.Entries(d, 1); |es| == 256 && forall i :: 0 <= i < 256 ==> es[i] == if i == 1 then 2 else 0
  {
    SmallStarts(g);
    var b := g.Block(d, 1);
    forall j | 0 <= j < 1024 ensures b[j] == if j == 4 then 2 else 0 {
      assert b[j] == d[1024 + j];
    }
  }

  lemma {:induction false} KeepOne(s: seq<nat>, k: nat)
    requires k < |s| && s[k] != 0 && forall i :: 0 <= i < |s| && i != k ==> s[i] == 0
    ensures Keep(s) == [s[k]]
  {
    var t := s[..|s| - 1];
    if k < |t| {
      KeepOne(t, k);
    } else {
      KeepNone(t);
    }
  }

  lemma {:induction false} KeepNone(s: seq<nat>)
    requires forall i :: 0 <= i < |s| ==> s[i] == 0
    ensures Keep(s) == []
  {
    if s != [] {
      KeepNone(s[..|s| - 1]);
    }
  }
}
