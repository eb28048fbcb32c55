/** minix3_put_data of src/minix3.c: the same walk as a read, writing back the zones the range touches.
    It must change the range of the flat file, and nothing else on the disk.
  */
module MinixWrite {
  import opened Sequences
  import opened BlockIo
  import opened MinixLayout
  import opened MinixMap
  import opened MinixZone
  import opened MinixInode
  import opened MinixRead

  /** The flat file after a write: as much of the data as there is room for. */
  function WriteResult(f: seq<byte>, offset: nat, payload: seq<byte>): (w: seq<byte>)
    ensures |w| == |f|
  {
    if |f| < offset then f else Overlay(f, offset, payload[..Available(|f|, offset, |payload|)])
  }

  ghost predicate Distinct(vs: seq<nat>) {
    forall i, j :: 0 <= i < j < |vs| ==> vs[i] != vs[j]
  }

  /** Nothing outside the zones has changed. */
  ghost predicate Frame(g: Geo, d0: seq<byte>, d: seq<byte>, vs: seq<nat>) {
    |d| == |d0| && forall a :: 0 <= a < |d| && g.Outside(vs, a) ==> d[a] == d0[a]
  }

  /** The state of the walk after the zones `vs`: on disk `d0` the call began, on disk `d` it is now. */
  ghost predicate Written(g: Geo, offset: nat, payload: seq<byte>, d0: seq<byte>, d: seq<byte>, vs: seq<nat>,
                          bc: nat, fc: nat, done: bool) {
    var f0 := g.Flat(d0, vs);
    && Frame(g, d0, d, vs)
    && g.Flat(d, vs) == WriteResult(f0, offset, payload)
    && if done then offset + |payload| <= |f0|
       else && bc == Available(|f0|, offset, |payload|)
            && if |f0| < offset then fc == |f0| else offset <= fc <= offset + |payload|
  }

  // ---------------------------------------------------------------- one zone

  lemma ZoneUnchanged(g: Geo, d0: seq<byte>, d: seq<byte>, vs: seq<nat>, z: nat)
    requires Frame(g, d0, d, vs) && z !in vs
    ensures g.ZoneBytes(d, z) == g.ZoneBytes(d0, z)
    ensures g.Entries(d, z) == g.Entries(d0, z)
  {
    if g.Stored(z, |d|) {
      forall a | g.Start(z) <= a < g.Start(z) + g.size ensures d[a] == d0[a] {
        g.OtherZone(vs, z, a);
      }
      assert g.Block(d, z) == g.Block(d0, z);
    }
  }

  /** Storing a zone that is not among `vs` gives the zones `vs + [z]` the bytes it is given. */
  lemma PutOne(g: Geo, d0: seq<byte>, d: seq<byte>, vs: seq<nat>, z: nat, block: seq<byte>)
    requires Frame(g, d0, d, vs) && z !in vs && g.Stored(z, |d|) && |block| == g.size
    ensures var e := Overlay(d, g.Start(z), block);
            Frame(g, d0, e, vs + [z]) && g.Flat(e, vs + [z]) == g.Flat(d, vs) + block
  {
    var e := Overlay(d, g.Start(z), block);
    forall i | 0 <= i < |vs| ensures g.ZoneBytes(d, vs[i]) == g.ZoneBytes(e, vs[i]) {
      OtherBlock(g, d, z, block, vs[i]);
    }
    g.FlatSame(d, e, vs);
    g.FlatSnoc(e, vs, z);
    assert g.ZoneBytes(e, z) == block;
    forall a | 0 <= a < |e| && g.Outside(vs + [z], a) ensures e[a] == d0[a] {
      assert (vs + [z])[|vs|] == z;
      assert forall i :: 0 <= i < |vs| ==> vs[i] == (vs + [z])[i];
      assert g.Outside(vs, a);
    }
  }

  lemma OtherBlock(g: Geo, d: seq<byte>, z: nat, block: seq<byte>, y: nat)
    requires y != z && g.Stored(z, |d|) && |block| == g.size
    ensures g.ZoneBytes(Overlay(d, g.Start(z), block), y) == g.ZoneBytes(d, y)
  {
    if y < z { g.StartOrder(y, z); } else { g.StartOrder(z, y); }
    if g.Stored(y, |d|) {
      assert g.Block(Overlay(d, g.Start(z), block), y) == g.Block(d, y);
    }
  }

  // ---------------------------------------------------------------- the branches of one step

  lemma WriteSkips(f: seq<byte>, z: seq<byte>, offset: nat, payload: seq<byte>)
    requires |f| + |z| < offset
    ensures WriteResult(f + z, offset, payload) == WriteResult(f, offset, payload) + z
  {
  }

  lemma WriteFirst(f: seq<byte>, z: seq<byte>, offset: nat, payload: seq<byte>)
    requires |f| < offset <= |f| + |z|
    ensures var skip := offset - |f|;
            var n := Min(|payload|, |z| - skip);
            && n == Available(|f + z|, offset, |payload|)
            && WriteResult(f + z, offset, payload) == WriteResult(f, offset, payload) + Overlay(z, skip, payload[..n])
  {
    var skip := offset - |f|;
    var n := Min(|payload|, |z| - skip);
    var l, r := WriteResult(f + z, offset, payload), WriteResult(f, offset, payload) + Overlay(z, skip, payload[..n]);
    assert WriteResult(f, offset, payload) == f;
    assert |l| == |r|;
    forall i | 0 <= i < |l| ensures l[i] == r[i] {
      if i < |f| {
        assert l[i] == (f + z)[i];
      } else {
        assert r[i] == Overlay(z, skip, payload[..n])[i - |f|];
      }
    }
  }

  lemma WriteNext(f: seq<byte>, z: seq<byte>, offset: nat, payload: seq<byte>, n: nat)
    requires offset <= |f| && n <= |z|
    requires var bc := Available(|f|, offset, |payload|); n == Min(|payload| - bc, |z|) && (bc < |payload| ==> 0 < |z|)
    ensures var bc := Available(|f|, offset, |payload|);
            && bc + n == Available(|f + z|, offset, |payload|)
            && WriteResult(f + z, offset, payload)
               == WriteResult(f, offset, payload) + Overlay(z, 0, payload[bc..bc + n])
  {
    var bc := Available(|f|, offset, |payload|);
    var l := WriteResult(f + z, offset, payload);
    var r := WriteResult(f, offset, payload) + Overlay(z, 0, payload[bc..bc + n]);
    assert |l| == |r|;
    forall i | 0 <= i < |l| ensures l[i] == r[i] {
    }
  }

  // ---------------------------------------------------------------- the walk

  /** What the caller of any part of the walk provides: `all` are the zones the whole walk visits. */
  ghost predicate Setup(dev: BlockDevice, g: Geo, r: Request, data: array<byte>, zoneData: array<byte>,
                        d0: seq<byte>, all: seq<nat>, payload: seq<byte>)
    reads dev, data
  {
    && g.Ok() && DiskOk(d0) && |dev.bytes| == |d0| && r.Ok(g)
    && data != zoneData && zoneData.Length == g.size && r.count <= data.Length && payload == data[..r.count]
    && g.AllStored(all, |d0|) && Distinct(all)
  }

  /** The zone in which the range starts, unless it starts on the zone's boundary. */
  method WriteFirstZone(dev: BlockDevice, g: Geo, r: Request, zone: nat, data: array<byte>, zoneData: array<byte>,
                        fileCursor: nat)
    returns (remaining: nat)
    requires g.Ok() && DiskOk(dev.bytes) && g.Stored(zone, |dev.bytes|)
    requires data != zoneData && zoneData.Length == g.size && r.count <= data.Length
    requires fileCursor < r.offset <= fileCursor + g.size
    modifies dev, zoneData
    ensures var skip := r.offset - fileCursor;
            && remaining == Min(r.count, g.size - skip)
            && dev.bytes == Overlay(old(dev.bytes), g.Start(zone),
                                    Overlay(g.ZoneBytes(old(dev.bytes), zone), skip, data[..remaining]))
  {
    GetZone(dev, g, zone, zoneData);
    remaining := Min(r.count, g.size - (r.offset - fileCursor));
    CopyBytes(zoneData, r.offset - fileCursor, data, 0, remaining);
    PutZone(dev, g, zone, zoneData);
  }

  /** The last zone of the range keeps its tail. */
  method WriteLastZone(dev: BlockDevice, g: Geo, zone: nat, data: array<byte>, zoneData: array<byte>, at: nat, n: nat)
    requires g.Ok() && DiskOk(dev.bytes) && g.Stored(zone, |dev.bytes|)
    requires data != zoneData && zoneData.Length == g.size && at + n <= data.Length && n < g.size
    modifies dev, zoneData
    ensures dev.bytes == Overlay(old(dev.bytes), g.Start(zone),
                                 Overlay(g.ZoneBytes(old(dev.bytes), zone), 0, data[at..at + n]))
  {
    GetZone(dev, g, zone, zoneData);
    CopyBytes(zoneData, 0, data, at, n);
    PutZone(dev, g, zone, zoneData);
  }

  /** A zone in the middle of the range is replaced. */
  method WriteWholeZone(dev: BlockDevice, g: Geo, zone: nat, data: array<byte>, zoneData: array<byte>, at: nat)
    requires g.Ok() && DiskOk(dev.bytes) && g.Stored(zone, |dev.bytes|)
    requires data != zoneData && zoneData.Length == g.size && at + g.size <= data.Length
    modifies dev, zoneData
    ensures dev.bytes == Overlay(old(dev.bytes), g.Start(zone),
                                 Overlay(g.ZoneBytes(old(dev.bytes), zone), 0, data[at..at + g.size]))
  {
    CopyBytes(zoneData, 0, data, at, g.size);
    assert zoneData[..] == Overlay(g.ZoneBytes(dev.bytes, zone), 0, data[at..at + g.size]);
    PutZone(dev, g, zone, zoneData);
  }

  /** One more zone: what it held is `z`, what it holds now is `block`. */
  lemma WrittenSnoc(g: Geo, offset: nat, payload: seq<byte>, d0: seq<byte>, d: seq<byte>, vs: seq<nat>, zone: nat,
                    block: seq<byte>, bc: nat, fc: nat, done: bool)
    requires g.Stored(zone, |d0|) && zone !in vs && |block| == g.size
    requires Frame(g, d0, d, vs) && g.Flat(d, vs) == WriteResult(g.Flat(d0, vs), offset, payload)
    requires var f, z := g.Flat(d0, vs), g.ZoneBytes(d0, zone);
             && WriteResult(f + z, offset, payload) == WriteResult(f, offset, payload) + block
             && if done then offset + |payload| <= |f + z|
                else && bc == Available(|f + z|, offset, |payload|)
                     && if |f + z| < offset then fc == |f + z| else offset <= fc <= offset + |payload|
    ensures Written(g, offset, payload, d0, Overlay(d, g.Start(zone), block), vs + [zone], bc, fc, done)
  {
    g.FlatSnoc(d0, vs, zone);
    PutOne(g, d0, d, vs, zone, block);
  }

  lemma SkipWritten(g: Geo, offset: nat, payload: seq<byte>, d0: seq<byte>, d: seq<byte>, vs: seq<nat>, zone: nat,
                    bc: nat, fc: nat)
    requires g.Stored(zone, |d0|) && zone !in vs && Written(g, offset, payload, d0, d, vs, bc, fc, false)
    requires fc + g.size < offset
    ensures Written(g, offset, payload, d0, d, vs + [zone], bc, fc + g.size, false)
  {
    var f0, z := g.Flat(d0, vs), g.ZoneBytes(d0, zone);
    ZoneUnchanged(g, d0, d, vs, zone);
    WriteSkips(f0, z, offset, payload);
    WrittenSnoc(g, offset, payload, d0, d, vs, zone, z, bc, fc + g.size, false);
    assert Overlay(d, g.Start(zone), z) == d;
  }

  lemma FirstWritten(g: Geo, offset: nat, payload: seq<byte>, d0: seq<byte>, d: seq<byte>, e: seq<byte>,
                     vs: seq<nat>, zone: nat, bc: nat, fc: nat, n: nat)
    requires g.Stored(zone, |d0|) && zone !in vs && Written(g, offset, payload, d0, d, vs, bc, fc, false)
    requires fc < offset <= fc + g.size && n == Min(|payload|, g.size - (offset - fc))
    requires e == Overlay(d, g.Start(zone), Overlay(g.ZoneBytes(d, zone), offset - fc, payload[..n]))
    ensures bc == 0
    ensures Written(g, offset, payload, d0, e, vs + [zone], n, offset + n, n >= |payload|)
  {
    var f0, z := g.Flat(d0, vs), g.ZoneBytes(d0, zone);
    ZoneUnchanged(g, d0, d, vs, zone);
    WriteFirst(f0, z, offset, payload);
    WrittenSnoc(g, offset, payload, d0, d, vs, zone, Overlay(z, offset - fc, payload[..n]), n, offset + n,
        n >= |payload|);
  }

  lemma NextWritten(g: Geo, offset: nat, payload: seq<byte>, d0: seq<byte>, d: seq<byte>, e: seq<byte>, vs: seq<nat>,
                    zone: nat, bc: nat, fc: nat, n: nat, bc': nat, done: bool)
    requires g.Ok() && g.Stored(zone, |d0|) && zone !in vs && Written(g, offset, payload, d0, d, vs, bc, fc, false)
    requires offset <= fc && n == Min(|payload| - bc, g.size)
    requires e == Overlay(d, g.Start(zone), Overlay(g.ZoneBytes(d, zone), 0, payload[bc..bc + n]))
    requires if done then bc + n == |payload| else bc' == bc + n
    ensures Written(g, offset, payload, d0, e, vs + [zone], bc', fc, done)
  {
    var f0, z := g.Flat(d0, vs), g.ZoneBytes(d0, zone);
    ZoneUnchanged(g, d0, d, vs, zone);
    WriteNext(f0, z, offset, payload, n);
    WrittenSnoc(g, offset, payload, d0, d, vs, zone, Overlay(z, 0, payload[bc..bc + n]), bc', fc, done);
  }

  /** The step for the zone in which the range starts. */
  method FirstStep(dev: BlockDevice, g: Geo, r: Request, zone: nat, data: array<byte>, zoneData: array<byte>,
                   bufferCursor: nat, fileCursor: nat, ghost vs: seq<nat>,
                   ghost d0: seq<byte>, ghost all: seq<nat>, ghost payload: seq<byte>)
    returns (bc: nat, fc: nat, done: bool)
    requires Setup(dev, g, r, data, zoneData, d0, all, payload)
    requires g.Stored(zone, |d0|) && zone !in vs
    requires Written(g, r.offset, payload, d0, dev.bytes, vs, bufferCursor, fileCursor, false)
    requires fileCursor < r.offset <= fileCursor + g.size
    modifies dev, zoneData
    ensures Written(g, r.offset, payload, d0, dev.bytes, vs + [zone], bc, fc, done)
  {
    ghost var d := dev.bytes;
    ZoneUnchanged(g, d0, d, vs, zone);
    var remaining := WriteFirstZone(dev, g, r, zone, data, zoneData, fileCursor);
    assert data[..remaining] == payload[..remaining];
    FirstWritten(g, r.offset, payload, d0, d, dev.bytes, vs, zone, bufferCursor, fileCursor, remaining);
    bc := bufferCursor + remaining;
    fc := r.offset + remaining;
    done := bc >= r.count;
  }

  /** The step for the last zone of the range. */
  method LastStep(dev: BlockDevice, g: Geo, r: Request, zone: nat, data: array<byte>, zoneData: array<byte>,
                  bc: nat, fc: nat, ghost vs: seq<nat>, ghost d0: seq<byte>, ghost all: seq<nat>,
                  ghost payload: seq<byte>)
    requires Setup(dev, g, r, data, zoneData, d0, all, payload)
    requires g.Stored(zone, |d0|) && zone !in vs
    requires Written(g, r.offset, payload, d0, dev.bytes, vs, bc, fc, false)
    requires r.offset <= fc && bc + g.size > r.count
    modifies dev, zoneData
    ensures Written(g, r.offset, payload, d0, dev.bytes, vs + [zone], bc, fc, true)
  {
    ghost var d, n := dev.bytes, Min(r.count - bc, g.size);
    assert data[bc..bc + n] == payload[bc..bc + n];
    WriteLastZone(dev, g, zone, data, zoneData, bc, r.count - bc);
    NextWritten(g, r.offset, payload, d0, d, dev.bytes, vs, zone, bc, fc, n, bc, true);
  }

  /** The step for a zone in the middle of the range. */
  method WholeStep(dev: BlockDevice, g: Geo, r: Request, zone: nat, data: array<byte>, zoneData: array<byte>,
                  bc: nat, fc: nat, ghost vs: seq<nat>, ghost d0: seq<byte>, ghost all: seq<nat>,
                  ghost payload: seq<byte>)
    requires Setup(dev, g, r, data, zoneData, d0, all, payload)
    requires g.Stored(zone, |d0|) && zone !in vs
    requires Written(g, r.offset, payload, d0, dev.bytes, vs, bc, fc, false)
    requires r.offset <= fc && bc + g.size <= r.count
    modifies dev, zoneData
    ensures Written(g, r.offset, payload, d0, dev.bytes, vs + [zone], bc + g.size, fc, false)
  {
    ghost var d, n := dev.bytes, Min(r.count - bc, g.size);
    assert data[bc..bc + n] == payload[bc..bc + n];
    WriteWholeZone(dev, g, zone, data, zoneData, bc);
    NextWritten(g, r.offset, payload, d0, d, dev.bytes, vs, zone, bc, fc, n, bc + g.size, false);
  }

  /** The code for one zone of the walk. */
  method WriteZone(dev: BlockDevice, g: Geo, r: Request, zone: nat, data: array<byte>, zoneData: array<byte>,
                   bufferCursor: nat, fileCursor: nat, ghost vs: seq<nat>,
                   ghost d0: seq<byte>, ghost all: seq<nat>, ghost payload: seq<byte>)
    returns (bc: nat, fc: nat, done: bool)
    requires Setup(dev, g, r, data, zoneData, d0, all, payload)
    requires g.Stored(zone, |d0|) && zone !in vs
    requires Written(g, r.offset, payload, d0, dev.bytes, vs, bufferCursor, fileCursor, false)
    modifies dev, zoneData
    ensures Setup(dev, g, r, data, zoneData, d0, all, payload)
    ensures Written(g, r.offset, payload, d0, dev.bytes, vs + [zone], bc, fc, done)
  {
    bc, fc, done := bufferCursor, fileCursor, false;
    if Add32(fileCursor, g.size) < r.offset {
      SkipWritten(g, r.offset, payload, d0, dev.bytes, vs, zone, bc, fc);
      fc := Add32(fc, g.size);
    } else if fileCursor < r.offset {
      bc, fc, done := FirstStep(dev, g, r, zone, data, zoneData, bufferCursor, fileCursor, vs, d0, all, payload);
    } else {
      Clear(zoneData);
      if Add32(bc, g.size) > r.count {
        LastStep(dev, g, r, zone, data, zoneData, bc, fc, vs, d0, all, payload);
        done := true;
      } else {
        WholeStep(dev, g, r, zone, data, zoneData, bc, fc, vs, d0, all, payload);
        bc := bc + g.size;
      }
    }
  }

  /** A walk that is done stays done when more zones follow. */
  lemma WrittenExtends(g: Geo, offset: nat, payload: seq<byte>, d0: seq<byte>, d: seq<byte>, vs: seq<nat>, ws: seq<nat>,
                       all: seq<nat>, bc: nat, fc: nat)
    requires vs <= ws <= all && Distinct(all) && Written(g, offset, payload, d0, d, vs, bc, fc, true)
    ensures Written(g, offset, payload, d0, d, ws, bc, fc, true)
  {
    var rest := ws[|vs|..];
    assert ws == vs + rest;
    g.FlatAppend(d0, vs, rest);
    g.FlatAppend(d, vs, rest);
    forall i | 0 <= i < |rest| ensures g.ZoneBytes(d, rest[i]) == g.ZoneBytes(d0, rest[i]) {
      assert rest[i] == all[|vs| + i];
      ZoneUnchanged(g, d0, d, vs, rest[i]);
    }
    g.FlatSame(d, d0, rest);
    WriteInside(g.Flat(d0, vs), g.Flat(d0, rest), offset, payload);
    assert forall a :: 0 <= a < |d| && g.Outside(ws, a) ==> g.Outside(vs, a);
  }

  lemma WriteInside(f: seq<byte>, rest: seq<byte>, offset: nat, payload: seq<byte>)
    requires offset + |payload| <= |f|
    ensures WriteResult(f + rest, offset, payload) == WriteResult(f, offset, payload) + rest
  {
    var l, r := WriteResult(f + rest, offset, payload), WriteResult(f, offset, payload) + rest;
    assert |l| == |r|;
    forall i | 0 <= i < |l| ensures l[i] == r[i] {
      if i < |f| {
        assert r[i] == WriteResult(f, offset, payload)[i];
      } else {
        assert l[i] == (f + rest)[i] == rest[i - |f|];
      }
    }
  }

  lemma FreshInPrefix(all: seq<nat>, seen: seq<nat>, zone: nat)
    requires Distinct(all) && seen + [zone] <= all
    ensures zone !in seen && zone == all[|seen|]
  {
    assert (seen + [zone])[|seen|] == zone;
    forall j | 0 <= j < |seen| ensures seen[j] != zone {
      assert seen[j] == (seen + [zone])[j] == all[j];
    }
  }

  /** Reads an indirect block that the walk does not write. */
  method LoadSame(dev: BlockDevice, g: Geo, r: Request, block: nat, data: array<byte>, zoneData: array<byte>,
                  ghost bc: nat, ghost fc: nat, ghost vs: seq<nat>, ghost d0: seq<byte>, ghost all: seq<nat>,
                  ghost payload: seq<byte>)
    returns (words: array<nat>)
    requires Setup(dev, g, r, data, zoneData, d0, all, payload)
    requires g.Stored(block, |d0|) && block !in all && vs <= all
    requires Written(g, r.offset, payload, d0, dev.bytes, vs, bc, fc, false)
    ensures fresh(words) && words[..] == g.Entries(d0, block) && words.Length == g.size / 4
  {
    ZoneUnchanged(g, d0, dev.bytes, vs, block);
    words := LoadEntries(dev, g, block);
  }

  /** One zone below an indirect block. */
  method WriteIndirectEntry(dev: BlockDevice, g: Geo, r: Request, ghost es: seq<nat>, ghost i: nat, zone: nat,
                            data: array<byte>, zoneData: array<byte>, bufferCursor: nat, fileCursor: nat,
                            ghost vs: seq<nat>, ghost d0: seq<byte>, ghost all: seq<nat>, ghost payload: seq<byte>)
    returns (bc: nat, fc: nat, done: bool)
    requires Setup(dev, g, r, data, zoneData, d0, all, payload)
    requires i < |es| && es[i] == zone != 0 && vs + Keep(es) <= all
    requires Written(g, r.offset, payload, d0, dev.bytes, vs + Keep(es[..i]), bufferCursor, fileCursor, false)
    modifies dev, zoneData
    ensures Setup(dev, g, r, data, zoneData, d0, all, payload)
    ensures Written(g, r.offset, payload, d0, dev.bytes, vs + Keep(if done then es else es[..i + 1]), bc, fc, done)
  {
    ghost var seen, next, end := vs + Keep(es[..i]), vs + Keep(es[..i + 1]), vs + Keep(es);
    ChosenStep(vs, es, false, i);
    assert next == seen + [zone] && next <= end;
    FreshInPrefix(all, seen, zone);
    hide *;
    bc, fc, done := WriteZone(dev, g, r, zone, data, zoneData, bufferCursor, fileCursor, seen, d0, all, payload);
    if done {
      WrittenExtends(g, r.offset, payload, d0, dev.bytes, next, end, all, bc, fc);
    }
  }

  /** The loop over one indirect block. */
  method WriteIndirect(dev: BlockDevice, g: Geo, r: Request, block: nat, data: array<byte>, zoneData: array<byte>,
                       bufferCursor: nat, fileCursor: nat,
                       ghost vs: seq<nat>, ghost d0: seq<byte>, ghost all: seq<nat>, ghost payload: seq<byte>)
    returns (bc: nat, fc: nat, done: bool)
    requires Setup(dev, g, r, data, zoneData, d0, all, payload)
    requires g.Stored(block, |d0|) && block !in all && vs + g.Leaves(d0, block) <= all
    requires Written(g, r.offset, payload, d0, dev.bytes, vs, bufferCursor, fileCursor, false)
    modifies dev, zoneData
    ensures Setup(dev, g, r, data, zoneData, d0, all, payload)
    ensures Written(g, r.offset, payload, d0, dev.bytes, vs + g.Leaves(d0, block), bc, fc, done)
  {
    hide *;
    g.LeavesAre(d0, block);
    assert vs <= vs + g.Leaves(d0, block) <= all;
    var words := LoadSame(dev, g, r, block, data, zoneData, bufferCursor, fileCursor, vs, d0, all, payload);
    ghost var es := words[..];
    bc, fc, done := bufferCursor, fileCursor, false;
    var i := 0;
    assert es[..0] == [] && vs + [] == vs;
    while i < g.size / 4 && !done
      invariant 0 <= i <= words.Length && words[..] == es
      invariant Setup(dev, g, r, data, zoneData, d0, all, payload)
      invariant Written(g, r.offset, payload, d0, dev.bytes, vs + Keep(if done then es else es[..i]), bc, fc, done)
    {
      var zone := words[i];
      if zone != 0 {
        bc, fc, done := WriteIndirectEntry(dev, g, r, es, i, zone, data, zoneData, bc, fc, vs, d0, all, payload);
      } else {
        assert es[..i + 1] == es[..i] + [zone];
        KeepSnoc(es[..i], zone);
      }
      i := i + 1;
    }
    assert es[..|es|] == es;
    assert Written(g, r.offset, payload, d0, dev.bytes, vs + g.Leaves(d0, block), bc, fc, done);
  }

  /** What a write asks of the indirect blocks `es`: they are on the disk and none of them is a data zone. */
  ghost predicate Writable2(g: Geo, d0: seq<byte>, es: seq<nat>, all: seq<nat>) {
    forall i :: 0 <= i < |es| && es[i] != 0 ==> g.Stored(es[i], |d0|) && es[i] !in all
  }

  ghost predicate Writable3(g: Geo, d0: seq<byte>, es: seq<nat>, all: seq<nat>) {
    && Writable2(g, d0, es, all)
    && forall i :: 0 <= i < |es| && es[i] != 0 ==> Writable2(g, d0, g.Entries(d0, es[i]), all)
  }

  /** One indirect block below a double indirect block. */
  method WriteDoubleEntry(dev: BlockDevice, g: Geo, r: Request, ghost es: seq<nat>, ghost i: nat, entry: nat,
                     data: array<byte>, zoneData: array<byte>, bufferCursor: nat, fileCursor: nat,
                     ghost vs: seq<nat>, ghost d0: seq<byte>, ghost all: seq<nat>, ghost payload: seq<byte>)
    returns (bc: nat, fc: nat, done: bool)
    requires Setup(dev, g, r, data, zoneData, d0, all, payload)
    requires i < |es| && es[i] == entry != 0 && vs + g.Leaves2(d0, es) <= all && Writable2(g, d0, es, all)
    requires Written(g, r.offset, payload, d0, dev.bytes, vs + g.Leaves2(d0, es[..i]), bufferCursor, fileCursor, false)
    modifies dev, zoneData
    ensures Setup(dev, g, r, data, zoneData, d0, all, payload)
    ensures Written(g, r.offset, payload, d0, dev.bytes, vs + g.Leaves2(d0, if done then es else es[..i + 1]), bc,
            fc, done)
  {
    ghost var seen, next, end := vs + g.Leaves2(d0, es[..i]), vs + g.Leaves2(d0, es[..i + 1]), vs + g.Leaves2(d0, es);
    Leaves2Step(g, d0, vs, es, i);
    hide *;
    bc, fc, done := WriteIndirect(dev, g, r, entry, data, zoneData, bufferCursor, fileCursor, seen, d0, all, payload);
    if done {
      WrittenExtends(g, r.offset, payload, d0, dev.bytes, next, end, all, bc, fc);
    }
  }

  /** The two loops below a double indirect block. */
  method WriteDouble(dev: BlockDevice, g: Geo, r: Request, block: nat, data: array<byte>, zoneData: array<byte>,
                     bufferCursor: nat, fileCursor: nat,
                     ghost vs: seq<nat>, ghost d0: seq<byte>, ghost all: seq<nat>, ghost payload: seq<byte>)
    returns (bc: nat, fc: nat, done: bool)
    requires Setup(dev, g, r, data, zoneData, d0, all, payload)
    requires g.Stored(block, |d0|) && block !in all && Writable2(g, d0, g.Entries(d0, block), all)
    requires vs + g.Leaves2(d0, g.Entries(d0, block)) <= all
    requires Written(g, r.offset, payload, d0, dev.bytes, vs, bufferCursor, fileCursor, false)
    modifies dev, zoneData
    ensures Setup(dev, g, r, data, zoneData, d0, all, payload)
    ensures Written(g, r.offset, payload, d0, dev.bytes, vs + g.Leaves2(d0, g.Entries(d0, block)), bc, fc, done)
  {
    hide *;
    var words := LoadSame(dev, g, r, block, data, zoneData, bufferCursor, fileCursor, vs, d0, all, payload);
    ghost var es := words[..];
    bc, fc, done := bufferCursor, fileCursor, false;
    var i := 0;
    g.LeavesOfNone(d0);
    assert es[..0] == [] && vs + [] == vs;
    while i < g.size / 4 && !done
      invariant 0 <= i <= words.Length && words[..] == es
      invariant Setup(dev, g, r, data, zoneData, d0, all, payload)
      invariant Written(g, r.offset, payload, d0, dev.bytes, vs + g.Leaves2(d0, if done then es else es[..i]), bc,
                fc, done)
    {
      var indirectZone := words[i];
      if indirectZone != 0 {
        bc, fc, done := WriteDoubleEntry(dev, g, r, es, i, indirectZone, data, zoneData, bc, fc, vs, d0, all, payload);
      } else {
        g.Leaves2Snoc(d0, es, i);
      }
      i := i + 1;
    }
    assert es[..|es|] == es;
  }

  /** One double indirect block below a triple indirect block. */
  method WriteTripleEntry(dev: BlockDevice, g: Geo, r: Request, ghost es: seq<nat>, ghost i: nat, entry: nat,
                     data: array<byte>, zoneData: array<byte>, bufferCursor: nat, fileCursor: nat,
                     ghost vs: seq<nat>, ghost d0: seq<byte>, ghost all: seq<nat>, ghost payload: seq<byte>)
    returns (bc: nat, fc: nat, done: bool)
    requires Setup(dev, g, r, data, zoneData, d0, all, payload)
    requires i < |es| && es[i] == entry != 0 && vs + g.Leaves3(d0, es) <= all && Writable3(g, d0, es, all)
    requires Written(g, r.offset, payload, d0, dev.bytes, vs + g.Leaves3(d0, es[..i]), bufferCursor, fileCursor, false)
    modifies dev, zoneData
    ensures Setup(dev, g, r, data, zoneData, d0, all, payload)
    ensures Written(g, r.offset, payload, d0, dev.bytes, vs + g.Leaves3(d0, if done then es else es[..i + 1]), bc,
            fc, done)
  {
    ghost var seen, next, end := vs + g.Leaves3(d0, es[..i]), vs + g.Leaves3(d0, es[..i + 1]), vs + g.Leaves3(d0, es);
    Leaves3Step(g, d0, vs, es, i);
    hide *;
    bc, fc, done := WriteDouble(dev, g, r, entry, data, zoneData, bufferCursor, fileCursor, seen, d0, all, payload);
    if done {
      WrittenExtends(g, r.offset, payload, d0, dev.bytes, next, end, all, bc, fc);
    }
  }

  /** The three loops below a triple indirect block. */
  method WriteTriple(dev: BlockDevice, g: Geo, r: Request, block: nat, data: array<byte>, zoneData: array<byte>,
                     bufferCursor: nat, fileCursor: nat,
                     ghost vs: seq<nat>, ghost d0: seq<byte>, ghost all: seq<nat>, ghost payload: seq<byte>)
    returns (bc: nat, fc: nat, done: bool)
    requires Setup(dev, g, r, data, zoneData, d0, all, payload)
    requires g.Stored(block, |d0|) && block !in all && Writable3(g, d0, g.Entries(d0, block), all)
    requires vs + g.Leaves3(d0, g.Entries(d0, block)) <= all
    requires Written(g, r.offset, payload, d0, dev.bytes, vs, bufferCursor, fileCursor, false)
    modifies dev, zoneData
    ensures Setup(dev, g, r, data, zoneData, d0, all, payload)
    ensures Written(g, r.offset, payload, d0, dev.bytes, vs + g.Leaves3(d0, g.Entries(d0, block)), bc, fc, done)
  {
    hide *;
    var words := LoadSame(dev, g, r, block, data, zoneData, bufferCursor, fileCursor, vs, d0, all, payload);
    ghost var es := words[..];
    bc, fc, done := bufferCursor, fileCursor, false;
    var i := 0;
    g.LeavesOfNone(d0);
    assert es[..0] == [] && vs + [] == vs;
    while i < g.size / 4 && !done
      invariant 0 <= i <= words.Length && words[..] == es
      invariant Setup(dev, g, r, data, zoneData, d0, all, payload)
      invariant Written(g, r.offset, payload, d0, dev.bytes, vs + g.Leaves3(d0, if done then es else es[..i]), bc,
                fc, done)
    {
      var doubleIndirectZone := words[i];
      if doubleIndirectZone != 0 {
        bc, fc, done := WriteTripleEntry(dev, g, r, es, i, doubleIndirectZone, data, zoneData, bc, fc, vs, d0, all,
            payload);
      } else {
        g.Leaves3Snoc(d0, es, i);
      }
      i := i + 1;
    }
    assert es[..|es|] == es;
  }

  /** What a write asks of the disk: the data zones of the file are accepted, on the disk and distinct,
      and so are its indirect blocks, none of which is a data zone. */
  ghost predicate FileWritable(g: Geo, d0: seq<byte>, zones: seq<nat>)
    requires |zones| == 10
  {
    var all := g.WriteZones(d0, zones);
    && g.AllStored(all, |d0|) && Distinct(all)
    && (forall i :: 7 <= i < 10 && zones[i] != 0 ==> g.Stored(zones[i], |d0|) && zones[i] !in all)
    && (zones[8] != 0 ==> Writable2(g, d0, g.Entries(d0, zones[8]), all))
    && (zones[9] != 0 ==> Writable3(g, d0, g.Entries(d0, zones[9]), all))
  }

  /** The loop over the direct zones. */
  method WriteDirect(dev: BlockDevice, g: Geo, r: Request, zones: seq<nat>, data: array<byte>, zoneData: array<byte>,
                     ghost all: seq<nat>, ghost payload: seq<byte>)
    returns (bc: nat, fc: nat, done: bool)
    requires Setup(dev, g, r, data, zoneData, dev.bytes, all, payload)
    requires |zones| == 10 && Keep(zones[..7]) <= all
    modifies dev, zoneData
    ensures Setup(dev, g, r, data, zoneData, old(dev.bytes), all, payload)
    ensures Written(g, r.offset, payload, old(dev.bytes), dev.bytes, Keep(zones[..7]), bc, fc, done)
  {
    bc, fc, done := 0, 0, false;
    ghost var d0, es := dev.bytes, zones[..7];
    var i := 0;
    assert es[..0] == [] && Keep([]) == [];
    while i < 7 && !done
      invariant 0 <= i <= 7
      invariant Setup(dev, g, r, data, zoneData, d0, all, payload)
      invariant Written(g, r.offset, payload, d0, dev.bytes, [] + Keep(if done then es else es[..i]), bc, fc, done)
    {
      hide *;
      var zone := zones[i];
      assert es[i] == zone;
      if zone != 0 {
        assert [] + Keep(es) == Keep(es);
        bc, fc, done := WriteIndirectEntry(dev, g, r, es, i, zone, data, zoneData, bc, fc, [], d0, all, payload);
      } else {
        assert es[..i + 1] == es[..i] + [zone];
        KeepSnoc(es[..i], zone);
      }
      i := i + 1;
    }
    assert es[..7] == es;
    assert [] + Keep(es) == Keep(es);
  }

  /** The three indirect levels of an inode: nothing is written when the block is missing or the request is served. */
  method SingleWriteLevel(dev: BlockDevice, g: Geo, r: Request, zone: nat, data: array<byte>, zoneData: array<byte>,
                     bufferCursor: nat, fileCursor: nat, finished: bool,
                     ghost vs: seq<nat>, ghost d0: seq<byte>, ghost all: seq<nat>, ghost payload: seq<byte>)
    returns (bc: nat, fc: nat, done: bool)
    requires Setup(dev, g, r, data, zoneData, d0, all, payload)
    requires zone != 0 ==> g.Stored(zone, |d0|) && zone !in all
    requires vs + Keep(g.Single(d0, zone)) <= all
    requires Written(g, r.offset, payload, d0, dev.bytes, vs, bufferCursor, fileCursor, finished)
    modifies dev, zoneData
    ensures Setup(dev, g, r, data, zoneData, d0, all, payload)
    ensures Written(g, r.offset, payload, d0, dev.bytes, vs + Keep(g.Single(d0, zone)), bc, fc, done)
  {
    bc, fc, done := bufferCursor, fileCursor, finished;
    if finished {
      WrittenExtends(g, r.offset, payload, d0, dev.bytes, vs, vs + Keep(g.Single(d0, zone)), all, bc, fc);
    } else if zone != 0 {
      bc, fc, done := WriteIndirect(dev, g, r, zone, data, zoneData, bc, fc, vs, d0, all, payload);
    } else {
      assert vs + Keep(g.Single(d0, zone)) == vs;
    }
  }

  method DoubleWriteLevel(dev: BlockDevice, g: Geo, r: Request, zone: nat, data: array<byte>, zoneData: array<byte>,
                     bufferCursor: nat, fileCursor: nat, finished: bool,
                     ghost vs: seq<nat>, ghost d0: seq<byte>, ghost all: seq<nat>, ghost payload: seq<byte>)
    returns (bc: nat, fc: nat, done: bool)
    requires Setup(dev, g, r, data, zoneData, d0, all, payload)
    requires zone != 0 ==> g.Stored(zone, |d0|) && zone !in all && Writable2(g, d0, g.Entries(d0, zone), all)
    requires vs + g.Double(d0, zone) <= all
    requires Written(g, r.offset, payload, d0, dev.bytes, vs, bufferCursor, fileCursor, finished)
    modifies dev, zoneData
    ensures Setup(dev, g, r, data, zoneData, d0, all, payload)
    ensures Written(g, r.offset, payload, d0, dev.bytes, vs + g.Double(d0, zone), bc, fc, done)
  {
    bc, fc, done := bufferCursor, fileCursor, finished;
    if finished {
      WrittenExtends(g, r.offset, payload, d0, dev.bytes, vs, vs + g.Double(d0, zone), all, bc, fc);
    } else if zone != 0 {
      bc, fc, done := WriteDouble(dev, g, r, zone, data, zoneData, bc, fc, vs, d0, all, payload);
    } else {
      assert vs + g.Double(d0, zone) == vs;
    }
  }

  method TripleWriteLevel(dev: BlockDevice, g: Geo, r: Request, zone: nat, data: array<byte>, zoneData: array<byte>,
                     bufferCursor: nat, fileCursor: nat, finished: bool,
                     ghost vs: seq<nat>, ghost d0: seq<byte>, ghost all: seq<nat>, ghost payload: seq<byte>)
    returns (bc: nat, fc: nat, done: bool)
    requires Setup(dev, g, r, data, zoneData, d0, all, payload)
    requires zone != 0 ==> g.Stored(zone, |d0|) && zone !in all && Writable3(g, d0, g.Entries(d0, zone), all)
    requires vs + g.Triple(d0, zone) <= all
    requires Written(g, r.offset, payload, d0, dev.bytes, vs, bufferCursor, fileCursor, finished)
    modifies dev, zoneData
    ensures Setup(dev, g, r, data, zoneData, d0, all, payload)
    ensures Written(g, r.offset, payload, d0, dev.bytes, vs + g.Triple(d0, zone), bc, fc, done)
  {
    bc, fc, done := bufferCursor, fileCursor, finished;
    if finished {
      WrittenExtends(g, r.offset, payload, d0, dev.bytes, vs, vs + g.Triple(d0, zone), all, bc, fc);
    } else if zone != 0 {
      bc, fc, done := WriteTriple(dev, g, r, zone, data, zoneData, bc, fc, vs, d0, all, payload);
    } else {
      assert vs + g.Triple(d0, zone) == vs;
    }
  }

  /** What one call leaves on the disk: the range of the flat file holds the data, no byte outside the
      data zones of the file has changed. */
  ghost predicate FileWritten(g: Geo, zones: seq<nat>, offset: nat, payload: seq<byte>, d0: seq<byte>, d: seq<byte>)
    requires |zones| == 10
  {
    var all := g.WriteZones(d0, zones);
    Frame(g, d0, d, all) && g.Flat(d, all) == WriteResult(g.Flat(d0, all), offset, payload)
  }

  /** The walk over all four levels. */
  method WriteLevels(dev: BlockDevice, g: Geo, r: Request, zones: seq<nat>, data: array<byte>)
    requires g.Ok() && DiskOk(dev.bytes) && r.Ok(g) && r.count <= data.Length
    requires |zones| == 10 && FileWritable(g, dev.bytes, zones)
    modifies dev
    ensures FileWritten(g, zones, r.offset, data[..r.count], old(dev.bytes), dev.bytes)
  {
    var zoneData := new byte[g.size];
    ghost var d0, payload := dev.bytes, data[..r.count];
    ghost var v1 := Keep(zones[..7]);
    ghost var v2 := v1 + Keep(g.Single(d0, zones[7]));
    ghost var v3 := v2 + g.Double(d0, zones[8]);
    ghost var all := v3 + g.Triple(d0, zones[9]);
    assert all == g.WriteZones(d0, zones);
    assert v1 <= v2 <= v3 <= all;
    hide Written, Keep, DiskOk;
    var bc, fc, done := WriteDirect(dev, g, r, zones, data, zoneData, all, payload);
    bc, fc, done := SingleWriteLevel(dev, g, r, zones[7], data, zoneData, bc, fc, done, v1, d0, all, payload);
    bc, fc, done := DoubleWriteLevel(dev, g, r, zones[8], data, zoneData, bc, fc, done, v2, d0, all, payload);
    bc, fc, done := TripleWriteLevel(dev, g, r, zones[9], data, zoneData, bc, fc, done, v3, d0, all, payload);
  }

  /** minix3_put_data. */
  method PutData(dev: BlockDevice, cache: InodeCache, sb: SuperBlock, inode: nat, data: array<byte>, offset: nat,
                 count: nat)
    requires sb.Geometry().Ok() && DiskOk(dev.bytes) && InodeOnDisk(sb, inode, |dev.bytes|) && cache.data.Ok()
    requires Request(offset, count).Ok(sb.Geometry()) && count <= data.Length
    requires FileWritable(sb.Geometry(), dev.bytes, Seen(cache.last, cache.data, dev.bytes, sb, inode).zones)
    modifies dev, cache
    ensures var n := old(Seen(cache.last, cache.data, dev.bytes, sb, inode));
            && FileWritten(sb.Geometry(), n.zones, offset, data[..count], old(dev.bytes), dev.bytes)
            && (if inode == INVALID_INODE then unchanged(cache) else cache.last == inode && cache.data == n)
    ensures var n, size := old(Seen(cache.last, cache.data, dev.bytes, sb, inode)), sb.ZoneSize();
            ToMap(old(dev.bytes), dev.bytes, size, Keep(FileMap(old(dev.bytes), size, n.zones)), offset, data[..count])
  {
    var inodeData := GetInode(dev, cache, sb, inode);
    ghost var d0 := dev.bytes;
    WriteLevels(dev, sb.Geometry(), Request(offset, count), inodeData.zones, data);
    WriteByMap(sb.Geometry(), d0, dev.bytes, inodeData.zones, offset, data[..count]);
  }

  lemma WritableTree(g: Geo, d: seq<byte>, zones: seq<nat>)
    requires |zones| == 10 && FileWritable(g, d, zones)
    ensures TreeStored(g, d, zones)
  {
    hide Geo.Stored, Geo.Entries, Geo.AllStored, Distinct;
  }

  lemma WriteResultAt(f: seq<byte>, offset: nat, payload: seq<byte>, o: nat)
    requires o < |f|
    ensures WriteResult(f, offset, payload)[o] == if offset <= o < offset + |payload| then payload[o - offset] else f[o]
  {
  }

  /** A byte of the file, at its place on the disk, before and after a write. */
  lemma PlaceWritten(g: Geo, all: seq<nat>, d0: seq<byte>, d: seq<byte>, offset: nat, payload: seq<byte>,
                     o: nat, a: nat, k: nat, i: nat)
    requires g.AllStored(all, |d0|) && |d| == |d0| && k < |all| && i < g.size
    requires o == k * g.size + i && a == all[k] * g.size + i
    requires g.Flat(d, all) == WriteResult(g.Flat(d0, all), offset, payload)
    ensures a < |d| && d[a] == if offset <= o < offset + |payload| then payload[o - offset] else d0[a]
  {
    assert g.Stored(all[k], |d0|);
    hide Geo.Flat, Geo.ZoneBytes, Geo.Stored, Geo.AllStored, WriteResult;
    FlatByteOnDisk(g, d, all, o, a, k, i);
    FlatByteOnDisk(g, d0, all, o, a, k, i);
    WriteResultAt(g.Flat(d0, all), offset, payload, o);
  }

  lemma FlatByteOnDisk(g: Geo, d: seq<byte>, all: seq<nat>, o: nat, a: nat, k: nat, i: nat)
    requires k < |all| && i < g.size && g.Stored(all[k], |d|)
    requires o == k * g.size + i && a == all[k] * g.size + i
    ensures o < |g.Flat(d, all)| && a < |d| && g.Flat(d, all)[o] == d[a]
  {
    hide Geo.Flat, Geo.ZoneBytes, Geo.Stored;
    FlatPlace(g, d, all, k, i);
    StoredZoneByte(g, d, all[k], i);
  }

  /** A byte that has changed lies in a zone of the file. */
  lemma ChangedPlace(g: Geo, all: seq<nat>, d0: seq<byte>, d: seq<byte>, a: nat) returns (o: nat, k: nat, i: nat)
    requires Frame(g, d0, d, all) && a < |d| && d[a] != d0[a]
    ensures |d| == |d0| && k < |all| && i < g.size && o == k * g.size + i && a == all[k] * g.size + i
  {
    k :| 0 <= k < |all| && !(a < g.Start(all[k]) || g.Start(all[k]) + g.size <= a);
    g.StartIsProduct(all[k]);
    i := a - g.Start(all[k]);
    o := k * g.size + i;
  }

  /** What a write does, told by the block map. */
  lemma WriteByMap(g: Geo, d0: seq<byte>, d: seq<byte>, zones: seq<nat>, offset: nat, payload: seq<byte>)
    requires g.Ok() && |zones| == 10 && FileWritable(g, d0, zones) && FileWritten(g, zones, offset, payload, d0, d)
    ensures ToMap(d0, d, g.size, Keep(FileMap(d0, g.size, zones)), offset, payload)
  {
    var all := g.WriteZones(d0, zones);
    WritableTree(g, d0, zones);
    WriteZonesAreMap(g, d0, zones);
    assert g.size > 0 && g.AllStored(all, |d0|);
    WrittenToMap(g, all, d0, d, offset, payload);
  }

  lemma WrittenToMap(g: Geo, all: seq<nat>, d0: seq<byte>, d: seq<byte>, offset: nat, payload: seq<byte>)
    requires g.Ok() && g.AllStored(all, |d0|) && Frame(g, d0, d, all)
    requires g.Flat(d, all) == WriteResult(g.Flat(d0, all), offset, payload)
    ensures g.size > 0 && ToMap(d0, d, g.size, all, offset, payload)
  {
    assert g.size > 0 && |d| == |d0|;
    hide Geo.Flat, WriteResult, Geo.AllStored, IsPlace, Frame;
    forall o, a: nat | offset <= o < offset + |payload| && IsPlace(g.size, all, o, a)
      ensures a < |d| && d[a] == payload[o - offset]
    {
      var k, j := PlaceParts(g.size, all, o, a);
      PlaceWritten(g, all, d0, d, offset, payload, o, a, k, j);
    }
    forall a: nat | a < |d| && d[a] != d0[a]
      ensures exists o: nat :: offset <= o < offset + |payload| && IsPlace(g.size, all, o, a)
    {
      var o := ChangedByte(g, all, d0, d, offset, payload, a);
    }
  }

  lemma ChangedByte(g: Geo, all: seq<nat>, d0: seq<byte>, d: seq<byte>, offset: nat, payload: seq<byte>, a: nat)
    returns (o: nat)
    requires g.Ok() && g.AllStored(all, |d0|) && Frame(g, d0, d, all) && a < |d| && d[a] != d0[a]
    requires g.Flat(d, all) == WriteResult(g.Flat(d0, all), offset, payload)
    ensures g.size > 0 && offset <= o < offset + |payload| && IsPlace(g.size, all, o, a)
  {
    hide Geo.Flat, WriteResult, Geo.AllStored, IsPlace, Frame;
    var k, j;
    o, k, j := ChangedPlace(g, all, d0, d, a);
    PlaceWritten(g, all, d0, d, offset, payload, o, a, k, j);
    PartsPlace(g.size, all, k, j, o, a);
  }

  lemma PlaceParts(size: nat, bs: seq<nat>, o: nat, a: nat) returns (k: nat, j: nat)
    requires 0 < size && IsPlace(size, bs, o, a)
    ensures k < |bs| && j < size && o == k * size + j && a == bs[k] * size + j
  {
    k, j := Place(o, size);
  }

  lemma PartsPlace(size: nat, bs: seq<nat>, k: nat, j: nat, o: nat, a: nat)
    requires k < |bs| && j < size && o == k * size + j && a == bs[k] * size + j
    ensures IsPlace(size, bs, o, a)
  {
    Digit(k, size, j);
  }
}
