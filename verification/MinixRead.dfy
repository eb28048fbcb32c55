/** minix3_get_data of src/minix3.c: a walk over the zone tree with two cursors that must agree with
    a read of one flat byte sequence.

    The source repeats the code for one zone in each of its four loops and nests the loops; here the
    repeated code is `ReadStep` and each level of the tree is a method.
  */
module MinixRead {
  import opened Words
  import opened Sequences
  import opened BlockIo
  import opened MinixLayout
  import opened MinixMap
  import opened MinixZone
  import opened MinixInode

  /** Unsigned 32-bit addition. */
  function Add32(a: nat, b: nat): nat { (a + b) % WORD32 }

  /** How many of the `count` bytes at `offset` a file of `len` bytes has. */
  function Available(len: nat, offset: nat, count: nat): nat {
    if len < offset then 0 else Min(count, len - offset)
  }

  /** The buffer after a read of `count` bytes at `offset` of the flat file `f`: as many as there are. */
  function ReadResult(f: seq<byte>, offset: nat, count: nat, was: seq<byte>): seq<byte>
    requires count <= |was|
  {
    var n := Available(|f|, offset, count);
    if n == 0 then was else f[offset..offset + n] + was[n..]
  }

  /** The request of one call. */
  datatype Request = Request(offset: nat, count: nat) {
    /** No sum of a cursor and a zone size wraps around in 32 bits. */
    predicate Ok(g: Geo) { offset + count + g.size < WORD32 }
  }

  /** Where the cursors are once the zones holding `f` have been visited. */
  ghost predicate Progress(r: Request, f: seq<byte>, was: seq<byte>, now: seq<byte>, bufferCursor: nat, fileCursor: nat)
    requires r.count <= |was|
  {
    && now == ReadResult(f, r.offset, r.count, was)
    && bufferCursor == Available(|f|, r.offset, r.count)
    && if |f| < r.offset then fileCursor == |f| else r.offset <= fileCursor <= r.offset + r.count
  }

  /** The request has been served in full. */
  ghost predicate Complete(r: Request, f: seq<byte>, was: seq<byte>, now: seq<byte>)
    requires r.count <= |was|
  {
    r.offset + r.count <= |f| && now == ReadResult(f, r.offset, r.count, was)
  }

  /** What is past the end of a served request does not matter. */
  lemma CompleteExtends(r: Request, f: seq<byte>, f': seq<byte>, was: seq<byte>, now: seq<byte>)
    requires r.count <= |was| && f <= f' && Complete(r, f, was, now)
    ensures Complete(r, f', was, now)
  {
    assert f'[r.offset..r.offset + r.count] == f[r.offset..r.offset + r.count];
  }

  ghost predicate Cleared(s: seq<byte>) {
    forall i :: 0 <= i < |s| ==> s[i] == 0
  }

  /** `memcpy(to + at, from + start, n)` between two buffers. */
  method CopyBytes(to: array<byte>, at: nat, from: array<byte>, start: nat, n: nat)
    requires at + n <= to.Length && start + n <= from.Length && to != from
    modifies to
    ensures to[..] == Overlay(old(to[..]), at, from[start..start + n])
  {
    var i := 0;
    while i < n
      invariant 0 <= i <= n
      invariant forall j :: 0 <= j < to.Length ==> to[j] == if at <= j < at + i then from[start + j - at]
                else old(to[j])
    {
      to[at + i] := from[start + i];
      i := i + 1;
    }
  }

  /** `memset(data, 0, size)`. */
  method Clear(data: array<byte>)
    modifies data
    ensures Cleared(data[..])
  {
    var i := 0;
    while i < data.Length
      invariant 0 <= i <= data.Length
      invariant forall j :: 0 <= j < i ==> data[j] == 0
    {
      data[i] := 0;
      i := i + 1;
    }
  }

  // ---------------------------------------------------------------- the branches of one step

  lemma StepSkips(r: Request, f: seq<byte>, z: seq<byte>, was: seq<byte>)
    requires r.count <= |was| && |f| + |z| < r.offset
    ensures ReadResult(f + z, r.offset, r.count, was) == was == ReadResult(f, r.offset, r.count, was)
  {
  }

  lemma StepFirst(r: Request, f: seq<byte>, z: seq<byte>, was: seq<byte>)
    requires r.count <= |was| && |f| < r.offset <= |f| + |z|
    ensures var skip := r.offset - |f|;
            var n := Min(r.count, |z| - skip);
            && n == Available(|f + z|, r.offset, r.count)
            && Overlay(was, 0, z[skip..skip + n]) == ReadResult(f + z, r.offset, r.count, was)
  {
    var skip := r.offset - |f|;
    var n := Min(r.count, |z| - skip);
    assert (f + z)[r.offset..r.offset + n] == z[skip..skip + n];
  }

  lemma ReadResultAt(f: seq<byte>, offset: nat, count: nat, was: seq<byte>)
    requires count <= |was|
    ensures var s, n := ReadResult(f, offset, count, was), Available(|f|, offset, count);
            |s| == |was| && forall i :: 0 <= i < |s| ==> s[i] == if i < n then f[offset + i] else was[i]
  {
  }

  lemma StepNext(r: Request, f: seq<byte>, z: seq<byte>, was: seq<byte>, n: nat)
    requires r.count <= |was| && r.offset <= |f| && n <= |z|
    requires var bc := Available(|f|, r.offset, r.count); n == Min(r.count - bc, |z|) && (bc < r.count ==> 0 < |z|)
    ensures var bc := Available(|f|, r.offset, r.count);
            && bc + n == Available(|f + z|, r.offset, r.count)
            && Overlay(ReadResult(f, r.offset, r.count, was), bc, z[..n]) == ReadResult(f + z, r.offset, r.count, was)
  {
    var bc := Available(|f|, r.offset, r.count);
    var now, after := ReadResult(f, r.offset, r.count, was), ReadResult(f + z, r.offset, r.count, was);
    ReadResultAt(f, r.offset, r.count, was);
    ReadResultAt(f + z, r.offset, r.count, was);
    var l := Overlay(now, bc, z[..n]);
    forall i | 0 <= i < |was| ensures l[i] == after[i] {
      if bc <= i < bc + n {
        assert (f + z)[r.offset + i] == z[i - bc];
      }
    }
  }

  /** Bytes are wanted of a zone with `before` bytes in front of it, but not its first. */
  predicate StartsInside(r: Request, before: nat, size: nat) {
    before < r.offset < before + size && r.count > 0
  }

  /** Fills the zone buffer. */
  method LoadZone(dev: BlockDevice, g: Geo, zone: nat, zoneData: array<byte>)
    requires g.Ok() && DiskOk(dev.bytes) && zoneData.Length == g.size
    requires if g.InRange(zone) then g.Stored(zone, |dev.bytes|) else Cleared(zoneData[..])
    modifies zoneData
    ensures zoneData[..] == g.ZoneBytes(dev.bytes, zone)
  {
    GetZone(dev, g, zone, zoneData);
  }

  /** The zone in which the range starts, unless it starts on the zone's boundary. */
  method ReadFirst(dev: BlockDevice, g: Geo, r: Request, zone: nat, data: array<byte>, zoneData: array<byte>,
                   fileCursor: nat, ghost f: seq<byte>)
    returns (remaining: nat)
    requires g.Ok() && DiskOk(dev.bytes) && data != zoneData && zoneData.Length == g.size && r.count <= data.Length
    requires g.InRange(zone) ==> g.Stored(zone, |dev.bytes|)
    requires fileCursor == |f| < r.offset <= |f| + g.size
    requires StartsInside(r, |f|, g.size) && !g.InRange(zone) ==> Cleared(zoneData[..])
    modifies data, zoneData
    ensures var f' := f + g.ZoneBytes(dev.bytes, zone);
            remaining == Available(|f'|, r.offset, r.count)
                && data[..] == ReadResult(f', r.offset, r.count, old(data[..]))
  {
    ghost var z := g.ZoneBytes(dev.bytes, zone);
    StepFirst(r, f, z, data[..]);
    GetZone(dev, g, zone, zoneData);
    remaining := Min(r.count, g.size - (r.offset - fileCursor));
    assert remaining > 0 ==> zoneData[..] == z;
    hide ReadResult, Available, DiskOk, Cleared, StartsInside, Overlay, Geo.ZoneBytes, Geo.Block, Geo.Stored;
    var skip := r.offset - fileCursor;
    assert zoneData[skip..skip + remaining] == z[skip..skip + remaining];
    CopyBytes(data, 0, zoneData, skip, remaining);
  }

  /** A zone after the start of the range. */
  method ReadNext(dev: BlockDevice, g: Geo, r: Request, zone: nat, data: array<byte>, zoneData: array<byte>,
                  bufferCursor: nat, ghost f: seq<byte>, ghost was: seq<byte>)
    returns (bc: nat, done: bool)
    requires g.Ok() && DiskOk(dev.bytes) && r.Ok(g)
    requires data != zoneData && zoneData.Length == g.size && r.count <= |was| == data.Length
    requires g.InRange(zone) ==> g.Stored(zone, |dev.bytes|)
    requires r.offset <= |f| && bufferCursor == Available(|f|, r.offset, r.count)
    requires data[..] == ReadResult(f, r.offset, r.count, was)
    modifies data, zoneData
    ensures var f' := f + g.ZoneBytes(dev.bytes, zone);
            && data[..] == ReadResult(f', r.offset, r.count, was)
            && if done then r.offset + r.count <= |f'| else bc == Available(|f'|, r.offset, r.count)
  {
    ghost var z := g.ZoneBytes(dev.bytes, zone);
    bc, done := bufferCursor, false;
    Clear(zoneData);
    LoadZone(dev, g, zone, zoneData);
    if Add32(bc, g.size) > r.count {
      StepNext(r, f, z, was, r.count - bc);
      CopyBytes(data, bc, zoneData, 0, r.count - bc);
      done := true;
    } else {
      StepNext(r, f, z, was, g.size);
      CopyBytes(data, bc, zoneData, 0, g.size);
      bc := bc + g.size;
    }
  }

  /** The code for one zone of the walk.  `f` is what the zones visited so far hold. */
  method ReadStep(dev: BlockDevice, g: Geo, r: Request, zone: nat, data: array<byte>, zoneData: array<byte>,
                  bufferCursor: nat, fileCursor: nat, ghost f: seq<byte>, ghost was: seq<byte>)
    returns (bc: nat, fc: nat, done: bool)
    requires g.Ok() && DiskOk(dev.bytes) && r.Ok(g)
    requires g.InRange(zone) ==> g.Stored(zone, |dev.bytes|)
    requires data != zoneData && zoneData.Length == g.size && r.count <= |was| == data.Length
    requires Progress(r, f, was, data[..], bufferCursor, fileCursor)
    requires StartsInside(r, |f|, g.size) && !g.InRange(zone) ==> Cleared(zoneData[..])
    modifies data, zoneData
    ensures var f' := f + g.ZoneBytes(dev.bytes, zone);
            if done then Complete(r, f', was, data[..]) else Progress(r, f', was, data[..], bc, fc)
    ensures |f| + g.size < r.offset ==> zoneData[..] == old(zoneData[..])
  {
    bc, fc, done := bufferCursor, fileCursor, false;
    if Add32(fileCursor, g.size) < r.offset {
      StepSkips(r, f, g.ZoneBytes(dev.bytes, zone), was);
      fc := Add32(fc, g.size);
    } else if fileCursor < r.offset {
      StepSkips(r, f, [], was);
      assert f + [] == f;
      var remaining := ReadFirst(dev, g, r, zone, data, zoneData, fileCursor, f);
      bc := bc + remaining;
      fc := r.offset + remaining;
    } else {
      bc, done := ReadNext(dev, g, r, zone, data, zoneData, bc, f, was);
    }
  }

  // ---------------------------------------------------------------- the walk

  /** The state of the walk after the zones `vs`. */
  ghost predicate Walked(g: Geo, r: Request, d: seq<byte>, vs: seq<nat>, was: seq<byte>, now: seq<byte>,
                         bc: nat, fc: nat, done: bool)
    requires r.count <= |was|
  {
    if done then Complete(r, g.Flat(d, vs), was, now) else Progress(r, g.Flat(d, vs), was, now, bc, fc)
  }

  /** The zone buffer is clear as long as the range has not been reached, should a hole come first. */
  ghost predicate BufferReady(g: Geo, r: Request, d: seq<byte>, vs: seq<nat>, zoneData: seq<byte>, clear: bool) {
    clear && |g.Flat(d, vs)| < r.offset ==> Cleared(zoneData)
  }

  /** A walk that is done stays done when more zones follow. */
  lemma WalkedExtends(g: Geo, r: Request, d: seq<byte>, vs: seq<nat>, ws: seq<nat>, was: seq<byte>, now: seq<byte>,
                      bc: nat, fc: nat, zoneData: seq<byte>, clear: bool)
    requires r.count <= |was| && vs <= ws && Walked(g, r, d, vs, was, now, bc, fc, true)
    ensures Walked(g, r, d, ws, was, now, bc, fc, true) && BufferReady(g, r, d, ws, zoneData, clear)
  {
    g.FlatPrefix(d, vs, ws);
    CompleteExtends(r, g.Flat(d, vs), g.Flat(d, ws), was, now);
  }

  /** What the caller of any part of the walk provides. */
  ghost predicate Setup(dev: BlockDevice, g: Geo, r: Request, data: array<byte>, zoneData: array<byte>, was: seq<byte>)
    reads dev
  {
    && g.Ok() && DiskOk(dev.bytes) && r.Ok(g)
    && data != zoneData && zoneData.Length == g.size && r.count <= |was| == data.Length
  }

  /** Where the range starts strictly inside a zone, the buffer is clear or the zone is an accepted one. */
  ghost predicate StartClear(g: Geo, r: Request, d: seq<byte>, vs: seq<nat>, clear: bool) {
    clear || forall k :: 0 <= k < |vs| && StartsInside(r, |g.Flat(d, vs[..k])|, g.size) ==> g.InRange(vs[k])
  }

  lemma StartClearPrefix(g: Geo, r: Request, d: seq<byte>, vs: seq<nat>, ws: seq<nat>, clear: bool)
    requires vs <= ws && StartClear(g, r, d, ws, clear)
    ensures StartClear(g, r, d, vs, clear)
  {
    forall k | 0 <= k < |vs| ensures vs[..k] == ws[..k] && vs[k] == ws[k] {
    }
  }

  lemma StartClearAt(g: Geo, r: Request, d: seq<byte>, vs: seq<nat>, zone: nat, clear: bool)
    requires StartClear(g, r, d, vs + [zone], clear)
    ensures clear || (StartsInside(r, |g.Flat(d, vs)|, g.size) ==> g.InRange(zone))
  {
    assert (vs + [zone])[..|vs|] == vs && (vs + [zone])[|vs|] == zone;
  }

  method ReadZone(dev: BlockDevice, g: Geo, r: Request, zone: nat, data: array<byte>, zoneData: array<byte>,
                  bufferCursor: nat, fileCursor: nat, ghost vs: seq<nat>, ghost was: seq<byte>, ghost clear: bool)
    returns (bc: nat, fc: nat, done: bool)
    requires Setup(dev, g, r, data, zoneData, was)
    requires g.InRange(zone) ==> g.Stored(zone, |dev.bytes|)
    requires StartClear(g, r, dev.bytes, vs + [zone], clear)
    requires Walked(g, r, dev.bytes, vs, was, data[..], bufferCursor, fileCursor, false)
    requires BufferReady(g, r, dev.bytes, vs, zoneData[..], clear)
    modifies data, zoneData
    ensures Walked(g, r, dev.bytes, vs + [zone], was, data[..], bc, fc, done)
    ensures BufferReady(g, r, dev.bytes, vs + [zone], zoneData[..], clear)
  {
    g.FlatSnoc(dev.bytes, vs, zone);
    StartClearAt(g, r, dev.bytes, vs, zone, clear);
    bc, fc, done := ReadStep(dev, g, r, zone, data, zoneData, bufferCursor, fileCursor, g.Flat(dev.bytes, vs), was);
  }

  /** The zones an indirect block contributes. */
  function Chosen(es: seq<nat>, keepHoles: bool): seq<nat> {
    if keepHoles then es else Keep(es)
  }

  lemma ChosenSnoc(es: seq<nat>, keepHoles: bool, k: nat)
    requires k < |es|
    ensures var c := Chosen(es[..k], keepHoles);
            Chosen(es[..k + 1], keepHoles) == if !keepHoles && es[k] == 0 then c else c + [es[k]]
  {
    assert es[..k + 1] == es[..k] + [es[k]];
    KeepSnoc(es[..k], es[k]);
  }

  lemma ChosenPrefix(es: seq<nat>, keepHoles: bool, k: nat)
    requires k <= |es|
    ensures Chosen(es[..k], keepHoles) <= Chosen(es, keepHoles)
  {
    KeepPrefix(es, k);
  }

  /** Reads an indirect block as 32-bit words. */
  method LoadEntries(dev: BlockDevice, g: Geo, block: nat) returns (words: array<nat>)
    requires g.Ok() && DiskOk(dev.bytes) && g.Stored(block, |dev.bytes|)
    ensures fresh(words) && words[..] == g.Entries(dev.bytes, block) && words.Length == g.size / 4
  {
    var buffer := new byte[g.size];
    GetZone(dev, g, block, buffer);
    words := new nat[g.size / 4];
    var i := 0;
    while i < g.size / 4
      invariant 0 <= i <= g.size / 4 && words.Length == g.size / 4
      invariant buffer[..] == g.Block(dev.bytes, block)
      invariant forall k :: 0 <= k < i ==> words[k] == g.Entries(dev.bytes, block)[k]
    {
      words[i] := Word(buffer[..], i);
      i := i + 1;
    }
  }

  lemma ChosenStep(vs: seq<nat>, es: seq<nat>, keepHoles: bool, i: nat)
    requires i < |es| && (keepHoles || es[i] != 0)
    ensures vs + Chosen(es[..i + 1], keepHoles) == vs + Chosen(es[..i], keepHoles) + [es[i]]
    ensures vs + Chosen(es[..i + 1], keepHoles) <= vs + Chosen(es, keepHoles)
    ensures es[i] in Chosen(es, keepHoles)
  {
    ChosenSnoc(es, keepHoles, i);
    ChosenPrefix(es, keepHoles, i + 1);
  }

  /** One zone below an indirect block. */
  method ReadIndirectEntry(dev: BlockDevice, g: Geo, r: Request, keepHoles: bool, ghost es: seq<nat>, ghost i: nat,
                           zone: nat, data: array<byte>, zoneData: array<byte>, bufferCursor: nat, fileCursor: nat,
                           ghost vs: seq<nat>, ghost was: seq<byte>, ghost clear: bool)
    returns (bc: nat, fc: nat, done: bool)
    requires Setup(dev, g, r, data, zoneData, was)
    requires i < |es| && es[i] == zone && (keepHoles || zone != 0)
    requires g.Readable(Chosen(es, keepHoles), |dev.bytes|)
    requires StartClear(g, r, dev.bytes, vs + Chosen(es, keepHoles), clear)
    requires Walked(g, r, dev.bytes, vs + Chosen(es[..i], keepHoles), was, data[..], bufferCursor, fileCursor, false)
    requires BufferReady(g, r, dev.bytes, vs + Chosen(es[..i], keepHoles), zoneData[..], clear)
    modifies data, zoneData
    ensures var ws := vs + Chosen(if done then es else es[..i + 1], keepHoles);
            && Walked(g, r, dev.bytes, ws, was, data[..], bc, fc, done)
            && BufferReady(g, r, dev.bytes, ws, zoneData[..], clear)
  {
    ghost var d := dev.bytes;
    ghost var seen, next, all := vs + Chosen(es[..i], keepHoles), vs + Chosen(es[..i + 1], keepHoles),
        vs + Chosen(es, keepHoles);
    ChosenStep(vs, es, keepHoles, i);
    assert g.InRange(zone) ==> g.Stored(zone, |d|);
    StartClearPrefix(g, r, d, next, all, clear);
    hide *;
    bc, fc, done := ReadZone(dev, g, r, zone, data, zoneData, bufferCursor, fileCursor, seen, was, clear);
    if done {
      WalkedExtends(g, r, d, next, all, was, data[..], bc, fc, zoneData[..], clear);
    }
  }

  /** The loop over one indirect block.  Holes count as zones in the single indirect block only. */
  method ReadIndirect(dev: BlockDevice, g: Geo, r: Request, block: nat, keepHoles: bool, data: array<byte>,
                      zoneData: array<byte>,
                      bufferCursor: nat, fileCursor: nat, ghost vs: seq<nat>, ghost was: seq<byte>, ghost clear: bool)
    returns (bc: nat, fc: nat, done: bool)
    requires Setup(dev, g, r, data, zoneData, was)
    requires g.Stored(block, |dev.bytes|)
    requires g.Readable(Chosen(g.Entries(dev.bytes, block), keepHoles), |dev.bytes|)
    requires StartClear(g, r, dev.bytes, vs + Chosen(g.Entries(dev.bytes, block), keepHoles), clear)
    requires Walked(g, r, dev.bytes, vs, was, data[..], bufferCursor, fileCursor, false)
    requires BufferReady(g, r, dev.bytes, vs, zoneData[..], clear)
    modifies data, zoneData
    ensures var ws := vs + Chosen(g.Entries(dev.bytes, block), keepHoles);
            && Walked(g, r, dev.bytes, ws, was, data[..], bc, fc, done)
            && BufferReady(g, r, dev.bytes, ws, zoneData[..], clear)
  {
    var words := LoadEntries(dev, g, block);
    ghost var es, d := words[..], dev.bytes;
    bc, fc, done := bufferCursor, fileCursor, false;
    var i := 0;
    assert vs + Chosen(es[..0], keepHoles) == vs;
    while i < g.size / 4 && !done
      invariant 0 <= i <= words.Length && words[..] == es
      invariant var ws := vs + Chosen(if done then es else es[..i], keepHoles);
                && Walked(g, r, d, ws, was, data[..], bc, fc, done)
                && BufferReady(g, r, d, ws, zoneData[..], clear)
    {
      var zone := words[i];
      if keepHoles || zone != 0 {
        bc, fc, done := ReadIndirectEntry(dev, g, r, keepHoles, es, i, zone, data, zoneData, bc, fc, vs, was, clear);
      } else {
        ChosenSnoc(es, keepHoles, i);
      }
      i := i + 1;
    }
    assert es[..|es|] == es;
  }

  /** What a read asks of the indirect blocks `es` and of the zones below them. */
  ghost predicate Readable2(g: Geo, d: seq<byte>, es: seq<nat>) {
    && (forall i :: 0 <= i < |es| && es[i] != 0 ==> g.Stored(es[i], |d|))
    && (forall i :: 0 <= i < |es| && es[i] != 0 ==> g.Readable(g.Leaves(d, es[i]), |d|))
  }

  ghost predicate Readable3(g: Geo, d: seq<byte>, es: seq<nat>) {
    && (forall i :: 0 <= i < |es| && es[i] != 0 ==> g.Stored(es[i], |d|))
    && (forall i :: 0 <= i < |es| && es[i] != 0 ==> Readable2(g, d, g.Entries(d, es[i])))
  }

  lemma Readable2At(g: Geo, d: seq<byte>, es: seq<nat>, i: nat)
    requires Readable2(g, d, es) && i < |es| && es[i] != 0
    ensures g.Stored(es[i], |d|)
    ensures g.Readable(Chosen(g.Entries(d, es[i]), false), |d|)
    ensures Chosen(g.Entries(d, es[i]), false) == g.Leaves(d, es[i])
  {
  }

  lemma Readable3At(g: Geo, d: seq<byte>, es: seq<nat>, i: nat)
    requires Readable3(g, d, es) && i < |es| && es[i] != 0
    ensures g.Stored(es[i], |d|) && Readable2(g, d, g.Entries(d, es[i]))
  {
  }

  lemma Leaves2Step(g: Geo, d: seq<byte>, vs: seq<nat>, es: seq<nat>, i: nat)
    requires i < |es| && es[i] != 0
    ensures vs + g.Leaves2(d, es[..i + 1]) == vs + g.Leaves2(d, es[..i]) + g.Leaves(d, es[i])
    ensures vs + g.Leaves2(d, es[..i + 1]) <= vs + g.Leaves2(d, es)
  {
    g.Leaves2Snoc(d, es, i);
    g.Leaves2Prefix(d, es, i + 1);
  }

  lemma Leaves3Step(g: Geo, d: seq<byte>, vs: seq<nat>, es: seq<nat>, i: nat)
    requires i < |es| && es[i] != 0
    ensures vs + g.Leaves3(d, es[..i + 1]) == vs + g.Leaves3(d, es[..i]) + g.Leaves2(d, g.Entries(d, es[i]))
    ensures vs + g.Leaves3(d, es[..i + 1]) <= vs + g.Leaves3(d, es)
  {
    g.Leaves3Snoc(d, es, i);
    g.Leaves3Prefix(d, es, i + 1);
  }

  /** One indirect block below a double indirect block. */
  method ReadDoubleEntry(dev: BlockDevice, g: Geo, r: Request, ghost es: seq<nat>, ghost i: nat, entry: nat,
                     data: array<byte>, zoneData: array<byte>, bufferCursor: nat, fileCursor: nat,
                     ghost vs: seq<nat>, ghost was: seq<byte>, ghost clear: bool)
    returns (bc: nat, fc: nat, done: bool)
    requires Setup(dev, g, r, data, zoneData, was)
    requires Readable2(g, dev.bytes, es) && i < |es| && es[i] == entry != 0
    requires StartClear(g, r, dev.bytes, vs + g.Leaves2(dev.bytes, es), clear)
    requires Walked(g, r, dev.bytes, vs + g.Leaves2(dev.bytes, es[..i]), was, data[..], bufferCursor, fileCursor, false)
    requires BufferReady(g, r, dev.bytes, vs + g.Leaves2(dev.bytes, es[..i]), zoneData[..], clear)
    modifies data, zoneData
    ensures var ws := vs + g.Leaves2(dev.bytes, if done then es else es[..i + 1]);
            && Walked(g, r, dev.bytes, ws, was, data[..], bc, fc, done)
            && BufferReady(g, r, dev.bytes, ws, zoneData[..], clear)
  {
    ghost var d := dev.bytes;
    ghost var seen, next, all := vs + g.Leaves2(d, es[..i]), vs + g.Leaves2(d, es[..i + 1]), vs + g.Leaves2(d, es);
    Readable2At(g, d, es, i);
    Leaves2Step(g, d, vs, es, i);
    StartClearPrefix(g, r, d, next, all, clear);
    hide *;
    bc, fc, done := ReadIndirect(dev, g, r, entry, false, data, zoneData, bufferCursor, fileCursor, seen, was, clear);
    if done {
      WalkedExtends(g, r, d, next, all, was, data[..], bc, fc, zoneData[..], clear);
    }
  }

  /** The two loops below a double indirect block. */
  method ReadDouble(dev: BlockDevice, g: Geo, r: Request, block: nat, data: array<byte>, zoneData: array<byte>,
                    bufferCursor: nat, fileCursor: nat, ghost vs: seq<nat>, ghost was: seq<byte>, ghost clear: bool)
    returns (bc: nat, fc: nat, done: bool)
    requires Setup(dev, g, r, data, zoneData, was)
    requires g.Stored(block, |dev.bytes|) && Readable2(g, dev.bytes, g.Entries(dev.bytes, block))
    requires StartClear(g, r, dev.bytes, vs + g.Leaves2(dev.bytes, g.Entries(dev.bytes, block)), clear)
    requires Walked(g, r, dev.bytes, vs, was, data[..], bufferCursor, fileCursor, false)
    requires BufferReady(g, r, dev.bytes, vs, zoneData[..], clear)
    modifies data, zoneData
    ensures var ws := vs + g.Leaves2(dev.bytes, g.Entries(dev.bytes, block));
            && Walked(g, r, dev.bytes, ws, was, data[..], bc, fc, done)
            && BufferReady(g, r, dev.bytes, ws, zoneData[..], clear)
  {
    var words := LoadEntries(dev, g, block);
    ghost var es, d := words[..], dev.bytes;
    bc, fc, done := bufferCursor, fileCursor, false;
    var i := 0;
    assert vs + g.Leaves2(d, es[..0]) == vs;
    hide Walked, BufferReady, StartClear, Geo.Leaves2;
    while i < g.size / 4 && !done
      invariant 0 <= i <= words.Length && words[..] == es
      invariant var ws := vs + g.Leaves2(d, if done then es else es[..i]);
                && Walked(g, r, d, ws, was, data[..], bc, fc, done)
                && BufferReady(g, r, d, ws, zoneData[..], clear)
    {
      var indirectZone := words[i];
      if indirectZone != 0 {
        bc, fc, done := ReadDoubleEntry(dev, g, r, es, i, indirectZone, data, zoneData, bc, fc, vs, was, clear);
      } else {
        g.Leaves2Snoc(d, es, i);
      }
      i := i + 1;
    }
    assert es[..|es|] == es;
  }

  /** One double indirect block below a triple indirect block. */
  method ReadTripleEntry(dev: BlockDevice, g: Geo, r: Request, ghost es: seq<nat>, ghost i: nat, entry: nat,
                     data: array<byte>, zoneData: array<byte>, bufferCursor: nat, fileCursor: nat,
                     ghost vs: seq<nat>, ghost was: seq<byte>, ghost clear: bool)
    returns (bc: nat, fc: nat, done: bool)
    requires Setup(dev, g, r, data, zoneData, was)
    requires Readable3(g, dev.bytes, es) && i < |es| && es[i] == entry != 0
    requires StartClear(g, r, dev.bytes, vs + g.Leaves3(dev.bytes, es), clear)
    requires Walked(g, r, dev.bytes, vs + g.Leaves3(dev.bytes, es[..i]), was, data[..], bufferCursor, fileCursor, false)
    requires BufferReady(g, r, dev.bytes, vs + g.Leaves3(dev.bytes, es[..i]), zoneData[..], clear)
    modifies data, zoneData
    ensures var ws := vs + g.Leaves3(dev.bytes, if done then es else es[..i + 1]);
            && Walked(g, r, dev.bytes, ws, was, data[..], bc, fc, done)
            && BufferReady(g, r, dev.bytes, ws, zoneData[..], clear)
  {
    ghost var d := dev.bytes;
    ghost var seen, next, all := vs + g.Leaves3(d, es[..i]), vs + g.Leaves3(d, es[..i + 1]), vs + g.Leaves3(d, es);
    Readable3At(g, d, es, i);
    Leaves3Step(g, d, vs, es, i);
    StartClearPrefix(g, r, d, next, all, clear);
    hide *;
    bc, fc, done := ReadDouble(dev, g, r, entry, data, zoneData, bufferCursor, fileCursor, seen, was, clear);
    if done {
      WalkedExtends(g, r, d, next, all, was, data[..], bc, fc, zoneData[..], clear);
    }
  }

  /** The three loops below a triple indirect block. */
  method ReadTriple(dev: BlockDevice, g: Geo, r: Request, block: nat, data: array<byte>, zoneData: array<byte>,
                    bufferCursor: nat, fileCursor: nat, ghost vs: seq<nat>, ghost was: seq<byte>, ghost clear: bool)
    returns (bc: nat, fc: nat, done: bool)
    requires Setup(dev, g, r, data, zoneData, was)
    requires g.Stored(block, |dev.bytes|) && Readable3(g, dev.bytes, g.Entries(dev.bytes, block))
    requires StartClear(g, r, dev.bytes, vs + g.Leaves3(dev.bytes, g.Entries(dev.bytes, block)), clear)
    requires Walked(g, r, dev.bytes, vs, was, data[..], bufferCursor, fileCursor, false)
    requires BufferReady(g, r, dev.bytes, vs, zoneData[..], clear)
    modifies data, zoneData
    ensures var ws := vs + g.Leaves3(dev.bytes, g.Entries(dev.bytes, block));
            && Walked(g, r, dev.bytes, ws, was, data[..], bc, fc, done)
            && BufferReady(g, r, dev.bytes, ws, zoneData[..], clear)
  {
    var words := LoadEntries(dev, g, block);
    ghost var es, d := words[..], dev.bytes;
    bc, fc, done := bufferCursor, fileCursor, false;
    var i := 0;
    assert vs + g.Leaves3(d, es[..0]) == vs;
    hide Walked, BufferReady, StartClear, Geo.Leaves3;
    while i < g.size / 4 && !done
      invariant 0 <= i <= words.Length && words[..] == es
      invariant var ws := vs + g.Leaves3(d, if done then es else es[..i]);
                && Walked(g, r, d, ws, was, data[..], bc, fc, done)
                && BufferReady(g, r, d, ws, zoneData[..], clear)
    {
      var doubleIndirectZone := words[i];
      if doubleIndirectZone != 0 {
        bc, fc, done := ReadTripleEntry(dev, g, r, es, i, doubleIndirectZone, data, zoneData, bc, fc, vs, was, clear);
      } else {
        g.Leaves3Snoc(d, es, i);
      }
      i := i + 1;
    }
    assert es[..|es|] == es;
  }

  /** What a read asks of the disk: every indirect block is on it, and so is every accepted data zone. */
  ghost predicate FileReadable(g: Geo, d: seq<byte>, zones: seq<nat>)
    requires |zones| == 10
  {
    && (forall i :: 7 <= i < 10 && zones[i] != 0 ==> g.Stored(zones[i], |d|))
    && g.Readable(Keep(zones[..7]), |d|)
    && (zones[7] != 0 ==> g.Readable(g.Entries(d, zones[7]), |d|))
    && (zones[8] != 0 ==> Readable2(g, d, g.Entries(d, zones[8])))
    && (zones[9] != 0 ==> Readable3(g, d, g.Entries(d, zones[9])))
  }

  /** What a range asks: when no direct zone clears the zone buffer first, the range does not start strictly
      inside a zone that is not accepted, of which whatever the buffer holds would be read. */
  ghost predicate StartReadable(g: Geo, r: Request, d: seq<byte>, zones: seq<nat>)
    requires |zones| == 10
  {
    StartClear(g, r, d, g.ReadZones(d, zones), Keep(zones[..7]) != [])
  }

  lemma DirectReadable(g: Geo, zones: seq<nat>, i: nat, n: nat)
    requires i < 7 <= |zones| && g.Readable(Keep(zones[..7]), n) && zones[i] != 0
    ensures g.InRange(zones[i]) ==> g.Stored(zones[i], n)
  {
    assert zones[..7][i] == zones[i];
    assert zones[i] in Keep(zones[..7]);
  }

  lemma DirectSnoc(zones: seq<nat>, i: nat)
    requires i < 7 <= |zones|
    ensures Keep(zones[..i + 1]) == if zones[i] == 0 then Keep(zones[..i]) else Keep(zones[..i]) + [zones[i]]
    ensures Keep(zones[..i + 1]) <= Keep(zones[..7])
  {
    assert zones[..i + 1] == zones[..i] + [zones[i]];
    KeepSnoc(zones[..i], zones[i]);
    assert zones[..7][..i + 1] == zones[..i + 1];
    KeepPrefix(zones[..7], i + 1);
  }

  /** One direct zone. */
  method ReadDirectZone(dev: BlockDevice, g: Geo, r: Request, zones: seq<nat>, i: nat, data: array<byte>,
                        zoneData: array<byte>, bufferCursor: nat, fileCursor: nat, ghost was: seq<byte>)
    returns (bc: nat, fc: nat, done: bool)
    requires Setup(dev, g, r, data, zoneData, was)
    requires i < 7 <= |zones| && zones[i] != 0 && g.Readable(Keep(zones[..7]), |dev.bytes|)
    requires Walked(g, r, dev.bytes, Keep(zones[..i]), was, data[..], bufferCursor, fileCursor, false)
    modifies data, zoneData
    ensures var vs := Keep(if done then zones[..7] else zones[..i + 1]);
            && Walked(g, r, dev.bytes, vs, was, data[..], bc, fc, done)
            && BufferReady(g, r, dev.bytes, vs, zoneData[..], true)
  {
    ghost var seen, next, all := Keep(zones[..i]), Keep(zones[..i + 1]), Keep(zones[..7]);
    DirectSnoc(zones, i);
    DirectReadable(g, zones, i, |dev.bytes|);
    assert zoneData.Length == g.size && data != zoneData;
    hide Walked, Setup, Keep, Geo.Readable, Geo.Stored, Geo.InRange;
    Clear(zoneData);
    bc, fc, done := ReadZone(dev, g, r, zones[i], data, zoneData, bufferCursor, fileCursor, seen, was, true);
    if done {
      assert r.count <= |was| by { SetupCount(dev, g, r, data, zoneData, was); }
      WalkedExtends(g, r, dev.bytes, next, all, was, data[..], bc, fc, zoneData[..], true);
    }
  }

  lemma SetupCount(dev: BlockDevice, g: Geo, r: Request, data: array<byte>, zoneData: array<byte>, was: seq<byte>)
    requires Setup(dev, g, r, data, zoneData, was)
    ensures r.count <= |was|
  {
  }

  /** The loop over the direct zones. */
  method ReadDirect(dev: BlockDevice, g: Geo, r: Request, zones: seq<nat>, data: array<byte>, zoneData: array<byte>,
                    ghost was: seq<byte>)
    returns (bc: nat, fc: nat, done: bool)
    requires Setup(dev, g, r, data, zoneData, was) && data[..] == was
    requires |zones| == 10 && g.Readable(Keep(zones[..7]), |dev.bytes|)
    modifies data, zoneData
    ensures Walked(g, r, dev.bytes, Keep(zones[..7]), was, data[..], bc, fc, done)
    ensures BufferReady(g, r, dev.bytes, Keep(zones[..7]), zoneData[..], Keep(zones[..7]) != [])
  {
    bc, fc, done := 0, 0, false;
    ghost var d := dev.bytes;
    var i := 0;
    while i < 7 && !done
      invariant 0 <= i <= 7
      invariant var vs := Keep(if done then zones[..7] else zones[..i]);
                && Walked(g, r, d, vs, was, data[..], bc, fc, done)
                && BufferReady(g, r, d, vs, zoneData[..], vs != [])
    {
      var zone := zones[i];
      DirectSnoc(zones, i);
      if zone != 0 {
        bc, fc, done := ReadDirectZone(dev, g, r, zones, i, data, zoneData, bc, fc, was);
      }
      i := i + 1;
    }
  }

  /** The three indirect levels of an inode: nothing is read when the block is missing or the request is served. */
  method SingleLevel(dev: BlockDevice, g: Geo, r: Request, zone: nat, data: array<byte>, zoneData: array<byte>,
                    bufferCursor: nat, fileCursor: nat, finished: bool, ghost vs: seq<nat>, ghost was: seq<byte>,
                    ghost clear: bool)
    returns (bc: nat, fc: nat, done: bool)
    requires Setup(dev, g, r, data, zoneData, was)
    requires zone != 0 ==> g.Stored(zone, |dev.bytes|) && g.Readable(g.Entries(dev.bytes, zone), |dev.bytes|)
    requires StartClear(g, r, dev.bytes, vs + g.Single(dev.bytes, zone), clear)
    requires Walked(g, r, dev.bytes, vs, was, data[..], bufferCursor, fileCursor, finished)
    requires BufferReady(g, r, dev.bytes, vs, zoneData[..], clear)
    modifies data, zoneData
    ensures var ws := vs + g.Single(dev.bytes, zone);
            && Walked(g, r, dev.bytes, ws, was, data[..], bc, fc, done)
            && BufferReady(g, r, dev.bytes, ws, zoneData[..], clear)
  {
    bc, fc, done := bufferCursor, fileCursor, finished;
    if finished {
      WalkedExtends(g, r, dev.bytes, vs, vs + g.Single(dev.bytes, zone), was, data[..], bc, fc, zoneData[..], clear);
    } else if zone != 0 {
      bc, fc, done := ReadIndirect(dev, g, r, zone, true, data, zoneData, bc, fc, vs, was, clear);
    } else {
      assert vs + g.Single(dev.bytes, zone) == vs;
    }
  }

  method DoubleLevel(dev: BlockDevice, g: Geo, r: Request, zone: nat, data: array<byte>, zoneData: array<byte>,
                    bufferCursor: nat, fileCursor: nat, finished: bool, ghost vs: seq<nat>, ghost was: seq<byte>,
                    ghost clear: bool)
    returns (bc: nat, fc: nat, done: bool)
    requires Setup(dev, g, r, data, zoneData, was)
    requires zone != 0 ==> g.Stored(zone, |dev.bytes|) && Readable2(g, dev.bytes, g.Entries(dev.bytes, zone))
    requires StartClear(g, r, dev.bytes, vs + g.Double(dev.bytes, zone), clear)
    requires Walked(g, r, dev.bytes, vs, was, data[..], bufferCursor, fileCursor, finished)
    requires BufferReady(g, r, dev.bytes, vs, zoneData[..], clear)
    modifies data, zoneData
    ensures var ws := vs + g.Double(dev.bytes, zone);
            && Walked(g, r, dev.bytes, ws, was, data[..], bc, fc, done)
            && BufferReady(g, r, dev.bytes, ws, zoneData[..], clear)
  {
    bc, fc, done := bufferCursor, fileCursor, finished;
    if finished {
      WalkedExtends(g, r, dev.bytes, vs, vs + g.Double(dev.bytes, zone), was, data[..], bc, fc, zoneData[..], clear);
    } else if zone != 0 {
      bc, fc, done := ReadDouble(dev, g, r, zone, data, zoneData, bc, fc, vs, was, clear);
    } else {
      assert vs + g.Double(dev.bytes, zone) == vs;
    }
  }

  method TripleLevel(dev: BlockDevice, g: Geo, r: Request, zone: nat, data: array<byte>, zoneData: array<byte>,
                    bufferCursor: nat, fileCursor: nat, finished: bool, ghost vs: seq<nat>, ghost was: seq<byte>,
                    ghost clear: bool)
    returns (bc: nat, fc: nat, done: bool)
    requires Setup(dev, g, r, data, zoneData, was)
    requires zone != 0 ==> g.Stored(zone, |dev.bytes|) && Readable3(g, dev.bytes, g.Entries(dev.bytes, zone))
    requires StartClear(g, r, dev.bytes, vs + g.Triple(dev.bytes, zone), clear)
    requires Walked(g, r, dev.bytes, vs, was, data[..], bufferCursor, fileCursor, finished)
    requires BufferReady(g, r, dev.bytes, vs, zoneData[..], clear)
    modifies data, zoneData
    ensures var ws := vs + g.Triple(dev.bytes, zone);
            && Walked(g, r, dev.bytes, ws, was, data[..], bc, fc, done)
            && BufferReady(g, r, dev.bytes, ws, zoneData[..], clear)
  {
    bc, fc, done := bufferCursor, fileCursor, finished;
    if finished {
      WalkedExtends(g, r, dev.bytes, vs, vs + g.Triple(dev.bytes, zone), was, data[..], bc, fc, zoneData[..], clear);
    } else if zone != 0 {
      bc, fc, done := ReadTriple(dev, g, r, zone, data, zoneData, bc, fc, vs, was, clear);
    } else {
      assert vs + g.Triple(dev.bytes, zone) == vs;
    }
  }

  /** The walk over all four levels. */
  method ReadLevels(dev: BlockDevice, g: Geo, r: Request, zones: seq<nat>, data: array<byte>)
    requires g.Ok() && DiskOk(dev.bytes) && r.Ok(g) && r.count <= data.Length
    requires |zones| == 10 && FileReadable(g, dev.bytes, zones) && StartReadable(g, r, dev.bytes, zones)
    modifies data
    ensures data[..] == ReadResult(g.Flat(dev.bytes, g.ReadZones(dev.bytes, zones)), r.offset, r.count, old(data[..]))
  {
    var zoneData := new byte[g.size];
    ghost var was, d := data[..], dev.bytes;
    ghost var clear, v1 := Keep(zones[..7]) != [], Keep(zones[..7]);
    ghost var v2 := v1 + g.Single(d, zones[7]);
    ghost var v3 := v2 + g.Double(d, zones[8]);
    ghost var all := v3 + g.Triple(d, zones[9]);
    StartClearPrefix(g, r, d, v2, all, clear);
    StartClearPrefix(g, r, d, v3, all, clear);
    var bc, fc, done := ReadDirect(dev, g, r, zones, data, zoneData, was);
    bc, fc, done := SingleLevel(dev, g, r, zones[7], data, zoneData, bc, fc, done, v1, was, clear);
    bc, fc, done := DoubleLevel(dev, g, r, zones[8], data, zoneData, bc, fc, done, v2, was, clear);
    bc, fc, done := TripleLevel(dev, g, r, zones[9], data, zoneData, bc, fc, done, v3, was, clear);
  }

  /** A buffer after a read of a file, told by the block map: as far as no block is missing, and for any file. */
  ghost predicate ReadByMap(d: seq<byte>, sb: SuperBlock, n: Inode, offset: nat, count: nat, was: seq<byte>,
                            now: seq<byte>)
    requires sb.Geometry().Ok() && n.Ok() && count <= |now|
  {
    var size, first, last := sb.ZoneSize(), sb.firstDataZone, (sb.numZones + sb.firstDataZone) % 0x1_0000_0000;
    && FromMap(d, size, n.zones, first, last, offset, now[..count])
    && IsRead(d, size, first, last, ReadMap(d, size, n.zones), offset, count, was, now)
  }

  /** minix3_get_data: the buffer receives the bytes of the flat file in the range, as many as there are. */
  method GetData(dev: BlockDevice, cache: InodeCache, sb: SuperBlock, inode: nat, data: array<byte>, offset: nat,
                 count: nat)
    requires sb.Geometry().Ok() && DiskOk(dev.bytes) && InodeOnDisk(sb, inode, |dev.bytes|) && cache.data.Ok()
    requires Request(offset, count).Ok(sb.Geometry()) && count <= data.Length
    requires FileReadable(sb.Geometry(), dev.bytes, Seen(cache.last, cache.data, dev.bytes, sb, inode).zones)
    requires StartReadable(sb.Geometry(), Request(offset, count), dev.bytes,
                           Seen(cache.last, cache.data, dev.bytes, sb, inode).zones)
    modifies data, cache
    ensures var n := old(Seen(cache.last, cache.data, dev.bytes, sb, inode));
            && data[..] == ReadResult(FileOf(dev.bytes, sb, n), offset, count, old(data[..]))
            && (if inode == INVALID_INODE then unchanged(cache) else cache.last == inode && cache.data == n)
    ensures ReadByMap(dev.bytes, sb, old(Seen(cache.last, cache.data, dev.bytes, sb, inode)), offset, count,
                      old(data[..]), data[..])
  {
    var inodeData := GetInode(dev, cache, sb, inode);
    ghost var was := data[..];
    ReadLevels(dev, sb.Geometry(), Request(offset, count), inodeData.zones, data);
    ReadFromMap(sb.Geometry(), dev.bytes, inodeData.zones, offset, count, was);
    ReadByVisited(sb.Geometry(), dev.bytes, inodeData.zones, offset, count, was);
  }

  lemma ReadableTree(g: Geo, d: seq<byte>, zones: seq<nat>)
    requires |zones| == 10 && FileReadable(g, d, zones)
    ensures TreeStored(g, d, zones)
  {
    hide Geo.Stored, Geo.Entries, Geo.Readable, Geo.Leaves;
  }

  lemma ReadableAppend(g: Geo, vs: seq<nat>, ws: seq<nat>, n: nat)
    requires g.Readable(vs, n) && g.Readable(ws, n)
    ensures g.Readable(vs + ws, n)
  {
  }

  lemma {:induction false} Leaves2Readable(g: Geo, d: seq<byte>, es: seq<nat>)
    requires Readable2(g, d, es)
    ensures g.Readable(g.Leaves2(d, es), |d|)
  {
    hide Geo.Stored, Geo.Leaves, Geo.Readable;
    if es != [] {
      var us, e := es[..|es| - 1], es[|es| - 1];
      Leaves2Readable(g, d, us);
      if e != 0 {
        ReadableAppend(g, g.Leaves2(d, us), g.Leaves(d, e), |d|);
      }
    } else {
      NoneReadable(g, |d|);
    }
  }

  lemma NoneReadable(g: Geo, n: nat)
    ensures g.Readable([], n)
  {
  }

  lemma {:induction false} Leaves3Readable(g: Geo, d: seq<byte>, es: seq<nat>)
    requires Readable3(g, d, es)
    ensures g.Readable(g.Leaves3(d, es), |d|)
  {
    hide Geo.Stored, Geo.Leaves2, Geo.Entries, Geo.Readable, Readable2;
    if es != [] {
      var us, e := es[..|es| - 1], es[|es| - 1];
      Leaves3Readable(g, d, us);
      if e != 0 {
        Leaves2Readable(g, d, g.Entries(d, e));
        ReadableAppend(g, g.Leaves3(d, us), g.Leaves2(d, g.Entries(d, e)), |d|);
      }
    } else {
      NoneReadable(g, |d|);
    }
  }

  /** Every accepted zone that a read visits is on the disk. */
  lemma ZonesReadable(g: Geo, d: seq<byte>, zones: seq<nat>)
    requires |zones| == 10 && FileReadable(g, d, zones)
    ensures g.Readable(g.ReadZones(d, zones), |d|)
  {
    hide Geo.Stored, Geo.Leaves2, Geo.Leaves3, Geo.Entries, Geo.Readable, Readable2, Readable3, Keep;
    NoneReadable(g, |d|);
    if zones[8] != 0 {
      Leaves2Readable(g, d, g.Entries(d, zones[8]));
    }
    if zones[9] != 0 {
      Leaves3Readable(g, d, g.Entries(d, zones[9]));
    }
    var a, b := Keep(zones[..7]), g.Single(d, zones[7]);
    ReadableAppend(g, a, b, |d|);
    ReadableAppend(g, a + b, g.Double(d, zones[8]), |d|);
    ReadableAppend(g, a + b + g.Double(d, zones[8]), g.Triple(d, zones[9]), |d|);
  }

  /** A byte of the flat file is found on the disk by the block map, as far as no block is missing. */
  lemma ReadByte(g: Geo, d: seq<byte>, zones: seq<nat>, k: nat, i: nat)
    requires g.Ok() && |zones| == 10 && FileReadable(g, d, zones) && NoGap(d, g.size, zones, k) && i < g.size
    ensures k * g.size + i < |g.Flat(d, g.ReadZones(d, zones))|
    ensures g.Flat(d, g.ReadZones(d, zones))[k * g.size + i]
            == BlockByte(d, g.size, g.first, g.last, BlockNumber(d, g.size, zones, k), i)
  {
    hide Geo.Flat, Geo.ZoneBytes, Geo.ReadZones, Geo.WriteZones, FileReadable, TreeStored, BlockNumber, NoGap;
    ReadableTree(g, d, zones);
    ZonesAreMap(g, d, zones, k);
    FlatPlace(g, d, g.ReadZones(d, zones), k, i);
    ZonesReadable(g, d, zones);
    ZoneByte(g, d, g.ReadZones(d, zones)[k], i);
  }

  lemma ReadFromMap(g: Geo, d: seq<byte>, zones: seq<nat>, offset: nat, count: nat, was: seq<byte>)
    requires g.Ok() && |zones| == 10 && FileReadable(g, d, zones) && count <= |was|
    ensures FromMap(d, g.size, zones, g.first, g.last, offset,
                    ReadResult(g.Flat(d, g.ReadZones(d, zones)), offset, count, was)[..count])
  {
    var f := g.Flat(d, g.ReadZones(d, zones));
    var now := ReadResult(f, offset, count, was);
    ReadResultAt(f, offset, count, was);
    assert g.size >= 4;
    forall i | 0 <= i < count ensures IsFileByte(d, g.size, zones, g.first, g.last, offset + i, now[i]) {
      ReadByteIs(g, d, zones, offset + i, now[i]);
    }
    hide *;
  }

  /** What a read returns of any file, with holes or without. */
  lemma ReadByVisited(g: Geo, d: seq<byte>, zones: seq<nat>, offset: nat, count: nat, was: seq<byte>)
    requires g.Ok() && |zones| == 10 && FileReadable(g, d, zones) && count <= |was|
    ensures IsRead(d, g.size, g.first, g.last, ReadMap(d, g.size, zones), offset, count, was,
                   ReadResult(g.Flat(d, g.ReadZones(d, zones)), offset, count, was))
  {
    ReadableTree(g, d, zones);
    ReadZonesAreMap(g, d, zones);
    ZonesReadable(g, d, zones);
    assert 0 < g.size;
    var vs := g.ReadZones(d, zones);
    hide *;
    ReadOfZones(g, d, vs, offset, count, was);
  }

  lemma ReadOfZones(g: Geo, d: seq<byte>, vs: seq<nat>, offset: nat, count: nat, was: seq<byte>)
    requires g.Ok() && g.Readable(vs, |d|) && count <= |was|
    ensures IsRead(d, g.size, g.first, g.last, vs, offset, count, was, ReadResult(g.Flat(d, vs), offset, count, was))
  {
    hide Geo.Flat, ByteOr, ReadResult, Geo.Readable;
    var f := g.Flat(d, vs);
    ReadResultAt(f, offset, count, was);
    var now := ReadResult(f, offset, count, was);
    forall i | 0 <= i < |was|
      ensures now[i] == if i < count then ByteOr(d, g.size, g.first, g.last, vs, offset + i, was[i]) else was[i]
    {
      ByteOfZones(g, d, vs, offset + i, was[i]);
    }
  }

  lemma ByteOfZones(g: Geo, d: seq<byte>, vs: seq<nat>, o: nat, x: byte)
    requires g.Ok() && g.Readable(vs, |d|)
    ensures ByteOr(d, g.size, g.first, g.last, vs, o, x) == if o < |g.Flat(d, vs)| then g.Flat(d, vs)[o] else x
  {
    hide Geo.Flat, Geo.ZoneBytes, BlockByte;
    var k, i := Place(o, g.size);
    FlatSize(g, d, vs);
    PlaceBound(o, g.size, |vs|);
    if k < |vs| {
      FlatPlace(g, d, vs, k, i);
      ZoneByte(g, d, vs[k], i);
    }
  }

  lemma ReadByteIs(g: Geo, d: seq<byte>, zones: seq<nat>, o: nat, x: byte)
    requires g.Ok() && |zones| == 10 && FileReadable(g, d, zones)
    requires var f := g.Flat(d, g.ReadZones(d, zones)); o < |f| ==> x == f[o]
    ensures IsFileByte(d, g.size, zones, g.first, g.last, o, x)
  {
    hide Geo.Flat, Geo.ReadZones, FileReadable, BlockNumber, NoGap, BlockByte;
    var k, i := Place(o, g.size);
    if NoGap(d, g.size, zones, k) {
      ReadByte(g, d, zones, k, i);
    }
  }

  /** The flat file of an inode: what the zones a read visits hold, in order. */
  function FileOf(d: seq<byte>, sb: SuperBlock, n: Inode): seq<byte>
    requires n.Ok()
  {
    var g := sb.Geometry();
    g.Flat(d, g.ReadZones(d, n.zones))
  }

  function FileBytes(d: seq<byte>, sb: SuperBlock, inode: nat): seq<byte>
    requires InodeOnDisk(sb, inode, |d|)
  {
    FileOf(d, sb, InodeAt(d, sb, inode))
  }
}
