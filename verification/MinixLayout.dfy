/** Where the bytes of a Minix 3 file lie on the disk: zones, indirect blocks and the order in which
    src/minix3.c visits them. */
module MinixLayout {
  import opened Sequences
  import opened BlockIo

  /** What the superblock fixes: the zone size and the range of zone numbers that are accepted. */
  datatype Geo = Geo(size: nat, first: nat, last: nat) {
    predicate Ok() {
      1024 <= size <= 32768 && size % 1024 == 0
    }

    predicate InRange(z: nat) { first <= z <= last }

    /** `z * size`, as a sum. */
    function Start(z: nat): nat {
      if z == 0 then 0 else Start(z - 1) + size
    }

    /** A zone that is accepted and lies on a disk of `n` bytes. */
    predicate Stored(z: nat, n: nat) {
      InRange(z) && Start(z) + size <= n
    }

    function Block(d: seq<byte>, z: nat): (r: seq<byte>)
      requires Start(z) + size <= |d|
      ensures |r| == size
    {
      d[Start(z)..Start(z) + size]
    }

    /** What reading zone `z` into a cleared buffer gives: a number that is not accepted leaves it cleared. */
    function ZoneBytes(d: seq<byte>, z: nat): (r: seq<byte>)
      ensures |r| == size
    {
      if Stored(z, |d|) then Block(d, z) else seq(size, _ => 0)
    }

    /** The bytes of a list of zones, one zone after another. */
    function Flat(d: seq<byte>, vs: seq<nat>): seq<byte> {
      if vs == [] then [] else Flat(d, vs[..|vs| - 1]) + ZoneBytes(d, vs[|vs| - 1])
    }

    /** The zone numbers held in an indirect block, as little-endian 32-bit words. */
    function Entries(d: seq<byte>, z: nat): seq<nat> {
      if Stored(z, |d|) then seq(size / 4, i requires 0 <= i < size / 4 => Word(Block(d, z), i)) else []
    }

    /** The data zones below an indirect block, in order, without the holes. */
    function Leaves(d: seq<byte>, z: nat): seq<nat> {
      Keep(Entries(d, z))
    }

    lemma LeavesAre(d: seq<byte>, z: nat)
      ensures Leaves(d, z) == Keep(Entries(d, z)) && Keep([]) == []
    {
    }

    /** The data zones below a list of indirect blocks. */
    function Leaves2(d: seq<byte>, es: seq<nat>): seq<nat> {
      if es == [] then [] else
      var rest, e := Leaves2(d, es[..|es| - 1]), es[|es| - 1];
      if e == 0 then rest else rest + Leaves(d, e)
    }

    /** The data zones below a list of double indirect blocks. */
    function Leaves3(d: seq<byte>, es: seq<nat>): seq<nat> {
      if es == [] then [] else
      var rest, e := Leaves3(d, es[..|es| - 1]), es[|es| - 1];
      if e == 0 then rest else rest + Leaves2(d, Entries(d, e))
    }

    /** The zones below the three indirect blocks of an inode; zero stands for no block. */
    function Single(d: seq<byte>, z: nat): seq<nat> {
      if z != 0 then Entries(d, z) else []
    }

    function Double(d: seq<byte>, z: nat): seq<nat> {
      if z != 0 then Leaves2(d, Entries(d, z)) else []
    }

    function Triple(d: seq<byte>, z: nat): seq<nat> {
      if z != 0 then Leaves3(d, Entries(d, z)) else []
    }

    /** The zones a read visits: holes count as zones in the single indirect block, and only there. */
    function ReadZones(d: seq<byte>, zones: seq<nat>): seq<nat>
      requires |zones| == 10
    {
      Keep(zones[..7]) + Single(d, zones[7]) + Double(d, zones[8]) + Triple(d, zones[9])
    }

    /** The zones a write visits: no hole counts. */
    function WriteZones(d: seq<byte>, zones: seq<nat>): seq<nat>
      requires |zones| == 10
    {
      Keep(zones[..7]) + Keep(Single(d, zones[7])) + Double(d, zones[8]) + Triple(d, zones[9])
    }

    /** Every listed zone is accepted and on the disk. */
    ghost predicate AllStored(vs: seq<nat>, n: nat) {
      forall i :: 0 <= i < |vs| ==> Stored(vs[i], n)
    }

    /** Every listed zone that is accepted is on the disk. */
    ghost predicate Readable(vs: seq<nat>, n: nat) {
      forall i :: 0 <= i < |vs| && InRange(vs[i]) ==> Start(vs[i]) + size <= n
    }

    /** Address `a` is in none of the zones. */
    ghost predicate Outside(vs: seq<nat>, a: int) {
      forall i :: 0 <= i < |vs| ==> a < Start(vs[i]) || Start(vs[i]) + size <= a
    }

    // ---------------------------------------------------------------- places on the disk

    lemma {:induction false} StartIsProduct(z: nat)
      ensures Start(z) == z * size
    {
      if z > 0 {
        StartIsProduct(z - 1);
        assert z * size == (z - 1) * size + size;
      }
    }

    lemma {:induction false} StartAligned(z: nat)
      requires Ok()
      ensures Start(z) % 1024 == 0
    {
      if z > 0 {
        StartAligned(z - 1);
      }
    }

    lemma {:induction false} StartOrder(y: nat, z: nat)
      requires y < z
      ensures Start(y) + size <= Start(z)
    {
      if y + 1 < z {
        StartOrder(y, z - 1);
      }
    }

    lemma OtherZone(vs: seq<nat>, z: nat, a: int)
      requires z !in vs && Start(z) <= a < Start(z) + size
      ensures Outside(vs, a)
    {
      forall i | 0 <= i < |vs| ensures a < Start(vs[i]) || Start(vs[i]) + size <= a {
        if vs[i] < z { StartOrder(vs[i], z); } else { StartOrder(z, vs[i]); }
      }
    }

    // ---------------------------------------------------------------- the flat file

    lemma FlatSnoc(d: seq<byte>, vs: seq<nat>, z: nat)
      ensures Flat(d, vs + [z]) == Flat(d, vs) + ZoneBytes(d, z)
      ensures |Flat(d, vs + [z])| == |Flat(d, vs)| + size
    {
      assert (vs + [z])[..|vs|] == vs;
    }

    /** A longer list of zones only adds bytes at the end. */
    lemma {:induction false} FlatPrefix(d: seq<byte>, vs: seq<nat>, ws: seq<nat>)
      requires vs <= ws
      ensures Flat(d, vs) <= Flat(d, ws)
      decreases |ws|
    {
      if vs == ws {
      } else {
        FlatPrefix(d, vs, ws[..|ws| - 1]);
      }
    }

    lemma {:induction false} FlatAppend(d: seq<byte>, vs: seq<nat>, ws: seq<nat>)
      ensures Flat(d, vs + ws) == Flat(d, vs) + Flat(d, ws)
      decreases |ws|
    {
      hide ZoneBytes, Stored;
      if ws == [] {
        assert vs + ws == vs;
      } else {
        var us, z := ws[..|ws| - 1], ws[|ws| - 1];
        FlatAppend(d, vs, us);
        assert vs + ws == (vs + us) + [z] && ws == us + [z];
        FlatSnoc(d, vs + us, z);
        FlatSnoc(d, us, z);
        AppendAssociates(Flat(d, vs), Flat(d, us), ZoneBytes(d, z));
      }
    }

    lemma {:induction false} Leaves2Prefix(d: seq<byte>, es: seq<nat>, k: nat)
      requires k <= |es|
      ensures Leaves2(d, es[..k]) <= Leaves2(d, es)
      decreases |es|
    {
      if k < |es| {
        Leaves2Prefix(d, es[..|es| - 1], k);
        assert es[..|es| - 1][..k] == es[..k];
      } else {
        assert es[..k] == es;
      }
    }

    lemma {:induction false} Leaves3Prefix(d: seq<byte>, es: seq<nat>, k: nat)
      requires k <= |es|
      ensures Leaves3(d, es[..k]) <= Leaves3(d, es)
      decreases |es|
    {
      if k < |es| {
        Leaves3Prefix(d, es[..|es| - 1], k);
        assert es[..|es| - 1][..k] == es[..k];
      } else {
        assert es[..k] == es;
      }
    }

    lemma LeavesOfNone(d: seq<byte>)
      ensures Leaves2(d, []) == [] && Leaves3(d, []) == []
    {
    }

    lemma Leaves2Snoc(d: seq<byte>, es: seq<nat>, k: nat)
      requires k < |es|
      ensures Leaves2(d, es[..k + 1]) == if es[k] == 0 then Leaves2(d, es[..k])
              else Leaves2(d, es[..k]) + Leaves(d, es[k])
    {
      assert es[..k + 1][..k] == es[..k];
    }

    lemma Leaves3Snoc(d: seq<byte>, es: seq<nat>, k: nat)
      requires k < |es|
      ensures Leaves3(d, es[..k + 1])
           == if es[k] == 0 then Leaves3(d, es[..k]) else Leaves3(d, es[..k]) + Leaves2(d, Entries(d, es[k]))
    {
      assert es[..k + 1][..k] == es[..k];
    }

    /** Zones whose blocks are equal on two disks hold equal bytes. */
    lemma {:induction false} FlatSame(d: seq<byte>, e: seq<byte>, vs: seq<nat>)
      requires |d| == |e|
      requires forall i :: 0 <= i < |vs| ==> ZoneBytes(d, vs[i]) == ZoneBytes(e, vs[i])
      ensures Flat(d, vs) == Flat(e, vs)
    {
      if vs != [] {
        FlatSame(d, e, vs[..|vs| - 1]);
      }
    }
  }

  /** Word `i` of a block of little-endian 32-bit words. */
  function Word(s: seq<byte>, i: nat): nat
    requires 4 * i + 4 <= |s|
  {
    s[4 * i] as int + 0x100 * s[4 * i + 1] as int + 0x1_0000 * s[4 * i + 2] as int + 0x100_0000 * s[4 * i + 3] as int
  }

  /** A list without its zeros. */
  function Keep(s: seq<nat>): (r: seq<nat>)
    ensures forall z :: z in r <==> z in s && z != 0
  {
    if s == [] then [] else
    var rest, e := Keep(s[..|s| - 1]), s[|s| - 1];
    assert s == s[..|s| - 1] + [e];
    if e == 0 then rest else rest + [e]
  }

  lemma KeepSnoc(s: seq<nat>, z: nat)
    ensures Keep(s + [z]) == if z == 0 then Keep(s) else Keep(s) + [z]
  {
    assert (s + [z])[..|s|] == s;
  }

  lemma KeepPrefix(s: seq<nat>, k: nat)
    requires k <= |s|
    ensures Keep(s[..k]) <= Keep(s)
  {
    assert s == s[..k] + s[k..];
    KeepAppend(s[..k], s[k..]);
  }

  lemma {:induction false} KeepAppend(s: seq<nat>, t: seq<nat>)
    ensures Keep(s + t) == Keep(s) + Keep(t)
  {
    if t == [] {
      assert s + t == s;
    } else {
      var u, z := t[..|t| - 1], t[|t| - 1];
      KeepAppend(s, u);
      assert s + t == (s + u) + [z] && t == u + [z];
      KeepSnoc(s + u, z);
      KeepSnoc(u, z);
      AppendAssociates(Keep(s), Keep(u), [z]);
    }
  }

  lemma {:induction false} KeepNonzero(s: seq<nat>)
    requires 0 !in s
    ensures Keep(s) == s
  {
    if s != [] {
      KeepNonzero(s[..|s| - 1]);
    }
  }

  /** No hole comes before a zone. */
  ghost predicate Dense(s: seq<nat>) {
    forall i, j :: 0 <= i < j < |s| && s[i] == 0 ==> s[j] == 0
  }

  lemma {:induction false} KeepLength(s: seq<nat>)
    ensures |Keep(s)| <= |s|
    ensures 0 in s ==> |Keep(s)| < |s|
  {
    if s != [] {
      KeepLength(s[..|s| - 1]);
      assert s == s[..|s| - 1] + [s[|s| - 1]];
    }
  }

  /** Leaving out the holes leaves a prefix exactly when no hole comes before a zone. */
  lemma {:induction false} KeepIsPrefixIff(s: seq<nat>)
    ensures Keep(s) <= s <==> Dense(s)
  {
    if s == [] {
    } else {
      var t, e := s[..|s| - 1], s[|s| - 1];
      assert s == t + [e];
      KeepIsPrefixIff(t);
      KeepLength(t);
      if e == 0 {
        assert Dense(t) ==> Dense(s);
        assert Dense(s) ==> Dense(t);
        assert Keep(t) <= t <==> Keep(t) <= s;
      } else if 0 in t {
        var i :| 0 <= i < |t| && t[i] == 0;
        assert !Dense(s) by { assert s[i] == 0 && s[|t|] != 0; }
        var k := |Keep(t)|;
        assert Keep(s)[k] == e;
        if Keep(s) <= s {
          assert Keep(t) <= t;
          assert Dense(t);
          assert s[k] == e;
          KeepFirstHole(t);
        }
      } else {
        KeepNonzero(t);
        assert Dense(s);
      }
    }
  }

  /** In a dense list the holes begin right after the zones that are kept. */
  lemma {:induction false} KeepFirstHole(s: seq<nat>)
    requires Dense(s) && 0 in s
    ensures |Keep(s)| < |s| && s[|Keep(s)|] == 0
  {
    var t, e := s[..|s| - 1], s[|s| - 1];
    assert s == t + [e];
    KeepLength(t);
    if 0 in t {
      KeepFirstHole(t);
      var i :| 0 <= i < |t| && t[i] == 0;
      assert s[i] == 0;
    } else {
      KeepNonzero(t);
    }
  }
}
