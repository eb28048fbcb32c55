/** The driver side of a queue, src/virtio.c: the descriptor table and the two rings live in memory shared
    with the device, the two cursors are the driver's own. */
module Virtio {
  import opened Words
  import opened Arith
  import opened Virtqueue

  /** The remainder the driver computes is the slot of the laws. */
  method Wrapped(x: nat, size: nat) returns (s: nat)
    requires 0 < size
    ensures s == Slot(x, size)
  {
    SlotIsMod(x, size);
    s := x % size;
  }

  method SetNext(flags: bv16) returns (r: bv16)
    ensures r == WithNext(flags, true)
  {
    r := flags | F_NEXT;
  }

  method ClearNext(flags: bv16) returns (r: bv16)
    ensures r == WithNext(flags, false)
  {
    r := flags & !F_NEXT;
  }

  /** Sets or clears NEXT on a descriptor that goes to slot `index`. */
  method LinkTo(d: Descriptor, index: nat, head: nat, i: nat, num: nat, size: nat) returns (descriptor: Descriptor)
    requires 0 < size && i < num && index == SlotAt(head, i, size)
    ensures descriptor == Linked(d, head, i, num, size)
  {
    hide Slot, SameFlags, WithNext;
    descriptor := d;
    if i < num - 1 {
      var next := Wrapped(index + 1, size);
      var flags := SetNext(descriptor.flags);
      descriptor := descriptor.(next := next, flags := flags);
    } else {
      var flags := ClearNext(descriptor.flags);
      descriptor := descriptor.(next := 0, flags := flags);
    }
  }

  lemma SlotsOfChain(size: nat, head: nat)
    requires 0 < size
    ensures forall i: nat :: SlotAt(head, i, size) == (head + i) % size
  {
    hide Slot;
    forall i: nat ensures SlotAt(head, i, size) == (head + i) % size {
      SlotIsMod(head + i, size);
    }
  }

  /** A slot at least `n` places behind the head is none of the first `n`. */
  lemma FreeSlot(size: nat, head: nat, n: nat, x: nat)
    requires 0 < size && (x - head) % size >= n
    ensures forall i :: 0 <= i < n ==> x != SlotAt(head, i, size)
  {
    hide Slot;
    forall i | 0 <= i < n ensures x != SlotAt(head, i, size) {
      SlotIsMod(head + i, size);
      if x == (head + i) % size {
        NotOffset(size, head, i, x);
      }
    }
  }

  lemma NotOffset(size: nat, head: nat, i: nat, x: nat)
    requires 0 < size && x == (head + i) % size
    ensures (x - head) % size <= i
  {
    var q := (head + i) / size;
    assert head + i == q * size + x;
    var p := i / size;
    assert i == p * size + i % size && i % size <= i by {
      MulLe(0, p, size);
    }
    assert (p - q) * size == p * size - q * size;
    DivModUnique(x - head, size, p - q, i % size);
  }

  /** A table in which the slots from `head` on hold a chain, as far as it has not overwritten itself, and all
      others what they held in `was`. */
  ghost predicate ChainPut(was: seq<Descriptor>, now: seq<Descriptor>, head: nat, chain: seq<Descriptor>) {
    var n := |chain|;
    && 0 < |was| == |now|
    && (forall i :: 0 <= i < n <= i + |now| ==>
          IsLinked(chain[i], now[(head + i) % |now|], i + 1 < n, (head + i + 1) % |now|))
    && forall x :: 0 <= x < |now| && (x - head) % |now| >= n ==> now[x] == was[x]
  }

  /** The table after a chain has been stored, slot by slot. */
  lemma ChainStored(desc: seq<Descriptor>, head: nat, chain: seq<Descriptor>)
    requires 0 < |desc|
    ensures ChainPut(desc, StoreChain(desc, head, LinkedChain(chain, head, |desc|), |chain|), head, chain)
  {
    var n, linked := |chain|, LinkedChain(chain, head, |desc|);
    StoreChainLast(desc, head, linked, n);
    SlotsOfChain(|desc|, head);
    hide StoreChain, Linked, Slot, SlotAt, IsLinked;
    forall i | 0 <= i < n ensures IsLinked(chain[i], linked[i], i + 1 < n, (head + i + 1) % |desc|) {
      LinkedFields(chain[i], head, i, n, |desc|);
    }
    var r := StoreChain(desc, head, linked, n);
    forall i | 0 <= i < n <= i + |desc|
      ensures IsLinked(chain[i], r[(head + i) % |desc|], i + 1 < n, (head + i + 1) % |desc|)
    {
      assert r[SlotAt(head, i, |desc|)] == linked[i];
    }
    forall x | 0 <= x < |desc| && (x - head) % |desc| >= n ensures r[x] == desc[x] {
      FreeSlot(|desc|, head, n, x);
    }
  }

  class VirtioQueue {
    const desc: array<Descriptor>
    const driverRing: array<nat>
    const deviceRing: array<UsedElem>
    var driverIdx: nat
    var deviceRingIdx: nat
    var descIdx: nat
    var deviceIdx: nat
    ghost var completedIdx: nat

    ghost predicate Valid()
      reads this, desc, driverRing, deviceRing
    {
      Shape(Value())
    }

    /** What the laws of the queue speak about. */
    ghost function Value(): Queue
      reads this, desc, driverRing, deviceRing
    {
      Queue(desc.Length, desc[..], driverRing[..], driverIdx, deviceRing[..], deviceRingIdx,
            descIdx, deviceIdx, completedIdx)
    }

    constructor (size: nat)
      requires 0 < size
      ensures Valid() && Value() == InitQueue(desc[..], driverRing[..], deviceRing[..])
      ensures |Value().desc| == size
    {
      desc := new Descriptor[size](_ => Descriptor(0, 0, 0, 0));
      driverRing := new nat[size](_ => 0);
      deviceRing := new UsedElem[size](_ => UsedElem(0, 0));
      driverIdx, deviceRingIdx, descIdx, deviceIdx, completedIdx := 0, 0, 0, 0, 0;
    }

    /** Puts one descriptor of a chain into the table. */
    method StoreOne(d: Descriptor, i: nat, num: nat)
      requires Valid() && i < num
      modifies desc
      ensures desc[..] == old(desc[..])[SlotAt(descIdx, i, desc.Length) := Linked(d, descIdx, i, num, desc.Length)]
    {
      hide Slot, Linked;
      var queueSize := desc.Length;
      var index := Wrapped(descIdx + i, queueSize);
      var descriptor := LinkTo(d, index, descIdx, i, num, queueSize);
      desc[index] := descriptor;
    }

    /** The loop of a send. */
    method StoreAll(descriptors: array<Descriptor>, num: nat)
      requires Valid() && num <= descriptors.Length && descriptors != desc
      modifies desc
      ensures desc[..] == StoreChain(old(desc[..]), descIdx, LinkedChain(descriptors[..num], descIdx, desc.Length), num)
    {
      hide Slot;
      var queueSize := desc.Length;
      ghost var chain, was := descriptors[..num], desc[..];
      ghost var linked := LinkedChain(chain, descIdx, queueSize);
      var i := 0;
      while i < num
        invariant 0 <= i <= num
        invariant descriptors[..num] == chain
        invariant desc[..] == StoreChain(was, descIdx, linked, i)
      {
        assert descriptors[i] == chain[i];
        StoreOne(descriptors[i], i, num);
        i := i + 1;
      }
    }

    /** Puts a head into the driver's ring and moves the indices. */
    method Publish(num: nat)
      requires Valid()
      modifies this`driverIdx, this`descIdx, driverRing
      ensures Valid() && driverIdx == Slot(old(driverIdx) + 1, WORD16)
              && descIdx == Slot(old(descIdx) + num, desc.Length)
      ensures driverRing[..] == old(driverRing[..])[Slot(old(driverIdx), desc.Length) := old(descIdx)]
      ensures forall x :: 0 <= x < desc.Length ==>
                driverRing[x] == if x == old(driverIdx) % desc.Length then old(descIdx) else old(driverRing[x])
      ensures driverIdx == (old(driverIdx) + 1) % 0x1_0000 && descIdx == (old(descIdx) + num) % desc.Length
    {
      var queueSize := desc.Length;
      SlotIsMod(driverIdx, queueSize);
      SlotIsMod(driverIdx + 1, WORD16);
      SlotIsMod(descIdx + num, queueSize);
      hide Slot;
      var slot := Wrapped(driverIdx, queueSize);
      driverRing[slot] := descIdx;
      driverIdx := Wrapped(driverIdx + 1, WORD16);
      descIdx := Wrapped(descIdx + num, queueSize);
    }

    method SendDescriptorChain(descriptors: array<Descriptor>, num: nat)
      requires Valid() && num <= descriptors.Length && descriptors != desc
      modifies this`driverIdx, this`descIdx, desc, driverRing
      ensures Valid() && Value() == Send(old(Value()), descriptors[..num])
      ensures ChainPut(old(desc[..]), desc[..], old(descIdx), descriptors[..num])
      ensures forall x :: 0 <= x < desc.Length ==>
                driverRing[x] == if x == old(driverIdx) % desc.Length then old(descIdx) else old(driverRing[x])
      ensures driverIdx == (old(driverIdx) + 1) % 0x1_0000 && descIdx == (old(descIdx) + num) % desc.Length
    {
      ghost var chain, was, head := descriptors[..num], desc[..], descIdx;
      hide Slot, LinkedChain, StoreChain, ChainPut;
      StoreAll(descriptors, num);
      ChainStored(was, head, chain);
      ghost var now := desc[..];
      Publish(num);
      assert desc[..] == now && descriptors[..num] == chain;
    }

    method HasReceivedDescriptor() returns (b: bool)
      requires Valid()
      ensures b == HasReceived(Value())
    {
      if deviceIdx == deviceRingIdx {
        return false;
      }
      return true;
    }

    /** Reads back the chain the device has reported next.  The walk follows the NEXT flags; the caller's
        buffer must hold the chain, since its length is compared with the bound only after the copy. */
    method ReceiveDescriptorChain(received: array<Descriptor>, ghost chain: seq<Descriptor>) returns (n: nat)
      requires Valid() && received != desc && |chain| <= received.Length && |chain| < WORD16
      requires HasReceived(Value()) ==> WalkIs(Value().desc, ReceiveHead(Value()), chain)
      modifies this`deviceIdx, received
      ensures Valid() && Value() == Receive(old(Value()))
      ensures n == if old(deviceIdx) == old(deviceRingIdx) then 0 else |chain|
      ensures deviceIdx == if old(deviceIdx) == old(deviceRingIdx) then old(deviceIdx)
                           else (old(deviceIdx) + 1) % 0x1_0000
      ensures n > 0 ==> received[..n] == chain
      ensures received[n..] == old(received[n..])
    {
      hide Slot, Linked;
      n := 0;
      var some := HasReceivedDescriptor();
      if some {
        var slot := Wrapped(deviceIdx, desc.Length);
        var index: nat := deviceRing[slot].id;
        var i := 0;
        while HasNext(desc[index])
          invariant 0 <= i < |chain| && index < desc.Length
          invariant unchanged(this) && unchanged(desc) && unchanged(deviceRing) && unchanged(driverRing)
          invariant WalkIs(desc[..], index, chain[i..])
          invariant forall j :: 0 <= j < i ==> received[j] == chain[j]
          invariant forall j :: i <= j < received.Length ==> received[j] == old(received[j])
          decreases |chain| - i
        {
          assert desc[index] == chain[i..][0] == chain[i];
          assert chain[i..][1..] == chain[i + 1..];
          received[i] := desc[index];
          i := i + 1;
          index := desc[index].next;
        }
        assert desc[index] == chain[i..][0] == chain[i];
        received[i] := desc[index];
        i := i + 1;
        assert received[..i] == chain;
        SlotIsMod(deviceIdx + 1, WORD16);
        deviceIdx := Wrapped(deviceIdx + 1, WORD16);
        n := i;
      }
    }
  }
}
