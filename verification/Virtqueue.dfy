/** The split virtqueue of src/virtio.c as a protocol between the driver and a device that completes
    chains in order (VIRTIO 1.1, sections 2.6.5, 2.6.6, 2.6.8 and 2.6.9).

    A queue is what driver and device share in memory and the cursors each keeps; `Send`, `Complete` and
    `Receive` are what one step does to it.
  */
module Virtqueue {
  import opened Words
  import opened Arith

  const F_NEXT: bv16 := 1

  datatype Descriptor = Descriptor(addr: nat, len: nat, flags: bv16, next: nat)

  datatype UsedElem = UsedElem(id: nat, len: nat)

  /** What driver and device share, and the cursors each keeps. */
  datatype Queue = Queue(size: nat, desc: seq<Descriptor>,
                         avail: seq<nat>, availIdx: nat,
                         used: seq<UsedElem>, usedIdx: nat,
                         descIdx: nat, deviceIdx: nat, completedIdx: nat)

  /** `x % size`, by subtraction. */
  function Slot(x: nat, size: nat): (s: nat)
    requires 0 < size
    ensures s < size
  {
    if x < size then x else Slot(x - size, size)
  }

  /** The slot `i` places after position `base`. */
  function SlotAt(base: nat, i: nat, size: nat): (s: nat)
    requires 0 < size
    ensures s < size
  {
    Slot(base + i, size)
  }

  predicate HasNext(d: Descriptor) { d.flags & F_NEXT != 0 }

  /** Flags with NEXT, bit 0, set or cleared. */
  function WithNext(flags: bv16, more: bool): (r: bv16)
    ensures SameFlags(flags, r, more)
  {
    if more then flags | F_NEXT else flags & !F_NEXT
  }

  /** Flags that differ in NEXT, bit 0, at most. */
  predicate SameFlags(f: bv16, g: bv16, more: bool) {
    g & 0xFFFE == f & 0xFFFE && g & 1 == if more then 1 else 0
  }

  /** Descriptor `i` of a chain of `n` whose head is at `head`, as it is put into the table. */
  function Linked(d: Descriptor, head: nat, i: nat, n: nat, size: nat): Descriptor
    requires 0 < size
  {
    if i + 1 < n then d.(next := Slot(SlotAt(head, i, size) + 1, size), flags := WithNext(d.flags, true))
    else d.(next := 0, flags := WithNext(d.flags, false))
  }

  function LinkedChain(chain: seq<Descriptor>, head: nat, size: nat): (r: seq<Descriptor>)
    requires 0 < size
    ensures |r| == |chain|
    ensures forall i :: 0 <= i < |chain| ==> r[i] == Linked(chain[i], head, i, |chain|, size)
  {
    seq(|chain|, i requires 0 <= i < |chain| => Linked(chain[i], head, i, |chain|, size))
  }

  /** The table after the first `k` descriptors of a chain have been stored from slot `head` on. */
  function StoreChain(desc: seq<Descriptor>, head: nat, linked: seq<Descriptor>, k: nat): (r: seq<Descriptor>)
    requires 0 < |desc| && k <= |linked|
    ensures |r| == |desc|
  {
    if k == 0 then desc else StoreChain(desc, head, linked, k - 1)[SlotAt(head, k - 1, |desc|) := linked[k - 1]]
  }

  predicate Shape(q: Queue) {
    && 0 < q.size && |q.desc| == q.size && |q.avail| == q.size && |q.used| == q.size
    && q.availIdx < WORD16 && q.usedIdx < WORD16 && q.deviceIdx < WORD16 && q.completedIdx < WORD16
    && q.descIdx < q.size
  }

  function Send(q: Queue, chain: seq<Descriptor>): (r: Queue)
    requires Shape(q)
    ensures Shape(r)
  {
    q.(desc := StoreChain(q.desc, q.descIdx, LinkedChain(chain, q.descIdx, q.size), |chain|),
       avail := q.avail[Slot(q.availIdx, q.size) := q.descIdx],
       availIdx := Slot(q.availIdx + 1, WORD16),
       descIdx := Slot(q.descIdx + |chain|, q.size))
  }

  /** The device takes the next chain from the available ring and reports it in the used ring. */
  function Complete(q: Queue, len: nat): (r: Queue)
    requires Shape(q)
    ensures Shape(r)
  {
    if q.completedIdx == q.availIdx then q
    else q.(used := q.used[Slot(q.usedIdx, q.size) := UsedElem(q.avail[Slot(q.completedIdx, q.size)], len)],
            usedIdx := Slot(q.usedIdx + 1, WORD16),
            completedIdx := Slot(q.completedIdx + 1, WORD16))
  }

  predicate HasReceived(q: Queue) { q.deviceIdx != q.usedIdx }

  /** The walk over NEXT flags from slot `at` meets exactly the descriptors of `chain`. */
  ghost predicate WalkIs(desc: seq<Descriptor>, at: nat, chain: seq<Descriptor>)
    decreases |chain|
  {
    && chain != [] && at < |desc| && desc[at] == chain[0]
    && if HasNext(chain[0]) then WalkIs(desc, chain[0].next, chain[1..]) else |chain| == 1
  }

  /** Where the driver starts the walk. */
  function ReceiveHead(q: Queue): nat
    requires Shape(q)
  {
    q.used[Slot(q.deviceIdx, q.size)].id
  }

  function Receive(q: Queue): (r: Queue)
    requires Shape(q)
    ensures Shape(r)
  {
    if HasReceived(q) then q.(deviceIdx := Slot(q.deviceIdx + 1, WORD16)) else q
  }

  function InitQueue(desc: seq<Descriptor>, avail: seq<nat>, used: seq<UsedElem>): Queue {
    Queue(|desc|, desc, avail, 0, used, 0, 0, 0, 0)
  }

  /** A descriptor in the table: its NEXT flag, bit 0, and its link are the driver's, the rest is the caller's. */
  predicate IsLinked(d: Descriptor, l: Descriptor, more: bool, next: nat) {
    && l.addr == d.addr && l.len == d.len && SameFlags(d.flags, l.flags, more)
    && l.next == if more then next else 0
  }

  lemma LinkedFields(d: Descriptor, head: nat, i: nat, n: nat, size: nat)
    requires 0 < size
    ensures IsLinked(d, Linked(d, head, i, n, size), i + 1 < n, (head + i + 1) % size)
  {
    NextSlot(head, i, size);
    hide Slot, SlotAt, WithNext, SameFlags;
  }

  lemma NextSlot(head: nat, i: nat, size: nat)
    requires 0 < size
    ensures Slot(SlotAt(head, i, size) + 1, size) == (head + i + 1) % size
  {
    SlotAdd(head + i, 1, size);
    SlotIsMod(head + i + 1, size);
  }

  /** The last turn of a chain stands in the table as it was stored, and slots that no descriptor goes to
      are unchanged. */
  lemma {:induction false} StoreChainLast(desc: seq<Descriptor>, head: nat, linked: seq<Descriptor>, k: nat)
    requires 0 < |desc| && k <= |linked|
    ensures var r := StoreChain(desc, head, linked, k);
            && (forall i :: 0 <= i < k <= i + |desc| ==> r[SlotAt(head, i, |desc|)] == linked[i])
            && forall x :: 0 <= x < |desc| && (forall i :: 0 <= i < k ==> x != SlotAt(head, i, |desc|))
                ==> r[x] == desc[x]
  {
    if k > 0 {
      StoreChainLast(desc, head, linked, k - 1);
      forall i | 0 <= i < k - 1 && k <= i + |desc| ensures SlotAt(head, i, |desc|) != SlotAt(head, k - 1, |desc|) {
        SlotDistinct(head + i, head + (k - 1), |desc|);
      }
    }
  }

  // ---------------------------------------------------------------- facts about slots

  lemma {:induction false} SlotIsMod(x: nat, size: nat)
    requires 0 < size
    ensures Slot(x, size) == x % size
    decreases x
  {
    if x >= size {
      SlotIsMod(x - size, size);
      var q := (x - size) / size;
      assert x - size == q * size + (x - size) % size;
      assert x == (q + 1) * size + (x - size) % size by {
        assert (q + 1) * size == q * size + size;
      }
      DivModUnique(x, size, q + 1, (x - size) % size);
    } else {
      DivModUnique(x, size, 0, x);
    }
  }

  lemma {:induction false} SlotAdd(x: nat, i: nat, size: nat)
    requires 0 < size
    ensures Slot(Slot(x, size) + i, size) == Slot(x + i, size)
    decreases x
  {
    if x >= size {
      SlotAdd(x - size, i, size);
    }
  }

  /** Positions less than a table's length apart have different slots. */
  lemma SlotDistinct(a: nat, b: nat, size: nat)
    requires 0 < size && a < b < a + size
    ensures Slot(a, size) != Slot(b, size)
  {
    SlotAdd(a, b - a, size);
  }

  /** The ring slot is the same whether the free-running index is kept in 16 bits or not. */
  lemma SlotOfWord(x: nat, size: nat)
    requires 0 < size && WORD16 % size == 0
    ensures Slot(Slot(x, WORD16), size) == Slot(x, size)
  {
    SlotIsMod(x, WORD16);
    SlotIsMod(Slot(x, WORD16), size);
    SlotIsMod(x, size);
    ModMod(x, WORD16, size);
  }
}
