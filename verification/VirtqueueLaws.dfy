/** What holds in every run of sends, in-order completions and receives. */
module VirtqueueLaws {
  import opened Words
  import opened Virtqueue

  /** What has happened on the queue: the chains sent, how many of them the device has completed, and the
      chains the driver has read back. */
  datatype Trace = Trace(sent: seq<seq<Descriptor>>, completed: nat, received: seq<seq<Descriptor>>)

  datatype State = State(q: Queue, t: Trace)

  /** The number of descriptors in the first `k` chains. */
  function Pos(sent: seq<seq<Descriptor>>, k: nat): nat
    requires k <= |sent|
  {
    if k == 0 then 0 else Pos(sent, k - 1) + |sent[k - 1]|
  }

  /** Descriptors of chains that have been sent but not yet received. */
  function Outstanding(t: Trace): int
    requires |t.received| <= |t.sent|
  {
    Pos(t.sent, |t.sent|) - Pos(t.sent, |t.received|)
  }

  /** Chain `k` as it stands in the table. */
  function Stored(q: Queue, sent: seq<seq<Descriptor>>, k: nat): seq<Descriptor>
    requires k < |sent| && 0 < q.size
  {
    LinkedChain(sent[k], Slot(Pos(sent, k), q.size), q.size)
  }

  /** Chain `k` is in the table, and the available ring points to it. */
  ghost predicate InTable(q: Queue, sent: seq<seq<Descriptor>>, k: nat)
    requires k < |sent| && Shape(q)
  {
    && q.avail[Slot(k, q.size)] == Slot(Pos(sent, k), q.size)
    && forall i :: 0 <= i < |sent[k]| ==> q.desc[SlotAt(Pos(sent, k), i, q.size)] == Stored(q, sent, k)[i]
  }

  /** The cursors count chains modulo 16 bits and descriptors modulo the size, and what is outstanding fits. */
  ghost predicate Cursors(q: Queue, t: Trace) {
    && Shape(q) && q.size <= WORD16 / 2 && WORD16 % q.size == 0
    && |t.received| <= t.completed <= |t.sent|
    && (forall k :: 0 <= k < |t.sent| ==> t.sent[k] != [])
    && q.availIdx == Slot(|t.sent|, WORD16)
    && q.usedIdx == Slot(t.completed, WORD16) == q.completedIdx
    && q.deviceIdx == Slot(|t.received|, WORD16)
    && q.descIdx == Slot(Pos(t.sent, |t.sent|), q.size)
    && Outstanding(t) <= q.size
  }

  /** Chains not yet received are in the table, and those completed are reported by their heads. */
  ghost predicate InFlight(q: Queue, t: Trace)
    requires Shape(q) && t.completed <= |t.sent|
  {
    && (forall k :: |t.received| <= k < |t.sent| ==> InTable(q, t.sent, k))
    && forall k :: |t.received| <= k < t.completed ==> q.used[Slot(k, q.size)].id == Slot(Pos(t.sent, k), q.size)
  }

  /** What has been received is what was stored. */
  ghost predicate ReadBack(q: Queue, t: Trace)
    requires Shape(q) && |t.received| <= |t.sent|
  {
    forall k :: 0 <= k < |t.received| ==> t.received[k] == Stored(q, t.sent, k)
  }

  ghost predicate Inv(s: State) {
    Cursors(s.q, s.t) && InFlight(s.q, s.t) && ReadBack(s.q, s.t)
  }

  datatype Action = DoSend(chain: seq<Descriptor>) | DoComplete(len: nat) | DoReceive

  /** One step of the driver or of the device.  The caller of a send sees to it that the chain is not
      empty and that the outstanding descriptors still fit the queue; the driver does not check. */
  ghost predicate Next(s: State, a: Action, s': State)
    requires Shape(s.q)
  {
    match a
    case DoSend(chain) =>
      && chain != []
      && |s.t.received| <= |s.t.sent| && Outstanding(s.t) + |chain| <= s.q.size
      && s' == State(Virtqueue.Send(s.q, chain), s.t.(sent := s.t.sent + [chain]))
    case DoComplete(len) =>
      var taken := if s.q.completedIdx == s.q.availIdx then 0 else 1;
      s' == State(Complete(s.q, len), s.t.(completed := s.t.completed + taken))
    case DoReceive =>
      if HasReceived(s.q) then
        && s'.q == Receive(s.q)
        && |s'.t.received| > 0
        && WalkIs(s.q.desc, ReceiveHead(s.q), s'.t.received[|s'.t.received| - 1])
        && s'.t == s.t.(received := s.t.received + [s'.t.received[|s'.t.received| - 1]])
      else s' == s
  }

  // ---------------------------------------------------------------- positions

  lemma {:induction false} PosOfPrefix(sent: seq<seq<Descriptor>>, chain: seq<Descriptor>, k: nat)
    requires k <= |sent|
    ensures Pos(sent + [chain], k) == Pos(sent, k)
  {
    if k > 0 {
      PosOfPrefix(sent, chain, k - 1);
    }
  }

  lemma {:induction false} PosGrows(sent: seq<seq<Descriptor>>, j: nat, k: nat)
    requires j <= k <= |sent| && forall i :: 0 <= i < |sent| ==> sent[i] != []
    ensures Pos(sent, j) + (k - j) <= Pos(sent, k)
  {
    if j < k {
      PosGrows(sent, j, k - 1);
    }
  }

  /** Two 16-bit indices that are at most half a turn apart are equal only if the counts are. */
  lemma IndexEqualIff(a: nat, b: nat)
    requires a <= b < a + WORD16
    ensures Slot(a, WORD16) == Slot(b, WORD16) <==> a == b
  {
    if a < b {
      SlotDistinct(a, b, WORD16);
    }
  }

  // ---------------------------------------------------------------- storing a chain

  /** A chain that fits the table is stored slot by slot, and no other slot changes. */
  lemma {:induction false} StoreChainAt(desc: seq<Descriptor>, head: nat, linked: seq<Descriptor>, k: nat)
    requires 0 < |desc| && k <= |linked| && k <= |desc|
    ensures var r := StoreChain(desc, head, linked, k);
            && (forall i :: 0 <= i < k ==> r[SlotAt(head, i, |desc|)] == linked[i])
            && forall x :: 0 <= x < |desc| && (forall i :: 0 <= i < k ==> x != SlotAt(head, i, |desc|))
                ==> r[x] == desc[x]
  {
    if k > 0 {
      StoreChainAt(desc, head, linked, k - 1);
      forall i | 0 <= i < k - 1 ensures SlotAt(head, i, |desc|) != SlotAt(head, k - 1, |desc|) {
        SlotDistinct(head + i, head + (k - 1), |desc|);
      }
    }
  }

  lemma SlotsApart(a: nat, i: nat, p: nat, j: nat, size: nat)
    requires 0 < size && a + i < p + j < a + i + size
    ensures SlotAt(a, i, size) != SlotAt(Slot(p, size), j, size)
  {
    hide Slot;
    SlotAdd(p, j, size);
    SlotDistinct(a + i, p + j, size);
  }

  /** Slots of positions `a` to `a + m` are not written by a chain that starts at a later position `p` and
      ends less than one turn after `a`. */
  lemma StoreChainKeeps(desc: seq<Descriptor>, p: nat, linked: seq<Descriptor>, a: nat, m: nat)
    requires 0 < |desc| && a + m <= p && p + |linked| <= a + |desc|
    ensures forall i :: 0 <= i < m ==>
              StoreChain(desc, Slot(p, |desc|), linked, |linked|)[SlotAt(a, i, |desc|)] == desc[SlotAt(a, i, |desc|)]
  {
    hide *;
    StoreChainAt(desc, Slot(p, |desc|), linked, |linked|);
    forall i, j | 0 <= i < m && 0 <= j < |linked|
      ensures SlotAt(a, i, |desc|) != SlotAt(Slot(p, |desc|), j, |desc|)
    {
      SlotsApart(a, i, p, j, |desc|);
    }
  }

  /** A chain in flight that no write has touched is still in the table. */
  lemma InTableStays(q: Queue, sent: seq<seq<Descriptor>>, q': Queue, sent': seq<seq<Descriptor>>, k: nat)
    requires Shape(q) && Shape(q') && q.size == q'.size && k < |sent| && k < |sent'|
    requires InTable(q, sent, k) && sent'[k] == sent[k] && Pos(sent', k) == Pos(sent, k)
    requires q'.avail[Slot(k, q.size)] == q.avail[Slot(k, q.size)]
    requires forall i :: 0 <= i < |sent[k]| ==>
               q'.desc[SlotAt(Pos(sent, k), i, q.size)] == q.desc[SlotAt(Pos(sent, k), i, q.size)]
    ensures InTable(q', sent', k) && Stored(q', sent', k) == Stored(q, sent, k)
  {
  }

  /** The slots of a new chain are not those of a chain in flight, so long as all of them fit. */
  lemma SendKeepsChain(s: State, chain: seq<Descriptor>, k: nat)
    requires Inv(s) && chain != [] && Outstanding(s.t) + |chain| <= s.q.size
    requires |s.t.received| <= k < |s.t.sent|
    ensures InTable(Virtqueue.Send(s.q, chain), s.t.sent + [chain], k)
  {
    hide Slot, StoreChain, InTable, SlotAt, Linked;
    var q, t, n := s.q, s.t, |s.t.sent|;
    PosOfPrefix(t.sent, chain, k);
    PosGrows(t.sent, |t.received|, k);
    PosGrows(t.sent, k + 1, n);
    PosGrows(t.sent, |t.received|, n);
    SlotOfWord(n, q.size);
    assert Pos(t.sent, k + 1) == Pos(t.sent, k) + |t.sent[k]|;
    SlotDistinct(k, n, q.size);
    StoreChainKeeps(q.desc, Pos(t.sent, n), LinkedChain(chain, q.descIdx, q.size), Pos(t.sent, k), |t.sent[k]|);
    InTableStays(q, t.sent, Virtqueue.Send(q, chain), t.sent + [chain], k);
  }

  lemma SlotShift(p: nat, i: nat, size: nat)
    requires 0 < size
    ensures SlotAt(Slot(p, size), i, size) == SlotAt(p, i, size)
  {
    hide Slot;
    SlotAdd(p, i, size);
  }

  /** A chain written from its slot on is in the table. */
  lemma StoreChainStores(desc: seq<Descriptor>, p: nat, linked: seq<Descriptor>)
    requires 0 < |desc| && |linked| <= |desc|
    ensures forall i :: 0 <= i < |linked| ==>
              StoreChain(desc, Slot(p, |desc|), linked, |linked|)[SlotAt(p, i, |desc|)] == linked[i]
  {
    hide *;
    StoreChainAt(desc, Slot(p, |desc|), linked, |linked|);
    forall i: nat | i < |linked| ensures SlotAt(Slot(p, |desc|), i, |desc|) == SlotAt(p, i, |desc|) {
      SlotShift(p, i, |desc|);
    }
  }

  /** The new chain is in the table. */
  lemma SendStores(s: State, chain: seq<Descriptor>)
    requires Inv(s) && chain != [] && Outstanding(s.t) + |chain| <= s.q.size
    ensures InTable(Virtqueue.Send(s.q, chain), s.t.sent + [chain], |s.t.sent|)
  {
    var q, t, n := s.q, s.t, |s.t.sent|;
    assert InTable(Virtqueue.Send(q, chain), t.sent + [chain], n) by {
      hide Slot, SlotAt, StoreChain, Linked, LinkedChain;
      PosOfPrefix(t.sent, chain, n);
      PosGrows(t.sent, |t.received|, n);
      SlotOfWord(n, q.size);
      StoreChainStores(q.desc, Pos(t.sent, n), LinkedChain(chain, q.descIdx, q.size));
    }
  }

  /** A chain that has been sent is stored the same way after another one is. */
  lemma StoredStays(q: Queue, q': Queue, sent: seq<seq<Descriptor>>, chain: seq<Descriptor>, k: nat)
    requires k < |sent| && 0 < q.size == q'.size
    ensures Stored(q', sent + [chain], k) == Stored(q, sent, k) && Pos(sent + [chain], k) == Pos(sent, k)
  {
    hide Slot, LinkedChain;
    PosOfPrefix(sent, chain, k);
  }

  lemma SendKeepsCursors(s: State, chain: seq<Descriptor>, s': State)
    requires Inv(s) && Next(s, DoSend(chain), s')
    ensures Cursors(s'.q, s'.t)
  {
    hide Slot, StoreChain, LinkedChain, InFlight, ReadBack;
    var t, n := s.t, |s.t.sent|;
    PosOfPrefix(t.sent, chain, n);
    PosOfPrefix(t.sent, chain, |t.received|);
    assert Pos(s'.t.sent, n + 1) == Pos(t.sent, n) + |chain|;
    SlotAdd(n, 1, WORD16);
    SlotAdd(Pos(t.sent, n), |chain|, s.q.size);
  }

  lemma SendKeepsInFlight(s: State, chain: seq<Descriptor>, s': State)
    requires Inv(s) && Next(s, DoSend(chain), s')
    ensures Cursors(s'.q, s'.t) && InFlight(s'.q, s'.t)
  {
    SendKeepsCursors(s, chain, s');
    assert InFlight(s'.q, s'.t) by {
      hide Slot, StoreChain, LinkedChain, Stored, InTable, ReadBack;
      forall k | 0 <= k < |s.t.sent| ensures Pos(s'.t.sent, k) == Pos(s.t.sent, k) {
        PosOfPrefix(s.t.sent, chain, k);
      }
      forall k | |s'.t.received| <= k < |s'.t.sent| ensures InTable(s'.q, s'.t.sent, k) {
        if k < |s.t.sent| {
          SendKeepsChain(s, chain, k);
        } else {
          SendStores(s, chain);
        }
      }
    }
  }

  lemma SendKeepsInv(s: State, chain: seq<Descriptor>, s': State)
    requires Inv(s) && Next(s, DoSend(chain), s')
    ensures Inv(s')
  {
    hide Slot, StoreChain, LinkedChain, Stored, InFlight;
    SendKeepsInFlight(s, chain, s');
    forall k | 0 <= k < |s.t.received| ensures Stored(s'.q, s'.t.sent, k) == Stored(s.q, s.t.sent, k) {
      StoredStays(s.q, s'.q, s.t.sent, chain, k);
    }
  }

  /** The entry the device writes names the head of the chain, and the entries still to be read stay. */
  lemma CompleteReports(s: State, len: nat)
    requires Inv(s) && s.t.completed < |s.t.sent|
    ensures s.q.completedIdx != s.q.availIdx
    ensures forall k :: |s.t.received| <= k <= s.t.completed ==>
              Complete(s.q, len).used[Slot(k, s.q.size)].id == Slot(Pos(s.t.sent, k), s.q.size)
  {
    hide Slot, StoreChain, Linked, SlotAt;
    var q, t, c := s.q, s.t, s.t.completed;
    PosGrows(t.sent, |t.received|, |t.sent|);
    IndexEqualIff(c, |t.sent|);
    SlotOfWord(c, q.size);
    assert InTable(q, t.sent, c);
    forall k | |t.received| <= k < c ensures Slot(k, q.size) != Slot(c, q.size) {
      SlotDistinct(k, c, q.size);
    }
  }

  lemma CompleteKeepsInv(s: State, len: nat, s': State)
    requires Inv(s) && Next(s, DoComplete(len), s')
    ensures Inv(s')
  {
    hide Slot, StoreChain, Linked, SlotAt, InTable;
    var q, t, c := s.q, s.t, s.t.completed;
    if c < |t.sent| {
      CompleteReports(s, len);
      SlotAdd(c, 1, WORD16);
      forall k | |t.received| <= k < |t.sent| ensures InTable(s'.q, t.sent, k) {
        InTableStays(q, t.sent, s'.q, t.sent, k);
      }
    }
  }

  // ---------------------------------------------------------------- receiving

  lemma FlagsOfLinked(d: Descriptor, head: nat, i: nat, n: nat, size: nat)
    requires 0 < size
    ensures HasNext(Linked(d, head, i, n, size)) <==> i + 1 < n
  {
    hide Slot, SlotAt, WithNext;
  }

  /** The walk from the head of a stored chain meets its descriptors, one after the other. */
  lemma {:induction false} WalkFrom(q: Queue, sent: seq<seq<Descriptor>>, k: nat, i: nat)
    requires Shape(q) && k < |sent| && InTable(q, sent, k) && i < |sent[k]|
    ensures WalkIs(q.desc, Slot(Pos(sent, k) + i, q.size), Stored(q, sent, k)[i..])
    decreases |sent[k]| - i
  {
    var p, linked := Pos(sent, k), Stored(q, sent, k);
    FlagsOfLinked(sent[k][i], Slot(p, q.size), i, |sent[k]|, q.size);
    SlotAdd(p, i, q.size);
    SlotAdd(p + i, 1, q.size);
    if i + 1 < |sent[k]| {
      WalkFrom(q, sent, k, i + 1);
      assert linked[i..][1..] == linked[i + 1..];
    }
  }

  /** A walk meets one chain only. */
  lemma {:induction false} WalkUnique(desc: seq<Descriptor>, at: nat, a: seq<Descriptor>, b: seq<Descriptor>)
    requires WalkIs(desc, at, a) && WalkIs(desc, at, b)
    ensures a == b
    decreases |a|
  {
    if HasNext(a[0]) {
      WalkUnique(desc, a[0].next, a[1..], b[1..]);
      assert a == [a[0]] + a[1..] && b == [b[0]] + b[1..];
    }
  }

  /** When something can be received, the walk from the reported head ends, after exactly the chain that
      was sent next. */
  lemma ReceiveWalk(s: State)
    requires Inv(s)
    ensures HasReceived(s.q) <==> |s.t.received| < s.t.completed
    ensures HasReceived(s.q) ==> WalkIs(s.q.desc, ReceiveHead(s.q), Stored(s.q, s.t.sent, |s.t.received|))
  {
    var q, t, r := s.q, s.t, |s.t.received|;
    PosGrows(t.sent, r, |t.sent|);
    IndexEqualIff(r, t.completed);
    if r < t.completed {
      SlotOfWord(r, q.size);
      WalkFrom(q, t.sent, r, 0);
      assert Stored(q, t.sent, r)[0..] == Stored(q, t.sent, r);
    }
  }

  lemma ReceiveKeepsInv(s: State, s': State)
    requires Inv(s) && Next(s, DoReceive, s')
    ensures Inv(s')
  {
    var q, t, r := s.q, s.t, |s.t.received|;
    ReceiveWalk(s);
    if HasReceived(q) {
      var chain := s'.t.received[|s'.t.received| - 1];
      WalkUnique(q.desc, ReceiveHead(q), chain, Stored(q, t.sent, r));
      SlotAdd(r, 1, WORD16);
      PosGrows(t.sent, r, r + 1);
      forall k | r + 1 <= k < |t.sent| ensures InTable(s'.q, t.sent, k) {
        assert InTable(q, t.sent, k);
        assert Stored(s'.q, t.sent, k) == Stored(q, t.sent, k);
      }
      forall k | 0 <= k <= r ensures s'.t.received[k] == Stored(s'.q, t.sent, k) {
        assert k < r ==> s'.t.received[k] == t.received[k];
        assert Stored(s'.q, t.sent, k) == Stored(q, t.sent, k);
      }
    }
  }

  // ---------------------------------------------------------------- every run

  lemma NextKeepsInv(s: State, a: Action, s': State)
    requires Inv(s) && Next(s, a, s')
    ensures Inv(s')
  {
    match a
    case DoSend(chain) => SendKeepsInv(s, chain, s');
    case DoComplete(len) => CompleteKeepsInv(s, len, s');
    case DoReceive => ReceiveKeepsInv(s, s');
  }

  ghost predicate IsRun(states: seq<State>, actions: seq<Action>) {
    && |states| == |actions| + 1
    && forall i :: 0 <= i < |actions| ==> Shape(states[i].q) && Next(states[i], actions[i], states[i + 1])
  }

  lemma {:induction false} EveryRunKeepsInv(states: seq<State>, actions: seq<Action>)
    requires IsRun(states, actions) && Inv(states[0])
    ensures Inv(states[|actions|])
    decreases |actions|
  {
    if actions != [] {
      var n := |actions| - 1;
      EveryRunKeepsInv(states[..n + 1], actions[..n]);
      NextKeepsInv(states[n], actions[n], states[n + 1]);
    }
  }

  /** A chain read back: as long as the chain sent, with its addresses, lengths and flags, except that NEXT
      is set on all descriptors but the last and on no other. */
  ghost predicate SameChain(sent: seq<Descriptor>, got: seq<Descriptor>) {
    && |got| == |sent|
    && forall i :: 0 <= i < |sent| ==>
         && got[i].addr == sent[i].addr && got[i].len == sent[i].len
         && got[i].flags & 0xFFFE == sent[i].flags & 0xFFFE
         && got[i].flags & 1 == if i + 1 < |sent| then 1 else 0
  }

  /** In every run, what the driver has received is what it has sent, in order, up to a point. */
  lemma ReceivedIsPrefixOfSent(states: seq<State>, actions: seq<Action>)
    requires IsRun(states, actions) && Inv(states[0])
    ensures var t := states[|actions|].t;
            |t.received| <= |t.sent| && forall k :: 0 <= k < |t.received| ==> SameChain(t.sent[k], t.received[k])
  {
    EveryRunKeepsInv(states, actions);
    var q, t := states[|actions|].q, states[|actions|].t;
    forall k | 0 <= k < |t.received| ensures SameChain(t.sent[k], t.received[k]) {
      StoredIsSame(q, t.sent, k);
    }
  }

  lemma StoredIsSame(q: Queue, sent: seq<seq<Descriptor>>, k: nat)
    requires k < |sent| && 0 < q.size
    ensures SameChain(sent[k], Stored(q, sent, k))
  {
    hide Slot, Linked;
    var p := Slot(Pos(sent, k), q.size);
    forall i | 0 <= i < |sent[k]|
      ensures IsLinked(sent[k][i], Stored(q, sent, k)[i], i + 1 < |sent[k]|, (p + i + 1) % q.size)
    {
      LinkedFields(sent[k][i], p, i, |sent[k]|, q.size);
    }
  }

  /** The caller's condition is exact: a chain takes a slot of a chain in flight, or one of its own, if and
      only if the outstanding descriptors and its own are more than the table holds. */
  lemma SendOverwritesIff(s: State, chain: seq<Descriptor>)
    requires Inv(s)
    ensures Outstanding(s.t) + |chain| > s.q.size <==>
            exists j: nat, x: nat :: j < |chain| && Pos(s.t.sent, |s.t.received|) <= x < Pos(s.t.sent, |s.t.sent|) + j
                          && SlotAt(s.q.descIdx, j, s.q.size) == Slot(x, s.q.size)
  {
    var size, r, p := s.q.size, Pos(s.t.sent, |s.t.received|), Pos(s.t.sent, |s.t.sent|);
    PosGrows(s.t.sent, |s.t.received|, |s.t.sent|);
    if Outstanding(s.t) + |chain| > size {
      var j := size - (p - r);
      SlotAdd(p, j, size);
      assert Slot(p + j, size) == Slot(r, size);
      assert SlotAt(s.q.descIdx, j, size) == Slot(r, size);
    } else {
      forall j: nat, x: nat | j < |chain| && r <= x < p + j
        ensures SlotAt(s.q.descIdx, j, size) != Slot(x, size)
      {
        SlotAdd(p, j, size);
        SlotDistinct(x, p + j, size);
      }
    }
  }

  /** A queue whose size divides the range of the indices starts in a good state, whatever the memory holds. */
  lemma InitInv(desc: seq<Descriptor>, avail: seq<nat>, used: seq<UsedElem>)
    requires 0 < |desc| <= WORD16 / 2 && WORD16 % |desc| == 0 && |avail| == |used| == |desc|
    ensures Inv(State(InitQueue(desc, avail, used), Trace([], 0, [])))
  {
  }
}
