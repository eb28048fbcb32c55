/** What holds in every run of the harts, whatever the interleaving. */
module HartLaws {
  import opened Options
  import opened Harts

  datatype Turn = Turn(hart: nat, call: Call)

  predicate Init(s: State) {
    && |s.pcs| == |s.harts|
    && (forall a :: 0 <= a < |s.pcs| ==> s.pcs[a] == Idle)
    && forall h :: 0 <= h < |s.harts| ==>
         var x := s.harts[h];
         !x.locked && x.holder == None && x.status != STARTING && x.commits == x.boots == [] && x.returned == 0
  }

  /** The state after a schedule: who moves, and what it calls when it is idle. */
  function Run(s: State, schedule: seq<Turn>): (r: State)
    requires |s.pcs| == |s.harts| && forall i :: 0 <= i < |schedule| ==> schedule[i].hart < |s.pcs|
    ensures |r.pcs| == |s.pcs| && |r.harts| == |s.harts|
    decreases |schedule|
  {
    if schedule == [] then s
    else
      var n := |schedule| - 1;
      Step(Run(s, schedule[..n]), schedule[n].hart, schedule[n].call)
  }

  lemma InitInv(s: State)
    requires Init(s)
    ensures Inv(s)
  {
  }

  lemma {:induction false} EveryRunKeepsInv(s: State, schedule: seq<Turn>)
    requires Init(s) && forall i :: 0 <= i < |schedule| ==> schedule[i].hart < |s.pcs|
    ensures Inv(Run(s, schedule))
    decreases |schedule|
  {
    if schedule == [] {
      InitInv(s);
    } else {
      var n := |schedule| - 1;
      EveryRunKeepsInv(s, schedule[..n]);
      StepKeepsInv(Run(s, schedule[..n]), schedule[n].hart, schedule[n].call);
    }
  }

  /** At most one hart at a time is in the code that a hart's lock protects. */
  lemma MutualExclusion(s: State, schedule: seq<Turn>, h: nat, a: nat, b: nat)
    requires Init(s) && forall i :: 0 <= i < |schedule| ==> schedule[i].hart < |s.pcs|
    requires h < |s.harts| && a < |s.pcs| && b < |s.pcs|
    ensures var r := Run(s, schedule); Holds(r.pcs[a], a, h) && Holds(r.pcs[b], b, h) ==> a == b && r.harts[h].locked
  {
    EveryRunKeepsInv(s, schedule);
    var r := Run(s, schedule);
    assert HartInv(r.harts[h], h, r.pcs);
  }

  /** No wake-up is lost: a hart that is to start, and whose lock is free, has its interrupt pending and the
      parameters of the latest call in place. */
  lemma NoLostWakeUp(s: State, schedule: seq<Turn>, h: nat)
    requires Init(s) && (forall i :: 0 <= i < |schedule| ==> schedule[i].hart < |s.pcs|) && h < |s.harts|
    ensures var x := Run(s, schedule).harts[h];
            x.status == STARTING && !x.locked ==>
              x.msip && x.commits != [] && x.data == x.commits[|x.commits| - 1]
  {
    EveryRunKeepsInv(s, schedule);
    var r := Run(s, schedule);
    assert HartInv(r.harts[h], h, r.pcs);
  }

  /** The status goes STOPPED, STARTING, STARTED, STOPPED and nowhere else, and only a call for the hart
      starts it while only the hart itself finishes a start or stops; a new entry in `commits` is a change
      from STOPPED to STARTING, with the parameters of the call that made it. */
  lemma StatusMoves(s: State, a: nat, call: Call, h: nat)
    requires Inv(s) && a < |s.pcs| && h < |s.harts|
    ensures var x, x', pc := s.harts[h], Step(s, a, call).harts[h], s.pcs[a];
            && (x.status != x'.status ==>
                  || (x.status == STOPPED && x'.status == STARTING && pc.Start? && pc.h == h)
                  || (x.status == STARTING && x'.status == STARTED && a == h && pc.Handle?)
                  || (x.status == STARTED && x'.status == STOPPED && a == h && pc.Stop?))
            && x'.commits == x.commits + if x.status == STOPPED && x'.status == STARTING then [pc.p] else []
  {
    assert HartInv(s.harts[h], h, s.pcs);
  }

  /** Exactly one call of `hart_start` returns true for each change from STOPPED to STARTING: the calls
      that have returned true are as many as the changes, but for the one whose caller still holds the lock. */
  lemma OneTruePerStart(s: State, schedule: seq<Turn>, h: nat)
    requires Init(s) && (forall i :: 0 <= i < |schedule| ==> schedule[i].hart < |s.pcs|) && h < |s.harts|
    ensures var r := Run(s, schedule); var x := r.harts[h];
            && x.returned <= |x.commits| <= x.returned + 1
            && (|x.commits| == x.returned + 1
                <==> exists a :: 0 <= a < |r.pcs| && r.pcs[a].Start? && r.pcs[a].h == h && Committed(r.pcs[a]))
  {
    EveryRunKeepsInv(s, schedule);
    var r := Run(s, schedule);
    var x := r.harts[h];
    assert HartInv(x, h, r.pcs);
    forall a | 0 <= a < |r.pcs| && r.pcs[a].Start? && r.pcs[a].h == h && Committed(r.pcs[a])
        ensures x.holder == Some(a) {
      assert Holds(r.pcs[a], a, h);
    }
    if x.holder.Some? {
      assert Holds(r.pcs[x.holder.value], x.holder.value, h);
    }
  }

  /** Boot number `k` of a hart is with all three parameters of the `k`-th call that started it; only the
      latest such call may not have been served yet. */
  lemma BootsAreUntorn(s: State, schedule: seq<Turn>, h: nat)
    requires Init(s) && (forall i :: 0 <= i < |schedule| ==> schedule[i].hart < |s.pcs|) && h < |s.harts|
    ensures var x := Run(s, schedule).harts[h];
            && x.boots <= x.commits && |x.commits| <= |x.boots| + 1
            && (x.status == STOPPED ==> x.boots == x.commits)
            && (x.status == STARTING ==> |x.commits| == |x.boots| + 1)
  {
    EveryRunKeepsInv(s, schedule);
    var r := Run(s, schedule);
    assert HartInv(r.harts[h], h, r.pcs);
  }

  // ---------------------------------------------------------------- calls that nobody interferes with

  /** A schedule in which only hart `a` moves. */
  function Alone(a: nat, call: Call, n: nat): (r: seq<Turn>)
    ensures |r| == n && forall i :: 0 <= i < n ==> r[i] == Turn(a, call)
  {
    seq(n, i => Turn(a, call))
  }

  function After(s: State, a: nat, call: Call, n: nat): State
    requires a < |s.pcs| == |s.harts|
  {
    Run(s, Alone(a, call, n))
  }

  /** The state with hart `a` at `pc` and the words of hart `h` at `x`. */
  function With(s: State, a: nat, pc: Pc, h: nat, x: Hart): State
    requires a < |s.pcs| && h < |s.harts|
  {
    State(s.harts[h := x], s.pcs[a := pc])
  }

  lemma OneMore(s: State, a: nat, call: Call, n: nat)
    requires a < |s.pcs| == |s.harts|
    ensures After(s, a, call, n + 1) == Step(After(s, a, call, n), a, call)
  {
    assert Alone(a, call, n + 1)[..n] == Alone(a, call, n);
  }

  lemma AtFirst(s: State, a: nat, call: Call, h: nat)
    requires a < |s.pcs| == |s.harts| && h < |s.harts|
    ensures After(s, a, call, 0) == s == With(s, a, s.pcs[a], h, s.harts[h])
  {
    assert Alone(a, call, 0) == [];
    assert s.harts[h := s.harts[h]] == s.harts && s.pcs[a := s.pcs[a]] == s.pcs;
  }

  /** An idle hart begins the call. */
  lemma Begins(s: State, a: nat, call: Call, h: nat)
    requires a < |s.pcs| == |s.harts| && h < |s.harts| && s.pcs[a] == Idle
    ensures After(s, a, call, 1) == With(s, a, Begin(call), h, s.harts[h])
  {
    AtFirst(s, a, call, h);
    OneMore(s, a, call, 0);
  }

  /** A hart in a call makes the next micro-step. */
  lemma Moves(s: State, a: nat, call: Call, n: nat, pc: Pc, h: nat, x: Hart)
    requires a < |s.pcs| == |s.harts| && h < |s.harts| && After(s, a, call, n) == With(s, a, pc, h, x)
    requires pc != Idle && Subject(pc, a) == h
    ensures After(s, a, call, n + 1) == With(s, a, Micro(pc, a, x).0, h, Micro(pc, a, x).1)
  {
    hide After, Micro;
    OneMore(s, a, call, n);
    var (pc', x') := Micro(pc, a, x);
    assert s.harts[h := x][h := x'] == s.harts[h := x'] && s.pcs[a := pc][a := pc'] == s.pcs[a := pc'];
  }

  /** A call for a hart that is stopped, by an idle hart and with nobody in its way, starts it: nine turns
      later the caller is idle again, and all that has changed are the words of the hart to start. */
  lemma StartIsServed(s: State, a: nat, h: nat, p: Params)
    requires Inv(s) && a < |s.pcs| && h < |s.harts|
    requires s.pcs[a] == Idle && !s.harts[h].locked && s.harts[h].status == STOPPED
    ensures var r, x, x' := After(s, a, CallStart(h, p), 9), s.harts[h], After(s, a, CallStart(h, p), 9).harts[h];
            && r.pcs == s.pcs && r.harts == s.harts[h := x']
            && x'.status == STARTING && x'.msip && x'.data == p && !x'.locked
            && x'.commits == x.commits + [p] && x'.returned == x.returned + 1 && x'.boots == x.boots
  {
    var call, x := CallStart(h, p), s.harts[h];
    hide After, Inv;
    Begins(s, a, call, h);
    var held := x.(locked := true, holder := Some(a));
    Moves(s, a, call, 1, Start(h, p, StartTryLock), h, x);
    Moves(s, a, call, 2, Start(h, p, StartCheck), h, held);
    Moves(s, a, call, 3, Start(h, p, SetStarting), h, held);
    StartWrites(s, a, h, p, held.(status := STARTING, commits := x.commits + [p]));
    assert s.pcs[a := Idle] == s.pcs;
  }

  /** The parameters, the interrupt and the lock, one after the other. */
  lemma StartWrites(s: State, a: nat, h: nat, p: Params, x: Hart)
    requires a < |s.pcs| == |s.harts| && h < |s.harts|
    requires After(s, a, CallStart(h, p), 4) == With(s, a, Start(h, p, SetTarget), h, x)
    ensures After(s, a, CallStart(h, p), 9)
            == With(s, a, Idle, h,
                    x.(data := p, msip := true, locked := false, holder := None, returned := x.returned + 1))
  {
    var call := CallStart(h, p);
    hide After;
    var x1 := x.(data := Params(p.target, x.data.scratch, x.data.satp));
    var x2 := x.(data := Params(p.target, p.scratch, x.data.satp));
    Moves(s, a, call, 4, Start(h, p, SetTarget), h, x);
    Moves(s, a, call, 5, Start(h, p, SetScratch), h, x1);
    Moves(s, a, call, 6, Start(h, p, SetSatp), h, x2);
    Moves(s, a, call, 7, Start(h, p, SetMsip), h, x.(data := p));
    Moves(s, a, call, 8, Start(h, p, StartUnlock(true)), h, x.(data := p, msip := true));
  }

  /** A call for a hart that is not stopped, or whose lock is taken, or for no hart, changes nothing. */
  lemma StartIsRefused(s: State, a: nat, h: nat, p: Params)
    requires Inv(s) && a < |s.pcs| && s.pcs[a] == Idle
    ensures h >= |s.harts| ==> After(s, a, CallStart(h, p), 2) == s
    ensures h < |s.harts| && s.harts[h].locked ==> After(s, a, CallStart(h, p), 2) == s
    ensures h < |s.harts| && !s.harts[h].locked && s.harts[h].status != STOPPED ==> After(s, a, CallStart(h, p), 4) == s
  {
    var call := CallStart(h, p);
    assert s.pcs[a := Idle] == s.pcs;
    if h >= |s.harts| {
      hide After, Inv;
      Begins(s, a, call, a);
      OneMore(s, a, call, 1);
      assert s.pcs[a := Begin(call)][a := Idle] == s.pcs && s.harts[a := s.harts[a]] == s.harts;
    } else {
      var x := s.harts[h];
      assert HartInv(x, h, s.pcs);
      assert !x.locked ==> x.holder == None;
      hide After, Inv, HartInv;
      assert s.harts[h := x] == s.harts;
      Begins(s, a, call, h);
      Moves(s, a, call, 1, Start(h, p, StartTryLock), h, x);
      if !x.locked && x.status != STOPPED {
        var held := x.(locked := true, holder := Some(a));
        Moves(s, a, call, 2, Start(h, p, StartCheck), h, held);
        Moves(s, a, call, 3, Start(h, p, StartUnlock(false)), h, held);
      }
    }
  }

  /** A started hart that stops itself with nobody in its way is stopped five turns later; one that is not
      started, or whose lock is taken, changes nothing. */
  lemma StopIsServedIff(s: State, a: nat)
    requires Inv(s) && a < |s.pcs| && s.pcs[a] == Idle
    ensures var x := s.harts[a];
            if x.locked then After(s, a, CallStop, 2) == s
            else if x.status == STARTED then
              After(s, a, CallStop, 5) == State(s.harts[a := x.(status := STOPPED)], s.pcs)
            else After(s, a, CallStop, 4) == s
  {
    var x := s.harts[a];
    assert HartInv(x, a, s.pcs);
    assert !x.locked ==> x.holder == None;
    hide After, Inv, HartInv;
    assert s.pcs[a := Idle] == s.pcs && s.harts[a := x] == s.harts;
    Begins(s, a, CallStop, a);
    Moves(s, a, CallStop, 1, Stop(StopTryLock), a, x);
    if !x.locked {
      var held := x.(locked := true, holder := Some(a));
      Moves(s, a, CallStop, 2, Stop(StopCheck), a, held);
      if x.status == STARTED {
        Moves(s, a, CallStop, 3, Stop(SetStopped), a, held);
        Moves(s, a, CallStop, 4, Stop(StopUnlock), a, held.(status := STOPPED));
      } else {
        Moves(s, a, CallStop, 3, Stop(StopUnlock), a, held);
      }
    }
  }

  /** A wake-up is answered: the hart, taking the interrupt and running the handler with nobody in its way,
      boots with what the latest call asked for; nothing else changes. */
  lemma WakeUpIsAnswered(s: State, h: nat)
    requires Inv(s) && h < |s.harts|
    requires s.pcs[h] == Idle && !s.harts[h].locked && s.harts[h].status == STARTING
    ensures var r, x, x' := After(s, h, CallHandle, 10), s.harts[h], After(s, h, CallHandle, 10).harts[h];
            && r.pcs == s.pcs && r.harts == s.harts[h := x']
            && x'.status == STARTED && !x'.msip && !x'.locked && x'.data == x.data && x'.returned == x.returned
            && x'.boots == x'.commits == x.commits
  {
    var x := s.harts[h];
    assert HartInv(x, h, s.pcs);
    assert x.commits == x.boots + [x.data];
    hide After, Inv, HartInv;
    Begins(s, h, CallHandle, h);
    Moves(s, h, CallHandle, 1, Handle(HandleSpin, Params(0, 0, 0)), h, x);
    var held := x.(locked := true, holder := Some(h));
    Moves(s, h, CallHandle, 2, Handle(ClearMsip, Params(0, 0, 0)), h, held);
    HandlerBoots(s, h, held.(msip := false));
    assert s.pcs[h := Idle] == s.pcs;
  }

  lemma HandlerBoots(s: State, h: nat, x: Hart)
    requires h < |s.pcs| == |s.harts| && x.status == STARTING
    requires After(s, h, CallHandle, 3) == With(s, h, Handle(HandleCheck, Params(0, 0, 0)), h, x)
    ensures After(s, h, CallHandle, 10)
            == With(s, h, Idle, h, x.(status := STARTED, locked := false, holder := None, boots := x.boots + [x.data]))
  {
    hide After;
    var d := x.data;
    Moves(s, h, CallHandle, 3, Handle(HandleCheck, Params(0, 0, 0)), h, x);
    Moves(s, h, CallHandle, 4, Handle(GetTarget, Params(0, 0, 0)), h, x);
    Moves(s, h, CallHandle, 5, Handle(GetScratch, Params(d.target, 0, 0)), h, x);
    Moves(s, h, CallHandle, 6, Handle(GetSatp, Params(d.target, d.scratch, 0)), h, x);
    Moves(s, h, CallHandle, 7, Handle(SetStarted, d), h, x);
    Moves(s, h, CallHandle, 8, Handle(HandleUnlock(true), d), h, x.(status := STARTED));
    Moves(s, h, CallHandle, 9, Handle(HandleReturn(true), d), h, Unlock(x.(status := STARTED)));
  }

  /** An interrupt that is not a wake-up is only cleared. */
  lemma OtherInterrupt(s: State, h: nat)
    requires Inv(s) && h < |s.harts|
    requires s.pcs[h] == Idle && !s.harts[h].locked && s.harts[h].status != STARTING
    ensures After(s, h, CallHandle, 6) == State(s.harts[h := s.harts[h].(msip := false)], s.pcs)
  {
    var x := s.harts[h];
    assert HartInv(x, h, s.pcs);
    assert x.holder == None;
    hide After, Inv, HartInv;
    assert s.pcs[h := Idle] == s.pcs;
    Begins(s, h, CallHandle, h);
    Moves(s, h, CallHandle, 1, Handle(HandleSpin, Params(0, 0, 0)), h, x);
    var held := x.(locked := true, holder := Some(h));
    Moves(s, h, CallHandle, 2, Handle(ClearMsip, Params(0, 0, 0)), h, held);
    Moves(s, h, CallHandle, 3, Handle(HandleCheck, Params(0, 0, 0)), h, held.(msip := false));
    Moves(s, h, CallHandle, 4, Handle(HandleUnlock(false), Params(0, 0, 0)), h, held.(msip := false));
    Moves(s, h, CallHandle, 5, Handle(HandleReturn(false), Params(0, 0, 0)), h, x.(msip := false));
  }
}
