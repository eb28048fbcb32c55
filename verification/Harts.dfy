/** Starting and stopping harts, sbi/src/hart.c, as the interleaved micro-steps of any number of harts.
    Every step reads or writes one shared word: a hart's lock, its status, one of its parameters or its
    software-interrupt bit. */
module Harts {
  import opened Options

  datatype Status = STOPPED | STARTING | STARTED

  /** What a hart boots with. */
  datatype Params = Params(target: nat, scratch: nat, satp: nat)

  /** The shared words of a hart, and for the statement of the laws its history: who holds the lock, the
      parameters of the calls that took it from STOPPED to STARTING, how many calls of `hart_start` for it
      have returned true, and what it has booted with. */
  datatype Hart = Hart(locked: bool, status: Status, data: Params, msip: bool,
                       holder: Option<nat>, commits: seq<Params>, returned: nat, boots: seq<Params>)

  datatype StartAt = StartTryLock | StartCheck | SetStarting | SetTarget | SetScratch | SetSatp | SetMsip
                   | StartUnlock(ret: bool)

  datatype StopAt = StopTryLock | StopCheck | SetStopped | StopUnlock

  datatype HandleAt = HandleSpin | ClearMsip | HandleCheck | GetTarget | GetScratch | GetSatp | SetStarted
                    | HandleUnlock(boot: bool) | HandleReturn(boot: bool)

  /** Where a hart is in the code: `hart_start` for hart `h`, or `hart_stop` or `hart_handle_msip` for itself. */
  datatype Pc = Idle
              | Start(h: nat, p: Params, start: StartAt)
              | Stop(stop: StopAt)
              | Handle(handle: HandleAt, regs: Params)

  datatype Call = CallStart(h: nat, p: Params) | CallStop | CallHandle

  datatype State = State(harts: seq<Hart>, pcs: seq<Pc>)

  function Begin(call: Call): Pc {
    match call
    case CallStart(h, p) => Start(h, p, StartTryLock)
    case CallStop => Stop(StopTryLock)
    case CallHandle => Handle(HandleSpin, Params(0, 0, 0))
  }

  /** The hart whose words a hart in the code of a call works on. */
  function Subject(pc: Pc, a: nat): nat { if pc.Start? then pc.h else a }

  function TryLock(x: Hart, a: nat): Hart {
    if x.locked then x else x.(locked := true, holder := Some(a))
  }

  function Unlock(x: Hart): Hart { x.(locked := false, holder := None) }

  /** A step of `hart_start`, sbi/src/hart.c:28-46. */
  function StartStep(x: Hart, a: nat, h: nat, p: Params, at: StartAt): (Pc, Hart) {
    match at
    case StartTryLock => (if x.locked then Idle else Start(h, p, StartCheck), TryLock(x, a))
    case StartCheck => (Start(h, p, if x.status != STOPPED then StartUnlock(false) else SetStarting), x)
    case SetStarting => (Start(h, p, SetTarget), x.(status := STARTING, commits := x.commits + [p]))
    case SetTarget => (Start(h, p, SetScratch), x.(data := x.data.(target := p.target)))
    case SetScratch => (Start(h, p, SetSatp), x.(data := x.data.(scratch := p.scratch)))
    case SetSatp => (Start(h, p, SetMsip), x.(data := x.data.(satp := p.satp)))
    case SetMsip => (Start(h, p, StartUnlock(true)), x.(msip := true))
    case StartUnlock(ret) => (Idle, Unlock(x).(returned := x.returned + if ret then 1 else 0))
  }

  /** A step of `hart_stop`, sbi/src/hart.c:48-73. */
  function StopStep(x: Hart, a: nat, at: StopAt): (Pc, Hart) {
    match at
    case StopTryLock => (if x.locked then Idle else Stop(StopCheck), TryLock(x, a))
    case StopCheck => (Stop(if x.status != STARTED then StopUnlock else SetStopped), x)
    case SetStopped => (Stop(StopUnlock), x.(status := STOPPED))
    case StopUnlock => (Idle, Unlock(x))
  }

  /** A step of `hart_handle_msip`, sbi/src/hart.c:75-96. */
  function HandleStep(x: Hart, a: nat, at: HandleAt, regs: Params): (Pc, Hart) {
    match at
    case HandleSpin => (Handle(if x.locked then HandleSpin else ClearMsip, regs), TryLock(x, a))
    case ClearMsip => (Handle(HandleCheck, regs), x.(msip := false))
    case HandleCheck => (Handle(if x.status == STARTING then GetTarget else HandleUnlock(false), regs), x)
    case GetTarget => (Handle(GetScratch, regs.(target := x.data.target)), x)
    case GetScratch => (Handle(GetSatp, regs.(scratch := x.data.scratch)), x)
    case GetSatp => (Handle(SetStarted, regs.(satp := x.data.satp)), x)
    case SetStarted => (Handle(HandleUnlock(true), regs), x.(status := STARTED))
    case HandleUnlock(boot) => (Handle(HandleReturn(boot), regs), Unlock(x))
    case HandleReturn(boot) => (Idle, if boot then x.(boots := x.boots + [regs]) else x)
  }

  function Micro(pc: Pc, a: nat, x: Hart): (Pc, Hart)
    requires !pc.Idle?
  {
    match pc
    case Start(h, p, at) => StartStep(x, a, h, p, at)
    case Stop(at) => StopStep(x, a, at)
    case Handle(at, regs) => HandleStep(x, a, at, regs)
  }

  /** Hart `a` makes a step; when it is idle it makes a call. */
  function Step(s: State, a: nat, call: Call): (r: State)
    requires a < |s.pcs| == |s.harts|
    ensures |r.pcs| == |s.pcs| && |r.harts| == |s.harts|
  {
    var pc := s.pcs[a];
    if pc.Idle? then s.(pcs := s.pcs[a := Begin(call)])
    else if Subject(pc, a) >= |s.harts| then s.(pcs := s.pcs[a := Idle])
    else
      var h := Subject(pc, a);
      var (pc', x) := Micro(pc, a, s.harts[h]);
      State(s.harts[h := x], s.pcs[a := pc'])
  }

  // ---------------------------------------------------------------- what always holds

  /** The hart in this code holds the lock of its subject. */
  predicate InLock(pc: Pc) {
    match pc
    case Idle => false
    case Start(_, _, at) => !at.StartTryLock?
    case Stop(at) => !at.StopTryLock?
    case Handle(at, _) => !at.HandleSpin? && !at.HandleReturn?
  }

  predicate Holds(pc: Pc, a: nat, h: nat) { InLock(pc) && Subject(pc, a) == h }

  /** A start is pending with the parameters of the call that began it. */
  predicate Complete(x: Hart) {
    x.status == STARTING ==> x.commits != [] && x.data == x.commits[|x.commits| - 1]
  }

  /** No wake-up is lost: a start is pending only with its parameters in place and the interrupt bit set. */
  predicate Quiet(x: Hart) {
    Complete(x) && (x.status == STARTING ==> x.msip)
  }

  predicate StartLocal(x: Hart, p: Params, at: StartAt) {
    match at
    case StartTryLock => true
    case StartCheck => Quiet(x)
    case SetStarting => x.status == STOPPED
    case StartUnlock(ret) => Quiet(x) && (ret ==> x.status == STARTING)
    case _ =>
      && x.status == STARTING && x.commits != [] && x.commits[|x.commits| - 1] == p
      && (!at.SetTarget? ==> x.data.target == p.target)
      && (at.SetSatp? || at.SetMsip? ==> x.data.scratch == p.scratch)
      && (at.SetMsip? ==> x.data.satp == p.satp)
  }

  predicate StopLocal(x: Hart, at: StopAt) {
    match at
    case StopTryLock => true
    case SetStopped => x.status == STARTED
    case _ => Quiet(x)
  }

  predicate HandleLocal(x: Hart, at: HandleAt, regs: Params) {
    match at
    case HandleSpin => true
    case HandleReturn(_) => true
    case ClearMsip => Quiet(x)
    case HandleUnlock(_) => Quiet(x)
    case HandleCheck => Complete(x)
    case _ =>
      && x.status == STARTING && Complete(x)
      && (!at.GetTarget? ==> regs.target == x.data.target)
      && (at.GetSatp? || at.SetStarted? ==> regs.scratch == x.data.scratch)
      && (at.SetStarted? ==> regs.satp == x.data.satp)
  }

  /** What is known of a hart's words while the holder of its lock is at `pc`. */
  predicate Local(x: Hart, pc: Pc) {
    match pc
    case Idle => true
    case Start(_, p, at) => StartLocal(x, p, at)
    case Stop(at) => StopLocal(x, at)
    case Handle(at, regs) => HandleLocal(x, at, regs)
  }

  /** The hart has read its parameters and is on its way to boot. */
  predicate Booting(pc: Pc) {
    pc.Handle? && (pc.handle.HandleUnlock? || pc.handle.HandleReturn?) && pc.handle.boot
  }

  /** The holder has begun a start and will return true. */
  predicate Committed(pc: Pc) {
    pc.Start? && !pc.start.StartTryLock? && !pc.start.StartCheck? && !pc.start.SetStarting?
    && (pc.start.StartUnlock? ==> pc.start.ret)
  }

  /** Every boot is with the parameters of one call, in order; at most the last call is still to be served. */
  predicate BootsServed(x: Hart, own: Pc) {
    if x.status == STARTING then x.commits != [] && x.boots == x.commits[..|x.commits| - 1] && !Booting(own)
    else if Booting(own) then x.status == STARTED && x.commits == x.boots + [own.regs]
    else x.commits == x.boots
  }

  /** What is known of a hart's words, given the holder of its lock and where it is, and where the hart
      itself is. */
  predicate WordsInv(x: Hart, holderPc: Pc, own: Pc) {
    && x.locked == x.holder.Some?
    && (if x.holder.None? then Quiet(x) && |x.commits| == x.returned
        else Local(x, holderPc) && |x.commits| == x.returned + if Committed(holderPc) then 1 else 0)
    && BootsServed(x, own)
  }

  function HolderPc(x: Hart, pcs: seq<Pc>): Pc {
    if x.holder.Some? && x.holder.value < |pcs| then pcs[x.holder.value] else Idle
  }

  /** Exactly the holder of the lock is in code that holds it. */
  ghost predicate OneHolder(holder: Option<nat>, h: nat, pcs: seq<Pc>) {
    && (holder.Some? ==> holder.value < |pcs|)
    && forall a :: 0 <= a < |pcs| ==> (Holds(pcs[a], a, h) <==> holder == Some(a))
  }

  ghost predicate HartInv(x: Hart, h: nat, pcs: seq<Pc>)
    requires h < |pcs|
  {
    OneHolder(x.holder, h, pcs) && WordsInv(x, HolderPc(x, pcs), pcs[h])
  }

  ghost predicate Inv(s: State) {
    && |s.pcs| == |s.harts|
    && forall h :: 0 <= h < |s.harts| ==> HartInv(s.harts[h], h, s.pcs)
  }

  // ---------------------------------------------------------------- one step

  /** A hart keeps its invariant when another hart, that does not work on it, moves. */
  lemma OthersKeep(x: Hart, h: nat, pcs: seq<Pc>, a: nat, pc: Pc)
    requires h < |pcs| && a < |pcs| && HartInv(x, h, pcs)
    requires !Holds(pcs[a], a, h) && !Holds(pc, a, h)
    requires a == h ==> !Booting(pcs[a]) && !Booting(pc)
    ensures HartInv(x, h, pcs[a := pc])
  {
    hide Holds, Local, Quiet, Committed, Booting;
    assert Holds(pcs[a], a, h) <==> x.holder == Some(a);
    assert OneHolder(x.holder, h, pcs[a := pc]);
  }

  lemma StartKeepsWords(x: Hart, a: nat, h: nat, p: Params, at: StartAt, holderPc: Pc, own: Pc)
    requires WordsInv(x, holderPc, own)
    requires if at.StartTryLock? then x.holder != Some(a) else x.holder == Some(a) && holderPc == Start(h, p, at)
    ensures var r := StartStep(x, a, h, p, at);
            && WordsInv(r.1, if r.1.holder == Some(a) then r.0 else holderPc, own)
            && (!Booting(own) ==> WordsInv(r.1, if r.1.holder == Some(a) then r.0 else holderPc, r.0))
  {
  }

  lemma StopKeepsWords(x: Hart, a: nat, at: StopAt, holderPc: Pc, own: Pc)
    requires WordsInv(x, holderPc, own) && !Booting(own)
    requires if at.StopTryLock? then x.holder != Some(a) else x.holder == Some(a) && holderPc == Stop(at)
    ensures var r := StopStep(x, a, at); WordsInv(r.1, if r.1.holder == Some(a) then r.0 else holderPc, r.0)
  {
  }

  lemma HandleKeepsWords(x: Hart, a: nat, at: HandleAt, regs: Params, holderPc: Pc)
    requires WordsInv(x, holderPc, Handle(at, regs))
    requires if at.HandleSpin? || at.HandleReturn? then x.holder != Some(a)
             else x.holder == Some(a) && holderPc == Handle(at, regs)
    ensures var r := HandleStep(x, a, at, regs); WordsInv(r.1, if r.1.holder == Some(a) then r.0 else holderPc, r.0)
  {
  }

  /** The lock passes only between nobody and the hart that moves. */
  lemma LockMoves(pc: Pc, a: nat, x: Hart)
    requires !pc.Idle? && x.locked == x.holder.Some? && (InLock(pc) <==> x.holder == Some(a))
    ensures var r := Micro(pc, a, x);
            && (Holds(r.0, a, Subject(pc, a)) <==> r.1.holder == Some(a))
            && (|| r.1.holder == x.holder
                || (x.holder.None? && r.1.holder == Some(a))
                || (x.holder == Some(a) && r.1.holder.None?))
  {
  }

  /** The step of a hart keeps the invariant of the hart it works on. */
  lemma SubjectKeeps(x: Hart, h: nat, pcs: seq<Pc>, a: nat)
    requires h < |pcs| && a < |pcs| && HartInv(x, h, pcs) && !pcs[a].Idle? && Subject(pcs[a], a) == h
    ensures var r := Micro(pcs[a], a, x); HartInv(r.1, h, pcs[a := r.0])
  {
    hide Local, Quiet, Committed, BootsServed, Complete;
    var (pc, x') := Micro(pcs[a], a, x);
    assert Holds(pcs[a], a, h) <==> x.holder == Some(a);
    LockMoves(pcs[a], a, x);
    match pcs[a] {
      case Start(_, p, at) => StartKeepsWords(x, a, h, p, at, HolderPc(x, pcs), pcs[h]);
      case Stop(at) => StopKeepsWords(x, a, at, HolderPc(x, pcs), pcs[h]);
      case Handle(at, regs) => HandleKeepsWords(x, a, at, regs, HolderPc(x, pcs));
    }
  }

  lemma StepKeepsInv(s: State, a: nat, call: Call)
    requires Inv(s) && a < |s.pcs|
    ensures Inv(Step(s, a, call))
  {
    var s' := Step(s, a, call);
    var pc := s.pcs[a];
    forall h | 0 <= h < |s.harts| ensures HartInv(s'.harts[h], h, s'.pcs) {
      if !pc.Idle? && Subject(pc, a) == h {
        SubjectKeeps(s.harts[h], h, s.pcs, a);
      } else {
        OthersKeep(s.harts[h], h, s.pcs, a, s'.pcs[a]);
      }
    }
  }
}
