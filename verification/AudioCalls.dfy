/**
 What each audio call has done by the time it returns, over every run and whatever the other
 threads do in between, and which steps may change what.
 */
module AudioCalls {
  import opened CTypes
  import opened AudioLocks
  import opened AudioRuns

  /** One step: which thread takes it and what the environment decides. */
  datatype Event = Event(thread: nat, choice: Choice)

  /** A run together with the events that lead from each state to the next. */
  ghost predicate IsExecution(run: seq<State>, events: seq<Event>) {
    && |run| == |events| + 1 && Initial(run[0])
    && forall k :: 0 <= k < |events| ==> Happens(run[k], events[k], run[k + 1])
  }

  ghost predicate Happens(a: State, e: Event, b: State) {
    e.thread < |a.pcs| && Next(a, e.thread, e.choice) == Some(b)
  }

  lemma {:induction false} ExecutionInv(run: seq<State>, events: seq<Event>, k: nat)
    requires IsExecution(run, events) && k <= |events|
    ensures Inv(run[k]) && |run[k].pcs| == |run[0].pcs|
  {
    hide Inv, Next;
    forall i | 0 <= i < |run| - 1 ensures Steps(run[i], run[i + 1]) {
      assert Happens(run[i], events[i], run[i + 1]);
    }
    RunInv(run, k);
  }

  // ----------------------------------------------------------- who changes what

  /** The flag or the PCM of stream `s` differs. */
  ghost predicate StreamDiffers(a: State, b: State, s: nat) {
    s < |a.streams| && s < |b.streams| &&
    (a.streams[s].standby != b.streams[s].standby || a.streams[s].pcmOpen != b.streams[s].pcmOpen)
  }

  ghost predicate Owns(st: State, t: nat, s: nat) {
    s < |st.streams| && st.streams[s].lock == Some(t)
  }

  lemma StepOnOther(a: State, e: Event, b: State, s: nat)
    requires Inv(a) && Happens(a, e, b) && s < |a.streams|
    requires StreamOf(a.pcs[e.thread]) != Some(s) || a.pcs[e.thread] == Idle
    ensures s < |b.streams| && b.streams[s] == a.streams[s]
  {
    hide Inv;
  }

  lemma StepOnOwn(a: State, e: Event, b: State, s: nat)
    requires Happens(a, e, b) && s < |a.streams|
    requires a.pcs[e.thread] != Idle && StreamOf(a.pcs[e.thread]) == Some(s)
    ensures StreamStep(a, e.thread, e.choice, s) == Some(b)
  {
    hide StreamStep;
  }

  lemma OwnStepFrame(a: State, t: nat, c: Choice, b: State, s: nat)
    requires t < |a.pcs| && s < |a.streams| && StreamOf(a.pcs[t]) == Some(s) && ThreadOk(a, t)
    requires StreamStep(a, t, c, s) == Some(b)
    ensures |b.streams| == |a.streams|
    ensures b.streams[s].pcmOpen != a.streams[s].pcmOpen ==>
              Owns(a, t, s) && Owns(b, t, s) && a.dev == Some(t) && b.dev == Some(t)
    ensures b.streams[s].standby != a.streams[s].standby ==>
              !a.streams[s].published || (Owns(a, t, s) && Owns(b, t, s))
    ensures b.streams[s].isOutput == a.streams[s].isOutput
    ensures a.streams[s].published ==> b.streams[s].published
  {
  }

  /**
   A step changes the PCM of a stream only while its thread holds the lock of that stream and the device
   lock, and `standby` only under the stream lock or before the stream is handed out.
   */
  lemma ChangesUnderLocks(run: seq<State>, events: seq<Event>, k: nat, s: nat)
    requires IsExecution(run, events) && k < |events| && s < |run[k].streams|
    ensures var a, b, t := run[k], run[k + 1], events[k].thread;
            && s < |b.streams|
            && (b.streams[s].pcmOpen != a.streams[s].pcmOpen ==>
                 Owns(a, t, s) && Owns(b, t, s) && a.dev == Some(t) && b.dev == Some(t))
            && (b.streams[s].standby != a.streams[s].standby ==>
                 !a.streams[s].published || (Owns(a, t, s) && Owns(b, t, s)))
            && b.streams[s].isOutput == a.streams[s].isOutput
            && (a.streams[s].published ==> b.streams[s].published)
  {
    hide Inv, Next, StreamStep;
    ExecutionInv(run, events, k);
    assert Happens(run[k], events[k], run[k + 1]);
    StepFrame(run[k], events[k], run[k + 1], s);
  }

  lemma StepFrame(a: State, e: Event, b: State, s: nat)
    requires Inv(a) && Happens(a, e, b) && s < |a.streams|
    ensures s < |b.streams|
    ensures b.streams[s].pcmOpen != a.streams[s].pcmOpen ==>
              Owns(a, e.thread, s) && Owns(b, e.thread, s) && a.dev == Some(e.thread) && b.dev == Some(e.thread)
    ensures b.streams[s].standby != a.streams[s].standby ==>
              !a.streams[s].published || (Owns(a, e.thread, s) && Owns(b, e.thread, s))
    ensures b.streams[s].isOutput == a.streams[s].isOutput
    ensures a.streams[s].published ==> b.streams[s].published
  {
    if a.pcs[e.thread] == Idle || StreamOf(a.pcs[e.thread]) != Some(s) {
      hide StreamStep, Inv, Next;
      StepOnOther(a, e, b, s);
    } else {
      hide StreamStep, Inv, Next;
      StepOnOwn(a, e, b, s);
      InvAt(a, e.thread, s);
      OwnStepFrame(a, e.thread, e.choice, b, s);
    }
  }

  /** The microphone is muted and unmuted under the device lock only. */
  lemma MuteUnderDevice(run: seq<State>, events: seq<Event>, k: nat)
    requires IsExecution(run, events) && k < |events|
    ensures run[k + 1].micMuted != run[k].micMuted ==>
              run[k].dev == Some(events[k].thread) && run[k + 1].dev == Some(events[k].thread)
  {
    ExecutionInv(run, events, k);
    assert Happens(run[k], events[k], run[k + 1]);
    MuteFrame(run[k], events[k], run[k + 1]);
  }

  lemma MuteFrame(a: State, e: Event, b: State)
    requires Inv(a) && Happens(a, e, b)
    ensures b.micMuted != a.micMuted ==> a.dev == Some(e.thread) && b.dev == Some(e.thread)
  {
    assert ThreadOk(a, e.thread);
  }

  /** Nothing restricts the callers: an idle thread can make any call, and on any stream handed out. */
  lemma CallsPossible(st: State, t: nat, op: Op, s: nat, isOutput: bool, muted: bool)
    requires t < |st.pcs| && st.pcs[t] == Idle
    ensures Next(st, t, Call(op, s)).Some? <==> s < |st.streams| && st.streams[s].published
    ensures Next(st, t, CallOpen(isOutput)).Some? && Next(st, t, CallMute(muted)).Some?
  {
    hide StreamStep;
  }

  /** Opening a PCM may succeed or fail. */
  lemma OpenMayFail(st: State, t: nat, s: nat)
    requires Inv(st) && t < |st.pcs| && st.pcs[t] == InDev(Transfer, s)
    ensures Next(st, t, Go).Some? && Next(st, t, Fail).Some?
  {
    assert ThreadOk(st, t);
  }

  // ---------------------------------------------------------- tallying a call

  /**
   How often a thread took a stream's two locks and the device lock, moved audio data, failed to open
   the PCM, changed the flag or the PCM, and gave up the stream lock before the device lock.
   */
  datatype Tally = Tally(preTakes: nat, lockTakes: nat, devTakes: nat, pumps: nat, fails: nat, changes: nat,
                         lockFirst: nat)

  const NOTHING := Tally(0, 0, 0, 0, 0, 0, 0)

  function Plus(m: Tally, n: Tally): Tally {
    Tally(m.preTakes + n.preTakes, m.lockTakes + n.lockTakes, m.devTakes + n.devTakes, m.pumps + n.pumps,
          m.fails + n.fails, m.changes + n.changes, m.lockFirst + n.lockFirst)
  }

  function One(happened: bool): nat {
    if happened then 1 else 0
  }

  /** What a step of thread `t` at `pc` adds that turns the stream `x` into `y` and the device lock to `dev'`. */
  ghost function LocalTally(
    t: nat, pc: PC, c: Choice, x: Stream, y: Stream, dev: Option<nat>, dev': Option<nat>): Tally
  {
    Tally(One(x.pre != Some(t) && y.pre == Some(t)),
          One(x.lock != Some(t) && y.lock == Some(t)),
          One(dev != Some(t) && dev' == Some(t)),
          One(pc.Pump?),
          One(c == Fail),
          One(x.standby != y.standby || x.pcmOpen != y.pcmOpen),
          One(x.lock == Some(t) && y.lock != Some(t) && dev' == Some(t)))
  }

  /** What the step from `a` to `b` adds to the tally of thread `t` on stream `s`. */
  ghost function StepTally(a: State, e: Event, b: State, t: nat, s: nat): Tally {
    if e.thread != t || t >= |a.pcs| || s >= |a.streams| || s >= |b.streams| then NOTHING
    else LocalTally(t, a.pcs[t], e.choice, a.streams[s], b.streams[s], a.dev, b.dev)
  }

  /** The tally of the events from `i` up to `j`. */
  ghost function Tallied(run: seq<State>, events: seq<Event>, t: nat, s: nat, i: nat, j: nat): Tally
    requires i <= j <= |events| && |run| == |events| + 1
    decreases j - i
  {
    if i == j then NOTHING
    else Plus(Tallied(run, events, t, s, i, j - 1), StepTally(run[j - 1], events[j - 1], run[j], t, s))
  }

  // ------------------------------------------------------------ stream calls

  /** Only these locks have been taken so far, and nothing else has been done. */
  ghost predicate Taken(n: Tally, pre: nat, lock: nat, dev: nat) {
    && n.preTakes == pre && n.lockTakes == lock && n.devTakes == dev
    && n.pumps == 0 && n.fails == 0 && n.lockFirst == 0
  }

  ghost predicate Took(n: Tally, dev: nat) {
    Taken(n, 1, 1, dev)
  }

  /** What a call has done when only the stream lock is left to release. */
  ghost predicate Done(op: Op, x: Stream, n: Tally) {
    && n.preTakes == 1 && n.lockTakes == 1 && n.lockFirst == 0
    && match op
       case Standby => x.standby && !x.pcmOpen && n.pumps == 0 && n.fails == 0
       case Transfer =>
         if n.fails == 0 then !x.standby && x.pcmOpen && n.pumps == 1
         else x.standby && !x.pcmOpen && n.pumps == 0
       case SetParameters => n.devTakes == 1 && n.pumps == 0 && n.fails == 0
       case GetParameters => n.devTakes == 1 && n.pumps == 0 && n.fails == 0 && !x.isOutput
       case Position => n.devTakes == 0 && n.pumps == 0 && n.fails == 0
  }

  /** Where a call `op` on the stream `x` numbered `s` can be, having done `n`. */
  ghost predicate PointOk(op: Op, s: nat, pc: PC, x: Stream, n: Tally) {
    && (op != Standby && op != Transfer ==> n.changes == 0)
    && match pc
       case WantPre(o, r) => o == op && r == s && Taken(n, 0, 0, 0)
       case WantLock(o, r) => o == op && r == s && Taken(n, 1, 0, 0)
       case DropPre(o, r) => o == op && r == s && Took(n, 0)
       case Body(o, r) => o == op && r == s && Took(n, 0)
       case WantDev(o, r) => o == op && r == s && op != Position && Took(n, 0)
       case InDev(o, r) => o == op && r == s && op != Position && Took(n, 1)
       case DropDev(o, r, ok) =>
         && o == op && r == s && op != Position && !(op == GetParameters && x.isOutput)
         && if ok then Took(n, 1) else op == Transfer && n.fails == 1 && Took(n.(fails := 0), 1)
       case SetFlag(o, r) => o == op && r == s && (op == Standby || op == Transfer) && Took(n, 1)
       case Pump(r) => r == s && op == Transfer && Took(n, n.devTakes)
       case Unlock(r) => r == s && Done(op, x, n)
       case DropLockEarly(r) => r == s && op == GetParameters && x.isOutput && Took(n, 1)
       case DropDevLate => op == GetParameters && x.isOutput && n.lockFirst == 1 && Took(n.(lockFirst := 0), 1)
       case _ => false
  }

  ghost predicate CallPoint(op: Op, s: nat, st: State, t: nat, n: Tally) {
    t < |st.pcs| && s < |st.streams| && PointOk(op, s, st.pcs[t], st.streams[s], n)
  }

  /** The steps of other threads leave a call where it is. */
  lemma OtherKeepsCall(op: Op, s: nat, a: State, e: Event, b: State, t: nat, n: Tally)
    requires Inv(a) && Happens(a, e, b) && e.thread != t && CallPoint(op, s, a, t, n)
    ensures CallPoint(op, s, b, t, n) && StepTally(a, e, b, t, s) == NOTHING
  {
    hide Inv, Next, Took;
    StepKeepsThreads(a, e.thread, e.choice);
    StepFrame(a, e, b, s);
    InvAt(a, t, s);
  }

  /** What holds of the stream and the device lock for the thread at `pc`. */
  ghost predicate Holds(t: nat, pc: PC, x: Stream, dev: Option<nat>) {
    && (LockHeld(pc).Some? ==> x.lock == Some(t) && FlagOk(pc, x))
    && (DevHeld(pc) <==> dev == Some(t))
  }

  /** What a step inside a stream call adds to the tally, by where the thread is. */
  function Expected(pc: PC, c: Choice): Tally {
    match pc
    case WantPre(_, _) => NOTHING.(preTakes := 1)
    case WantLock(_, _) => NOTHING.(lockTakes := 1)
    case WantDev(_, _) => NOTHING.(devTakes := 1)
    case InDev(op, _) =>
      NOTHING.(fails := One(c == Fail), changes := One(op == Standby || (op == Transfer && c == Go)))
    case SetFlag(_, _) => NOTHING.(changes := 1)
    case Pump(_) => NOTHING.(pumps := 1)
    case DropLockEarly(_) => NOTHING.(lockFirst := 1)
    case _ => NOTHING
  }

  lemma TallyExpected(t: nat, pc: PC, c: Choice, s: nat, x: Stream, dev: Option<nat>, l: Local)
    requires LocalNext(t, pc, c, s, x, dev) == Some(l) && Holds(t, pc, x, dev) && LockHeld(pc).Some?
    ensures LocalTally(t, pc, c, x, l.stream, dev, l.dev) == Expected(pc, c)
  {
  }

  lemma TallyExpectedLocking(t: nat, pc: PC, c: Choice, s: nat, x: Stream, dev: Option<nat>, l: Local)
    requires LocalNext(t, pc, c, s, x, dev) == Some(l) && Holds(t, pc, x, dev) && (pc.WantPre? || pc.WantLock?)
    ensures LocalTally(t, pc, c, x, l.stream, dev, l.dev) == Expected(pc, c)
  {
  }

  // Each step in turn: the point reached, given the point left.

  lemma AtWantPre(op: Op, s: nat, o: Op, r: nat, t: nat, x: Stream, n: Tally)
    requires PointOk(op, s, WantPre(o, r), x, n)
    ensures o == op && PointOk(op, s, WantLock(o, s), x.(pre := Some(t)), n.(preTakes := n.preTakes + 1))
  {
  }

  lemma AtWantLock(op: Op, s: nat, o: Op, r: nat, t: nat, x: Stream, n: Tally)
    requires PointOk(op, s, WantLock(o, r), x, n)
    ensures PointOk(op, s, DropPre(o, s), x.(lock := Some(t)), n.(lockTakes := n.lockTakes + 1))
  {
  }

  lemma AtDropPre(op: Op, s: nat, o: Op, r: nat, x: Stream, n: Tally)
    requires PointOk(op, s, DropPre(o, r), x, n)
    ensures PointOk(op, s, Body(o, s), x.(pre := None), n)
  {
  }

  lemma AtBody(op: Op, s: nat, o: Op, r: nat, x: Stream, n: Tally)
    requires PointOk(op, s, Body(o, r), x, n) && FlagOk(Body(o, r), x)
    ensures PointOk(op, s, AfterTest(o, s, x.standby), x, n)
  {
  }

  lemma AtWantDev(op: Op, s: nat, o: Op, r: nat, x: Stream, n: Tally)
    requires PointOk(op, s, WantDev(o, r), x, n)
    ensures PointOk(op, s, InDev(o, s), x, n.(devTakes := n.devTakes + 1))
  {
  }

  lemma AtInDev(op: Op, s: nat, o: Op, r: nat, x: Stream, n: Tally, changes: nat)
    requires PointOk(op, s, InDev(o, r), x, n) && (o != Standby && o != Transfer ==> changes == 0)
    ensures PointOk(op, s, AfterDevice(o, s, x.isOutput), AtDevice(o, x), n.(changes := n.changes + changes))
  {
  }

  lemma AtFail(op: Op, s: nat, r: nat, x: Stream, n: Tally)
    requires PointOk(op, s, InDev(Transfer, r), x, n)
    ensures PointOk(op, s, DropDev(Transfer, s, false), x, n.(fails := n.fails + 1))
  {
  }

  lemma PlusChanges(n: Tally, changes: nat)
    ensures Plus(n, NOTHING.(changes := changes)) == n.(changes := n.changes + changes)
    ensures Plus(n, NOTHING) == n
  {
  }

  lemma PlusOne(n: Tally)
    ensures Plus(n, NOTHING.(preTakes := 1)) == n.(preTakes := n.preTakes + 1)
    ensures Plus(n, NOTHING.(lockTakes := 1)) == n.(lockTakes := n.lockTakes + 1)
    ensures Plus(n, NOTHING.(devTakes := 1)) == n.(devTakes := n.devTakes + 1)
    ensures Plus(n, NOTHING.(fails := 1)) == n.(fails := n.fails + 1)
    ensures Plus(n, NOTHING.(pumps := 1)) == n.(pumps := n.pumps + 1)
    ensures Plus(n, NOTHING.(lockFirst := 1)) == n.(lockFirst := n.lockFirst + 1)
  {
  }

  lemma AtDropDev(op: Op, s: nat, o: Op, r: nat, ok: bool, x: Stream, n: Tally)
    requires PointOk(op, s, DropDev(o, r, ok), x, n) && FlagOk(DropDev(o, r, ok), x)
    ensures PointOk(op, s, AfterDrop(o, s, ok), x, n)
  {
  }

  lemma AtSetFlag(op: Op, s: nat, o: Op, r: nat, x: Stream, n: Tally)
    requires PointOk(op, s, SetFlag(o, r), x, n) && FlagOk(SetFlag(o, r), x)
    ensures PointOk(op, s, if o == Standby then Unlock(s) else Pump(s), x.(standby := o == Standby),
                    n.(changes := n.changes + 1))
  {
  }

  lemma AtPump(op: Op, s: nat, r: nat, x: Stream, n: Tally)
    requires PointOk(op, s, Pump(r), x, n) && FlagOk(Pump(r), x)
    ensures PointOk(op, s, Unlock(s), x, n.(pumps := n.pumps + 1))
  {
  }

  lemma AtDropLockEarly(op: Op, s: nat, r: nat, x: Stream, n: Tally)
    requires PointOk(op, s, DropLockEarly(r), x, n)
    ensures PointOk(op, s, DropDevLate, x.(lock := None), n.(lockFirst := n.lockFirst + 1))
  {
  }

  lemma AdvancesToDevice(op: Op, s: nat, t: nat, pc: PC, c: Choice, x: Stream, dev: Option<nat>, l: Local, n: Tally)
    requires LocalNext(t, pc, c, s, x, dev) == Some(l) && Holds(t, pc, x, dev) && PointOk(op, s, pc, x, n)
    requires pc.WantPre? || pc.WantLock? || pc.DropPre? || pc.Body? || pc.WantDev?
    ensures PointOk(op, s, l.pc, l.stream, Plus(n, Expected(pc, c)))
  {
    hide PointOk, AfterTest, FlagOk, Plus;
    PlusChanges(n, 0);
    PlusOne(n);
    match pc
    case WantPre(o, r) => AtWantPre(op, s, o, r, t, x, n);
    case WantLock(o, r) => AtWantLock(op, s, o, r, t, x, n);
    case DropPre(o, r) => AtDropPre(op, s, o, r, x, n);
    case Body(o, r) => AtBody(op, s, o, r, x, n);
    case WantDev(o, r) => AtWantDev(op, s, o, r, x, n);
    case _ =>
  }

  lemma AdvancesFromDevice(op: Op, s: nat, t: nat, pc: PC, c: Choice, x: Stream, dev: Option<nat>, l: Local, n: Tally)
    requires LocalNext(t, pc, c, s, x, dev) == Some(l) && Holds(t, pc, x, dev) && PointOk(op, s, pc, x, n)
    requires pc.InDev? || pc.DropDev? || pc.SetFlag? || pc.Pump? || pc.DropLockEarly?
    ensures PointOk(op, s, l.pc, l.stream, Plus(n, Expected(pc, c)))
  {
    hide PointOk, AfterDevice, AtDevice, AfterDrop, FlagOk, Plus;
    PlusChanges(n, 1);
    PlusOne(n);
    match pc
    case InDev(o, r) =>
      if c == Fail {
        AtFail(op, s, r, x, n);
      } else {
        AtInDev(op, s, o, r, x, n, Expected(pc, c).changes);
        PlusChanges(n, Expected(pc, c).changes);
      }
    case DropDev(o, r, ok) => AtDropDev(op, s, o, r, ok, x, n);
    case SetFlag(o, r) => AtSetFlag(op, s, o, r, x, n);
    case Pump(r) => AtPump(op, s, r, x, n);
    case DropLockEarly(r) => AtDropLockEarly(op, s, r, x, n);
    case _ =>
  }

  /** Every step of a call short of returning leads to its next point. */
  lemma Advances(op: Op, s: nat, t: nat, pc: PC, c: Choice, x: Stream, dev: Option<nat>, l: Local, n: Tally)
    requires LocalNext(t, pc, c, s, x, dev) == Some(l) && Holds(t, pc, x, dev) && PointOk(op, s, pc, x, n)
    requires Using(pc).Some? && !pc.Unlock?
    ensures PointOk(op, s, l.pc, l.stream, Plus(n, LocalTally(t, pc, c, x, l.stream, dev, l.dev)))
  {
    hide PointOk, LocalNext, LocalTally, Holds, Plus, Expected;
    if pc.WantPre? || pc.WantLock? {
      TallyExpectedLocking(t, pc, c, s, x, dev, l);
    } else {
      TallyExpected(t, pc, c, s, x, dev, l);
    }
    if pc.WantPre? || pc.WantLock? || pc.DropPre? || pc.Body? || pc.WantDev? {
      AdvancesToDevice(op, s, t, pc, c, x, dev, l, n);
    } else {
      AdvancesFromDevice(op, s, t, pc, c, x, dev, l, n);
    }
  }

  lemma OwnKeepsCall(op: Op, s: nat, a: State, e: Event, b: State, n: Tally)
    requires Inv(a) && Happens(a, e, b) && CallPoint(op, s, a, e.thread, n) && b.pcs[e.thread] != Idle
    ensures CallPoint(op, s, b, e.thread, Plus(n, StepTally(a, e, b, e.thread, s)))
  {
    hide PointOk, LocalNext, LocalTally, Plus, Inv;
    var t := e.thread;
    PointUses(op, s, a.pcs[t], a.streams[s], n);
    ThreadAt(a, t);
    InvAt(a, t, s);
    HeldFacts(a.pcs[t]);
    if StreamOf(a.pcs[t]) == Some(s) {
      StepOnOwn(a, e, b, s);
      LocalMove(a, t, e.choice, b, s);
      if a.pcs[t].Unlock? {
        UnlockReturns(t, a.pcs[t], e.choice, s, a.streams[s], a.dev, Local(b.pcs[t], b.streams[s], b.dev));
        assert false;
      }
      Advances(op, s, t, a.pcs[t], e.choice, a.streams[s], a.dev, Local(b.pcs[t], b.streams[s], b.dev), n);
    }
  }

  lemma PointUses(op: Op, s: nat, pc: PC, x: Stream, n: Tally)
    requires PointOk(op, s, pc, x, n)
    ensures pc != Idle && (pc == DropDevLate || Using(pc) == Some(s))
  {
  }

  lemma LocalMove(a: State, t: nat, c: Choice, b: State, s: nat)
    requires t < |a.pcs| && s < |a.streams| && StreamStep(a, t, c, s) == Some(b)
    ensures |b.pcs| == |a.pcs| && |b.streams| == |a.streams|
    ensures LocalNext(t, a.pcs[t], c, s, a.streams[s], a.dev) == Some(Local(b.pcs[t], b.streams[s], b.dev))
  {
    hide LocalNext;
  }

  lemma UnlockReturns(t: nat, pc: PC, c: Choice, s: nat, x: Stream, dev: Option<nat>, l: Local)
    requires LocalNext(t, pc, c, s, x, dev) == Some(l) && pc.Unlock?
    ensures l.pc == Idle && l.stream == x.(lock := None) && l.dev == dev && c == Go
  {
  }

  // ------------------------------------------------------------- whole calls

  /** Event `i` starts a call of thread `t` and event `j` is the step with which the call returns. */
  ghost predicate IsCall(run: seq<State>, events: seq<Event>, t: nat, i: nat, j: nat) {
    && IsExecution(run, events) && i < j < |events| && t < |run[0].pcs|
    && |run[i].pcs| == |run[j + 1].pcs| == |run[0].pcs|
    && events[i].thread == t && run[i].pcs[t] == Idle && run[j + 1].pcs[t] == Idle
    && forall k :: i < k <= j ==> |run[k].pcs| == |run[0].pcs| && run[k].pcs[t] != Idle
  }

  lemma CallStarts(op: Op, s: nat, a: State, e: Event, b: State)
    requires Happens(a, e, b) && a.pcs[e.thread] == Idle && e.choice == Call(op, s)
    ensures CallPoint(op, s, b, e.thread, NOTHING)
  {
  }

  lemma {:induction false} CallReaches(op: Op, s: nat, run: seq<State>, events: seq<Event>,
                                       t: nat, i: nat, j: nat, k: nat)
    requires IsCall(run, events, t, i, j) && events[i].choice == Call(op, s) && i < k <= j
    ensures CallPoint(op, s, run[k], t, Tallied(run, events, t, s, i + 1, k))
  {
    hide Inv, Next, PointOk, StepTally, Plus, Initial;
    assert Happens(run[k - 1], events[k - 1], run[k]);
    if k == i + 1 {
      CallStarts(op, s, run[i], events[i], run[k]);
    } else {
      CallReaches(op, s, run, events, t, i, j, k - 1);
      ExecutionInv(run, events, k - 1);
      var n := Tallied(run, events, t, s, i + 1, k - 1);
      if events[k - 1].thread == t {
        OwnKeepsCall(op, s, run[k - 1], events[k - 1], run[k], n);
      } else {
        OtherKeepsCall(op, s, run[k - 1], events[k - 1], run[k], t, n);
        PlusChanges(n, 0);
      }
    }
  }

  /** What a call on a stream has done when it returns: `n` tallies its steps, `x` is the stream afterwards. */
  ghost predicate Did(op: Op, x: Stream, n: Tally) {
    && n.preTakes == 1 && n.lockTakes == 1
    && n.lockFirst == One(op == GetParameters && x.isOutput)
    && match op
       case Standby => x.standby && !x.pcmOpen && n.pumps == 0
       case Transfer =>
         if n.fails == 0 then !x.standby && x.pcmOpen && n.pumps == 1
         else x.standby && !x.pcmOpen && n.pumps == 0
       case SetParameters => n.devTakes == 1 && n.changes == 0 && n.pumps == 0
       case GetParameters => n.devTakes == 1 && n.changes == 0 && n.pumps == 0
       case Position => n.devTakes == 0 && n.changes == 0 && n.pumps == 0
  }

  /** The step with which a call returns. */
  lemma CallReturns(op: Op, s: nat, a: State, e: Event, b: State, t: nat, n: Tally)
    requires Inv(a) && Happens(a, e, b) && CallPoint(op, s, a, t, n) && |b.pcs| == |a.pcs| && b.pcs[t] == Idle
    ensures e.thread == t && s < |b.streams| && Did(op, b.streams[s], Plus(n, StepTally(a, e, b, t, s)))
    ensures b.streams[s] == a.streams[s].(lock := b.streams[s].lock)
    ensures op != GetParameters ==> Owns(a, t, s)
  {
    hide PointOk, LocalNext, LocalTally, Inv, Did, Plus, Next;
    PointUses(op, s, a.pcs[t], a.streams[s], n);
    StepKeepsThreads(a, e.thread, e.choice);
    ThreadAt(a, t);
    InvAt(a, t, s);
    HeldFacts(a.pcs[t]);
    if a.pcs[t] == DropDevLate {
      LateReturns(op, s, a, e, b, t, n);
    } else {
      StepOnOwn(a, e, b, s);
      LocalMove(a, t, e.choice, b, s);
      var l := Local(b.pcs[t], b.streams[s], b.dev);
      if a.pcs[t].Unlock? {
        UnlockReturns(t, a.pcs[t], e.choice, s, a.streams[s], a.dev, l);
        TallyExpected(t, a.pcs[t], e.choice, s, a.streams[s], a.dev, l);
        PlusChanges(n, 0);
        DoneDid(op, s, a.pcs[t].s, a.streams[s], n);
      } else {
        Advances(op, s, t, a.pcs[t], e.choice, a.streams[s], a.dev, l, n);
        var m := LocalTally(t, a.pcs[t], e.choice, a.streams[s], l.stream, a.dev, l.dev);
        PointUses(op, s, l.pc, l.stream, Plus(n, m));
      }
    }
  }

  lemma LateTally(t: nat, x: Stream, dev: Option<nat>)
    ensures LocalTally(t, DropDevLate, Go, x, x, Some(t), dev) == NOTHING
  {
  }

  lemma LateDid(op: Op, s: nat, x: Stream, n: Tally)
    requires PointOk(op, s, DropDevLate, x, n)
    ensures op == GetParameters && Did(op, x, n)
  {
  }

  lemma LateReturns(op: Op, s: nat, a: State, e: Event, b: State, t: nat, n: Tally)
    requires Happens(a, e, b) && e.thread == t && CallPoint(op, s, a, t, n) && a.pcs[t] == DropDevLate
    requires a.dev == Some(t)
    ensures b.streams == a.streams && Did(op, b.streams[s], Plus(n, StepTally(a, e, b, t, s)))
    ensures op == GetParameters
  {
    hide PointOk, LocalTally, Did, Plus, StreamStep;
    LateTally(t, a.streams[s], b.dev);
    LateDid(op, s, a.streams[s], n);
    PlusChanges(n, 0);
  }

  lemma DoneDid(op: Op, s: nat, r: nat, x: Stream, n: Tally)
    requires PointOk(op, s, Unlock(r), x, n)
    ensures Did(op, x.(lock := None), n)
  {
  }

  /**
   What a call on a stream has done when it returns, whatever other threads did in between. Each call
   takes the two locks of the stream once. Standby leaves the PCM closed and the flag set; a transfer
   moves data once and leaves the PCM open, unless the open failed, and then moves nothing and leaves the
   PCM closed; the parameter calls take the device lock once and change nothing.
   */
  lemma CallDoes(op: Op, s: nat, run: seq<State>, events: seq<Event>, t: nat, i: nat, j: nat)
    requires IsCall(run, events, t, i, j) && events[i].choice == Call(op, s)
    ensures s < |run[j].streams| && s < |run[j + 1].streams|
    ensures Did(op, run[j + 1].streams[s], Tallied(run, events, t, s, i + 1, j + 1))
    ensures run[j + 1].streams[s] == run[j].streams[s].(lock := run[j + 1].streams[s].lock)
    ensures op != GetParameters ==> Owns(run[j], t, s)
  {
    hide Inv, Next, PointOk, StepTally, Plus, Initial, Did;
    CallReaches(op, s, run, events, t, i, j, j);
    ExecutionInv(run, events, j);
    assert Happens(run[j], events[j], run[j + 1]);
    CallReturns(op, s, run[j], events[j], run[j + 1], t, Tallied(run, events, t, s, i + 1, j));
  }

  // -------------------------------------------------------------- other calls

  /** Where a call that mutes or unmutes the microphone can be. */
  ghost predicate MutePoint(muted: bool, st: State, t: nat) {
    && t < |st.pcs|
    && (st.pcs[t] == MuteWant(muted)
        || (st.pcs[t] == MuteDev(muted) && st.dev == Some(t))
        || (st.pcs[t] == MuteDrop && st.dev == Some(t) && st.micMuted == muted))
  }

  lemma OwnMuteAdvances(muted: bool, a: State, e: Event, b: State)
    requires Happens(a, e, b) && MutePoint(muted, a, e.thread)
    ensures |b.pcs| == |a.pcs| && (b.pcs[e.thread] != Idle ==> MutePoint(muted, b, e.thread))
    ensures b.pcs[e.thread] == Idle ==> a.dev == Some(e.thread) && a.micMuted == muted && b.micMuted == muted
  {
    hide StreamStep;
  }

  lemma MuteAdvances(muted: bool, a: State, e: Event, b: State, t: nat)
    requires Inv(a) && Happens(a, e, b) && MutePoint(muted, a, t)
    ensures t < |b.pcs| && (b.pcs[t] != Idle ==> MutePoint(muted, b, t))
    ensures b.pcs[t] == Idle ==> a.dev == Some(t) && a.micMuted == muted && b.micMuted == muted
  {
    hide Inv, Next;
    if e.thread == t {
      OwnMuteAdvances(muted, a, e, b);
    } else {
      StepKeepsThreads(a, e.thread, e.choice);
      MuteFrame(a, e, b);
      if a.dev == Some(t) {
        DevKept(a, e, b, t);
      }
    }
  }

  /** Another thread's step leaves the device lock with its owner. */
  lemma DevKept(a: State, e: Event, b: State, t: nat)
    requires Inv(a) && Happens(a, e, b) && e.thread != t && a.dev == Some(t)
    ensures b.dev == Some(t)
  {
    assert ThreadOk(a, e.thread);
  }

  lemma {:induction false} MuteReaches(muted: bool, run: seq<State>, events: seq<Event>,
                                       t: nat, i: nat, j: nat, k: nat)
    requires IsCall(run, events, t, i, j) && events[i].choice == CallMute(muted) && i < k <= j
    ensures MutePoint(muted, run[k], t)
  {
    hide Inv, StreamStep, Initial;
    assert Happens(run[k - 1], events[k - 1], run[k]);
    if k > i + 1 {
      hide Next;
      MuteReaches(muted, run, events, t, i, j, k - 1);
      ExecutionInv(run, events, k - 1);
      MuteAdvances(muted, run[k - 1], events[k - 1], run[k], t);
    }
  }

  /** A call that mutes or unmutes has done so under the device lock when it returns. */
  lemma MuteDoes(muted: bool, run: seq<State>, events: seq<Event>, t: nat, i: nat, j: nat)
    requires IsCall(run, events, t, i, j) && events[i].choice == CallMute(muted)
    ensures run[j].dev == Some(t) && run[j].micMuted == muted && run[j + 1].micMuted == muted
  {
    hide Inv, Next, Initial, MutePoint;
    MuteReaches(muted, run, events, t, i, j, j);
    ExecutionInv(run, events, j);
    assert Happens(run[j], events[j], run[j + 1]);
    MuteAdvances(muted, run[j], events[j], run[j + 1], t);
  }

  /** Where a call that opens the stream numbered `s` can be. */
  ghost predicate OpenPoint(isOutput: bool, s: nat, st: State, t: nat, n: Tally) {
    && t < |st.pcs| && s < |st.streams| && Opening(st.pcs[t]) == Some(s)
    && st.streams[s].isOutput == isOutput
    && n.devTakes == One(!st.pcs[t].OpenWant?)
  }

  lemma OpenStarts(isOutput: bool, a: State, e: Event, b: State)
    requires Happens(a, e, b) && a.pcs[e.thread] == Idle && e.choice == CallOpen(isOutput)
    ensures OpenPoint(isOutput, |a.streams|, b, e.thread, NOTHING)
    ensures b.streams[..|a.streams|] == a.streams
  {
  }

  lemma OpenStep(s: nat, t: nat, pc: PC, c: Choice, x: Stream, dev: Option<nat>, l: Local)
    requires LocalNext(t, pc, c, s, x, dev) == Some(l) && Opening(pc) == Some(s) && (DevHeld(pc) <==> dev == Some(t))
    requires !x.published && !x.pcmOpen
    ensures l.stream.isOutput == x.isOutput
    ensures LocalTally(t, pc, c, x, l.stream, dev, l.dev).devTakes == One(pc.OpenWant?)
    ensures l.pc != Idle ==> Opening(l.pc) == Some(s) && !l.pc.OpenWant?
    ensures l.pc == Idle ==> !pc.OpenWant? && l.stream.published && l.stream.standby && !l.stream.pcmOpen
  {
  }

  lemma OpenAdvances(isOutput: bool, s: nat, a: State, e: Event, b: State, t: nat, n: Tally)
    requires Inv(a) && Happens(a, e, b) && OpenPoint(isOutput, s, a, t, n)
    ensures t < |b.pcs| && s < |b.streams| && b.streams[s].isOutput == isOutput
    ensures b.pcs[t] != Idle ==> OpenPoint(isOutput, s, b, t, Plus(n, StepTally(a, e, b, t, s)))
    ensures b.pcs[t] == Idle ==>
              && Plus(n, StepTally(a, e, b, t, s)).devTakes == 1
              && b.streams[s].published && b.streams[s].standby && !b.streams[s].pcmOpen
  {
    hide Inv, Next, LocalNext, LocalTally;
    StepKeepsThreads(a, e.thread, e.choice);
    StepFrame(a, e, b, s);
    InvAt(a, t, s);
    ThreadAt(a, t);
    if e.thread == t {
      HeldFacts(a.pcs[t]);
      OpeningUses(a.pcs[t]);
      StepOnOwn(a, e, b, s);
      LocalMove(a, t, e.choice, b, s);
      OpenStep(s, t, a.pcs[t], e.choice, a.streams[s], a.dev, Local(b.pcs[t], b.streams[s], b.dev));
    }
  }

  lemma OpeningUses(pc: PC)
    ensures Opening(pc).Some? ==> pc != Idle && StreamOf(pc) == Opening(pc)
  {
  }

  lemma {:induction false} OpenReaches(isOutput: bool, s: nat, run: seq<State>, events: seq<Event>,
                                       t: nat, i: nat, j: nat, k: nat)
    requires IsCall(run, events, t, i, j) && events[i].choice == CallOpen(isOutput) && i < k <= j
    requires s == |run[i].streams|
    ensures OpenPoint(isOutput, s, run[k], t, Tallied(run, events, t, s, i + 1, k))
  {
    hide Inv, Next, OpenPoint, StepTally, Plus, Initial;
    assert Happens(run[k - 1], events[k - 1], run[k]);
    if k == i + 1 {
      OpenStarts(isOutput, run[i], events[i], run[k]);
    } else {
      OpenReaches(isOutput, s, run, events, t, i, j, k - 1);
      ExecutionInv(run, events, k - 1);
      OpenAdvances(isOutput, s, run[k - 1], events[k - 1], run[k], t, Tallied(run, events, t, s, i + 1, k - 1));
    }
  }

  /**
   A call that opens a stream has taken the device lock once and hands out a new stream of the kind
   asked for, in standby and with its PCM closed.
   */
  lemma OpenDoes(isOutput: bool, run: seq<State>, events: seq<Event>, t: nat, i: nat, j: nat)
    requires IsCall(run, events, t, i, j) && events[i].choice == CallOpen(isOutput)
    ensures var s := |run[i].streams|;
            && Tallied(run, events, t, s, i + 1, j + 1).devTakes == 1
            && s < |run[j + 1].streams|
            && var x := run[j + 1].streams[s];
               x.isOutput == isOutput && x.published && x.standby && !x.pcmOpen
  {
    hide Inv, Next, OpenPoint, StepTally, Plus, Initial;
    var s := |run[i].streams|;
    OpenReaches(isOutput, s, run, events, t, i, j, j);
    ExecutionInv(run, events, j);
    assert Happens(run[j], events[j], run[j + 1]);
    OpenAdvances(isOutput, s, run[j], events[j], run[j + 1], t, Tallied(run, events, t, s, i + 1, j));
  }
}
