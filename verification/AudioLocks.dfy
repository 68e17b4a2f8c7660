/**
 The lock protocol of the audio HAL as a transition system, for any number of threads and
 streams: per-stream `pre_lock` and `lock`, the device lock, the `standby` flag and the PCM.
 */
module AudioLocks {
  import opened CTypes

  /** The calls that lock a stream. `Transfer` is `out_write` or `in_read`. */
  datatype Op = Standby | Transfer | SetParameters | GetParameters | Position

  /** Where a thread is; each value says what the thread is about to do. */
  datatype PC =
    | Idle
    | WantPre(op: Op, s: nat)                // lock pre_lock
    | WantLock(op: Op, s: nat)               // lock the stream
    | DropPre(op: Op, s: nat)                // unlock pre_lock
    | Body(op: Op, s: nat)                   // test standby
    | WantDev(op: Op, s: nat)                // lock the device
    | InDev(op: Op, s: nat)                  // open or close the PCM, or use the profile
    | DropDev(op: Op, s: nat, ok: bool)      // unlock the device
    | SetFlag(op: Op, s: nat)                // assign standby
    | Pump(s: nat)                           // move audio data
    | Unlock(s: nat)                         // unlock the stream
    | DropLockEarly(s: nat)                  // out_get_parameters unlocks the stream first
    | DropDevLate                            // ... and the device second
    | OpenWant(s: nat)                       // adev_open_*_stream: lock the device
    | OpenDev(s: nat)                        // read the profile
    | OpenDrop(s: nat)                       // unlock the device
    | Publish(s: nat)                        // set standby and hand the stream out
    | MuteWant(muted: bool)                  // adev_set_mic_mute
    | MuteDev(muted: bool)
    | MuteDrop

  /** `published` is false from allocation until the opening call returns. */
  datatype Stream = Stream(
    isOutput: bool, published: bool,
    pre: Option<nat>, lock: Option<nat>,
    standby: bool, pcmOpen: bool)

  datatype State = State(pcs: seq<PC>, streams: seq<Stream>, dev: Option<nat>, micMuted: bool)

  /** What the environment decides: the next call of an idle thread, or whether an open fails. */
  datatype Choice = Call(op: Op, s: nat) | CallOpen(isOutput: bool) | CallMute(muted: bool) | Go | Fail

  // --------------------------------------------------------- who holds what

  function PreHeld(pc: PC): Option<nat> {
    if pc.WantLock? || pc.DropPre? then Some(pc.s) else None
  }

  function LockHeld(pc: PC): Option<nat> {
    if pc.DropPre? || pc.Body? || pc.WantDev? || pc.InDev? || pc.DropDev? || pc.SetFlag? || pc.Pump? || pc.Unlock?
       || pc.DropLockEarly? then Some(pc.s) else None
  }

  predicate DevHeld(pc: PC) {
    pc.InDev? || pc.DropDev? || pc.DropLockEarly? || pc.DropDevLate? || pc.OpenDev? || pc.OpenDrop?
    || pc.MuteDev? || pc.MuteDrop?
  }

  function Opening(pc: PC): Option<nat> {
    if pc.OpenWant? || pc.OpenDev? || pc.OpenDrop? || pc.Publish? then Some(pc.s) else None
  }

  /** The stream a call works on, unless it is still being opened. */
  function Using(pc: PC): Option<nat> {
    if pc.WantPre? then Some(pc.s)
    else if PreHeld(pc).Some? then PreHeld(pc)
    else LockHeld(pc)
  }

  // ------------------------------------------------------------------ steps

  /** Thread `t` moves to `pc`, changing at most stream `s` and the device lock. */
  function Move(st: State, t: nat, pc: PC, s: nat, stream: Stream, dev: Option<nat>): State
    requires t < |st.pcs| && s < |st.streams|
  {
    State(st.pcs[t := pc], st.streams[s := stream], dev, st.micMuted)
  }

  /** Thread `t` moves to `pc`, changing no stream. */
  function MoveDev(st: State, t: nat, pc: PC, dev: Option<nat>, muted: bool): State
    requires t < |st.pcs|
  {
    State(st.pcs[t := pc], st.streams, dev, muted)
  }

  /** A call made by the idle thread `t`. */
  function StartCall(st: State, t: nat, c: Choice): Option<State>
    requires t < |st.pcs|
  {
    match c
    case Call(op, s) =>
      if s < |st.streams| && st.streams[s].published then
        Some(MoveDev(st, t, WantPre(op, s), st.dev, st.micMuted))
      else None
    case CallOpen(isOutput) =>
      var created := Stream(isOutput, false, None, None, false, false);
      Some(State(st.pcs[t := OpenWant(|st.streams|)], st.streams + [created], st.dev, st.micMuted))
    case CallMute(muted) => Some(MoveDev(st, t, MuteWant(muted), st.dev, st.micMuted))
    case _ => None
  }

  /** Where a step takes a thread, the stream it works on and the device lock. */
  datatype Local = Local(pc: PC, stream: Stream, dev: Option<nat>)

  /** The next step of thread `t` at `pc` inside a call on the stream `x` numbered `s`. */
  function LocalNext(t: nat, pc: PC, c: Choice, s: nat, x: Stream, dev: Option<nat>): Option<Local> {
    if c == Fail then
      match pc
      case InDev(Transfer, _) => Some(Local(DropDev(Transfer, s, false), x, dev))
      case _ => None
    else if c != Go then None
    else
      match pc
      case WantPre(op, _) => if x.pre == None then Some(Local(WantLock(op, s), x.(pre := Some(t)), dev)) else None
      case WantLock(op, _) => if x.lock == None then Some(Local(DropPre(op, s), x.(lock := Some(t)), dev)) else None
      case DropPre(op, _) => Some(Local(Body(op, s), x.(pre := None), dev))
      case Body(op, _) => Some(Local(AfterTest(op, s, x.standby), x, dev))
      case WantDev(op, _) => if dev == None then Some(Local(InDev(op, s), x, Some(t))) else None
      case InDev(op, _) => Some(Local(AfterDevice(op, s, x.isOutput), AtDevice(op, x), dev))
      case DropDev(op, _, ok) => Some(Local(AfterDrop(op, s, ok), x, None))
      case SetFlag(op, _) =>
        Some(Local(if op == Standby then Unlock(s) else Pump(s), x.(standby := op == Standby), dev))
      case Pump(_) => Some(Local(Unlock(s), x, dev))
      case Unlock(_) => Some(Local(Idle, x.(lock := None), dev))
      case DropLockEarly(_) => Some(Local(DropDevLate, x.(lock := None), dev))
      case OpenWant(_) => if dev == None then Some(Local(OpenDev(s), x, Some(t))) else None
      case OpenDev(_) => Some(Local(OpenDrop(s), x, dev))
      case OpenDrop(_) => Some(Local(Publish(s), x, None))
      case Publish(_) => Some(Local(Idle, x.(standby := true, published := true), dev))
      case _ => None
  }

  /** That step taken in a whole state. */
  function StreamStep(st: State, t: nat, c: Choice, s: nat): Option<State>
    requires t < |st.pcs| && s < |st.streams|
  {
    match LocalNext(t, st.pcs[t], c, s, st.streams[s], st.dev)
    case None => None
    case Some(l) => Some(Move(st, t, l.pc, s, l.stream, l.dev))
  }

  function AfterTest(op: Op, s: nat, standby: bool): PC {
    match op
    case Standby => if !standby then WantDev(op, s) else Unlock(s)
    case Transfer => if standby then WantDev(op, s) else Pump(s)
    case SetParameters => WantDev(op, s)
    case GetParameters => WantDev(op, s)
    case Position => Unlock(s)
  }

  /** `proxy_close`, a successful `proxy_open`, or no change to the PCM. */
  function AtDevice(op: Op, x: Stream): Stream {
    match op
    case Standby => x.(pcmOpen := false)
    case Transfer => x.(pcmOpen := true)
    case _ => x
  }

  function AfterDevice(op: Op, s: nat, isOutput: bool): PC {
    if op == GetParameters && isOutput then DropLockEarly(s) else DropDev(op, s, true)
  }

  function AfterDrop(op: Op, s: nat, ok: bool): PC {
    if op == Standby || (op == Transfer && ok) then SetFlag(op, s) else Unlock(s)
  }

  function StreamOf(pc: PC): Option<nat> {
    if Using(pc).Some? then Using(pc) else Opening(pc)
  }

  /** One step of thread `t`; None when the thread is blocked or the choice does not apply. */
  function Next(st: State, t: nat, c: Choice): Option<State>
    requires t < |st.pcs|
  {
    var pc := st.pcs[t];
    if pc == Idle then StartCall(st, t, c)
    else if StreamOf(pc).Some? then
      if StreamOf(pc).value < |st.streams| then StreamStep(st, t, c, StreamOf(pc).value) else None
    else if c != Go then None
    else
      match pc
      case DropDevLate => Some(MoveDev(st, t, Idle, None, st.micMuted))
      case MuteWant(m) => if st.dev == None then Some(MoveDev(st, t, MuteDev(m), Some(t), st.micMuted)) else None
      case MuteDev(m) => Some(MoveDev(st, t, MuteDrop, st.dev, m))
      case MuteDrop => Some(MoveDev(st, t, Idle, None, st.micMuted))
      case _ => None
  }

  // -------------------------------------------------------------- invariant

  /** How `standby` relates to the PCM while the stream lock is held at `pc`. */
  predicate FlagOk(pc: PC, x: Stream) {
    match pc
    case WantDev(Standby, _) => !x.standby && x.pcmOpen
    case InDev(Standby, _) => !x.standby && x.pcmOpen
    case WantDev(Transfer, _) => x.standby && !x.pcmOpen
    case InDev(Transfer, _) => x.standby && !x.pcmOpen
    case DropDev(Standby, _, _) => !x.standby && !x.pcmOpen
    case DropDev(Transfer, _, ok) => x.standby && x.pcmOpen == ok
    case SetFlag(op, _) => x.standby == x.pcmOpen == (op == Transfer) && (op == Transfer || op == Standby)
    case Pump(_) => !x.standby && x.pcmOpen
    case _ => x.standby == !x.pcmOpen
  }

  ghost predicate StreamOk(st: State, s: nat)
    requires s < |st.streams|
  {
    var x := st.streams[s];
    && (x.pre.Some? ==> x.pre.value < |st.pcs| && PreHeld(st.pcs[x.pre.value]) == Some(s))
    && (x.lock.Some? ==> x.lock.value < |st.pcs| && LockHeld(st.pcs[x.lock.value]) == Some(s))
    && (x.lock.Some? ==> FlagOk(st.pcs[x.lock.value], x))
    && (x.lock == None && x.published ==> x.standby == !x.pcmOpen)
    && (!x.published ==> !x.pcmOpen)
  }

  ghost predicate ThreadOk(st: State, t: nat)
    requires t < |st.pcs|
  {
    var pc := st.pcs[t];
    && (Using(pc).Some? ==> Using(pc).value < |st.streams| && st.streams[Using(pc).value].published)
    && (Opening(pc).Some? ==> Opening(pc).value < |st.streams| && !st.streams[Opening(pc).value].published)
    && (PreHeld(pc).Some? ==> st.streams[PreHeld(pc).value].pre == Some(t))
    && (LockHeld(pc).Some? ==> st.streams[LockHeld(pc).value].lock == Some(t))
    && (DevHeld(pc) ==> st.dev == Some(t))
  }

  ghost predicate OpenersDistinct(st: State) {
    forall t, u | 0 <= t < |st.pcs| && 0 <= u < |st.pcs| && Opening(st.pcs[t]).Some? ::
      Opening(st.pcs[t]) == Opening(st.pcs[u]) ==> t == u
  }

  ghost predicate Inv(st: State) {
    && (forall s :: 0 <= s < |st.streams| ==> StreamOk(st, s))
    && (forall t :: 0 <= t < |st.pcs| ==> ThreadOk(st, t))
    && (st.dev.Some? ==> st.dev.value < |st.pcs| && DevHeld(st.pcs[st.dev.value]))
    && OpenersDistinct(st)
  }

  ghost predicate Initial(st: State) {
    st.streams == [] && st.dev == None && forall t :: 0 <= t < |st.pcs| ==> st.pcs[t] == Idle
  }

  lemma InitialInv(st: State)
    requires Initial(st)
    ensures Inv(st)
  {
  }

  /** What a mutex owner becomes when thread `t` goes from holding (`was`) to holding (`will`). */
  ghost predicate Handover(owner: Option<nat>, newOwner: Option<nat>, t: nat, was: bool, will: bool) {
    if will then newOwner == Some(t) && (was || owner == None)
    else if was then newOwner == None
    else newOwner == owner
  }

  lemma HeldFacts(pc: PC)
    ensures PreHeld(pc).Some? ==> Using(pc) == PreHeld(pc)
    ensures LockHeld(pc).Some? ==> Using(pc) == LockHeld(pc)
    ensures Using(pc).Some? ==> Opening(pc) == None && StreamOf(pc) == Using(pc)
    ensures Using(pc) == None ==> StreamOf(pc) == Opening(pc)
  {
  }

  /** What a step of thread `t` to `pc` must do to its stream `x` and to the mutexes. */
  ghost predicate LocalStep(st: State, t: nat, pc: PC, s: nat, x: Stream, dev: Option<nat>)
    requires t < |st.pcs| && s < |st.streams|
  {
    var from, before := st.pcs[t], st.streams[s];
    && StreamOf(from) == Some(s)
    && (StreamOf(pc) == Some(s) || StreamOf(pc) == None)
    && (Opening(pc).Some? ==> Opening(from) == Some(s))
    && (if before.published then x.published else x.published == (Opening(pc) == None))
    && Handover(before.pre, x.pre, t, PreHeld(from).Some?, PreHeld(pc).Some?)
    && Handover(before.lock, x.lock, t, LockHeld(from).Some?, LockHeld(pc).Some?)
    && Handover(st.dev, dev, t, DevHeld(from), DevHeld(pc))
    && (LockHeld(pc).Some? ==> FlagOk(pc, x))
    && (LockHeld(pc) == None && (LockHeld(from).Some? || Opening(from).Some?) ==>
          (x.published ==> x.standby == !x.pcmOpen) && (!x.published ==> !x.pcmOpen))
    && (LockHeld(pc) == None && LockHeld(from) == None && Opening(from) == None ==>
          x.standby == before.standby && x.pcmOpen == before.pcmOpen)
  }

  lemma MoveKeepsThreads(st: State, t: nat, pc: PC, s: nat, x: Stream, dev: Option<nat>, u: nat)
    requires Inv(st) && t < |st.pcs| && s < |st.streams| && u < |st.pcs|
    requires LocalStep(st, t, pc, s, x, dev)
    ensures ThreadOk(Move(st, t, pc, s, x, dev), u)
  {
    hide FlagOk, PreHeld, LockHeld, DevHeld, Opening, Using, StreamOf;
    HeldFacts(st.pcs[t]);
    HeldFacts(st.pcs[u]);
    HeldFacts(pc);
    assert ThreadOk(st, t) && ThreadOk(st, u) && StreamOk(st, s);
  }

  lemma FlagOkSame(pc: PC, x: Stream, y: Stream)
    ensures x.standby == y.standby && x.pcmOpen == y.pcmOpen ==> (FlagOk(pc, x) <==> FlagOk(pc, y))
  {
  }

  lemma MoveKeepsOthers(st: State, t: nat, pc: PC, s: nat, x: Stream, dev: Option<nat>, r: nat)
    requires Inv(st) && t < |st.pcs| && s < |st.streams| && r < |st.streams| && r != s
    requires LocalStep(st, t, pc, s, x, dev)
    ensures StreamOk(Move(st, t, pc, s, x, dev), r)
  {
    hide FlagOk, PreHeld, LockHeld, DevHeld, Opening, Using, StreamOf, Handover;
    HeldFacts(st.pcs[t]);
    assert StreamOk(st, r);
  }

  lemma MoveKeepsPre(st: State, t: nat, pc: PC, s: nat, x: Stream, dev: Option<nat>)
    requires Inv(st) && t < |st.pcs| && s < |st.streams| && LocalStep(st, t, pc, s, x, dev)
    ensures x.pre.Some? ==> x.pre.value < |st.pcs| && PreHeld(st.pcs[t := pc][x.pre.value]) == Some(s)
  {
    hide Inv, FlagOk, PreHeld, LockHeld, DevHeld, Opening, Using, StreamOf;
    HeldFacts(st.pcs[t]);
    HeldFacts(pc);
    InvAt(st, t, s);
  }

  lemma MoveKeepsLock(st: State, t: nat, pc: PC, s: nat, x: Stream, dev: Option<nat>)
    requires Inv(st) && t < |st.pcs| && s < |st.streams| && LocalStep(st, t, pc, s, x, dev)
    ensures x.lock.Some? ==> x.lock.value < |st.pcs| && LockHeld(st.pcs[t := pc][x.lock.value]) == Some(s)
    ensures x.lock.Some? ==> x.lock == Some(t) || x.lock == st.streams[s].lock
    ensures x.lock == Some(t) <==> LockHeld(pc).Some?
    ensures x.lock == None ==> st.streams[s].lock == None || st.streams[s].lock == Some(t)
  {
    hide Inv, FlagOk, PreHeld, LockHeld, DevHeld, Opening, Using, StreamOf;
    HeldFacts(st.pcs[t]);
    HeldFacts(pc);
    InvAt(st, t, s);
  }

  lemma MoveKeepsOwn(st: State, t: nat, pc: PC, s: nat, x: Stream, dev: Option<nat>)
    requires Inv(st) && t < |st.pcs| && s < |st.streams| && LocalStep(st, t, pc, s, x, dev)
    ensures StreamOk(Move(st, t, pc, s, x, dev), s)
  {
    hide Inv, FlagOk, PreHeld, LockHeld, DevHeld, Opening, Using, StreamOf, Handover;
    HeldFacts(st.pcs[t]);
    HeldFacts(pc);
    InvAt(st, t, s);
    MoveKeepsPre(st, t, pc, s, x, dev);
    MoveKeepsLock(st, t, pc, s, x, dev);
    var y := st.streams[s];
    if y.lock.Some? {
      HeldFacts(st.pcs[y.lock.value]);
      InvAt(st, y.lock.value, s);
      FlagOkSame(st.pcs[y.lock.value], x, y);
    }
  }

  /** A step that touches one stream keeps the invariant if what it changes locally fits. */
  lemma MoveKeepsInv(st: State, t: nat, pc: PC, s: nat, x: Stream, dev: Option<nat>)
    requires Inv(st) && t < |st.pcs| && s < |st.streams|
    requires LocalStep(st, t, pc, s, x, dev)
    ensures Inv(Move(st, t, pc, s, x, dev))
  {
    hide FlagOk, PreHeld, LockHeld, DevHeld, Opening, Using, StreamOf, StreamOk, ThreadOk;
    var st' := Move(st, t, pc, s, x, dev);
    HeldFacts(st.pcs[t]);
    HeldFacts(pc);
    forall u | 0 <= u < |st'.pcs| ensures ThreadOk(st', u) {
      MoveKeepsThreads(st, t, pc, s, x, dev, u);
    }
    forall r | 0 <= r < |st'.streams| ensures StreamOk(st', r) {
      if r == s {
        MoveKeepsOwn(st, t, pc, s, x, dev);
      } else {
        MoveKeepsOthers(st, t, pc, s, x, dev, r);
      }
    }
  }

  /** The same for a step that touches no stream. */
  lemma MoveDevKeepsInv(st: State, t: nat, pc: PC, dev: Option<nat>, muted: bool)
    requires Inv(st) && t < |st.pcs|
    requires Opening(pc) == None && PreHeld(pc) == None && LockHeld(pc) == None
    requires PreHeld(st.pcs[t]) == None && LockHeld(st.pcs[t]) == None
    requires Using(pc).Some? ==> Using(pc).value < |st.streams| && st.streams[Using(pc).value].published
    requires Handover(st.dev, dev, t, DevHeld(st.pcs[t]), DevHeld(pc))
    ensures Inv(MoveDev(st, t, pc, dev, muted))
  {
    hide FlagOk, PreHeld, LockHeld, DevHeld, Opening, Using, StreamOf;
    var st' := MoveDev(st, t, pc, dev, muted);
    forall u | 0 <= u < |st'.pcs| ensures ThreadOk(st', u) {
      assert ThreadOk(st, u) && ThreadOk(st, t);
    }
    forall r | 0 <= r < |st'.streams| ensures StreamOk(st', r) {
      assert StreamOk(st, r);
    }
  }

  /** The step taken, as a move, and the facts about it that hold before it. */
  ghost predicate Taken(st: State, t: nat, c: Choice, s: nat, pc: PC, x: Stream, dev: Option<nat>) {
    && t < |st.pcs| && s < |st.streams| && StreamOf(st.pcs[t]) == Some(s)
    && ThreadOk(st, t) && StreamOk(st, s)
    && StreamStep(st, t, c, s) == Some(Move(st, t, pc, s, x, dev))
  }

  lemma LockingStep(st: State, t: nat, c: Choice, s: nat, pc: PC, x: Stream, dev: Option<nat>)
    requires Taken(st, t, c, s, pc, x, dev)
    requires st.pcs[t].WantPre? || st.pcs[t].WantLock?
    ensures LocalStep(st, t, pc, s, x, dev)
  {
    assert st.streams[s := x][s] == x && st.pcs[t := pc][t] == pc;
  }

  lemma TestingStep(st: State, t: nat, c: Choice, s: nat, pc: PC, x: Stream, dev: Option<nat>)
    requires Taken(st, t, c, s, pc, x, dev)
    requires st.pcs[t].DropPre? || st.pcs[t].Body?
    ensures LocalStep(st, t, pc, s, x, dev)
  {
    assert st.streams[s := x][s] == x && st.pcs[t := pc][t] == pc;
  }

  lemma DeviceStep(st: State, t: nat, c: Choice, s: nat, pc: PC, x: Stream, dev: Option<nat>)
    requires Taken(st, t, c, s, pc, x, dev)
    requires var p := st.pcs[t]; p.WantDev? || p.InDev? || p.DropDev?
    ensures LocalStep(st, t, pc, s, x, dev)
  {
    assert st.streams[s := x][s] == x && st.pcs[t := pc][t] == pc;
  }

  lemma ReleasingStep(st: State, t: nat, c: Choice, s: nat, pc: PC, x: Stream, dev: Option<nat>)
    requires Taken(st, t, c, s, pc, x, dev)
    requires var p := st.pcs[t]; p.SetFlag? || p.Pump? || p.Unlock? || p.DropLockEarly?
    ensures LocalStep(st, t, pc, s, x, dev)
  {
    assert st.streams[s := x][s] == x && st.pcs[t := pc][t] == pc;
  }

  lemma OpeningStep(st: State, t: nat, c: Choice, s: nat, pc: PC, x: Stream, dev: Option<nat>)
    requires Taken(st, t, c, s, pc, x, dev)
    requires Opening(st.pcs[t]).Some?
    ensures LocalStep(st, t, pc, s, x, dev)
  {
    assert st.streams[s := x][s] == x && st.pcs[t := pc][t] == pc;
  }

  lemma StreamStepKeepsInv(st: State, t: nat, c: Choice, s: nat)
    requires Inv(st) && t < |st.pcs| && s < |st.streams| && StreamOf(st.pcs[t]) == Some(s)
    requires StreamStep(st, t, c, s).Some?
    ensures Inv(StreamStep(st, t, c, s).value)
  {
    hide Inv, LocalStep, StreamOk, ThreadOk, FlagOk;
    InvAt(st, t, s);
    var st', p := StreamStep(st, t, c, s).value, st.pcs[t];
    var pc, x, dev := st'.pcs[t], st'.streams[s], st'.dev;
    assert st' == Move(st, t, pc, s, x, dev);
    if Opening(p).Some? {
      OpeningStep(st, t, c, s, pc, x, dev);
    } else if p.WantPre? || p.WantLock? {
      LockingStep(st, t, c, s, pc, x, dev);
    } else if p.DropPre? || p.Body? {
      TestingStep(st, t, c, s, pc, x, dev);
    } else if p.WantDev? || p.InDev? || p.DropDev? {
      DeviceStep(st, t, c, s, pc, x, dev);
    } else {
      ReleasingStep(st, t, c, s, pc, x, dev);
    }
    MoveKeepsInv(st, t, pc, s, x, dev);
  }

  lemma InvAt(st: State, t: nat, s: nat)
    requires Inv(st) && t < |st.pcs| && s < |st.streams|
    ensures ThreadOk(st, t) && StreamOk(st, s)
  {
  }

  lemma OpenKeepsInv(st: State, t: nat, isOutput: bool)
    requires Inv(st) && t < |st.pcs| && st.pcs[t] == Idle
    ensures Inv(StartCall(st, t, CallOpen(isOutput)).value)
  {
    hide FlagOk;
    var st' := StartCall(st, t, CallOpen(isOutput)).value;
    forall u | 0 <= u < |st'.pcs| ensures ThreadOk(st', u) {
      assert ThreadOk(st, u);
    }
    forall r | 0 <= r < |st'.streams| ensures StreamOk(st', r) {
      if r < |st.streams| {
        assert StreamOk(st, r);
      }
    }
    forall u | 0 <= u < |st.pcs| ensures Opening(st.pcs[u]) != Some(|st.streams|) {
      assert ThreadOk(st, u);
    }
  }

  /** Every step of every thread keeps the invariant. */
  lemma NextKeepsInv(st: State, t: nat, c: Choice)
    requires Inv(st) && t < |st.pcs| && Next(st, t, c).Some?
    ensures Inv(Next(st, t, c).value)
    ensures |Next(st, t, c).value.pcs| == |st.pcs|
  {
    hide Inv, StreamStep, FlagOk;
    var pc := st.pcs[t];
    assert ThreadOk(st, t) by { ThreadAt(st, t); }
    StepKeepsThreads(st, t, c);
    if pc == Idle {
      if c.CallOpen? {
        OpenKeepsInv(st, t, c.isOutput);
      } else {
        var st' := StartCall(st, t, c).value;
        MoveDevKeepsInv(st, t, st'.pcs[t], st.dev, st.micMuted);
      }
    } else if StreamOf(pc).Some? {
      StreamStepKeepsInv(st, t, c, StreamOf(pc).value);
    } else {
      var st' := Next(st, t, c).value;
      MoveDevKeepsInv(st, t, st'.pcs[t], st'.dev, st'.micMuted);
    }
  }

  lemma ThreadAt(st: State, t: nat)
    requires Inv(st) && t < |st.pcs|
    ensures ThreadOk(st, t)
    ensures DevHeld(st.pcs[t]) <==> st.dev == Some(t)
  {
  }

  /** A step moves one thread only; streams are only ever added. */
  lemma StepKeepsThreads(st: State, t: nat, c: Choice)
    requires t < |st.pcs| && Next(st, t, c).Some?
    ensures var st' := Next(st, t, c).value;
            && st'.pcs == st.pcs[t := st'.pcs[t]]
            && |st'.streams| >= |st.streams|
  {
    var st' := Next(st, t, c).value;
    assert |st'.pcs| == |st.pcs|;
  }
}
