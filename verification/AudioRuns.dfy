/** What the audio lock protocol guarantees over every run. */
module AudioRuns {
  import opened CTypes
  import opened AudioLocks

  // ------------------------------------------------------------------- runs

  ghost predicate Steps(a: State, b: State) {
    exists t, c :: 0 <= t < |a.pcs| && Next(a, t, c) == Some(b)
  }

  ghost predicate IsRun(run: seq<State>) {
    run != [] && forall i :: 0 <= i < |run| - 1 ==> Steps(run[i], run[i + 1])
  }

  lemma StepInv(a: State, b: State)
    requires Inv(a) && Steps(a, b)
    ensures Inv(b) && |b.pcs| == |a.pcs|
  {
    hide Inv, Next;
    var t, c :| 0 <= t < |a.pcs| && Next(a, t, c) == Some(b);
    NextKeepsInv(a, t, c);
  }

  /** The invariant holds in every state of every run from an initial state. */
  lemma {:induction false} RunInv(run: seq<State>, i: nat)
    requires IsRun(run) && Initial(run[0]) && i < |run|
    ensures Inv(run[i]) && |run[i].pcs| == |run[0].pcs|
  {
    hide Inv, Next, Initial, Steps;
    if i == 0 {
      InitialInv(run[0]);
    } else {
      RunInv(run, i - 1);
      assert Steps(run[i - 1], run[i]);
      StepInv(run[i - 1], run[i]);
    }
  }

  // ------------------------------------------------------- standby and PCM

  /** Whenever the lock of a published stream is free, `standby` says exactly that its PCM is closed. */
  lemma StandbyAgrees(run: seq<State>, i: nat, s: nat)
    requires IsRun(run) && Initial(run[0]) && i < |run| && s < |run[i].streams|
    requires run[i].streams[s].published && run[i].streams[s].lock == None
    ensures run[i].streams[s].standby <==> !run[i].streams[s].pcmOpen
  {
    RunInv(run, i);
    assert StreamOk(run[i], s);
  }

  /**
   A PCM is opened only when closed, closed only when open, and moves data only when open; all
   three happen under the stream lock, and opening and closing under the device lock as well.
   */
  lemma PcmUsedSafely(run: seq<State>, i: nat, t: nat)
    requires IsRun(run) && Initial(run[0]) && i < |run| && t < |run[i].pcs|
    ensures var st, pc := run[i], run[i].pcs[t];
            && (pc.InDev? ==> pc.s < |st.streams| && st.streams[pc.s].lock == Some(t) && st.dev == Some(t))
            && (pc.InDev? && pc.op == Transfer ==> !st.streams[pc.s].pcmOpen)
            && (pc.InDev? && pc.op == Standby ==> st.streams[pc.s].pcmOpen)
            && (pc.Pump? ==> pc.s < |st.streams| && st.streams[pc.s].lock == Some(t) && st.streams[pc.s].pcmOpen)
  {
    RunInv(run, i);
    assert ThreadOk(run[i], t);
    if LockHeld(run[i].pcs[t]).Some? {
      assert StreamOk(run[i], run[i].pcs[t].s);
    }
  }

  // ------------------------------------------------------- mutual exclusion

  /** At most one thread at a time waits for a given stream lock, or owns it. */
  lemma OneWaiter(run: seq<State>, i: nat, t: nat, u: nat)
    requires IsRun(run) && Initial(run[0]) && i < |run| && t < |run[i].pcs| && u < |run[i].pcs|
    ensures run[i].pcs[t].WantLock? && run[i].pcs[u].WantLock? && run[i].pcs[t].s == run[i].pcs[u].s ==> t == u
    ensures LockHeld(run[i].pcs[t]).Some? && LockHeld(run[i].pcs[t]) == LockHeld(run[i].pcs[u]) ==> t == u
    ensures DevHeld(run[i].pcs[t]) && DevHeld(run[i].pcs[u]) ==> t == u
  {
    RunInv(run, i);
    assert ThreadOk(run[i], t) && ThreadOk(run[i], u);
  }

  ghost predicate Waits(st: State, t: nat, s: nat) {
    t < |st.pcs| && st.pcs[t].WantLock? && st.pcs[t].s == s
  }

  lemma StreamStepAcquires(a: State, t: nat, c: Choice, s: nat, u: nat)
    requires t < |a.pcs| && s < |a.streams| && a.pcs[t] != Idle && StreamOf(a.pcs[t]).Some?
    requires Next(a, t, c).Some? && s < |Next(a, t, c).value.streams|
    requires a.streams[s].lock != Some(u) && Next(a, t, c).value.streams[s].lock == Some(u)
    ensures t == u && Waits(a, u, s) && a.streams[s].lock == None && !Waits(Next(a, t, c).value, u, s)
  {
    var r := StreamOf(a.pcs[t]).value;
    assert StreamStep(a, t, c, r) == Next(a, t, c);
    hide Next;
  }

  lemma OtherStepsKeepLocks(a: State, t: nat, c: Choice, s: nat)
    requires t < |a.pcs| && s < |a.streams| && (a.pcs[t] == Idle || StreamOf(a.pcs[t]) == None)
    requires Next(a, t, c).Some? && s < |Next(a, t, c).value.streams|
    ensures Next(a, t, c).value.streams[s].lock == a.streams[s].lock
  {
    hide StreamStep;
  }

  /** A step that gives the lock of `s` to `u` is taken by `u`, which was waiting for it. */
  lemma Acquires(a: State, b: State, s: nat, u: nat)
    requires Steps(a, b) && s < |a.streams| && s < |b.streams|
    requires a.streams[s].lock != Some(u) && b.streams[s].lock == Some(u)
    ensures Waits(a, u, s) && a.streams[s].lock == None && !Waits(b, u, s)
  {
    hide Next, StreamOf;
    var t, c :| 0 <= t < |a.pcs| && Next(a, t, c) == Some(b);
    if a.pcs[t] == Idle || StreamOf(a.pcs[t]) == None {
      OtherStepsKeepLocks(a, t, c, s);
    } else {
      StreamStepAcquires(a, t, c, s, u);
    }
  }

  lemma StreamsStay(a: State, b: State)
    requires Steps(a, b)
    ensures |a.streams| <= |b.streams|
  {
    hide Next;
    var t, c :| 0 <= t < |a.pcs| && Next(a, t, c) == Some(b);
    StepKeepsThreads(a, t, c);
  }

  /** While `t` waits for the lock of `s`, one step can free that lock but not give it to another thread. */
  lemma NotOvertakenStep(a: State, b: State, t: nat, s: nat)
    requires Inv(a) && Steps(a, b) && Waits(a, t, s) && Waits(b, t, s)
    ensures s < |a.streams| && s < |b.streams|
    ensures b.streams[s].lock == None || b.streams[s].lock == a.streams[s].lock
  {
    hide Inv, Steps;
    WaiterStream(a, t, s);
    StreamsStay(a, b);
    if b.streams[s].lock.Some? && b.streams[s].lock != a.streams[s].lock {
      var u := b.streams[s].lock.value;
      Acquires(a, b, s, u);
      WaitersEqual(a, t, u, s);
    }
  }

  lemma WaitersEqual(st: State, t: nat, u: nat, s: nat)
    requires Inv(st) && Waits(st, t, s) && Waits(st, u, s)
    ensures t == u
  {
    assert ThreadOk(st, t) && ThreadOk(st, u);
  }

  /** The waiter is never overtaken: as long as it waits, nobody else acquires the lock. */
  lemma {:induction false} NotOvertaken(run: seq<State>, i: nat, j: nat, t: nat, s: nat)
    requires IsRun(run) && Initial(run[0]) && i <= j < |run|
    requires forall k :: i <= k <= j ==> Waits(run[k], t, s)
    ensures s < |run[i].streams| && s < |run[j].streams|
    ensures run[j].streams[s].lock == None || run[j].streams[s].lock == run[i].streams[s].lock
  {
    hide Inv, Steps;
    RunInv(run, i);
    assert Waits(run[i], t, s);
    if i == j {
      WaiterStream(run[i], t, s);
    } else {
      NotOvertaken(run, i, j - 1, t, s);
      RunInv(run, j - 1);
      assert Steps(run[j - 1], run[j]);
      assert Waits(run[j - 1], t, s) && Waits(run[j], t, s);
      NotOvertakenStep(run[j - 1], run[j], t, s);
    }
  }

  lemma WaiterStream(st: State, t: nat, s: nat)
    requires Inv(st) && Waits(st, t, s)
    ensures s < |st.streams|
  {
    assert ThreadOk(st, t);
  }

  /** Whoever acquires a stream lock is the thread that was waiting for it. */
  lemma WaiterIsNextOwner(run: seq<State>, i: nat, s: nat, u: nat)
    requires IsRun(run) && Initial(run[0]) && i + 1 < |run| && s < |run[i].streams|
    requires s < |run[i + 1].streams|
    requires run[i].streams[s].lock != Some(u) && run[i + 1].streams[s].lock == Some(u)
    ensures Waits(run[i], u, s) && run[i].streams[s].lock == None
  {
    hide Steps;
    assert Steps(run[i], run[i + 1]);
    Acquires(run[i], run[i + 1], s, u);
  }

  // ------------------------------------------------------- deadlock freedom

  predicate Busy(st: State, t: nat) {
    t < |st.pcs| && st.pcs[t] != Idle
  }

  predicate CanGo(st: State, t: nat) {
    Busy(st, t) && Next(st, t, Go).Some?
  }

  /** A thread that is not about to take a mutex can always take its step. */
  lemma NotWaitingGoes(st: State, t: nat)
    requires Inv(st) && Busy(st, t)
    requires var p := st.pcs[t]; !(p.WantPre? || p.WantLock? || p.WantDev? || p.OpenWant? || p.MuteWant?)
    ensures CanGo(st, t)
  {
    assert ThreadOk(st, t);
  }

  lemma DevOwnerGoes(st: State, t: nat)
    requires Inv(st) && t < |st.pcs| && DevHeld(st.pcs[t])
    ensures CanGo(st, t)
  {
    hide Inv, Next;
    NotWaitingGoes(st, t);
  }

  /** If the device lock is taken its owner can go; a thread waiting for it can go otherwise. */
  lemma DevResolves(st: State, t: nat) returns (u: nat)
    requires Inv(st) && Busy(st, t)
    requires var p := st.pcs[t]; p.WantDev? || p.OpenWant? || p.MuteWant?
    ensures CanGo(st, u)
  {
    if st.dev.Some? {
      u := st.dev.value;
      DevOwnerGoes(st, u);
    } else {
      u := t;
      assert ThreadOk(st, t);
    }
  }

  lemma LockResolves(st: State, t: nat) returns (u: nat)
    requires Inv(st) && t < |st.pcs| && LockHeld(st.pcs[t]).Some?
    ensures CanGo(st, u)
  {
    hide Inv, Next;
    if st.pcs[t].WantDev? {
      u := DevResolves(st, t);
    } else {
      NotWaitingGoes(st, t);
      u := t;
    }
  }

  lemma WaiterResolves(st: State, t: nat) returns (u: nat)
    requires Inv(st) && Busy(st, t) && st.pcs[t].WantLock?
    ensures CanGo(st, u)
  {
    assert ThreadOk(st, t);
    var s := st.pcs[t].s;
    assert StreamOk(st, s);
    if st.streams[s].lock.Some? {
      u := LockResolves(st, st.streams[s].lock.value);
    } else {
      u := t;
    }
  }

  lemma PreResolves(st: State, t: nat) returns (u: nat)
    requires Inv(st) && Busy(st, t) && st.pcs[t].WantPre?
    ensures CanGo(st, u)
  {
    assert ThreadOk(st, t);
    var s := st.pcs[t].s;
    assert StreamOk(st, s);
    if st.streams[s].pre.Some? {
      var v := st.streams[s].pre.value;
      if st.pcs[v].WantLock? {
        u := WaiterResolves(st, v);
      } else {
        u := LockResolves(st, v);
      }
    } else {
      u := t;
    }
  }

  lemma Resolves(st: State, t: nat) returns (u: nat)
    requires Inv(st) && Busy(st, t)
    ensures CanGo(st, u)
  {
    hide Inv, Next;
    var p := st.pcs[t];
    if p.WantPre? {
      u := PreResolves(st, t);
    } else if p.WantLock? {
      u := WaiterResolves(st, t);
    } else if p.WantDev? || p.OpenWant? || p.MuteWant? {
      u := DevResolves(st, t);
    } else {
      NotWaitingGoes(st, t);
      u := t;
    }
  }

  /** No reachable state is deadlocked: while some call is in progress, some thread can step. */
  lemma NoDeadlock(run: seq<State>, i: nat, t: nat) returns (u: nat)
    requires IsRun(run) && Initial(run[0]) && i < |run| && Busy(run[i], t)
    ensures CanGo(run[i], u)
  {
    hide Inv, Next;
    RunInv(run, i);
    u := Resolves(run[i], t);
  }

  // ----------------------------------------------------- every call finishes

  /** An upper bound on the steps a call still has to make. */
  function Rank(pc: PC): nat {
    match pc
    case Idle => 0
    case WantPre(_, _) => 10
    case WantLock(_, _) => 9
    case DropPre(_, _) => 8
    case Body(_, _) => 7
    case WantDev(_, _) => 6
    case InDev(_, _) => 5
    case DropDev(_, _, _) => 4
    case SetFlag(_, _) => 3
    case Pump(_) => 2
    case Unlock(_) => 1
    case DropLockEarly(_) => 2
    case DropDevLate => 1
    case OpenWant(_) => 4
    case OpenDev(_) => 3
    case OpenDrop(_) => 2
    case Publish(_) => 1
    case MuteWant(_) => 3
    case MuteDev(_) => 2
    case MuteDrop => 1
  }

  function TotalRank(pcs: seq<PC>): nat {
    if pcs == [] then 0 else TotalRank(pcs[..|pcs| - 1]) + Rank(pcs[|pcs| - 1])
  }

  lemma {:induction false} TotalRankUpdate(pcs: seq<PC>, t: nat, pc: PC)
    requires t < |pcs|
    ensures TotalRank(pcs[t := pc]) == TotalRank(pcs) - Rank(pcs[t]) + Rank(pc)
  {
    hide Rank;
    var n := |pcs| - 1;
    if t == n {
      assert pcs[t := pc][..n] == pcs[..n];
    } else {
      TotalRankUpdate(pcs[..n], t, pc);
      assert pcs[t := pc][..n] == pcs[..n][t := pc];
    }
  }

  /** Every step of a call in progress, failed opens included, uses up rank. */
  lemma StepRanks(st: State, t: nat, c: Choice)
    requires Busy(st, t) && Next(st, t, c).Some?
    ensures TotalRank(Next(st, t, c).value.pcs) < TotalRank(st.pcs)
  {
    RankFalls(st, t, c);
    hide Next, Rank;
    StepKeepsThreads(st, t, c);
    TotalRankUpdate(st.pcs, t, Next(st, t, c).value.pcs[t]);
  }

  lemma RankFalls(st: State, t: nat, c: Choice)
    requires Busy(st, t) && Next(st, t, c).Some?
    ensures t < |Next(st, t, c).value.pcs| && Rank(Next(st, t, c).value.pcs[t]) < Rank(st.pcs[t])
  {
  }

  /** A step of a call in progress, as opposed to a new call. */
  ghost predicate Progresses(a: State, b: State) {
    exists t, c :: Busy(a, t) && Next(a, t, c) == Some(b)
  }

  /** Without new calls a run is no longer than the calls in progress allow. */
  lemma {:induction false} CallsFinish(run: seq<State>)
    requires run != [] && forall i :: 0 <= i < |run| - 1 ==> Progresses(run[i], run[i + 1])
    ensures |run| - 1 <= TotalRank(run[0].pcs)
  {
    hide Next, Rank, TotalRank;
    if |run| > 1 {
      assert Progresses(run[0], run[1]);
      var t, c :| Busy(run[0], t) && Next(run[0], t, c) == Some(run[1]);
      StepRanks(run[0], t, c);
      forall i | 0 <= i < |run[1..]| - 1 ensures Progresses(run[1..][i], run[1..][i + 1]) {
        assert Progresses(run[i + 1], run[i + 2]);
      }
      CallsFinish(run[1..]);
    }
  }

  ghost predicate Quiet(st: State) {
    && (forall t :: 0 <= t < |st.pcs| ==> st.pcs[t] == Idle)
    && st.dev == None
    && (forall s :: 0 <= s < |st.streams| ==>
          var x := st.streams[s]; x.pre == None && x.lock == None && (x.published ==> x.standby == !x.pcmOpen))
  }

  lemma IdleIsQuiet(st: State)
    requires Inv(st) && forall t :: 0 <= t < |st.pcs| ==> st.pcs[t] == Idle
    ensures Quiet(st)
  {
    forall s | 0 <= s < |st.streams|
      ensures var x := st.streams[s]; x.pre == None && x.lock == None && (x.published ==> x.standby == !x.pcmOpen)
    {
      assert StreamOk(st, s);
    }
  }

  /**
   From every reachable state the calls in progress can run to completion, and a run of theirs
   that cannot be continued has released every mutex and left `standby` and PCM in agreement.
   */
  lemma Completes(st: State) returns (run: seq<State>)
    requires Inv(st)
    ensures run != [] && run[0] == st && Quiet(run[|run| - 1])
    ensures forall i :: 0 <= i < |run| - 1 ==> Progresses(run[i], run[i + 1])
    decreases TotalRank(st.pcs)
  {
    hide Inv, Next, Rank, TotalRank;
    if t :| 0 <= t < |st.pcs| && st.pcs[t] != Idle {
      var u := Resolves(st, t);
      var next := Next(st, u, Go).value;
      NextKeepsInv(st, u, Go);
      StepRanks(st, u, Go);
      var rest := Completes(next);
      run := [st] + rest;
      assert Progresses(st, next);
      forall i | 0 <= i < |run| - 1 ensures Progresses(run[i], run[i + 1]) {
        if i > 0 {
          assert Progresses(rest[i - 1], rest[i]);
        }
      }
    } else {
      IdleIsQuiet(st);
      run := [st];
    }
  }

  /** A state no call in progress can leave is quiet. */
  lemma StuckIsQuiet(run: seq<State>, i: nat)
    requires IsRun(run) && Initial(run[0]) && i < |run|
    requires forall t :: 0 <= t < |run[i].pcs| ==> !CanGo(run[i], t)
    ensures Quiet(run[i])
  {
    hide Inv, Next;
    RunInv(run, i);
    forall t | 0 <= t < |run[i].pcs| ensures run[i].pcs[t] == Idle {
      if Busy(run[i], t) {
        var u := Resolves(run[i], t);
      }
    }
    IdleIsQuiet(run[i]);
  }
}
