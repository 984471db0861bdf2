/** Does stopping the pool ever finish? `mg_stop` sets `stop_flag`, and the master broadcasts,
    without the mutex, and the master does not look at the flag while it waits for room in the
    queue. This module says from which states shutdown can hang, and that it completes from all
    others. A hang is a state in which no thread has a step of its own, wakeups for no reason left
    aside. Step counts leave out the busy wait of `mg_stop`. */
module WorkerPoolShutdown {
  import opened SocketQueue
  import opened Wrappers
  import opened WorkerPool
  import opened WorkerPoolSafety
  import opened WorkerPoolTheorems

  // ---------- Stuck states ----------

  ghost predicate NobodyRuns(s: State) {
    s.mutex == Free && forall i :: 0 <= i < |s.workers| ==> Gone(s.workers[i]) || Asleep(s.workers[i])
  }

  /** One worker slipped into its wait after the broadcast, and all the others are gone. */
  ghost predicate Stranded(s: State) {
    && s.master == MSleepJoin && s.mutex == Free
    && s.lateSleeper.Some? && s.lateSleeper.value < |s.workers|
    && Asleep(s.workers[s.lateSleeper.value])
    && forall i :: 0 <= i < |s.workers| && i != s.lateSleeper.value ==> Gone(s.workers[i])
  }

  ghost predicate Stuck(s: State) {
    s.stop == 1 && !SomeThreadMoves(s)
  }

  lemma StuckMeansNobodyRuns(s: State)
    requires Inv(s) && Stuck(s)
    ensures NobodyRuns(s) && (s.master == Unborn || s.master.MSleepEmpty? || s.master == MSleepJoin)
  {
    if s.mutex != Free {
      HolderMoves(s);
    }
    assert !MasterEnabled(s, 0);
    forall i | 0 <= i < |s.workers|
      ensures Gone(s.workers[i]) || Asleep(s.workers[i])
    {
      assert !WorkerEnabled(s, i);
    }
  }

  /** After the broadcast the pool is stuck exactly when the worker that stood between its test
      and its wait at that moment sleeps and every other worker has left. */
  lemma ShutdownHangsExactlyWhenStranded(s: State)
    requires Reachable(s) && s.stop == 1 && Stopping(s.master) && s.master != MBroadcast
    ensures !SomeThreadMoves(s) <==> Stranded(s)
  {
    InvReachable(s);
    if !SomeThreadMoves(s) {
      StuckMeansNobodyRuns(s);
      JoinWaitsForSomebody(s);
    }
  }

  /** Without such a worker at the broadcast, shutdown always has a next step. */
  lemma NoStragglerNoHang(s: State)
    requires Reachable(s) && s.stop == 1 && Stopping(s.master) && s.master != MBroadcast
    requires s.lateSleeper == None
    ensures SomeThreadMoves(s)
  {
    ShutdownHangsExactlyWhenStranded(s);
  }

  /** Before the broadcast the pool is stuck exactly when no worker runs and the master waits for
      room in a full queue, or was never created. */
  lemma ShutdownHangsBeforeBroadcast(s: State)
    requires Reachable(s) && s.stop == 1 && (!Stopping(s.master) || s.master == MBroadcast)
    ensures !SomeThreadMoves(s) <==>
              NobodyRuns(s) && (s.master == Unborn || (s.master.MSleepEmpty? && s.ring.Size() == CAPACITY))
  {
    InvReachable(s);
    if !SomeThreadMoves(s) {
      StuckMeansNobodyRuns(s);
    }
  }

  // ---------- Schedules ----------

  ghost predicate CanReach(s: State, t: State) {
    exists run :: Leads(s, run, t)
  }

  ghost predicate CanHang(s: State) {
    exists t :: CanReach(s, t) && Stuck(t)
  }

  lemma {:induction false} LeadsJoin(s: State, run: seq<Action>, t: State, more: seq<Action>, u: State)
    requires Leads(s, run, t) && Leads(t, more, u)
    ensures Leads(s, run + more, u)
    decreases |run|
  {
    if run == [] {
      assert run + more == more;
    } else {
      LeadsJoin(Next(s, run[0]), run[1..], t, more, u);
      assert (run + more)[0] == run[0] && (run + more)[1..] == run[1..] + more;
    }
  }

  lemma Chain(s: State, t: State, u: State)
    requires CanReach(s, t) && CanReach(t, u)
    ensures CanReach(s, u)
  {
    var run :| Leads(s, run, t);
    var more :| Leads(t, more, u);
    LeadsJoin(s, run, t, more, u);
  }

  lemma Stay(s: State)
    ensures CanReach(s, s)
  {
    assert Leads(s, [], s);
  }

  /** One more step of a schedule. */
  lemma After(s: State, t: State, a: Action) returns (u: State)
    requires CanReach(s, t) && Enabled(t, a)
    ensures u == Next(t, a) && CanReach(s, u)
  {
    u := Next(t, a);
    assert Leads(u, [], u) && [a][1..] == [];
    assert Leads(t, [a], u);
    Chain(s, t, u);
  }

  lemma StillReachable(s: State, t: State)
    requires Reachable(s) && CanReach(s, t)
    ensures Reachable(t) && Inv(t)
  {
    var n: nat, run: seq<Action> :| Leads(Init(n), run, s);
    var more :| Leads(s, more, t);
    LeadsJoin(Init(n), run, s, more, t);
    InvReachable(t);
  }

  // ---------- What makes a hang possible ----------

  /** The master has, or may still accept, a socket that it has not put into the queue. */
  predicate Offering(m: Master) {
    m.MAccept? || m.MLock? || m.MQueueTest? || m.MEnterWait? || m.MSleepEmpty? || m.MWokenEmpty?
  }

  /** The queue is full, and nobody who takes a socket from it is past the test of the flag. */
  ghost predicate QueueBlocks(s: State) {
    && Offering(s.master) && s.ring.Size() == CAPACITY
    && forall i :: 0 <= i < |s.workers| ==> s.workers[i] != Grab
  }

  ghost predicate MayBroadcast(m: Master) {
    m.MLoopTest? || m.MAccept? || m.MBroadcast?
  }

  /** Between its test and its wait, or in the wait. */
  predicate Dozing(w: Worker) { w.EnterWait? || w.SleepFull? }

  /** A worker has seen the flag clear, and the master can broadcast, or has broadcast, before that
      worker waits. */
  ghost predicate Straggles(s: State) {
    if Stopping(s.master) && s.master != MBroadcast
    then s.lateSleeper.Some? && s.lateSleeper.value < |s.workers| && Dozing(s.workers[s.lateSleeper.value])
    else MayBroadcast(s.master) && AboutToSleep(s).Some?
  }

  ghost predicate HangAhead(s: State) {
    s.master == Unborn || QueueBlocks(s) || Straggles(s)
  }

  /** What the flag is about to be, once set, until shutdown is complete. */
  ghost predicate NoHangAhead(s: State) {
    s.stop == 2 || (s.stop == 1 && !HangAhead(s))
  }

  lemma WorkerKeepsUnblocked(s: State, i: nat)
    requires Inv(s) && s.stop == 1 && !QueueBlocks(s) && WorkerEnabled(s, i)
    ensures !QueueBlocks(WorkerNext(s, i))
  {
    if s.workers[i] == Grab {
      TakeRemovesOldest(s.ring);
    } else {
      var t := WorkerNext(s, i);
      assert Offering(t.master) <==> Offering(s.master);
      assert t.ring == s.ring;
      assert forall j :: 0 <= j < |s.workers| && s.workers[j] == Grab ==> t.workers[j] == Grab;
    }
  }

  lemma MasterKeepsUnblocked(s: State, accepted: Option<Socket>, target: nat)
    requires PhaseInv(s) && s.stop == 1 && !QueueBlocks(s) && MasterEnabled(s, target)
    ensures !QueueBlocks(MasterNext(s, accepted, target))
  {
    var t := MasterNext(s, accepted, target);
    assert Offering(t.master) ==> Offering(s.master) && t.ring == s.ring && t.workers == s.workers;
  }

  lemma WorkerKeepsNoStraggler(s: State, i: nat)
    requires MutexInv(s) && PhaseInv(s) && s.stop == 1 && !Straggles(s) && WorkerEnabled(s, i)
    ensures !Straggles(WorkerNext(s, i))
  {
    var t := WorkerNext(s, i);
    assert forall j :: 0 <= j < |s.workers| && Dozing(t.workers[j]) ==> Dozing(s.workers[j]);
  }

  lemma MasterKeepsNoStraggler(s: State, accepted: Option<Socket>, target: nat)
    requires MutexInv(s) && PhaseInv(s) && s.stop == 1 && !Straggles(s) && MasterEnabled(s, target)
    ensures !Straggles(MasterNext(s, accepted, target))
  {
  }

  lemma SpuriousKeepsHangAhead(s: State, i: nat)
    requires MutexInv(s) && i < |s.workers| && Asleep(s.workers[i])
    ensures HangAhead(Goto(s, i, WokenFull)) ==> HangAhead(s)
  {
    var t := Goto(s, i, WokenFull);
    assert forall j :: 0 <= j < |s.workers| && s.workers[j] == Grab ==> t.workers[j] == Grab;
  }

  lemma StepKeepsNoHangAhead(s: State, a: Action)
    requires Inv(s) && NoHangAhead(s) && Enabled(s, a)
    ensures NoHangAhead(Next(s, a))
  {
    InvKept(s, a);
    if s.stop == 1 {
      match a
      case WorkerStep(i) =>
        WorkerKeepsUnblocked(s, i);
        WorkerKeepsNoStraggler(s, i);
      case MasterStep(accepted, target) =>
        MasterKeepsUnblocked(s, accepted, target);
        MasterKeepsNoStraggler(s, accepted, target);
      case OwnerStep(created) =>
        assert Next(s, a) == s;
      case SpuriousWorker(i) =>
        SpuriousKeepsHangAhead(s, i);
      case SpuriousMaster =>
        assert QueueBlocks(Next(s, a)) ==> QueueBlocks(s);
    }
  }

  lemma {:induction false} NoHangAheadAlongRun(s: State, run: seq<Action>, t: State)
    requires Inv(s) && NoHangAhead(s) && Leads(s, run, t)
    ensures NoHangAhead(t)
    decreases |run|
  {
    if run != [] {
      InvKept(s, run[0]);
      StepKeepsNoHangAhead(s, run[0]);
      NoHangAheadAlongRun(Next(s, run[0]), run[1..], t);
    }
  }

  lemma StuckIsHangAhead(s: State)
    requires Reachable(s) && Stuck(s)
    ensures HangAhead(s)
  {
    if Stopping(s.master) && s.master != MBroadcast {
      ShutdownHangsExactlyWhenStranded(s);
    } else {
      ShutdownHangsBeforeBroadcast(s);
    }
  }

  lemma HangNeedsHangAhead(s: State)
    requires Reachable(s) && s.stop == 1 && CanHang(s)
    ensures HangAhead(s)
  {
    var t :| CanReach(s, t) && Stuck(t);
    InvReachable(s);
    StillReachable(s, t);
    StuckIsHangAhead(t);
    if !HangAhead(s) {
      var run :| Leads(s, run, t);
      NoHangAheadAlongRun(s, run, t);
    }
  }

  // ---------- Letting the workers leave ----------

  /** How many steps a worker has left once the flag is set, waking up from its wait included. */
  function StepsLeft(w: Worker): nat {
    match w
    case NotStarted | Finished => 0
    case UnlockExit => 1
    case SignalCond => 2
    case DecStore(_) => 3
    case DecLoad => 4
    case LockExit => 5
    case LoopTest | UnlockStop => 6
    case StopTest | Busy => 7
    case QueueTest | UnlockGot => 8
    case LockQueue | WokenFull | SignalEmpty => 9
    case Grab | SleepFull => 10
    case EnterWait => 11
  }

  ghost function AllStepsLeft(ws: seq<Worker>): nat {
    if ws == [] then 0 else StepsLeft(ws[0]) + AllStepsLeft(ws[1..])
  }

  lemma {:induction false} StepsLeftUpdate(ws: seq<Worker>, i: nat, pc: Worker)
    requires i < |ws|
    ensures AllStepsLeft(ws[i := pc]) == AllStepsLeft(ws) - StepsLeft(ws[i]) + StepsLeft(pc)
  {
    if i == 0 {
      assert ws[i := pc][1..] == ws[1..];
    } else {
      assert ws[i := pc][1..] == ws[1..][i - 1 := pc];
      StepsLeftUpdate(ws[1..], i - 1, pc);
    }
  }

  lemma {:induction false} StepsLeftBound(ws: seq<Worker>)
    ensures AllStepsLeft(ws) <= 11 * |ws|
  {
    if ws != [] {
      StepsLeftBound(ws[1..]);
    }
  }

  lemma WorkerAdvances(s: State, i: nat)
    requires s.stop == 1 && WorkerEnabled(s, i)
    ensures AllStepsLeft(WorkerNext(s, i).workers) < AllStepsLeft(s.workers)
  {
    StepsLeftUpdate(s.workers, i, WorkerNext(s, i).workers[i]);
  }

  /** No worker step moves the master, and those that sleep stay asleep. */
  ghost predicate Undisturbed(s: State) {
    && s.stop == 1 && !MasterHolds(s.master) && s.master != MSleepJoin
    && (s.master.MSleepEmpty? ==>
          forall i :: 0 <= i < |s.workers| ==> s.workers[i] != Grab && s.workers[i] != SignalEmpty)
  }

  /** Only workers have moved, and none of those that were about to sleep came back. */
  ghost predicate OnlyWorkersMoved(s: State, t: State) {
    && t.master == s.master && t.stop == s.stop && t.owner == s.owner && t.lateSleeper == s.lateSleeper
    && |t.workers| == |s.workers|
    && (forall i :: 0 <= i < |s.workers| && Dozing(s.workers[i]) ==> Dozing(t.workers[i]))
    && ((forall i :: 0 <= i < |s.workers| ==> s.workers[i] != Grab) ==>
          t.ring == s.ring && forall i :: 0 <= i < |t.workers| ==> t.workers[i] != Grab)
  }

  lemma WorkerMoves(s: State, i: nat)
    requires Inv(s) && Undisturbed(s) && WorkerEnabled(s, i)
    ensures Undisturbed(WorkerNext(s, i)) && OnlyWorkersMoved(s, WorkerNext(s, i))
  {
  }

  lemma OnlyWorkersMovedTwice(s: State, t: State, u: State)
    requires OnlyWorkersMoved(s, t) && OnlyWorkersMoved(t, u)
    ensures OnlyWorkersMoved(s, u)
  {
  }

  lemma SomeWorkerMoves(s: State) returns (i: nat)
    requires Inv(s) && Undisturbed(s) && !NobodyRuns(s)
    ensures WorkerEnabled(s, i)
  {
    if s.mutex.HeldByWorker? {
      i := s.mutex.id;
    } else {
      i :| i < |s.workers| && !Gone(s.workers[i]) && !Asleep(s.workers[i]);
    }
  }

  /** Some schedule of the workers alone ends with each of them gone or asleep. */
  lemma {:induction false} WorkersLeave(s: State) returns (t: State)
    requires Inv(s) && Undisturbed(s)
    ensures CanReach(s, t) && Inv(t) && OnlyWorkersMoved(s, t) && NobodyRuns(t)
    decreases AllStepsLeft(s.workers)
  {
    Stay(s);
    if NobodyRuns(s) {
      t := s;
    } else {
      var i := SomeWorkerMoves(s);
      var next := After(s, s, WorkerStep(i));
      WorkerAdvances(s, i);
      WorkerMoves(s, i);
      WorkerKeepsInv(s, i);
      t := WorkersLeave(next);
      Chain(s, next, t);
      OnlyWorkersMovedTwice(s, next, t);
    }
  }

  // ---------- The three ways to hang ----------

  lemma HangsIn(s: State, t: State)
    requires CanReach(s, t) && t.stop == 1 && NobodyRuns(t)
    requires t.master == Unborn || t.master.MSleepEmpty? || t.master == MSleepJoin
    ensures CanHang(s)
  {
    assert Stuck(t);
  }

  /** One more step, the invariant kept. */
  lemma Move(s: State, t: State, a: Action) returns (u: State)
    requires CanReach(s, t) && Inv(t) && Enabled(t, a)
    ensures u == Next(t, a) && CanReach(s, u) && Inv(u)
  {
    InvKept(t, a);
    u := After(s, t, a);
  }

  /** A master that was never created: nobody will set the flag to 2. */
  lemma UnbornHangs(s: State)
    requires Inv(s) && s.stop == 1 && s.master == Unborn
    ensures CanHang(s)
  {
    var t := WorkersLeave(s);
    HangsIn(s, t);
  }

  /** A master that holds the mutex sees that the queue is full and sleeps. */
  lemma ReleaseFullQueue(s: State) returns (t: State)
    requires Inv(s) && s.stop == 1 && QueueBlocks(s)
    ensures CanReach(s, t) && Inv(t) && t.stop == 1 && QueueBlocks(t) && Undisturbed(t)
  {
    Stay(s);
    t := s;
    if t.master.MQueueTest? {
      t := Move(s, t, MasterStep(None, 0));
    }
    if t.master.MEnterWait? {
      t := Move(s, t, MasterStep(None, 0));
    }
  }

  /** With the mutex free, the master goes to sleep on the full queue. */
  lemma SleepOnFullQueue(s: State) returns (t: State)
    requires Inv(s) && s.stop == 1 && QueueBlocks(s) && NobodyRuns(s)
    ensures CanReach(s, t) && t.stop == 1 && NobodyRuns(t) && t.master.MSleepEmpty?
  {
    Stay(s);
    t := s;
    if t.master.MAccept? {
      t := After(s, t, MasterStep(Some(0), 0));
    }
    if t.master.MLock? || t.master.MWokenEmpty? {
      t := After(s, t, MasterStep(None, 0));
      t := After(s, t, MasterStep(None, 0));
      t := After(s, t, MasterStep(None, 0));
    }
  }

  lemma QueueBlocksHangs(s: State)
    requires Inv(s) && s.stop == 1 && QueueBlocks(s)
    ensures CanHang(s)
  {
    var t := ReleaseFullQueue(s);
    var u := WorkersLeave(t);
    var v := SleepOnFullQueue(u);
    Chain(t, u, v);
    Chain(s, t, v);
    HangsIn(s, v);
  }

  ghost predicate LateSleep(s: State) {
    && Stopping(s.master) && s.master != MBroadcast && s.stop == 1
    && s.lateSleeper.Some? && s.lateSleeper.value < |s.workers| && Dozing(s.workers[s.lateSleeper.value])
  }

  /** The straggler is still counted. */
  lemma StragglerIsCounted(s: State)
    requires Inv(s) && LateSleep(s)
    ensures s.numThreads > 0 && !Joined(s.master)
  {
    CountBounds(s.workers, Counted);
    assert Counted(s.workers[s.lateSleeper.value]);
  }

  lemma SleepForCount(s: State) returns (t: State)
    requires Inv(s) && LateSleep(s)
    ensures CanReach(s, t) && Inv(t) && LateSleep(t) && !MasterHolds(t.master)
  {
    Stay(s);
    t := s;
    StragglerIsCounted(s);
    if t.master.MJoinTest? {
      t := Move(s, t, MasterStep(None, 0));
    }
    if t.master.MEnterJoin? {
      t := Move(s, t, MasterStep(None, 0));
    }
  }

  /** A master that waits for the count wakes up for no reason. */
  lemma ReleaseJoin(s: State) returns (t: State)
    requires Inv(s) && LateSleep(s)
    ensures CanReach(s, t) && Inv(t) && LateSleep(t) && Undisturbed(t)
  {
    t := SleepForCount(s);
    if t.master.MSleepJoin? {
      t := Move(s, t, SpuriousMaster);
    }
  }

  lemma SleepInJoin(s: State) returns (t: State)
    requires Inv(s) && LateSleep(s) && NobodyRuns(s) && (s.master == MLockJoin || s.master == MWokenJoin)
    ensures CanReach(s, t) && t.stop == 1 && NobodyRuns(t) && t.master == MSleepJoin
  {
    Stay(s);
    StragglerIsCounted(s);
    t := After(s, s, MasterStep(None, 0));
    t := After(s, t, MasterStep(None, 0));
    t := After(s, t, MasterStep(None, 0));
  }

  lemma LeaveThenSleep(s: State) returns (t: State)
    requires Inv(s) && LateSleep(s) && Undisturbed(s)
    ensures CanReach(s, t) && t.stop == 1 && NobodyRuns(t) && t.master == MSleepJoin
  {
    var u := WorkersLeave(s);
    StragglerIsCounted(u);
    t := SleepInJoin(u);
    Chain(s, u, t);
  }

  lemma LateSleepHangs(s: State)
    requires Inv(s) && LateSleep(s)
    ensures CanHang(s)
  {
    var t := ReleaseJoin(s);
    var v := LeaveThenSleep(t);
    Chain(s, t, v);
    HangsIn(s, v);
  }

  lemma ComeToBroadcast(s: State) returns (t: State)
    requires Inv(s) && s.stop == 1 && MayBroadcast(s.master) && AboutToSleep(s).Some?
    ensures CanReach(s, t) && Inv(t) && t.stop == 1 && t.master == MBroadcast && AboutToSleep(t).Some?
  {
    Stay(s);
    t := s;
    if t.master.MAccept? {
      t := Move(s, t, MasterStep(None, 0));
    }
    if t.master.MLoopTest? {
      t := Move(s, t, MasterStep(None, 0));
    }
  }

  /** The master broadcasts while the worker stands between its test and its wait. */
  lemma BroadcastTooEarly(s: State) returns (t: State)
    requires Inv(s) && s.stop == 1 && MayBroadcast(s.master) && AboutToSleep(s).Some?
    ensures CanReach(s, t) && Inv(t) && LateSleep(t)
  {
    t := ComeToBroadcast(s);
    t := Move(s, t, MasterStep(None, 0));
  }

  lemma StragglerHangs(s: State)
    requires Inv(s) && s.stop == 1 && Straggles(s)
    ensures CanHang(s)
  {
    if LateSleep(s) {
      LateSleepHangs(s);
    } else {
      var t := BroadcastTooEarly(s);
      LateSleepHangs(t);
      var u :| CanReach(t, u) && Stuck(u);
      Chain(s, t, u);
    }
  }

  /** Once the flag is set, some schedule hangs if and only if the master was never created, or it
      has a socket left for a queue that is full and will not be drained, or a worker has passed
      its test and the broadcast can come before its wait. */
  lemma ShutdownCanHangExactly(s: State)
    requires Reachable(s) && s.stop == 1
    ensures CanHang(s) <==> s.master == Unborn || QueueBlocks(s) || Straggles(s)
  {
    InvReachable(s);
    if s.master == Unborn {
      UnbornHangs(s);
    } else if QueueBlocks(s) {
      QueueBlocksHangs(s);
    } else if Straggles(s) {
      StragglerHangs(s);
    }
    if CanHang(s) {
      HangNeedsHangAhead(s);
    }
  }

  /** At the broadcast itself the worker between its test and its wait decides. */
  lemma BroadcastCanHangExactly(s: State)
    requires Reachable(s) && s.master == MBroadcast
    ensures CanHang(s) <==> AboutToSleep(s).Some?
  {
    InvReachable(s);
    ShutdownCanHangExactly(s);
  }

  // ---------- Hangs that no schedule avoids ----------

  /** There is no master, or it holds a socket for a queue that stays full. */
  ghost predicate Doomed(s: State) {
    s.stop == 1 && (s.master == Unborn || (QueueBlocks(s) && s.master != MAccept))
  }

  lemma WorkerKeepsDoomed(s: State, i: nat)
    requires Inv(s) && Doomed(s) && WorkerEnabled(s, i)
    ensures Doomed(WorkerNext(s, i))
  {
  }

  lemma StepKeepsDoomed(s: State, a: Action)
    requires Inv(s) && Doomed(s) && Enabled(s, a)
    ensures Doomed(Next(s, a))
  {
    if a.WorkerStep? {
      WorkerKeepsDoomed(s, a.id);
    }
  }

  lemma {:induction false} DoomedAlongRun(s: State, run: seq<Action>, t: State)
    requires Inv(s) && Doomed(s) && Leads(s, run, t)
    ensures Doomed(t)
    decreases |run|
  {
    if run != [] {
      InvKept(s, run[0]);
      StepKeepsDoomed(s, run[0]);
      DoomedAlongRun(Next(s, run[0]), run[1..], t);
    }
  }

  /** Then shutdown never completes, whatever the schedule. */
  lemma DoomedNeverStops(s: State, t: State)
    requires Reachable(s) && Doomed(s) && CanReach(s, t)
    ensures t.stop == 1 && (t.master == Unborn || (Offering(t.master) && t.ring.Size() == CAPACITY))
  {
    InvReachable(s);
    var run :| Leads(s, run, t);
    DoomedAlongRun(s, run, t);
  }

  // ---------- Shutdown completes ----------

  /** How many steps the master has left once the flag is set, one waiting loop included. */
  function MasterStepsLeft(m: Master): nat {
    match m
    case Unborn | MFinished => 0
    case MSetStop => 1
    case MDestroy => 2
    case MUnlockJoin => 3
    case MSleepJoin => 4
    case MEnterJoin => 5
    case MJoinTest => 6
    case MLockJoin | MWokenJoin => 7
    case MBroadcast => 8
    case MLoopTest => 9
    case MUnlock => 10
    case MSignalFull => 11
    case MPut(_) => 12
    case MSleepEmpty(_) => 13
    case MEnterWait(_) => 14
    case MQueueTest(_) => 15
    case MLock(_) | MWokenEmpty(_) => 16
    case MAccept => 17
  }

  /** A worker step may wake the master, which costs it up to three more steps. */
  ghost function WorkLeft(s: State): nat {
    4 * AllStepsLeft(s.workers) + MasterStepsLeft(s.master)
  }

  lemma {:induction false} WakingAdvances(ws: seq<Worker>)
    ensures AllStepsLeft(WakeAll(ws)) <= AllStepsLeft(ws)
  {
    if ws != [] {
      WakingAdvances(ws[1..]);
      assert WakeAll(ws)[1..] == WakeAll(ws[1..]);
    }
  }

  lemma MasterAdvances(s: State, accepted: Option<Socket>, target: nat)
    requires s.stop == 1 && MasterEnabled(s, target)
    ensures WorkLeft(MasterNext(s, accepted, target)) < WorkLeft(s)
  {
    if s.master == MBroadcast {
      WakingAdvances(s.workers);
    } else if s.master.MSignalFull? && target < |s.workers| {
      StepsLeftUpdate(s.workers, target, WokenFull);
    }
  }

  function Cost(a: Action): int {
    match a
    case WorkerStep(_) => 1
    case MasterStep(_, _) => 1
    case SpuriousMaster => -3
    case _ => 0
  }

  lemma StepAdvances(s: State, a: Action)
    requires PhaseInv(s) && s.stop == 1 && Enabled(s, a)
    ensures WorkLeft(Next(s, a)) + Cost(a) <= WorkLeft(s)
  {
    match a
    case WorkerStep(i) => WorkerAdvances(s, i);
    case MasterStep(accepted, target) => MasterAdvances(s, accepted, target);
    case SpuriousWorker(i) => StepsLeftUpdate(s.workers, i, WokenFull);
    case _ =>
  }

  /** The steps of workers and master in a run, and the wakeups of the master for no reason. */
  ghost function Effort(run: seq<Action>): nat {
    if run == [] then 0 else (if run[0].WorkerStep? || run[0].MasterStep? then 1 else 0) + Effort(run[1..])
  }

  ghost function FalseAlarms(run: seq<Action>): nat {
    if run == [] then 0 else (if run[0].SpuriousMaster? then 1 else 0) + FalseAlarms(run[1..])
  }

  lemma {:induction false} CompleteStays(s: State, run: seq<Action>, t: State)
    requires Inv(s) && s.stop == 2 && Leads(s, run, t)
    ensures t.stop == 2
    decreases |run|
  {
    if run != [] {
      InvKept(s, run[0]);
      CompleteStays(Next(s, run[0]), run[1..], t);
    }
  }

  lemma {:induction false} EffortIsBounded(s: State, run: seq<Action>, t: State)
    requires Inv(s) && s.stop == 1 && Leads(s, run, t) && t.stop != 2
    ensures t.stop == 1 && WorkLeft(t) + Effort(run) <= WorkLeft(s) + 3 * FalseAlarms(run)
    decreases |run|
  {
    if run != [] {
      var next := Next(s, run[0]);
      InvKept(s, run[0]);
      StepAdvances(s, run[0]);
      if next.stop == 2 {
        CompleteStays(next, run[1..], t);
      } else {
        EffortIsBounded(next, run[1..], t);
      }
    }
  }

  /** Where no hang is ahead, shutdown completes: until it does, some thread can move, and after
      44 steps for each worker and 17 for the master, and 3 more for each false alarm, it has. */
  lemma ShutdownCompletes(s: State, run: seq<Action>, t: State)
    requires Reachable(s) && s.stop == 1 && Leads(s, run, t)
    ensures !HangAhead(s) && t.stop != 2 ==> SomeThreadMoves(t)
    ensures Effort(run) > 44 * |s.workers| + 17 + 3 * FalseAlarms(run) ==> t.stop == 2
  {
    InvReachable(s);
    if t.stop != 2 {
      EffortIsBounded(s, run, t);
      StepsLeftBound(s.workers);
      if !SomeThreadMoves(t) {
        assert CanReach(s, t) && Stuck(t);
        HangNeedsHangAhead(s);
      }
    }
  }

  // ---------- The hangs are real ----------

  lemma Continue(s: State, a: Action) returns (t: State)
    requires Reachable(s) && Enabled(s, a)
    ensures t == Next(s, a) && Reachable(t)
  {
    var n: nat, run: seq<Action> :| Leads(Init(n), run, s);
    Stay(s);
    t := After(s, s, a);
    var more :| Leads(s, more, t);
    LeadsJoin(Init(n), run, s, more, t);
  }

  lemma Started(n: nat) returns (s: State)
    ensures s == Init(n) && Reachable(s)
  {
    s := Init(n);
    assert Leads(s, [], s);
  }

  lemma OneWorkerCreated() returns (s: State)
    ensures Reachable(s) && s.stop == 0 && s.owner == IncLoad(0) && s.master == MLoopTest
    ensures s.workers == [LoopTest] && s.mutex == Free && s.numThreads == 0 && s.ring == EmptyRing
  {
    s := Started(1);
    s := Continue(s, OwnerStep(true));
    s := Continue(s, OwnerStep(true));
  }

  /** `mg_start` returns with one worker running. */
  lemma OneWorkerStarted() returns (s: State)
    ensures Reachable(s) && s.stop == 0 && s.owner == Serving && s.master == MLoopTest
    ensures s.workers == [LoopTest] && s.mutex == Free && s.numThreads == 1 && s.ring == EmptyRing
  {
    s := OneWorkerCreated();
    s := Continue(s, OwnerStep(true));
    s := Continue(s, OwnerStep(true));
    s := Continue(s, OwnerStep(true));
  }

  /** That worker finds the queue empty and the flag clear, and then `mg_stop` sets the flag. */
  lemma StragglerIsReal() returns (s: State)
    ensures Reachable(s) && s.stop == 1 && Straggles(s) && CanHang(s)
  {
    s := OneWorkerStarted();
    s := Continue(s, WorkerStep(0));
    s := Continue(s, WorkerStep(0));
    s := Continue(s, WorkerStep(0));
    s := Continue(s, OwnerStep(true));
    ShutdownCanHangExactly(s);
  }

  ghost predicate SlowWorker(s: State, size: int) {
    && Reachable(s) && s.stop == 0 && s.owner == Serving && s.master == MLoopTest && s.mutex == Free
    && s.workers == [LoopTest] && s.ring.Size() == size
  }

  lemma Accepts(s: State, x: Socket) returns (t: State)
    requires SlowWorker(s, s.ring.Size()) && s.ring.Size() < CAPACITY
    ensures Reachable(t) && t == s.(master := MPut(x), mutex := HeldByMaster)
  {
    t := Continue(s, MasterStep(None, 0));
    t := Continue(t, MasterStep(Some(x), 0));
    t := Continue(t, MasterStep(None, 0));
    t := Continue(t, MasterStep(None, 0));
  }

  /** One more connection arrives while the worker is busy elsewhere. */
  lemma Arrives(s: State, x: Socket) returns (t: State)
    requires SlowWorker(s, s.ring.Size()) && s.ring.Size() < CAPACITY
    ensures SlowWorker(t, s.ring.Size() + 1)
  {
    t := Accepts(s, x);
    t := Continue(t, MasterStep(None, 0));
    t := Continue(t, MasterStep(None, 0));
    t := Continue(t, MasterStep(None, 0));
  }

  lemma {:induction false} QueueFills(size: nat) returns (s: State)
    requires size <= CAPACITY
    ensures SlowWorker(s, size)
  {
    if size == 0 {
      s := OneWorkerStarted();
    } else {
      s := QueueFills(size - 1);
      s := Arrives(s, size);
    }
  }

  /** Twenty connections queue up behind a slow worker, the master accepts one more, and `mg_stop`
      sets the flag: this shutdown can never complete. */
  lemma FullQueueIsReal() returns (s: State)
    ensures Reachable(s) && s.stop == 1 && QueueBlocks(s) && Doomed(s) && CanHang(s)
  {
    s := QueueFills(CAPACITY);
    s := Continue(s, MasterStep(None, 0));
    s := Continue(s, MasterStep(Some(21), 0));
    s := Continue(s, OwnerStep(true));
    ShutdownCanHangExactly(s);
  }

  /** The creation of the master fails, which `mg_start` does not notice. */
  lemma MissingMasterIsReal() returns (s: State)
    ensures Reachable(s) && s.stop == 1 && s.master == Unborn && Doomed(s) && CanHang(s)
  {
    s := Started(0);
    s := Continue(s, OwnerStep(false));
    s := Continue(s, OwnerStep(true));
    s := Continue(s, OwnerStep(true));
    ShutdownCanHangExactly(s);
  }
}
