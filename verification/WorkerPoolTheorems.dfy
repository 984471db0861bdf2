/** What the pool guarantees in every reachable state, whatever the schedule, the number of
    workers, the failed thread creations and the spurious wakeups. */
module WorkerPoolTheorems {
  import opened SocketQueue
  import opened Wrappers
  import opened WorkerPool
  import opened WorkerPoolSafety

  // ---------- The queue ----------

  lemma MutualExclusion(s: State, i: nat, j: nat)
    requires Reachable(s) && i < |s.workers| && j < |s.workers|
    ensures Holds(s.workers[i]) && Holds(s.workers[j]) ==> i == j
    ensures !(Holds(s.workers[i]) && MasterHolds(s.master))
  {
    InvReachable(s);
  }

  /** Sockets are handed to workers exactly once, in the order in which they were queued,
      and the counters stay small although they are never reset. */
  lemma FirstInFirstOut(s: State)
    requires Reachable(s)
    ensures 0 <= s.ring.tail <= CAPACITY && 0 <= s.ring.head - s.ring.tail <= CAPACITY
    ensures s.produced == s.consumed + s.ring.Contents()
  {
    InvReachable(s);
  }

  /** The socket that the `accept` of this step returned, if it is one and did. */
  function AcceptedBy(s: State, a: Action): seq<Socket> {
    if a.MasterStep? && s.master == MAccept && a.accepted.Some? then [a.accepted.value] else []
  }

  /** All sockets that were accepted in a run, in order. */
  ghost function Accepted(s: State, run: seq<Action>): seq<Socket>
    decreases |run|
  {
    if run == [] || !Enabled(s, run[0]) then []
    else AcceptedBy(s, run[0]) + Accepted(Next(s, run[0]), run[1..])
  }

  /** The socket that the master has accepted and not queued yet. */
  function InHand(m: Master): seq<Socket> {
    match m
    case MLock(x) => [x]
    case MQueueTest(x) => [x]
    case MEnterWait(x) => [x]
    case MSleepEmpty(x) => [x]
    case MWokenEmpty(x) => [x]
    case MPut(x) => [x]
    case _ => []
  }

  /** What was queued, then what the master holds. */
  ghost function Taken(s: State): seq<Socket> {
    s.produced + InHand(s.master)
  }

  lemma MasterKeepsAccepted(s: State, accepted: Option<Socket>, target: nat)
    requires MasterEnabled(s, target)
    ensures Taken(MasterNext(s, accepted, target)) == Taken(s) + AcceptedBy(s, MasterStep(accepted, target))
  {
  }

  lemma OthersKeepAccepted(s: State, a: Action)
    requires Enabled(s, a) && !a.MasterStep? && PhaseInv(s)
    ensures Taken(Next(s, a)) == Taken(s)
  {
  }

  lemma StepKeepsAccepted(s: State, a: Action)
    requires Enabled(s, a) && PhaseInv(s)
    ensures Taken(Next(s, a)) == Taken(s) + AcceptedBy(s, a)
  {
    if a.MasterStep? {
      MasterKeepsAccepted(s, a.accepted, a.target);
    } else {
      OthersKeepAccepted(s, a);
    }
  }

  lemma Joins(a: seq<Socket>, b: seq<Socket>, c: seq<Socket>)
    ensures a + b + c == a + (b + c)
    ensures a + [] == a
  {
  }

  lemma {:induction false} RunKeepsAccepted(s: State, run: seq<Action>, t: State)
    requires Inv(s) && Leads(s, run, t)
    ensures Taken(t) == Taken(s) + Accepted(s, run)
    decreases |run|
  {
    if run == [] {
      Joins(Taken(s), [], []);
    } else {
      var next := Next(s, run[0]);
      InvKept(s, run[0]);
      StepKeepsAccepted(s, run[0]);
      RunKeepsAccepted(next, run[1..], t);
      Joins(Taken(s), AcceptedBy(s, run[0]), Accepted(next, run[1..]));
    }
  }

  /** Every accepted socket is handed to a worker, once and in order: after every run, the sockets that
      `accept` returned are those that workers took, then those in the queue, then the one that the
      master holds, waiting for the mutex or for room. */
  lemma AcceptedInOrder(n: nat, run: seq<Action>, s: State)
    requires Leads(Init(n), run, s)
    ensures 0 <= s.ring.tail <= 20 && 0 <= s.ring.head - s.ring.tail <= 20
    ensures Accepted(Init(n), run) == s.consumed + s.ring.Contents() + InHand(s.master)
  {
    assert Reachable(s);
    FirstInFirstOut(s);
    InitInv(n);
    RunKeepsAccepted(Init(n), run, s);
    assert Taken(Init(n)) == [] && [] + Accepted(Init(n), run) == Accepted(Init(n), run);
  }

  /** The three assertions of the source never fail. */
  lemma AssertionsHold(s: State, i: nat)
    requires Reachable(s) && i < |s.workers|
    ensures s.workers[i] == Grab ==> s.ring.head > s.ring.tail
    ensures s.master.MPut? ==> s.ring.head - s.ring.tail < CAPACITY
    ensures s.workers[i] == UnlockExit ==> s.numThreads >= 0
  {
    InvReachable(s);
  }

  // ---------- No lost wakeups ----------

  /** As long as anybody sleeps, every queued socket has a wakeup of its own: a signalled worker
      that has still to look at the queue, or the signal that the master is about to send. Between
      critical sections all of these workers have still to take the mutex. */
  lemma NoLostWakeup(s: State)
    requires Reachable(s) && s.stop == 0 && SomeoneAsleep(s)
    ensures Count(s.workers, Alert) + SignalDue(s.master) >= s.ring.Size()
    ensures s.mutex == Free ==> Count(s.workers, (w: Worker) => w.WokenFull?) >= s.ring.Size()
  {
    InvReachable(s);
    if s.mutex == Free {
      CountPointwise(s.workers, Alert, s.workers, (w: Worker) => w.WokenFull?);
    }
  }

  lemma QueuedSocketHasAnAwakeWorker(s: State, i: nat)
    requires Reachable(s) && s.stop == 0 && s.mutex == Free && s.ring.Size() > 0
    requires i < |s.workers| && s.workers[i] != NotStarted
    ensures exists j :: WorkerEnabled(s, j)
  {
    InvReachable(s);
    if Asleep(s.workers[i]) {
      NoLostWakeup(s);
      CountBounds(s.workers, (w: Worker) => w.WokenFull?);
      var j :| 0 <= j < |s.workers| && s.workers[j].WokenFull?;
      assert WorkerEnabled(s, j);
    } else {
      assert WorkerEnabled(s, i);
    }
  }

  lemma TwoAreNotCounted(ws: seq<Worker>, p: Worker -> bool, i: nat, j: nat, pc: Worker)
    requires i < |ws| && j < |ws| && i != j && !p(ws[i]) && !p(ws[j]) && p(pc)
    ensures Count(ws, p) <= |ws| - 2
  {
    CountUpdate(ws, i, pc, p);
    CountBounds(ws[i := pc], p);
    assert !p(ws[i := pc][j]);
  }

  /** The master sleeps unsignalled on a full queue only, or while the worker that made room is
      about to signal it. With at most 20 workers (the server runs 4) nobody sleeps on the other
      side then. */
  lemma BlockedProducer(s: State)
    requires Reachable(s) && s.master.MSleepEmpty?
    ensures s.ring.Size() == 20 || (HolderAt(s, SignalEmpty) && s.ring.Size() == 19)
    ensures s.stop == 0 && |s.workers| <= 20 ==> !SomeoneAsleep(s)
  {
    InvReachable(s);
    if s.stop == 0 && SomeoneAsleep(s) {
      var i :| 0 <= i < |s.workers| && Asleep(s.workers[i]);
      NoLostWakeup(s);
      CountBounds(s.workers, Alert);
      if HolderAt(s, SignalEmpty) {
        TwoAreNotCounted(s.workers, Alert, i, s.mutex.id, QueueTest);
      }
    }
  }

  ghost predicate SomeThreadMoves(s: State) {
    (exists i :: WorkerEnabled(s, i)) || (exists target :: MasterEnabled(s, target))
  }

  lemma HolderMoves(s: State)
    requires Inv(s) && s.mutex != Free
    ensures SomeThreadMoves(s)
  {
    if s.mutex.HeldByWorker? {
      assert WorkerEnabled(s, s.mutex.id);
    } else {
      SignalHasTarget(s);
    }
  }

  /** A master that neither sleeps nor waits for the mutex always has a step. */
  lemma SignalHasTarget(s: State)
    requires MasterHolds(s.master)
    ensures exists target: nat :: MasterEnabled(s, target)
  {
    if SomeoneAsleep(s) {
      var i :| 0 <= i < |s.workers| && Asleep(s.workers[i]);
      assert MasterEnabled(s, i);
    } else {
      assert forall w <- s.workers :: !Asleep(w);
      assert MasterEnabled(s, 0);
    }
  }

  /** Nobody is there to serve: the master waits on a full queue and no worker was ever started, or
      there is no master and the workers wait for it. */
  ghost predicate Unattended(s: State) {
    && s.mutex == Free
    && (s.master == Unborn || s.master.MSleepEmpty?)
    && forall i :: 0 <= i < |s.workers| ==>
         s.workers[i] == NotStarted || (s.master == Unborn && Asleep(s.workers[i]))
  }

  /** While it serves, the pool is stuck exactly when it is unattended: with a master and one
      worker, whatever the number of workers, it never deadlocks. */
  lemma NoDeadlockWhileServing(s: State)
    requires Reachable(s) && s.stop == 0
    ensures !SomeThreadMoves(s) <==> Unattended(s)
    ensures s.master != Unborn && (exists i :: 0 <= i < |s.workers| && s.workers[i] != NotStarted) ==>
              SomeThreadMoves(s)
  {
    InvReachable(s);
    if !SomeThreadMoves(s) {
      if s.mutex != Free {
        HolderMoves(s);
      }
      assert !MasterEnabled(s, 0);
      forall i | 0 <= i < |s.workers|
        ensures s.workers[i] == NotStarted || (s.master == Unborn && Asleep(s.workers[i]))
      {
        assert !WorkerEnabled(s, i);
        if s.workers[i] != NotStarted && s.master != Unborn {
          QueuedSocketHasAnAwakeWorker(s, i);
        }
      }
    }
  }

  // ---------- Shutdown ----------

  /** While an increment is pending its worker is running and cannot have left yet. */
  lemma CountedPositive(s: State)
    requires Reachable(s) && (s.owner.IncLoad? || s.owner.IncStore?)
    ensures Count(s.workers, Counted) >= 1
  {
    InvReachable(s);
    CountBounds(s.workers, Counted);
  }

  /** `num_threads` is exact in spite of its unprotected increments, and never negative. */
  lemma ThreadCountExact(s: State)
    requires Reachable(s)
    ensures s.numThreads + BeingCounted(s.owner) == Count(s.workers, Counted)
    ensures s.numThreads >= 0
  {
    InvReachable(s);
    if s.owner.IncLoad? || s.owner.IncStore? {
      CountedPositive(s);
    }
  }

  /** The mutex and the condition variables are destroyed only when nobody holds, awaits or will
      ever use them; the context is freed only when no thread has a step left. */
  lemma TeardownIsSafe(s: State)
    requires Reachable(s)
    ensures s.master == MDestroy || s.destroyed ==>
              s.mutex == Free && !SomeoneAsleep(s) && forall i :: !WorkerEnabled(s, i)
    ensures s.stop == 2 ==> s.destroyed && s.master == MFinished
    ensures s.owner == FreeContext || s.owner == Released ==>
              s.destroyed && !SomeThreadMoves(s)
    ensures s.owner == Released ==> forall a :: !Enabled(s, a)
  {
    InvReachable(s);
  }

  /** The master waits for the count only while it is positive, or while the worker that brought it
      to zero is about to signal; between critical sections some worker has still to leave. */
  lemma JoinWaitsForSomebody(s: State)
    requires Reachable(s) && s.master == MSleepJoin
    ensures s.numThreads > 0 || HolderAt(s, SignalCond)
    ensures s.mutex == Free ==> exists i :: 0 <= i < |s.workers| && Counted(s.workers[i])
  {
    InvReachable(s);
    CountBounds(s.workers, Counted);
  }
}
