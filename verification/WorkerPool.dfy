/** The thread pool of the HTTP server as a step system: the thread that runs `mg_start` and
    `mg_stop`, the master that accepts sockets, and any number of workers.

    One step is one access to state that other threads may touch without the mutex
    (`stop_flag`, the start-up increment of `num_threads`), one mutex operation, one half of a
    condition wait, one signal, or one critical-section update. A sleeper is unsignalled while
    its program counter says Sleep; it must still take the mutex again once it says Woken. */
module WorkerPool {
  import opened SocketQueue
  import opened Wrappers

  /** Where a worker stands in `worker_thread` and `consume_socket`. */
  datatype Worker =
    | NotStarted
    | LoopTest
    | LockQueue
    | QueueTest
    | EnterWait
    | SleepFull
    | WokenFull
    | StopTest
    | Grab
    | SignalEmpty
    | UnlockGot
    | Busy
    | UnlockStop
    | LockExit
    | DecLoad
    | DecStore(loaded: int)
    | SignalCond
    | UnlockExit
    | Finished

  /** Where the master stands in `master_thread` and `produce_socket`. */
  datatype Master =
    | Unborn
    | MLoopTest
    | MAccept
    | MLock(sock: Socket)
    | MQueueTest(sock: Socket)
    | MEnterWait(sock: Socket)
    | MSleepEmpty(sock: Socket)
    | MWokenEmpty(sock: Socket)
    | MPut(sock: Socket)
    | MSignalFull
    | MUnlock
    | MBroadcast
    | MLockJoin
    | MJoinTest
    | MEnterJoin
    | MSleepJoin
    | MWokenJoin
    | MUnlockJoin
    | MDestroy
    | MSetStop
    | MFinished

  /** Where the owner of the context stands in `mg_start` and then `mg_stop`. */
  datatype Owner =
    | StartMaster
    | StartWorker(next: nat)
    | IncLoad(next: nat)
    | IncStore(next: nat, loaded: int)
    | Serving
    | AwaitStopped
    | FreeContext
    | Released

  datatype Mutex = Free | HeldByWorker(id: nat) | HeldByMaster

  /** `produced` and `consumed` record history; `lateSleeper` records which worker, if any,
      stood between its test and its wait when the master broadcast the shutdown. */
  datatype State = State(
    ring: Ring,
    stop: int,
    numThreads: int,
    mutex: Mutex,
    workers: seq<Worker>,
    master: Master,
    owner: Owner,
    destroyed: bool,
    produced: seq<Socket>,
    consumed: seq<Socket>,
    lateSleeper: Option<nat>)

  function Init(n: nat): State {
    State(EmptyRing, 0, 0, Free, seq(n, _ => NotStarted), Unborn, StartMaster, false, [], [], None)
  }

  /** The scheduler's choice. `SpuriousWorker` and `SpuriousMaster` are wakeups that no signal caused. */
  datatype Action =
    | WorkerStep(id: nat)
    | MasterStep(accepted: Option<Socket>, target: nat)
    | OwnerStep(created: bool)
    | SpuriousWorker(id: nat)
    | SpuriousMaster

  // ---------- One step of each thread ----------

  predicate WorkerEnabled(s: State, i: nat) {
    i < |s.workers| &&
    match s.workers[i]
    case NotStarted | SleepFull | Finished => false
    case LockQueue | WokenFull | LockExit => s.mutex == Free
    case _ => true
  }

  function Goto(s: State, i: nat, pc: Worker): State
    requires i < |s.workers|
  {
    s.(workers := s.workers[i := pc])
  }

  function WakeOnEmpty(m: Master): Master {
    if m.MSleepEmpty? then MWokenEmpty(m.sock) else m
  }

  function WakeOnCond(m: Master): Master {
    if m.MSleepJoin? then MWokenJoin else m
  }

  function WorkerNext(s: State, i: nat): State
    requires WorkerEnabled(s, i)
  {
    match s.workers[i]
    case LoopTest => Goto(s, i, if s.stop == 0 then LockQueue else LockExit)
    case LockQueue => Goto(s, i, QueueTest).(mutex := HeldByWorker(i))
    case QueueTest => Goto(s, i, if s.ring.head == s.ring.tail && s.stop == 0 then EnterWait else StopTest)
    case EnterWait => Goto(s, i, SleepFull).(mutex := Free)
    case WokenFull => Goto(s, i, QueueTest).(mutex := HeldByWorker(i))
    case StopTest => Goto(s, i, if s.stop != 0 then UnlockStop else Grab)
    case Grab => Goto(s, i, SignalEmpty).(ring := s.ring.Take(), consumed := s.consumed + [s.ring.Oldest()])
    case SignalEmpty => Goto(s, i, UnlockGot).(master := WakeOnEmpty(s.master))
    case UnlockGot => Goto(s, i, Busy).(mutex := Free)
    case Busy => Goto(s, i, LoopTest)
    case UnlockStop => Goto(s, i, LockExit).(mutex := Free)
    case LockExit => Goto(s, i, DecLoad).(mutex := HeldByWorker(i))
    case DecLoad => Goto(s, i, DecStore(s.numThreads))
    case DecStore(v) => Goto(s, i, SignalCond).(numThreads := v - 1)
    case SignalCond => Goto(s, i, UnlockExit).(master := WakeOnCond(s.master))
    case UnlockExit => Goto(s, i, Finished).(mutex := Free)
  }

  predicate Asleep(w: Worker) { w.SleepFull? }

  predicate MasterEnabled(s: State, target: nat) {
    match s.master
    case Unborn | MSleepEmpty(_) | MSleepJoin | MFinished => false
    case MLock(_) | MWokenEmpty(_) | MLockJoin | MWokenJoin => s.mutex == Free
    case MSignalFull =>
      // The signal reaches some sleeper if there is one.
      (target < |s.workers| && Asleep(s.workers[target])) || (forall w <- s.workers :: !Asleep(w))
    case _ => true
  }

  function WakeAll(ws: seq<Worker>): (r: seq<Worker>)
    ensures |r| == |ws|
    ensures forall i :: 0 <= i < |ws| ==> r[i] == if Asleep(ws[i]) then WokenFull else ws[i]
  {
    seq(|ws|, i requires 0 <= i < |ws| => if Asleep(ws[i]) then WokenFull else ws[i])
  }

  /** The mutex is owned by a worker that stands at `pc`. */
  predicate HolderAt(s: State, pc: Worker) {
    s.mutex.HeldByWorker? && s.mutex.id < |s.workers| && s.workers[s.mutex.id] == pc
  }

  function AboutToSleep(s: State): Option<nat> {
    if HolderAt(s, EnterWait) then Some(s.mutex.id) else None
  }

  function MasterNext(s: State, accepted: Option<Socket>, target: nat): State
    requires MasterEnabled(s, target)
  {
    match s.master
    case MLoopTest => s.(master := if s.stop == 0 then MAccept else MBroadcast)
    case MAccept => s.(master := if accepted.Some? then MLock(accepted.value) else MLoopTest)
    case MLock(x) => s.(master := MQueueTest(x), mutex := HeldByMaster)
    case MQueueTest(x) => s.(master := if s.ring.head - s.ring.tail >= CAPACITY then MEnterWait(x) else MPut(x))
    case MEnterWait(x) => s.(master := MSleepEmpty(x), mutex := Free)
    case MWokenEmpty(x) => s.(master := MQueueTest(x), mutex := HeldByMaster)
    case MPut(x) => s.(master := MSignalFull, ring := s.ring.Put(x), produced := s.produced + [x])
    case MSignalFull =>
      if target < |s.workers| && Asleep(s.workers[target])
      then Goto(s, target, WokenFull).(master := MUnlock)
      else s.(master := MUnlock)
    case MUnlock => s.(master := MLoopTest, mutex := Free)
    case MBroadcast => s.(master := MLockJoin, workers := WakeAll(s.workers), lateSleeper := AboutToSleep(s))
    case MLockJoin => s.(master := MJoinTest, mutex := HeldByMaster)
    case MJoinTest => s.(master := if s.numThreads > 0 then MEnterJoin else MUnlockJoin)
    case MEnterJoin => s.(master := MSleepJoin, mutex := Free)
    case MWokenJoin => s.(master := MJoinTest, mutex := HeldByMaster)
    case MUnlockJoin => s.(master := MDestroy, mutex := Free)
    case MDestroy => s.(master := MSetStop, destroyed := true)
    case MSetStop => s.(master := MFinished, stop := 2)
  }

  predicate OwnerEnabled(s: State) {
    s.owner != Released
  }

  /** `created` says whether the thread creation of this step, if it has one, succeeds. */
  function OwnerNext(s: State, created: bool): State
    requires OwnerEnabled(s)
  {
    match s.owner
    case StartMaster => s.(owner := StartWorker(0), master := if created then MLoopTest else s.master)
    case StartWorker(i) =>
      if i >= |s.workers| then s.(owner := Serving)
      else if created then Goto(s, i, LoopTest).(owner := IncLoad(i))
      else s.(owner := StartWorker(i + 1))
    case IncLoad(i) => s.(owner := IncStore(i, s.numThreads))
    case IncStore(i, v) => s.(owner := StartWorker(i + 1), numThreads := v + 1)
    case Serving => s.(owner := AwaitStopped, stop := 1)
    case AwaitStopped => s.(owner := if s.stop != 2 then AwaitStopped else FreeContext)
    case FreeContext => s.(owner := Released)
  }

  predicate Enabled(s: State, a: Action) {
    match a
    case WorkerStep(i) => WorkerEnabled(s, i)
    case MasterStep(_, target) => MasterEnabled(s, target)
    case OwnerStep(_) => OwnerEnabled(s)
    case SpuriousWorker(i) => i < |s.workers| && Asleep(s.workers[i])
    case SpuriousMaster => s.master.MSleepEmpty? || s.master.MSleepJoin?
  }

  function Next(s: State, a: Action): State
    requires Enabled(s, a)
  {
    match a
    case WorkerStep(i) => WorkerNext(s, i)
    case MasterStep(accepted, target) => MasterNext(s, accepted, target)
    case OwnerStep(created) => OwnerNext(s, created)
    case SpuriousWorker(i) => Goto(s, i, WokenFull)
    case SpuriousMaster => s.(master := WakeOnCond(WakeOnEmpty(s.master)))
  }

  /** `run` is a schedule that leads from `s` to `t`. */
  ghost predicate Leads(s: State, run: seq<Action>, t: State)
    decreases |run|
  {
    if run == [] then s == t else Enabled(s, run[0]) && Leads(Next(s, run[0]), run[1..], t)
  }

  ghost predicate Reachable(s: State) {
    exists n: nat, run: seq<Action> :: Leads(Init(n), run, s)
  }

  // ---------- Counting workers ----------

  ghost function Count(ws: seq<Worker>, p: Worker -> bool): nat {
    if ws == [] then 0 else (if p(ws[0]) then 1 else 0) + Count(ws[1..], p)
  }

  lemma {:induction false} CountUpdate(ws: seq<Worker>, i: nat, pc: Worker, p: Worker -> bool)
    requires i < |ws|
    ensures Count(ws[i := pc], p)
         == Count(ws, p) - (if p(ws[i]) then 1 else 0) + (if p(pc) then 1 else 0)
  {
    if i == 0 {
      assert ws[i := pc][1..] == ws[1..];
    } else {
      assert ws[i := pc][1..] == ws[1..][i - 1 := pc];
      CountUpdate(ws[1..], i - 1, pc, p);
    }
  }

  lemma {:induction false} CountPointwise(ws: seq<Worker>, p: Worker -> bool, us: seq<Worker>, q: Worker -> bool)
    requires |ws| == |us|
    requires forall i :: 0 <= i < |ws| ==> p(ws[i]) == q(us[i])
    ensures Count(ws, p) == Count(us, q)
  {
    if ws != [] {
      CountPointwise(ws[1..], p, us[1..], q);
    }
  }

  lemma {:induction false} CountBounds(ws: seq<Worker>, p: Worker -> bool)
    ensures Count(ws, p) <= |ws|
    ensures Count(ws, p) == 0 <==> forall i :: 0 <= i < |ws| ==> !p(ws[i])
    ensures (exists i :: 0 <= i < |ws| && !p(ws[i])) ==> Count(ws, p) < |ws|
  {
    if ws != [] {
      CountBounds(ws[1..], p);
      assert forall i :: 0 <= i < |ws| ==> ws[i] == if i == 0 then ws[0] else ws[1..][i - 1];
      assert forall i :: 0 <= i < |ws| - 1 ==> ws[1..][i] == ws[i + 1];
    }
  }

  // ---------- Invariants ----------

  predicate Holds(w: Worker) {
    match w
    case QueueTest | EnterWait | StopTest | Grab | SignalEmpty | UnlockGot | UnlockStop
      | DecLoad | DecStore(_) | SignalCond | UnlockExit => true
    case _ => false
  }

  predicate MasterHolds(m: Master) {
    match m
    case MQueueTest(_) | MEnterWait(_) | MPut(_) | MSignalFull | MUnlock
      | MJoinTest | MEnterJoin | MUnlockJoin => true
    case _ => false
  }

  /** Exactly the thread inside a critical section owns the mutex. */
  ghost predicate MutexInv(s: State) {
    && (forall i :: 0 <= i < |s.workers| ==> (Holds(s.workers[i]) <==> s.mutex == HeldByWorker(i)))
    && (MasterHolds(s.master) <==> s.mutex == HeldByMaster)
    && (s.mutex.HeldByWorker? ==> s.mutex.id < |s.workers|)
  }

  /** Steps a worker takes only once it has seen the stop flag. */
  predicate Leaving(w: Worker) {
    match w
    case UnlockStop | LockExit | DecLoad | DecStore(_) | SignalCond | UnlockExit | Finished => true
    case _ => false
  }

  predicate Stopping(m: Master) {
    match m
    case MBroadcast | MLockJoin | MJoinTest | MEnterJoin | MSleepJoin | MWokenJoin
      | MUnlockJoin | MDestroy | MSetStop | MFinished => true
    case _ => false
  }

  /** The master has found the count at zero. */
  predicate Joined(m: Master) {
    m.MUnlockJoin? || m.MDestroy? || m.MSetStop? || m.MFinished?
  }

  predicate Gone(w: Worker) { w.NotStarted? || w.Finished? }

  predicate Starting(o: Owner) {
    o.StartMaster? || o.StartWorker? || o.IncLoad? || o.IncStore?
  }

  ghost predicate PhaseInv(s: State) {
    && 0 <= s.stop <= 2
    && (s.stop == 0 <==> Starting(s.owner) || s.owner == Serving)
    && (s.stop == 2 <==> s.master == MFinished)
    && (s.owner.FreeContext? || s.owner.Released? ==> s.stop == 2)
    && (s.destroyed <==> s.master.MSetStop? || s.master.MFinished?)
    && (Stopping(s.master) ==> s.stop != 0)
    && (forall i :: 0 <= i < |s.workers| && Leaving(s.workers[i]) ==> s.stop != 0)
    && (s.owner.StartMaster? ==> s.master == Unborn)
  }

  /** Once the master has found the count at zero no worker will touch the context again. */
  ghost predicate GoneInv(s: State) {
    Joined(s.master) ==> forall i :: 0 <= i < |s.workers| ==> Gone(s.workers[i])
  }

  /** Workers the owner has not reached yet have not started. */
  ghost predicate StartInv(s: State) {
    match s.owner
    case StartMaster => forall i :: 0 <= i < |s.workers| ==> s.workers[i] == NotStarted
    case StartWorker(n) => n <= |s.workers| && forall i :: n <= i < |s.workers| ==> s.workers[i] == NotStarted
    case IncLoad(n) =>
      && n < |s.workers| && s.workers[n] != NotStarted
      && forall i :: n < i < |s.workers| ==> s.workers[i] == NotStarted
    case IncStore(n, _) =>
      && n < |s.workers| && s.workers[n] != NotStarted
      && forall i :: n < i < |s.workers| ==> s.workers[i] == NotStarted
    case _ => true
  }

  /** Started, and the decrement of `num_threads` is still to be stored. */
  predicate Counted(w: Worker) {
    match w
    case NotStarted | SignalCond | UnlockExit | Finished => false
    case _ => true
  }

  function BeingCounted(o: Owner): int {
    if o.IncLoad? || o.IncStore? then 1 else 0
  }

  ghost predicate CountInv(s: State) {
    && s.numThreads + BeingCounted(s.owner) == Count(s.workers, Counted)
    && (s.owner.IncStore? ==> s.owner.loaded == s.numThreads)
    && (forall i :: 0 <= i < |s.workers| && s.workers[i].DecStore? ==> s.workers[i].loaded == s.numThreads)
  }

  /** The master waits for the count only while it is positive or its signal is on the way. */
  ghost predicate JoinInv(s: State) {
    && (s.master == MEnterJoin ==> s.numThreads > 0)
    && (s.master == MSleepJoin && s.numThreads <= 0 ==> HolderAt(s, SignalCond))
  }

  /** First in, first out: what was accepted is what was handed out, then what is queued. */
  ghost predicate FifoInv(s: State) {
    s.ring.Valid() && s.produced == s.consumed + s.ring.Contents()
  }

  /** What a worker inside `consume_socket` knows about the queue. */
  predicate Knows(w: Worker, size: int, stop: int) {
    match w
    case EnterWait => size == 0
    case StopTest => size > 0 || stop != 0
    case Grab => size > 0
    case SignalEmpty => size < CAPACITY
    case _ => true
  }

  ghost predicate WorkerRingInv(s: State) {
    forall i :: 0 <= i < |s.workers| ==> Knows(s.workers[i], s.ring.Size(), s.stop)
  }

  /** What the master inside `produce_socket` knows about the queue. */
  ghost predicate MasterRingInv(s: State) {
    && (s.master.MPut? ==> s.ring.Size() < CAPACITY)
    && (s.master.MEnterWait? ==> s.ring.Size() == CAPACITY)
    && (s.master.MSleepEmpty? && s.ring.Size() != CAPACITY ==>
          HolderAt(s, SignalEmpty) && s.ring.Size() == CAPACITY - 1)
  }

  /** Workers that will look at the queue again before they can sleep. */
  predicate Alert(w: Worker) {
    w.WokenFull? || w.QueueTest? || w.StopTest? || w.Grab?
  }

  function SignalDue(m: Master): int {
    if m.MSignalFull? then 1 else 0
  }

  ghost predicate SomeoneAsleep(s: State) {
    exists i :: 0 <= i < |s.workers| && Asleep(s.workers[i])
  }

  /** While somebody sleeps, every queued socket has a wakeup of its own. */
  ghost predicate WakeInv(s: State) {
    s.stop == 0 && SomeoneAsleep(s) ==> Count(s.workers, Alert) + SignalDue(s.master) >= s.ring.Size()
  }

  /** After the shutdown broadcast only the recorded straggler can sleep on the queue. */
  ghost predicate LateInv(s: State) {
    && (Stopping(s.master) && s.master != MBroadcast ==>
          forall i :: 0 <= i < |s.workers| && (s.workers[i] == EnterWait || Asleep(s.workers[i])) ==>
            s.lateSleeper == Some(i))
  }

  ghost predicate Inv(s: State) {
    && MutexInv(s) && PhaseInv(s) && GoneInv(s) && StartInv(s) && CountInv(s) && JoinInv(s)
    && FifoInv(s) && WorkerRingInv(s) && MasterRingInv(s) && WakeInv(s) && LateInv(s)
  }
}
