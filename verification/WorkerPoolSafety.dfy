/** Every step of every thread keeps the pool invariants, so they hold in every reachable state. */
module WorkerPoolSafety {
  import opened SocketQueue
  import opened Wrappers
  import opened WorkerPool

  // ---------- A worker moves ----------

  lemma WorkerKeepsMutex(s: State, i: nat)
    requires MutexInv(s) && WorkerEnabled(s, i)
    ensures MutexInv(WorkerNext(s, i))
  {
  }

  lemma WorkerKeepsPhase(s: State, i: nat)
    requires PhaseInv(s) && GoneInv(s) && StartInv(s) && WorkerEnabled(s, i)
    ensures PhaseInv(WorkerNext(s, i)) && GoneInv(WorkerNext(s, i)) && StartInv(WorkerNext(s, i))
  {
  }

  lemma WorkerKeepsTotal(s: State, i: nat)
    requires CountInv(s) && PhaseInv(s) && WorkerEnabled(s, i)
    ensures var t := WorkerNext(s, i);
            t.numThreads + BeingCounted(t.owner) == Count(t.workers, Counted)
  {
    CountUpdate(s.workers, i, WorkerNext(s, i).workers[i], Counted);
  }

  lemma WorkerKeepsCount(s: State, i: nat)
    requires MutexInv(s) && CountInv(s) && PhaseInv(s) && WorkerEnabled(s, i)
    ensures CountInv(WorkerNext(s, i))
  {
    WorkerKeepsTotal(s, i);
  }

  lemma WorkerKeepsJoin(s: State, i: nat)
    requires MutexInv(s) && CountInv(s) && JoinInv(s) && PhaseInv(s) && WorkerEnabled(s, i)
    ensures JoinInv(WorkerNext(s, i))
  {
  }

  lemma WorkerKeepsFifo(s: State, i: nat)
    requires FifoInv(s) && WorkerRingInv(s) && WorkerEnabled(s, i)
    ensures FifoInv(WorkerNext(s, i))
  {
    if s.workers[i] == Grab {
      TakeRemovesOldest(s.ring);
      assert s.consumed + ([s.ring.Oldest()] + s.ring.Take().Contents())
          == s.consumed + [s.ring.Oldest()] + s.ring.Take().Contents();
    }
  }

  lemma WorkerKeepsWorkerRing(s: State, i: nat)
    requires MutexInv(s) && FifoInv(s) && WorkerRingInv(s) && PhaseInv(s) && WorkerEnabled(s, i)
    ensures WorkerRingInv(WorkerNext(s, i))
  {
    if s.workers[i] == Grab {
      TakeRemovesOldest(s.ring);
    }
  }

  lemma WorkerKeepsMasterRing(s: State, i: nat)
    requires MutexInv(s) && FifoInv(s) && WorkerRingInv(s) && MasterRingInv(s) && WorkerEnabled(s, i)
    ensures MasterRingInv(WorkerNext(s, i))
  {
    if s.workers[i] == Grab {
      TakeRemovesOldest(s.ring);
    }
  }

  lemma OnlyEnterWaitSleeps(s: State, i: nat)
    requires WorkerEnabled(s, i) && SomeoneAsleep(WorkerNext(s, i))
    ensures s.workers[i] == EnterWait || SomeoneAsleep(s)
  {
    var t := WorkerNext(s, i);
    var j :| 0 <= j < |t.workers| && Asleep(t.workers[j]);
    assert j == i || Asleep(s.workers[j]);
  }

  lemma WorkerKeepsWake(s: State, i: nat)
    requires MutexInv(s) && FifoInv(s) && WorkerRingInv(s) && WakeInv(s) && PhaseInv(s) && WorkerEnabled(s, i)
    ensures WakeInv(WorkerNext(s, i))
  {
    var t := WorkerNext(s, i);
    CountUpdate(s.workers, i, t.workers[i], Alert);
    if s.workers[i] == Grab {
      TakeRemovesOldest(s.ring);
    }
    if SomeoneAsleep(t) {
      OnlyEnterWaitSleeps(s, i);
    }
  }

  lemma WorkerKeepsLate(s: State, i: nat)
    requires MutexInv(s) && LateInv(s) && PhaseInv(s) && WorkerEnabled(s, i)
    ensures LateInv(WorkerNext(s, i))
  {
  }

  lemma WorkerKeepsInv(s: State, i: nat)
    requires Inv(s) && WorkerEnabled(s, i)
    ensures Inv(WorkerNext(s, i))
  {
    WorkerKeepsMutex(s, i);
    WorkerKeepsPhase(s, i);
    WorkerKeepsCount(s, i);
    WorkerKeepsJoin(s, i);
    WorkerKeepsFifo(s, i);
    WorkerKeepsWorkerRing(s, i);
    WorkerKeepsMasterRing(s, i);
    WorkerKeepsWake(s, i);
    WorkerKeepsLate(s, i);
  }

  // ---------- The master moves ----------

  lemma MasterKeepsMutex(s: State, accepted: Option<Socket>, target: nat)
    requires MutexInv(s) && MasterEnabled(s, target)
    ensures MutexInv(MasterNext(s, accepted, target))
  {
  }

  lemma MasterKeepsPhase(s: State, accepted: Option<Socket>, target: nat)
    requires PhaseInv(s) && MasterEnabled(s, target)
    ensures PhaseInv(MasterNext(s, accepted, target))
  {
  }

  lemma MasterKeepsGone(s: State, accepted: Option<Socket>, target: nat)
    requires MutexInv(s) && PhaseInv(s) && GoneInv(s) && CountInv(s) && MasterEnabled(s, target)
    ensures GoneInv(MasterNext(s, accepted, target))
  {
    if s.master == MJoinTest && s.numThreads <= 0 {
      CountBounds(s.workers, Counted);
    }
  }

  lemma MasterKeepsStart(s: State, accepted: Option<Socket>, target: nat)
    requires PhaseInv(s) && StartInv(s) && MasterEnabled(s, target)
    ensures StartInv(MasterNext(s, accepted, target))
  {
  }

  lemma MasterKeepsCount(s: State, accepted: Option<Socket>, target: nat)
    requires CountInv(s) && MasterEnabled(s, target)
    ensures CountInv(MasterNext(s, accepted, target))
  {
    CountPointwise(s.workers, Counted, MasterNext(s, accepted, target).workers, Counted);
  }

  lemma MasterKeepsJoin(s: State, accepted: Option<Socket>, target: nat)
    requires MutexInv(s) && JoinInv(s) && MasterEnabled(s, target)
    ensures JoinInv(MasterNext(s, accepted, target))
  {
  }

  lemma MasterKeepsFifo(s: State, accepted: Option<Socket>, target: nat)
    requires FifoInv(s) && MasterRingInv(s) && MasterEnabled(s, target)
    ensures FifoInv(MasterNext(s, accepted, target))
  {
    if s.master.MPut? {
      PutAppends(s.ring, s.master.sock);
      assert s.consumed + s.ring.Put(s.master.sock).Contents()
          == s.consumed + s.ring.Contents() + [s.master.sock];
    }
  }

  lemma MasterKeepsRing(s: State, accepted: Option<Socket>, target: nat)
    requires MutexInv(s) && FifoInv(s) && WorkerRingInv(s) && MasterRingInv(s) && PhaseInv(s)
    requires MasterEnabled(s, target)
    ensures WorkerRingInv(MasterNext(s, accepted, target)) && MasterRingInv(MasterNext(s, accepted, target))
  {
  }

  lemma MasterKeepsWake(s: State, accepted: Option<Socket>, target: nat)
    requires WakeInv(s) && PhaseInv(s) && MasterEnabled(s, target)
    ensures WakeInv(MasterNext(s, accepted, target))
  {
    if s.master.MSignalFull? && target < |s.workers| {
      CountUpdate(s.workers, target, WokenFull, Alert);
    }
  }

  lemma MasterKeepsLate(s: State, accepted: Option<Socket>, target: nat)
    requires MutexInv(s) && LateInv(s) && MasterEnabled(s, target)
    ensures LateInv(MasterNext(s, accepted, target))
  {
  }

  lemma MasterKeepsInv(s: State, accepted: Option<Socket>, target: nat)
    requires Inv(s) && MasterEnabled(s, target)
    ensures Inv(MasterNext(s, accepted, target))
  {
    MasterKeepsMutex(s, accepted, target);
    MasterKeepsPhase(s, accepted, target);
    MasterKeepsGone(s, accepted, target);
    MasterKeepsStart(s, accepted, target);
    MasterKeepsCount(s, accepted, target);
    MasterKeepsJoin(s, accepted, target);
    MasterKeepsFifo(s, accepted, target);
    MasterKeepsRing(s, accepted, target);
    MasterKeepsWake(s, accepted, target);
    MasterKeepsLate(s, accepted, target);
  }

  // ---------- The owner of the context moves ----------

  lemma OwnerKeepsControl(s: State, created: bool)
    requires MutexInv(s) && PhaseInv(s) && GoneInv(s) && StartInv(s) && LateInv(s) && OwnerEnabled(s)
    ensures MutexInv(OwnerNext(s, created)) && PhaseInv(OwnerNext(s, created)) && GoneInv(OwnerNext(s, created))
    ensures StartInv(OwnerNext(s, created)) && LateInv(OwnerNext(s, created))
  {
  }

  lemma OwnerKeepsCount(s: State, created: bool)
    requires PhaseInv(s) && StartInv(s) && CountInv(s) && JoinInv(s) && OwnerEnabled(s)
    ensures CountInv(OwnerNext(s, created)) && JoinInv(OwnerNext(s, created))
  {
    if s.owner.StartWorker? && s.owner.next < |s.workers| {
      CountUpdate(s.workers, s.owner.next, LoopTest, Counted);
    }
  }

  lemma OwnerKeepsRing(s: State, created: bool)
    requires PhaseInv(s) && StartInv(s) && OwnerEnabled(s)
    requires FifoInv(s) && WorkerRingInv(s) && MasterRingInv(s)
    ensures FifoInv(OwnerNext(s, created)) && WorkerRingInv(OwnerNext(s, created))
    ensures MasterRingInv(OwnerNext(s, created))
  {
  }

  lemma OwnerKeepsWake(s: State, created: bool)
    requires WakeInv(s) && PhaseInv(s) && StartInv(s) && OwnerEnabled(s)
    ensures WakeInv(OwnerNext(s, created))
  {
    if s.owner.StartWorker? && s.owner.next < |s.workers| {
      CountUpdate(s.workers, s.owner.next, LoopTest, Alert);
    }
  }

  lemma OwnerKeepsInv(s: State, created: bool)
    requires Inv(s) && OwnerEnabled(s)
    ensures Inv(OwnerNext(s, created))
  {
    OwnerKeepsControl(s, created);
    OwnerKeepsCount(s, created);
    OwnerKeepsRing(s, created);
    OwnerKeepsWake(s, created);
  }

  // ---------- A sleeper wakes for no reason ----------

  lemma SpuriousWorkerKeepsInv(s: State, i: nat)
    requires Inv(s) && i < |s.workers| && Asleep(s.workers[i])
    ensures Inv(Goto(s, i, WokenFull))
  {
    CountUpdate(s.workers, i, WokenFull, Alert);
    CountUpdate(s.workers, i, WokenFull, Counted);
  }

  lemma SpuriousMasterKeepsInv(s: State)
    requires Inv(s)
    ensures Inv(s.(master := WakeOnCond(WakeOnEmpty(s.master))))
  {
  }

  lemma InvKept(s: State, a: Action)
    requires Inv(s) && Enabled(s, a)
    ensures Inv(Next(s, a))
  {
    match a
    case WorkerStep(i) => WorkerKeepsInv(s, i);
    case MasterStep(accepted, target) => MasterKeepsInv(s, accepted, target);
    case OwnerStep(created) => OwnerKeepsInv(s, created);
    case SpuriousWorker(i) => SpuriousWorkerKeepsInv(s, i);
    case SpuriousMaster => SpuriousMasterKeepsInv(s);
  }

  lemma InitInv(n: nat)
    ensures Inv(Init(n))
  {
    CountBounds(Init(n).workers, Counted);
    assert Init(n).ring.Contents() == [];
  }

  lemma {:induction false} InvAlongRun(s: State, run: seq<Action>, t: State)
    requires Inv(s) && Leads(s, run, t)
    ensures Inv(t)
    decreases |run|
  {
    if run != [] {
      InvKept(s, run[0]);
      InvAlongRun(Next(s, run[0]), run[1..], t);
    }
  }

  lemma InvReachable(s: State)
    requires Reachable(s)
    ensures Inv(s)
  {
    var n: nat, run: seq<Action> :| Leads(Init(n), run, s);
    InitInv(n);
    InvAlongRun(Init(n), run, s);
  }
}
