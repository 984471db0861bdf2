/** A DIAL server that several threads serve. A request takes the mutex to look up its origin, gives it
    back, and takes it again in its handler: between the two any other request may get it. What the
    theorems about runs of requests say holds of the server all the same. */
module DialService {
  import opened Bytes
  import opened Wrappers
  import HttpHead
  import opened DialApps
  import opened DialRuns
  import opened DialServer
  import opened DataLifecycle

  /** A new request and what it meets with. */
  datatype Visit = Visit(info: Info, answers: Answers)

  ghost function StepsOf(visits: seq<Visit>): seq<DialRuns.Step> {
    seq(|visits|, i requires 0 <= i < |visits| => Step(Routed(visits[i].info), visits[i].answers))
  }

  ghost function AllCalls(effects: seq<Effect>): seq<Call> {
    if effects == [] then [] else effects[0].calls + AllCalls(effects[1..])
  }

  ghost function Codes(effects: seq<Effect>): seq<int> {
    if effects == [] then [] else [effects[0].code] + Codes(effects[1..])
  }

  ghost function AllLocks(apps: seq<App>, steps: seq<DialRuns.Step>): nat
    decreases |steps|
  {
    if steps == [] then 0
    else
      Locks(apps, steps[0].request) + AllLocks(Respond(apps, steps[0].request, steps[0].answers).apps, steps[1..])
  }

  // ---------- One request after the other ----------

  /** The applications, the answers so far, and the rest of the state of the server. */
  datatype Progress = Progress(list: seq<App>, codes: seq<int>, now: Snapshot)

  ghost function Served(p: Progress, step: DialRuns.Step): Progress {
    var e := Respond(p.list, step.request, step.answers);
    var o := After(Response(e, Locks(p.list, step.request)), p.now);
    Progress(o.list, p.codes + [o.code], o.now)
  }

  ghost function AllServed(p: Progress, steps: seq<DialRuns.Step>): Progress
    decreases |steps|
  {
    if steps == [] then p else AllServed(Served(p, steps[0]), steps[1..])
  }

  /** What the functions about runs say. */
  ghost function AfterRun(p: Progress, steps: seq<DialRuns.Step>): Progress {
    var effects := Effects(p.list, steps);
    Progress(Final(p.list, steps), p.codes + Codes(effects),
             Snapshot(FilesAfter(p.now.files, effects), p.now.calls + AllCalls(effects),
                      p.now.acquired + AllLocks(p.list, steps)))
  }

  lemma EffectsUnfold(apps: seq<App>, steps: seq<DialRuns.Step>)
    requires steps != []
    ensures var e := Respond(apps, steps[0].request, steps[0].answers);
            && Effects(apps, steps) == [e] + Effects(e.apps, steps[1..])
            && AllCalls(Effects(apps, steps)) == e.calls + AllCalls(Effects(e.apps, steps[1..]))
            && Codes(Effects(apps, steps)) == [e.code] + Codes(Effects(e.apps, steps[1..]))
  {
    var e := Respond(apps, steps[0].request, steps[0].answers);
    assert ([e] + Effects(e.apps, steps[1..]))[1..] == Effects(e.apps, steps[1..]);
  }

  lemma {:induction false} AllServedIs(p: Progress, steps: seq<DialRuns.Step>)
    ensures AllServed(p, steps) == AfterRun(p, steps)
    decreases |steps|
  {
    if steps == [] {
      assert p.codes + [] == p.codes && p.now.calls + [] == p.now.calls;
    } else {
      AllServedIs(Served(p, steps[0]), steps[1..]);
      ServedThenRun(p, steps);
    }
  }

  lemma ServedThenRun(p: Progress, steps: seq<DialRuns.Step>)
    requires steps != []
    ensures AfterRun(Served(p, steps[0]), steps[1..]) == AfterRun(p, steps)
  {
    hide Respond, Locks;
    var e := Respond(p.list, steps[0].request, steps[0].answers);
    EffectsUnfold(p.list, steps);
    var later := Effects(e.apps, steps[1..]);
    assert p.now.calls + e.calls + AllCalls(later) == p.now.calls + (e.calls + AllCalls(later));
    assert p.codes + [e.code] + Codes(later) == p.codes + ([e.code] + Codes(later));
  }

  lemma {:induction false} LastServed(p: Progress, steps: seq<DialRuns.Step>, step: DialRuns.Step)
    ensures AllServed(p, steps + [step]) == Served(AllServed(p, steps), step)
    decreases |steps|
  {
    if steps == [] {
      assert [step][1..] == [];
    } else {
      LastServed(Served(p, steps[0]), steps[1..], step);
      assert (steps + [step])[1..] == steps[1..] + [step];
    }
  }

  // ---------- Requests that overlap ----------

  /** How far the thread of a request has come: with the answer to the question about host and origin,
      or with the answer to the request. */
  datatype Phase = Arrived | Asked(admitted: bool) | Answered(code: int)

  /** The applications, the threads, the order in which requests were carried out, and the rest. */
  datatype Service = Service(list: seq<App>, phases: seq<Phase>, log: seq<nat>, now: Snapshot)

  /** The requests for which host and origin are looked at. */
  predicate Asks(r: AppRequest) {
    Choose(r, false).asked
  }

  ghost function Ask(s: Service, r: AppRequest, i: nat): Service
    requires i < |s.phases|
  {
    var gate := GateFor(s.list, r);
    s.(phases := s.phases[i := Asked(gate.admitted)], now := s.now.(acquired := s.now.acquired + gate.locks))
  }

  /** What a decision does to the applications as they are now. */
  function DoneNow(list: seq<App>, d: Decision, answers: Answers, now: Snapshot): Outcome {
    After(Response(Perform(list, d, answers), if d.Answer? then 0 else 1), now)
  }

  ghost function Carry(s: Service, step: DialRuns.Step, i: nat, admitted: bool): Service
    requires i < |s.phases|
  {
    var o := DoneNow(s.list, Choose(step.request, admitted).decision, step.answers, s.now);
    Service(o.list, s.phases[i := Answered(o.code)], s.log + [i], o.now)
  }

  /** The thread of request `i` gets the mutex next. */
  ghost function Move(s: Service, steps: seq<DialRuns.Step>, i: nat): (next: Service)
    requires |s.phases| == |steps|
    ensures |next.phases| == |steps|
  {
    if i >= |steps| then s
    else match s.phases[i]
      case Arrived => if Asks(steps[i].request) then Ask(s, steps[i].request, i) else Carry(s, steps[i], i, false)
      case Asked(admitted) => Carry(s, steps[i], i, admitted)
      case Answered(_) => s
  }

  ghost function Moves(s: Service, steps: seq<DialRuns.Step>, schedule: seq<nat>): (next: Service)
    requires |s.phases| == |steps|
    ensures |next.phases| == |steps|
    decreases |schedule|
  {
    if schedule == [] then s else Moves(Move(s, steps, schedule[0]), steps, schedule[1..])
  }

  ghost function Opened(list: seq<App>, n: nat, now: Snapshot): Service {
    Service(list, seq(n, _ => Arrived), [], now)
  }

  /** The sum of a weight over all threads. */
  ghost function Total(phases: seq<Phase>, steps: seq<DialRuns.Step>, weight: (Phase, AppRequest) -> nat): nat
    requires |phases| == |steps|
  {
    if phases == [] then 0
    else weight(phases[0], steps[0].request) + Total(phases[1..], steps[1..], weight)
  }

  lemma {:induction false} TotalChanges(phases: seq<Phase>, steps: seq<DialRuns.Step>,
                                        weight: (Phase, AppRequest) -> nat, i: nat, p: Phase)
    requires i < |phases| == |steps|
    ensures Total(phases[i := p], steps, weight) + weight(phases[i], steps[i].request)
         == Total(phases, steps, weight) + weight(p, steps[i].request)
  {
    if i > 0 {
      TotalChanges(phases[1..], steps[1..], weight, i - 1, p);
      assert phases[i := p][1..] == phases[1..][i - 1 := p];
    }
  }

  lemma {:induction false} TotalOfArrived(n: nat, steps: seq<DialRuns.Step>, weight: (Phase, AppRequest) -> nat)
    requires n == |steps| && forall r :: weight(Arrived, r) == 0
    ensures Total(seq(n, _ => Arrived), steps, weight) == 0
  {
    if n > 0 {
      TotalOfArrived(n - 1, steps[1..], weight);
      assert seq(n, _ => Arrived)[1..] == seq(n - 1, _ => Arrived);
    }
  }

  /** The acquisitions of a thread that has asked and is not carried out yet. */
  function PendingLocks(p: Phase, r: AppRequest): nat {
    if p.Asked? then GateFor([], r).locks else 0
  }

  /** The requests that were carried out, in that order. */
  ghost function Picked(steps: seq<DialRuns.Step>, log: seq<nat>): seq<DialRuns.Step>
    requires InRangeOf(steps, log)
  {
    seq(|log|, k requires 0 <= k < |log| => steps[log[k]])
  }

  ghost predicate InRangeOf<T>(s: seq<T>, log: seq<nat>) {
    forall k :: 0 <= k < |log| ==> log[k] < |s|
  }

  ghost function CodesAt(phases: seq<Phase>, log: seq<nat>): seq<int>
    requires InRangeOf(phases, log)
  {
    seq(|log|, k requires 0 <= k < |log| => if phases[log[k]].Answered? then phases[log[k]].code else 0)
  }

  /** Every answered request is in the log, once. */
  ghost predicate Logged(phases: seq<Phase>, log: seq<nat>) {
    && InRangeOf(phases, log)
    && (forall i: nat :: i < |phases| ==> (phases[i].Answered? <==> i in log))
    && (forall j, k :: 0 <= j < k < |log| ==> log[j] != log[k])
  }

  ghost predicate AskedAtStart(list: seq<App>, steps: seq<DialRuns.Step>, phases: seq<Phase>)
    requires |phases| == |steps|
  {
    forall i: nat :: i < |phases| && phases[i].Asked? ==>
      Asks(steps[i].request) && phases[i].admitted == GateFor(list, steps[i].request).admitted
  }

  ghost predicate ThreadsValid(list: seq<App>, steps: seq<DialRuns.Step>, s: Service) {
    && |s.phases| == |steps| && Logged(s.phases, s.log) && SameRegistry(list, s.list)
    && AskedAtStart(list, steps, s.phases)
  }

  /** The service is where `run` is, apart from the acquisitions of those that have only asked. */
  ghost predicate Reached(run: Progress, codes: seq<int>, list: seq<App>, now: Snapshot, pending: nat) {
    list == run.list && codes == run.codes && now == run.now.(acquired := run.now.acquired + pending)
  }

  /** The service is where it would be if the requests of the log had been served one after the other. */
  ghost predicate Serial(p: Progress, steps: seq<DialRuns.Step>, s: Service) {
    && ThreadsValid(p.list, steps, s)
    && Reached(AllServed(p, Picked(steps, s.log)), p.codes + CodesAt(s.phases, s.log), s.list, s.now,
               Total(s.phases, steps, PendingLocks))
  }

  // ---------- Every interleaving is a run ----------

  lemma SameIndex(before: seq<App>, after: seq<App>, name: Text)
    requires SameRegistry(before, after)
    ensures IndexOf(after, name) == IndexOf(before, name)
  {
    IndexIsFirst(before, name);
    IndexIs(after, name, IndexOf(before, name));
  }

  /** What is asked about host and origin has the same answer at any time. */
  lemma GateIsStable(before: seq<App>, after: seq<App>, r: AppRequest)
    requires SameRegistry(before, after)
    ensures GateFor(after, r) == GateFor(before, r)
  {
    SameIndex(before, after, NameOf(r.route));
  }

  lemma AskingIsFixed(r: AppRequest, admitted: bool)
    ensures Choose(r, admitted).asked == Asks(r)
    ensures !Asks(r) ==> Choose(r, admitted) == Choose(r, false)
  {
  }

  lemma AskKeepsSerial(p: Progress, steps: seq<DialRuns.Step>, s: Service, i: nat)
    requires Serial(p, steps, s) && i < |steps| && s.phases[i].Arrived? && Asks(steps[i].request)
    ensures Serial(p, steps, Ask(s, steps[i].request, i))
  {
    var next := Ask(s, steps[i].request, i);
    GateIsStable(p.list, s.list, steps[i].request);
    TotalChanges(s.phases, steps, PendingLocks, i, next.phases[i]);
    assert CodesAt(next.phases, next.log) == CodesAt(s.phases, s.log);
  }

  /** The thread is about to carry its request out, and knows whether it is admitted. */
  ghost predicate Ready(phase: Phase, r: AppRequest, admitted: bool) {
    (phase.Asked? && phase.admitted == admitted) || (phase.Arrived? && !Asks(r) && !admitted)
  }

  /** A handler does to the applications as it finds them what the whole request would do. */
  lemma CarriedIsServed(p: Progress, steps: seq<DialRuns.Step>, s: Service, i: nat, admitted: bool)
    requires Serial(p, steps, s) && i < |steps| && Ready(s.phases[i], steps[i].request, admitted)
    ensures Choose(steps[i].request, admitted).decision == Decide(s.list, steps[i].request)
    ensures Locks(s.list, steps[i].request)
         == PendingLocks(s.phases[i], steps[i].request)
            + if Decide(s.list, steps[i].request).Answer? then 0 else 1
  {
    var r := steps[i].request;
    GateIsStable(p.list, s.list, r);
    AskingIsFixed(r, GateFor(s.list, r).admitted);
  }

  lemma LoggedGrows(phases: seq<Phase>, log: seq<nat>, i: nat, code: int)
    requires Logged(phases, log) && i < |phases| && !phases[i].Answered?
    ensures Logged(phases[i := Answered(code)], log + [i])
    ensures CodesAt(phases[i := Answered(code)], log + [i]) == CodesAt(phases, log) + [code]
  {
    assert i !in log;
  }

  /** One more request is carried out: its acquisition in the handler is added, and one that was
      pending is now counted with it. */
  lemma OneMoreReached(run: Progress, codes: seq<int>, list: seq<App>, now: Snapshot, pending: nat, left: nat,
                       step: DialRuns.Step)
    requires Reached(run, codes, list, now, pending)
    requires left + Locks(list, step.request) == pending + if Decide(list, step.request).Answer? then 0 else 1
    ensures var o := DoneNow(list, Decide(list, step.request), step.answers, now);
            Reached(Served(run, step), codes + [o.code], o.list, o.now, left)
  {
  }

  lemma CarryKeepsThreads(list: seq<App>, steps: seq<DialRuns.Step>, s: Service, i: nat, admitted: bool)
    requires ThreadsValid(list, steps, s) && i < |steps| && !s.phases[i].Answered?
    requires Choose(steps[i].request, admitted).decision == Decide(s.list, steps[i].request)
    ensures ThreadsValid(list, steps, Carry(s, steps[i], i, admitted))
    ensures var next := Carry(s, steps[i], i, admitted);
            CodesAt(next.phases, next.log) == CodesAt(s.phases, s.log) + [next.phases[i].code]
  {
    RequestIsConfined(s.list, steps[i].request, steps[i].answers);
    LoggedGrows(s.phases, s.log, i, Carry(s, steps[i], i, admitted).phases[i].code);
  }

  lemma CarryKeepsSerial(p: Progress, steps: seq<DialRuns.Step>, s: Service, i: nat, admitted: bool)
    requires Serial(p, steps, s) && i < |steps| && Ready(s.phases[i], steps[i].request, admitted)
    ensures Serial(p, steps, Carry(s, steps[i], i, admitted))
  {
    var next := Carry(s, steps[i], i, admitted);
    var pending, left := Total(s.phases, steps, PendingLocks), Total(next.phases, steps, PendingLocks);
    CarriedIsServed(p, steps, s, i, admitted);
    CarryKeepsThreads(p.list, steps, s, i, admitted);
    TotalChanges(s.phases, steps, PendingLocks, i, next.phases[i]);
    var codes := p.codes + CodesAt(s.phases, s.log);
    assert p.codes + CodesAt(next.phases, next.log) == codes + [next.phases[i].code];
    OneMoreReached(AllServed(p, Picked(steps, s.log)), codes, s.list, s.now, pending, left, steps[i]);
    assert Picked(steps, next.log) == Picked(steps, s.log) + [steps[i]];
    LastServed(p, Picked(steps, s.log), steps[i]);
  }

  lemma MoveKeepsSerial(p: Progress, steps: seq<DialRuns.Step>, s: Service, i: nat)
    requires Serial(p, steps, s)
    ensures Serial(p, steps, Move(s, steps, i))
  {
    if i < |steps| && !s.phases[i].Answered? {
      if s.phases[i].Arrived? && Asks(steps[i].request) {
        AskKeepsSerial(p, steps, s, i);
      } else {
        CarryKeepsSerial(p, steps, s, i, s.phases[i].Asked? && s.phases[i].admitted);
      }
    }
  }

  lemma OpenedIsSerial(list: seq<App>, steps: seq<DialRuns.Step>, now: Snapshot)
    ensures Serial(Progress(list, [], now), steps, Opened(list, |steps|, now))
  {
    TotalOfArrived(|steps|, steps, PendingLocks);
  }

  /** Whatever the order in which the threads get the mutex, the server is where serving the carried
      out requests one after the other, in the order of their handlers, takes it. */
  lemma {:induction false} InterleavingIsSerial(p: Progress, steps: seq<DialRuns.Step>, s: Service,
                                               schedule: seq<nat>)
    requires Serial(p, steps, s)
    ensures Serial(p, steps, Moves(s, steps, schedule))
    decreases |schedule|
  {
    if schedule != [] {
      MoveKeepsSerial(p, steps, s, schedule[0]);
      InterleavingIsSerial(p, steps, Move(s, steps, schedule[0]), schedule[1..]);
    }
  }

  /** A thread that is not interrupted between its sections does what the request handler does. */
  lemma TwoMovesAreTheHandler(s: Service, steps: seq<DialRuns.Step>, i: nat)
    requires |s.phases| == |steps| && i < |steps| && s.phases[i].Arrived?
    ensures var r, answers := steps[i].request, steps[i].answers;
            var o := After(Response(Respond(s.list, r, answers), Locks(s.list, r)), s.now);
            (Moves(s, steps, [i, i])
             == Service(o.list, s.phases[i := Answered(o.code)], s.log + [i], o.now))
  {
    var asked := Move(s, steps, i);
    AskingIsFixed(steps[i].request, GateFor(s.list, steps[i].request).admitted);
    assert [i, i][1..] == [i] && [i][1..] == [];
    assert Moves(s, steps, [i, i]) == Moves(asked, steps, [i]) == Move(asked, steps, i);
    assert asked.phases[i := Move(asked, steps, i).phases[i]] == s.phases[i := Move(asked, steps, i).phases[i]];
  }

  // ---------- Every request is answered ----------

  /** How often a thread gets the mutex. */
  function Turns(schedule: seq<nat>, i: nat): nat {
    if schedule == [] then 0 else (if schedule[0] == i then 1 else 0) + Turns(schedule[1..], i)
  }

  function TurnsNeeded(phase: Phase): nat {
    match phase
    case Arrived => 2
    case Asked(_) => 1
    case Answered(_) => 0
  }

  lemma {:induction false} TwoTurnsAnswer(s: Service, steps: seq<DialRuns.Step>, schedule: seq<nat>, i: nat)
    requires |s.phases| == |steps| && i < |steps| && Turns(schedule, i) >= TurnsNeeded(s.phases[i])
    ensures Moves(s, steps, schedule).phases[i].Answered?
    decreases |schedule|
  {
    if schedule != [] {
      TwoTurnsAnswer(Move(s, steps, schedule[0]), steps, schedule[1..], i);
    }
  }

  // ---------- The laws of runs, for overlapping requests ----------

  lemma {:induction false} StopCallsAppend(a: seq<Call>, b: seq<Call>)
    ensures StopCalls(a + b) == StopCalls(a) + StopCalls(b)
  {
    if a == [] {
      assert a + b == b;
    } else {
      StopCallsAppend(a[1..], b);
      assert (a + b)[1..] == a[1..] + b;
    }
  }

  /** 1 for a DELETE request that was answered with 200. */
  function StopAnswered(p: Phase, r: AppRequest): nat {
    if IsStopRequest(r) && p == Answered(200) then 1 else 0
  }

  /** As many stop callbacks more than `before` as DELETE requests were answered with 200. */
  ghost predicate StopsCounted(before: nat, steps: seq<DialRuns.Step>, s: Service) {
    |s.phases| == |steps| && StopCalls(s.now.calls) == before + Total(s.phases, steps, StopAnswered)
  }

  lemma MoveCountsStops(p: Progress, steps: seq<DialRuns.Step>, s: Service, i: nat, before: nat)
    requires Serial(p, steps, s) && StopsCounted(before, steps, s)
    ensures StopsCounted(before, steps, Move(s, steps, i))
  {
    if i < |steps| && !s.phases[i].Answered? {
      var r, answers := steps[i].request, steps[i].answers;
      var next := Move(s, steps, i);
      TotalChanges(s.phases, steps, StopAnswered, i, next.phases[i]);
      if !(s.phases[i].Arrived? && Asks(r)) {
        var admitted := s.phases[i].Asked? && s.phases[i].admitted;
        CarriedIsServed(p, steps, s, i, admitted);
        StopCallExactly(s.list, r, answers);
        StopCallsAppend(s.now.calls, Respond(s.list, r, answers).calls);
      }
    }
  }

  lemma {:induction false} InterleavingCountsStops(p: Progress, steps: seq<DialRuns.Step>, s: Service,
                                                  schedule: seq<nat>, before: nat)
    requires Serial(p, steps, s) && StopsCounted(before, steps, s)
    ensures StopsCounted(before, steps, Moves(s, steps, schedule))
    decreases |schedule|
  {
    if schedule != [] {
      MoveKeepsSerial(p, steps, s, schedule[0]);
      MoveCountsStops(p, steps, s, schedule[0], before);
      InterleavingCountsStops(p, steps, Move(s, steps, schedule[0]), schedule[1..], before);
    }
  }

  // ---------- The server ----------

  /** What a decision needs of the request, as the handlers find it. */
  ghost predicate IsAbout(d: Decision, info: Info) {
    && (d.DoStart? ==> d.sent == info.body)
    && (d.DoStatus? ==> d.legacy == info.legacy)
    && (d.DoStoreData? ==> d.text == DataSource(info.verb == HttpHead.POST, info))
  }

  lemma ChosenIsAbout(info: Info, admitted: bool)
    ensures IsAbout(Choose(Routed(info), admitted).decision, info)
  {
  }

  /** The critical section of a handler, or an answer without one. */
  method CarryOut(server: Server, d: Decision, info: Info, answers: Answers)
    returns (code: int, shown: Option<Document>)
    requires server.Valid() && !server.locked && IsAbout(d, info)
    modifies server, server.spine
    ensures server.Valid() && !server.locked && server.spine == old(server.spine)
    ensures Outcome(server.list, code, shown, server.Now())
         == DoneNow(old(server.list), d, answers, old(server.Now()))
  {
    shown := None;
    match d {
      case DoStart(name, _) =>
        code := server.HandleStart(name, info, answers);
      case DoStatus(name, _) =>
        code, shown := server.HandleStatus(name, info, answers);
      case DoStop(name) =>
        code := server.HandleStop(name, info, answers);
      case DoHide(name) =>
        code := server.HandleHide(name, info, answers);
      case DoStoreData(name, _) =>
        code := server.HandleDialData(name, info.verb == HttpHead.POST, info, answers);
      case Answer(status) =>
        server.SendHttpError(status, info, answers);
        code := status;
    }
  }

  /** The critical section of the question about host and origin. */
  method AskServer(server: Server, info: Info) returns (admitted: bool)
    requires server.Valid() && !server.locked
    modifies server
    ensures server.Valid() && !server.locked && server.spine == old(server.spine)
    ensures server.list == old(server.list)
    ensures var gate := GateFor(old(server.list), Routed(info));
            admitted == gate.admitted
            && server.Now() == old(server.Now()).(acquired := old(server.acquired) + gate.locks)
  {
    var host, origin := FindHeaders(info.headers);
    admitted := server.AdmittedOrNot(host, origin, NameOf(RouteOf(info.uri)));
  }

  /** The thread of visit `i` gets the mutex for its next section. */
  method Turn(server: Server, visits: seq<Visit>, phases: seq<Phase>, i: nat, ghost log: seq<nat>)
    returns (next: seq<Phase>, ghost longer: seq<nat>)
    requires server.Valid() && !server.locked && |phases| == |visits|
    modifies server, server.spine
    ensures server.Valid() && !server.locked && server.spine == old(server.spine)
    ensures Service(server.list, next, longer, server.Now())
         == Move(Service(old(server.list), phases, log, old(server.Now())), StepsOf(visits), i)
  {
    next, longer := phases, log;
    if i < |visits| && !phases[i].Answered? {
      var info := visits[i].info;
      if phases[i].Arrived? && Asks(Routed(info)) {
        var admitted := AskServer(server, info);
        next := phases[i := Asked(admitted)];
      } else {
        var admitted := phases[i].Asked? && phases[i].admitted;
        ChosenIsAbout(info, admitted);
        var code, _ := CarryOut(server, Choose(Routed(info), admitted).decision, info, visits[i].answers);
        next, longer := phases[i := Answered(code)], log + [i];
      }
    }
  }

  /** A server serves requests whose threads get the mutex in any order. Applications, answers, files,
      callbacks and acquisitions are those of the requests served one after the other, in the order of
      `log`, but for the acquisitions of the requests that have only asked. */
  method ServeAll(server: Server, visits: seq<Visit>, schedule: seq<nat>)
    returns (phases: seq<Phase>, ghost log: seq<nat>)
    requires server.Valid() && !server.locked
    modifies server, server.spine
    ensures server.Valid() && !server.locked && server.spine == old(server.spine)
    ensures Service(server.list, phases, log, server.Now())
         == Moves(Opened(old(server.list), |visits|, old(server.Now())), StepsOf(visits), schedule)
    ensures |phases| == |visits| && Logged(phases, log)
    ensures Reached(AfterRun(Progress(old(server.list), [], old(server.Now())), Picked(StepsOf(visits), log)),
                    CodesAt(phases, log), server.list, server.Now(), Total(phases, StepsOf(visits), PendingLocks))
    ensures forall i: nat :: i < |visits| && Turns(schedule, i) >= 2 ==> phases[i].Answered?
  {
    phases, log := seq(|visits|, _ => Arrived), [];
    var rest := schedule;
    ghost var steps := StepsOf(visits);
    ghost var p := Progress(server.list, [], server.Now());
    ghost var start := Opened(server.list, |visits|, server.Now());
    while rest != []
      invariant server.Valid() && !server.locked && server.spine == old(server.spine) && |phases| == |visits|
      invariant Moves(Service(server.list, phases, log, server.Now()), steps, rest) == Moves(start, steps, schedule)
      decreases |rest|
    {
      phases, log := Turn(server, visits, phases, rest[0], log);
      rest := rest[1..];
    }
    OpenedIsSerial(p.list, steps, p.now);
    InterleavingIsSerial(p, steps, start, schedule);
    AllServedIs(p, Picked(steps, log));
    assert [] + CodesAt(phases, log) == CodesAt(phases, log);
    forall i: nat | i < |visits| && Turns(schedule, i) >= 2
      ensures phases[i].Answered?
    {
      TwoTurnsAnswer(start, steps, schedule, i);
    }
  }

  /** Whatever a server is asked, and however the threads take turns: it has invoked as many stop
      callbacks more as it answered DELETE requests with 200, and each application has the body of its
      latest successful start as its payload. */
  method ServeLawfully(server: Server, visits: seq<Visit>, schedule: seq<nat>)
    returns (phases: seq<Phase>, ghost log: seq<nat>)
    requires server.Valid() && !server.locked
    modifies server, server.spine
    ensures server.Valid() && !server.locked && SameRegistry(old(server.list), server.list)
    ensures |phases| == |visits| && Logged(phases, log)
    ensures StopCalls(server.calls)
         == StopCalls(old(server.calls)) + Total(phases, StepsOf(visits), StopAnswered)
    ensures forall name: Text :: PayloadOf(server.list, name)
              == LatestStart(Effects(old(server.list), Picked(StepsOf(visits), log)), name,
                             PayloadOf(old(server.list), name))
  {
    ghost var apps, now, steps := server.list, server.Now(), StepsOf(visits);
    phases, log := ServeAll(server, visits, schedule);
    OpenedIsSerial(apps, steps, now);
    TotalOfArrived(|visits|, steps, StopAnswered);
    InterleavingCountsStops(Progress(apps, [], now), steps, Opened(apps, |visits|, now), schedule,
                            StopCalls(now.calls));
    RunKeepsRegistry(apps, Picked(steps, log));
    forall name: Text
      ensures PayloadOf(server.list, name)
           == LatestStart(Effects(apps, Picked(steps, log)), name, PayloadOf(apps, name))
    {
      PayloadIsLatestStart(apps, Picked(steps, log), name);
    }
  }
}
