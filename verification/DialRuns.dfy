/** What holds over every sequence of requests and every behaviour of the application callbacks. */
module DialRuns {
  import opened Bytes
  import opened Wrappers
  import opened HttpHead
  import opened DialApps

  datatype Step = Step(request: AppRequest, answers: Answers)

  /** The effects of the requests, one after the other. */
  ghost function Effects(apps: seq<App>, steps: seq<Step>): seq<Effect>
    decreases |steps|
  {
    if steps == [] then []
    else
      var e := Respond(apps, steps[0].request, steps[0].answers);
      [e] + Effects(e.apps, steps[1..])
  }

  ghost function Final(apps: seq<App>, steps: seq<Step>): seq<App>
    decreases |steps|
  {
    if steps == [] then apps
    else Final(Respond(apps, steps[0].request, steps[0].answers).apps, steps[1..])
  }

  // ---------- The list ----------

  /** Same applications in the same order, with the same origin lists. */
  ghost predicate SameRegistry(before: seq<App>, after: seq<App>) {
    && |before| == |after|
    && forall i :: 0 <= i < |before| ==> after[i].name == before[i].name && after[i].cors == before[i].cors
  }

  /** The application a decision is about. */
  function Named(d: Decision): Text {
    if d.Answer? then [] else d.name
  }

  /** At most the first application of that name differs, and not in name or origin list. */
  ghost predicate OnlyChanges(before: seq<App>, after: seq<App>, name: Text) {
    && SameRegistry(before, after)
    && forall i :: 0 <= i < |before| && i != IndexOf(before, name) ==> after[i] == before[i]
  }

  lemma UpdatedOnlyChanges(apps: seq<App>, app: App)
    requires Registered(apps, app.name) && app.cors == apps[IndexOf(apps, app.name)].cors
    ensures OnlyChanges(apps, Updated(apps, app), app.name)
  {
  }

  /** The application after a decision about it, if the list changed at all. */
  lemma PerformUpdates(apps: seq<App>, d: Decision, answers: Answers) returns (app: App)
    ensures var e := Perform(apps, d, answers);
            e.apps == apps
            || (!d.Answer? && Registered(apps, d.name) && app.name == d.name
                && app.cors == apps[IndexOf(apps, d.name)].cors && e.apps == Updated(apps, app))
  {
    var e := Perform(apps, d, answers);
    app := if !d.Answer? && Registered(apps, d.name) then e.apps[IndexOf(apps, d.name)]
           else App([], Stopped, None, [], []);
  }

  lemma DecisionIsConfined(apps: seq<App>, d: Decision, answers: Answers)
    ensures OnlyChanges(apps, Perform(apps, d, answers).apps, Named(d))
  {
    var app := PerformUpdates(apps, d, answers);
    if !d.Answer? && Registered(apps, d.name) && app.name == d.name && app.cors == apps[IndexOf(apps, d.name)].cors {
      UpdatedOnlyChanges(apps, app);
    }
  }

  lemma DecisionIsAboutRoute(r: AppRequest, admitted: bool)
    ensures var d := Choose(r, admitted).decision; !d.Answer? ==> Named(d) == NameOf(r.route)
  {
  }

  /** A request changes at most the application that it names. */
  lemma RequestIsConfined(apps: seq<App>, r: AppRequest, answers: Answers)
    ensures OnlyChanges(apps, Respond(apps, r, answers).apps, Named(Decide(apps, r)))
    ensures !Decide(apps, r).Answer? ==> Named(Decide(apps, r)) == NameOf(r.route)
  {
    DecisionIsConfined(apps, Decide(apps, r), answers);
    DecisionIsAboutRoute(r, GateFor(apps, r).admitted);
  }

  lemma {:induction false} RunKeepsRegistry(apps: seq<App>, steps: seq<Step>)
    ensures SameRegistry(apps, Final(apps, steps))
    decreases |steps|
  {
    if steps != [] {
      RequestIsConfined(apps, steps[0].request, steps[0].answers);
      RunKeepsRegistry(Respond(apps, steps[0].request, steps[0].answers).apps, steps[1..]);
    }
  }

  // ---------- Stopping and hiding ----------

  predicate IsStopRequest(r: AppRequest) {
    r.route.RunRoute? && r.verb == DELETE
  }

  predicate IsHideRequest(r: AppRequest) {
    r.route.HideRoute? && r.verb == POST
  }

  ghost function StopCalls(calls: seq<Call>): nat {
    if calls == [] then 0 else (if calls[0].StopCall? then 1 else 0) + StopCalls(calls[1..])
  }

  lemma DecidedStop(apps: seq<App>, r: AppRequest)
    ensures var d := Decide(apps, r);
            && (d.DoStop? ==> IsStopRequest(r) && d.name == r.route.name)
            && (IsStopRequest(r) ==> d.DoStop? || (d.Answer? && d.code != 200))
  {
  }

  lemma StopCallsOfShortLists(a: Call, b: Call)
    ensures StopCalls([]) == 0 && StopCalls([a]) == (if a.StopCall? then 1 else 0)
    ensures StopCalls([a, b]) == StopCalls([a]) + StopCalls([b])
  {
    assert [a, b][1..] == [b] && [a][1..] == [];
  }

  lemma PerformedStopCalls(apps: seq<App>, d: Decision, answers: Answers)
    ensures var e := Perform(apps, d, answers);
            StopCalls(e.calls) == (if d.DoStop? && e.code == 200 then 1 else 0)
    ensures var e := Perform(apps, d, answers);
            d.DoStop? && e.code == 200 ==>
              e.calls == [StatusCall(d.name, answers.status), StopCall(d.name)] && answers.status != Stopped
  {
    var calls := Perform(apps, d, answers).calls;
    if |calls| == 1 {
      StopCallsOfShortLists(calls[0], calls[0]);
      assert calls == [calls[0]];
    } else if |calls| == 2 {
      StopCallsOfShortLists(calls[0], calls[1]);
      StopCallsOfShortLists(calls[1], calls[1]);
      assert calls == [calls[0], calls[1]];
    }
  }

  /** The stop callback runs exactly for a DELETE that is answered 200, right after the status
      callback said that the application is not stopped. */
  lemma StopCallExactly(apps: seq<App>, r: AppRequest, answers: Answers)
    ensures var e := Respond(apps, r, answers);
            StopCalls(e.calls) == (if IsStopRequest(r) && e.code == 200 then 1 else 0)
    ensures var e := Respond(apps, r, answers);
            IsStopRequest(r) && e.code == 200 ==>
              && e.calls == [StatusCall(r.route.name, answers.status), StopCall(r.route.name)]
              && answers.status != Stopped
  {
    DecidedStop(apps, r);
    PerformedStopCalls(apps, Decide(apps, r), answers);
  }

  ghost function AllStopCalls(effects: seq<Effect>): nat {
    if effects == [] then 0 else StopCalls(effects[0].calls) + AllStopCalls(effects[1..])
  }

  ghost function StopsAnswered200(apps: seq<App>, steps: seq<Step>): nat
    decreases |steps|
  {
    if steps == [] then 0
    else
      var e := Respond(apps, steps[0].request, steps[0].answers);
      (if IsStopRequest(steps[0].request) && e.code == 200 then 1 else 0) + StopsAnswered200(e.apps, steps[1..])
  }

  /** Over a whole run: as many stop callbacks as DELETE requests answered 200. */
  lemma {:induction false} StopCallsInRun(apps: seq<App>, steps: seq<Step>)
    ensures AllStopCalls(Effects(apps, steps)) == StopsAnswered200(apps, steps)
    decreases |steps|
  {
    if steps != [] {
      var e := Respond(apps, steps[0].request, steps[0].answers);
      StopCallExactly(apps, steps[0].request, steps[0].answers);
      StopCallsInRun(e.apps, steps[1..]);
      assert Effects(apps, steps)[1..] == Effects(e.apps, steps[1..]);
    }
  }

  ghost predicate HasState(apps: seq<App>, name: Text, state: Status) {
    Registered(apps, name) && apps[IndexOf(apps, name)].state == state
  }

  lemma UpdatedApp(apps: seq<App>, app: App)
    requires Registered(apps, app.name)
    ensures IndexOf(Updated(apps, app), app.name) == IndexOf(apps, app.name)
    ensures Registered(Updated(apps, app), app.name)
    ensures Updated(apps, app)[IndexOf(apps, app.name)] == app
  {
    IndexIsFirst(apps, app.name);
    IndexIs(Updated(apps, app), app.name, IndexOf(apps, app.name));
  }

  lemma DecidedHide(apps: seq<App>, r: AppRequest)
    requires IsHideRequest(r)
    ensures var d := Decide(apps, r);
            (d.DoHide? && d.name == r.route.name) || (d.Answer? && d.code != 200)
  {
  }

  /** The state that a 200 to a stop or a hide request leaves behind. */
  lemma StateAfterSuccess(apps: seq<App>, r: AppRequest, answers: Answers)
    requires Respond(apps, r, answers).code == 200
    ensures IsStopRequest(r) ==> HasState(Respond(apps, r, answers).apps, r.route.name, Stopped)
    ensures IsHideRequest(r) ==> HasState(Respond(apps, r, answers).apps, r.route.name, Hide)
  {
    if IsStopRequest(r) {
      DecidedStop(apps, r);
      var name := r.route.name;
      UpdatedApp(apps, apps[IndexOf(apps, name)].(state := Stopped));
    } else if IsHideRequest(r) {
      DecidedHide(apps, r);
      var name := r.route.name;
      UpdatedApp(apps, apps[IndexOf(apps, name)].(state := Hide));
    }
  }

  // ---------- Payloads and relaunch ----------

  /** The payload of the application with that name, once it is initialised. */
  ghost function PayloadOf(apps: seq<App>, name: Text): Option<Text> {
    if Registered(apps, name) then apps[IndexOf(apps, name)].payload else None
  }

  /** The body of a start request that was answered 201. */
  function Started(e: Effect, name: Text): Option<Text> {
    if e.code == 201 && |e.calls| == 1 && e.calls[0].StartCall? && e.calls[0].name == name
    then Some(e.calls[0].body) else None
  }

  lemma UpdatedPayload(apps: seq<App>, app: App, name: Text)
    requires Registered(apps, app.name)
    ensures PayloadOf(Updated(apps, app), name) == if name == app.name then app.payload else PayloadOf(apps, name)
  {
    UpdatedApp(apps, app);
    if name != app.name {
      IndexIsFirst(apps, name);
      IndexIs(Updated(apps, app), name, IndexOf(apps, name));
    }
  }

  lemma StartPayload(apps: seq<App>, d: Decision, answers: Answers, name: Text)
    requires d.DoStart?
    ensures var e := Perform(apps, d, answers);
            PayloadOf(e.apps, name) == if Started(e, name).Some? then Started(e, name) else PayloadOf(apps, name)
  {
    var e := Perform(apps, d, answers);
    if e.calls != [] {
      var app := apps[IndexOf(apps, d.name)];
      var body := e.calls[0].body;
      UpdatedPayload(apps, app.(state := Running, payload := Some(body)), name);
      UpdatedPayload(apps, app.(state := answers.start), name);
    }
  }

  lemma OtherPayload(apps: seq<App>, d: Decision, answers: Answers, name: Text)
    requires !d.DoStart? && (d.Answer? ==> d.code != 201)
    ensures var e := Perform(apps, d, answers);
            Started(e, name) == None && PayloadOf(e.apps, name) == PayloadOf(apps, name)
  {
    var e := Perform(apps, d, answers);
    if !d.Answer? && Registered(apps, d.name) {
      var app := PerformUpdates(apps, d, answers);
      var old' := apps[IndexOf(apps, d.name)];
      if e.apps != apps {
        UpdatedApp(apps, app);
        assert app.payload == old'.payload;
        UpdatedPayload(apps, app, name);
      }
    }
  }

  lemma PayloadStep(apps: seq<App>, r: AppRequest, answers: Answers, name: Text)
    ensures var e := Respond(apps, r, answers);
            PayloadOf(e.apps, name) == if Started(e, name).Some? then Started(e, name) else PayloadOf(apps, name)
  {
    var d := Decide(apps, r);
    if d.DoStart? {
      StartPayload(apps, d, answers, name);
    } else {
      assert d.Answer? ==> d.code != 201;
      OtherPayload(apps, d, answers, name);
    }
  }

  /** The body of the latest start answered 201, or what it was before the run. */
  ghost function LatestStart(effects: seq<Effect>, name: Text, before: Option<Text>): Option<Text> {
    if effects == [] then before
    else LatestStart(effects[1..], name, if Started(effects[0], name).Some? then Started(effects[0], name) else before)
  }

  /** The stored payload is the body of the latest start that succeeded, whatever happened since. */
  lemma {:induction false} PayloadIsLatestStart(apps: seq<App>, steps: seq<Step>, name: Text)
    ensures PayloadOf(Final(apps, steps), name) == LatestStart(Effects(apps, steps), name, PayloadOf(apps, name))
    decreases |steps|
  {
    if steps != [] {
      var e := Respond(apps, steps[0].request, steps[0].answers);
      PayloadStep(apps, steps[0].request, steps[0].answers, name);
      PayloadIsLatestStart(e.apps, steps[1..], name);
      assert Effects(apps, steps)[1..] == Effects(e.apps, steps[1..]);
    }
  }

  lemma RelaunchFromPayload(apps: seq<App>, d: Decision, answers: Answers, c: Call)
    requires c in Perform(apps, d, answers).calls && c.StartCall?
    ensures c.relaunch == if PayloadOf(apps, c.name).Some? then Some(c.body != PayloadOf(apps, c.name).value) else None
  {
  }

  /** After any run in which the application was started once, the next start callback is told to
      relaunch exactly when its body differs from that of the latest successful start. */
  lemma RelaunchIsExact(apps: seq<App>, steps: seq<Step>, r: AppRequest, answers: Answers, c: Call)
    requires c in Respond(Final(apps, steps), r, answers).calls && c.StartCall?
    ensures var last := LatestStart(Effects(apps, steps), c.name, PayloadOf(apps, c.name));
            last.Some? ==> c.relaunch == Some(c.body != last.value)
  {
    var now := Final(apps, steps);
    RelaunchFromPayload(now, Decide(now, r), answers, c);
    PayloadIsLatestStart(apps, steps, c.name);
  }
}
