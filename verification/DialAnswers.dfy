/** What the server answers to each request, in the terms of the request: its method, its headers, the
    bytes that were read of its body, and what the application says. */
module DialAnswers {
  import opened Bytes
  import opened Wrappers
  import opened HttpHead
  import opened UrlCodec
  import opened DialApps
  import opened DialUris
  import opened DialRuns

  // ---------- Applications and headers ----------

  predicate IsNamed(apps: seq<App>, name: Text) {
    exists app <- apps :: app.name == name
  }

  lemma NamedExactly(apps: seq<App>, name: Text)
    ensures Registered(apps, name) <==> IsNamed(apps, name)
  {
    IndexIsFirst(apps, name);
  }

  predicate HasHost(hs: seq<Header>) {
    exists h <- hs :: h.name == "Host" || h.name == "host"
  }

  predicate IsOrigin(h: Header) {
    h.name == "Origin" || h.name == "origin"
  }

  /** The last of the origin headers. */
  ghost predicate IsLastOrigin(hs: seq<Header>, i: nat) {
    i < |hs| && IsOrigin(hs[i]) && forall j :: i < j < |hs| ==> !IsOrigin(hs[j])
  }

  /** An application of that name admits the origin: it has no list, or one with a segment that ends
      the origin. */
  ghost predicate IsListed(apps: seq<App>, name: Text, origin: Text) {
    exists k: nat :: IsFirstNamed(apps, name, k) && (apps[k].cors == [] || SomeSegmentEnds(origin, apps[k].cors))
  }

  ghost predicate IsFirstNamed(apps: seq<App>, name: Text, k: nat) {
    k < |apps| && apps[k].name == name && forall j :: 0 <= j < k ==> apps[j].name != name
  }

  /** The request comes from a page that the application does not admit. */
  ghost predicate IsForeign(apps: seq<App>, hs: seq<Header>, name: Text) {
    exists i: nat ::
      IsLastOrigin(hs, i) && ("http" <= hs[i].value || "file" <= hs[i].value) && !IsListed(apps, name, hs[i].value)
  }

  /** The last of the headers with one of two names. */
  ghost predicate IsLastOf(hs: seq<Header>, name: Text, other: Text, i: nat) {
    && i < |hs| && (hs[i].name == name || hs[i].name == other)
    && forall j :: i < j < |hs| ==> hs[j].name != name && hs[j].name != other
  }

  lemma {:induction false} LastHeaderIs(hs: seq<Header>, name: Text, other: Text)
    ensures LastHeader(hs, name, other) == None <==> forall h <- hs :: h.name != name && h.name != other
    ensures forall i: nat :: IsLastOf(hs, name, other, i) ==> LastHeader(hs, name, other) == Some(hs[i].value)
  {
    if hs != [] {
      var front, last := hs[..|hs| - 1], hs[|hs| - 1];
      LastHeaderIs(front, name, other);
      assert hs == front + [last];
      forall i: nat | IsLastOf(hs, name, other, i)
        ensures LastHeader(hs, name, other) == Some(hs[i].value)
      {
        if i < |front| {
          assert IsLastOf(front, name, other, i);
        }
      }
    }
  }

  lemma {:induction false} SomeIsLast(hs: seq<Header>, name: Text, other: Text) returns (i: nat)
    requires exists h <- hs :: h.name == name || h.name == other
    ensures IsLastOf(hs, name, other, i)
  {
    var front, last := hs[..|hs| - 1], hs[|hs| - 1];
    assert hs == front + [last];
    if last.name == name || last.name == other {
      i := |front|;
    } else {
      i := SomeIsLast(front, name, other);
    }
  }

  lemma LastOriginIs(hs: seq<Header>)
    ensures LastHeader(hs, ORIGIN, ORIGIN_LOWER) == None <==> forall i: nat :: !IsLastOrigin(hs, i)
    ensures forall i: nat :: IsLastOrigin(hs, i) ==> LastHeader(hs, ORIGIN, ORIGIN_LOWER) == Some(hs[i].value)
  {
    LastHeaderIs(hs, ORIGIN, ORIGIN_LOWER);
    assert forall i: nat :: IsLastOf(hs, ORIGIN, ORIGIN_LOWER, i) <==> IsLastOrigin(hs, i);
    if LastHeader(hs, ORIGIN, ORIGIN_LOWER).Some? {
      var i := SomeIsLast(hs, ORIGIN, ORIGIN_LOWER);
      assert IsLastOrigin(hs, i);
    }
  }

  lemma HostIs(hs: seq<Header>)
    ensures LastHeader(hs, HOST, HOST_LOWER).Some? <==> HasHost(hs)
  {
    LastHeaderIs(hs, HOST, HOST_LOWER);
  }

  lemma ListedExactly(apps: seq<App>, name: Text, origin: Text)
    ensures IsListed(apps, name, origin) <==> Registered(apps, name) && Allows(apps[IndexOf(apps, name)].cors, origin)
  {
    IndexIsFirst(apps, name);
    if Registered(apps, name) {
      ListScanIsExact(origin, apps[IndexOf(apps, name)].cors);
      assert IsFirstNamed(apps, name, IndexOf(apps, name));
    }
    forall k: nat | IsFirstNamed(apps, name, k)
      ensures k == IndexOf(apps, name)
    {
      IndexIs(apps, name, k);
    }
  }

  /** The access check, in the terms of the headers. */
  lemma AdmittedExactly(apps: seq<App>, r: AppRequest)
    ensures GateFor(apps, r).admitted <==> HasHost(r.headers) && !IsForeign(apps, r.headers, NameOf(r.route))
  {
    var origin := LastHeader(r.headers, ORIGIN, ORIGIN_LOWER);
    HostIs(r.headers);
    LastOriginIs(r.headers);
    if origin.Some? {
      ListedExactly(apps, NameOf(r.route), origin.value);
      assert ChecksOrigin(origin.value) <==> "http" <= origin.value || "file" <= origin.value;
    }
  }

  /** The last origin header, if the request has a host header, is one that has to be looked up. */
  ghost predicate LooksUpOrigin(hs: seq<Header>) {
    && HasHost(hs)
    && exists i: nat :: IsLastOrigin(hs, i) && ("http" <= hs[i].value || "file" <= hs[i].value)
  }

  /** The mutex is taken at most twice for a request: for an origin that has to be looked up, if the
      request is a guarded one, and for a handler. */
  lemma LocksExactly(apps: seq<App>, r: AppRequest)
    ensures Locks(apps, r) == (if IsGuarded(r) && LooksUpOrigin(r.headers) then 1 else 0)
                            + (if Decide(apps, r).Answer? then 0 else 1)
  {
    var origin := LastHeader(r.headers, ORIGIN, ORIGIN_LOWER);
    HostIs(r.headers);
    LastOriginIs(r.headers);
    if origin.Some? {
      assert ChecksOrigin(origin.value) <==> "http" <= origin.value || "file" <= origin.value;
    }
    assert Choose(r, GateFor(apps, r).admitted).asked <==> IsGuarded(r);
  }

  // ---------- Refusals ----------

  ghost predicate IsAdmitted(apps: seq<App>, r: AppRequest) {
    HasHost(r.headers) && !IsForeign(apps, r.headers, NameOf(r.route))
  }

  /** An answer that changes nothing and calls nothing. */
  function Mere(apps: seq<App>, code: int): Effect {
    Effect(apps, code, None, [], None)
  }

  /** Stops, starts and preflight requests are guarded. */
  predicate IsGuarded(r: AppRequest) {
    || (r.route.RunRoute? && r.route.name != [] && r.verb == "DELETE")
    || (r.route.AppRoute? && r.verb == "POST")
    || IsPreflight(r)
  }

  predicate IsPreflight(r: AppRequest) {
    && r.verb == "OPTIONS"
    && (r.route.RunRoute? || r.route.AppRoute? || r.route.HideRoute? || (r.route.DataRoute? && r.local))
  }

  lemma GuardedDecision(r: AppRequest, admitted: bool)
    requires IsGuarded(r)
    ensures Choose(r, admitted).decision
         == if !admitted then Answer(403)
            else if r.verb == "OPTIONS" then Answer(204)
            else if r.verb == "DELETE" then DoStop(r.route.name) else DoStart(r.route.name, r.body)
  {
  }

  /** A guarded request is refused, with nothing changed and nothing called, exactly when it has no host
      header or its last origin header is a page that the application does not admit. A preflight
      request that is not refused is answered without content. */
  lemma RefusedExactly(apps: seq<App>, r: AppRequest, answers: Answers)
    requires IsGuarded(r)
    ensures var e := Respond(apps, r, answers);
            var refused := !HasHost(r.headers) || IsForeign(apps, r.headers, r.route.name);
            && (e.code == 403 <==> refused)
            && (refused ==> e == Mere(apps, 403))
            && (!refused && r.verb == "OPTIONS" ==> e == Mere(apps, 204))
  {
    AdmittedExactly(apps, r);
    GuardedDecision(r, GateFor(apps, r).admitted);
  }

  // ---------- Starting ----------

  predicate IsPrintableText(t: Text) {
    forall c <- t :: 32 <= c as int <= 126
  }

  lemma PrintableExactly(t: Text)
    ensures IsBadPayload(t) <==> !IsPrintableText(t)
  {
    assert forall c: byte :: IsBadByte(c) <==> !(32 <= c as int <= 126);
  }

  /** What a body read into the buffer of the start handler gets. */
  function StartBytes(sent: Text): Text {
    if |sent| <= 4354 then sent else sent[..4354]
  }

  /** What an effect leaves of an application. */
  ghost predicate IsLeft(e: Effect, name: Text, state: Status, payload: Option<Text>) {
    HasState(e.apps, name, state) && PayloadOf(e.apps, name) == payload
  }

  /** The one start callback, with these bytes. */
  predicate IsStarted(calls: seq<Call>, name: Text, body: Text) {
    |calls| == 1 && calls[0].StartCall? && calls[0].name == name && calls[0].body == body
  }

  ghost predicate StartRow(apps: seq<App>, e: Effect, name: Text, got: Text, status: Status) {
    var named, good := IsNamed(apps, name), |got| <= 4096 && IsPrintableText(got);
    && (e.code == 404 <==> !named)
    && (e.code == 413 <==> named && |got| > 4096)
    && (e.code == 400 <==> named && |got| <= 4096 && !good)
    && (e.code == 503 <==> named && good && status != Running)
    && (e.code == 201 <==> named && good && status == Running)
    && (e.code == 201 <==> IsStarted(e.calls, name, got) && IsLeft(e, name, Running, Some(got)))
    && (e.code == 503 ==> IsStarted(e.calls, name, got) && IsLeft(e, name, status, PayloadOf(apps, name)))
    && (e.code in {404, 413, 400} ==> e == Mere(apps, e.code))
    && e.shown == None && e.saved == None
  }

  lemma UpdatedIs(apps: seq<App>, app: App)
    requires Registered(apps, app.name)
    ensures HasState(Updated(apps, app), app.name, app.state)
    ensures PayloadOf(Updated(apps, app), app.name) == app.payload
  {
    UpdatedApp(apps, app);
  }

  lemma StartAnswers(apps: seq<App>, name: Text, sent: Text, answers: Answers)
    ensures StartRow(apps, Start(apps, name, Some(sent), answers), name, StartBytes(sent), answers.start)
  {
    var got := StartBytes(sent);
    NamedExactly(apps, name);
    PrintableExactly(got);
    assert Take(sent, BODY_SIZE) == got;
    if Registered(apps, name) {
      var app := apps[IndexOf(apps, name)];
      UpdatedIs(apps, app.(state := Running, payload := Some(got)));
      UpdatedIs(apps, app.(state := answers.start));
    }
  }

  /** An admitted start: 201 exactly when one start callback ran with the bytes that were read, and the
      application runs with them as its payload. That is so exactly for a registered application, at
      most 4096 bytes between 32 and 126, and a callback that says so. */
  lemma StartAnsweredExactly(apps: seq<App>, r: AppRequest, sent: Text, answers: Answers)
    requires r.route.AppRoute? && r.verb == "POST" && r.body == Some(sent) && IsAdmitted(apps, r)
    ensures StartRow(apps, Respond(apps, r, answers), r.route.name, StartBytes(sent), answers.start)
  {
    AdmittedExactly(apps, r);
    GuardedDecision(r, true);
    StartAnswers(apps, r.route.name, sent, answers);
  }

  // ---------- Stopping and hiding ----------

  /** An admitted stop: 200 exactly for a registered application that does not say it is stopped; a
      registered one is stopped afterwards in any case. */
  lemma StopAnsweredExactly(apps: seq<App>, r: AppRequest, answers: Answers)
    requires r.route.RunRoute? && r.route.name != [] && r.verb == "DELETE" && IsAdmitted(apps, r)
    ensures var e, name := Respond(apps, r, answers), r.route.name;
            && (e.code == 200 <==> IsNamed(apps, name) && answers.status != Stopped)
            && (e.code == 404 <==> !IsNamed(apps, name) || answers.status == Stopped)
            && (IsNamed(apps, name) ==> IsLeft(e, name, Stopped, PayloadOf(apps, name)))
            && e.calls == (if e.code == 200 then [StatusCall(name, answers.status), StopCall(name)]
                           else if IsNamed(apps, name) then [StatusCall(name, answers.status)] else [])
            && (!IsNamed(apps, name) ==> e == Mere(apps, 404))
  {
    var name := r.route.name;
    AdmittedExactly(apps, r);
    GuardedDecision(r, true);
    NamedExactly(apps, name);
    if Registered(apps, name) {
      UpdatedIs(apps, apps[IndexOf(apps, name)].(state := Stopped));
    }
  }

  /** A hide, for which host and origin do not count: 200 exactly for a registered application that runs
      or is hidden already and whose callback hides it; it is hidden then, and otherwise in the state
      that it says it is in. */
  lemma HideAnsweredExactly(apps: seq<App>, r: AppRequest, answers: Answers)
    requires r.route.HideRoute? && r.route.name != [] && r.verb == "POST"
    ensures var e, name := Respond(apps, r, answers), r.route.name;
            var asked := StatusCall(name, answers.status);
            && (e.code == 200 <==> IsNamed(apps, name) && answers.status in {Running, Hide} && answers.hide == Hide)
            && (e.code == 501 <==> IsNamed(apps, name) && answers.status in {Running, Hide} && answers.hide != Hide)
            && (e.code == 404 <==> !IsNamed(apps, name) || answers.status == Stopped)
            && (IsNamed(apps, name) ==>
                  IsLeft(e, name, if e.code == 200 then Hide else answers.status, PayloadOf(apps, name)))
            && e.calls == (if !IsNamed(apps, name) then [] else if answers.status == Stopped then [asked]
                           else [asked, HideCall(name, answers.hide)])
            && (!IsNamed(apps, name) ==> e == Mere(apps, 404))
  {
    var name := r.route.name;
    NamedExactly(apps, name);
    assert Decide(apps, r) == DoHide(name);
    if Registered(apps, name) {
      var app := apps[IndexOf(apps, name)];
      UpdatedIs(apps, app.(state := Hide));
      UpdatedIs(apps, app.(state := answers.status));
    }
  }

  // ---------- The status document ----------

  /** The document names the application and shows the state that the application says it is in, except
      that a client of an earlier version sees a hidden application as stopped. It has a link unless the
      application is shown as stopped. */
  lemma StatusAnsweredExactly(apps: seq<App>, r: AppRequest, answers: Answers)
    requires r.route.AppRoute? && r.verb == "GET"
    ensures var e, name := Respond(apps, r, answers), r.route.name;
            && (!IsNamed(apps, name) ==> e == Mere(apps, 404))
            && (IsNamed(apps, name) ==>
                  && e.code == 200 && e.calls == [StatusCall(name, answers.status)] && e.shown.Some?
                  && IsLeft(e, name, answers.status, PayloadOf(apps, name))
                  && e.shown.value.name == name && e.shown.value.allowStop == answers.canStop
                  && (e.shown.value.state == Running <==> answers.status == Running)
                  && (e.shown.value.state == Hide <==> answers.status == Hide && !r.legacy)
                  && (e.shown.value.state == Stopped <==>
                        answers.status == Stopped || (answers.status == Hide && r.legacy))
                  && (e.shown.value.link <==> e.shown.value.state != Stopped)
                  && |e.shown.value.data| <= 8192)
  {
    var name := r.route.name;
    NamedExactly(apps, name);
    assert Decide(apps, r) == DoStatus(name, r.legacy);
    if Registered(apps, name) {
      UpdatedIs(apps, apps[IndexOf(apps, name)].(state := answers.status));
    }
  }

  // ---------- Additional data ----------

  /** The text of a data request: the body of a POST, and otherwise the query. */
  ghost function DataSent(r: AppRequest): Option<Text> {
    if r.verb == "POST" then r.body else if r.query == None then Some([]) else r.query
  }

  function DataBytes(sent: Text): Text {
    if |sent| <= 4096 then sent else sent[..4096]
  }

  /** A data request from the local host, of any method but OPTIONS: its first 4096 bytes count. */
  lemma DataAnsweredExactly(apps: seq<App>, r: AppRequest, answers: Answers)
    requires r.route.DataRoute? && r.local && r.verb != "OPTIONS" && DataSent(r).Some?
    ensures var e, name, got := Respond(apps, r, answers), r.route.name, DataBytes(DataSent(r).value);
            && (e.code == 404 <==> !IsNamed(apps, name))
            && (e.code == 400 <==> IsNamed(apps, name) && !IsPrintableText(got))
            && (e.code == 200 <==> IsNamed(apps, name) && IsPrintableText(got))
            && (e.code != 200 ==> e == Mere(apps, e.code))
            && (e.code == 200 ==> e.saved.Some? && e.saved.value.name == name)
            && e.calls == []
  {
    var got := DataBytes(DataSent(r).value);
    NamedExactly(apps, r.route.name);
    PrintableExactly(got);
    assert DataSent(r) == DataText(r) && Take(DataSent(r).value, DATA_MAX_PAYLOAD) == got;
    assert Decide(apps, r) == DoStoreData(r.route.name, DataText(r));
  }

  // ---------- Everything else ----------

  /** The remaining requests change nothing and call nothing: 501 for other methods, 403 for data
      requests from elsewhere, 404 for other URIs. */
  lemma OthersAnswered(apps: seq<App>, r: AppRequest, answers: Answers)
    ensures r.route.RunRoute? && r.verb != "OPTIONS" && (r.route.name == [] || r.verb != "DELETE") ==>
              Respond(apps, r, answers) == Mere(apps, 501)
    ensures r.route.AppRoute? && r.verb !in ["OPTIONS", "POST", "GET"] ==> Respond(apps, r, answers) == Mere(apps, 501)
    ensures r.route.HideRoute? && r.verb != "OPTIONS" && (r.route.name == [] || r.verb != "POST") ==>
              Respond(apps, r, answers) == Mere(apps, 501)
    ensures r.route.DataRoute? && !r.local ==> Respond(apps, r, answers) == Mere(apps, 403)
    ensures r.route.NoRoute? ==> Respond(apps, r, answers) == Mere(apps, 404)
  {
  }
}
