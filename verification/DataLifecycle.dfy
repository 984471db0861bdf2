/** The life of additional data: posted by the application, shown in the status document, kept in a
    file, and read again when the application is registered after a restart. */
module DataLifecycle {
  import opened Bytes
  import opened Wrappers
  import opened HttpHead
  import opened UriPath
  import opened UrlLib
  import opened UrlCodec
  import opened DialData
  import opened DialApps
  import opened DialRuns
  import opened DialAnswers
  import opened DialServer

  /** The files after a run of requests. */
  ghost function FilesAfter(files: Files, effects: seq<Effect>): Files
    decreases |effects|
  {
    if effects == [] then files else FilesAfter(WithSaved(files, effects[0].saved), effects[1..])
  }

  function FileOf(files: Files, name: Text): Option<Text> {
    if name in files then Some(files[name]) else None
  }

  ghost function DataOf(apps: seq<App>, name: Text): Option<seq<Pair>> {
    if Registered(apps, name) then Some(apps[IndexOf(apps, name)].data) else None
  }

  /** The requests that replace the data of a registered application: those of its data URI from the
      local host, except for OPTIONS, with a text that passes the checks. */
  ghost predicate Rewrites(r: AppRequest, name: Text) {
    && r.route == DataRoute(name) && r.local && r.verb != "OPTIONS"
    && DataSent(r).Some? && IsPrintableText(DataBytes(DataSent(r).value))
  }

  ghost function Rewritten(r: AppRequest, memory: Memory): seq<Pair>
    requires DataSent(r).Some?
  {
    ParsedParams(DataBytes(DataSent(r).value), memory)
  }

  /** What a request leaves: new data and a file with it, or both as they were. */
  ghost predicate Leaves(e: Effect, apps: seq<App>, name: Text, data: Option<seq<Pair>>) {
    && DataOf(e.apps, name) == (if data.Some? then data else DataOf(apps, name))
    && (if data.Some? then e.saved == Some(Saved(name, Printed(data.value)))
        else e.saved.Some? ==> e.saved.value.name != name)
  }

  lemma UpdatedData(apps: seq<App>, app: App, name: Text)
    requires Registered(apps, app.name)
    ensures DataOf(Updated(apps, app), name) == if name == app.name then Some(app.data) else DataOf(apps, name)
  {
    UpdatedApp(apps, app);
    if name != app.name {
      IndexIsFirst(apps, name);
      IndexIs(Updated(apps, app), name, IndexOf(apps, name));
    }
  }

  lemma StoringLeaves(apps: seq<App>, d: Decision, answers: Answers, name: Text)
    requires Registered(apps, name) && d.DoStoreData?
    ensures var rewrites := d.name == name && d.text.Some? && IsPrintableText(DataBytes(d.text.value));
            Leaves(Perform(apps, d, answers), apps, name,
                   if rewrites then Some(ParsedParams(DataBytes(d.text.value), answers.memory)) else None)
  {
    if Registered(apps, d.name) && d.text.Some? {
      var data := ParsedParams(DataBytes(d.text.value), answers.memory);
      PrintableExactly(DataBytes(d.text.value));
      assert DataBytes(d.text.value) == Take(d.text.value, DATA_MAX_PAYLOAD);
      UpdatedData(apps, apps[IndexOf(apps, d.name)].(data := data), name);
    }
  }

  lemma OthersLeave(apps: seq<App>, d: Decision, answers: Answers, name: Text)
    requires !d.DoStoreData?
    ensures Leaves(Perform(apps, d, answers), apps, name, None)
  {
    var app := PerformUpdates(apps, d, answers);
    var e := Perform(apps, d, answers);
    if e.apps != apps {
      UpdatedApp(apps, app);
      assert app.data == apps[IndexOf(apps, d.name)].data;
      UpdatedData(apps, app, name);
    }
  }

  /** A request replaces the data of the application, and its file, or neither of them. */
  lemma RequestLeaves(apps: seq<App>, r: AppRequest, answers: Answers, name: Text)
    requires Registered(apps, name)
    ensures Leaves(Respond(apps, r, answers), apps, name,
                   if Rewrites(r, name) then Some(Rewritten(r, answers.memory)) else None)
  {
    var d := Decide(apps, r);
    assert d.DoStoreData? <==> r.route.DataRoute? && r.local && r.verb != OPTIONS;
    if d.DoStoreData? {
      assert d == DoStoreData(r.route.name, DataSent(r));
      StoringLeaves(apps, d, answers, name);
    } else {
      OthersLeave(apps, d, answers, name);
    }
  }

  /** The data of the latest request that replaced it. */
  ghost function LatestData(steps: seq<DialRuns.Step>, name: Text, before: Option<seq<Pair>>): Option<seq<Pair>> {
    if steps == [] then before
    else
      var r := steps[0].request;
      LatestData(steps[1..], name, if Rewrites(r, name) then Some(Rewritten(r, steps[0].answers.memory)) else before)
  }

  ghost predicate NeverRewritten(steps: seq<DialRuns.Step>, name: Text) {
    forall step <- steps :: !Rewrites(step.request, name)
  }

  /** The data that stays when nobody replaces it. */
  lemma {:induction false} LatestDataOfNone(steps: seq<DialRuns.Step>, name: Text, before: Option<seq<Pair>>)
    requires NeverRewritten(steps, name)
    ensures LatestData(steps, name, before) == before
  {
    if steps != [] {
      assert steps[0] in steps && forall step <- steps[1..] :: step in steps;
      LatestDataOfNone(steps[1..], name, before);
    }
  }

  ghost predicate InStep(apps: seq<App>, files: Files, name: Text, data: Option<seq<Pair>>) {
    data.Some? ==> DataOf(apps, name) == data && FileOf(files, name) == Some(Printed(data.value))
  }

  /** After every run of requests the application has the data of the latest request that replaced it,
      and its file holds the same. */
  lemma {:induction false} DataIsLatestWrite(apps: seq<App>, files: Files, steps: seq<DialRuns.Step>, name: Text,
                                            data: Option<seq<Pair>>)
    requires Registered(apps, name) && InStep(apps, files, name, data)
    ensures InStep(Final(apps, steps), FilesAfter(files, Effects(apps, steps)), name, LatestData(steps, name, data))
    decreases |steps|
  {
    if steps != [] {
      var r, answers := steps[0].request, steps[0].answers;
      var e := Respond(apps, r, answers);
      RequestLeaves(apps, r, answers, name);
      var now := if Rewrites(r, name) then Some(Rewritten(r, answers.memory)) else data;
      assert DataOf(e.apps, name).Some?;
      DataIsLatestWrite(e.apps, WithSaved(files, e.saved), steps[1..], name, now);
      assert Effects(apps, steps)[1..] == Effects(e.apps, steps[1..]);
    }
  }

  /** A request of the application itself with these pairs: in the body of a POST, or as the query of
      another method. */
  ghost predicate Posts(r: AppRequest, name: Text, ps: seq<Pair>) {
    && r.route == DataRoute(name) && r.local && r.verb != "OPTIONS"
    && AllPostable(ps) && (ps != [] ==> ps[0].key.text[0] != '?')
    && DataSent(r) == Some(QueryText(ps)) && |QueryText(ps)| <= 4096 && IsPrintableText(QueryText(ps))
  }

  lemma PostIsStored(apps: seq<App>, r: AppRequest, answers: Answers, name: Text, ps: seq<Pair>)
    requires Registered(apps, name) && Posts(r, name, ps)
    ensures var e := Respond(apps, r, answers);
            && e.code == 200 && e.saved == Some(Saved(name, Printed(Reverse(ps))))
            && e.apps == Updated(apps, apps[IndexOf(apps, name)].(data := Reverse(ps)))
  {
    assert Decide(apps, r) == DoStoreData(name, DataSent(r));
    PrintableExactly(QueryText(ps));
    assert Take(QueryText(ps), DATA_MAX_PAYLOAD) == QueryText(ps);
    PostThenReload(ps, answers.memory, []);
  }

  /** Pairs that were posted are what the application has when it is registered with a new server, in
      the order of the query, unless one of the requests since then replaced them; in the running
      server the order is reversed. */
  lemma PostSurvivesRestart(apps: seq<App>, files: Files, r: AppRequest, answers: Answers, name: Text, ps: seq<Pair>,
                            steps: seq<DialRuns.Step>, cors: Option<Text>, residue: Text)
    requires Registered(apps, name) && Posts(r, name, ps) && NeverRewritten(steps, name)
    ensures var e := Respond(apps, r, answers);
            && e.code == 200 && DataOf(Final(e.apps, steps), name) == Some(Reverse(ps))
            && NewApp(name, cors, FilesAfter(WithSaved(files, e.saved), Effects(e.apps, steps)), residue).data == ps
  {
    var e := Respond(apps, r, answers);
    PostIsStored(apps, r, answers, name, ps);
    UpdatedData(apps, apps[IndexOf(apps, name)].(data := Reverse(ps)), name);
    DataIsLatestWrite(e.apps, WithSaved(files, e.saved), steps, name, Some(Reverse(ps)));
    LatestDataOfNone(steps, name, Some(Reverse(ps)));
    PostThenReload(ps, answers.memory, residue);
  }

  /** Asking for the data from the local host deletes it, and empties the file. */
  lemma LocalGetClearsData(apps: seq<App>, r: AppRequest, answers: Answers, name: Text)
    requires Registered(apps, name) && r.route == DataRoute(name) && r.local && r.verb == GET && r.query == None
    ensures var e := Respond(apps, r, answers);
            e.code == 200 && DataOf(e.apps, name) == Some([]) && e.saved == Some(Saved(name, []))
  {
    assert Decide(apps, r) == DoStoreData(name, Some([])) && Take([], DATA_MAX_PAYLOAD) == [];
    RequestLeaves(apps, r, answers, name);
  }

  // ---------- In the status document ----------

  /** Bytes that URL-encoding writes. */
  predicate IsCoded(c: byte) {
    UrlSafe(c) || c == '+' || c == '%'
  }

  lemma EncodedIsCoded(s: Text)
    ensures forall c <- UrlEncoded(s) :: IsCoded(c)
    ensures NulFree(UrlEncoded(s))
  {
    EncodedBytes(s, UrlSafe, false, true);
  }

  /** A pair before its strings are URL-encoded. Encoded, each fits the file. */
  datatype Entry = Entry(key: Text, value: Text) {

    predicate Valid() {
      && key != [] && NulFree(key) && |UrlEncoded(key)| <= WORD_MAX
      && value != [] && NulFree(value) && |UrlEncoded(value)| <= WORD_MAX
    }

    function Encoded(): Pair {
      Pair(Set(UrlEncoded(key)), Set(UrlEncoded(value)))
    }

    /** What the document should show. */
    function Shown(): Text {
      "    <" + XmlText(key) + ">" + XmlText(value) + "</" + XmlText(key) + ">"
    }
  }

  predicate AllValid(es: seq<Entry>) {
    es == [] || (es[0].Valid() && AllValid(es[1..]))
  }

  function AllEncoded(es: seq<Entry>): seq<Pair> {
    if es == [] then [] else [es[0].Encoded()] + AllEncoded(es[1..])
  }

  function AllShown(es: seq<Entry>): Text {
    if es == [] then [] else es[0].Shown() + AllShown(es[1..])
  }

  /** A pair of strings that were URL-encoded stands in the status document in full, XML-encoded. */
  lemma EncodedPairIsShownWhole(e: Entry)
    requires NulFree(e.key) && NulFree(e.value)
    ensures Element(e.Encoded()) == e.Shown()
  {
    EncodedParameterIsShownWhole(e.key);
    EncodedParameterIsShownWhole(e.value);
    EncodedIsCoded(e.key);
    EncodedIsCoded(e.value);
    NulFreeIsWhole(UrlEncoded(e.key));
    NulFreeIsWhole(UrlEncoded(e.value));
  }

  lemma {:induction false} EncodedPairsAreShown(es: seq<Entry>)
    requires AllValid(es)
    ensures Elements(AllEncoded(es)) == AllShown(es)
  {
    if es != [] {
      EncodedPairIsShownWhole(es[0]);
      EncodedPairsAreShown(es[1..]);
      assert AllEncoded(es)[1..] == AllEncoded(es[1..]);
    }
  }

  lemma EncodedIsPostable(e: Entry)
    requires e.Valid()
    ensures Storable(e.Encoded()) && Postable(e.Encoded())
    ensures !IsBadPayload(QueryItem(e.Encoded())) && QueryItem(e.Encoded())[0] != '?'
  {
    var k, v := UrlEncoded(e.key), UrlEncoded(e.value);
    EncodedIsCoded(e.key);
    EncodedIsCoded(e.value);
    EncodedSizeBound(e.key);
    EncodedSizeBound(e.value);
    CodedIsPostable(k, v);
    assert QueryItem(e.Encoded()) == k + ['='] + v;
  }

  lemma CodedIsPostable(k: Text, v: Text)
    requires (forall c <- k :: IsCoded(c)) && (forall c <- v :: IsCoded(c))
    requires 0 < |k| <= WORD_MAX && 0 < |v| <= WORD_MAX
    ensures Storable(Pair(Set(k), Set(v))) && Postable(Pair(Set(k), Set(v)))
    ensures !IsBadPayload(k + ['='] + v) && (k + ['='] + v)[0] != '?'
  {
    CodedIsPlain(k);
    CodedIsPlain(v);
    assert k[0] in k;
  }

  lemma CodedIsPlain(t: Text)
    requires forall c <- t :: IsCoded(c)
    ensures '&' !in t && '=' !in t && '?' !in t && !IsBadPayload(t) && forall c <- t :: c !in WHITE
  {
  }

  lemma {:induction false} EncodedArePostable(es: seq<Entry>)
    requires AllValid(es)
    ensures AllPostable(AllEncoded(es)) && !IsBadPayload(QueryText(AllEncoded(es)))
    ensures es != [] ==> es[0].Encoded().key.text[0] != '?'
  {
    if es != [] {
      EncodedIsPostable(es[0]);
      EncodedArePostable(es[1..]);
      assert AllEncoded(es)[1..] == AllEncoded(es[1..]) && AllEncoded(es)[0] == es[0].Encoded();
    }
  }

  lemma {:induction false} EncodedAppended(es: seq<Entry>, e: Entry)
    ensures AllEncoded(es + [e]) == AllEncoded(es) + [e.Encoded()]
    ensures AllValid(es) && e.Valid() ==> AllValid(es + [e])
  {
    if es == [] {
      assert AllEncoded([e][1..]) == [] && AllValid([e][1..]) && es + [e] == [e];
    } else {
      EncodedAppended(es[1..], e);
      assert (es + [e])[1..] == es[1..] + [e];
    }
  }

  lemma {:induction false} EncodedReverse(es: seq<Entry>)
    ensures AllEncoded(Reverse(es)) == Reverse(AllEncoded(es))
    ensures AllValid(es) ==> AllValid(Reverse(es))
  {
    if es != [] {
      EncodedReverse(es[1..]);
      EncodedAppended(Reverse(es[1..]), es[0]);
      assert AllEncoded(es)[1..] == AllEncoded(es[1..]);
    }
  }

  /** Strings that an application posts URL-encoded stand in the next status document XML-encoded,
      the last pair first; the document shows them whole exactly when they fit its buffer. */
  lemma PostIsShown(apps: seq<App>, r: AppRequest, answers: Answers, name: Text, es: seq<Entry>, get: AppRequest,
                    later: Answers)
    requires Registered(apps, name) && AllValid(es) && |PostedText(es)| <= 4096
    requires r.route == DataRoute(name) && r.local && r.verb == POST && r.body == Some(PostedText(es))
    requires get.route == AppRoute(name) && get.verb == GET
    ensures var e := Respond(Respond(apps, r, answers).apps, get, later);
            e.code == 200 && e.shown.Some?
            && e.shown.value.data == Take(AllShown(Reverse(es)), 8192)
            && (e.shown.value.data == AllShown(Reverse(es)) <==> |AllShown(Reverse(es))| <= 8192)
  {
    EncodedArePostable(es);
    PostIsStored(apps, r, answers, name, AllEncoded(es));
    EncodedReverse(es);
    EncodedPairsAreShown(Reverse(es));
    StatusShowsData(apps, apps[IndexOf(apps, name)].(data := Reverse(AllEncoded(es))), get, later);
  }

  lemma StatusShowsData(apps: seq<App>, app: App, get: AppRequest, answers: Answers)
    requires Registered(apps, app.name) && get.route == AppRoute(app.name) && get.verb == GET
    ensures var e := Respond(Updated(apps, app), get, answers);
            e.code == 200 && e.shown.Some? && e.shown.value.data == Take(Elements(app.data), DATA_SIZE)
  {
    UpdatedApp(apps, app);
    assert Decide(Updated(apps, app), get) == DoStatus(app.name, get.legacy);
  }

  /** The body that posts these entries. */
  function PostedText(es: seq<Entry>): Text
    requires AllValid(es)
  {
    EncodedArePostable(es);
    QueryText(AllEncoded(es))
  }
}
