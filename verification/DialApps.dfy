/** The registered applications and what each request does to them, as values: the specification
    of the DIAL server. Application callbacks answer arbitrarily. */
module DialApps {
  import opened Bytes
  import opened Wrappers
  import opened Tokenizer
  import opened HttpHead
  import DialData
  import opened UrlLib
  import opened UrlCodec

  const MAX_PAYLOAD := 4096
  const ADDITIONAL_PARAM := 256
  const DATA_MAX_PAYLOAD := 4096
  const DATA_SIZE := 8192

  datatype Status = Stopped | Hide | Running

  /** `payload` is None until the first successful start: the memory is not initialised. */
  datatype App = App(name: Text, state: Status, payload: Option<Text>, data: seq<DialData.Pair>, cors: Text)

  /** What the callbacks of the application return, should this request call them, and what memory
      that the request allocates holds. */
  datatype Answers = Answers(start: Status, hide: Status, status: Status, canStop: bool, memory: DialData.Memory)

  /** A callback invocation. `relaunch` is what `shouldRelaunch` says inside the start callback. */
  datatype Call =
    | StartCall(name: Text, body: Text, relaunch: Option<bool>)
    | HideCall(name: Text, answer: Status)
    | StatusCall(name: Text, answer: Status)
    | StopCall(name: Text)

  /** The fields of a status document. `data` are the elements of the additional data. */
  datatype Document = Document(name: Text, allowStop: bool, state: Status, link: bool, data: Text)

  /** The additional data of one application, as its file holds it. */
  datatype Saved = Saved(name: Text, content: Text)

  /** The applications afterwards, the status code, the status document if there is one, the
      callbacks that were invoked, in order, and the file that was written. */
  datatype Effect = Effect(apps: seq<App>, code: int, shown: Option<Document>, calls: seq<Call>, saved: Option<Saved>)

  function Plain(apps: seq<App>, code: int, calls: seq<Call>): Effect {
    Effect(apps, code, None, calls, None)
  }

  /** The files of additional data, by the name of the application. */
  type Files = map<Text, Text>

  function WithSaved(files: Files, saved: Option<Saved>): Files {
    if saved.Some? then files[saved.value.name := saved.value.content] else files
  }

  // ---------- The list ----------

  function IndexOf(apps: seq<App>, name: Text): (i: nat)
    ensures i <= |apps| && (i < |apps| ==> apps[i].name == name)
  {
    if apps == [] || apps[0].name == name then 0 else 1 + IndexOf(apps[1..], name)
  }

  predicate Registered(apps: seq<App>, name: Text) {
    IndexOf(apps, name) < |apps|
  }

  /** The application of that name, replaced. */
  function Updated(apps: seq<App>, app: App): seq<App> {
    if Registered(apps, app.name) then apps[IndexOf(apps, app.name) := app] else apps
  }

  const CORS_SIZE := 256

  /** The additional data that a new application starts with. A missing file is no data. */
  function StoredData(files: Files, name: Text, residue: Text): seq<DialData.Pair> {
    if name in files then DialData.Retrieved(files[name], residue) else []
  }

  /** A new application. An origin list that does not fit its array is dropped. */
  function NewApp(name: Text, corsAllowed: Option<Text>, files: Files, residue: Text): App {
    App(name, Stopped, None, StoredData(files, name, residue),
        if corsAllowed.Some? && |corsAllowed.value| < CORS_SIZE then corsAllowed.value else [])
  }

  function Unregistered(apps: seq<App>, name: Text): seq<App> {
    var i := IndexOf(apps, name);
    if i < |apps| then apps[..i] + apps[i + 1..] else apps
  }

  lemma {:induction false} IndexIsFirst(apps: seq<App>, name: Text)
    ensures forall j :: 0 <= j < IndexOf(apps, name) ==> apps[j].name != name
  {
    if apps != [] && apps[0].name != name {
      IndexIsFirst(apps[1..], name);
    }
  }

  lemma {:induction false} IndexIs(apps: seq<App>, name: Text, i: nat)
    requires i <= |apps| && (i < |apps| ==> apps[i].name == name)
    requires forall j :: 0 <= j < i ==> apps[j].name != name
    ensures IndexOf(apps, name) == i
  {
    if i > 0 {
      IndexIs(apps[1..], name, i - 1);
    }
  }

  /** Removing an application: the first one of that name goes, and the others keep their order. */
  lemma UnregisteredExactly(apps: seq<App>, name: Text, k: nat)
    requires k < |apps| && apps[k].name == name && forall j :: 0 <= j < k ==> apps[j].name != name
    ensures |Unregistered(apps, name)| == |apps| - 1
    ensures forall j :: 0 <= j < |apps| - 1 ==> Unregistered(apps, name)[j] == apps[if j < k then j else j + 1]
  {
    IndexIs(apps, name, k);
  }

  // ---------- Payloads ----------

  /** High bit, DEL or control character. */
  predicate IsBadByte(c: byte) {
    Code(c) >= 0x80 || Code(c) == 0x7F || Code(c) <= 0x1F
  }

  predicate IsBadPayload(t: Text) {
    exists c <- t :: IsBadByte(c)
  }

  function Zeros(n: nat): Text {
    seq(n, _ => NUL)
  }

  /** The payload array of the application: the body behind 4096 zeroed bytes. */
  function Padded(body: Text): Text
    requires |body| <= MAX_PAYLOAD
  {
    body + Zeros(MAX_PAYLOAD - |body|)
  }

  /** `strncmp(a, b, n) == 0`: the comparison ends after `n` bytes or at a common NUL. */
  predicate EqualUpTo(a: Text, b: Text, n: nat)
    requires n <= |a| && n <= |b|
    decreases n
  {
    n == 0 || (a[0] == b[0] && (a[0] == NUL || EqualUpTo(a[1..], b[1..], n - 1)))
  }

  /** `shouldRelaunch`, on the payload array and the argument array. */
  predicate ShouldRelaunch(payload: Text, args: Text)
    requires |payload| >= MAX_PAYLOAD && |args| >= MAX_PAYLOAD
  {
    !EqualUpTo(payload, args, MAX_PAYLOAD)
  }

  lemma {:induction false} PaddedEqualUpTo(a: Text, b: Text, x: Text, y: Text, n: nat)
    requires NulFree(a) && NulFree(b) && |a| <= n && |b| <= n
    requires |a| + |x| >= n && |b| + |y| >= n
    requires (|a| < n ==> x[0] == NUL) && (|b| < n ==> y[0] == NUL)
    ensures EqualUpTo(a + x, b + y, n) <==> a == b
    decreases n
  {
    if a != [] && b != [] {
      assert a[0] in a && b[0] in b;
      assert (a + x)[1..] == a[1..] + x && (b + y)[1..] == b[1..] + y;
      assert (forall c <- a[1..] :: c in a) && (forall c <- b[1..] :: c in b);
      PaddedEqualUpTo(a[1..], b[1..], x, y, n - 1);
      assert a == b <==> a[0] == b[0] && a[1..] == b[1..];
    } else if n > 0 {
      assert a != [] ==> a[0] in a;
      assert b != [] ==> b[0] in b;
    }
  }

  /** On admissible bodies the bounded comparison of padded arrays is string equality. */
  lemma RelaunchComparesBodies(last: Text, body: Text, more: nat)
    requires |last| <= MAX_PAYLOAD && |body| <= MAX_PAYLOAD && NulFree(last) && NulFree(body)
    ensures ShouldRelaunch(Padded(last), Padded(body) + Zeros(more)) <==> last != body
  {
    assert Padded(body) + Zeros(more) == body + (Zeros(MAX_PAYLOAD - |body|) + Zeros(more));
    PaddedEqualUpTo(last, body, Zeros(MAX_PAYLOAD - |last|), Zeros(MAX_PAYLOAD - |body|) + Zeros(more), MAX_PAYLOAD);
  }

  // ---------- The handlers ----------

  /** The relaunch decision for a body that passed the checks. */
  function Relaunch(app: App, body: Text): Option<bool> {
    if app.payload.Some? then Some(app.payload.value != body) else None
  }

  /** The size of the buffer of the start handler, larger than the largest admissible payload. */
  const BODY_SIZE := MAX_PAYLOAD + ADDITIONAL_PARAM + 2

  /** No answer: the process ends, because the assertion at the start of a body read fails. What the
      model says of the state behind it is of no account. */
  const ABORTED := 0

  /** No answer that can be relied on: a buffer was overrun. Nor can the state behind it. */
  const OVERRUN := -1

  /** What a read of the body may return, or None if its assertion fails. */
  type Source = Option<Text>

  function Start(apps: seq<App>, name: Text, sent: Source, answers: Answers): Effect {
    if !Registered(apps, name) then Plain(apps, 404, [])
    else if sent == None then Plain(apps, ABORTED, [])
    else StartWith(apps, name, Take(sent.value, BODY_SIZE), answers)
  }

  /** `body` is what was read. */
  function StartWith(apps: seq<App>, name: Text, body: Text, answers: Answers): Effect
    requires Registered(apps, name)
  {
    if |body| > MAX_PAYLOAD then Plain(apps, 413, [])
    else if IsBadPayload(body) then Plain(apps, 400, [])
    else
      var app := apps[IndexOf(apps, name)];
      var calls := [StartCall(name, body, Relaunch(app, body))];
      if answers.start == Running
      then Plain(Updated(apps, app.(state := Running, payload := Some(body))), 201, calls)
      else Plain(Updated(apps, app.(state := answers.start)), 503, calls)
  }

  const OPEN: Text := [' ', ' ', ' ', ' ', '<']
  const CLOSE: Text := ['<', '/']
  const END: Text := ['>']

  /** A field in a status document: the C string in it, decoded and encoded again. */
  function ShownField(f: DialData.Field): Text {
    StatusText(CString(f.AsString()))
  }

  function Element(p: DialData.Pair): Text {
    OPEN + ShownField(p.key) + END + ShownField(p.value) + CLOSE + ShownField(p.key) + END
  }

  function Elements(data: seq<DialData.Pair>): Text {
    if data == [] then [] else Element(data[0]) + Elements(data[1..])
  }

  function StatusDocument(app: App, state: Status, canStop: bool): Document {
    Document(app.name, canStop, state, state != Stopped, Take(Elements(app.data), DATA_SIZE))
  }

  /** `legacy` says that the client's DIAL version is below 2.09. */
  function GetStatus(apps: seq<App>, name: Text, legacy: bool, answers: Answers): Effect {
    if !Registered(apps, name) then Plain(apps, 404, [])
    else
      var app := apps[IndexOf(apps, name)];
      var state := if legacy && answers.status == Hide then Stopped else answers.status;
      Effect(Updated(apps, app.(state := answers.status)), 200, Some(StatusDocument(app, state, answers.canStop)),
             [StatusCall(name, answers.status)], None)
  }

  function Stop(apps: seq<App>, name: Text, answers: Answers): Effect {
    if !Registered(apps, name) then Plain(apps, 404, [])
    else
      var app := apps[IndexOf(apps, name)];
      var asked := StatusCall(name, answers.status);
      if answers.status == Stopped
      then Plain(Updated(apps, app.(state := Stopped)), 404, [asked])
      else Plain(Updated(apps, app.(state := Stopped)), 200, [asked, StopCall(name)])
  }

  function HideApp(apps: seq<App>, name: Text, answers: Answers): Effect {
    if !Registered(apps, name) then Plain(apps, 404, [])
    else
      var app := apps[IndexOf(apps, name)];
      var asked := StatusCall(name, answers.status);
      if answers.status != Running && answers.status != Hide
      then Plain(Updated(apps, app.(state := answers.status)), 404, [asked])
      else if answers.hide != Hide
      then Plain(Updated(apps, app.(state := answers.status)), 501, [asked, HideCall(name, answers.hide)])
      else Plain(Updated(apps, app.(state := Hide)), 200, [asked, HideCall(name, Hide)])
  }

  function StoreData(apps: seq<App>, name: Text, text: Source, answers: Answers): Effect {
    if !Registered(apps, name) then Plain(apps, 404, [])
    else if text == None then Plain(apps, ABORTED, [])
    else StoreText(apps, name, Take(text.value, DATA_MAX_PAYLOAD), answers)
  }

  function StoreText(apps: seq<App>, name: Text, body: Text, answers: Answers): Effect
    requires Registered(apps, name)
  {
    if IsBadPayload(body) then Plain(apps, 400, [])
    else
      var app := apps[IndexOf(apps, name)];
      var data := DialData.ParsedParams(body, answers.memory);
      Effect(Updated(apps, app.(data := data)), 200, None, [], Some(Saved(name, DialData.Printed(data))))
  }

  // ---------- Origins ----------

  const HTTP_PREFIX: Text := ['h', 't', 't', 'p']
  const FILE_PREFIX: Text := ['f', 'i', 'l', 'e']

  predicate EndsWith(s: Text, suffix: Text) {
    |suffix| <= |s| && s[|s| - |suffix|..] == suffix
  }

  /** Does the string end with one of the segments of a list separated by single spaces? */
  predicate EndsWithInList(s: Text, list: Text) {
    var k := CSpan(list, SPACE);
    if k == |list| then EndsWith(s, list)
    else EndsWith(s, list[..k]) || EndsWithInList(s, list[k + 1..])
  }

  /** `list[i..j]` is a segment: no space inside, and a space or the end of the list around it. */
  ghost predicate IsSegment(list: Text, i: int, j: int) {
    && 0 <= i <= j <= |list| && (forall m :: i <= m < j ==> list[m] != ' ')
    && (i == 0 || list[i - 1] == ' ') && (j == |list| || list[j] == ' ')
  }

  /** The three schemes that are checked, by their first letters ("https" starts with "http"). */
  predicate ChecksOrigin(origin: Text) {
    HTTP_PREFIX <= origin || FILE_PREFIX <= origin
  }

  /** An application without a list allows every origin. */
  predicate Allows(cors: Text, origin: Text) {
    cors == [] || EndsWithInList(origin, cors)
  }

  /** One lookup decides. */
  predicate AllowedOrigin(apps: seq<App>, origin: Option<Text>, name: Text) {
    origin == None || !ChecksOrigin(origin.value)
    || (Registered(apps, name) && Allows(apps[IndexOf(apps, name)].cors, origin.value))
  }

  // ---------- Routing ----------

  const APPS_URI: Text := ['/', 'a', 'p', 'p', 's', '/']
  const RUN_URI: Text := ['/', 'r', 'u', 'n']
  const HIDE_URI: Text := ['/', 'h', 'i', 'd', 'e']
  const DIAL_DATA_URI: Text := ['/', 'd', 'i', 'a', 'l', '_', 'd', 'a', 't', 'a']
  const NAME_MAX := 255

  /** `strstr` finds `s`. */
  predicate Contains(t: Text, s: Text) {
    s <= t || (t != [] && Contains(t[1..], s))
  }

  predicate IsRunUri(uri: Text) { EndsWith(uri, RUN_URI) }

  predicate IsAppUri(uri: Text) { APPS_URI <= uri && '/' !in uri[|APPS_URI|..] }

  predicate IsHideUri(uri: Text) { EndsWith(uri, HIDE_URI) }

  /** The copy of the name out of the URI, for the URIs that are resolved by their end: its length,
      which must not be negative, fits the buffer of 256 bytes and a terminator. */
  predicate InRange(uri: Text) {
    && (IsRunUri(uri) ==> 0 <= |uri| - |RUN_URI| - |APPS_URI| <= NAME_MAX)
    && (!IsRunUri(uri) && !IsAppUri(uri) && IsHideUri(uri) ==>
          0 <= |uri| - |RUN_URI| - |HIDE_URI| - |APPS_URI| <= NAME_MAX)
  }

  datatype Route =
    | RunRoute(name: Text)
    | AppRoute(name: Text)
    | HideRoute(name: Text)
    | DataRoute(name: Text)
    | NoRoute
    | Overrun

  /** `Overrun` is for the URIs whose name does not fit: the source writes past its buffer. */
  function RouteOf(uri: Text): Route {
    if !InRange(uri) then Overrun
    else if IsRunUri(uri) then RunRoute(uri[|APPS_URI|..|uri| - |RUN_URI|])
    else if IsAppUri(uri) then AppRoute(uri[|APPS_URI|..])
    else if IsHideUri(uri) then HideRoute(uri[|APPS_URI|..|uri| - |RUN_URI| - |HIDE_URI|])
    else if Contains(uri, DIAL_DATA_URI) then DataRoute(AppNameOf(uri))
    else NoRoute
  }

  // ---------- Requests ----------

  const HOST: Text := ['H', 'o', 's', 't']
  const HOST_LOWER: Text := ['h', 'o', 's', 't']
  const ORIGIN: Text := ['O', 'r', 'i', 'g', 'i', 'n']
  const ORIGIN_LOWER: Text := ['o', 'r', 'i', 'g', 'i', 'n']

  /** A request as the HTTP server hands it over, with its URI resolved. `body` is what a read of
      any size may return of the body; `local` says that the peer is the local host. */
  datatype AppRequest = AppRequest(verb: Text, route: Route, query: Option<Text>, headers: seq<Header>,
                                   body: Source, local: bool, legacy: bool)

  /** The value of the last header with one of two spellings. */
  function LastHeader(hs: seq<Header>, name: Text, other: Text): Option<Text> {
    if hs == [] then None
    else
      var h := hs[|hs| - 1];
      if h.name == name || h.name == other then Some(h.value) else LastHeader(hs[..|hs| - 1], name, other)
  }

  /** The mutex is taken once to look up an origin that has to be checked. */
  function OriginLocks(origin: Option<Text>): nat {
    if origin == None || !ChecksOrigin(origin.value) then 0 else 1
  }

  /** Whether host and origin admit a request, and how often that question takes the mutex. */
  datatype Gate = Gate(admitted: bool, locks: nat)

  function GateOf(apps: seq<App>, host: Option<Text>, origin: Option<Text>, name: Text): Gate {
    Gate(host.Some? && AllowedOrigin(apps, origin, name), if host.Some? then OriginLocks(origin) else 0)
  }

  function NameOf(route: Route): Text {
    if route == NoRoute || route == Overrun then [] else route.name
  }

  function GateFor(apps: seq<App>, r: AppRequest): Gate {
    GateOf(apps, LastHeader(r.headers, HOST, HOST_LOWER), LastHeader(r.headers, ORIGIN, ORIGIN_LOWER), NameOf(r.route))
  }

  /** What `request_handler` decides to do with a new request. */
  datatype Decision =
    | DoStart(name: Text, sent: Source)
    | DoStatus(name: Text, legacy: bool)
    | DoStop(name: Text)
    | DoHide(name: Text)
    | DoStoreData(name: Text, text: Source)
    | Answer(code: int)

  /** A decision, and whether host and origin were looked at for it. */
  datatype Choice = Choice(decision: Decision, asked: bool)

  function Preflight(admitted: bool): Choice {
    Choice(Answer(if admitted then 204 else 403), true)
  }

  function ChooseRun(name: Text, verb: Text, admitted: bool): Choice {
    if verb == OPTIONS then Preflight(admitted)
    else if name == [] || verb != DELETE then Choice(Answer(501), false)
    else Choice(if admitted then DoStop(name) else Answer(403), true)
  }

  function ChooseApp(name: Text, verb: Text, body: Source, legacy: bool, admitted: bool): Choice {
    if verb == OPTIONS then Preflight(admitted)
    else if verb == POST then Choice(if admitted then DoStart(name, body) else Answer(403), true)
    else if verb == GET then Choice(DoStatus(name, legacy), false)
    else Choice(Answer(501), false)
  }

  function ChooseHide(name: Text, verb: Text, admitted: bool): Choice {
    if verb == OPTIONS then Preflight(admitted)
    else if name == [] || verb != POST then Choice(Answer(501), false)
    else Choice(DoHide(name), false)
  }

  function ChooseData(name: Text, verb: Text, text: Source, local: bool, admitted: bool): Choice {
    if !local then Choice(Answer(403), false)
    else if verb == OPTIONS then Preflight(admitted)
    else Choice(DoStoreData(name, text), false)
  }

  function DataText(r: AppRequest): Source {
    if r.verb == POST then r.body else if r.query.Some? then r.query else Some([])
  }

  function Choose(r: AppRequest, admitted: bool): Choice {
    match r.route
    case RunRoute(name) => ChooseRun(name, r.verb, admitted)
    case AppRoute(name) => ChooseApp(name, r.verb, r.body, r.legacy, admitted)
    case HideRoute(name) => ChooseHide(name, r.verb, admitted)
    case DataRoute(name) => ChooseData(name, r.verb, DataText(r), r.local, admitted)
    case NoRoute => Choice(Answer(404), false)
    case Overrun => Choice(Answer(OVERRUN), false)
  }

  function Decide(apps: seq<App>, r: AppRequest): Decision {
    Choose(r, GateFor(apps, r).admitted).decision
  }

  function Perform(apps: seq<App>, d: Decision, answers: Answers): Effect {
    match d
    case DoStart(name, sent) => Start(apps, name, sent, answers)
    case DoStatus(name, legacy) => GetStatus(apps, name, legacy, answers)
    case DoStop(name) => Stop(apps, name, answers)
    case DoHide(name) => HideApp(apps, name, answers)
    case DoStoreData(name, text) => StoreData(apps, name, text, answers)
    case Answer(code) => Plain(apps, code, [])
  }

  /** `request_handler` for a new request. */
  function Respond(apps: seq<App>, r: AppRequest, answers: Answers): Effect {
    Perform(apps, Decide(apps, r), answers)
  }

  /** An effect, and how often the mutex is taken, and released, for it. */
  datatype Response = Response(effect: Effect, locks: nat)

  /** Once if host and origin are looked at, and once in a handler. */
  function LocksOf(c: Choice, gate: Gate): nat {
    (if c.asked then gate.locks else 0) + if c.decision.Answer? then 0 else 1
  }

  function Carried(apps: seq<App>, c: Choice, gate: Gate, answers: Answers): Response {
    Response(Perform(apps, c.decision, answers), LocksOf(c, gate))
  }

  /** How often the mutex is taken for a request. */
  function Locks(apps: seq<App>, r: AppRequest): nat {
    LocksOf(Choose(r, GateFor(apps, r).admitted), GateFor(apps, r))
  }

  /** The requests whose handler reads the body: an admitted start and a local post of data, of an
      application that is registered. */
  predicate ReadsBody(apps: seq<App>, r: AppRequest) {
    && r.verb == POST && Registered(apps, NameOf(r.route))
    && ((r.route.AppRoute? && GateFor(apps, r).admitted) || (r.route.DataRoute? && r.local))
  }

  /** The failing assertion is reached exactly by a request whose handler reads the body; every
      other request with such a length is answered. */
  lemma AbortsExactly(apps: seq<App>, r: AppRequest, answers: Answers)
    ensures Respond(apps, r, answers).code == ABORTED <==> r.body == None && ReadsBody(apps, r)
  {
    var d := Decide(apps, r);
    assert d.Answer? ==> d.code != ABORTED;
    if ReadsBody(apps, r) {
      assert d == if r.route.AppRoute? then DoStart(r.route.name, r.body) else DoStoreData(r.route.name, r.body);
    }
  }

  /** A buffer is overrun exactly by a request whose URI gives no name that fits. */
  lemma OverrunsExactly(apps: seq<App>, r: AppRequest, answers: Answers)
    ensures Respond(apps, r, answers).code == OVERRUN <==> r.route == Overrun
  {
    var d := Decide(apps, r);
    assert d.Answer? && d.code == OVERRUN ==> r.route == Overrun;
  }
}
