/** The DIAL server in the form of the source: a linked list of applications edited through
    pointers to `next` fields, handlers that update an application in place under a mutex that
    is not recursive, and an error path that calls back into the request handler. */
module DialServer {
  import opened Bytes
  import opened Wrappers
  import opened Tokenizer
  import opened HttpHead
  import DialData
  import opened UrlLib
  import opened UrlCodec
  import opened DialApps

  class Node {
    var next: Node?
    const name: Text
    var state: Status
    /** The payload array, once a start has filled it, and the body it was filled with. */
    var payload: Option<Text>
    ghost var body: Option<Text>
    var data: seq<DialData.Pair>
    const cors: Text

    constructor (name: Text, next: Node?, data: seq<DialData.Pair>, cors: Text)
      ensures this.name == name && this.next == next && this.data == data && this.cors == cors
      ensures state == Stopped && payload == None && body == None
    {
      this.name, this.next, this.data, this.cors := name, next, data, cors;
      state, payload, body := Stopped, None, None;
    }

    ghost predicate PayloadValid()
      reads this`payload, this`body
    {
      HoldsBody(payload, body)
    }

    ghost function View(): App
      reads this`state, this`body, this`data
    {
      App(name, state, body, data, cors)
    }
  }

  /** The array holds the body, padded with zeros. */
  ghost predicate HoldsBody(payload: Option<Text>, body: Option<Text>) {
    match body
    case None => payload == None
    case Some(t) => |t| <= MAX_PAYLOAD && NulFree(t) && payload == Some(Padded(t))
  }

  /** A pointer to a `next` pointer: that of the list head or of a node. */
  datatype Link = First | Next(node: Node)

  /** The nodes are chained by their `next` pointers. */
  ghost predicate Chained(first: Node?, nodes: seq<Node>)
    reads nodes
  {
    && (first == if nodes == [] then null else nodes[0])
    && (nodes != [] ==> nodes[|nodes| - 1].next == null)
    && (forall i {:trigger nodes[i].next} :: 0 <= i < |nodes| - 1 ==> nodes[i].next == nodes[i + 1])
  }

  ghost predicate StandsFor(node: Node, app: App)
    reads node`state, node`payload, node`body, node`data
  {
    node.PayloadValid() && app == node.View()
  }

  ghost predicate Represents(nodes: seq<Node>, list: seq<App>)
    reads nodes
  {
    && |list| == |nodes|
    && (forall i {:trigger StandsFor(nodes[i], list[i])} :: 0 <= i < |nodes| ==> StandsFor(nodes[i], list[i]))
  }

  function NameAt(nodes: seq<Node>, i: nat): Text
    requires i < |nodes|
  {
    nodes[i].name
  }

  ghost predicate DistinctNames(nodes: seq<Node>) {
    forall i: nat, j: nat {:trigger NameAt(nodes, i), NameAt(nodes, j)} ::
      i < j < |nodes| ==> NameAt(nodes, i) != NameAt(nodes, j)
  }

  function Without<T>(s: seq<T>, i: nat): (r: seq<T>)
    requires i < |s|
    ensures |r| == |s| - 1
  {
    s[..i] + s[i + 1..]
  }

  lemma DistinctWithout(nodes: seq<Node>, i: nat)
    requires DistinctNames(nodes) && i < |nodes|
    ensures DistinctNames(Without(nodes, i))
  {
    var rest := Without(nodes, i);
    forall j: nat, k: nat | j < k < |rest|
      ensures NameAt(rest, j) != NameAt(rest, k)
    {
      assert NameAt(nodes, if j < i then j else j + 1) != NameAt(nodes, if k < i then k else k + 1);
    }
  }

  /** Nodes with distinct names are distinct objects. */
  lemma DistinctNodes(nodes: seq<Node>)
    requires DistinctNames(nodes)
    ensures forall j, k :: 0 <= j < k < |nodes| ==> nodes[j] != nodes[k]
  {
    forall j, k | 0 <= j < k < |nodes|
      ensures nodes[j] != nodes[k]
    {
      assert NameAt(nodes, j) != NameAt(nodes, k);
    }
  }

  lemma RepresentsWithout(nodes: seq<Node>, list: seq<App>, i: nat)
    requires Represents(nodes, list) && i < |nodes|
    ensures Represents(Without(nodes, i), Without(list, i))
  {
  }

  lemma DistinctAppend(nodes: seq<Node>, node: Node)
    requires DistinctNames(nodes) && forall j :: 0 <= j < |nodes| ==> nodes[j].name != node.name
    ensures DistinctNames(nodes + [node])
  {
    var all := nodes + [node];
    forall j: nat, k: nat | j < k < |all|
      ensures NameAt(all, j) != NameAt(all, k)
    {
      assert k < |nodes| ==> NameAt(nodes, j) != NameAt(nodes, k);
    }
  }

  lemma RepresentsAppend(nodes: seq<Node>, list: seq<App>, node: Node)
    requires Represents(nodes, list) && node.PayloadValid()
    ensures Represents(nodes + [node], list + [node.View()])
  {
  }

  class Server {
    var apps: Node?
    var locked: bool
    var acquired: nat
    var released: nat
    /** The callbacks invoked so far. */
    var calls: seq<Call>
    /** The files of additional data, which outlive the server. */
    var files: Files
    /** The nodes of the list in order, and the applications they stand for. */
    ghost var spine: seq<Node>
    ghost var list: seq<App>

    ghost predicate Linked()
      reads this`apps, this`spine, this`list, spine
    {
      Chained(apps, spine) && Represents(spine, list) && DistinctNames(spine)
    }

    /** The mutex is held exactly between an acquisition and its release. */
    ghost predicate LockValid()
      reads this`locked, this`acquired, this`released
    {
      acquired == released + if locked then 1 else 0
    }

    ghost predicate Valid()
      reads this, spine
    {
      Linked() && LockValid()
    }

    constructor (files: Files)
      ensures Valid() && fresh(this) && spine == [] && list == [] && !locked && calls == [] && this.files == files
    {
      apps, locked, acquired, released, calls := null, false, 0, 0, [];
      this.files := files;
      spine, list := [], [];
    }

    ghost function Now(): Snapshot
      reads this`files, this`calls, this`acquired
    {
      Snapshot(files, calls, acquired)
    }

    // ---------- The mutex ----------

    /** `ds_lock`. The mutex is not recursive: taking it while it is held would never return. */
    method Lock()
      requires LockValid() && !locked
      modifies this`locked, this`acquired
      ensures LockValid() && locked && Now() == old(Now()).(acquired := old(acquired) + 1)
      ensures old(Linked()) ==> Linked()
    {
      locked, acquired := true, acquired + 1;
    }

    method Unlock()
      requires LockValid() && locked
      modifies this`locked, this`released
      ensures LockValid() && !locked && released == old(released) + 1 && Now() == old(Now())
      ensures old(Linked()) ==> Linked()
    {
      locked, released := false, released + 1;
    }

    // ---------- The list ----------

    ghost function LinkAt(i: nat): Link
      requires i <= |spine|
      reads this
    {
      if i == 0 then First else Next(spine[i - 1])
    }

    function Deref(link: Link): Node?
      reads this, if link.Next? then {link.node} else {}
    {
      if link.First? then apps else link.node.next
    }

    /** `find_app`: the link to the application, or the last link of the list. */
    method FindApp(name: Text) returns (link: Link)
      requires Linked()
      ensures link == LinkAt(IndexOf(list, name))
      ensures Deref(link) == if Registered(list, name) then spine[IndexOf(list, name)] else null
    {
      link := First;
      var app := apps;
      ghost var i := 0;
      while app != null
        invariant i <= |spine| && link == LinkAt(i)
        invariant app == if i < |spine| then spine[i] else null
        invariant forall j :: 0 <= j < i ==> spine[j].name != name
        decreases |spine| - i
      {
        if name == app.name {
          break;
        }
        link, app, i := Next(app), app.next, i + 1;
      }
      NamesAgree();
      IndexIs(list, name, i);
    }

    lemma NamesAgree()
      requires Linked()
      ensures forall j :: 0 <= j < |spine| ==> list[j].name == spine[j].name
    {
      forall j | 0 <= j < |spine|
        ensures list[j].name == spine[j].name
      {
        assert StandsFor(spine[j], list[j]);
      }
    }

    /** `*ptr = app`, at the last link. */
    method Attach(link: Link, app: Node)
      requires Linked() && link == LinkAt(|spine|) && app !in spine && app.next == null
      modifies this`apps, spine
      ensures Chained(apps, spine + [app]) && Represents(spine, list)
    {
      if link.First? {
        apps := app;
      } else {
        link.node.next := app;
      }
    }

    /** Appends a new application at the last link. */
    method Append(link: Link, name: Text, data: seq<DialData.Pair>, cors: Text)
      requires Linked() && link == LinkAt(|spine|) && forall j :: 0 <= j < |spine| ==> spine[j].name != name
      modifies this`apps, this`spine, this`list, spine
      ensures Linked() && list == old(list) + [App(name, Stopped, None, data, cors)]
      ensures |spine| == |old(spine)| + 1 && spine[..|old(spine)|] == old(spine) && fresh(spine[|old(spine)|])
    {
      var app := new Node(name, null, data, cors);
      Attach(link, app);
      Extend(app);
    }

    /** The node that was attached belongs to the list. */
    ghost method Extend(app: Node)
      requires Chained(apps, spine + [app]) && Represents(spine, list) && DistinctNames(spine)
      requires app.PayloadValid() && forall j :: 0 <= j < |spine| ==> spine[j].name != app.name
      modifies this`spine, this`list
      ensures Linked() && spine == old(spine) + [app] && list == old(list) + [app.View()]
    {
      DistinctAppend(spine, app);
      RepresentsAppend(spine, list, app);
      spine, list := spine + [app], list + [app.View()];
    }

    lemma AbsentFromSpine(name: Text)
      requires Linked() && !Registered(list, name)
      ensures forall j :: 0 <= j < |spine| ==> spine[j].name != name
    {
      IndexIsFirst(list, name);
      NamesAgree();
    }

    /** A missing file is no data. */
    method LoadData(name: Text, residue: Text) returns (data: seq<DialData.Pair>)
      ensures data == StoredData(files, name, residue)
    {
      data := [];
      if name in files {
        data := DialData.RetrieveDialData(files[name], residue);
      }
    }

    /** The part of the registration that is done with the mutex held. */
    method AddUnlessPresent(name: Text, corsAllowed: Option<Text>, residue: Text) returns (ok: bool)
      requires Linked() && locked
      modifies this`apps, this`spine, this`list, spine
      ensures Linked() && (ok <==> !Registered(old(list), name))
      ensures !ok ==> list == old(list) && spine == old(spine)
      ensures ok ==> |spine| == |old(spine)| + 1 && spine[..|old(spine)|] == old(spine) && fresh(spine[|old(spine)|])
      ensures ok ==> list == old(list) + [NewApp(name, corsAllowed, files, residue)]
    {
      var link := FindApp(name);
      if Deref(link) != null {
        return false;
      }
      AbsentFromSpine(name);
      AppendNew(link, name, corsAllowed, residue);
      return true;
    }

    method AppendNew(link: Link, name: Text, corsAllowed: Option<Text>, residue: Text)
      requires Linked() && link == LinkAt(|spine|) && forall j :: 0 <= j < |spine| ==> spine[j].name != name
      modifies this`apps, this`spine, this`list, spine
      ensures Linked() && list == old(list) + [NewApp(name, corsAllowed, files, residue)]
      ensures |spine| == |old(spine)| + 1 && spine[..|old(spine)|] == old(spine) && fresh(spine[|old(spine)|])
    {
      var data := LoadData(name, residue);
      Append(link, name, data, if corsAllowed.Some? && |corsAllowed.value| < CORS_SIZE then corsAllowed.value else []);
    }

    /** `DIAL_register_app`. The additional data comes from the file of the application, if there is
        one; `residue` is what a variable on the stack holds before. */
    method Register(name: Text, corsAllowed: Option<Text>, residue: Text) returns (ok: bool)
      requires Valid() && !locked
      modifies this, spine
      ensures Valid() && !locked && Now() == old(Now()).(acquired := old(acquired) + 1)
      ensures ok <==> !Registered(old(list), name)
      ensures !ok ==> list == old(list) && spine == old(spine)
      ensures ok ==> |spine| == |old(spine)| + 1 && spine[..|old(spine)|] == old(spine) && fresh(spine[|old(spine)|])
      ensures ok ==> list == old(list) + [NewApp(name, corsAllowed, files, residue)]
      ensures ok ==> list[|old(list)|].name == name && list[|old(list)|].state == Stopped
      ensures ok && name !in files ==> list[|old(list)|].data == []
    {
      Lock();
      ok := AddUnlessPresent(name, corsAllowed, residue);
      Unlock();
    }

    /** `*ptr = app->next`: the application after the link is no longer in the list. */
    method Bypass(link: Link, ghost i: nat)
      requires Linked() && i < |spine| && link == LinkAt(i)
      modifies this`apps, spine
      ensures Chained(apps, Without(spine, i)) && Represents(spine, list)
    {
      DistinctNodes(spine);
      var after := Deref(link).next;
      if link.First? {
        apps := after;
      } else {
        link.node.next := after;
      }
    }

    method Unlink(link: Link, ghost i: nat)
      requires Linked() && i < |spine| && link == LinkAt(i)
      modifies this`apps, this`spine, this`list, spine
      ensures Linked() && spine == Without(old(spine), i) && list == Without(old(list), i)
    {
      Bypass(link, i);
      DistinctWithout(spine, i);
      RepresentsWithout(spine, list, i);
      spine, list := Without(spine, i), Without(list, i);
    }

    method RemoveIfPresent(name: Text) returns (ok: bool)
      requires Linked() && locked
      modifies this`apps, this`spine, this`list, spine
      ensures Linked() && (ok <==> Registered(old(list), name))
      ensures list == Unregistered(old(list), name)
      ensures forall n <- spine :: n in old(spine)
    {
      var link := FindApp(name);
      ok := Deref(link) != null;
      if ok {
        Unlink(link, IndexOf(list, name));
      }
    }

    /** `DIAL_unregister_app`. */
    method Unregister(name: Text) returns (ok: bool)
      requires Valid() && !locked
      modifies this, spine
      ensures Valid() && !locked && Now() == old(Now()).(acquired := old(acquired) + 1)
      ensures (ok <==> Registered(old(list), name)) && list == Unregistered(old(list), name)
      ensures forall n <- spine :: n in old(spine)
    {
      Lock();
      ok := RemoveIfPresent(name);
      Unlock();
    }

    // ---------- One application, in place ----------

    /** Every node stands for its application, and the one at `i` is no other. */
    lemma ListedAs(i: nat)
      requires Linked() && i < |spine|
      ensures forall j :: 0 <= j < |spine| ==> StandsFor(spine[j], list[j]) && (j != i ==> spine[j] != spine[i])
    {
      DistinctNodes(spine);
    }

    method SetState(app: Node, state: Status, ghost i: nat)
      requires Linked() && i < |spine| && app == spine[i]
      modifies app`state, this`list
      ensures Linked() && list == old(list)[i := old(list)[i].(state := state)] && app.state == state
    {
      ListedAs(i);
      app.state := state;
      list := list[i := list[i].(state := state)];
    }

    /** `memset` and `memcpy` of the payload array. */
    method SetPayload(app: Node, body: Text, ghost i: nat)
      requires Linked() && i < |spine| && app == spine[i] && |body| <= MAX_PAYLOAD && NulFree(body)
      modifies app`payload, app`body, this`list
      ensures Linked() && list == old(list)[i := old(list)[i].(payload := Some(body))]
    {
      ListedAs(i);
      app.payload := Some(Padded(body));
      app.body := Some(body);
      list := list[i := list[i].(payload := Some(body))];
    }

    method SetData(app: Node, data: seq<DialData.Pair>, ghost i: nat)
      requires Linked() && i < |spine| && app == spine[i]
      modifies app`data, this`list
      ensures Linked() && list == old(list)[i := old(list)[i].(data := data)]
    {
      ListedAs(i);
      app.data := data;
      list := list[i := list[i].(data := data)];
    }

    // ---------- Callbacks ----------

    /** `DIAL_get_payload`. Called from inside a callback, it does not take the mutex: the handler
        holds it already. */
    method GetPayload(name: Text) returns (payload: Option<Text>)
      requires Linked() && locked
      ensures HoldsBody(payload, if Registered(list, name) then list[IndexOf(list, name)].payload else None)
    {
      var link := FindApp(name);
      var app := Deref(link);
      payload := if app == null then None else app.payload;
      assert app != null ==> StandsFor(app, list[IndexOf(list, name)]);
    }

    /** The start callback, which asks whether it has to relaunch the application. `args` is the
        body in its larger buffer, which was zeroed before. */
    method StartCallback(name: Text, body: Text, answer: Status) returns (status: Status)
      requires Linked() && locked && Registered(list, name) && |body| <= MAX_PAYLOAD && NulFree(body)
      modifies this`calls
      ensures status == answer
      ensures calls == old(calls) + [StartCall(name, body, Relaunch(list[IndexOf(list, name)], body))]
    {
      var payload := GetPayload(name);
      var relaunch := None;
      if payload.Some? {
        var args := Padded(body) + Zeros(ADDITIONAL_PARAM + 2);
        RelaunchComparesBodies(list[IndexOf(list, name)].payload.value, body, ADDITIONAL_PARAM + 2);
        relaunch := Some(ShouldRelaunch(payload.value, args));
      }
      calls := calls + [StartCall(name, body, relaunch)];
      status := answer;
    }

    method StatusCallback(name: Text, answer: Status) returns (status: Status)
      requires locked
      modifies this`calls
      ensures status == answer && calls == old(calls) + [StatusCall(name, answer)]
    {
      calls := calls + [StatusCall(name, answer)];
      status := answer;
    }

    method HideCallback(name: Text, answer: Status) returns (status: Status)
      requires locked
      modifies this`calls
      ensures status == answer && calls == old(calls) + [HideCall(name, answer)]
    {
      calls := calls + [HideCall(name, answer)];
      status := answer;
    }

    method StopCallback(name: Text)
      requires locked
      modifies this`calls
      ensures calls == old(calls) + [StopCall(name)]
    {
      calls := calls + [StopCall(name)];
    }

    // ---------- The error path ----------

    /** `mg_send_http_error`: statuses with a body are logged first, whether or not the caller
        holds the mutex. */
    method SendHttpError(status: int, info: Info, answers: Answers)
      requires Valid()
      decreases 3, 0
    {
      if status > 199 && status != 204 && status != 304 {
        Cry(info, answers);
      }
      Printf(info, answers);
    }

    /** `mg_printf`: text that does not fit its buffer is cut off, and that is logged first. */
    method Printf(info: Info, answers: Answers)
      requires Valid()
      decreases 2, 1
    {
      if * {
        Cry(info, answers);
      }
    }

    method Cry(info: Info, answers: Answers)
      requires Valid()
      decreases 2, 0
    {
      CallUser(EventLog, info, answers);
    }

    method CallUser(event: Event, info: Info, answers: Answers)
      requires Valid() && event == EventLog
      decreases 1
    {
      var _, _ := RequestHandler(event, info, answers);
    }

    // ---------- The handlers ----------

    method HandleStart(name: Text, info: Info, answers: Answers) returns (code: int)
      requires Valid() && !locked
      modifies this, spine
      ensures Valid() && !locked && spine == old(spine)
      ensures Outcome(list, code, None, Now())
           == After(Response(Start(old(list), name, info.body, answers), 1), old(Now()))
      decreases 7
    {
      Lock();
      code := StartLocked(name, info, answers);
      Unlock();
    }

    method StartLocked(name: Text, info: Info, answers: Answers) returns (code: int)
      requires Valid() && locked
      modifies this`list, this`calls, spine
      ensures Linked()
      ensures Outcome(list, code, None, Now())
           == After(Response(Start(old(list), name, info.body, answers), 0), old(Now()))
      decreases 6
    {
      var link := FindApp(name);
      var app := Deref(link);
      if app == null {
        SendHttpError(404, info, answers);
        return 404;
      }
      code := StartFound(app, name, info, answers, IndexOf(list, name));
    }

    method StartFound(app: Node, name: Text, info: Info, answers: Answers, ghost i: nat) returns (code: int)
      requires Valid() && locked && i < |spine| && app == spine[i] && i == IndexOf(list, name)
      modifies app`state, app`payload, app`body, this`list, this`calls
      ensures Linked()
      ensures Outcome(list, code, None, Now())
           == After(Response(Start(old(list), name, info.body, answers), 0), old(Now()))
      decreases 5
    {
      if info.body == None {
        return ABORTED;
      }
      var body := Take(info.body.value, BODY_SIZE);
      if |body| > MAX_PAYLOAD {
        SendHttpError(413, info, answers);
        return 413;
      }
      var bad := CheckPayload(body);
      if bad {
        SendHttpError(400, info, answers);
        return 400;
      }
      code := Launch(app, name, body, info, answers, i);
    }

    /** The body is admissible: starts the application. */
    method Launch(app: Node, name: Text, body: Text, info: Info, answers: Answers, ghost i: nat) returns (code: int)
      requires Valid() && locked && i < |spine| && app == spine[i]
      requires i == IndexOf(list, name) && |body| <= MAX_PAYLOAD && NulFree(body)
      modifies app`state, app`payload, app`body, this`list, this`calls
      ensures Linked()
      ensures code == if answers.start == Running then 201 else 503
      ensures list == old(list)[i := if answers.start == Running
                                     then old(list)[i].(state := Running, payload := Some(body))
                                     else old(list)[i].(state := answers.start)]
      ensures calls == old(calls) + [StartCall(name, body, Relaunch(old(list)[i], body))]
      decreases 4
    {
      var status := StartCallback(name, body, answers.start);
      ghost var before := list;
      SetState(app, status, i);
      if app.state == Running {
        Printf(info, answers);
        SetPayload(app, body, i);
        assert list == before[i := before[i].(state := Running, payload := Some(body))];
        code := 201;
      } else {
        SendHttpError(503, info, answers);
        code := 503;
      }
    }

    /** The status callback, whose answer becomes the state of the application. */
    method AskStatus(app: Node, name: Text, answers: Answers, ghost i: nat)
      requires Linked() && locked && i < |spine| && app == spine[i]
      modifies app`state, this`list, this`calls
      ensures Linked() && app.state == answers.status
      ensures list == old(list)[i := old(list)[i].(state := answers.status)]
      ensures calls == old(calls) + [StatusCall(name, answers.status)]
    {
      var status := StatusCallback(name, answers.status);
      SetState(app, status, i);
    }

    method HandleStatus(name: Text, info: Info, answers: Answers) returns (code: int, shown: Option<Document>)
      requires Valid() && !locked
      modifies this, spine
      ensures Valid() && !locked && spine == old(spine)
      ensures Outcome(list, code, shown, Now())
           == After(Response(GetStatus(old(list), name, info.legacy, answers), 1), old(Now()))
      decreases 7
    {
      Lock();
      code, shown := StatusLocked(name, info, answers);
      Unlock();
    }

    method StatusLocked(name: Text, info: Info, answers: Answers) returns (code: int, shown: Option<Document>)
      requires Valid() && locked
      modifies this`list, this`calls, spine
      ensures Linked()
      ensures Outcome(list, code, shown, Now())
           == After(Response(GetStatus(old(list), name, info.legacy, answers), 0), old(Now()))
      decreases 6
    {
      var link := FindApp(name);
      var app := Deref(link);
      if app == null {
        SendHttpError(404, info, answers);
        return 404, None;
      }
      var document := StatusFound(app, name, info, answers, IndexOf(list, name));
      return 200, Some(document);
    }

    method StatusFound(app: Node, name: Text, info: Info, answers: Answers, ghost i: nat) returns (document: Document)
      requires Valid() && locked && i < |spine| && app == spine[i] && i == IndexOf(list, name)
      modifies app`state, this`list, this`calls
      ensures Linked()
      ensures Outcome(list, 200, Some(document), Now())
           == After(Response(GetStatus(old(list), name, info.legacy, answers), 0), old(Now()))
      decreases 5
    {
      assert StandsFor(app, list[i]);
      var data := StatusData(app.data);
      AskStatus(app, name, answers, i);
      var local := app.state;
      if info.legacy && local == Hide {
        local := Stopped;
      }
      document := Document(app.name, answers.canStop, local, local != Stopped, data);
      Printf(info, answers);
    }

    method HandleStop(name: Text, info: Info, answers: Answers) returns (code: int)
      requires Valid() && !locked
      modifies this, spine
      ensures Valid() && !locked && spine == old(spine)
      ensures Outcome(list, code, None, Now()) == After(Response(Stop(old(list), name, answers), 1), old(Now()))
      decreases 7
    {
      Lock();
      code := StopLocked(name, info, answers);
      Unlock();
    }

    method StopLocked(name: Text, info: Info, answers: Answers) returns (code: int)
      requires Valid() && locked
      modifies this`list, this`calls, spine
      ensures Linked()
      ensures Outcome(list, code, None, Now()) == After(Response(Stop(old(list), name, answers), 0), old(Now()))
      decreases 6
    {
      var link := FindApp(name);
      var app := Deref(link);
      if app == null {
        SendHttpError(404, info, answers);
        return 404;
      }
      code := StopFound(app, name, info, answers, IndexOf(list, name));
    }

    method StopFound(app: Node, name: Text, info: Info, answers: Answers, ghost i: nat) returns (code: int)
      requires Valid() && locked && i < |spine| && app == spine[i] && i == IndexOf(list, name)
      modifies app`state, this`list, this`calls
      ensures Linked()
      ensures Outcome(list, code, None, Now()) == After(Response(Stop(old(list), name, answers), 0), old(Now()))
      decreases 5
    {
      StopIs(list, name, answers);
      code := StopAsked(app, name, info, answers, i);
    }

    method StopAsked(app: Node, name: Text, info: Info, answers: Answers, ghost i: nat) returns (code: int)
      requires Valid() && locked && i < |spine| && app == spine[i]
      modifies app`state, this`list, this`calls
      ensures Linked() && code == if answers.status == Stopped then 404 else 200
      ensures list == old(list)[i := old(list)[i].(state := Stopped)]
      ensures calls == old(calls) + StopSequence(name, answers)
      decreases 4
    {
      AskStatus(app, name, answers, i);
      if app.state == Stopped {
        SendHttpError(404, info, answers);
        code := 404;
      } else {
        StopRunning(app, name, i);
        Printf(info, answers);
        code := 200;
      }
    }

    method StopRunning(app: Node, name: Text, ghost i: nat)
      requires Linked() && locked && i < |spine| && app == spine[i]
      modifies app`state, this`list, this`calls
      ensures Linked() && list == old(list)[i := old(list)[i].(state := Stopped)]
      ensures calls == old(calls) + [StopCall(name)]
    {
      StopCallback(name);
      SetState(app, Stopped, i);
    }

    method HandleHide(name: Text, info: Info, answers: Answers) returns (code: int)
      requires Valid() && !locked
      modifies this, spine
      ensures Valid() && !locked && spine == old(spine)
      ensures Outcome(list, code, None, Now()) == After(Response(HideApp(old(list), name, answers), 1), old(Now()))
      decreases 7
    {
      Lock();
      code := HideLocked(name, info, answers);
      Unlock();
    }

    method HideLocked(name: Text, info: Info, answers: Answers) returns (code: int)
      requires Valid() && locked
      modifies this`list, this`calls, spine
      ensures Linked()
      ensures Outcome(list, code, None, Now()) == After(Response(HideApp(old(list), name, answers), 0), old(Now()))
      decreases 6
    {
      var link := FindApp(name);
      var app := Deref(link);
      if app == null {
        SendHttpError(404, info, answers);
        return 404;
      }
      code := HideFound(app, name, info, answers, IndexOf(list, name));
    }

    method HideFound(app: Node, name: Text, info: Info, answers: Answers, ghost i: nat) returns (code: int)
      requires Valid() && locked && i < |spine| && app == spine[i] && i == IndexOf(list, name)
      modifies app`state, this`list, this`calls
      ensures Linked()
      ensures Outcome(list, code, None, Now()) == After(Response(HideApp(old(list), name, answers), 0), old(Now()))
      decreases 5
    {
      HideAppIs(list, name, answers);
      code := HideAsked(app, name, info, answers, i);
    }

    method HideAsked(app: Node, name: Text, info: Info, answers: Answers, ghost i: nat) returns (code: int)
      requires Valid() && locked && i < |spine| && app == spine[i]
      modifies app`state, this`list, this`calls
      ensures Linked() && code == HideCode(answers)
      ensures list == old(list)[i := old(list)[i].(state := if code == 200 then Hide else answers.status)]
      ensures calls == old(calls) + HideCalls(name, answers)
      decreases 4
    {
      AskStatus(app, name, answers, i);
      if app.state != Running && app.state != Hide {
        SendHttpError(404, info, answers);
        code := 404;
      } else {
        code := HideVisible(app, name, info, answers, i);
      }
    }

    method HideVisible(app: Node, name: Text, info: Info, answers: Answers, ghost i: nat) returns (code: int)
      requires Valid() && locked && i < |spine| && app == spine[i]
      modifies app`state, this`list, this`calls
      ensures Linked() && code == if answers.hide != Hide then 501 else 200
      ensures list == if code == 200 then old(list)[i := old(list)[i].(state := Hide)] else old(list)
      ensures calls == old(calls) + [HideCall(name, answers.hide)]
      decreases 3, 1
    {
      var status := HideCallback(name, answers.hide);
      if status != Hide {
        SendHttpError(501, info, answers);
        code := 501;
      } else {
        SetState(app, Hide, i);
        Printf(info, answers);
        code := 200;
      }
    }

    /** `handle_dial_data`. What does not fit the buffer is cut off, so that the size check behind
        the read never fails. */
    method HandleDialData(name: Text, usePayload: bool, info: Info, answers: Answers) returns (code: int)
      requires Valid() && !locked
      modifies this, spine
      ensures Valid() && !locked && spine == old(spine)
      ensures Outcome(list, code, None, Now())
           == After(Response(StoreData(old(list), name, DataSource(usePayload, info), answers), 1), old(Now()))
      decreases 7
    {
      Lock();
      code := DataLocked(name, usePayload, info, answers);
      Unlock();
    }

    method DataLocked(name: Text, usePayload: bool, info: Info, answers: Answers) returns (code: int)
      requires Valid() && locked
      modifies this`list, this`files, spine
      ensures Linked()
      ensures Outcome(list, code, None, Now())
           == After(Response(StoreData(old(list), name, DataSource(usePayload, info), answers), 0), old(Now()))
      decreases 6
    {
      var link := FindApp(name);
      var app := Deref(link);
      if app == null {
        SendHttpError(404, info, answers);
        return 404;
      }
      code := DataFound(app, name, DataSource(usePayload, info), info, answers, IndexOf(list, name));
    }

    method DataFound(app: Node, name: Text, text: Source, info: Info, answers: Answers, ghost i: nat)
      returns (code: int)
      requires Valid() && locked && i < |spine| && app == spine[i] && i == IndexOf(list, name)
      modifies app`data, this`list, this`files
      ensures Linked()
      ensures Outcome(list, code, None, Now())
           == After(Response(StoreData(old(list), name, text, answers), 0), old(Now()))
      decreases 5
    {
      if text == None {
        return ABORTED;
      }
      var body := Take(text.value, DATA_MAX_PAYLOAD);
      var bad := CheckPayload(body);
      if bad {
        SendHttpError(400, info, answers);
        return 400;
      }
      assert StandsFor(app, list[i]);
      Replace(app, body, answers.memory, i);
      Printf(info, answers);
      return 200;
    }

    /** The new data, in the list and in the file. */
    method Replace(app: Node, body: Text, memory: DialData.Memory, ghost i: nat)
      requires Linked() && i < |spine| && app == spine[i]
      modifies app`data, this`list, this`files
      ensures Linked()
      ensures list == old(list)[i := old(list)[i].(data := DialData.ParsedParams(body, memory))]
      ensures files == old(files)[app.name := DialData.Printed(DialData.ParsedParams(body, memory))]
    {
      var data := DialData.ParseParams(body, memory);
      SetData(app, data, i);
      SaveData(app.name, data);
    }

    /** The file of the application is written anew. */
    method SaveData(name: Text, data: seq<DialData.Pair>)
      modifies this`files
      ensures files == old(files)[name := DialData.Printed(data)]
      ensures old(Linked()) ==> Linked()
    {
      var file := DialData.StoreDialData(data);
      files := files[name := file];
    }

    // ---------- Origins ----------

    /** `is_allowed_origin`: scans the whole list, and takes the mutex only if it has to look. */
    method IsAllowedOrigin(origin: Option<Text>, name: Text) returns (allowed: bool)
      requires Valid() && !locked
      modifies this`locked, this`acquired, this`released
      ensures Valid() && !locked && acquired == old(acquired) + OriginLocks(origin)
      ensures allowed == AllowedOrigin(list, origin, name)
    {
      if origin == None || origin.value == [] || !ChecksOrigin(origin.value) {
        return true;
      }
      Lock();
      allowed := ScanOrigins(origin.value, name);
      Unlock();
    }

    method ScanOrigins(origin: Text, name: Text) returns (allowed: bool)
      requires Linked() && locked
      ensures allowed <==> Registered(list, name) && Allows(list[IndexOf(list, name)].cors, origin)
    {
      allowed := false;
      var app := apps;
      ghost var i, k := 0, IndexOf(list, name);
      while app != null
        invariant i <= |spine| && app == if i < |spine| then spine[i] else null
        invariant k < i ==> !Allows(list[k].cors, origin)
        decreases |spine| - i
      {
        var matches := false;
        if app.name == name {
          OnlyIndexOf(name, i);
          assert StandsFor(spine[i], list[i]);
          matches := OriginMatches(app.cors, origin);
        }
        if matches {
          return true;
        }
        if app.name != name {
          NotIndexOf(name, i);
        }
        app, i := app.next, i + 1;
      }
    }

    method OriginMatches(cors: Text, origin: Text) returns (matches: bool)
      ensures matches <==> Allows(cors, origin)
    {
      matches := ScanList(origin, cors);
      matches := cors == [] || matches;
    }

    lemma NotIndexOf(name: Text, i: nat)
      requires Linked() && i < |spine| && spine[i].name != name
      ensures IndexOf(list, name) != i
    {
      NamesAgree();
    }

    /** Names are unique: no other node has the name that was looked up. */
    lemma OnlyIndexOf(name: Text, i: nat)
      requires Linked() && i < |spine| && spine[i].name == name
      ensures IndexOf(list, name) == i
    {
      NamesAgree();
      forall j: nat | j < i
        ensures spine[j].name != name
      {
        assert NameAt(spine, j) != NameAt(spine, i);
      }
      IndexIs(list, name, i);
    }

    // ---------- The request handler ----------

    method AdmittedOrNot(host: Option<Text>, origin: Option<Text>, name: Text) returns (admitted: bool)
      requires Valid() && !locked
      modifies this`locked, this`acquired, this`released
      ensures Valid() && !locked
      ensures admitted == GateOf(list, host, origin, name).admitted
      ensures acquired == old(acquired) + GateOf(list, host, origin, name).locks
    {
      admitted := false;
      if host.Some? {
        admitted := IsAllowedOrigin(origin, name);
      }
    }

    method OptionsResponse(host: Option<Text>, origin: Option<Text>, name: Text, info: Info, answers: Answers,
                           ghost gate: Gate)
      returns (code: int)
      requires Valid() && !locked && gate == GateOf(list, host, origin, name)
      modifies this`locked, this`acquired, this`released
      ensures Valid() && !locked
      ensures Outcome(list, code, None, Now())
           == After(Carried(list, Preflight(gate.admitted), gate, answers), old(Now()))
      decreases 6
    {
      var admitted := AdmittedOrNot(host, origin, name);
      if admitted {
        Printf(info, answers);
        return 204;
      }
      SendHttpError(403, info, answers);
      return 403;
    }

    /** `request_handler`. For a log event it is entered while the mutex may be held, and leaves
        everything as it is. */
    method RequestHandler(event: Event, info: Info, answers: Answers) returns (code: int, shown: Option<Document>)
      requires Valid()
      requires event == NewRequest ==> !locked && NulFree(info.uri)
      modifies if event == NewRequest then {this} else {}, if event == NewRequest then spine else []
      ensures Valid() && locked == old(locked) && spine == old(spine)
      ensures event == NewRequest ==>
                (Outcome(list, code, shown, Now()) == Answered(old(list), info, answers, old(Now())))
      decreases if event == NewRequest then 11 else 0
    {
      code, shown := 0, None;
      var host, origin := FindHeaders(info.headers);
      if event == NewRequest {
        var route := ResolveUri(info.uri);
        ghost var r := Routed(info);
        code, shown := HandleNewRequest(route, host, origin, info, answers, r, GateFor(list, r));
      }
    }

    method HandleNewRequest(route: Route, host: Option<Text>, origin: Option<Text>, info: Info, answers: Answers,
                            ghost r: AppRequest, ghost gate: Gate)
      returns (code: int, shown: Option<Document>)
      requires Valid() && !locked && r.route == route && Resolves(info, r)
      requires gate == GateOf(list, host, origin, NameOf(route))
      modifies this, spine
      ensures Valid() && !locked && spine == old(spine)
      ensures Outcome(list, code, shown, Now())
           == After(Carried(old(list), Choose(r, gate.admitted), gate, answers), old(Now()))
      decreases 10
    {
      shown := None;
      match route {
        case RunRoute(name) =>
          code := HandleRunUri(name, host, origin, info, answers, gate);
        case AppRoute(name) =>
          code, shown := HandleAppUri(name, host, origin, info, answers, gate);
        case HideRoute(name) =>
          code := HandleHideUri(name, host, origin, info, answers, gate);
        case DataRoute(name) =>
          code := HandleDataUri(name, host, origin, info, answers, gate);
        case NoRoute =>
          SendHttpError(404, info, answers);
          code := 404;
        case Overrun =>
          code := OVERRUN;
      }
    }

    method StopIfAdmitted(name: Text, host: Option<Text>, origin: Option<Text>, info: Info, answers: Answers,
                          ghost gate: Gate)
      returns (code: int)
      requires Valid() && !locked && gate == GateOf(list, host, origin, name)
      modifies this, spine
      ensures Valid() && !locked && spine == old(spine)
      ensures Outcome(list, code, None, Now())
           == After(if gate.admitted then Response(Stop(old(list), name, answers), gate.locks + 1)
                    else Response(Plain(old(list), 403, []), gate.locks), old(Now()))
      decreases 8
    {
      var admitted := AdmittedOrNot(host, origin, name);
      if admitted {
        code := HandleStop(name, info, answers);
      } else {
        SendHttpError(403, info, answers);
        code := 403;
      }
    }

    method HandleRunUri(name: Text, host: Option<Text>, origin: Option<Text>, info: Info, answers: Answers,
                        ghost gate: Gate)
      returns (code: int)
      requires Valid() && !locked && gate == GateOf(list, host, origin, name)
      modifies this, spine
      ensures Valid() && !locked && spine == old(spine)
      ensures Outcome(list, code, None, Now())
           == After(Carried(old(list), ChooseRun(name, info.verb, gate.admitted), gate, answers), old(Now()))
      decreases 9
    {
      if info.verb == OPTIONS {
        code := OptionsResponse(host, origin, name, info, answers, gate);
      } else if name != [] && info.verb == DELETE {
        code := StopIfAdmitted(name, host, origin, info, answers, gate);
      } else {
        SendHttpError(501, info, answers);
        code := 501;
      }
    }

    method StartIfAdmitted(name: Text, host: Option<Text>, origin: Option<Text>, info: Info, answers: Answers,
                           ghost gate: Gate)
      returns (code: int)
      requires Valid() && !locked && gate == GateOf(list, host, origin, name)
      modifies this, spine
      ensures Valid() && !locked && spine == old(spine)
      ensures Outcome(list, code, None, Now())
           == After(if gate.admitted then Response(Start(old(list), name, info.body, answers), gate.locks + 1)
                    else Response(Plain(old(list), 403, []), gate.locks), old(Now()))
      decreases 8
    {
      var admitted := AdmittedOrNot(host, origin, name);
      if admitted {
        code := HandleStart(name, info, answers);
      } else {
        SendHttpError(403, info, answers);
        code := 403;
      }
    }

    method HandleAppUri(name: Text, host: Option<Text>, origin: Option<Text>, info: Info, answers: Answers,
                        ghost gate: Gate)
      returns (code: int, shown: Option<Document>)
      requires Valid() && !locked && gate == GateOf(list, host, origin, name)
      modifies this, spine
      ensures Valid() && !locked && spine == old(spine)
      ensures Outcome(list, code, shown, Now())
           == After(Carried(old(list), ChooseApp(name, info.verb, info.body, info.legacy, gate.admitted), gate,
                            answers), old(Now()))
      decreases 9
    {
      shown := None;
      if info.verb == OPTIONS {
        code := OptionsResponse(host, origin, name, info, answers, gate);
      } else if info.verb == POST {
        code := StartIfAdmitted(name, host, origin, info, answers, gate);
      } else if info.verb == GET {
        code, shown := HandleStatus(name, info, answers);
      } else {
        SendHttpError(501, info, answers);
        code := 501;
      }
    }

    method HandleHideUri(name: Text, host: Option<Text>, origin: Option<Text>, info: Info, answers: Answers,
                         ghost gate: Gate)
      returns (code: int)
      requires Valid() && !locked && gate == GateOf(list, host, origin, name)
      modifies this, spine
      ensures Valid() && !locked && spine == old(spine)
      ensures Outcome(list, code, None, Now())
           == After(Carried(old(list), ChooseHide(name, info.verb, gate.admitted), gate, answers), old(Now()))
      decreases 9
    {
      if info.verb == OPTIONS {
        code := OptionsResponse(host, origin, name, info, answers, gate);
      } else if name != [] && info.verb == POST {
        code := HandleHide(name, info, answers);
      } else {
        SendHttpError(501, info, answers);
        code := 501;
      }
    }

    method HandleDataUri(name: Text, host: Option<Text>, origin: Option<Text>, info: Info, answers: Answers,
                         ghost gate: Gate)
      returns (code: int)
      requires Valid() && !locked && gate == GateOf(list, host, origin, name)
      modifies this, spine
      ensures Valid() && !locked && spine == old(spine)
      ensures Outcome(list, code, None, Now())
           == After(Carried(old(list), ChooseData(name, info.verb, DataSource(info.verb == POST, info), info.local,
                                                  gate.admitted), gate, answers), old(Now()))
      decreases 9
    {
      if !info.local {
        SendHttpError(403, info, answers);
        code := 403;
      } else if info.verb == OPTIONS {
        code := OptionsResponse(host, origin, name, info, answers, gate);
      } else {
        code := HandleDialData(name, info.verb == POST, info, answers);
      }
    }
  }

  datatype Event = NewRequest | EventLog

  /** `struct mg_request_info`, as far as the handler looks at it. */
  datatype Info = Info(verb: Text, uri: Text, query: Option<Text>, headers: seq<Header>,
                       body: Source, local: bool, legacy: bool)

  function Routed(info: Info): AppRequest {
    AppRequest(info.verb, RouteOf(info.uri), info.query, info.headers, info.body, info.local, info.legacy)
  }

  /** `strncmp` of a literal with the text at `at`. In front of the URI of a delivered request stands a
      NUL (`HttpServer.Delivers`), which no byte of the literal equals: an index before the URI never
      matches. */
  method MatchesAt(uri: Text, at: int, literal: Text) returns (same: bool)
    requires at <= |uri| && NulFree(literal)
    ensures same <==> at >= 0 && literal <= uri[at..]
  {
    if at < 0 {
      return false;
    }
    var i := 0;
    while i < |literal|
      invariant i <= |literal| && at + i <= |uri| && forall k :: 0 <= k < i ==> literal[k] == uri[at + k]
    {
      assert literal[i] in literal;
      var c := if at + i < |uri| then uri[at + i] else NUL;
      if c != literal[i] {
        return false;
      }
      i := i + 1;
    }
    same := true;
  }

  /** `strchr`. */
  method HasByte(t: Text, c: byte) returns (found: bool)
    ensures found <==> c in t
  {
    var i := 0;
    while i < |t|
      invariant i <= |t| && c !in t[..i]
    {
      if t[i] == c {
        return true;
      }
      i := i + 1;
    }
    found := false;
  }

  /** `strstr`. */
  method HasText(t: Text, s: Text) returns (found: bool)
    requires NulFree(s)
    ensures found <==> Contains(t, s)
  {
    var i := 0;
    while i < |t|
      invariant i <= |t| && Contains(t, s) == Contains(t[i..], s)
    {
      found := MatchesAt(t, i, s);
      if found {
        return;
      }
      assert t[i..][1..] == t[i + 1..];
      i := i + 1;
    }
    assert t[i..] == [];
    found := s == [];
  }

  method EndsIn(uri: Text, suffix: Text) returns (ends: bool)
    requires NulFree(suffix)
    ensures ends <==> EndsWith(uri, suffix)
  {
    ends := MatchesAt(uri, |uri| - |suffix|, suffix);
  }

  method FollowsApps(uri: Text) returns (follows: bool)
    ensures follows <==> IsAppUri(uri)
  {
    follows := MatchesAt(uri, 0, APPS_URI);
    if follows {
      var slash := HasByte(uri[|APPS_URI|..], '/');
      follows := !slash;
    }
  }

  /** `strncpy` of `n` bytes into zeroed memory: what follows them there terminates the string. */
  method StrNCpy(dst: array<byte>, src: Text, from: nat, n: nat)
    requires NulFree(src) && from + n <= |src| && n < dst.Length
    requires forall i :: 0 <= i < dst.Length ==> dst[i] == NUL
    modifies dst
    ensures IsString(dst[..], 0, src[from..from + n])
    ensures forall i :: n <= i < dst.Length ==> dst[i] == NUL
  {
    var i := 0;
    while i < n
      invariant i <= n
      invariant forall k :: 0 <= k < i ==> dst[k] == src[from + k] && dst[k] != NUL
      invariant forall k :: i <= k < dst.Length ==> dst[k] == NUL
    {
      assert src[from + i] in src;
      dst[i] := src[from + i];
      i := i + 1;
    }
  }

  /** The copy of the name into a buffer of 256 bytes, if its length, which the source computes
      without a check, is not negative and leaves a terminator. */
  method CopyName(uri: Text, length: int) returns (name: Option<Text>)
    requires NulFree(uri) && length <= |uri| - |APPS_URI|
    ensures name == if 0 <= length <= NAME_MAX then Some(uri[|APPS_URI|..|APPS_URI| + length]) else None
  {
    if length < 0 || length > NAME_MAX {
      return None;
    }
    var buffer := new byte[NAME_MAX + 1](_ => NUL);
    StrNCpy(buffer, uri, |APPS_URI|, length);
    var text := ReadCString(buffer, 0, uri[|APPS_URI|..|APPS_URI| + length]);
    name := Some(text);
  }

  /** The last tests: the URIs that the server itself hands out. */
  method ResolveSystemUri(uri: Text) returns (route: Route)
    requires NulFree(uri) && !IsRunUri(uri) && !IsAppUri(uri)
    ensures route == RouteOf(uri)
  {
    var isHide := EndsIn(uri, HIDE_URI);
    if isHide {
      var name := CopyName(uri, |uri| - |RUN_URI| - |HIDE_URI| - |APPS_URI|);
      return if name.Some? then HideRoute(name.value) else Overrun;
    }
    var isData := HasText(uri, DIAL_DATA_URI);
    if isData {
      var name := ParseAppName(uri);
      return DataRoute(name);
    }
    return NoRoute;
  }

  /** The tests of the handler on the URI, in their order. */
  method ResolveUri(uri: Text) returns (route: Route)
    requires NulFree(uri)
    ensures route == RouteOf(uri)
  {
    var isRun := EndsIn(uri, RUN_URI);
    if isRun {
      var name := CopyName(uri, |uri| - |RUN_URI| - |APPS_URI|);
      return if name.Some? then RunRoute(name.value) else Overrun;
    }
    var isApp := FollowsApps(uri);
    if isApp {
      return AppRoute(uri[|APPS_URI|..]);
    }
    route := ResolveSystemUri(uri);
  }

  /** `r` is the request of `info`, its URI resolved somehow. */
  ghost predicate Resolves(info: Info, r: AppRequest) {
    && r.verb == info.verb && r.query == info.query && r.headers == info.headers
    && r.body == info.body && r.local == info.local && r.legacy == info.legacy
  }

  /** The posted body, or the query. */
  function DataSource(usePayload: bool, info: Info): Source {
    if usePayload then info.body else if info.query.Some? then info.query else Some([])
  }

  /** The files, all callbacks invoked so far, and how often the mutex was taken. */
  datatype Snapshot = Snapshot(files: Files, calls: seq<Call>, acquired: nat)

  /** The applications and the answer, with all that went with it. */
  datatype Outcome = Outcome(list: seq<App>, code: int, shown: Option<Document>, now: Snapshot)

  function After(r: Response, before: Snapshot): Outcome {
    Outcome(r.effect.apps, r.effect.code, r.effect.shown,
            Snapshot(WithSaved(before.files, r.effect.saved), before.calls + r.effect.calls, before.acquired + r.locks))
  }

  /** What the specification says of a new request. */
  function Answered(apps: seq<App>, info: Info, answers: Answers, before: Snapshot): Outcome {
    After(Response(Respond(apps, Routed(info), answers), Locks(apps, Routed(info))), before)
  }

  /** `isBadPayload`. */
  method CheckPayload(t: Text) returns (bad: bool)
    ensures bad <==> IsBadPayload(t)
    ensures !bad ==> NulFree(t)
  {
    bad := false;
    var i := 0;
    while i < |t|
      invariant i <= |t| && forall j :: 0 <= j < i ==> !IsBadByte(t[j])
    {
      if IsBadByte(t[i]) {
        return true;
      }
      i := i + 1;
    }
  }

  /** `ends_with_in_list`. */
  method ScanList(s: Text, list: Text) returns (matches: bool)
    ensures matches <==> EndsWithInList(s, list)
  {
    var rest := list;
    while CSpan(rest, SPACE) < |rest|
      invariant EndsWithInList(s, list) == EndsWithInList(s, rest)
      decreases |rest|
    {
      var k := CSpan(rest, SPACE);
      if EndsWith(s, rest[..k]) {
        return true;
      }
      rest := rest[k + 1..];
    }
    matches := EndsWith(s, rest);
  }

  /** The header loop of the request handler: the last of several headers counts. */
  method FindHeaders(hs: seq<Header>) returns (host: Option<Text>, origin: Option<Text>)
    ensures host == LastHeader(hs, HOST, HOST_LOWER)
    ensures origin == LastHeader(hs, ORIGIN, ORIGIN_LOWER)
  {
    host, origin := None, None;
    var i := 0;
    while i < |hs|
      invariant i <= |hs|
      invariant host == LastHeader(hs[..i], HOST, HOST_LOWER)
      invariant origin == LastHeader(hs[..i], ORIGIN, ORIGIN_LOWER)
    {
      assert hs[..i + 1][..i] == hs[..i] && hs[..i + 1][i] == hs[i];
      if hs[i].name == HOST || hs[i].name == HOST_LOWER {
        host := Some(hs[i].value);
      } else if hs[i].name == ORIGIN || hs[i].name == ORIGIN_LOWER {
        origin := Some(hs[i].value);
      }
      i := i + 1;
    }
    assert hs[..i] == hs;
  }

  // ---------- Two specifications, spelled out ----------

  function HideCode(answers: Answers): int {
    if answers.status == Stopped then 404 else if answers.hide != Hide then 501 else 200
  }

  function HideCalls(name: Text, answers: Answers): seq<Call> {
    if answers.status == Stopped then [StatusCall(name, answers.status)]
    else [StatusCall(name, answers.status), HideCall(name, answers.hide)]
  }

  lemma HideAppIs(apps: seq<App>, name: Text, answers: Answers)
    requires Registered(apps, name)
    ensures var i, code := IndexOf(apps, name), HideCode(answers);
            (HideApp(apps, name, answers)
             == Plain(apps[i := apps[i].(state := if code == 200 then Hide else answers.status)], code,
                      HideCalls(name, answers)))
  {
  }

  function StopSequence(name: Text, answers: Answers): seq<Call> {
    if answers.status == Stopped then [StatusCall(name, answers.status)]
    else [StatusCall(name, answers.status), StopCall(name)]
  }

  lemma StopIs(apps: seq<App>, name: Text, answers: Answers)
    requires Registered(apps, name)
    ensures var i := IndexOf(apps, name);
            (Stop(apps, name, answers)
             == Plain(apps[i := apps[i].(state := Stopped)], if answers.status == Stopped then 404 else 200,
                      StopSequence(name, answers)))
  {
  }

  // ---------- The additional data in a status document ----------

  /** `smartstrcat` into a buffer with room for `DATA_SIZE` bytes. */
  function Appended(text: Text, piece: Text): Text {
    text + Take(piece, Max(0, DATA_SIZE - |text|))
  }

  lemma AppendedIsCut(full: Text, piece: Text)
    ensures Appended(Take(full, DATA_SIZE), piece) == Take(full + piece, DATA_SIZE)
  {
  }

  method ShowField(f: DialData.Field) returns (text: Text)
    ensures text == ShownField(f)
  {
    var src := CString(f.AsString());
    var encoded := new byte[2 * |src| + 1](_ => NUL);
    UrlDecodeXmlEncode(encoded, src);
    StatusTextIsString(src);
    assert IsString(encoded[..], 0, ShownField(f)) by {
      assert encoded[..|ShownField(f)|] == ShownField(f);
      assert forall i :: 0 <= i < |ShownField(f)| ==>
               encoded[i] == ShownField(f)[i] && ShownField(f)[i] in ShownField(f);
    }
    text := ReadCString(encoded, 0, ShownField(f));
  }

  /** An opening or closing tag, behind text that stands for `full` before the cut. */
  method AppendTag(text: Text, open: Text, key: Text, ghost full: Text) returns (longer: Text)
    requires text == Take(full, DATA_SIZE)
    ensures longer == Take(full + open + key + END, DATA_SIZE)
  {
    longer := Appended(text, open);
    AppendedIsCut(full, open);
    longer := Appended(longer, key);
    AppendedIsCut(full + open, key);
    longer := Appended(longer, END);
    AppendedIsCut(full + open + key, END);
  }

  method AppendElement(text: Text, key: Text, value: Text, ghost full: Text) returns (longer: Text)
    requires text == Take(full, DATA_SIZE)
    ensures longer == Take(full + (OPEN + key + END + value + CLOSE + key + END), DATA_SIZE)
  {
    longer := AppendTag(text, OPEN, key, full);
    longer := Appended(longer, value);
    AppendedIsCut(full + OPEN + key + END, value);
    longer := AppendTag(longer, CLOSE, key, full + OPEN + key + END + value);
    assert full + OPEN + key + END + value + CLOSE + key + END
        == full + (OPEN + key + END + value + CLOSE + key + END);
  }

  method ShowElement(text: Text, p: DialData.Pair, ghost full: Text) returns (longer: Text)
    requires text == Take(full, DATA_SIZE)
    ensures longer == Take(full + Element(p), DATA_SIZE)
  {
    var key := ShowField(p.key);
    var value := ShowField(p.value);
    longer := AppendElement(text, key, value, full);
  }

  lemma ElementsUnfold(full: Text, data: seq<DialData.Pair>)
    requires data != []
    ensures full + Element(data[0]) + Elements(data[1..]) == full + Elements(data)
  {
    assert full + Element(data[0]) + Elements(data[1..]) == full + (Element(data[0]) + Elements(data[1..]));
  }

  /** The loop of the status handler over the additional data. */
  method StatusData(data: seq<DialData.Pair>) returns (text: Text)
    ensures text == Take(Elements(data), DATA_SIZE)
  {
    text := [];
    var rest := data;
    ghost var full: Text := [];
    while rest != []
      invariant text == Take(full, DATA_SIZE) && full + Elements(rest) == Elements(data)
      decreases |rest|
    {
      text := ShowElement(text, rest[0], full);
      ElementsUnfold(full, rest);
      full, rest := full + Element(rest[0]), rest[1..];
    }
    assert full + [] == full;
  }
}
