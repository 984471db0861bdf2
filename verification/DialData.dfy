/** Additional data of an application: parsed from a query, stored in a file, read back. */
module DialData {
  import opened Bytes
  import opened Tokenizer
  import opened HttpHead

  /** A stored string, or memory that `sscanf` did not fill in and what it happens to hold. */
  datatype Field = Unset(residue: Text) | Set(text: Text) {

    /** The C string in it. */
    function AsString(): Text {
      if Set? then text else CString(residue)
    }
  }

  datatype Pair = Pair(key: Field, value: Field)

  const AMPERSAND: Text := ['&']
  const EQUALS: Text := ['=']
  const WORD_MAX := 255

  function Reverse<T>(s: seq<T>): seq<T> {
    if s == [] then [] else Reverse(s[1..]) + [s[0]]
  }

  lemma {:induction false} ReverseAppend<T>(s: seq<T>, x: T)
    ensures Reverse(s + [x]) == [x] + Reverse(s)
  {
    if s == [] {
      assert Reverse([x][1..]) == [];
    } else {
      ReverseAppend(s[1..], x);
      assert (s + [x])[1..] == s[1..] + [x];
    }
  }

  lemma {:induction false} ReverseTwice<T>(s: seq<T>)
    ensures Reverse(Reverse(s)) == s
  {
    if s != [] {
      ReverseTwice(s[1..]);
      ReverseAppend(Reverse(s[1..]), s[0]);
    }
  }

  // ---------- Parsing a query ----------

  /** The longest prefix without white space: what `%s` converts. */
  function NonBlank(t: Text): Text { Word(t, WHITE) }

  function AfterBlanks(t: Text): Text { t[Span(t, WHITE)..] }

  function Converted(word: Text, residue: Text): Field {
    if word == [] then Unset(residue) else Set(word)
  }

  /** What freshly allocated memory holds, as a string, each time it is asked. */
  type Memory = nat -> Text

  /** `sscanf(token, "%[^=]=%s", key, value)`, into memory that held `key` and `value` before. */
  function ScanNameValue(token: Text, key: Text, value: Text): Pair {
    var name := Word(token, EQUALS);
    if name == [] || name == token then Pair(Converted(name, key), Unset(value))
    else Pair(Set(name), Converted(NonBlank(AfterBlanks(token[|name| + 1..])), value))
  }

  /** The node for a token, when `n` bytes of the query were left. */
  function NodeOf(token: Text, n: nat, memory: Memory): Pair {
    ScanNameValue(token, memory(2 * n), memory(2 * n + 1))
  }

  /** `strtok` by `&`, which skips empty tokens; each token is put in front of the list. */
  function Collect(t: Text, list: seq<Pair>, memory: Memory): seq<Pair>
    decreases |t|
  {
    var token := Word(t, AMPERSAND);
    if t == [] then list
    else if token == [] then Collect(t[1..], list, memory)
    else if token == t then [NodeOf(token, |t|, memory)] + list
    else Collect(t[|token| + 1..], [NodeOf(token, |t|, memory)] + list, memory)
  }

  function WithoutQuestion(query: Text): Text {
    if query != [] && query[0] == '?' then query[1..] else query
  }

  /** The list that `parse_params` returns, its head first. */
  function ParsedParams(query: Text, memory: Memory): seq<Pair> {
    if |query| <= 2 then [] else Collect(WithoutQuestion(query), [], memory)
  }

  /** `parse_params`. */
  method ParseParams(query: Text, memory: Memory) returns (list: seq<Pair>)
    ensures list == ParsedParams(query, memory)
  {
    list := [];
    if |query| <= 2 {
      return;
    }
    var rest := WithoutQuestion(query);
    while rest != []
      invariant Collect(rest, list, memory) == Collect(WithoutQuestion(query), [], memory)
      decreases |rest|
    {
      var k := CSpan(rest, AMPERSAND);
      if k == 0 {
        rest := rest[1..];
      } else if k == |rest| {
        assert rest[..k] == rest;
        list := [NodeOf(rest, |rest|, memory)] + list;
        return;
      } else {
        list := [NodeOf(rest[..k], |rest|, memory)] + list;
        rest := rest[k + 1..];
      }
    }
  }

  // ---------- The file ----------

  /** A pair that can be written and read back. */
  predicate Storable(p: Pair) {
    p.key.Set? && p.value.Set? && IsStorableWord(p.key.text) && IsStorableWord(p.value.text)
  }

  predicate IsStorableWord(w: Text) {
    0 < |w| <= 255 && forall c <- w :: c as int != 32 && !(9 <= c as int <= 13)
  }

  predicate AllStorable(ps: seq<Pair>) {
    ps == [] || (Storable(ps[0]) && AllStorable(ps[1..]))
  }

  predicate IsSet(p: Pair) {
    p.key.Set? && p.value.Set?
  }

  /** No field is unset memory. */
  predicate AllSet(ps: seq<Pair>) {
    ps == [] || (IsSet(ps[0]) && AllSet(ps[1..]))
  }

  function Line(p: Pair): Text {
    p.key.AsString() + [' '] + p.value.AsString() + ['\n']
  }

  function Printed(ps: seq<Pair>): Text {
    if ps == [] then [] else Line(ps[0]) + Printed(ps[1..])
  }

  /** The same, line by line behind what was written before. */
  function PrintedBehind(file: Text, ps: seq<Pair>): Text
    decreases |ps|
  {
    if ps == [] then file else PrintedBehind(file + Line(ps[0]), ps[1..])
  }

  lemma {:induction false} PrintedInOrder(file: Text, ps: seq<Pair>)
    ensures PrintedBehind(file, ps) == file + Printed(ps)
    decreases |ps|
  {
    if ps == [] {
      assert file + [] == file;
    } else {
      PrintedInOrder(file + Line(ps[0]), ps[1..]);
      JoinedEitherWay(file, Line(ps[0]), Printed(ps[1..]));
    }
  }

  lemma JoinedEitherWay(a: Text, b: Text, c: Text)
    ensures a + b + c == a + (b + c)
  {
  }

  /** `store_dial_data`: one line for each pair, whatever unset memory holds. */
  method StoreDialData(list: seq<Pair>) returns (file: Text)
    ensures file == Printed(list)
  {
    PrintedInOrder([], list);
    file := [];
    var rest := list;
    while rest != []
      invariant PrintedBehind(file, rest) == PrintedBehind([], list)
      decreases |rest|
    {
      file, rest := file + Line(rest[0]), rest[1..];
    }
  }

  /** `%255s`: white space, then at most 255 bytes up to the next white space. */
  function ScannedWord(t: Text): Text {
    var u := AfterBlanks(t);
    u[..Min(WORD_MAX, CSpan(u, WHITE))]
  }

  function AfterWord(t: Text): (r: Text)
    ensures |r| <= |t| && (ScannedWord(t) != [] ==> |r| < |t|)
  {
    var u := AfterBlanks(t);
    u[Min(WORD_MAX, CSpan(u, WHITE))..]
  }

  /** The value that `fscanf("%255s %255s\\n", key, value)` leaves; at the end of the file the
      variable keeps the value it had before. */
  function ScannedValue(t: Text, before: Field): Field {
    var word := ScannedWord(AfterWord(t));
    if word == [] then before else Set(word)
  }

  function AfterPair(t: Text): (r: Text)
    ensures ScannedWord(t) != [] ==> |r| < |t|
  {
    AfterBlanks(AfterWord(AfterWord(t)))
  }

  /** Reads pairs until the end of the file; each is put in front of the list. */
  function RetrievedFrom(t: Text, value: Field, list: seq<Pair>): seq<Pair>
    decreases |t|
  {
    if ScannedWord(t) == [] then list
    else
      var newValue := ScannedValue(t, value);
      RetrievedFrom(AfterPair(t), newValue, [Pair(Set(ScannedWord(t)), newValue)] + list)
  }

  /** The list that `retrieve_dial_data` returns, its head first. `residue` is what the variable for
      the value holds before the first pair is read. */
  function Retrieved(file: Text, residue: Text): seq<Pair> {
    RetrievedFrom(file, Unset(residue), [])
  }

  method RetrieveDialData(file: Text, residue: Text) returns (list: seq<Pair>)
    ensures list == Retrieved(file, residue)
  {
    list := [];
    var rest, value := file, Unset(residue);
    while ScannedWord(rest) != []
      invariant RetrievedFrom(rest, value, list) == Retrieved(file, residue)
      decreases |rest|
    {
      value := ScannedValue(rest, value);
      list := [Pair(Set(ScannedWord(rest)), value)] + list;
      rest := AfterPair(rest);
    }
  }

  // ---------- Round trips ----------

  /** One word followed by white space. */
  lemma WordScans(w: Text, blank: byte, rest: Text)
    requires IsStorableWord(w) && blank in WHITE
    ensures ScannedWord(w + [blank] + rest) == w && AfterWord(w + [blank] + rest) == [blank] + rest
  {
    var t := w + [blank] + rest;
    assert t[0] == w[0] && w[0] in w;
    SpanIs(t, 0, WHITE);
    assert t[0..] == t;
    assert forall i :: 0 <= i < |w| ==> t[i] == w[i] && w[i] in w;
    CSpanIs(t, |w|, WHITE);
    assert t[|w|..] == [blank] + rest;
  }

  lemma BlankIsSkipped(blank: byte, rest: Text)
    requires blank in WHITE && (rest == [] || rest[0] !in WHITE)
    ensures AfterBlanks([blank] + rest) == rest
  {
    SpanIs([blank] + rest, 1, WHITE);
  }

  lemma BlankBeforeWord(blank: byte, w: Text, rest: Text)
    requires IsStorableWord(w) && blank in WHITE && (rest != [] && rest[0] in WHITE)
    ensures ScannedWord([blank] + (w + rest)) == w && AfterWord([blank] + (w + rest)) == rest
  {
    assert (w + rest)[0] == w[0] && w[0] in w;
    BlankIsSkipped(blank, w + rest);
    var t := w + rest;
    assert forall i :: 0 <= i < |w| ==> t[i] == w[i] && w[i] in w;
    CSpanIs(t, |w|, WHITE);
  }

  /** The file continues with this pair. */
  ghost predicate PairComesFirst(t: Text, p: Pair, rest: Text) {
    && ScannedWord(t) != [] && Set(ScannedWord(t)) == p.key
    && ScannedWord(AfterWord(t)) != [] && Set(ScannedWord(AfterWord(t))) == p.value
    && AfterPair(t) == rest
  }

  lemma LineScans(p: Pair, rest: Text)
    requires Storable(p) && (rest == [] || rest[0] !in WHITE)
    ensures PairComesFirst(Line(p) + rest, p, rest)
  {
    var k, v := p.key.text, p.value.text;
    var t := Line(p) + rest;
    assert t == k + [' '] + (v + (['\n'] + rest));
    WordScans(k, ' ', v + (['\n'] + rest));
    BlankBeforeWord(' ', v, ['\n'] + rest);
    BlankIsSkipped('\n', rest);
  }

  /** Reading pairs off `t` one by one gives `ps` and leaves `tail`. */
  ghost predicate FileYields(t: Text, ps: seq<Pair>, tail: Text)
    decreases |ps|
  {
    if ps == [] then t == tail
    else PairComesFirst(t, ps[0], AfterPair(t)) && FileYields(AfterPair(t), ps[1..], tail)
  }

  lemma {:induction false} StorableIsSet(ps: seq<Pair>)
    requires AllStorable(ps)
    ensures AllSet(ps)
  {
    if ps != [] {
      StorableIsSet(ps[1..]);
    }
  }

  lemma PrintedStart(ps: seq<Pair>)
    requires AllStorable(ps)
    ensures Printed(ps) == [] || Printed(ps)[0] !in WHITE
  {
    if ps != [] {
      var k := ps[0].key.text;
      assert Printed(ps)[0] == k[0] && k[0] in k;
    }
  }

  lemma {:induction false} PrintedFileYields(ps: seq<Pair>, tail: Text)
    requires AllStorable(ps) && (tail == [] || tail[0] !in WHITE)
    ensures FileYields(Printed(ps) + tail, ps, tail)
  {
    if ps == [] {
      assert Printed(ps) + tail == tail;
    } else {
      var rest := Printed(ps[1..]) + tail;
      PrintedStart(ps[1..]);
      assert rest == [] || rest[0] !in WHITE;
      assert Printed(ps) + tail == Line(ps[0]) + rest;
      LineScans(ps[0], rest);
      PrintedFileYields(ps[1..], tail);
    }
  }

  lemma OnePairRetrieved(t: Text, p: Pair, rest: Text, value: Field, list: seq<Pair>)
    requires PairComesFirst(t, p, rest)
    ensures RetrievedFrom(t, value, list) == RetrievedFrom(rest, p.value, [p] + list)
  {
  }

  lemma ReverseCons(ps: seq<Pair>, list: seq<Pair>)
    requires ps != []
    ensures Reverse(ps[1..]) + ([ps[0]] + list) == Reverse(ps) + list
  {
  }

  /** The value of the last pair, or what the variable held before. */
  function LastValue(ps: seq<Pair>, before: Field): Field {
    if ps == [] then before else ps[|ps| - 1].value
  }

  lemma {:induction false} YieldedPairsAreRetrieved(t: Text, ps: seq<Pair>, tail: Text, value: Field, list: seq<Pair>)
    requires FileYields(t, ps, tail)
    ensures RetrievedFrom(t, value, list) == RetrievedFrom(tail, LastValue(ps, value), Reverse(ps) + list)
    decreases |ps|
  {
    hide RetrievedFrom, AfterPair, ScannedWord;
    if ps == [] {
      assert [] + list == list;
    } else {
      OnePairRetrieved(t, ps[0], AfterPair(t), value, list);
      YieldedPairsAreRetrieved(AfterPair(t), ps[1..], tail, ps[0].value, [ps[0]] + list);
      ReverseCons(ps, list);
    }
  }

  lemma NothingIsRetrieved(value: Field, list: seq<Pair>)
    ensures RetrievedFrom([], value, list) == list
  {
    assert AfterBlanks([]) == [];
  }

  lemma LastWordScans(w: Text)
    requires IsStorableWord(w)
    ensures ScannedWord(w) == w && AfterWord(w) == []
  {
    hide Span, CSpan;
    assert forall i :: 0 <= i < |w| ==> w[i] in w;
    assert w[0] !in WHITE && forall i :: 0 <= i < |w| ==> w[i] !in WHITE;
    SpanIs(w, 0, WHITE);
    assert w[0..] == w;
    CSpanIs(w, |w|, WHITE);
    assert w[..|w|] == w && w[|w|..] == [];
  }

  lemma LastWordIsRetrieved(w: Text, value: Field, list: seq<Pair>)
    requires IsStorableWord(w)
    ensures RetrievedFrom(w, value, list) == [Pair(Set(w), value)] + list
  {
    LastWordScans(w);
    assert AfterBlanks([]) == [];
    NothingIsRetrieved(value, [Pair(Set(w), value)] + list);
  }

  /** A key without a value at the end of the file gets the value of the pair before it, or what the
      memory of the variable holds. */
  lemma LoneKeyRepeatsValue(ps: seq<Pair>, w: Text, residue: Text)
    requires AllStorable(ps) && IsStorableWord(w)
    ensures Retrieved(Printed(ps) + w, residue)
         == [Pair(Set(w), if ps == [] then Unset(residue) else ps[|ps| - 1].value)] + Reverse(ps)
  {
    hide RetrievedFrom;
    var value := LastValue(ps, Unset(residue));
    assert w[0] in w;
    PrintedFileYields(ps, w);
    YieldedPairsAreRetrieved(Printed(ps) + w, ps, w, Unset(residue), []);
    assert Reverse(ps) + [] == Reverse(ps);
    LastWordIsRetrieved(w, value, Reverse(ps));
  }

  /** A field that `fscanf` can have produced. */
  predicate Scannable(f: Field) {
    f.Set? ==> IsStorableWord(f.text)
  }

  ghost predicate AllScannable(ps: seq<Pair>) {
    forall p <- ps :: p.key.Set? && Scannable(p.key) && Scannable(p.value)
  }

  lemma ScannedWordIsStorable(t: Text)
    ensures ScannedWord(t) != [] ==> IsStorableWord(ScannedWord(t))
  {
    CSpanStops(AfterBlanks(t), WHITE);
  }

  lemma {:induction false} RetrievedIsScannable(t: Text, value: Field, list: seq<Pair>)
    requires Scannable(value) && AllScannable(list)
    ensures AllScannable(RetrievedFrom(t, value, list))
    decreases |t|
  {
    if ScannedWord(t) != [] {
      ScannedWordIsStorable(t);
      ScannedWordIsStorable(AfterWord(t));
      var newValue := ScannedValue(t, value);
      RetrievedIsScannable(AfterPair(t), newValue, [Pair(Set(ScannedWord(t)), newValue)] + list);
    }
  }

  lemma {:induction false} ScannableIsStorable(ps: seq<Pair>)
    requires AllSet(ps) && AllScannable(Reverse(ps))
    ensures AllStorable(ps)
  {
    if ps != [] {
      assert ps[0] in Reverse(ps) && forall p <- Reverse(ps[1..]) :: p in Reverse(ps);
      ScannableIsStorable(ps[1..]);
    }
  }

  lemma StoreThenRetrieveReverses(ps: seq<Pair>, residue: Text)
    requires AllStorable(ps)
    ensures Retrieved(Printed(ps), residue) == Reverse(ps)
  {
    PrintedFileYields(ps, []);
    assert Printed(ps) + [] == Printed(ps) && Reverse(ps) + [] == Reverse(ps);
    YieldedPairsAreRetrieved(Printed(ps), ps, [], Unset(residue), []);
    NothingIsRetrieved(LastValue(ps, Unset(residue)), Reverse(ps));
  }

  /** Reading a stored list back reverses it, and none of it is unset memory, exactly when every
      word is non-empty, free of white space and at most 255 bytes long. */
  lemma StoreThenRetrieveExactly(ps: seq<Pair>, residue: Text)
    ensures AllSet(ps) && Retrieved(Printed(ps), residue) == Reverse(ps) <==> AllStorable(ps)
  {
    if AllStorable(ps) {
      StorableIsSet(ps);
      StoreThenRetrieveReverses(ps, residue);
    }
    if AllSet(ps) && Retrieved(Printed(ps), residue) == Reverse(ps) {
      RetrievedIsScannable(Printed(ps), Unset(residue), []);
      ScannableIsStorable(ps);
    }
  }

  lemma {:induction false} StorableAppend(ps: seq<Pair>, p: Pair)
    requires AllStorable(ps) && Storable(p)
    ensures AllStorable(ps + [p])
  {
    if ps == [] {
      assert ps + [p] == [p] && AllStorable([p][1..]);
    } else {
      StorableAppend(ps[1..], p);
      assert (ps + [p])[1..] == ps[1..] + [p];
    }
  }

  lemma {:induction false} ReverseStorable(ps: seq<Pair>)
    requires AllStorable(ps)
    ensures AllStorable(Reverse(ps))
  {
    if ps != [] {
      ReverseStorable(ps[1..]);
      StorableAppend(Reverse(ps[1..]), ps[0]);
    }
  }

  /** Two cycles through the file restore any list of storable pairs. */
  lemma TwoCyclesAreIdentity(ps: seq<Pair>, residue: Text)
    requires AllStorable(ps)
    ensures Retrieved(Printed(Retrieved(Printed(ps), residue)), residue) == ps
  {
    StoreThenRetrieveReverses(ps, residue);
    ReverseStorable(ps);
    StoreThenRetrieveReverses(Reverse(ps), residue);
    ReverseTwice(ps);
  }

  /** A query that names storable pairs. */
  predicate AllPostable(ps: seq<Pair>) {
    ps == [] || (Storable(ps[0]) && Postable(ps[0]) && AllPostable(ps[1..]))
  }

  predicate Postable(p: Pair)
    requires Storable(p)
  {
    '&' !in p.key.text && '=' !in p.key.text && '&' !in p.value.text
  }

  function QueryItem(p: Pair): Text
    requires Storable(p)
  {
    p.key.text + ['='] + p.value.text
  }

  function QueryText(ps: seq<Pair>): Text
    requires AllPostable(ps)
  {
    if ps == [] then []
    else if |ps| == 1 then QueryItem(ps[0])
    else QueryItem(ps[0]) + ['&'] + QueryText(ps[1..])
  }

  lemma ItemScans(p: Pair, key: Text, value: Text)
    requires Storable(p) && Postable(p)
    ensures ScanNameValue(QueryItem(p), key, value) == p
  {
    var t, k, v := QueryItem(p), p.key.text, p.value.text;
    assert forall i :: 0 <= i < |k| ==> t[i] == k[i] && k[i] in k;
    CSpanIs(t, |k|, EQUALS);
    assert t[|k| + 1..] == v && t[..|k|] == k;
    assert v[0] in v;
    SpanIs(v, 0, WHITE);
    assert v[0..] == v;
    assert forall i :: 0 <= i < |v| ==> v[i] in v;
    CSpanIs(v, |v|, WHITE);
    assert v[..|v|] == v;
  }

  /** Reading items off a query one by one gives `ps`. */
  ghost predicate QueryYields(t: Text, ps: seq<Pair>, memory: Memory)
    decreases |ps|
  {
    var token := Word(t, AMPERSAND);
    if ps == [] then t == []
    else
      && token != [] && NodeOf(token, |t|, memory) == ps[0]
      && if token == t then |ps| == 1 else QueryYields(t[|token| + 1..], ps[1..], memory)
  }

  lemma FirstItem(p: Pair, rest: Text)
    requires Storable(p) && Postable(p) && (rest == [] || rest[0] == '&')
    ensures Word(QueryItem(p) + rest, AMPERSAND) == QueryItem(p) != []
    ensures rest != [] ==> (QueryItem(p) + rest)[|QueryItem(p)| + 1..] == rest[1..]
  {
    var item, t := QueryItem(p), QueryItem(p) + rest;
    ItemWithoutAmpersand(p);
    assert forall i :: 0 <= i < |item| ==> t[i] == item[i] && item[i] in item;
    CSpanIs(t, |item|, AMPERSAND);
  }

  /** The first token of a printed query and what follows its ampersand. */
  lemma QueryUnfolds(ps: seq<Pair>)
    requires AllPostable(ps) && ps != []
    ensures Word(QueryText(ps), AMPERSAND) == QueryItem(ps[0]) != []
    ensures |ps| == 1 <==> QueryText(ps) == QueryItem(ps[0])
    ensures |ps| > 1 ==> QueryText(ps)[|QueryItem(ps[0])| + 1..] == QueryText(ps[1..])
  {
    var item := QueryItem(ps[0]);
    if |ps| == 1 {
      FirstItem(ps[0], []);
      assert item + [] == item;
    } else {
      var rest := QueryText(ps[1..]);
      assert item + ['&'] + rest == item + (['&'] + rest);
      FirstItem(ps[0], ['&'] + rest);
    }
  }

  lemma {:induction false} QueryTextYields(ps: seq<Pair>, memory: Memory)
    requires AllPostable(ps)
    ensures QueryYields(QueryText(ps), ps, memory)
  {
    if ps != [] {
      var n := |QueryText(ps)|;
      QueryUnfolds(ps);
      ItemScans(ps[0], memory(2 * n), memory(2 * n + 1));
      if |ps| > 1 {
        QueryTextYields(ps[1..], memory);
      }
    }
  }

  lemma {:induction false} YieldedItemsAreCollected(t: Text, ps: seq<Pair>, list: seq<Pair>, memory: Memory)
    requires QueryYields(t, ps, memory)
    ensures Collect(t, list, memory) == Reverse(ps) + list
    decreases |ps|
  {
    if ps != [] {
      var token := Word(t, AMPERSAND);
      if token == t {
        assert Reverse(ps) == [] + [ps[0]];
      } else {
        YieldedItemsAreCollected(t[|token| + 1..], ps[1..], [ps[0]] + list, memory);
      }
      ReverseCons(ps, list);
    }
  }

  lemma ItemWithoutAmpersand(p: Pair)
    requires Storable(p) && Postable(p)
    ensures '&' !in QueryItem(p)
  {
  }

  lemma {:induction false} PostableIsStorable(ps: seq<Pair>)
    requires AllPostable(ps)
    ensures AllStorable(ps)
  {
    if ps != [] {
      PostableIsStorable(ps[1..]);
    }
  }

  lemma QueryIsLong(ps: seq<Pair>)
    requires AllPostable(ps) && ps != []
    ensures |QueryText(ps)| > 2 && QueryText(ps)[0] == ps[0].key.text[0]
  {
  }

  /** From the query to the list in memory, to the file, and back after a restart: the list in
      memory is in reverse order, the reloaded list in the order of the query. */
  lemma PostThenReload(ps: seq<Pair>, memory: Memory, residue: Text)
    requires AllPostable(ps) && (ps != [] ==> ps[0].key.text[0] != '?')
    ensures ParsedParams(QueryText(ps), memory) == Reverse(ps)
    ensures Retrieved(Printed(Reverse(ps)), residue) == ps
  {
    if ps != [] {
      QueryIsLong(ps);
      QueryTextYields(ps, memory);
      YieldedItemsAreCollected(QueryText(ps), ps, [], memory);
    }
    PostableIsStorable(ps);
    ReverseStorable(ps);
    StoreThenRetrieveReverses(Reverse(ps), residue);
    ReverseTwice(ps);
  }

  lemma {:induction false} AmpersandsAreSkipped(t: Text, n: nat, list: seq<Pair>, memory: Memory)
    ensures Collect(seq(n, _ => '&') + t, list, memory) == Collect(t, list, memory)
  {
    var more := seq(n, _ => '&') + t;
    if n == 0 {
      assert more == t;
    } else {
      assert more[0] == '&' && more[1..] == seq(n - 1, _ => '&') + t;
      AmpersandsAreSkipped(t, n - 1, list, memory);
    }
  }

  /** A question mark in front of the query, and ampersands behind it, are skipped. */
  lemma QuestionMarkIsSkipped(ps: seq<Pair>, n: nat, memory: Memory)
    requires AllPostable(ps) && ps != []
    ensures ParsedParams(['?'] + seq(n, _ => '&') + QueryText(ps), memory) == Reverse(ps)
  {
    var t := seq(n, _ => '&') + QueryText(ps);
    assert ['?'] + seq(n, _ => '&') + QueryText(ps) == ['?'] + t && (['?'] + t)[1..] == t;
    QueryIsLong(ps);
    AmpersandsAreSkipped(QueryText(ps), n, [], memory);
    QueryTextYields(ps, memory);
    YieldedItemsAreCollected(QueryText(ps), ps, [], memory);
    assert Reverse(ps) + [] == Reverse(ps);
  }

  predicate IsBlankByte(c: byte) {
    c as int == 32 || 9 <= c as int <= 13
  }

  /** A token without an equals sign has only a key, one that starts with it not even that; the fields
      that are not there stay what the memory was. */
  lemma TokenScansExactly(token: Text, key: Text, value: Text)
    requires token != []
    ensures '=' !in token ==> ScanNameValue(token, key, value) == Pair(Set(token), Unset(value))
    ensures token[0] == '=' ==> ScanNameValue(token, key, value) == Pair(Unset(key), Unset(value))
  {
    if '=' !in token {
      CSpanIs(token, |token|, EQUALS);
      assert token[..|token|] == token;
    }
  }

  lemma NameEndsAtEquals(name: Text, tail: Text)
    requires '=' !in name
    ensures var token := name + ['='] + tail;
            Word(token, EQUALS) == name && token[|name| + 1..] == tail && name != token
  {
    var token := name + ['='] + tail;
    assert forall i :: 0 <= i < |name| ==> token[i] == name[i] && name[i] in name;
    CSpanIs(token, |name|, EQUALS);
  }

  lemma WordBehindBlanks(blank: Text, word: Text, rest: Text)
    requires (forall c <- blank :: IsBlankByte(c)) && (forall c <- word :: !IsBlankByte(c))
    requires (rest != [] ==> IsBlankByte(rest[0])) && (word == [] ==> rest == [])
    ensures NonBlank(AfterBlanks(blank + word + rest)) == word
  {
    var tail, t := blank + word + rest, word + rest;
    assert forall i :: 0 <= i < |blank| ==> tail[i] == blank[i] && blank[i] in blank;
    assert word != [] ==> tail[|blank|] == word[0] && word[0] in word;
    SpanIs(tail, |blank|, WHITE);
    assert tail[|blank|..] == t;
    assert forall i :: 0 <= i < |word| ==> t[i] == word[i] && word[i] in word;
    CSpanIs(t, |word|, WHITE);
  }

  /** Behind the first equals sign stands the value: a word without white space, if there is one. */
  lemma ValueScansExactly(name: Text, blank: Text, word: Text, rest: Text, key: Text, value: Text)
    requires name != [] && '=' !in name
    requires (forall c <- blank :: IsBlankByte(c)) && (forall c <- word :: !IsBlankByte(c))
    requires (rest != [] ==> IsBlankByte(rest[0])) && (word == [] ==> rest == [])
    ensures ScanNameValue(name + ['='] + (blank + word + rest), key, value)
         == Pair(Set(name), if word == [] then Unset(value) else Set(word))
  {
    NameEndsAtEquals(name, blank + word + rest);
    WordBehindBlanks(blank, word, rest);
  }

  lemma {:induction false} CollectKeepsList(t: Text, list: seq<Pair>, memory: Memory)
    ensures |Collect(t, list, memory)| >= |list|
    ensures Collect(t, list, memory) == list <==> forall i :: 0 <= i < |t| ==> t[i] == '&'
    decreases |t|
  {
    if t != [] {
      CSpanStops(t, AMPERSAND);
      var token := Word(t, AMPERSAND);
      if token == [] {
        CollectKeepsList(t[1..], list, memory);
        assert forall i :: 0 < i < |t| ==> t[i] == t[1..][i - 1];
        assert forall i :: 0 <= i < |t| - 1 ==> t[1..][i] == t[i + 1];
      } else if token != t {
        CollectKeepsList(t[|token| + 1..], [NodeOf(token, |t|, memory)] + list, memory);
      }
    }
  }

  /** A query of at most two bytes has no pairs, and a longer one has none exactly when nothing but
      ampersands follows its question mark, if it starts with one. */
  lemma NoPairsExactly(query: Text, memory: Memory)
    ensures ParsedParams(query, memory) == [] <==>
              |query| <= 2 || forall i :: 0 <= i < |query| ==> query[i] == '&' || (i == 0 && query[i] == '?')
  {
    if |query| > 2 {
      var t := if query[0] == '?' then query[1..] else query;
      CollectKeepsList(t, [], memory);
      if query[0] == '?' {
        assert forall i :: 0 < i < |query| ==> query[i] == t[i - 1];
        assert forall i :: 0 <= i < |t| ==> t[i] == query[i + 1];
      }
    }
  }
}
