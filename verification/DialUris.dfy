/** The URIs of the DIAL server: which application a request is about, and which origins it may
    come from. */
module DialUris {
  import opened Bytes
  import opened Tokenizer
  import opened Wrappers
  import opened UrlLib
  import opened DialApps

  const RUN_NAME: Text := ['r', 'u', 'n']

  /** A name that can be registered and addressed. */
  predicate IsAppName(name: Text) {
    0 < |name| <= NAME_MAX && '/' !in name
  }

  lemma SuffixMatches(s: Text, suffix: Text)
    ensures EndsWith(s + suffix, suffix)
  {
    assert (s + suffix)[|s|..] == suffix;
  }

  /** A string ends differently when one of its last bytes differs from the suffix. */
  lemma SuffixDiffers(s: Text, suffix: Text, k: nat)
    requires k < |suffix| <= |s| && s[|s| - |suffix| + k] != suffix[k]
    ensures !EndsWith(s, suffix)
  {
    assert s[|s| - |suffix|..][k] == s[|s| - |suffix| + k];
  }

  lemma RunUriRoutes(name: Text)
    requires IsAppName(name)
    ensures var uri := APPS_URI + name + RUN_URI; RouteOf(uri) == RunRoute(name)
  {
    var uri := APPS_URI + name + RUN_URI;
    SuffixMatches(APPS_URI + name, RUN_URI);
    assert uri[|APPS_URI|..|uri| - |RUN_URI|] == name;
  }

  lemma SplitsAt(s: Text, k: nat, a: Text, b: Text)
    requires k <= |s|
    ensures s[k..] == a + b <==> |s| == k + |a| + |b| && s[k..k + |a|] == a && s[k + |a|..] == b
  {
    if s[k..] == a + b {
      assert s[k..k + |a|] == (a + b)[..|a|] && s[k + |a|..] == (a + b)[|a|..];
    }
  }

  /** The handler does not look at what stands in front of the name of a run URI: any six bytes do. */
  lemma RunRouteExactly(uri: Text, name: Text)
    ensures RouteOf(uri) == RunRoute(name) <==>
              |name| <= 255 && |uri| >= 6 && uri[6..] == name + "/run"
    ensures RouteOf(uri) == RunRoute(name) ==> (uri == "/apps/" + name + "/run" <==> "/apps/" <= uri)
  {
    if |uri| >= |APPS_URI| {
      SplitsAt(uri, |APPS_URI|, name, RUN_URI);
      assert uri == uri[..|APPS_URI|] + uri[|APPS_URI|..];
      assert APPS_URI + name + RUN_URI == APPS_URI + (name + RUN_URI);
    }
  }

  lemma SlashOnlyInPrefix(name: Text)
    requires '/' !in name
    ensures IsAppUri(APPS_URI + name) && (APPS_URI + name)[|APPS_URI|..] == name
    ensures IsRunUri(APPS_URI + name) <==> name == RUN_NAME
  {
    var uri := APPS_URI + name;
    assert uri[|APPS_URI|..] == name;
    if |name| == 3 {
      assert uri[|uri| - 4..] == ['/'] + name;
    } else {
      var i := |uri| - |RUN_URI|;
      assert uri[i] == if i < |APPS_URI| then APPS_URI[i] else name[i - |APPS_URI|];
      assert i >= |APPS_URI| ==> name[i - |APPS_URI|] in name;
      SuffixDiffers(uri, RUN_URI, if |name| < 3 then 3 - |name| else 0);
    }
  }

  /** The URI of an application reaches it unless the application is called "run": such a URI is
      taken for the run URI of an application without a name. */
  lemma AppUriRoutesExactly(name: Text)
    requires IsAppName(name)
    ensures var uri := APPS_URI + name;
            (RouteOf(uri) == AppRoute(name)) <==> name != RUN_NAME
  {
    SlashOnlyInPrefix(name);
  }

  lemma HideUriRoutes(name: Text)
    requires IsAppName(name)
    ensures var uri := APPS_URI + name + RUN_URI + HIDE_URI; RouteOf(uri) == HideRoute(name)
  {
    var uri := APPS_URI + name + RUN_URI + HIDE_URI;
    SuffixMatches(APPS_URI + name + RUN_URI, HIDE_URI);
    SuffixDiffers(uri, RUN_URI, 3);
    assert uri[|APPS_URI|..][|name|] == '/';
    assert uri[|APPS_URI|..|uri| - |RUN_URI| - |HIDE_URI|] == name;
  }

  /** Without the run segment a hide URI is about an application whose name is four bytes shorter:
      the handler takes the segment for granted. */
  lemma HideUriWithoutRun(name: Text)
    requires IsAppName(name) && |name| >= |RUN_URI|
    ensures var uri := APPS_URI + name + HIDE_URI;
            RouteOf(uri) == HideRoute(name[..|name| - |RUN_URI|])
  {
    var uri := APPS_URI + name + HIDE_URI;
    SuffixMatches(APPS_URI + name, HIDE_URI);
    SuffixDiffers(uri, RUN_URI, 3);
    assert uri[|APPS_URI|..][|name|] == '/';
    assert uri[|APPS_URI|..|uri| - |RUN_URI| - |HIDE_URI|] == name[..|name| - |RUN_URI|];
  }

  lemma EndsInHide(uri: Text)
    ensures IsHideUri(uri) <==> |uri| >= 5 && uri[|uri| - 5..] == "/hide"
    ensures IsHideUri(uri) ==> !IsRunUri(uri)
  {
    if IsHideUri(uri) {
      assert uri[|uri| - 1] == 'e';
      if |uri| >= 5 {
        SuffixDiffers(uri, RUN_URI, 3);
      }
    }
  }

  lemma HideUriHasSlash(uri: Text)
    requires IsHideUri(uri) && |uri| >= 11
    ensures !IsAppUri(uri)
  {
    assert uri[6..][|uri| - 11] == uri[|uri| - 5] == '/';
  }

  lemma HideRouteIs(uri: Text, name: Text)
    ensures RouteOf(uri) == HideRoute(name) <==>
              |name| <= 255 && |uri| == 15 + |name| && uri[6..6 + |name|] == name && IsHideUri(uri)
  {
    EndsInHide(uri);
    if IsHideUri(uri) && |uri| >= 11 {
      HideUriHasSlash(uri);
    }
  }

  /** Nor does it look at the six bytes in front of the name of a hide URI, or at the four behind it. */
  lemma HideRouteExactly(uri: Text, name: Text)
    ensures RouteOf(uri) == HideRoute(name) <==>
              && |name| <= 255 && |uri| == 6 + |name| + 4 + 5
              && uri[6..6 + |name|] == name && uri[|uri| - 5..] == "/hide"
    ensures RouteOf(uri) == HideRoute(name) ==>
              (uri == "/apps/" + name + "/run/hide" <==> "/apps/" <= uri && uri[|uri| - 9..|uri| - 5] == "/run")
  {
    EndsInHide(uri);
    HideRouteIs(uri, name);
    if RouteOf(uri) == HideRoute(name) {
      HideUriParts(uri, name);
    }
  }

  lemma HideUriParts(uri: Text, name: Text)
    requires |uri| == 15 + |name| && uri[6..6 + |name|] == name && uri[|uri| - 5..] == "/hide"
    ensures uri == "/apps/" + name + "/run/hide" <==> "/apps/" <= uri && uri[|uri| - 9..|uri| - 5] == "/run"
  {
    assert uri == uri[..6] + name + uri[|uri| - 9..|uri| - 5] + uri[|uri| - 5..];
    assert "/run" + "/hide" == "/run/hide";
    if uri == "/apps/" + name + "/run/hide" {
      assert uri == "/apps/" + name + ("/run" + "/hide");
      assert uri[|uri| - 9..|uri| - 5] == "/run";
    }
  }

  /** The URIs of applications: no slash behind the prefix, and not the one that ends like a run URI. */
  lemma AppRouteExactly(uri: Text, name: Text)
    ensures RouteOf(uri) == AppRoute(name) <==> uri == "/apps/" + name && '/' !in name && name != "run"
  {
    if uri == "/apps/" + name && '/' !in name {
      assert RUN_NAME == "run" && APPS_URI == "/apps/";
      SlashOnlyInPrefix(name);
    } else if IsAppUri(uri) {
      assert uri == "/apps/" + uri[6..];
    }
  }

  lemma {:induction false} ContainsSuffix(s: Text, t: Text)
    ensures Contains(s + t, t)
  {
    if s == [] {
      assert s + t == t;
    } else {
      assert (s + t)[1..] == s[1..] + t;
      ContainsSuffix(s[1..], t);
    }
  }

  lemma DataUriRoutes(name: Text)
    requires IsAppName(name)
    ensures var uri := APPS_URI + name + DIAL_DATA_URI; RouteOf(uri) == DataRoute(name)
  {
    ContainsSuffix(APPS_URI + name, DIAL_DATA_URI);
    DataUriIsNoOther(name);
    DataUriHasName(name);
  }

  lemma DataUriIsNoOther(name: Text)
    ensures var uri := APPS_URI + name + DIAL_DATA_URI; !IsRunUri(uri) && !IsAppUri(uri) && !IsHideUri(uri)
  {
    var uri := APPS_URI + name + DIAL_DATA_URI;
    SuffixDiffers(uri, RUN_URI, 3);
    SuffixDiffers(uri, HIDE_URI, 4);
    assert uri[|APPS_URI|..][|name|] == '/';
  }

  lemma DataUriHasName(name: Text)
    requires IsAppName(name)
    ensures AppNameOf(APPS_URI + name + DIAL_DATA_URI) == name
  {
    var prefix, suffix := APPS_URI[..5], DIAL_DATA_URI[1..];
    AppNameRecovered(prefix, name, suffix);
    assert APPS_URI + name + DIAL_DATA_URI == prefix + ['/'] + name + ['/'] + suffix;
  }

  predicate OccursAt(t: Text, s: Text, i: nat) {
    i + |s| <= |t| && t[i..i + |s|] == s
  }

  lemma {:induction false} ContainsExactly(t: Text, s: Text)
    ensures Contains(t, s) <==> exists i: nat :: OccursAt(t, s, i)
  {
    assert OccursAt(t, s, 0) <==> s <= t;
    if t != [] {
      ContainsExactly(t[1..], s);
      forall i: nat
        ensures OccursAt(t[1..], s, i) <==> OccursAt(t, s, i + 1)
      {
        if i + 1 + |s| <= |t| {
          assert t[1..][i..i + |s|] == t[i + 1..i + 1 + |s|];
        }
      }
      if OccursLater(t, s) {
        var i: nat :| i > 0 && OccursAt(t, s, i);
        assert OccursAt(t[1..], s, i - 1);
      }
    }
  }

  ghost predicate OccursLater(t: Text, s: Text) {
    exists i: nat :: i > 0 && OccursAt(t, s, i)
  }

  /** The URIs of additional data: `/dial_data` anywhere, unless an earlier test takes the URI. */
  lemma DataRouteExactly(uri: Text)
    ensures RouteOf(uri).DataRoute? <==>
              (exists i: nat :: OccursAt(uri, "/dial_data", i)) && !IsRunUri(uri) && !IsAppUri(uri) && !IsHideUri(uri)
    ensures RouteOf(uri).DataRoute? ==> RouteOf(uri).name == AppNameOf(uri)
  {
    ContainsExactly(uri, DIAL_DATA_URI);
    assert DIAL_DATA_URI == "/dial_data";
  }

  // ---------- Origins ----------

  ghost predicate SomeSegmentEnds(s: Text, list: Text) {
    exists i, j :: IsSegment(list, i, j) && EndsWith(s, list[i..j])
  }

  lemma SegmentShift(list: Text, k: nat, i: int, j: int)
    requires k < |list| && list[k] == ' ' && 0 <= i <= j <= |list| - k - 1
    ensures IsSegment(list[k + 1..], i, j) <==> IsSegment(list, k + 1 + i, k + 1 + j)
    ensures list[k + 1..][i..j] == list[k + 1 + i..k + 1 + j]
  {
    var tail := list[k + 1..];
    assert forall m :: 0 <= m < |tail| ==> tail[m] == list[k + 1 + m];
    assert forall m :: k + 1 <= m < |list| ==> list[m] == tail[m - k - 1];
  }

  /** The segments are the one before the first space and those behind it. */
  lemma FirstSegmentOrLater(s: Text, list: Text, k: nat)
    requires k < |list| && list[k] == ' ' && forall m :: 0 <= m < k ==> list[m] != ' '
    ensures SomeSegmentEnds(s, list) <==> EndsWith(s, list[..k]) || SomeSegmentEnds(s, list[k + 1..])
  {
    assert IsSegment(list, 0, k) && list[0..k] == list[..k];
    forall i, j | IsSegment(list, i, j) && EndsWith(s, list[i..j])
      ensures EndsWith(s, list[..k]) || SomeSegmentEnds(s, list[k + 1..])
    {
      if i > 0 {
        assert list[i - 1] == ' ' && i > k;
        SegmentShift(list, k, i - k - 1, j - k - 1);
      } else {
        assert j == k;
      }
    }
    var tail := list[k + 1..];
    forall i, j | IsSegment(tail, i, j) && EndsWith(s, tail[i..j])
      ensures SomeSegmentEnds(s, list)
    {
      SegmentShift(list, k, i, j);
    }
  }

  /** The scan over the list finds exactly the segments that end the origin. An empty segment,
      from two spaces in a row or at an end of the list, ends every origin. */
  lemma {:induction false} ListScanIsExact(s: Text, list: Text)
    ensures EndsWithInList(s, list) <==> SomeSegmentEnds(s, list)
  {
    var k := CSpan(list, SPACE);
    CSpanStops(list, SPACE);
    if k == |list| {
      assert IsSegment(list, 0, k) && list[0..k] == list;
      forall i, j | IsSegment(list, i, j)
        ensures list[i..j] == list
      {
      }
    } else {
      ListScanIsExact(s, list[k + 1..]);
      FirstSegmentOrLater(s, list, k);
    }
  }

  /** Two spaces in a row, or one at an end of the list. */
  predicate HasEmptySegment(list: Text) {
    list == [] || list[0] == ' ' || list[|list| - 1] == ' '
    || exists i :: 0 < i < |list| && list[i - 1] == list[i] == ' '
  }

  lemma EmptySegmentEnds(s: Text, list: Text)
    requires HasEmptySegment(list)
    ensures SomeSegmentEnds(s, list)
  {
    var i := if list == [] || list[0] == ' ' then 0
             else if list[|list| - 1] == ' ' then |list|
             else var k :| 0 < k < |list| && list[k - 1] == list[k] == ' '; k;
    assert IsSegment(list, i, i) && EndsWith(s, list[i..i]);
  }

  lemma LastBytesAgree(s: Text, suffix: Text)
    requires EndsWith(s, suffix)
    ensures suffix != [] ==> s[|s| - 1] == suffix[|suffix| - 1]
  {
  }

  /** A segment holds no space: none ends a string that ends with one, unless it is empty. */
  lemma OnlyEmptySegmentsEnd(s: Text, list: Text)
    requires s != [] && s[|s| - 1] == ' ' && SomeSegmentEnds(s, list)
    ensures HasEmptySegment(list)
  {
    var i, j :| IsSegment(list, i, j) && EndsWith(s, list[i..j]);
    LastBytesAgree(s, list[i..j]);
    assert i == j;
  }

  /** An origin that is checked and ends with a space. */
  const SPACED: Text := ['h', 't', 't', 'p', ' ']

  /** The access check refuses nobody exactly when the list of the application is empty or has an
      empty segment; otherwise some origin is checked and refused. */
  lemma AllowsEveryOriginExactly(apps: seq<App>, name: Text)
    requires Registered(apps, name)
    ensures (forall origin: Text :: AllowedOrigin(apps, Some(origin), name))
            <==> HasEmptySegment(apps[IndexOf(apps, name)].cors)
  {
    var cors := apps[IndexOf(apps, name)].cors;
    if HasEmptySegment(cors) {
      forall origin: Text
        ensures AllowedOrigin(apps, Some(origin), name)
      {
        ListScanIsExact(origin, cors);
        EmptySegmentEnds(origin, cors);
      }
    } else {
      ListScanIsExact(SPACED, cors);
      if SomeSegmentEnds(SPACED, cors) {
        OnlyEmptySegmentsEnd(SPACED, cors);
      }
      assert ChecksOrigin(SPACED) && !AllowedOrigin(apps, Some(SPACED), name);
    }
  }

  /** A list of 256 bytes or more is dropped when the application is registered, and the application is
      then open to everybody, like one that was given no list. */
  lemma NewAppAdmitsEverybodyExactly(apps: seq<App>, name: Text, cors: Option<Text>, files: Files, residue: Text)
    requires !Registered(apps, name)
    ensures (forall origin: Text :: AllowedOrigin(apps + [NewApp(name, cors, files, residue)], Some(origin), name))
            <==> cors == None || |cors.value| >= 256 || HasEmptySegment(cors.value)
  {
    var grown := apps + [NewApp(name, cors, files, residue)];
    IndexIsFirst(apps, name);
    IndexIs(grown, name, |apps|);
    AllowsEveryOriginExactly(grown, name);
  }

  /** Two spaces between two hosts open the list to every origin. */
  lemma TwoSpacesAllowAnybody(host: Text, other: Text, origin: Text)
    ensures Allows(host + [' ', ' '] + other, origin)
  {
    var list := host + [' ', ' '] + other;
    assert list[|host|] == list[|host| + 1] == ' ';
    ListScanIsExact(origin, list);
    EmptySegmentEnds(origin, list);
  }
}
