/** Where a detail page was opened from, carried in the URL of the page. */
module ReturnTo {
  import opened Common
  import opened FormUrlEncoded

  const RETURN_PATH := "from"
  const RETURN_LABEL := "fromLabel"
  const MAX_LABEL := 120

  // ---- Trimming, as ECMAScript does ----

  predicate Blank(c: char) {
    c == ' ' || '\t' <= c <= '\r' || c == '\U{A0}' || c == '\U{1680}' || '\U{2000}' <= c <= '\U{200A}'
    || c == '\U{2028}' || c == '\U{2029}' || c == '\U{202F}' || c == '\U{205F}' || c == '\U{3000}' || c == '\U{FEFF}'
  }

  /** Of the ASCII characters: tab to carriage return, and the space. */
  lemma BlanksInAscii(c: char)
    requires c as int < 128
    ensures Blank(c) <==> 9 <= c as int <= 13 || c as int == 32
  {
  }

  function TrimStart(s: string): string {
    if s != "" && Blank(s[0]) then TrimStart(s[1..]) else s
  }

  function TrimEnd(s: string): string {
    if s != "" && Blank(s[|s| - 1]) then TrimEnd(s[..|s| - 1]) else s
  }

  function Trim(s: string): string {
    TrimEnd(TrimStart(s))
  }

  function Cut(s: string): string {
    if |s| > MAX_LABEL then s[..MAX_LABEL] else s
  }

  /** The label a link ends up showing: trimmed, cut, and trimmed again. */
  function Kept(caption: string): string {
    Trim(Cut(Trim(caption)))
  }

  lemma {:induction false} StartIsTrimmed(s: string)
    ensures TrimStart(s) == "" || !Blank(TrimStart(s)[0])
    ensures s != "" && !Blank(s[0]) ==> TrimStart(s) == s
  {
    if s != "" { StartIsTrimmed(s[1..]); }
  }

  lemma {:induction false} EndKeepsStart(s: string)
    ensures TrimEnd(s) <= s
    ensures s != "" && !Blank(s[0]) ==> TrimEnd(s) != ""
  {
    if s != "" { EndKeepsStart(s[..|s| - 1]); }
  }

  lemma KeptIsShown(caption: string)
    requires Trim(caption) != ""
    ensures Kept(caption) != "" && Cut(Kept(caption)) == Kept(caption)
  {
    StartIsTrimmed(caption);
    EndKeepsStart(TrimStart(caption));
    var cut := Cut(Trim(caption));
    StartIsTrimmed(cut);
    EndKeepsStart(cut);
  }

  ghost predicate TrimmedAt(s: string, i: nat, j: nat) {
    && i <= j <= |s|
    && (forall k :: 0 <= k < i || j <= k < |s| ==> Blank(s[k]))
    && (i < j ==> !Blank(s[i]) && !Blank(s[j - 1]))
  }

  /** `trim` takes blanks off both ends and nothing else. */
  lemma TrimMeans(s: string)
    ensures exists i: nat, j: nat :: TrimmedAt(s, i, j) && Trim(s) == s[i..j]
  {
    var i := StartAt(s);
    var j := EndAt(s[i..]);
    assert s[i..][..j] == s[i..i + j];
    assert TrimmedAt(s, i, i + j);
  }

  lemma {:induction false} StartAt(s: string) returns (i: nat)
    ensures i <= |s| && TrimStart(s) == s[i..] && (forall k :: 0 <= k < i ==> Blank(s[k])) && (i < |s| ==> !Blank(s[i]))
  {
    if s != "" && Blank(s[0]) {
      i := StartAt(s[1..]);
      i := i + 1;
    } else {
      i := 0;
    }
  }

  lemma {:induction false} EndAt(s: string) returns (j: nat)
    ensures j <= |s| && TrimEnd(s) == s[..j] && (forall k :: j <= k < |s| ==> Blank(s[k])) && (j > 0 ==> !Blank(s[j - 1]))
  {
    if s != "" && Blank(s[|s| - 1]) {
      j := EndAt(s[..|s| - 1]);
    } else {
      j := |s|;
    }
  }

  /** A label within the limit is shown as it was trimmed, a longer one is shown up
      to its 120th character at most. */
  lemma LabelIsShown(caption: string)
    ensures |Trim(caption)| <= 120 ==> Kept(caption) == Trim(caption)
    ensures |Trim(caption)| > 120 ==> Kept(caption) == Trim(Trim(caption)[..120])
    ensures |Kept(caption)| <= 120
  {
    TrimMeans(caption);
    TrimTwice(caption);
    TrimMeans(Cut(Trim(caption)));
  }

  lemma TrimTwice(s: string)
    ensures Trim(Trim(s)) == Trim(s)
  {
    TrimMeans(s);
    var t := Trim(s);
    assert t == "" || (!Blank(t[0]) && !Blank(t[|t| - 1]));
    StartIsTrimmed(t);
  }

  // ---- The four functions ----

  predicate Control(c: char) {
    c <= '\U{1F}' || c == '\U{7F}'
  }

  predicate IsInternalPath(value: string) {
    && "/" <= value && !("//" <= value)
    && '\\' !in value
    && (forall c :: c in value ==> !Control(c))
    && '#' !in value
  }

  function Context(path: string, caption: string): seq<Pair> {
    [Pair(RETURN_PATH, path), Pair(RETURN_LABEL, Cut(Trim(caption)))]
  }

  function ReturnQuery(path: string, caption: string): string {
    if Trim(caption) == "" || !IsInternalPath(path) then ""
    else Serialize(Context(path, caption))
  }

  method ReturnToQuery(path: string, caption: string) returns (query: string)
    ensures query == ReturnQuery(path, caption)
  {
    var trimmed := Trim(caption);
    if trimmed == "" || !IsInternalPath(path) { return ""; }
    var params := new SearchParams([]);
    params.Set(RETURN_PATH, path);
    params.Set(RETURN_LABEL, Cut(trimmed));
    assert params.list == Context(path, caption);
    return params.ToString();
  }

  function WithReturnTo(target: string, path: string, caption: string): string {
    var query := ReturnQuery(path, caption);
    if query == "" then target else target + (if '?' in target then "&" else "?") + query
  }

  datatype Crumb = Crumb(href: string, caption: string)

  function ParseReturnTo(path: Option<string>, caption: Option<string>): Option<Crumb> {
    if path.None? || caption.None? || path.value == "" || caption.value == "" then None
    else if !IsInternalPath(path.value) then None
    else if Trim(caption.value) == "" then None
    else Some(Crumb(path.value, Cut(Trim(caption.value))))
  }

  function Clean(params: seq<Pair>): seq<Pair> {
    Without(Without(params, RETURN_PATH), RETURN_LABEL)
  }

  function Location(pathname: string, search: seq<Pair>): string {
    var query := Serialize(Clean(search));
    if query != "" then pathname + "?" + query else pathname
  }

  method LocationAsReturnTo(pathname: string, search: seq<Pair>) returns (location: string)
    ensures location == Location(pathname, search)
  {
    var params := new SearchParams(search);
    params.Delete(RETURN_PATH);
    params.Delete(RETURN_LABEL);
    var query := params.ToString();
    return if query != "" then pathname + "?" + query else pathname;
  }

  /** A page gets the same location from its parameter list as from the text of it. */
  lemma ListAndTextAgree(pathname: string, search: seq<Pair>)
    ensures Location(pathname, FromText(Serialize(search))) == Location(pathname, search)
    ensures Location(pathname, FromText("?" + Serialize(search))) == Location(pathname, search)
  {
    ListRoundTrip(search);
    var text := Serialize(search);
    assert ("?" + text)[1..] == text;
    assert text != "" ==> text[0] in text;
  }

  /** There is a query exactly when both halves are usable. */
  lemma QueryNeedsBoth(path: string, caption: string)
    ensures ReturnQuery(path, caption) != "" <==> Trim(caption) != "" && IsInternalPath(path)
  {
    QueryIsReadBack(Context(path, caption));
  }

  /** And a crumb exactly when both parameters are there and usable. */
  lemma CrumbNeedsBoth(path: Option<string>, caption: Option<string>)
    ensures ParseReturnTo(path, caption).Some? <==>
      path.Some? && caption.Some? && IsInternalPath(path.value) && Trim(caption.value) != ""
    ensures ParseReturnTo(path, caption).Some? ==> ParseReturnTo(path, caption).value.href == path.value
  {
    if caption.Some? && caption.value == "" { TrimMeans(""); }
    if path.Some? { assert IsInternalPath(path.value) ==> path.value != ""; }
  }

  // ---- The page a link opens ----

  function Pathname(link: string): string {
    Upto(Upto(link, '#'), '?')
  }

  function Params(link: string): seq<Pair> {
    Parse(Past(Upto(link, '#'), '?'))
  }

  function Here(link: string): string {
    Location(Pathname(link), Params(link))
  }

  /** The crumb the opened page shows. */
  function Shown(link: string): Option<Crumb> {
    ParseReturnTo(First(Params(link), RETURN_PATH), First(Params(link), RETURN_LABEL))
  }

  predicate Usable(path: string, caption: string) {
    Trim(caption) != "" && IsInternalPath(path)
  }

  /** Where a query appended to `target` ends up. */
  lemma AppendedQuery(target: string, query: string)
    requires '#' !in query
    ensures var link := target + (if '?' in target then "&" else "?") + query;
      && Pathname(link) == Pathname(target)
      && Params(link) == Params(target) + if '#' in target then [] else Parse(query)
  {
    var joined := (if '?' in target then "&" else "?") + query;
    assert target + (if '?' in target then "&" else "?") + query == target + joined;
    if '#' in target {
      SplitsEarlier(target, '#', joined);
    } else {
      Splits(target, '#', "");
      Splits(target + joined, '#', "");
      if '?' in target {
        SplitsEarlier(target, '?', joined);
        assert Past(target, '?') + joined == Past(target, '?') + "&" + query;
        ParseJoins(Past(target, '?'), query);
      } else {
        assert target + joined == target + ['?'] + query;
        Splits(target, '?', query);
      }
    }
  }

  lemma QueryIsReadBack(list: seq<Pair>)
    requires list != []
    ensures var query := Serialize(list); query != "" && '#' !in query && Parse(query) == list
  {
    ListRoundTrip(list);
  }

  /** The link opens the target's page, with the two parameters after its own;
      behind a fragment they are lost. */
  lemma LinkOpens(target: string, path: string, caption: string)
    ensures var link := WithReturnTo(target, path, caption);
      && Pathname(link) == Pathname(target)
      && Params(link) == Params(target) + if !Usable(path, caption) || '#' in target then [] else Context(path, caption)
  {
    if Usable(path, caption) {
      QueryIsReadBack(Context(path, caption));
      AppendedQuery(target, ReturnQuery(path, caption));
    }
  }

  /** Character by character: one leading slash and not two, no backslash, no
      fragment, and no control character. */
  lemma InternalMeans(value: string)
    ensures IsInternalPath(value) <==>
      && |value| > 0 && value[0] == '/' && (|value| == 1 || value[1] != '/')
      && forall i :: 0 <= i < |value| ==>
           value[i] != '\\' && value[i] != '#' && value[i] as int >= 32 && value[i] as int != 127
  {
    if IsInternalPath(value) {
      assert value[0] == "/"[0];
      assert |value| > 1 && value[1] == '/' ==> "//" <= value;
      assert forall i :: 0 <= i < |value| ==> value[i] in value;
    }
  }

  /** Whatever a link was made to carry, the crumb shown stays on the site. */
  lemma ShownStaysOnTheSite(link: string)
    ensures Shown(link).Some? ==> var href := Shown(link).value.href;
      |href| > 0 && href[0] == '/' && (|href| == 1 || (href[1] != '/' && href[1] != '\\'))
  {
    if Shown(link).Some? { InternalMeans(Shown(link).value.href); }
  }

  // ---- A built link shows the crumb it was built with ----

  /** Neither a fragment nor a return context of its own. */
  predicate Bare(target: string) {
    '#' !in target && !Has(Params(target), RETURN_PATH) && !Has(Params(target), RETURN_LABEL)
  }

  lemma LinkShows(target: string, path: string, caption: string)
    requires Usable(path, caption) && '#' !in target
    ensures var link, own := WithReturnTo(target, path, caption), Params(target);
      && First(Params(link), RETURN_PATH) == (if Has(own, RETURN_PATH) then First(own, RETURN_PATH) else Some(path))
      && First(Params(link), RETURN_LABEL) == (if Has(own, RETURN_LABEL) then First(own, RETURN_LABEL) else Some(Cut(Trim(caption))))
  {
    LinkOpens(target, path, caption);
    var context := Context(path, caption);
    FirstJoins(Params(target), context, RETURN_PATH);
    FirstJoins(Params(target), context, RETURN_LABEL);
    assert context[1..] == [context[1]];
  }

  lemma CrumbComesBack(target: string, path: string, caption: string)
    requires Usable(path, caption) && Bare(target)
    ensures Shown(WithReturnTo(target, path, caption)) == Some(Crumb(path, Kept(caption)))
  {
    LinkShows(target, path, caption);
    KeptIsShown(caption);
    assert Cut(Trim(caption)) != "";
  }

  /** Bare targets are exactly those every crumb comes back from. */
  lemma CrumbComesBackIffBare(target: string)
    ensures Bare(target) <==> forall path, caption :: Usable(path, caption) ==>
      Shown(WithReturnTo(target, path, caption)) == Some(Crumb(path, Kept(caption)))
  {
    if Bare(target) {
      forall path, caption | Usable(path, caption)
        ensures Shown(WithReturnTo(target, path, caption)) == Some(Crumb(path, Kept(caption)))
      {
        CrumbComesBack(target, path, caption);
      }
    } else {
      SampleLabels();
      if '#' in target {
        LinkOpens(target, "/", "a");
        LinkOpens(target, "/", "b");
      } else if Has(Params(target), RETURN_PATH) {
        LinkShows(target, "/", "a");
        LinkShows(target, "/a", "a");
      } else {
        LinkShows(target, "/", "a");
        LinkShows(target, "/", "b");
      }
      var a, b, c := WithReturnTo(target, "/", "a"), WithReturnTo(target, "/", "b"), WithReturnTo(target, "/a", "a");
      assert Shown(a) != Some(Crumb("/", "a")) || Shown(b) != Some(Crumb("/", "b")) || Shown(c) != Some(Crumb("/a", "a"));
    }
  }

  lemma SampleLabels()
    ensures Usable("/", "a") && Usable("/", "b") && Usable("/a", "a")
    ensures Kept("a") == "a" && Kept("b") == "b"
  {
    assert "/a"[0] == '/' && "/a"[1] == 'a';
    assert !("//" <= "/a");
  }

  // ---- Locations ----

  predicate Harmless(c: char) {
    c != '\\' && c != '#' && !Control(c)
  }

  lemma HarmlessTail(path: string, tail: string)
    requires tail != "" && tail[0] == '?' && forall i :: 0 <= i < |tail| ==> Harmless(tail[i])
    ensures IsInternalPath(path + tail) <==> IsInternalPath(path)
  {
    var whole := path + tail;
    InternalMeans(whole);
    InternalMeans(path);
    assert forall i :: 0 <= i < |path| ==> whole[i] == path[i];
    assert forall i :: |path| <= i < |whole| ==> whole[i] == tail[i - |path|];
  }

  /** A location is an internal path whenever the page's own path is one. */
  lemma LocationIsInternal(pathname: string, search: seq<Pair>)
    ensures IsInternalPath(Location(pathname, search)) <==> IsInternalPath(pathname)
  {
    var query := Serialize(Clean(search));
    ListRoundTrip(Clean(search));
    if query != "" {
      var tail := "?" + query;
      assert pathname + "?" + query == pathname + tail;
      forall i | 0 <= i < |tail| ensures Harmless(tail[i]) {
        if i > 0 { assert tail[i] == query[i - 1] && query[i - 1] in query; }
      }
      HarmlessTail(pathname, tail);
    }
  }

  lemma {:induction false} UptoLacks(s: string, c: char, d: char)
    ensures c !in Upto(s, c)
    ensures d in Upto(s, c) ==> d in s
  {
    if s != "" { UptoLacks(s[1..], c, d); }
  }

  lemma CleanHoldsNoContext(search: seq<Pair>)
    ensures !Has(Clean(search), RETURN_PATH) && !Has(Clean(search), RETURN_LABEL)
    ensures Clean(Clean(search)) == Clean(search)
    ensures |Serialize(Clean(search))| <= |Serialize(search)|
  {
    var once := Without(search, RETURN_PATH);
    WithoutRemoves(search, RETURN_PATH, RETURN_PATH);
    WithoutRemoves(once, RETURN_LABEL, RETURN_PATH);
    WithoutRemoves(Clean(search), RETURN_PATH, RETURN_PATH);
    WithoutRemoves(Clean(search), RETURN_LABEL, RETURN_LABEL);
    WithoutIsNoLonger(search, RETURN_PATH);
    WithoutIsNoLonger(once, RETURN_LABEL);
  }

  /** Opening a path with a serialized list after it reads both back. */
  lemma LocationReads(pathname: string, list: seq<Pair>)
    requires '?' !in pathname && '#' !in pathname
    ensures var query := Serialize(list); var location := if query != "" then pathname + "?" + query else pathname;
      Pathname(location) == pathname && Params(location) == list
  {
    var query := Serialize(list);
    Splits(pathname, '?', query);
    Splits(pathname, '#', "");
    if list != [] {
      QueryIsReadBack(list);
      assert pathname + "?" + query == pathname + ['?'] + query;
      Splits(pathname + "?" + query, '#', "");
    }
  }

  /** No return context is left in a location, so none is ever nested in another;
      and it is no longer than the page's own path and query. */
  lemma LocationIsClean(pathname: string, search: seq<Pair>)
    requires '?' !in pathname && '#' !in pathname
    ensures var location := Location(pathname, search);
      && Pathname(location) == pathname && Params(location) == Clean(search)
      && !Has(Params(location), RETURN_PATH) && !Has(Params(location), RETURN_LABEL)
      && Here(location) == location && |location| <= |pathname| + 1 + |Serialize(search)|
  {
    LocationReads(pathname, Clean(search));
    CleanHoldsNoContext(search);
  }

  // ---- What a location keeps ----

  /** Everything but the return context stays, in order: a query without it comes
      back whole, a query in two parts comes back as its parts do, and nothing comes
      back of a pair that records a return. */
  lemma LocationKeepsTheRest(pathname: string, a: seq<Pair>, b: seq<Pair>)
    requires '?' !in pathname && '#' !in pathname
    ensures !Has(a, "from") && !Has(a, "fromLabel") ==> Params(Location(pathname, a)) == a
    ensures Params(Location(pathname, a + b)) == Params(Location(pathname, a)) + Params(Location(pathname, b))
    ensures |a| == 1 && a[0].name in {"from", "fromLabel"} ==> Params(Location(pathname, a)) == []
  {
    LocationIsClean(pathname, a);
    LocationIsClean(pathname, b);
    LocationIsClean(pathname, a + b);
    WithoutJoins(a, b, RETURN_PATH);
    WithoutJoins(Without(a, RETURN_PATH), Without(b, RETURN_PATH), RETURN_LABEL);
    WithoutRemoves(a, RETURN_PATH, RETURN_LABEL);
    WithoutRemoves(Without(a, RETURN_PATH), RETURN_LABEL, RETURN_PATH);
    if |a| == 1 { assert a[1..] == []; }
  }

  /** Pair by pair: a location has exactly the page's pairs of any other name. */
  lemma {:induction false} LocationHas(pathname: string, search: seq<Pair>, p: Pair)
    requires '?' !in pathname && '#' !in pathname
    ensures p in Params(Location(pathname, search)) <==> p in search && p.name != "from" && p.name != "fromLabel"
  {
    if search == [] {
      LocationKeepsTheRest(pathname, [], []);
    } else {
      var first, rest := search[..1], search[1..];
      assert first + rest == search;
      LocationKeepsTheRest(pathname, first, rest);
      LocationHas(pathname, rest, p);
      assert first == [search[0]];
      assert Has(first, "from") <==> search[0].name == "from";
      assert Has(first, "fromLabel") <==> search[0].name == "fromLabel";
    }
  }

  // ---- Any number of hops ----

  /** Opening `target` from wherever one is. */
  datatype Hop = Hop(target: string, caption: string)

  function Opened(link: string, hop: Hop): string {
    WithReturnTo(hop.target, Here(link), hop.caption)
  }

  function Browse(link: string, hops: seq<Hop>): string {
    if hops == [] then link else Opened(Browse(link, hops[..|hops| - 1]), hops[|hops| - 1])
  }

  lemma CleanForgets(own: seq<Pair>, path: string, caption: string)
    ensures Clean(own + Context(path, caption)) == Clean(own)
  {
    var context := Context(path, caption);
    WithoutJoins(own, context, RETURN_PATH);
    assert context[1..] == [context[1]];
    assert Without([context[1]], RETURN_PATH) == [context[1]] by { assert context[1].name != RETURN_PATH by { assert |RETURN_LABEL| == 9; } }
    WithoutJoins(Without(own, RETURN_PATH), [context[1]], RETURN_LABEL);
    assert Without([context[1]], RETURN_LABEL) == [];
  }

  /** Where one came from leaves no trace in the location of the page opened. */
  lemma HopLeavesNoTrace(target: string, path: string, caption: string)
    ensures Here(WithReturnTo(target, path, caption)) == Here(target)
  {
    LinkOpens(target, path, caption);
    CleanForgets(Params(target), path, caption);
    assert Params(target) + [] == Params(target);
  }

  function Last(hops: seq<Hop>): Hop
    requires hops != []
  {
    hops[|hops| - 1]
  }

  /** However long the way, a link depends on its last two targets only: it does
      not grow with the hops. */
  lemma {:induction false} LinksDoNotGrow(link: string, hops: seq<Hop>)
    requires hops != []
    ensures Here(Browse(link, hops)) == Here(Last(hops).target)
    ensures var before := hops[..|hops| - 1];
      before == [] || Browse(link, hops) == WithReturnTo(Last(hops).target, Here(Last(before).target), Last(hops).caption)
    decreases |hops|
  {
    var before := hops[..|hops| - 1];
    if before != [] { LinksDoNotGrow(link, before); }
    HopLeavesNoTrace(Last(hops).target, Here(Browse(link, before)), Last(hops).caption);
  }

  /** After any hops between bare targets the crumb leads to the page one came
      from, whose own location holds no return context. */
  lemma TheCrumbLeadsBack(link: string, hops: seq<Hop>)
    requires |hops| > 1
    requires var last, previous := Last(hops), Last(hops[..|hops| - 1]).target;
      Bare(last.target) && Trim(last.caption) != "" && IsInternalPath(Pathname(previous))
    ensures var previous := Last(hops[..|hops| - 1]).target; var crumb := Shown(Browse(link, hops));
      && crumb == Some(Crumb(Here(previous), Kept(Last(hops).caption)))
      && Here(crumb.value.href) == crumb.value.href && !Has(Params(crumb.value.href), RETURN_PATH)
  {
    var last, previous := Last(hops), Last(hops[..|hops| - 1]).target;
    LinksDoNotGrow(link, hops);
    LocationIsInternal(Pathname(previous), Params(previous));
    CrumbComesBack(last.target, Here(previous), last.caption);
    UptoLacks(Upto(previous, '#'), '?', '#');
    UptoLacks(previous, '#', '#');
    LocationIsClean(Pathname(previous), Params(previous));
  }
}
