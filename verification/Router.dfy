/**
 The console's router: pathnames decode to a view and an id, navigation encodes
 them back, and the browser's session history drives both.
 An entry of the history is a URL as it was given to the browser; what the page
 reads back is its pathname.
 */
module Router {
  import opened Runs
  import opened Wrappers
  import opened Text
  import opened UrlPath
  import opened Views

  datatype Route = Route(view: View, id: Option<string>)

  const BASE := "/system-admin"

  // ------------------------------------------------------------------- decoding

  /** `replace(/^\/system-admin\/?/, "")`. */
  function StripBase(p: string): string {
    if BASE <= p then
      var rest := p[|BASE|..];
      if rest != "" && rest[0] == '/' then rest[1..] else rest
    else p
  }

  /** `split("/").filter(Boolean)` of the pathname under the base. */
  function Relative(p: string): seq<string> {
    NonBlank(Split(StripBase(p), '/'))
  }

  /** `join("")`. */
  function Concat(pieces: seq<string>): string {
    if pieces == [] then "" else pieces[0] + Concat(pieces[1..])
  }

  /** The first of the views from i on whose path, without separators, is s. */
  function FindView(s: string, i: nat): (r: Option<View>)
    requires i <= TABLE_SIZE
    ensures r.Some? ==> IsListed(r.value) && Segment(r.value) == s
    ensures r.None? ==> forall k | i <= k < TABLE_SIZE :: Segment(LISTED[k]) != s
    decreases TABLE_SIZE - i
  {
    if i == TABLE_SIZE then None
    else if Segment(LISTED[i]) == s then Some(LISTED[i])
    else FindView(s, i + 1)
  }

  /** `routeState` for a pathname. */
  function RouteOf(p: string): Route {
    var relative := Relative(p);
    if |relative| > 1 && relative[0] == "players" then Route(PLAYER360, Some(relative[1]))
    else if |relative| > 1 && relative[0] == "matches" then Route(MATCH360, Some(relative[1]))
    else Route(FindView(Concat(relative), 0).GetOr(OVERVIEW), None)
  }

  // ------------------------------------------------------------------- encoding

  /** A non-empty id: the source tests ids for truth. */
  predicate Truthy(id: Option<string>) {
    id.Some? && id.value != ""
  }

  /** The path `go` navigates to. */
  function PathOf(view: View, id: Option<string>): string {
    if view == PLAYER360 && Truthy(id) then BASE + "/players/" + id.value + "/"
    else if view == MATCH360 && Truthy(id) then BASE + "/matches/" + id.value + "/"
    else BASE + ViewPath(view).GetOr("/")
  }

  // ------------------------------------------------------------------ the machine

  /** The session history and the page's three state fields. */
  datatype NavState = NavState(
    entries: seq<string>,
    pos: nat,
    view: View,
    player360Id: Option<string>,
    match360Id: Option<string>)

  /** There is always a current entry. */
  type Nav = n: NavState | n.pos < |n.entries| witness NavState([""], 0, OVERVIEW, None, None)

  /** What the current URL decodes to. */
  function Current(n: Nav): Route {
    RouteOf(Pathname(n.entries[n.pos]))
  }

  datatype Event =
    | Mount
    | Go(view: View, id: Option<string>, replace: bool)
    | OpenRoute(route: Option<string>)
    | Traverse(delta: int)
    | AdMobMount(callback: bool)

  function Show(n: Nav, r: Route): Nav {
    n.(view := r.view,
       player360Id := if r.view == PLAYER360 then r.id else None,
       match360Id := if r.view == MATCH360 then r.id else None)
  }

  function Push(n: Nav, url: string): Nav
  {
    n.(entries := n.entries[..n.pos + 1] + [url], pos := n.pos + 1)
  }

  function ReplaceEntry(n: Nav, url: string): Nav
  {
    n.(entries := n.entries[n.pos := url])
  }

  function TruthyOrNull(id: Option<string>): Option<string> {
    if Truthy(id) then id else None
  }

  /** The mount effect, and every `popstate`. */
  function Refresh(n: Nav): Nav
  {
    Show(n, Current(n))
  }

  function AfterGo(n: Nav, view: View, id: Option<string>, replace: bool): Nav
  {
    var path := PathOf(view, id);
    Show(if replace then ReplaceEntry(n, path) else Push(n, path), Route(view, TruthyOrNull(id)))
  }

  function AfterOpenRoute(n: Nav, route: Option<string>): Nav
  {
    if Truthy(route) then Refresh(Push(n, BASE + route.value)) else n
  }

  /** Back and forward; leaving the history's range does nothing. */
  function AfterTraverse(n: Nav, delta: int): Nav
  {
    if delta != 0 && 0 <= n.pos + delta < |n.entries| then Refresh(n.(pos := n.pos + delta)) else n
  }

  /** The AdMob view's mount effect; it runs only while that view is shown. */
  function AfterAdMobMount(n: Nav, callback: bool): Nav
  {
    if n.view == ADMOB && callback then ReplaceEntry(n, BASE + "/" + ADMOB + "/") else n
  }

  function Step(n: Nav, e: Event): Nav
  {
    match e
    case Mount => Refresh(n)
    case Go(view, id, replace) => AfterGo(n, view, id, replace)
    case OpenRoute(route) => AfterOpenRoute(n, route)
    case Traverse(delta) => AfterTraverse(n, delta)
    case AdMobMount(callback) => AfterAdMobMount(n, callback)
  }

  // ----------------------------------------------------------------- the page

  /** `AdminPage` and the browser history it writes. */
  class AdminPage {
    var entries: seq<string>
    var pos: nat
    var view: View
    var player360Id: Option<string>
    var match360Id: Option<string>

    ghost predicate Valid()
      reads this
    {
      pos < |entries|
    }

    ghost function State(): Nav
      requires Valid()
      reads this
    {
      NavState(entries, pos, view, player360Id, match360Id)
    }

    /** A page loaded at a URL, before its effects run. */
    constructor (url: string)
      ensures Valid() && State() == NavState([url], 0, OVERVIEW, None, None)
    {
      entries, pos := [url], 0;
      view, player360Id, match360Id := OVERVIEW, None, None;
    }

    /** The mount effect, and every `popstate` event. */
    method OnPopState()
      requires Valid()
      modifies this`view, this`player360Id, this`match360Id
      ensures Valid() && State() == Refresh(old(State()))
    {
      var next := RouteOf(Pathname(entries[pos]));
      view := next.view;
      player360Id := if next.view == PLAYER360 then next.id else None;
      match360Id := if next.view == MATCH360 then next.id else None;
    }

    method Go(nextView: View, id: Option<string>, replace: bool)
      requires Valid()
      modifies this
      ensures Valid() && State() == AfterGo(old(State()), nextView, id, replace)
    {
      var path := PathOf(nextView, id);
      if replace {
        entries := entries[pos := path];
      } else {
        entries := entries[..pos + 1] + [path];
        pos := pos + 1;
      }
      view := nextView;
      player360Id := if nextView == PLAYER360 && Truthy(id) then id else None;
      match360Id := if nextView == MATCH360 && Truthy(id) then id else None;
    }

    method OpenRoute(routeValue: Option<string>)
      requires Valid()
      modifies this
      ensures Valid() && State() == AfterOpenRoute(old(State()), routeValue)
    {
      if !Truthy(routeValue) {
        return;
      }
      entries := entries[..pos + 1] + [BASE + routeValue.value];
      pos := pos + 1;
      OnPopState();
    }

    method Traverse(delta: int)
      requires Valid()
      modifies this
      ensures Valid() && State() == AfterTraverse(old(State()), delta)
    {
      if delta != 0 && 0 <= pos + delta < |entries| {
        pos := pos + delta;
        OnPopState();
      }
    }

    method AdMobMount(callback: bool)
      requires Valid()
      modifies this`entries
      ensures Valid() && State() == AfterAdMobMount(old(State()), callback)
    {
      if view == ADMOB && callback {
        entries := entries[pos := BASE + "/" + ADMOB + "/"];
      }
    }
  }

  // ---------------------------------------------------------- decoding what was encoded

  lemma StripBaseOf(rest: string)
    ensures StripBase(BASE + "/" + rest) == rest
  {
    var p := BASE + "/" + rest;
    assert p == BASE + ("/" + rest);
    assert p[|BASE|..] == "/" + rest;
  }

  lemma BaseSafe()
    ensures UrlSafe("system-admin") && '/' !in "system-admin" && BASE == "/" + "system-admin"
  {
    NoSlash("system-admin");
  }

  lemma PathBelow(first: string, rest: string)
    requires UrlSafe(first) && forall s | s in Split(rest, '/') :: UrlSafe(s)
    ensures Pathname("/" + first + "/" + rest) == "/" + first + "/" + rest
  {
    var p := "/" + first + "/" + rest;
    assert p[1..] == first + ['/'] + rest;
    NoSlash(first);
    SplitPiece(first, rest, '/');
    PathnameFixedIff(p);
  }

  /** Safe segments below the base make a path the browser leaves alone. */
  lemma PathBelowBase(rest: string)
    requires forall s | s in Split(rest, '/') :: UrlSafe(s)
    ensures Pathname(BASE + "/" + rest) == BASE + "/" + rest
  {
    BaseSafe();
    PathBelow("system-admin", rest);
  }

  lemma PathnameOfOne(piece: string)
    requires UrlSafe(piece)
    ensures Pathname(BASE + "/" + piece + "/") == BASE + "/" + piece + "/"
  {
    NoSlash(piece);
    SplitPiece(piece, "", '/');
    assert piece + "/" + "" == piece + "/";
    assert BASE + "/" + piece + "/" == BASE + "/" + (piece + "/");
    PathBelowBase(piece + "/");
  }

  lemma PathnameOfTwo(piece: string, id: string)
    requires UrlSafe(piece) && UrlSafe(id)
    ensures Pathname(BASE + "/" + piece + "/" + id + "/") == BASE + "/" + piece + "/" + id + "/"
  {
    NoSlash(piece);
    NoSlash(id);
    SplitPiece(id, "", '/');
    assert id + "/" + "" == id + "/";
    SplitPiece(piece, id + "/", '/');
    assert BASE + "/" + piece + "/" + id + "/" == BASE + "/" + (piece + "/" + (id + "/"));
    PathBelowBase(piece + "/" + (id + "/"));
  }

  lemma RelativeOfOne(piece: string)
    requires '/' !in piece && piece != ""
    ensures Relative(BASE + "/" + piece + "/") == [piece]
  {
    assert BASE + "/" + piece + "/" == BASE + "/" + (piece + "/");
    StripBaseOf(piece + "/");
    SplitPiece(piece, "", '/');
    assert piece + "/" + "" == piece + "/";
    assert NonBlank([piece, ""]) == [piece] by {
      assert [piece, ""][1..] == [""];
      assert NonBlank([""]) == [];
    }
  }

  lemma RelativeOfTwo(piece: string, id: string)
    requires '/' !in piece && piece != "" && '/' !in id && id != ""
    ensures Relative(BASE + "/" + piece + "/" + id + "/") == [piece, id]
  {
    assert BASE + "/" + piece + "/" + id + "/" == BASE + "/" + (piece + "/" + (id + "/"));
    StripBaseOf(piece + "/" + (id + "/"));
    SplitPiece(piece, id + "/", '/');
    SplitPiece(id, "", '/');
    assert id + "/" + "" == id + "/";
    NonBlankTwo(piece, id);
  }

  lemma NonBlankTwo(a: string, b: string)
    requires a != "" && b != ""
    ensures NonBlank([a] + ([b] + [""])) == [a, b]
  {
    assert ([a] + ([b] + [""]))[1..] == [b] + [""] && ([b] + [""])[1..] == [""];
    assert NonBlank([""]) == [];
  }

  lemma RelativeOfBase()
    ensures Relative(BASE + "/") == []
  {
    assert BASE + "/" + "" == BASE + "/";
    StripBaseOf("");
    assert Split("", '/') == [""];
    assert NonBlank([""]) == [];
  }

  lemma FindListed(v: View)
    requires IsListed(v)
    ensures FindView(Segment(v), 0) == Some(v)
  {
    ListedPlain(v);
    var k :| 0 <= k < TABLE_SIZE && LISTED[k] == v;
    assert Segment(LISTED[k]) == Segment(v);
    var found := FindView(Segment(v), 0).value;
    ListedPlain(found);
  }

  lemma OverviewFound()
    ensures IsListed(OVERVIEW) && FindView("", 0) == Some(OVERVIEW)
  {
    NamedListed();
    FindListed(OVERVIEW);
  }

  /** The pathname names a record: a collection, then an id. */
  predicate NamesRecord(p: string) {
    |Relative(p)| > 1 && Relative(p)[0] in {"players", "matches"}
  }

  /** A listed view is shown exactly when the segments spell its name, however they are cut, and name no record. */
  lemma DecodesToListedIff(p: string, v: View)
    requires IsListed(v) && v != OVERVIEW
    ensures RouteOf(p) == Route(v, None) <==> !NamesRecord(p) && Concat(Relative(p)) == v
  {
    ListedPlain(v);
    FindListed(v);
  }

  /** The overview is shown for everything else. */
  lemma DecodesToOverviewIff(p: string)
    ensures RouteOf(p) == Route(OVERVIEW, None) <==>
            !NamesRecord(p) && !(IsListed(Concat(Relative(p))) && Concat(Relative(p)) != OVERVIEW)
  {
    var s := Concat(Relative(p));
    OverviewFound();
    if IsListed(s) && s != OVERVIEW {
      DecodesToListedIff(p, s);
    }
  }

  /** Decoding the path of a listed view gives the view back, whatever id was passed along. */
  lemma ListedRoundTrip(v: View, id: Option<string>)
    requires IsListed(v)
    ensures RouteOf(Pathname(PathOf(v, id))) == Route(v, None)
  {
    ListedPlain(v);
    if v == OVERVIEW {
      BaseDecodesToOverview();
    } else {
      ListedPath(v);
      PathOfListed(v, id);
    }
  }

  lemma PathOfListed(v: View, id: Option<string>)
    requires IsListed(v) && !Detail(v) && v != OVERVIEW
    ensures PathOf(v, id) == BASE + "/" + v + "/"
  {
    ConcatAssoc(BASE, "/" + v, "/");
    ConcatAssoc(BASE, "/", v);
  }

  lemma BaseDecodesToOverview()
    ensures RouteOf(Pathname(BASE + "/")) == Route(OVERVIEW, None)
  {
    assert BASE + "/" + "" == BASE + "/";
    assert Split("", '/') == [""];
    PathBelowBase("");
    RelativeOfBase();
    OverviewFound();
  }

  lemma PlainSafe(s: string)
    requires Plain(s)
    ensures UrlSafe(s) && '/' !in s
  {
    assert s[0] != '.' && s[0] != '%';
    NoSlash(s);
  }

  lemma ListedPath(v: View)
    requires IsListed(v) && Plain(v) && v != OVERVIEW
    ensures RouteOf(Pathname(BASE + "/" + v + "/")) == Route(v, None)
  {
    PlainSafe(v);
    PathnameOfOne(v);
    RelativeOfOne(v);
    assert Concat([v]) == v + "" == v;
    FindListed(v);
  }

  /** A path that names no record decodes to the overview. */
  lemma UnknownDecodesToOverview(v: View, id: Option<string>)
    requires !IsListed(v) && !(Detail(v) && Truthy(id))
    ensures RouteOf(Pathname(PathOf(v, id))) == Route(OVERVIEW, None)
  {
    assert PathOf(v, id) == BASE + "/";
    BaseDecodesToOverview();
  }

  lemma SafeIdRoundTrip(v: View, id: string)
    requires Detail(v) && id != "" && UrlSafe(id)
    ensures RouteOf(Pathname(PathOf(v, Some(id)))) == Route(v, Some(id))
  {
    var piece := if v == PLAYER360 then "players" else "matches";
    PathOfDetail(v, id);
    PiecesSafe();
    NoSlash(id);
    PathnameOfTwo(piece, id);
    RelativeOfTwo(piece, id);
  }

  lemma PiecesSafe()
    ensures UrlSafe("players") && UrlSafe("matches") && '/' !in "players" && '/' !in "matches"
  {
    NoSlash("players");
    NoSlash("matches");
  }

  lemma PathOfDetail(v: View, id: string)
    requires Detail(v) && id != ""
    ensures PathOf(v, Some(id))
         == BASE + "/" + (if v == PLAYER360 then "players" else "matches") + "/" + id + "/"
  {
    assert BASE + "/players/" == BASE + "/" + "players" + "/";
    assert BASE + "/matches/" == BASE + "/" + "matches" + "/";
  }

  lemma {:induction false} SplitTail(a: string, s: string, sep: char)
    requires sep !in a
    ensures Split(a + s, sep)[1..] == Split(s, sep)[1..]
  {
    if a == "" {
      assert a + s == s;
    } else {
      assert (a + s)[1..] == a[1..] + s;
      SplitTail(a[1..], s, sep);
      assert Prepend(a[0], Split(a[1..] + s, sep))[1..] == Split(a[1..] + s, sep)[1..];
    }
  }

  /** Below the base or beside it, all segments but the first are whole segments of the pathname. */
  lemma SegmentsSafe(p: string)
    requires IsPathname(p)
    ensures forall s | s in Split(StripBase(p), '/')[1..] :: UrlSafe(s)
  {
    var segments := Split(p[1..], '/');
    assert forall s | s in segments[1..] :: s in segments;
    if BASE <= p {
      var rest := p[|BASE|..];
      BaseSafe();
      assert p[1..] == "system-admin" + rest;
      SplitTail("system-admin", rest, '/');
      if rest != "" && rest[0] == '/' {
        assert Split(rest, '/')[1..] == Split(rest[1..], '/');
      }
    } else {
      assert Split(p, '/')[1..] == segments;
    }
  }

  lemma SecondNonBlank(xs: seq<string>)
    requires |NonBlank(xs)| > 1
    ensures NonBlank(xs)[1] in NonBlank(xs[1..])
  {
    if xs[0] != "" {
      assert NonBlank(xs)[1..] == NonBlank(xs[1..]);
    }
  }

  lemma SecondSegmentSafe(p: string)
    requires IsPathname(p) && |Relative(p)| > 1
    ensures Relative(p)[1] != "" && UrlSafe(Relative(p)[1])
  {
    var pieces := Split(StripBase(p), '/');
    SegmentsSafe(p);
    SecondNonBlank(pieces);
    NonBlankIn(pieces[1..], Relative(p)[1]);
  }

  lemma {:induction false} NonBlankIn(xs: seq<string>, s: string)
    requires s in NonBlank(xs)
    ensures s != "" && s in xs
  {
    if xs[0] == "" || s != xs[0] {
      NonBlankIn(xs[1..], s);
    }
  }

  /** Whatever a URL decodes to, an id comes with exactly the detail views, is not empty and is URL-safe. */
  lemma RouteShape(url: string)
    ensures var r := RouteOf(Pathname(url));
            && (Detail(r.view) <==> r.id.Some?)
            && (r.id.Some? ==> r.id.value != "" && UrlSafe(r.id.value))
            && (r.id.None? ==> IsListed(r.view))
  {
    var r := RouteOf(Pathname(url));
    PathnameIs(url);
    if r.id.Some? {
      SecondSegmentSafe(Pathname(url));
    } else {
      OverviewFound();
      ListedPlain(r.view);
    }
  }

  /** A detail view's path decodes back to its id exactly when the id is URL-safe. */
  lemma DetailRoundTripIff(v: View, id: string)
    requires Detail(v) && id != ""
    ensures RouteOf(Pathname(PathOf(v, Some(id)))) == Route(v, Some(id)) <==> UrlSafe(id)
  {
    RouteShape(PathOf(v, Some(id)));
    if UrlSafe(id) {
      SafeIdRoundTrip(v, id);
    }
  }

  /** The detail views live under these paths. */
  lemma DetailPaths(id: string)
    requires id != ""
    ensures PathOf(PLAYER360, Some(id)) == "/system-admin/players/" + id + "/"
    ensures PathOf(MATCH360, Some(id)) == "/system-admin/matches/" + id + "/"
  {
    assert BASE + "/players/" == "/system-admin/players/" && BASE + "/matches/" == "/system-admin/matches/";
    assert |PLAYER360| != |MATCH360|;
  }

  /** A record is shown exactly when the segments are its collection and its id, whatever follows them. */
  lemma DecodesToRecordIff(p: string, id: string)
    ensures RouteOf(p) == Route(PLAYER360, Some(id)) <==>
            |Relative(p)| > 1 && Relative(p)[0] == "players" && Relative(p)[1] == id
    ensures RouteOf(p) == Route(MATCH360, Some(id)) <==>
            |Relative(p)| > 1 && Relative(p)[0] == "matches" && Relative(p)[1] == id
  {
    assert |"player360"| != |"match360"| && |"players"| == |"matches"| && "players"[0] != "matches"[0];
  }

  /** An id without a slash is not enough: these are cut short, rewritten, or taken for a step up. */
  lemma UnsafeIdExamples(id: string)
    requires id in {"a?b", "a b", "a\\b", "..", "%2e"}
    ensures '/' !in id && RouteOf(Pathname(PathOf(PLAYER360, Some(id)))) != Route(PLAYER360, Some(id))
  {
    assert "a?b"[1] == '?' && "a b"[1] == ' ' && "a\\b"[1] == '\\';
    assert |"a?b"| == |"a b"| == |"a\\b"| == |"%2e"| == 3 && |".."| == 2;
    DetailRoundTripIff(PLAYER360, id);
  }

  lemma RelativeOfPair(piece: string, id: string)
    requires '/' !in piece && piece != "" && '/' !in id && id != ""
    ensures Relative(BASE + "/" + (piece + "/" + id)) == [piece, id]
  {
    StripBaseOf(piece + "/" + id);
    SplitPiece(piece, id, '/');
    SplitPiece(id, "", '/');
    assert NonBlank([piece] + [id]) == [piece, id] by {
      assert ([piece] + [id])[1..] == [id] && [id][1..] == [];
      assert NonBlank([id]) == [id];
    }
  }

  /** A question mark in an id cuts it: what comes back is the part before it. */
  lemma QueryCutsId(id: string, rest: string)
    requires id != "" && UrlSafe(id)
    ensures RouteOf(Pathname(PathOf(PLAYER360, Some(id + "?" + rest)))) == Route(PLAYER360, Some(id))
  {
    var p := BASE + "/" + ("players" + "/" + id);
    PiecesSafe();
    NoSlash(id);
    SplitPiece("players", id, '/');
    SplitPiece(id, "", '/');
    PathBelowBase("players" + "/" + id);
    PathnameFixedIff(p);
    QueryIgnored(p, '?', rest + "/");
    RelativeOfPair("players", id);
    DetailPaths(id + "?" + rest);
    QueryPath(id, rest);
  }

  lemma QueryPath(id: string, rest: string)
    ensures "/system-admin/players/" + (id + "?" + rest) + "/"
         == BASE + "/" + ("players" + "/" + id) + ['?'] + (rest + "/")
  {
    assert BASE + "/" + ("players" + "/" + id) == "/system-admin/players/" + id;
  }

  /** Decoding is stable: encoding what a URL decodes to and decoding again gives the same. */
  lemma DecodeStable(url: string)
    ensures var r := RouteOf(Pathname(url)); RouteOf(Pathname(PathOf(r.view, r.id))) == r
  {
    var r := RouteOf(Pathname(url));
    RouteShape(url);
    if r.id.Some? {
      SafeIdRoundTrip(r.view, r.id.value);
    } else {
      ListedRoundTrip(r.view, None);
    }
  }

  // ---------------------------------------------------------------- the invariant

  /** The fields show what the current URL decodes to. */
  predicate Sync(n: Nav)
  {
    n == Show(n, Current(n))
  }

  /** `go` is asked for a listed view, or for a detail view with a non-empty URL-safe id. */
  predicate GoodTarget(view: View, id: Option<string>) {
    IsListed(view) || (Detail(view) && Truthy(id) && UrlSafe(id.value))
  }

  predicate Good(e: Event) {
    e.Go? ==> GoodTarget(e.view, e.id)
  }

  /** In step with the URL, each id is held exactly while its view is shown, and never empty. */
  lemma SyncIds(n: Nav)
    requires Sync(n)
    ensures n.player360Id.Some? <==> n.view == PLAYER360
    ensures n.match360Id.Some? <==> n.view == MATCH360
    ensures n.player360Id != Some("") && n.match360Id != Some("")
  {
    RouteShape(n.entries[n.pos]);
  }

  lemma GoSyncIff(n: Nav, view: View, id: Option<string>, replace: bool)
    ensures Sync(AfterGo(n, view, id, replace)) <==> GoodTarget(view, id)
  {
    var m := AfterGo(n, view, id, replace);
    assert m.entries[m.pos] == PathOf(view, id);
    if IsListed(view) {
      ListedPlain(view);
      ListedRoundTrip(view, id);
    } else if Detail(view) && Truthy(id) {
      DetailRoundTripIff(view, id.value);
      var r := Current(m);
      if r.view == view {
        RouteShape(m.entries[m.pos]);
      }
    } else {
      UnknownDecodesToOverview(view, id);
      OverviewFound();
    }
  }

  lemma ReplaceKeepsSync(n: Nav, url: string)
    requires Sync(n) && RouteOf(Pathname(url)) == Route(n.view, None)
    requires !Detail(n.view)
    ensures Sync(ReplaceEntry(n, url))
  {
  }

  lemma AdMobKeepsSync(n: Nav)
    requires Sync(n)
    ensures Sync(AfterAdMobMount(n, true))
  {
    if n.view == ADMOB {
      NamedListed();
      ListedPlain(ADMOB);
      ListedPath(ADMOB);
      ReplaceKeepsSync(n, BASE + "/" + ADMOB + "/");
    }
  }

  /** One event keeps the fields in step exactly when it is a good one. */
  lemma StepSyncIff(n: Nav, e: Event)
    requires Sync(n)
    ensures Sync(Step(n, e)) <==> Good(e)
  {
    match e {
      case Mount =>
      case Go(view, id, replace) => GoSyncIff(n, view, id, replace);
      case OpenRoute(_) =>
      case Traverse(_) =>
      case AdMobMount(callback) =>
        if callback { AdMobKeepsSync(n); }
    }
  }

  /** After mounting, the fields are in step at every point of a run exactly when every `go` in it is good. */
  lemma RunSyncIff(n: Nav, es: seq<Event>)
    requires Sync(n)
    ensures Always(n, es, Step, Sync) <==> forall i | 0 <= i < |es| :: Good(es[i])
  {
    forall m: Nav, e | Sync(m) ensures Sync(Step(m, e)) <==> Good(e) {
      StepSyncIff(m, e);
    }
    AlwaysIff(n, es, Step, Sync, Good);
  }

  /** Mounting, opening a route, and any actual traversal put the fields in step from any state. */
  lemma PopStateSyncs(n: Nav, e: Event)
    requires || e.Mount? || (e.OpenRoute? && Truthy(e.route))
             || (e.Traverse? && e.delta != 0 && 0 <= n.pos + e.delta < |n.entries|)
    ensures Sync(Step(n, e))
  {
  }

  // ------------------------------------------------------------------------ undo

  /** An event that adds a history entry. */
  predicate Pushes(e: Event) {
    (e.Go? && !e.replace) || (e.OpenRoute? && Truthy(e.route))
  }

  lemma PushStep(n: Nav, e: Event)
    requires Pushes(e)
    ensures var m := Step(n, e);
            m.pos == n.pos + 1 && |m.entries| == m.pos + 1 && m.entries[..n.pos + 1] == n.entries[..n.pos + 1]
  {
  }

  /** m shows the last of k entries added above n's current one; those up to it are as they were. */
  predicate Grown(n: Nav, m: Nav, k: nat) {
    && m.pos == n.pos + k && (k > 0 ==> |m.entries| == m.pos + 1)
    && m.entries[..n.pos + 1] == n.entries[..n.pos + 1]
  }

  /** k pushes add k entries above the current one and leave those below alone. */
  lemma {:induction false} PushesExtend(n: Nav, es: seq<Event>)
    requires forall i | 0 <= i < |es| :: Pushes(es[i])
    ensures Grown(n, Run(n, es, Step), |es|)
  {
    if es != [] {
      var k := |es| - 1;
      PushesExtend(n, es[..k]);
      var m := Run(n, es[..k], Step);
      PushStep(m, es[k]);
      PrefixOfPrefix(m.entries, Step(m, es[k]).entries, m.pos + 1, n.pos + 1);
    }
  }

  lemma PrefixOfPrefix(s: seq<string>, t: seq<string>, i: nat, j: nat)
    requires j <= i <= |s| && i <= |t| && s[..i] == t[..i]
    ensures s[..j] == t[..j]
  {
    assert s[..j] == s[..i][..j] && t[..j] == t[..i][..j];
  }

  /** What a traversal shows depends on the entry it lands on and on nothing else. */
  lemma TraverseShows(n: Nav, delta: int, target: Nav)
    requires delta != 0 && n.pos + delta == target.pos < |n.entries|
    requires n.entries[target.pos] == target.entries[target.pos] && Sync(target)
    ensures AfterTraverse(n, delta) == target.(entries := n.entries)
  {
    var moved := n.(pos := target.pos);
    ShowForgets(moved, target, Current(target));
    assert AfterTraverse(n, delta) == Refresh(moved) == Show(moved, Current(moved));
  }

  /** The three fields shown are those of the route alone. */
  lemma ShowForgets(n: Nav, target: Nav, r: Route)
    requires n.pos == target.pos && target == Show(target, r)
    ensures Show(n, r) == target.(entries := n.entries)
  {
  }

  lemma BackAlong(n: Nav, m: Nav, k: nat)
    requires Sync(n) && k > 0 && Grown(n, m, k)
    ensures AfterTraverse(m, 0 - k) == n.(entries := m.entries)
  {
    assert m.entries[n.pos] == m.entries[..n.pos + 1][n.pos] == n.entries[..n.pos + 1][n.pos] == n.entries[n.pos];
    TraverseShows(m, 0 - k, n);
  }

  /** Going back over any number of pushes shows again exactly what was shown before them. */
  lemma BackUndoesPushes(n: Nav, es: seq<Event>, m: Nav, k: nat)
    requires Sync(n) && es != [] && forall i | 0 <= i < |es| :: Pushes(es[i])
    requires m == Run(n, es, Step) && k == |es|
    ensures Grown(n, m, k) && AfterTraverse(m, 0 - k) == n.(entries := m.entries)
  {
    PushesExtend(n, es);
    BackAlong(n, m, k);
  }

  // ----------------------------------------------------------------- replacing

  /** An event that rewrites the current entry. */
  predicate Replaces(e: Event) {
    (e.Go? && e.replace) || e.AdMobMount?
  }

  /** m's history is n's with at most the current entry changed. */
  predicate SameHistory(n: Nav, m: Nav) {
    && m.pos == n.pos && |m.entries| == |n.entries|
    && forall i | 0 <= i < |n.entries| && i != n.pos :: m.entries[i] == n.entries[i]
  }

  /** A `go` leaves the path it was asked for: in place of the current entry, or above it with nothing further. */
  lemma GoHistory(n: Nav, view: View, id: Option<string>, replace: bool)
    ensures var m := AfterGo(n, view, id, replace);
            && (replace ==> SameHistory(n, m))
            && (!replace ==> Grown(n, m, 1))
            && m.entries[m.pos] == PathOf(view, id)
  {
  }

  /** An opened notification route is pushed under the base; a missing one does nothing. */
  lemma OpenRouteHistory(n: Nav, route: Option<string>)
    ensures var m := AfterOpenRoute(n, route);
            if route.Some? && route.value != "" then
              Grown(n, m, 1) && m.entries[m.pos] == "/system-admin" + route.value
            else m == n
  {
  }

  /** The AdMob view drops the callback's query from its own entry, and nothing else changes. */
  lemma AdMobHistory(n: Nav, callback: bool)
    ensures var m := AfterAdMobMount(n, callback);
            if n.view == ADMOB && callback then
              && SameHistory(n, m) && m.entries[m.pos] == "/system-admin/admob/"
              && m.(entries := n.entries) == n
            else m == n
  {
    assert BASE + "/" + ADMOB + "/" == "/system-admin/admob/";
  }

  lemma ReplaceKeepsGrown(n: Nav, m: Nav, e: Event, k: nat)
    requires Replaces(e) && k > 0 && Grown(n, m, k)
    ensures Grown(n, Step(m, e), k)
  {
    assert SameHistory(m, Step(m, e));
    PrefixBelow(m.entries, Step(m, e).entries, m.pos, n.pos + 1);
  }

  lemma PrefixBelow(s: seq<string>, t: seq<string>, pos: nat, j: nat)
    requires j <= pos < |s| && |t| == |s| && forall i | 0 <= i < |s| && i != pos :: t[i] == s[i]
    ensures s[..j] == t[..j]
  {
  }

  lemma PushGrows(n: Nav, m: Nav, e: Event, k: nat)
    requires Pushes(e) && Grown(n, m, k)
    ensures Grown(n, Step(m, e), k + 1)
  {
    PushStep(m, e);
    PrefixOfPrefix(m.entries, Step(m, e).entries, m.pos + 1, n.pos + 1);
  }

  /** How many of the events are pushes. */
  function Depth(es: seq<Event>): nat {
    if es == [] then 0 else Depth(es[..|es| - 1]) + (if Pushes(es[|es| - 1]) then 1 else 0)
  }

  /** After a first push, pushes grow the history by one each and replacements not at all. */
  lemma {:induction false} VisitsGrow(n: Nav, es: seq<Event>)
    requires es != [] && Pushes(es[0]) && forall i | 0 <= i < |es| :: Pushes(es[i]) || Replaces(es[i])
    ensures Depth(es) > 0 && Grown(n, Run(n, es, Step), Depth(es))
  {
    var k := |es| - 1;
    if k == 0 {
      assert es[..0] == [] && Run(n, es[..0], Step) == n && Depth(es[..0]) == 0;
      PushGrows(n, n, es[0], 0);
    } else {
      VisitsGrow(n, es[..k]);
      if Pushes(es[k]) {
        PushGrows(n, Run(n, es[..k], Step), es[k], Depth(es[..k]));
      } else {
        ReplaceKeepsGrown(n, Run(n, es[..k], Step), es[k], Depth(es[..k]));
      }
    }
  }

  /**
   Leaving a view by a push and then moving on by pushes and replacements in any
   order, going back by the number of pushes shows exactly what was shown before.
   */
  lemma BackUndoesVisits(n: Nav, es: seq<Event>, m: Nav, k: nat)
    requires Sync(n) && es != [] && Pushes(es[0])
    requires forall i | 0 <= i < |es| :: Pushes(es[i]) || Replaces(es[i])
    requires m == Run(n, es, Step) && k == Depth(es)
    ensures AfterTraverse(m, 0 - k) == n.(entries := m.entries)
  {
    VisitsGrow(n, es);
    BackAlong(n, m, k);
  }

  /** Back and then forward is no change when the fields are in step. */
  lemma BackThenForward(n: Nav, k: nat)
    requires Sync(n) && 0 < k <= n.pos
    ensures AfterTraverse(AfterTraverse(n, 0 - k), k) == n
  {
    var back := AfterTraverse(n, 0 - k);
    assert back.entries == n.entries && back.pos == n.pos - k;
    TraverseShows(back, k, n);
  }
}
