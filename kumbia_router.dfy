/** `KumbiaRouter`: decomposing a request path into (module), controller,
    action and parameters, and rewriting a path through the alias table of
    the `routes` configuration section before that. */
module KumbiaRouter {
  import opened Wrappers
  import opened PhpStrings

  /** The associative array `rewrite` builds: a key that is never assigned is `None`. */
  datatype Route = Route(
    moduleName: Option<string>,
    controller: Option<string>,
    controllerPath: Option<string>,
    action: Option<string>,
    parameters: Option<seq<string>>)

  /** The empty array returned for the root path. */
  const EmptyRoute := Route(None, None, None, None, None)

  /** `explode('/', trim($url, '/'))`: the segments `rewrite` walks over. */
  function UrlItems(url: string): (items: seq<string>)
    ensures |items| >= 1
    ensures Join(items, '/') == Trim(url, '/')
    // every `/` of the trimmed path separates two segments
    ensures forall i :: 0 <= i < |items| ==> '/' !in items[i]
  {
    JoinExplode(Trim(url, '/'), '/');
    Explode(Trim(url, '/'), '/')
  }

  /** The segments a route was built from, in the order `rewrite` consumed them. */
  function Segments(r: Route): seq<string> {
    r.moduleName.ToSeq() + r.controller.ToSeq() + r.action.ToSeq() + r.parameters.GetOr([])
  }

  /** The body of `rewrite` after the split: the internal array cursor of
      `next`/`current`/`key` is the local `cursor`, and each key of the
      route is set as the cursor reaches it. */
  method WalkSegments(items: seq<string>, isModule: string -> bool) returns (r: Route)
    requires |items| >= 1
    // the segments are consumed without dropping or reordering one
    ensures Segments(r) == items
    ensures r.controllerPath.Some?
    // the first segment is a module exactly when the directory check says so
    ensures r.moduleName == (if isModule(items[0]) then Some(items[0]) else None)
    // a lone module segment routes to "<module>/index" and nothing else
    ensures r.moduleName.Some? && |items| == 1 ==>
      r == Route(r.moduleName, None, Some(items[0] + "/index"), None, None)
    ensures (r.controller.None? <==> r.moduleName.Some? && |items| == 1)
    // the controller is the segment at the cursor; its path names the module only when the module is truthy
    ensures r.controller.Some? ==>
      var c := if r.moduleName.Some? then 1 else 0;
      && c < |items| && r.controller.value == items[c]
      && r.controllerPath.value ==
           (if r.moduleName.Some? && Truthy(r.moduleName.value) then items[0] + "/" + items[1]
            else r.controller.value)
    // an action follows the controller, and parameters follow the action
    ensures r.action.Some? ==> r.controller.Some?
    ensures r.parameters.Some? ==> r.action.Some? && r.parameters.value != []
    ensures r.action.Some? ==>
      var c := if r.moduleName.Some? then 1 else 0;
      && c + 1 < |items| && r.action.value == items[c + 1]
      && r.parameters.GetOr([]) == items[c + 2..]
  {
    r := EmptyRoute;
    var cursor := 0;
    if isModule(items[0]) {
      r := r.(moduleName := Some(items[0]));
      cursor := cursor + 1;
      if cursor == |items| {
        r := r.(controllerPath := Some(items[0] + "/index"));
        assert Segments(r) == [items[0]] == items;
        return;
      }
    }
    r := r.(controller := Some(items[cursor]));
    r := r.(controllerPath := Some(if r.moduleName.Some? && Truthy(r.moduleName.value)
                                   then items[0] + "/" + items[1] else items[cursor]));
    ghost var consumed := r.moduleName.ToSeq() + [items[cursor]];
    assert consumed == items[..cursor + 1];
    cursor := cursor + 1;
    if cursor == |items| {
      assert Segments(r) == consumed == items;
      return;
    }
    r := r.(action := Some(items[cursor]));
    consumed := consumed + [items[cursor]];
    assert consumed == items[..cursor + 1];
    cursor := cursor + 1;
    if cursor == |items| {
      assert Segments(r) == consumed == items;
      return;
    }
    r := r.(parameters := Some(items[cursor..]));
    assert Segments(r) == consumed + items[cursor..] == items;
  }

  /** `KumbiaRouter::rewrite($url)`: the root path, or the walk over the
      segments of the trimmed path. `isModule(x)` stands for the check
      `is_dir(APP_PATH."controllers/x")`. */
  method Rewrite(url: string, isModule: string -> bool) returns (r: Route)
    // the root path yields the empty map
    ensures url == "/" ==> r == EmptyRoute
    // every other path is split without dropping or reordering a segment
    ensures url != "/" ==> Segments(r) == UrlItems(url)
    ensures url != "/" ==> Join(Segments(r), '/') == Trim(url, '/')
    ensures url != "/" ==> r.controllerPath.Some?
    // the first segment is a module exactly when the directory check says so
    ensures url != "/" ==> r.moduleName == (if isModule(UrlItems(url)[0]) then Some(UrlItems(url)[0]) else None)
    // a lone module segment routes to "<module>/index" and nothing else
    ensures url != "/" && r.moduleName.Some? && |UrlItems(url)| == 1 ==>
      r == Route(r.moduleName, None, Some(UrlItems(url)[0] + "/index"), None, None)
    ensures url != "/" ==> (r.controller.None? <==> r.moduleName.Some? && |UrlItems(url)| == 1)
    // the controller is the segment at the cursor; its path names the module only when the module is truthy
    ensures r.controller.Some? ==>
      var c := if r.moduleName.Some? then 1 else 0;
      && c < |UrlItems(url)| && r.controller.value == UrlItems(url)[c]
      && r.controllerPath.value ==
           (if r.moduleName.Some? && Truthy(r.moduleName.value) then UrlItems(url)[0] + "/" + UrlItems(url)[1]
            else r.controller.value)
    // an action follows the controller, and parameters follow the action
    ensures r.action.Some? ==> r.controller.Some?
    ensures r.parameters.Some? ==> r.action.Some? && r.parameters.value != []
    ensures r.action.Some? ==>
      var c := if r.moduleName.Some? then 1 else 0;
      && c + 1 < |UrlItems(url)| && r.action.value == UrlItems(url)[c + 1]
      && r.parameters.GetOr([]) == UrlItems(url)[c + 2..]
  {
    if url == "/" {
      return EmptyRoute;
    }
    r := WalkSegments(UrlItems(url), isModule);
  }

  /** The `routes` section of the configuration: pattern keys and their
      replacements, in the order the file lists them. */
  type RouteTable = seq<(string, string)>

  /** A PHP array has each key once. */
  predicate UniqueKeys(t: RouteTable) {
    forall i, j :: 0 <= i < j < |t| ==> t[i].0 != t[j].0
  }

  /** `isset($routes[$key]) ? $routes[$key] : null`. */
  function Lookup(t: RouteTable, key: string): (r: Option<string>)
    ensures r.None? <==> forall i :: 0 <= i < |t| ==> t[i].0 != key
    ensures UniqueKeys(t) ==> forall i :: 0 <= i < |t| && t[i].0 == key ==> r == Some(t[i].1)
  {
    if |t| == 0 then None
    else if t[0].0 == key then Some(t[0].1)
    else Lookup(t[1..], key)
  }

  /** `strripos($key, '*', -1)` is truthy: the key has a `*`, and its last one is not at index 0. */
  predicate HasInnerStar(key: string)
    // the test holds exactly when some `*` follows the first character
    ensures HasInnerStar(key) <==> exists i :: 0 < i < |key| && key[i] == '*'
  {
    var p := LastIndexOf(key, '*');
    p.Some? && p.value > 0
  }

  /** One pass of the `foreach` over the table: the rewritten path when the
      entry `key => val` fires for `url`, `None` when the loop moves on. */
  function RewriteEntry(key: string, val: string, url: string): (r: Option<string>)
    ensures key == "/*" ==> r == Some(TrimRight(val, '*') + url)
    ensures key != "/*" ==> (r.Some? <==> HasInnerStar(key) && TrimRight(key, '*') <= url)
    ensures key != "/*" && r.Some? ==>
      r.value == ReplaceAll(url, TrimRight(key, '*'), TrimRight(val, '*'))
    // a non-empty matched prefix is always replaced at the front of the path
    ensures key != "/*" && r.Some? && TrimRight(key, '*') != "" ==> TrimRight(val, '*') <= r.value
  {
    if key == "/*" then Some(TrimRight(val, '*') + url)
    else if HasInnerStar(key) then
      var prefix := TrimRight(key, '*');
      if prefix <= url then Some(ReplaceAll(url, prefix, TrimRight(val, '*'))) else None
    else None
  }

  /** The `foreach` over the table: the first entry that fires decides. */
  function FirstWildcard(url: string, t: RouteTable): (r: Option<string>)
    ensures r.None? <==> forall i :: 0 <= i < |t| ==> RewriteEntry(t[i].0, t[i].1, url).None?
    decreases |t|
  {
    if |t| == 0 then None
    else
      match RewriteEntry(t[0].0, t[0].1, url)
      case Some(v) => Some(v)
      case None =>
        assert forall i :: 1 <= i < |t| ==> t[i] == t[1..][i - 1];
        FirstWildcard(url, t[1..])
  }

  /** `KumbiaRouter::_ifRouted($url)` over the table `t`: an exact key wins,
      then the first wildcard entry that fires, else the path is kept. */
  function IfRouted(url: string, t: RouteTable): (r: string)
    requires UniqueKeys(t)
    ensures Lookup(t, url).Some? ==> r == Lookup(t, url).value
    ensures forall i :: 0 <= i < |t| && t[i].0 == url ==> r == t[i].1
    ensures Lookup(t, url).None? && (forall i :: 0 <= i < |t| ==> RewriteEntry(t[i].0, t[i].1, url).None?)
      ==> r == url
  {
    match Lookup(t, url)
    case Some(v) => v
    case None => FirstWildcard(url, t).GetOr(url)
  }

  /** Wildcard entries are tried in table order: the first one that fires
      decides the result, whatever the later entries say. */
  lemma {:induction false} FirstWildcardAt(url: string, t: RouteTable, i: nat)
    requires i < |t| && RewriteEntry(t[i].0, t[i].1, url).Some?
    requires forall j :: 0 <= j < i ==> RewriteEntry(t[j].0, t[j].1, url).None?
    ensures FirstWildcard(url, t) == RewriteEntry(t[i].0, t[i].1, url)
    decreases i
  {
    if i > 0 {
      assert t[i] == t[1..][i - 1];
      assert forall j :: 0 <= j < i - 1 ==> t[1..][j] == t[j + 1];
      FirstWildcardAt(url, t[1..], i - 1);
    }
  }

  /** With no exact key for `url`, `_ifRouted` returns what the first firing
      wildcard entry makes of it. */
  lemma FirstMatchWins(url: string, t: RouteTable, i: nat)
    requires UniqueKeys(t) && Lookup(t, url).None?
    requires i < |t| && RewriteEntry(t[i].0, t[i].1, url).Some?
    requires forall j :: 0 <= j < i ==> RewriteEntry(t[j].0, t[j].1, url).None?
    ensures IfRouted(url, t) == RewriteEntry(t[i].0, t[i].1, url).value
  {
    FirstWildcardAt(url, t, i);
  }

  /** An exact key is preferred even when an earlier entry is a catch-all. */
  lemma ExactKeyBeforeCatchAll(url: string, val: string, t: RouteTable)
    requires url != "/*"
    requires UniqueKeys(t) && Lookup(t, "/*").None?
    requires Lookup(t, url) == Some(val)
    ensures IfRouted(url, [("/*", "/app/*")] + t) == val
  {
    assert ([("/*", "/app/*")] + t)[1..] == t;
  }

  /** The catch-all key (a slash and a star) with the value `/app/` and a
      star puts `/app/` in front of every path, except the catch-all key
      itself, which matches as an exact key. */
  lemma CatchAllPrepends(url: string)
    requires url != "/*"
    ensures IfRouted(url, [("/*", "/app/*")]) == "/app/" + url
  {
    assert TrimRight("/app/", '*') == "/app/";
  }

  /** `str_replace` on a path that holds the needle at both ends. */
  lemma ReplaceAllExample()
    ensures ReplaceAll("/blog/x/blog", "/blog", "/news") == "/news/x/news"
  {
    var p, mid, rep := "/blog", "/x", "/news";
    var t := mid + p;
    assert t[1] == 'x';
    forall j | 0 <= j < |mid| ensures !OccursAt(t, p, j) {
      if j == 0 {
        assert t[j..][1] == 'x' != p[1];
      } else {
        assert t[j..][0] == 'x' != p[0];
      }
    }
    ReplaceBothEnds(p, mid, rep);
    assert p + (mid + p) == "/blog/x/blog";
    assert rep + (mid + rep) == "/news/x/news";
  }

  /** `str_replace` replaces every occurrence of the matched prefix, not only
      the leading one: `/blog* => /news*` turns `/blog/x/blog` into `/news/x/news`. */
  lemma PrefixRuleReplacesEveryOccurrence()
    ensures IfRouted("/blog/x/blog", [("/blog*", "/news*")]) == "/news/x/news"
  {
    var url := "/blog/x/blog";
    var t := [("/blog*", "/news*")];
    assert Lookup(t, url) == None;
    assert LastIndexOf("/blog*", '*') == Some(5);
    assert TrimRight("/blog", '*') == "/blog";
    assert TrimRight("/blog*", '*') == "/blog";
    assert TrimRight("/news", '*') == "/news";
    assert TrimRight("/news*", '*') == "/news";
    assert "/blog" <= url;
    ReplaceAllExample();
    assert RewriteEntry("/blog*", "/news*", url) == Some("/news/x/news");
    assert FirstWildcard(url, t) == Some("/news/x/news");
  }
}
