/** The Swagger worker (src/workers/swaggerWorker.ts): the routes of an OpenAPI document, the
    address of the Swagger UI initializer script and the base address of a Swagger UI page. */
module SwaggerWorker {
  import opened Wrappers
  import opened Text

  /** An operation object; only the two fields the importer reads. */
  datatype Operation = Operation(summary: Option<string>, operationId: Option<string>)

  /** A path item: all its keys (HTTP methods and any other keys) with their values read as
      operations, in key order. */
  type PathItem = seq<(string, Operation)>

  /** A parsed document; `paths` is `None` when absent or falsy, otherwise its keys in order. */
  datatype SwaggerDoc = SwaggerDoc(paths: Option<seq<(string, PathItem)>>)

  /** One extracted route; `verb` is the route's `method`. */
  datatype Route = Route(path: string, verb: string, summary: string, operationId: string)

  /** The route of one (path, method) key pair. */
  function MakeRoute(path: string, verb: string, op: Operation): (r: Route)
    ensures r.path == path && r.verb == ToUpper(verb)
    ensures r.summary == (if op.summary.Some? then op.summary.value else "")
    ensures r.operationId == (if op.operationId.Some? then op.operationId.value else "")
  {
    Route(path, ToUpper(verb), op.summary.GetOr(""), op.operationId.GetOr(""))
  }

  /** The routes of one path, in method key order. */
  function PathRoutes(path: string, item: PathItem): (r: seq<Route>)
    ensures |r| == |item|
    ensures forall j :: 0 <= j < |item| ==> r[j] == MakeRoute(path, item[j].0, item[j].1)
  {
    if item == [] then []
    else PathRoutes(path, item[..|item| - 1]) + [MakeRoute(path, item[|item| - 1].0, item[|item| - 1].1)]
  }

  /** The routes of a list of paths, path by path. */
  function RoutesOf(paths: seq<(string, PathItem)>): seq<Route> {
    if paths == [] then [] else RoutesOf(paths[..|paths| - 1]) + PathRoutes(paths[|paths| - 1].0, paths[|paths| - 1].1)
  }

  /** What `extractRoutes` returns. */
  function Routes(doc: SwaggerDoc): seq<Route> {
    if doc.paths.None? then [] else RoutesOf(doc.paths.value)
  }

  /** The number of (path, method) key pairs. */
  function PairCount(paths: seq<(string, PathItem)>): nat {
    if paths == [] then 0 else PairCount(paths[..|paths| - 1]) + |paths[|paths| - 1].1|
  }

  /** `extractRoutes(swagger)`: the loop over the path keys. */
  method ExtractRoutes(doc: SwaggerDoc) returns (routes: seq<Route>)
    ensures routes == Routes(doc)
  {
    routes := [];
    if doc.paths.Some? {
      var paths := doc.paths.value;
      for i := 0 to |paths|
        invariant routes == RoutesOf(paths[..i])
      {
        var (path, item) := paths[i];
        assert paths[..i + 1][..i] == paths[..i];
        assert RoutesOf(paths[..i + 1]) == RoutesOf(paths[..i]) + PathRoutes(path, item);
        routes := AppendPathRoutes(routes, path, item);
      }
      assert paths[..|paths|] == paths;
    }
  }

  /** The inner loop over one path's method keys: one route pushed per key, in key order. */
  method AppendPathRoutes(routes: seq<Route>, path: string, item: PathItem) returns (routes': seq<Route>)
    ensures routes' == routes + PathRoutes(path, item)
  {
    routes' := routes;
    for j := 0 to |item|
      invariant routes' == routes + PathRoutes(path, item[..j])
    {
      var (verb, op) := item[j];
      routes' := routes' + [MakeRoute(path, verb, op)];
      assert item[..j + 1][..j] == item[..j];
    }
    assert item[..|item|] == item;
  }

  /** Key order is kept: the routes of two runs of paths are the routes of each, in turn. */
  lemma {:induction false} RoutesOfAppend(a: seq<(string, PathItem)>, b: seq<(string, PathItem)>)
    ensures RoutesOf(a + b) == RoutesOf(a) + RoutesOf(b)
  {
    if b != [] {
      assert (a + b)[..|a + b| - 1] == a + b[..|b| - 1];
      RoutesOfAppend(a, b[..|b| - 1]);
    } else {
      assert a + b == a;
    }
  }

  /** One route per (path, method) key pair. */
  lemma {:induction false} RoutesCount(paths: seq<(string, PathItem)>)
    ensures |RoutesOf(paths)| == PairCount(paths)
  {
    if paths != [] {
      RoutesCount(paths[..|paths| - 1]);
    }
  }

  /** Every route is the route of some (path, method) pair of the document ... */
  lemma {:induction false} RoutesSound(paths: seq<(string, PathItem)>)
    ensures forall r :: r in RoutesOf(paths) ==>
      exists i, j :: 0 <= i < |paths| && 0 <= j < |paths[i].1| && r == MakeRoute(paths[i].0, paths[i].1[j].0, paths[i].1[j].1)
  {
    if paths != [] {
      var p := paths[..|paths| - 1];
      RoutesSound(p);
      var n := |paths| - 1;
      var last := PathRoutes(paths[n].0, paths[n].1);
      assert RoutesOf(paths) == RoutesOf(p) + last;
      forall r | r in RoutesOf(paths)
        ensures exists i, j :: 0 <= i < |paths| && 0 <= j < |paths[i].1| && r == MakeRoute(paths[i].0, paths[i].1[j].0, paths[i].1[j].1)
      {
        if r in RoutesOf(p) {
          var i, j :| 0 <= i < |p| && 0 <= j < |p[i].1| && r == MakeRoute(p[i].0, p[i].1[j].0, p[i].1[j].1);
          assert p[i] == paths[i];
        } else {
          assert r in last;
          var j :| 0 <= j < |last| && last[j] == r;
          assert r == MakeRoute(paths[n].0, paths[n].1[j].0, paths[n].1[j].1);
        }
      }
    }
  }

  /** ... and every (path, method) pair gives its route. */
  lemma {:induction false} RoutesComplete(paths: seq<(string, PathItem)>, i: int, j: int)
    requires 0 <= i < |paths| && 0 <= j < |paths[i].1|
    ensures MakeRoute(paths[i].0, paths[i].1[j].0, paths[i].1[j].1) in RoutesOf(paths)
  {
    var p := paths[..|paths| - 1];
    if i < |paths| - 1 {
      assert p[i] == paths[i];
      RoutesComplete(p, i, j);
    } else {
      assert PathRoutes(paths[i].0, paths[i].1)[j] == MakeRoute(paths[i].0, paths[i].1[j].0, paths[i].1[j].1);
    }
  }

  /** Every extracted method is upper case. */
  lemma RoutesUpperCase(doc: SwaggerDoc)
    ensures forall r :: r in Routes(doc) ==> forall c :: c in r.verb ==> !('a' <= c <= 'z')
  {
    if doc.paths.Some? {
      RoutesSound(doc.paths.value);
    }
  }

  /** `extractJsUrl(html, base, pageUrl)` after the script-tag match: `captured` is the matched
      script path, or `None` when no tag matched. */
  function ExtractJsUrl(captured: Option<string>, base: string, pageUrl: string): (r: Option<string>)
    ensures captured.None? <==> r.None?
    ensures captured.Some? && StartsWith(captured.value, "/") ==> r == Some(base + captured.value)
    ensures captured.Some? && !StartsWith(captured.value, "/") && StartsWith(captured.value, ".") ==>
      r == Some(pageUrl + captured.value[1..])
    ensures captured.Some? && !StartsWith(captured.value, "/") && !StartsWith(captured.value, ".") ==>
      r == Some(base + "/" + captured.value)
  {
    match captured
    case None => None
    case Some(p) =>
      if |p| > 0 && p[0] == '/' then Some(base + p)
      else if |p| > 0 && p[0] == '.' then Some(pageUrl + p[1..])
      else Some(base + "/" + p)
  }

  /** The resolved address ends with the script's file name: whatever suffix of the captured path
      does not start with `.` (such as `swagger-initializer.js`) survives the joining. */
  lemma ExtractJsUrlKeepsFileName(p: string, base: string, pageUrl: string, t: string)
    requires EndsWith(p, t) && (t == [] || t[0] != '.')
    ensures EndsWith(ExtractJsUrl(Some(p), base, pageUrl).value, t)
  {
    var r := ExtractJsUrl(Some(p), base, pageUrl).value;
    if |p| > 0 && p[0] == '/' {
      assert r[|r| - |t|..] == p[|p| - |t|..];
    } else if |p| > 0 && p[0] == '.' {
      assert r[|r| - |t|..] == p[1..][|p| - 1 - |t|..];
    } else {
      assert r[|r| - |t|..] == p[|p| - |t|..];
    }
  }

  const SwaggerIndex := "/swagger/index.html"
  const SwaggerUiIndex := "/swagger-ui/index.html"

  /** `pageUrl.replace(/\/swagger(-ui)?\/index\.html$/, "")`: the page address without a
      trailing `/swagger/index.html` or `/swagger-ui/index.html`. */
  function BaseOf(pageUrl: string): (r: string)
    ensures pageUrl == r + SwaggerIndex || pageUrl == r + SwaggerUiIndex || pageUrl == r
    ensures pageUrl == r <==> !EndsWith(pageUrl, SwaggerIndex) && !EndsWith(pageUrl, SwaggerUiIndex)
  {
    if EndsWith(pageUrl, SwaggerIndex) then
      assert pageUrl == pageUrl[..|pageUrl| - |SwaggerIndex|] + SwaggerIndex;
      pageUrl[..|pageUrl| - |SwaggerIndex|]
    else if EndsWith(pageUrl, SwaggerUiIndex) then
      assert pageUrl == pageUrl[..|pageUrl| - |SwaggerUiIndex|] + SwaggerUiIndex;
      pageUrl[..|pageUrl| - |SwaggerUiIndex|]
    else pageUrl
  }

  /** The suffix of a Swagger UI page comes off exactly: */
  lemma BaseOfStrips(b: string)
    ensures BaseOf(b + SwaggerIndex) == b
    ensures BaseOf(b + SwaggerUiIndex) == b
  {
    assert (b + SwaggerIndex)[|b|..] == SwaggerIndex;
    assert (b + SwaggerUiIndex)[|b|..] == SwaggerUiIndex;
    assert (b + SwaggerUiIndex)[|b + SwaggerUiIndex| - |SwaggerIndex|..] != SwaggerIndex by {
      assert (b + SwaggerUiIndex)[|b + SwaggerUiIndex| - |SwaggerIndex|..][1] == 'g';
    }
  }
}
