/** The Swagger import dialog (src/components/modals/SwaggerImportModal.tsx): reading the routes
    of an uploaded document, and turning the routes into `route` elements appended to the chosen
    component of the older store. */
module SwaggerImport {
  import opened Wrappers
  import opened Text
  import opened Types
  import opened SwaggerWorker
  import opened Mutations
  import LegacyStore

  /** What `JSON.parse` made of the uploaded file: an error message, or the document. */
  datatype FileContents = Invalid(message: string) | Json(doc: SwaggerDoc)

  /** `handleFile`: the routes of the document, or the message it shows when parsing throws. */
  function FileRoutes(f: FileContents): (r: Result<seq<Route>, string>)
    ensures f.Invalid? ==> r == Failure("Invalid Swagger JSON: " + f.message)
    ensures f.Json? ==> r == Success(Routes(f.doc))
  {
    match f
    case Invalid(m) => Failure("Invalid Swagger JSON: " + m)
    case Json(doc) => Success(Routes(doc))
  }

  /** The loops of `handleFile`, the same key walk as the worker's. */
  method HandleFile(f: FileContents) returns (r: Result<seq<Route>, string>)
    ensures r == FileRoutes(f)
  {
    if f.Invalid? {
      return Failure("Invalid Swagger JSON: " + f.message);
    }
    var routes := ExtractRoutes(f.doc);
    return Success(routes);
  }

  /** `path.replace(/[\/{}]/g, "-")` */
  function SanitizePath(path: string): (r: string)
    ensures |r| == |path|
    ensures forall i :: 0 <= i < |r| ==> r[i] != '/' && r[i] != '{' && r[i] != '}'
    ensures forall i :: 0 <= i < |r| ==> r[i] == if path[i] in {'/', '{', '}'} then '-' else path[i]
  {
    ReplaceChars(path, {'/', '{', '}'}, '-')
  }

  /** `summary || operationId || path` */
  function RouteName(r: Route): string {
    if r.summary != "" then r.summary else if r.operationId != "" then r.operationId else r.path
  }

  /** The element of the route at index `idx`. */
  function ImportedElement(r: Route, idx: nat): Element {
    Element("route-" + r.verb + "-" + SanitizePath(r.path) + "-" + NatToString(idx), "route",
            Some(RouteName(r)), Some(r.verb), Some(r.path), [])
  }

  /** `routes.map((r, idx) => ...)`: one `route` element per route, in route order, with the
      route's method and path, no dependencies, and the first non-empty of summary,
      operationId and path as its name. */
  function ImportedElements(routes: seq<Route>): (els: seq<Element>)
    ensures |els| == |routes|
    ensures forall k :: 0 <= k < |routes| ==>
      (&& els[k].id == "route-" + routes[k].verb + "-" + SanitizePath(routes[k].path) + "-" + NatToString(k)
       && els[k].kind == "route" && els[k].verb == Some(routes[k].verb) && els[k].path == Some(routes[k].path)
       && els[k].dependencies == []
       && els[k].name == Some(if routes[k].summary != "" then routes[k].summary
                              else if routes[k].operationId != "" then routes[k].operationId
                              else routes[k].path))
  {
    seq(|routes|, k requires 0 <= k < |routes| => ImportedElement(routes[k], k))
  }

  /** The text after the last `-`, or all of `s` when it has none. */
  function AfterLastDash(s: string): (r: string)
    ensures forall i :: 0 <= i < |r| ==> r[i] != '-'
  {
    if s == [] then []
    else if s[|s| - 1] == '-' then []
    else AfterLastDash(s[..|s| - 1]) + [s[|s| - 1]]
  }

  lemma {:induction false} AfterLastDashOf(prefix: string, tail: string)
    requires forall i :: 0 <= i < |tail| ==> tail[i] != '-'
    ensures AfterLastDash(prefix + "-" + tail) == tail
  {
    if tail == [] {
      assert (prefix + "-" + tail) == prefix + "-";
    } else {
      assert (prefix + "-" + tail)[..|prefix + "-" + tail| - 1] == prefix + "-" + tail[..|tail| - 1];
      AfterLastDashOf(prefix, tail[..|tail| - 1]);
    }
  }

  /** The index suffix makes the ids of one import pairwise distinct, even for routes with
      the same method and path. */
  lemma ImportedIdsDistinct(routes: seq<Route>, a: nat, b: nat)
    requires a < b < |routes|
    ensures ImportedElements(routes)[a].id != ImportedElements(routes)[b].id
  {
    var r1, r2 := routes[a], routes[b];
    AfterLastDashOf("route-" + r1.verb + "-" + SanitizePath(r1.path), NatToString(a));
    AfterLastDashOf("route-" + r2.verb + "-" + SanitizePath(r2.path), NatToString(b));
    assert ImportedElements(routes)[a].id == "route-" + r1.verb + "-" + SanitizePath(r1.path) + "-" + NatToString(a);
    assert ImportedElements(routes)[b].id == "route-" + r2.verb + "-" + SanitizePath(r2.path) + "-" + NatToString(b);
    if ImportedElements(routes)[a].id == ImportedElements(routes)[b].id {
      NatToStringInjective(a, b);
    }
  }

  /** The components after `handleImport`, or `None` when it returns without doing anything:
      no component chosen, no routes, or no component with the chosen id. */
  function ImportResult(comps: seq<Component>, selectedCompId: string, routes: seq<Route>): (r: Option<seq<Component>>)
    ensures r.None? <==> selectedCompId == "" || routes == [] || !IsComponentId(comps, selectedCompId)
  {
    if selectedCompId == "" || routes == [] then None
    else
      match FindComponent(comps, selectedCompId)
      case None => None
      case Some(comp) =>
        Some(UpdateComponents(comps, comp.id, ComponentPatch(None, None, None, None, None,
                                                             Some(ElementsOf(comp) + ImportedElements(routes)))))
  }

  /** After an import, the first component with the chosen id keeps its elements as a prefix
      followed by the imported ones; every component with another id is unchanged; every other
      component sharing the id receives the same list, as `updateComponent` patches them all. */
  lemma ImportAppends(comps: seq<Component>, selectedCompId: string, routes: seq<Route>)
    requires ImportResult(comps, selectedCompId, routes).Some?
    ensures var r := ImportResult(comps, selectedCompId, routes).value;
      && |r| == |comps|
      && (exists i :: 0 <= i < |comps| && comps[i].id == selectedCompId && (forall j :: 0 <= j < i ==> comps[j].id != selectedCompId) &&
            forall k :: 0 <= k < |comps| && comps[k].id == selectedCompId ==>
              r[k] == comps[k].(elements := Some(ElementsOf(comps[i]) + ImportedElements(routes))))
      && (forall k :: 0 <= k < |comps| && comps[k].id != selectedCompId ==> r[k] == comps[k])
  {
    var comp := FindComponent(comps, selectedCompId).value;
    var i :| 0 <= i < |comps| && comps[i] == comp && comps[i].id == selectedCompId && (forall j :: 0 <= j < i ==> comps[j].id != selectedCompId);
    var r := ImportResult(comps, selectedCompId, routes).value;
    forall k | 0 <= k < |comps| && comps[k].id == selectedCompId
      ensures r[k] == comps[k].(elements := Some(ElementsOf(comps[i]) + ImportedElements(routes)))
    {
    }
  }

  /** `handleImport` against the older store the dialog subscribes to. */
  method HandleImport(store: LegacyStore.Store, selectedCompId: string, routes: seq<Route>)
    modifies store
    ensures ImportResult(old(store.model.components), selectedCompId, routes).None? ==> unchanged(store)
    ensures ImportResult(old(store.model.components), selectedCompId, routes).Some? ==>
      && store.model == old(store.model).(components := ImportResult(old(store.model.components), selectedCompId, routes).value)
      && store.selectedId == old(store.selectedId)
      && store.Mirrored()
  {
    if selectedCompId == "" || |routes| == 0 {
      return;
    }
    var found := FindComponent(store.model.components, selectedCompId);
    if found.None? {
      return;
    }
    var comp := found.value;
    var newElements := ImportedElements(routes);
    store.UpdateComponent(comp.id, ComponentPatch(None, None, None, None, None, Some(ElementsOf(comp) + newElements)));
  }
}
