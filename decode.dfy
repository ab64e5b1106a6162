/** Loading a document (`setModelFromYaml` after `yaml.load`, src/store/storeActions.ts:28-134 and
    its older copy src/store/store.ts:44-143): choose the edge list, point every link endpoint at
    an element, and rebuild every element's `dependencies` from the links. Both stores run the
    same steps; they differ only in how they assemble the model, which `StoreActions` and
    `LegacyStore` do. */
module Decode {
  import opened Wrappers
  import opened Types
  import opened Text

  /** A link as the document writes it: `id` may be absent. */
  datatype RawLink = RawLink(id: Option<string>, from: string, to: string, caption: Option<string>)

  /** The parsed document. An optional field is `None` when absent, or, for the arrays, when it is
      not an array; a falsy document reads as one whose `components` is `None`. */
  datatype RawDoc = RawDoc(
    components: Option<seq<Component>>,
    links: Option<seq<RawLink>>,
    version: Option<int>,
    style: Option<Style>,
    componentTypes: Option<seq<string>>)

  /** The outcome of `yaml.load`: it threw, or it gave a document. */
  datatype Parsed = Threw(message: string) | Document(doc: RawDoc)

  datatype DecodeError =
    | LoadFailed(message: string)
    | NoComponents
    | UnknownSource(linkId: string, endpoint: string)
    | UnknownTarget(linkId: string, endpoint: string)

  /** The `error` text reported for each failure. */
  function Message(e: DecodeError): string {
    match e
    case LoadFailed(m) => m
    case NoComponents => "YAML must contain 'components' array"
    case UnknownSource(id, x) =>
      "Link " + id + " references unknown source '" + x + "'. Links must reference element ids (or a component with at least one element)."
    case UnknownTarget(id, x) =>
      "Link " + id + " references unknown target '" + x + "'. Links must reference element ids (or a component with at least one element)."
  }

  /** What a successful load yields before the store assembles its model. */
  datatype Decoded = Decoded(components: seq<Component>, links: seq<Link>)

  // ---------------------------------------------------------------------------------------
  // Element index: `elementIdSet` and `compToFirstEl`

  /** The truthy ids of a list of elements. */
  function ElIds(els: seq<Element>): set<string> {
    if els == [] then {}
    else ElIds(els[..|els| - 1]) + (if els[|els| - 1].id != "" then {els[|els| - 1].id} else {})
  }

  /** `elementIdSet`: the truthy ids of every element. */
  function ElementIdSet(comps: seq<Component>): set<string> {
    if comps == [] then {} else ElementIdSet(comps[..|comps| - 1]) + ElIds(ElementsOf(comps[|comps| - 1]))
  }

  /** The component has a non-empty `elements` array whose first element has a truthy id. */
  predicate HasFirst(c: Component) {
    c.elements.Some? && |c.elements.value| > 0 && c.elements.value[0].id != ""
  }

  /** `comps[k]` is the last component with id `x` that has a first element, and `v` is that
      element's id. */
  ghost predicate LastFirst(comps: seq<Component>, x: string, k: int, v: string) {
    0 <= k < |comps| && comps[k].id == x && HasFirst(comps[k]) && v == comps[k].elements.value[0].id &&
    forall k' :: k < k' < |comps| && comps[k'].id == x ==> !HasFirst(comps[k'])
  }

  /** `m` maps the id of every component with a first element to the first element of the last
      such component with that id, and holds nothing else. */
  ghost predicate FirstMapOf(comps: seq<Component>, m: map<string, string>) {
    && (forall x :: x in m ==> exists k :: LastFirst(comps, x, k, m[x]))
    && (forall k :: 0 <= k < |comps| && HasFirst(comps[k]) ==> comps[k].id in m)
  }

  /** One more component: a first element of its own overrides its id's entry. */
  lemma FirstMapGrow(p: seq<Component>, c: Component, m: map<string, string>)
    requires FirstMapOf(p, m)
    ensures FirstMapOf(p + [c], if HasFirst(c) then m[c.id := c.elements.value[0].id] else m)
  {
    var comps := p + [c];
    var m' := if HasFirst(c) then m[c.id := c.elements.value[0].id] else m;
    assert forall k :: 0 <= k < |p| ==> p[k] == comps[k];
    forall x | x in m'
      ensures exists k :: LastFirst(comps, x, k, m'[x])
    {
      if HasFirst(c) && x == c.id {
        assert LastFirst(comps, x, |p|, m'[x]);
      } else {
        var k :| LastFirst(p, x, k, m[x]);
        assert LastFirst(comps, x, k, m'[x]);
      }
    }
  }

  /** `compToFirstEl`: a component id maps to the first element id of the last component with
      that id that has one. */
  function FirstElementMap(comps: seq<Component>): (r: map<string, string>)
    ensures FirstMapOf(comps, r)
    ensures forall x :: x in r ==> exists k :: (0 <= k < |comps| && comps[k].id == x && HasFirst(comps[k]) &&
      r[x] == comps[k].elements.value[0].id && (forall k' :: k < k' < |comps| && comps[k'].id == x ==> !HasFirst(comps[k'])))
    ensures forall k :: 0 <= k < |comps| && HasFirst(comps[k]) ==> comps[k].id in r
  {
    if comps == [] then map[]
    else
      var p := comps[..|comps| - 1];
      var c := comps[|comps| - 1];
      var m := FirstElementMap(p);
      assert p + [c] == comps;
      FirstMapGrow(p, c, m);
      var r := if HasFirst(c) then m[c.id := c.elements.value[0].id] else m;
      assert forall x :: x in r ==> exists k :: LastFirst(comps, x, k, r[x]);
      r
  }

  lemma {:induction false} ElIdsMeaning(els: seq<Element>)
    ensures forall x :: x in ElIds(els) <==> x != "" && exists j :: 0 <= j < |els| && els[j].id == x
  {
    if els != [] {
      var p := els[..|els| - 1];
      ElIdsMeaning(p);
      assert forall j :: 0 <= j < |p| ==> p[j] == els[j];
    }
  }

  /** The element id set holds exactly the truthy ids of the elements of all components. */
  lemma {:induction false} ElementIdSetMeaning(comps: seq<Component>)
    ensures forall x :: x in ElementIdSet(comps) <==> x != "" && IsElementId(comps, x)
  {
    if comps != [] {
      var p := comps[..|comps| - 1];
      var c := comps[|comps| - 1];
      ElementIdSetMeaning(p);
      ElIdsMeaning(ElementsOf(c));
      assert forall k :: 0 <= k < |p| ==> p[k] == comps[k];
      forall x | x != "" && IsElementId(comps, x)
        ensures x in ElementIdSet(comps)
      {
        var i, j :| 0 <= i < |comps| && 0 <= j < |ElementsOf(comps[i])| && ElementsOf(comps[i])[j].id == x;
        if i < |p| {
          assert IsElementId(p, x);
        }
      }
    }
  }

  /** The first loop of the load: build `elementIdSet` and `compToFirstEl`. */
  method IndexElements(comps: seq<Component>) returns (ids: set<string>, first: map<string, string>)
    ensures ids == ElementIdSet(comps) && first == FirstElementMap(comps)
  {
    ids, first := {}, map[];
    for k := 0 to |comps|
      invariant ids == ElementIdSet(comps[..k]) && first == FirstElementMap(comps[..k])
    {
      var comp := comps[k];
      assert comps[..k + 1][..k] == comps[..k];
      if comp.elements.Some? && |comp.elements.value| > 0 {
        var els := comp.elements.value;
        for j := 0 to |els|
          invariant ids == ElementIdSet(comps[..k]) + ElIds(els[..j])
        {
          assert els[..j + 1][..j] == els[..j];
          if els[j].id != "" {
            ids := ids + {els[j].id};
          }
        }
        assert els[..|els|] == els;
        if els[0].id != "" {
          first := first[comp.id := els[0].id];
        }
      }
    }
    assert comps[..|comps|] == comps;
  }

  // ---------------------------------------------------------------------------------------
  // The edge list

  /** The top-level `links` array: order kept, a missing id becomes `link-top-<index>`. */
  function TopLinks(raw: seq<RawLink>): (r: seq<Link>)
    ensures |r| == |raw|
    ensures forall idx :: 0 <= idx < |raw| ==>
      r[idx] == Link(if raw[idx].id.Some? then raw[idx].id.value else "link-top-" + NatToString(idx),
                     raw[idx].from, raw[idx].to, raw[idx].caption)
  {
    seq(|raw|, idx requires 0 <= idx < |raw| =>
      Link(raw[idx].id.GetOr("link-top-" + NatToString(idx)), raw[idx].from, raw[idx].to, raw[idx].caption))
  }

  /** Two links the document gives no id are given different ids. */
  lemma TopLinkIdsDistinct(raw: seq<RawLink>, a: int, b: int)
    requires 0 <= a < |raw| && 0 <= b < |raw| && a != b && raw[a].id.None? && raw[b].id.None?
    ensures TopLinks(raw)[a].id != TopLinks(raw)[b].id
  {
    var pre := "link-top-";
    if TopLinks(raw)[a].id == TopLinks(raw)[b].id {
      assert (pre + NatToString(a))[|pre|..] == NatToString(a);
      assert (pre + NatToString(b))[|pre|..] == NatToString(b);
      NatToStringInjective(a, b);
    }
  }

  /** The link built from one dependency of the element with id `from`. */
  function DepLink(from: string, d: Dependency): Link {
    Link("dep-" + from + "-to-" + d.to, from, d.to, d.caption)
  }

  /** The links of one element's dependencies, in order. */
  function OwnLinks(from: string, deps: seq<Dependency>): (r: seq<Link>)
    ensures |r| == |deps| && forall j :: 0 <= j < |deps| ==> r[j] == DepLink(from, deps[j])
  {
    if deps == [] then [] else OwnLinks(from, deps[..|deps| - 1]) + [DepLink(from, deps[|deps| - 1])]
  }

  /** The links of a list of elements, element by element. */
  function ElementsLinks(els: seq<Element>): seq<Link> {
    if els == [] then []
    else ElementsLinks(els[..|els| - 1]) + OwnLinks(els[|els| - 1].id, els[|els| - 1].dependencies)
  }

  /** The dependency-built edge list: one link per dependency, component by component. */
  function DepLinks(comps: seq<Component>): seq<Link> {
    if comps == [] then [] else DepLinks(comps[..|comps| - 1]) + ElementsLinks(ElementsOf(comps[|comps| - 1]))
  }

  /** The loops that build the edge list from the elements' `dependencies`, pushing one link
      per dependency, component by component and element by element. */
  method CollectDepLinks(comps: seq<Component>) returns (links: seq<Link>)
    ensures links == DepLinks(comps)
  {
    links := [];
    for k := 0 to |comps|
      invariant links == DepLinks(comps[..k])
    {
      assert comps[..k + 1][..k] == comps[..k];
      var compLinks: seq<Link> := [];
      if comps[k].elements.Some? {
        var els := comps[k].elements.value;
        for j := 0 to |els|
          invariant compLinks == ElementsLinks(els[..j])
        {
          assert els[..j + 1][..j] == els[..j];
          var el := els[j];
          var own: seq<Link> := [];
          for d := 0 to |el.dependencies|
            invariant own == OwnLinks(el.id, el.dependencies[..d])
          {
            assert el.dependencies[..d + 1][..d] == el.dependencies[..d];
            own := own + [DepLink(el.id, el.dependencies[d])];
          }
          assert el.dependencies[..|el.dependencies|] == el.dependencies;
          compLinks := compLinks + own;
        }
        assert els[..|els|] == els;
      }
      links := links + compLinks;
    }
    assert comps[..|comps|] == comps;
  }

  /** The edge list: the top-level `links` array when the document has one, otherwise the
      links built from the dependencies. */
  function EdgeList(comps: seq<Component>, rawLinks: Option<seq<RawLink>>): seq<Link> {
    match rawLinks
    case Some(raw) => TopLinks(raw)
    case None => DepLinks(comps)
  }

  // ---------------------------------------------------------------------------------------
  // Endpoint normalisation

  /** An endpoint that is an element id stays; a component id with a first element becomes that
      element's id; anything else is unknown. */
  function Resolve(x: string, ids: set<string>, first: map<string, string>): Option<string> {
    if x in ids then Some(x) else if x in first then Some(first[x]) else None
  }

  /** One turn of the normalisation loop: the source is checked first. */
  function NormalizeLink(l: Link, ids: set<string>, first: map<string, string>): Result<Link, DecodeError> {
    match Resolve(l.from, ids, first)
    case None => Failure(UnknownSource(l.id, l.from))
    case Some(f) =>
      match Resolve(l.to, ids, first)
      case None => Failure(UnknownTarget(l.id, l.to))
      case Some(t) => Success(l.(from := f, to := t))
  }

  /** The normalisation loop: the first link with an unknown endpoint fails the whole load. */
  function NormalizeAll(links: seq<Link>, ids: set<string>, first: map<string, string>): Result<seq<Link>, DecodeError> {
    if links == [] then Success([])
    else
      match NormalizeAll(links[..|links| - 1], ids, first)
      case Failure(e) => Failure(e)
      case Success(done) =>
        match NormalizeLink(links[|links| - 1], ids, first)
        case Failure(e) => Failure(e)
        case Success(l) => Success(done + [l])
  }

  /** Once a prefix has failed, the whole list fails with the same error. */
  lemma {:induction false} NormalizeFailureSticks(links: seq<Link>, n: int, ids: set<string>, first: map<string, string>)
    requires 0 <= n <= |links| && NormalizeAll(links[..n], ids, first).Failure?
    ensures NormalizeAll(links, ids, first) == NormalizeAll(links[..n], ids, first)
    decreases |links| - n
  {
    if n < |links| {
      assert links[..n + 1][..n] == links[..n];
      NormalizeFailureSticks(links, n + 1, ids, first);
    } else {
      assert links[..n] == links;
    }
  }

  /** The normalisation loop over the edge list. */
  method NormalizeLinks(links: seq<Link>, ids: set<string>, first: map<string, string>)
    returns (res: Result<seq<Link>, DecodeError>)
    ensures res == NormalizeAll(links, ids, first)
  {
    var out: seq<Link> := [];
    for i := 0 to |links|
      invariant NormalizeAll(links[..i], ids, first) == Success(out)
    {
      assert links[..i + 1][..i] == links[..i];
      var l := links[i];
      if l.from !in ids {
        if l.from in first {
          l := l.(from := first[l.from]);
        } else {
          NormalizeFailureSticks(links, i + 1, ids, first);
          return Failure(UnknownSource(l.id, l.from));
        }
      }
      if l.to !in ids {
        if l.to in first {
          l := l.(to := first[l.to]);
        } else {
          NormalizeFailureSticks(links, i + 1, ids, first);
          return Failure(UnknownTarget(l.id, l.to));
        }
      }
      out := out + [l];
    }
    assert links[..|links|] == links;
    return Success(out);
  }

  /** A successful normalisation keeps every link's id and label, and points each endpoint at
      what `Resolve` gives for it. */
  lemma {:induction false} NormalizeAllSuccess(links: seq<Link>, ids: set<string>, first: map<string, string>)
    requires NormalizeAll(links, ids, first).Success?
    ensures var out := NormalizeAll(links, ids, first).value;
      |out| == |links| &&
      forall k :: 0 <= k < |links| ==>
        Resolve(links[k].from, ids, first).Some? && Resolve(links[k].to, ids, first).Some? &&
        out[k] == links[k].(from := Resolve(links[k].from, ids, first).value, to := Resolve(links[k].to, ids, first).value)
  {
    if links != [] {
      var p := links[..|links| - 1];
      NormalizeAllSuccess(p, ids, first);
      assert forall k :: 0 <= k < |p| ==> p[k] == links[k];
    }
  }

  /** A failed normalisation names the first link with an unknown endpoint: every link
      before it resolves, and the error is that link's. */
  lemma {:induction false} NormalizeAllFailure(links: seq<Link>, ids: set<string>, first: map<string, string>)
    requires NormalizeAll(links, ids, first).Failure?
    ensures exists k :: (0 <= k < |links| &&
      NormalizeAll(links[..k], ids, first).Success? &&
      NormalizeLink(links[k], ids, first) == Failure(NormalizeAll(links, ids, first).error))
  {
    var p := links[..|links| - 1];
    var n := |links| - 1;
    if NormalizeAll(p, ids, first).Failure? {
      NormalizeAllFailure(p, ids, first);
      var k :| 0 <= k < |p| && NormalizeAll(p[..k], ids, first).Success? &&
        NormalizeLink(p[k], ids, first) == Failure(NormalizeAll(p, ids, first).error);
      assert p[..k] == links[..k];
    } else {
      assert links[..n] == p;
    }
  }

  /** A truthy element id is in the element id set. */
  lemma {:induction false} ElementIdSetHas(comps: seq<Component>, k: int, j: int)
    requires 0 <= k < |comps| && 0 <= j < |ElementsOf(comps[k])| && ElementsOf(comps[k])[j].id != ""
    ensures ElementsOf(comps[k])[j].id in ElementIdSet(comps)
  {
    var p := comps[..|comps| - 1];
    if k < |p| {
      assert p[k] == comps[k];
      ElementIdSetHas(p, k, j);
    } else {
      ElIdsMeaning(ElementsOf(comps[k]));
    }
  }

  /** The element a component id resolves to is an element id. */
  lemma FirstIsElement(comps: seq<Component>, x: string)
    requires x in FirstElementMap(comps)
    ensures FirstElementMap(comps)[x] in ElementIdSet(comps)
  {
    var k :| 0 <= k < |comps| && comps[k].id == x && HasFirst(comps[k]) &&
      FirstElementMap(comps)[x] == comps[k].elements.value[0].id;
    ElementIdSetHas(comps, k, 0);
  }

  /** Every endpoint of a normalised link is an element id: the resolved value of an element
      id is itself, and a component's first element id is an element id. */
  lemma NormalizedEndpointsAreElements(links: seq<Link>, comps: seq<Component>)
    requires NormalizeAll(links, ElementIdSet(comps), FirstElementMap(comps)).Success?
    ensures var out := NormalizeAll(links, ElementIdSet(comps), FirstElementMap(comps)).value;
      forall k :: 0 <= k < |out| ==> out[k].from in ElementIdSet(comps) && out[k].to in ElementIdSet(comps)
  {
    var ids, first := ElementIdSet(comps), FirstElementMap(comps);
    NormalizeAllSuccess(links, ids, first);
    var out := NormalizeAll(links, ids, first).value;
    forall k | 0 <= k < |out|
      ensures out[k].from in ids && out[k].to in ids
    {
      if links[k].from !in ids {
        FirstIsElement(comps, links[k].from);
      }
      if links[k].to !in ids {
        FirstIsElement(comps, links[k].to);
      }
    }
  }

  // ---------------------------------------------------------------------------------------
  // Rebuilding the dependencies

  /** The `{ to, label }` pairs of the links leaving `id`, in link order. */
  function DepsFrom(links: seq<Link>, id: string): seq<Dependency> {
    if links == [] then []
    else
      var l := links[|links| - 1];
      DepsFrom(links[..|links| - 1], id) + (if l.from == id then [Dependency(l.to, l.caption)] else [])
  }

  lemma {:induction false} DepsFromAppend(a: seq<Link>, b: seq<Link>, id: string)
    ensures DepsFrom(a + b, id) == DepsFrom(a, id) + DepsFrom(b, id)
  {
    if b != [] {
      assert (a + b)[..|a + b| - 1] == a + b[..|b| - 1];
      DepsFromAppend(a, b[..|b| - 1], id);
    } else {
      assert a + b == a;
    }
  }

  /** The dependencies of `id` are exactly the pairs of the links whose `from` is `id`. */
  lemma {:induction false} DepsFromMeaning(links: seq<Link>, id: string)
    ensures forall d :: d in DepsFrom(links, id) <==>
      exists k :: 0 <= k < |links| && links[k].from == id && d == Dependency(links[k].to, links[k].caption)
  {
    if links != [] {
      var p := links[..|links| - 1];
      DepsFromMeaning(p, id);
      assert forall k :: 0 <= k < |p| ==> p[k] == links[k];
    }
  }

  /** An element with its dependencies rebuilt from `links`. */
  function ElementWithDeps(e: Element, links: seq<Link>): Element {
    e.(dependencies := DepsFrom(links, e.id))
  }

  /** A component with each element's dependencies rebuilt; one without an `elements` array is
      left as it is. */
  function CompWithDeps(c: Component, links: seq<Link>): (r: Component)
    ensures r.id == c.id && r.name == c.name && r.kind == c.kind && r.level == c.level && r.column == c.column
    ensures r.elements.None? <==> c.elements.None?
    ensures c.elements.Some? ==> (|r.elements.value| == |c.elements.value| &&
      forall j :: 0 <= j < |c.elements.value| ==> r.elements.value[j] == ElementWithDeps(c.elements.value[j], links))
  {
    match c.elements
    case None => c
    case Some(els) => c.(elements := Some(seq(|els|, j requires 0 <= j < |els| => ElementWithDeps(els[j], links))))
  }

  /** Every component with its dependencies rebuilt from `links`. */
  function WithDeps(comps: seq<Component>, links: seq<Link>): (r: seq<Component>)
    ensures |r| == |comps| && forall k :: 0 <= k < |comps| ==> r[k] == CompWithDeps(comps[k], links)
  {
    seq(|comps|, k requires 0 <= k < |comps| => CompWithDeps(comps[k], links))
  }

  /** One push of the rebuild loop. */
  function AddDep(e: Element, l: Link): Element {
    if e.id == l.from then e.(dependencies := e.dependencies + [Dependency(l.to, l.caption)]) else e
  }

  lemma ElementWithDepsStep(e: Element, links: seq<Link>, l: Link)
    ensures ElementWithDeps(e, links + [l]) == AddDep(ElementWithDeps(e, links), l)
  {
    assert (links + [l])[..|links|] == links;
  }

  /** `for (const el of comp.elements) if (el.id === l.from) el.dependencies.push(...)` */
  method PushToMatching(els: seq<Element>, l: Link) returns (out: seq<Element>)
    ensures |out| == |els| && forall j :: 0 <= j < |els| ==> out[j] == AddDep(els[j], l)
  {
    out := els;
    for j := 0 to |els|
      invariant |out| == |els|
      invariant forall j' :: 0 <= j' < j ==> out[j'] == AddDep(els[j'], l)
      invariant forall j' :: j <= j' < |els| ==> out[j'] == els[j']
    {
      if out[j].id == l.from {
        out := out[j := out[j].(dependencies := out[j].dependencies + [Dependency(l.to, l.caption)])];
      }
    }
  }

  /** The loops that clear every element's `dependencies` and refill them, link by link. */
  method RebuildDependencies(comps: seq<Component>, links: seq<Link>) returns (out: seq<Component>)
    ensures out == WithDeps(comps, links)
  {
    out := comps;
    for k := 0 to |comps|
      invariant |out| == |comps|
      invariant forall k' :: 0 <= k' < k ==> out[k'] == CompWithDeps(comps[k'], [])
      invariant forall k' :: k <= k' < |comps| ==> out[k'] == comps[k']
    {
      if out[k].elements.Some? {
        var els := out[k].elements.value;
        var cleared := seq(|els|, j requires 0 <= j < |els| => els[j].(dependencies := []));
        assert cleared == CompWithDeps(comps[k], []).elements.value;
        out := out[k := out[k].(elements := Some(cleared))];
      }
    }
    for i := 0 to |links|
      invariant |out| == |comps|
      invariant forall k :: 0 <= k < |comps| ==> out[k] == CompWithDeps(comps[k], links[..i])
    {
      var l := links[i];
      assert links[..i + 1] == links[..i] + [l];
      for k := 0 to |out|
        invariant |out| == |comps|
        invariant forall k' :: 0 <= k' < k ==> out[k'] == CompWithDeps(comps[k'], links[..i + 1])
        invariant forall k' :: k <= k' < |comps| ==> out[k'] == CompWithDeps(comps[k'], links[..i])
      {
        if out[k].elements.Some? {
          var pushed := PushToMatching(out[k].elements.value, l);
          forall j | 0 <= j < |pushed|
            ensures pushed[j] == ElementWithDeps(comps[k].elements.value[j], links[..i + 1])
          {
            ElementWithDepsStep(comps[k].elements.value[j], links[..i], l);
          }
          assert pushed == CompWithDeps(comps[k], links[..i + 1]).elements.value;
          out := out[k := out[k].(elements := Some(pushed))];
        }
      }
    }
    assert links[..|links|] == links;
  }

  /** The document's own `dependencies` play no part: only element ids and the links do. */
  lemma WithDepsIgnoresOldDeps(comps: seq<Component>, comps': seq<Component>, links: seq<Link>)
    requires |comps| == |comps'|
    requires forall k :: 0 <= k < |comps| ==>
      comps'[k] == comps[k].(elements := comps'[k].elements) &&
      (comps[k].elements.None? <==> comps'[k].elements.None?) &&
      (comps[k].elements.Some? ==> (|comps[k].elements.value| == |comps'[k].elements.value| &&
        forall j :: 0 <= j < |comps[k].elements.value| ==>
          comps'[k].elements.value[j] == comps[k].elements.value[j].(dependencies := comps'[k].elements.value[j].dependencies)))
    ensures WithDeps(comps, links) == WithDeps(comps', links)
  {
    forall k | 0 <= k < |comps|
      ensures CompWithDeps(comps[k], links) == CompWithDeps(comps'[k], links)
    {
      if comps[k].elements.Some? {
        var a := CompWithDeps(comps[k], links).elements.value;
        var b := CompWithDeps(comps'[k], links).elements.value;
        assert a == b;
      }
    }
  }

  // ---------------------------------------------------------------------------------------
  // Component types (the newer store only)

  /** The index of the first occurrence of `x` in `s`. */
  function FirstIndex(s: seq<string>, x: string): (r: nat)
    requires x in s
    ensures r < |s| && s[r] == x && forall j :: 0 <= j < r ==> s[j] != x
  {
    if s[0] == x then 0
    else
      assert forall j :: 1 <= j < |s| ==> s[j] == s[1..][j - 1];
      1 + FirstIndex(s[1..], x)
  }

  lemma FirstIndexOfPrefix(s: seq<string>, n: int, x: string)
    requires 0 <= n <= |s| && x in s[..n]
    ensures FirstIndex(s, x) == FirstIndex(s[..n], x)
  {
    var i := FirstIndex(s[..n], x);
    assert s[i] == x;
  }

  /** `Array.from(new Set(s))`: each value once. */
  function Dedup(s: seq<string>): (r: seq<string>)
    ensures NoDuplicates(r)
    ensures forall x :: x in r <==> x in s
  {
    if s == [] then []
    else
      var d := Dedup(s[..|s| - 1]);
      if s[|s| - 1] in d then d else d + [s[|s| - 1]]
  }

  /** `Dedup` lists the values in the order of their first occurrence. */
  lemma {:induction false} DedupOrder(s: seq<string>, a: int, b: int)
    requires 0 <= a < b < |Dedup(s)|
    ensures FirstIndex(s, Dedup(s)[a]) < FirstIndex(s, Dedup(s)[b])
  {
    var p := s[..|s| - 1];
    var x := s[|s| - 1];
    var d := Dedup(p);
    var r := Dedup(s);
    FirstIndexOfPrefix(s, |s| - 1, r[a]);
    if b < |d| {
      assert r[a] == d[a] && r[b] == d[b];
      FirstIndexOfPrefix(s, |s| - 1, r[b]);
      DedupOrder(p, a, b);
    } else {
      assert r[b] == x && x !in p;
      assert FirstIndex(s, x) == |s| - 1;
    }
  }

  /** The `type` of each component, in order. */
  function Kinds(comps: seq<Component>): (r: seq<string>)
    ensures |r| == |comps| && forall k :: 0 <= k < |comps| ==> r[k] == comps[k].kind
  {
    seq(|comps|, k requires 0 <= k < |comps| => comps[k].kind)
  }

  /** `Array.from(new Set(components.map(c => c.type))).filter(Boolean)` */
  function DistinctTypes(comps: seq<Component>): seq<string> {
    Filter(Dedup(Kinds(comps)), t => t != "")
  }

  /** The default component types are the distinct truthy `type` values, in the order of their
      first occurrence among the components. */
  lemma DistinctTypesFacts(comps: seq<Component>)
    ensures var r := DistinctTypes(comps);
      && NoDuplicates(r)
      && (forall t :: t in r <==> t != "" && exists k :: 0 <= k < |comps| && comps[k].kind == t)
      && (forall a, b :: 0 <= a < b < |r| ==> FirstIndex(Kinds(comps), r[a]) < FirstIndex(Kinds(comps), r[b]))
  {
    var ks := Kinds(comps);
    var d := Dedup(ks);
    var r := DistinctTypes(comps);
    forall a, b | 0 <= a < b < |r|
      ensures r[a] != r[b] && FirstIndex(ks, r[a]) < FirstIndex(ks, r[b])
    {
      FilterKeepsOrder(d, t => t != "", a, b);
      var a', b' :| 0 <= a' < b' < |d| && d[a'] == r[a] && d[b'] == r[b];
      DedupOrder(ks, a', b');
    }
    forall t | t != "" && exists k :: 0 <= k < |comps| && comps[k].kind == t
      ensures t in r
    {
      var k :| 0 <= k < |comps| && comps[k].kind == t;
      assert ks[k] == t;
    }
  }

  // ---------------------------------------------------------------------------------------
  // The whole load

  /** What the load yields: the components with rebuilt dependencies and the normalised links,
      or the first failure. */
  function DecodeResult(parsed: Parsed): (r: Result<Decoded, DecodeError>)
    ensures parsed.Threw? ==> r == Failure(LoadFailed(parsed.message))
    ensures parsed.Document? && parsed.doc.components.None? ==> r == Failure(NoComponents)
  {
    match parsed
    case Threw(m) => Failure(LoadFailed(m))
    case Document(doc) =>
      match doc.components
      case None => Failure(NoComponents)
      case Some(comps) =>
        match NormalizeAll(EdgeList(comps, doc.links), ElementIdSet(comps), FirstElementMap(comps))
        case Failure(e) => Failure(e)
        case Success(links) => Success(Decoded(WithDeps(comps, links), links))
  }

  /** The steps of `setModelFromYaml` up to the model it installs. */
  method DecodeDocument(parsed: Parsed) returns (res: Result<Decoded, DecodeError>)
    ensures res == DecodeResult(parsed)
  {
    if parsed.Threw? {
      return Failure(LoadFailed(parsed.message));
    }
    var doc := parsed.doc;
    if doc.components.None? {
      return Failure(NoComponents);
    }
    var comps := doc.components.value;
    var ids, first := IndexElements(comps);
    var links: seq<Link>;
    if doc.links.Some? {
      links := TopLinks(doc.links.value);
    } else {
      links := CollectDepLinks(comps);
    }
    var norm := NormalizeLinks(links, ids, first);
    if norm.Failure? {
      return Failure(norm.error);
    }
    var rebuilt := RebuildDependencies(comps, norm.value);
    return Success(Decoded(rebuilt, norm.value));
  }

  /** After a successful load every link joins two element ids, and every element's
      dependencies are exactly the `{ to, label }` pairs of the links leaving it, in link order
      (so every element sharing an id gets the same list). */
  lemma DecodeDuality(parsed: Parsed)
    requires DecodeResult(parsed).Success?
    ensures var d := DecodeResult(parsed).value; var comps := parsed.doc.components.value;
      && (forall k :: 0 <= k < |d.links| ==> d.links[k].from in ElementIdSet(comps) && d.links[k].to in ElementIdSet(comps))
      && |d.components| == |comps|
      && (forall k, j :: 0 <= k < |d.components| && 0 <= j < |ElementsOf(d.components[k])| ==>
            ElementsOf(d.components[k])[j].id == ElementsOf(comps[k])[j].id &&
            ElementsOf(d.components[k])[j].dependencies == DepsFrom(d.links, ElementsOf(comps[k])[j].id))
  {
    var comps := parsed.doc.components.value;
    NormalizedEndpointsAreElements(EdgeList(comps, parsed.doc.links), comps);
  }
}
