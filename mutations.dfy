/** The whole-snapshot mutations both stores perform (src/store/storeActions.ts:219-336 and
    src/store/store.ts:215-309): building a new component, patching components, removing a
    component with the links that name it, and patching an element while keeping the link
    list in step with its new `dependencies`. */
module Mutations {
  import opened Wrappers
  import opened Text
  import opened Types
  import opened Decode
  import opened Encode

  /** `Partial<ComponentItem>`: a `Some` field is present in the patch. */
  datatype ComponentPatch = ComponentPatch(
    id: Option<string>,
    name: Option<string>,
    kind: Option<string>,
    level: Option<int>,
    column: Option<int>,
    elements: Option<seq<Element>>)

  /** `Partial<ElementItem>`. */
  datatype ElementPatch = ElementPatch(
    id: Option<string>,
    kind: Option<string>,
    name: Option<string>,
    verb: Option<string>,
    path: Option<string>,
    dependencies: Option<seq<Dependency>>)

  // ---------------------------------------------------------------------------------------
  // addComponent

  /** The id `addComponent` generates from the clock reading `now` (milliseconds). */
  function FreshComponentId(now: nat): (id: string)
    ensures StartsWith(id, "comp-")
  {
    "comp-" + NatToBase36(now)
  }

  /** Two different clock readings give two different ids. */
  lemma FreshComponentIdInjective(a: nat, b: nat)
    requires FreshComponentId(a) == FreshComponentId(b)
    ensures a == b
  {
    assert NatToBase36(a) == FreshComponentId(a)[5..];
    NatToBase36Injective(a, b);
  }

  /** The component `addComponent` appends: the defaults (`type` "microservice", name equal to
      the id, level 1, column 1, no elements) with every field the patch supplies winning. The
      id is the patch's or, failing that, the generated `freshId`. */
  function NewComponent(c: ComponentPatch, freshId: string): (r: Component)
    ensures r.id == (if c.id.Some? then c.id.value else freshId)
    ensures r.kind == (if c.kind.Some? then c.kind.value else "microservice")
    ensures r.name == (if c.name.Some? then c.name.value else r.id)
    ensures r.level == Some(if c.level.Some? then c.level.value else 1)
    ensures r.column == Some(if c.column.Some? then c.column.value else 1)
    ensures r.elements == Some(if c.elements.Some? then c.elements.value else [])
  {
    var id := c.id.GetOr(freshId);
    Component(id, c.name.GetOr(id), c.kind.GetOr("microservice"), Some(c.level.GetOr(1)),
              Some(c.column.GetOr(1)), Some(c.elements.GetOr([])))
  }

  // ---------------------------------------------------------------------------------------
  // updateComponent

  /** `{ ...cp, ...patch }` */
  function PatchComponent(cp: Component, patch: ComponentPatch): Component {
    Component(patch.id.GetOr(cp.id), patch.name.GetOr(cp.name), patch.kind.GetOr(cp.kind),
              if patch.level.Some? then patch.level else cp.level,
              if patch.column.Some? then patch.column else cp.column,
              if patch.elements.Some? then patch.elements else cp.elements)
  }

  /** `components.map(cp => cp.id === id ? { ...cp, ...patch } : cp)`: same length, same order,
      every component with that id patched and every other one left alone. */
  function UpdateComponents(comps: seq<Component>, id: string, patch: ComponentPatch): (r: seq<Component>)
    ensures |r| == |comps|
    ensures forall k :: 0 <= k < |comps| ==> r[k] == if comps[k].id == id then PatchComponent(comps[k], patch) else comps[k]
  {
    seq(|comps|, k requires 0 <= k < |comps| => if comps[k].id == id then PatchComponent(comps[k], patch) else comps[k])
  }

  /** A patched component carries every field the patch supplies, and its own value for the
      others. */
  lemma PatchComponentFields(cp: Component, patch: ComponentPatch)
    ensures var r := PatchComponent(cp, patch);
      && (patch.id.Some? ==> r.id == patch.id.value) && (patch.id.None? ==> r.id == cp.id)
      && (patch.name.Some? ==> r.name == patch.name.value) && (patch.name.None? ==> r.name == cp.name)
      && (patch.kind.Some? ==> r.kind == patch.kind.value) && (patch.kind.None? ==> r.kind == cp.kind)
      && (patch.level.Some? ==> r.level == patch.level) && (patch.level.None? ==> r.level == cp.level)
      && (patch.column.Some? ==> r.column == patch.column) && (patch.column.None? ==> r.column == cp.column)
      && (patch.elements.Some? ==> r.elements == patch.elements) && (patch.elements.None? ==> r.elements == cp.elements)
  {
  }

  /** Applying the same update twice is applying it once, even when the patch renames the
      components it matches. */
  lemma UpdateComponentsIdempotent(comps: seq<Component>, id: string, patch: ComponentPatch)
    ensures UpdateComponents(UpdateComponents(comps, id, patch), id, patch) == UpdateComponents(comps, id, patch)
  {
    var once := UpdateComponents(comps, id, patch);
    var twice := UpdateComponents(once, id, patch);
    forall k | 0 <= k < |comps|
      ensures twice[k] == once[k]
    {
      if comps[k].id == id {
        assert PatchComponent(PatchComponent(comps[k], patch), patch) == PatchComponent(comps[k], patch);
      }
    }
  }

  // ---------------------------------------------------------------------------------------
  // removeComponent

  function IdIsNot(id: string): Component -> bool {
    (c: Component) => c.id != id
  }

  function NamesNeither(id: string): Link -> bool {
    (l: Link) => l.from != id && l.to != id
  }

  /** `components.filter(cp => cp.id !== id)` */
  function RemainingComponents(comps: seq<Component>, id: string): seq<Component> {
    Filter(comps, IdIsNot(id))
  }

  /** `links.filter(l => l.from !== id && l.to !== id)`: only the component id is tested. */
  function RemainingLinks(links: seq<Link>, id: string): seq<Link> {
    Filter(links, NamesNeither(id))
  }

  /** A removal keeps exactly the components with another id and the links naming neither
      end `id`, each in its original order; removing twice is removing once. */
  lemma RemoveFacts(comps: seq<Component>, links: seq<Link>, id: string)
    ensures forall c :: c in RemainingComponents(comps, id) <==> c in comps && c.id != id
    ensures forall l :: l in RemainingLinks(links, id) <==> l in links && l.from != id && l.to != id
    ensures RemainingComponents(RemainingComponents(comps, id), id) == RemainingComponents(comps, id)
    ensures RemainingLinks(RemainingLinks(links, id), id) == RemainingLinks(links, id)
  {
    FilterIdempotent(comps, IdIsNot(id));
    FilterIdempotent(links, NamesNeither(id));
  }

  /** Links that name one of the removed component's elements survive the removal. */
  lemma RemoveKeepsElementLinks(comps: seq<Component>, links: seq<Link>, id: string, l: Link)
    requires l in links && l.from != id && l.to != id
    ensures l in RemainingLinks(links, id)
  {
  }

  /** An instance: removing component `c` leaves the link from its element `e` in place, and
      `e` is then no element id of the model. */
  lemma RemoveLeavesDanglingLink()
    ensures var e := Element("e", "route", None, None, None, []);
      var comps := [Component("c", "c", "microservice", Some(1), Some(1), Some([e]))];
      var links := [Link("l", "e", "x", None)];
      RemainingLinks(links, "c") == links && !IsElementId(RemainingComponents(comps, "c"), "e")
  {
    var e := Element("e", "route", None, None, None, []);
    var comps := [Component("c", "c", "microservice", Some(1), Some(1), Some([e]))];
    var links := [Link("l", "e", "x", None)];
    FilterAll(links, NamesNeither("c"));
    assert RemainingComponents(comps, "c") == [];
  }

  // ---------------------------------------------------------------------------------------
  // updateElement

  /** `{ ...el, ...patch }` */
  function PatchElement(el: Element, patch: ElementPatch): Element {
    Element(patch.id.GetOr(el.id), patch.kind.GetOr(el.kind),
            if patch.name.Some? then patch.name else el.name,
            if patch.verb.Some? then patch.verb else el.verb,
            if patch.path.Some? then patch.path else el.path,
            patch.dependencies.GetOr(el.dependencies))
  }

  /** The element map of `updateElement`: a component without `elements` is returned as it
      is; in the others exactly the elements with that id are patched. */
  function UpdateElements(comps: seq<Component>, id: string, patch: ElementPatch): (r: seq<Component>)
    ensures |r| == |comps|
    ensures forall k :: 0 <= k < |comps| ==>
      (r[k].(elements := comps[k].elements) == comps[k] && (r[k].elements.None? <==> comps[k].elements.None?))
    ensures forall p :: ValidPos(comps, p) ==>
      (ValidPos(r, p) &&
       ElementAt(r, p) == if ElementAt(comps, p).id == id then PatchElement(ElementAt(comps, p), patch) else ElementAt(comps, p))
  {
    seq(|comps|, k requires 0 <= k < |comps| =>
      match comps[k].elements
      case None => comps[k]
      case Some(els) => comps[k].(elements := Some(seq(|els|, j requires 0 <= j < |els| =>
        if els[j].id == id then PatchElement(els[j], patch) else els[j]))))
  }

  /** The dependencies `updateElement` treats as the previous ones: those of the last
      element with that id (the one `elMap` names), or none. */
  ghost function PrevDeps(comps: seq<Component>, id: string): seq<Dependency> {
    ElMapIndexes(comps);
    if id in ElMap(comps) then ElementAt(comps, ElMap(comps)[id]).dependencies else []
  }

  /** The first loop of `updateElement`: the last element with that id wins. */
  method FindPrevDeps(comps: seq<Component>, id: string) returns (prev: seq<Dependency>)
    ensures prev == PrevDeps(comps, id)
  {
    prev := [];
    for ci := 0 to |comps|
      invariant Indexes(comps, ElMapUpTo(comps, ci), Pos(ci, 0))
      invariant prev == if id in ElMapUpTo(comps, ci) then ElementAt(comps, ElMapUpTo(comps, ci)[id]).dependencies else []
    {
      // a component without `elements` is skipped: it has none to visit
      var els := ElementsOf(comps[ci]);
      for ei := 0 to |els|
        invariant Indexes(comps, Place(ElMapUpTo(comps, ci), els, ci, ei), Pos(ci, ei))
        invariant var mi := Place(ElMapUpTo(comps, ci), els, ci, ei);
          prev == if id in mi then ElementAt(comps, mi[id]).dependencies else []
      {
        PlaceStep(comps, ElMapUpTo(comps, ci), ci, ei);
        if els[ei].id == id {
          prev := els[ei].dependencies;
        }
      }
      NextComponent(comps, ElMapUpTo(comps, ci + 1), ci);
    }
  }

  /** `links.some(l => l.from === id && l.to === to)` */
  predicate Linked(links: seq<Link>, id: string, to: string) {
    exists k :: 0 <= k < |links| && links[k].from == id && links[k].to == to
  }

  /** `deps.some(d => d.to === to)` */
  predicate Targets(deps: seq<Dependency>, to: string) {
    exists k :: 0 <= k < |deps| && deps[k].to == to
  }

  /** The adding `forEach`: a `dep-<id>-to-<to>` link for each new dependency whose target is
      not yet linked from `id`, counting the links added so far. */
  function AddMissing(links: seq<Link>, id: string, deps: seq<Dependency>): seq<Link> {
    if deps == [] then links
    else
      var acc := AddMissing(links, id, deps[..|deps| - 1]);
      var d := deps[|deps| - 1];
      if Linked(acc, id, d.to) then acc else acc + [DepLink(id, d)]
  }

  function NotEdge(id: string, to: string): Link -> bool {
    (l: Link) => !(l.from == id && l.to == to)
  }

  /** The removing `forEach`: every `id -> t` link goes, for each previous target `t` the new
      list no longer has. */
  function RemoveDropped(links: seq<Link>, id: string, prev: seq<Dependency>, newDeps: seq<Dependency>): seq<Link> {
    if prev == [] then links
    else
      var acc := RemoveDropped(links, id, prev[..|prev| - 1], newDeps);
      var t := prev[|prev| - 1].to;
      if Targets(newDeps, t) then acc else Filter(acc, NotEdge(id, t))
  }

  /** The link list after `updateElement(id, patch)`. */
  function NewLinks(links: seq<Link>, id: string, prev: seq<Dependency>, patchDeps: Option<seq<Dependency>>): seq<Link> {
    match patchDeps
    case None => links
    case Some(nd) => RemoveDropped(AddMissing(links, id, nd), id, prev, nd)
  }

  /** The link loops of `updateElement`. */
  method UpdateLinks(links: seq<Link>, id: string, prev: seq<Dependency>, patchDeps: Option<seq<Dependency>>)
    returns (newLinks: seq<Link>)
    ensures newLinks == NewLinks(links, id, prev, patchDeps)
  {
    newLinks := links;
    if patchDeps.Some? {
      var nd := patchDeps.value;
      for i := 0 to |nd|
        invariant newLinks == AddMissing(links, id, nd[..i])
      {
        assert nd[..i + 1][..i] == nd[..i];
        if !Linked(newLinks, id, nd[i].to) {
          newLinks := newLinks + [DepLink(id, nd[i])];
        }
      }
      assert nd[..|nd|] == nd;
      var added := newLinks;
      for i := 0 to |prev|
        invariant newLinks == RemoveDropped(added, id, prev[..i], nd)
      {
        assert prev[..i + 1][..i] == prev[..i];
        if !Targets(nd, prev[i].to) {
          newLinks := Filter(newLinks, NotEdge(id, prev[i].to));
        }
      }
      assert prev[..|prev|] == prev;
    }
  }

  function FromOther(id: string): Link -> bool {
    (l: Link) => l.from != id
  }

  /** Filtering by a stronger test after a weaker one is filtering by the stronger one. */
  lemma {:induction false} FilterThenStronger<T(!new)>(s: seq<T>, weak: T -> bool, strong: T -> bool)
    requires forall x :: strong(x) ==> weak(x)
    ensures Filter(Filter(s, weak), strong) == Filter(s, strong)
  {
    if s != [] {
      var p := s[..|s| - 1];
      var x := s[|s| - 1];
      FilterThenStronger(p, weak, strong);
      FilterAppend(Filter(p, weak), if weak(x) then [x] else [], strong);
    }
  }

  lemma {:induction false} AddMissingOthers(links: seq<Link>, id: string, deps: seq<Dependency>)
    ensures Filter(AddMissing(links, id, deps), FromOther(id)) == Filter(links, FromOther(id))
  {
    if deps != [] {
      var acc := AddMissing(links, id, deps[..|deps| - 1]);
      AddMissingOthers(links, id, deps[..|deps| - 1]);
      FilterAppend(acc, [DepLink(id, deps[|deps| - 1])], FromOther(id));
      assert Filter([DepLink(id, deps[|deps| - 1])], FromOther(id)) == [];
    }
  }

  lemma {:induction false} RemoveDroppedOthers(links: seq<Link>, id: string, prev: seq<Dependency>, nd: seq<Dependency>)
    ensures Filter(RemoveDropped(links, id, prev, nd), FromOther(id)) == Filter(links, FromOther(id))
  {
    if prev != [] {
      var acc := RemoveDropped(links, id, prev[..|prev| - 1], nd);
      RemoveDroppedOthers(links, id, prev[..|prev| - 1], nd);
      FilterThenStronger(acc, NotEdge(id, prev[|prev| - 1].to), FromOther(id));
    }
  }

  /** `updateElement` never touches a link with another `from`: those links, in their order,
      are the same before and after. */
  lemma UpdateLinksKeepsOthers(links: seq<Link>, id: string, prev: seq<Dependency>, patchDeps: Option<seq<Dependency>>)
    ensures Filter(NewLinks(links, id, prev, patchDeps), FromOther(id)) == Filter(links, FromOther(id))
  {
    if patchDeps.Some? {
      RemoveDroppedOthers(AddMissing(links, id, patchDeps.value), id, prev, patchDeps.value);
      AddMissingOthers(links, id, patchDeps.value);
    }
  }

  /** The adding pass links every new target, keeps every old link, and adds only
      `dep-<id>-to-<to>` links for new targets not linked before, one per target. */
  lemma {:induction false} AddMissingFacts(links: seq<Link>, id: string, deps: seq<Dependency>)
    ensures var r := AddMissing(links, id, deps);
      && |r| >= |links| && r[..|links|] == links
      && (forall k :: 0 <= k < |deps| ==> Linked(r, id, deps[k].to))
      && (forall x :: x in r[|links|..] ==> exists k :: 0 <= k < |deps| && x == DepLink(id, deps[k]) && !Linked(links, id, deps[k].to))
      && (forall a, b :: |links| <= a < b < |r| ==> r[a].to != r[b].to)
  {
    if deps != [] {
      var p := deps[..|deps| - 1];
      var d := deps[|deps| - 1];
      var acc := AddMissing(links, id, p);
      AddMissingFacts(links, id, p);
      var r := AddMissing(links, id, deps);
      assert forall k :: 0 <= k < |p| ==> p[k] == deps[k];
      if !Linked(acc, id, d.to) {
        assert r == acc + [DepLink(id, d)];
        assert r[..|links|] == acc[..|links|];
        assert r[|links|..] == acc[|links|..] + [DepLink(id, d)];
        forall k | 0 <= k < |deps|
          ensures Linked(r, id, deps[k].to)
        {
          if k < |p| {
            var j :| 0 <= j < |acc| && acc[j].from == id && acc[j].to == p[k].to;
            assert r[j] == acc[j];
          } else {
            assert r[|acc|] == DepLink(id, d);
          }
        }
        assert !Linked(links, id, d.to);
        forall a | |links| <= a < |acc|
          ensures acc[a].to != d.to
        {
          assert acc[a] in acc[|links|..];
        }
      }
    }
  }

  /** A filter that removes only `id -> t` links keeps every `id -> s` link for `s != t`. */
  lemma FilterKeepsLinked(links: seq<Link>, id: string, t: string, s: string)
    requires s != t && Linked(links, id, s)
    ensures Linked(Filter(links, NotEdge(id, t)), id, s)
  {
    var j :| 0 <= j < |links| && links[j].from == id && links[j].to == s;
    assert links[j] in Filter(links, NotEdge(id, t));
    var i :| 0 <= i < |Filter(links, NotEdge(id, t))| && Filter(links, NotEdge(id, t))[i] == links[j];
  }

  lemma {:induction false} RemoveDroppedKeeps(links: seq<Link>, id: string, prev: seq<Dependency>, nd: seq<Dependency>, s: string)
    requires Targets(nd, s) && Linked(links, id, s)
    ensures Linked(RemoveDropped(links, id, prev, nd), id, s)
  {
    if prev != [] {
      RemoveDroppedKeeps(links, id, prev[..|prev| - 1], nd, s);
      var t := prev[|prev| - 1].to;
      if !Targets(nd, t) {
        FilterKeepsLinked(RemoveDropped(links, id, prev[..|prev| - 1], nd), id, t, s);
      }
    }
  }

  /** Filtering never creates a link. */
  lemma FilterUnlinked(links: seq<Link>, keep: Link -> bool, id: string, t: string)
    requires !Linked(links, id, t)
    ensures !Linked(Filter(links, keep), id, t)
  {
    forall j | 0 <= j < |Filter(links, keep)| && Filter(links, keep)[j].from == id
      ensures Filter(links, keep)[j].to != t
    {
      assert Filter(links, keep)[j] in links;
    }
  }

  lemma {:induction false} RemoveDroppedRemoves(links: seq<Link>, id: string, prev: seq<Dependency>, nd: seq<Dependency>, t: string)
    requires Targets(prev, t) && !Targets(nd, t)
    ensures !Linked(RemoveDropped(links, id, prev, nd), id, t)
  {
    var p := prev[..|prev| - 1];
    var last := prev[|prev| - 1].to;
    var acc := RemoveDropped(links, id, p, nd);
    if last == t {
      FilterUnlinkedEdge(acc, id, t);
    } else {
      var k :| 0 <= k < |prev| && prev[k].to == t;
      assert p[k] == prev[k];
      RemoveDroppedRemoves(links, id, p, nd, t);
      if !Targets(nd, last) {
        FilterUnlinked(acc, NotEdge(id, last), id, t);
      }
    }
  }

  lemma FilterUnlinkedEdge(links: seq<Link>, id: string, t: string)
    ensures !Linked(Filter(links, NotEdge(id, t)), id, t)
  {
    if Linked(Filter(links, NotEdge(id, t)), id, t) {
      var j :| 0 <= j < |Filter(links, NotEdge(id, t))| && Filter(links, NotEdge(id, t))[j].from == id && Filter(links, NotEdge(id, t))[j].to == t;
      assert Filter(links, NotEdge(id, t))[j] in Filter(links, NotEdge(id, t));
    }
  }

  lemma {:induction false} RemoveDroppedOnlyRemoves(links: seq<Link>, id: string, prev: seq<Dependency>, nd: seq<Dependency>, t: string)
    requires Linked(RemoveDropped(links, id, prev, nd), id, t)
    ensures Linked(links, id, t)
  {
    if prev != [] {
      var acc := RemoveDropped(links, id, prev[..|prev| - 1], nd);
      var last := prev[|prev| - 1].to;
      if !Targets(nd, last) && !Linked(acc, id, t) {
        FilterUnlinked(acc, NotEdge(id, last), id, t);
      }
      RemoveDroppedOnlyRemoves(links, id, prev[..|prev| - 1], nd, t);
    }
  }

  /** After `updateElement` with new `dependencies`: every new target is linked from `id`,
      no previous target missing from the new list is, and any other target linked from `id`
      was linked before. Without new `dependencies` the links are untouched. */
  lemma UpdateLinksTargets(links: seq<Link>, id: string, prev: seq<Dependency>, patchDeps: Option<seq<Dependency>>)
    ensures patchDeps.None? ==> NewLinks(links, id, prev, patchDeps) == links
    ensures patchDeps.Some? ==> var nd := patchDeps.value; var r := NewLinks(links, id, prev, patchDeps);
      && (forall k :: 0 <= k < |nd| ==> Linked(r, id, nd[k].to))
      && (forall t :: Targets(prev, t) && !Targets(nd, t) ==> !Linked(r, id, t))
      && (forall t :: Linked(r, id, t) ==> Linked(links, id, t) || Targets(nd, t))
  {
    if patchDeps.Some? {
      var nd := patchDeps.value;
      var added := AddMissing(links, id, nd);
      var r := NewLinks(links, id, prev, patchDeps);
      AddMissingFacts(links, id, nd);
      forall k | 0 <= k < |nd|
        ensures Linked(r, id, nd[k].to)
      {
        RemoveDroppedKeeps(added, id, prev, nd, nd[k].to);
      }
      forall t | Targets(prev, t) && !Targets(nd, t)
        ensures !Linked(r, id, t)
      {
        RemoveDroppedRemoves(added, id, prev, nd, t);
      }
      forall t | Linked(r, id, t)
        ensures Linked(links, id, t) || Targets(nd, t)
      {
        RemoveDroppedOnlyRemoves(added, id, prev, nd, t);
        var j :| 0 <= j < |added| && added[j].from == id && added[j].to == t;
        if j >= |links| {
          assert added[j] in added[|links|..];
        } else {
          assert added[j] == links[j];
        }
      }
    }
  }

  /** When the links leaving `id` named exactly the previous targets, they name exactly the
      new targets afterwards: `updateElement` keeps links and dependencies in step. */
  lemma UpdateLinksInStep(links: seq<Link>, id: string, prev: seq<Dependency>, nd: seq<Dependency>)
    requires forall t :: Linked(links, id, t) <==> Targets(prev, t)
    ensures forall t :: Linked(NewLinks(links, id, prev, Some(nd)), id, t) <==> Targets(nd, t)
  {
    UpdateLinksTargets(links, id, prev, Some(nd));
    forall t | Targets(nd, t)
      ensures Linked(NewLinks(links, id, prev, Some(nd)), id, t)
    {
      var k :| 0 <= k < |nd| && nd[k].to == t;
    }
  }
}
