/** The chain filter of the canvas (src/utils/chainFilterUtils.ts): the projection of a model
    onto a chain, and the chain of a whole component, a forward depth-first walk from each of its
    elements that shares one visited set. */
module ChainFilterUtils {
  import opened Wrappers
  import opened Types
  import opened Graph

  /** `{ active, elementIds, linkIds }` */
  datatype ChainFilter = ChainFilter(active: bool, elementIds: seq<string>, linkIds: seq<string>)

  /** The filter that shows everything. */
  const Inactive := ChainFilter(false, [], [])

  /** A filter the projection acts on. */
  predicate Engaged(f: ChainFilter) {
    f.active && |f.elementIds| > 0
  }

  predicate InChainIds(e: Element, ids: seq<string>) {
    e.id in ids
  }

  predicate LinkShown(l: Link, ids: seq<string>) {
    l.id in ids
  }

  /** A component keeps its fields; its elements become those in the chain. */
  function Narrow(c: Component, ids: seq<string>): (r: Component)
    ensures r.id == c.id && r.name == c.name && r.kind == c.kind && r.level == c.level && r.column == c.column
    ensures r.elements.Some?
  {
    c.(elements := Some(Filter(ElementsOf(c), (e: Element) => InChainIds(e, ids))))
  }

  /** `comp.elements && comp.elements.length > 0` */
  predicate HasElements(c: Component) {
    c.elements.Some? && |c.elements.value| > 0
  }

  /** The `map` step over every component. */
  function NarrowAll(cs: seq<Component>, ids: seq<string>): (r: seq<Component>)
    ensures |r| == |cs| && forall k :: 0 <= k < |cs| ==> r[k] == Narrow(cs[k], ids)
  {
    if cs == [] then [] else NarrowAll(cs[..|cs| - 1], ids) + [Narrow(cs[|cs| - 1], ids)]
  }

  /** Every element of a component list, component by component. */
  function AllElements(cs: seq<Component>): seq<Element> {
    if cs == [] then [] else AllElements(cs[..|cs| - 1]) + ElementsOf(cs[|cs| - 1])
  }

  /** `applyChainFilter(model, chainFilter)` */
  function ApplyChainFilter(m: Model, f: ChainFilter): (r: Model)
    ensures !Engaged(f) ==> r == m
    ensures r.version == m.version && r.style == m.style && r.componentTypes == m.componentTypes
  {
    if !Engaged(f) then m
    else m.(components := Filter(NarrowAll(m.components, f.elementIds), HasElements),
            links := Filter(m.links, (l: Link) => LinkShown(l, f.linkIds)))
  }

  lemma {:induction false} SurvivorsHoldChainElements(cs: seq<Component>, ids: seq<string>)
    ensures AllElements(Filter(NarrowAll(cs, ids), HasElements)) == Filter(AllElements(cs), (e: Element) => InChainIds(e, ids))
  {
    var keep := (e: Element) => InChainIds(e, ids);
    if cs != [] {
      var p := cs[..|cs| - 1];
      var c := cs[|cs| - 1];
      var n := NarrowAll(cs, ids);
      assert n[..|n| - 1] == NarrowAll(p, ids);
      SurvivorsHoldChainElements(p, ids);
      var fp := Filter(NarrowAll(p, ids), HasElements);
      var tail := if HasElements(Narrow(c, ids)) then [Narrow(c, ids)] else [];
      assert Filter(n, HasElements) == fp + tail;
      if tail != [] {
        assert (fp + tail)[..|fp + tail| - 1] == fp;
        assert AllElements(fp + tail) == AllElements(fp) + ElementsOf(Narrow(c, ids));
      } else {
        assert ElementsOf(Narrow(c, ids)) == [];
        assert fp + tail == fp;
      }
      FilterAppend(AllElements(p), ElementsOf(c), keep);
    }
  }

  /** When the filter is engaged, the surviving elements, read component by component, are
      exactly the original elements whose id is in `elementIds`, in their original order. */
  lemma ApplyChainFilterElements(m: Model, f: ChainFilter)
    requires Engaged(f)
    ensures AllElements(ApplyChainFilter(m, f).components) ==
      Filter(AllElements(m.components), (e: Element) => InChainIds(e, f.elementIds))
  {
    SurvivorsHoldChainElements(m.components, f.elementIds);
  }

  /** When the filter is engaged, every surviving component is an original component with only
      its chain elements left, and it has at least one; a component survives exactly when it
      owns a chain element. */
  lemma ApplyChainFilterComponents(m: Model, f: ChainFilter)
    requires Engaged(f)
    ensures forall c :: c in ApplyChainFilter(m, f).components ==>
      HasElements(c) && exists k :: 0 <= k < |m.components| && c == Narrow(m.components[k], f.elementIds)
    ensures forall k :: 0 <= k < |m.components| ==>
      (Narrow(m.components[k], f.elementIds) in ApplyChainFilter(m, f).components <==>
        exists e :: e in ElementsOf(m.components[k]) && e.id in f.elementIds)
  {
    var n := NarrowAll(m.components, f.elementIds);
    forall k | 0 <= k < |m.components|
      ensures HasElements(n[k]) <==> exists e :: e in ElementsOf(m.components[k]) && e.id in f.elementIds
    {
      var keep := (e: Element) => InChainIds(e, f.elementIds);
      var els := Filter(ElementsOf(m.components[k]), keep);
      assert ElementsOf(n[k]) == els;
      if |els| > 0 {
        assert els[0] in els;
      }
      if exists e :: e in ElementsOf(m.components[k]) && e.id in f.elementIds {
        var e :| e in ElementsOf(m.components[k]) && e.id in f.elementIds;
        assert e in els;
      }
    }
  }

  /** When the filter is engaged, a link is kept exactly when its id is in `linkIds`, and the
      kept links keep their order. */
  lemma ApplyChainFilterLinks(m: Model, f: ChainFilter)
    requires Engaged(f)
    ensures ApplyChainFilter(m, f).links == Filter(m.links, (l: Link) => LinkShown(l, f.linkIds))
    ensures forall l :: l in ApplyChainFilter(m, f).links <==> l in m.links && l.id in f.linkIds
  {
  }

  lemma {:induction false} NarrowAllFixed(cs: seq<Component>, ids: seq<string>)
    requires forall c :: c in cs ==> Narrow(c, ids) == c
    ensures NarrowAll(cs, ids) == cs
  {
    if cs != [] {
      NarrowAllFixed(cs[..|cs| - 1], ids);
    }
  }

  /** Applying the same filter twice is applying it once. */
  lemma ApplyChainFilterIdempotent(m: Model, f: ChainFilter)
    ensures ApplyChainFilter(ApplyChainFilter(m, f), f) == ApplyChainFilter(m, f)
  {
    if Engaged(f) {
      var ids := f.elementIds;
      var keep := (e: Element) => InChainIds(e, ids);
      var r := ApplyChainFilter(m, f);
      var n := NarrowAll(m.components, ids);
      forall c | c in r.components
        ensures Narrow(c, ids) == c
      {
        var k :| 0 <= k < |n| && n[k] == c;
        FilterIdempotent(ElementsOf(m.components[k]), keep);
      }
      NarrowAllFixed(r.components, ids);
      FilterAll(r.components, HasElements);
      FilterIdempotent(m.links, (l: Link) => LinkShown(l, f.linkIds));
    }
  }

  /** What holds of the shared walk between calls: `elementIds` lists `visited` once each, every
      visited node is forward-reachable from a seed, every finished node has had each of its
      outgoing links recorded and followed, and every recorded link leaves a visited node. */
  ghost predicate CollectState(links: seq<Link>, seeds: seq<string>, visited: set<string>,
                               elementIds: seq<string>, linkIds: seq<string>, stack: set<string>)
  {
    && stack <= visited
    && visited == Elems(elementIds) && |visited| == |elementIds|
    && (forall v :: v in visited ==> ReachesFrom(links, true, seeds, v))
    && (forall i :: 0 <= i < |links| && links[i].from in visited && links[i].from !in stack ==>
          links[i].to in visited && links[i].id in linkIds)
    && (forall x :: x in linkIds ==> exists i :: 0 <= i < |links| && links[i].from in visited && links[i].id == x)
  }

  lemma EnterElement(links: seq<Link>, seeds: seq<string>, visited: set<string>, elementIds: seq<string>,
                     linkIds: seq<string>, stack: set<string>, id: string)
    requires CollectState(links, seeds, visited, elementIds, linkIds, stack) && id !in visited
    requires ReachesFrom(links, true, seeds, id)
    ensures CollectState(links, seeds, visited + {id}, elementIds + [id], linkIds, stack + {id})
  {
    ElemsAppend(elementIds, id);
  }

  lemma RecordLink(links: seq<Link>, seeds: seq<string>, visited: set<string>, elementIds: seq<string>,
                   linkIds: seq<string>, stack: set<string>, i: int)
    requires 0 <= i < |links| && links[i].from in visited
    requires CollectState(links, seeds, visited, elementIds, linkIds, stack)
    ensures CollectState(links, seeds, visited, elementIds, linkIds + [links[i].id], stack)
  {
  }

  lemma LeaveElement(links: seq<Link>, seeds: seq<string>, visited: set<string>, elementIds: seq<string>,
                     linkIds: seq<string>, stack: set<string>, id: string)
    requires CollectState(links, seeds, visited, elementIds, linkIds, stack + {id}) && id !in stack && id in visited
    requires forall k :: 0 <= k < |links| && links[k].from == id ==> links[k].to in visited && links[k].id in linkIds
    ensures CollectState(links, seeds, visited, elementIds, linkIds, stack)
  {
  }

  /** The links among the first `n` that leave `id` have been recorded and their targets visited. */
  ghost predicate Followed(links: seq<Link>, id: string, visited: set<string>, linkIds: seq<string>, n: int) {
    forall k :: 0 <= k < n && k < |links| && links[k].from == id ==> links[k].to in visited && links[k].id in linkIds
  }

  lemma FollowedGrows(links: seq<Link>, id: string, visited: set<string>, linkIds: seq<string>,
                      visited': set<string>, linkIds': seq<string>, n: int)
    requires Followed(links, id, visited, linkIds, n)
    requires visited <= visited' && forall x :: x in linkIds ==> x in linkIds'
    ensures Followed(links, id, visited', linkIds', n)
  {
  }

  lemma FollowedSkip(links: seq<Link>, id: string, visited: set<string>, linkIds: seq<string>, n: int)
    requires Followed(links, id, visited, linkIds, n)
    requires 0 <= n < |links| && links[n].from != id
    ensures Followed(links, id, visited, linkIds, n + 1)
  {
    forall k | 0 <= k < n + 1 && k < |links| && links[k].from == id
      ensures links[k].to in visited && links[k].id in linkIds
    {
      assert k < n;
    }
  }

  /** The closure `collectChain` lives in, with the state it shares. */
  class Collector {
    const links: seq<Link>
    ghost const seeds: seq<string>
    ghost const universe: set<string>
    var visited: set<string>
    var elementIds: seq<string>
    var linkIds: seq<string>

    constructor (links: seq<Link>, ghost seeds: seq<string>)
      ensures this.links == links && this.seeds == seeds && universe == Endpoints(links) + Elems(seeds)
      ensures visited == {} && elementIds == [] && linkIds == []
    {
      this.links := links;
      this.seeds := seeds;
      universe := Endpoints(links) + Elems(seeds);
      visited, elementIds, linkIds := {}, [], [];
    }

    /** `collectChain(elId)`: on a node not yet visited, record it, then record and follow every
        link leaving it (`FollowLinks`, the loop of the same function). */
    method CollectChain(elId: string, ghost stack: set<string>)
      requires Endpoints(links) <= universe && visited <= universe
      requires elId in universe && ReachesFrom(links, true, seeds, elId)
      requires CollectState(links, seeds, visited, elementIds, linkIds, stack)
      modifies this`visited, this`elementIds, this`linkIds
      ensures visited <= universe && old(visited) + {elId} <= visited
      ensures CollectState(links, seeds, visited, elementIds, linkIds, stack)
      ensures forall x :: x in old(linkIds) ==> x in linkIds
      decreases 3 * |universe - visited| + 1
    {
      if elId in visited {
        return;
      }
      Enter(elId, stack);
      FollowLinks(elId, stack);
    }

    /** `visited.add(elId); elementIds.push(elId)` on a node not yet visited. */
    method Enter(elId: string, ghost stack: set<string>)
      requires visited <= universe && elId in universe && elId !in visited
      requires ReachesFrom(links, true, seeds, elId)
      requires CollectState(links, seeds, visited, elementIds, linkIds, stack)
      modifies this`visited, this`elementIds
      ensures visited == old(visited) + {elId} && elementIds == old(elementIds) + [elId]
      ensures visited <= universe && |universe - visited| < |universe - old(visited)|
      ensures CollectState(links, seeds, visited, elementIds, linkIds, stack + {elId})
    {
      EnterElement(links, seeds, visited, elementIds, linkIds, stack, elId);
      Shrinks(universe, visited, visited + {elId}, elId);
      visited, elementIds := visited + {elId}, elementIds + [elId];
    }

    /** The loop of `collectChain(elId)` over the links, in link order: each link leaving `elId`
        has its id recorded and its target walked. */
    method FollowLinks(elId: string, ghost stack: set<string>)
      requires Endpoints(links) <= universe && visited <= universe
      requires elId in visited && elId !in stack
      requires CollectState(links, seeds, visited, elementIds, linkIds, stack + {elId})
      modifies this`visited, this`elementIds, this`linkIds
      ensures visited <= universe && old(visited) <= visited
      ensures CollectState(links, seeds, visited, elementIds, linkIds, stack)
      ensures forall x :: x in old(linkIds) ==> x in linkIds
      decreases 3 * |universe - visited| + 3
    {
      var i := 0;
      while i < |links|
        invariant 0 <= i <= |links|
        invariant visited <= universe && old(visited) <= visited
        invariant CollectState(links, seeds, visited, elementIds, linkIds, stack + {elId})
        invariant forall x :: x in old(linkIds) ==> x in linkIds
        invariant Followed(links, elId, visited, linkIds, i)
      {
        if links[i].from == elId {
          SubsetCard(universe - visited, universe - old(visited));
          FollowOne(elId, stack, i);
        } else {
          FollowedSkip(links, elId, visited, linkIds, i);
        }
        i := i + 1;
      }
      assert Followed(links, elId, visited, linkIds, |links|);
      LeaveElement(links, seeds, visited, elementIds, linkIds, stack, elId);
    }

    /** One turn of that loop, on a link leaving `elId`: record its id, then walk its target. */
    method FollowOne(elId: string, ghost stack: set<string>, i: int)
      requires Endpoints(links) <= universe && visited <= universe
      requires 0 <= i < |links| && links[i].from == elId && elId in visited
      requires CollectState(links, seeds, visited, elementIds, linkIds, stack + {elId})
      requires Followed(links, elId, visited, linkIds, i)
      modifies this`visited, this`elementIds, this`linkIds
      ensures visited <= universe && old(visited) <= visited
      ensures CollectState(links, seeds, visited, elementIds, linkIds, stack + {elId})
      ensures forall x :: x in old(linkIds) ==> x in linkIds
      ensures Followed(links, elId, visited, linkIds, i + 1)
      decreases 3 * |universe - visited| + 2
    {
      ghost var visited0, linkIds0 := visited, linkIds;
      RecordLink(links, seeds, visited, elementIds, linkIds, stack + {elId}, i);
      linkIds := linkIds + [links[i].id];
      ReachesFromExtend(links, true, seeds, i);
      CollectChain(links[i].to, stack + {elId});
      assert links[i].id in old(linkIds) + [links[i].id];
      FollowedGrows(links, elId, visited0, linkIds0, visited, linkIds, i);
    }
  }

  /** The chain of a component: `elementIds` lists, once each, exactly the nodes forward-reachable
      (zero or more links) from the component's elements; `linkIds` names exactly the links whose
      `from` is such a node. */
  ghost predicate IsForwardChain(links: seq<Link>, seeds: seq<string>, elementIds: seq<string>, linkIds: seq<string>) {
    && NoDuplicates(elementIds)
    && (forall x :: x in elementIds <==> ReachesFrom(links, true, seeds, x))
    && (forall i :: 0 <= i < |links| && ReachesFrom(links, true, seeds, links[i].from) ==> links[i].id in linkIds)
    && (forall x :: x in linkIds ==>
          exists i :: 0 <= i < |links| && ReachesFrom(links, true, seeds, links[i].from) && links[i].id == x)
  }

  /** A finished shared walk that visited every seed has computed the forward chain. */
  lemma CollectComplete(links: seq<Link>, seeds: seq<string>, visited: set<string>, elementIds: seq<string>, linkIds: seq<string>)
    requires CollectState(links, seeds, visited, elementIds, linkIds, {})
    requires forall k :: 0 <= k < |seeds| ==> seeds[k] in visited
    ensures IsForwardChain(links, seeds, elementIds, linkIds)
  {
    ElemsFacts(elementIds);
    assert FinishedClosed(links, true, visited, {});
    forall x | ReachesFrom(links, true, seeds, x)
      ensures x in visited
    {
      var k :| 0 <= k < |seeds| && Reaches(links, true, seeds[k], x);
      ClosedHoldsReachable(links, true, visited, seeds[k], x);
    }
  }

  /** The loop of `calculateChainForComponent` over the component's elements: one shared walk
      started from each element in turn. */
  method CollectFromElements(links: seq<Link>, els: seq<Element>) returns (elementIds: seq<string>, linkIds: seq<string>)
    ensures IsForwardChain(links, ElementIds(els), elementIds, linkIds)
  {
    ghost var seeds := ElementIds(els);
    var c := new Collector(links, seeds);
    for k := 0 to |els|
      invariant c.links == links && c.seeds == seeds && c.universe == Endpoints(links) + Elems(seeds)
      invariant c.visited <= c.universe
      invariant CollectState(links, seeds, c.visited, c.elementIds, c.linkIds, {})
      invariant Elems(seeds[..k]) <= c.visited
    {
      ReachesFromSeed(links, true, seeds, k);
      ElemsHas(seeds, k);
      ElemsPrefix(seeds, k);
      c.CollectChain(els[k].id, {});
    }
    assert seeds[..|els|] == seeds;
    ElemsFacts(seeds);
    CollectComplete(links, seeds, c.visited, c.elementIds, c.linkIds);
    elementIds, linkIds := c.elementIds, c.linkIds;
  }

  /** `calculateChainForComponent(model, compId)`: inactive and empty when no component has that
      id or the first one found has no `elements` array; otherwise active, with the forward chain
      of its elements. */
  method CalculateChainForComponent(m: Model, compId: string) returns (f: ChainFilter)
    ensures var found := FindComponent(m.components, compId);
      if found.None? || found.value.elements.None? then f == Inactive
      else
        var els := found.value.elements.value;
        f.active && IsForwardChain(m.links, ElementIds(els), f.elementIds, f.linkIds)
  {
    var found := FindComponent(m.components, compId);
    if found.None? || found.value.elements.None? {
      return Inactive;
    }
    var elementIds, linkIds := CollectFromElements(m.links, found.value.elements.value);
    f := ChainFilter(true, elementIds, linkIds);
  }
}
