/** `getChainIds`, the element chain of the chain filter: a backward and a forward depth-first
    walk from the selected node, each guarded by its own visited set, and the links that touch
    the start node, an upstream source or a downstream target. The function is written out
    three times in the source (src/components/ChainFilter.tsx, src/components/canvas_area/ChainFilter.tsx
    and src/components/canvas_area/ActionBar.tsx), identically; this module models it once. */
module ChainIds {
  import opened Wrappers
  import opened Types
  import opened Graph

  /** What holds of one walk between calls: `visited` is the walk's guard set, `found` its
      result Set (in insertion order), `stack` the nodes whose loop over the links is still
      running. Every visited node is reachable from `start`; every finished node has sent all
      its far ends into both `visited` and `found`; everything found is the far end of a link
      leaving a visited node. */
  ghost predicate WalkState(links: seq<Link>, forward: bool, start: string, visited: set<string>,
                            found: seq<string>, stack: set<string>)
  {
    && stack <= visited
    && NoDuplicates(found)
    && (forall v :: v in visited ==> Reaches(links, forward, start, v))
    && (forall i :: 0 <= i < |links| && Src(links[i], forward) in visited && Src(links[i], forward) !in stack ==>
          Dst(links[i], forward) in visited && Dst(links[i], forward) in found)
    && (forall x :: x in found ==>
          exists i :: 0 <= i < |links| && Src(links[i], forward) in visited && Dst(links[i], forward) == x)
  }

  /** `set.add(x)` on a Set kept in insertion order. */
  function Add(found: seq<string>, x: string): (r: seq<string>)
    ensures x in r && forall y :: y in found ==> y in r
  {
    if x in found then found else found + [x]
  }

  /** Entering a fresh node that is reachable from the start pushes it on the stack. */
  lemma EnterNode(links: seq<Link>, forward: bool, start: string, visited: set<string>,
                  found: seq<string>, stack: set<string>, id: string)
    requires WalkState(links, forward, start, visited, found, stack) && Reaches(links, forward, start, id)
    ensures WalkState(links, forward, start, visited + {id}, found, stack + {id})
  {
  }

  /** Recording the far end of a link that leaves a visited node. */
  lemma RecordFound(links: seq<Link>, forward: bool, start: string, visited: set<string>,
                    found: seq<string>, stack: set<string>, i: int)
    requires 0 <= i < |links| && Src(links[i], forward) in visited
    requires WalkState(links, forward, start, visited, found, stack)
    ensures WalkState(links, forward, start, visited, Add(found, Dst(links[i], forward)), stack)
  {
  }

  /** Leaving a node once every link out of it has been followed pops it off the stack. */
  lemma LeaveNode(links: seq<Link>, forward: bool, start: string, visited: set<string>,
                  found: seq<string>, stack: set<string>, id: string)
    requires WalkState(links, forward, start, visited, found, stack + {id}) && id !in stack
    requires forall k :: 0 <= k < |links| && Src(links[k], forward) == id ==>
      Dst(links[k], forward) in visited && Dst(links[k], forward) in found
    requires id in visited
    ensures WalkState(links, forward, start, visited, found, stack)
  {
  }

  /** The links among the first `n` that leave `id` have sent their far ends into both
      `visited` and `found`. */
  ghost predicate Explored(links: seq<Link>, forward: bool, id: string, visited: set<string>, found: seq<string>, n: int) {
    forall k :: 0 <= k < n && k < |links| && Src(links[k], forward) == id ==>
      Dst(links[k], forward) in visited && Dst(links[k], forward) in found
  }

  lemma ExploredGrows(links: seq<Link>, forward: bool, id: string, visited: set<string>, found: seq<string>,
                      visited': set<string>, found': seq<string>, n: int)
    requires Explored(links, forward, id, visited, found, n)
    requires visited <= visited' && forall x :: x in found ==> x in found'
    ensures Explored(links, forward, id, visited', found', n)
  {
  }

  lemma ExploredSkip(links: seq<Link>, forward: bool, id: string, visited: set<string>, found: seq<string>, n: int)
    requires Explored(links, forward, id, visited, found, n)
    requires 0 <= n < |links| && Src(links[n], forward) != id
    ensures Explored(links, forward, id, visited, found, n + 1)
  {
    forall k | 0 <= k < n + 1 && k < |links| && Src(links[k], forward) == id
      ensures Dst(links[k], forward) in visited && Dst(links[k], forward) in found
    {
      assert k < n;
    }
  }

  /** A finished walk from `start` has found exactly the nodes one or more links away. */
  lemma WalkComplete(links: seq<Link>, forward: bool, start: string, visited: set<string>, found: seq<string>)
    requires start in visited && WalkState(links, forward, start, visited, found, {})
    ensures forall x :: x in found <==> ReachesPlus(links, forward, start, x)
  {
    assert FinishedClosed(links, forward, visited, {});
    forall x | ReachesPlus(links, forward, start, x)
      ensures x in found
    {
      var i :| 0 <= i < |links| && Reaches(links, forward, start, Src(links[i], forward)) && Dst(links[i], forward) == x;
      ClosedHoldsReachable(links, forward, visited, start, Src(links[i], forward));
    }
  }

  /** The closures `walkUp` and `walkDown` share: the sets they fill are fields here. */
  class Walker {
    const links: seq<Link>
    const start: string
    ghost const universe: set<string>
    var upstream: seq<string>
    var downstream: seq<string>
    var visitedUp: set<string>
    var visitedDown: set<string>

    constructor (links: seq<Link>, start: string)
      ensures this.links == links && this.start == start && universe == Endpoints(links) + {start}
      ensures upstream == [] && downstream == [] && visitedUp == {} && visitedDown == {}
    {
      this.links := links;
      this.start := start;
      universe := Endpoints(links) + {start};
      upstream, downstream := [], [];
      visitedUp, visitedDown := {}, {};
    }

    /** `walkUp(id)`: follow every link whose `to` is `id`, adding its `from` to `upstream`. */
    method WalkUp(id: string, ghost stack: set<string>)
      requires universe == Endpoints(links) + {start} && visitedUp <= universe
      requires id in universe && Reaches(links, false, start, id)
      requires WalkState(links, false, start, visitedUp, upstream, stack)
      modifies this`upstream, this`visitedUp
      ensures visitedUp <= universe && old(visitedUp) + {id} <= visitedUp
      ensures WalkState(links, false, start, visitedUp, upstream, stack)
      ensures forall x :: x in old(upstream) ==> x in upstream
      decreases 2 * |universe - visitedUp| + 1
    {
      if id in visitedUp {
        return;
      }
      EnterNode(links, false, start, visitedUp, upstream, stack, id);
      visitedUp := visitedUp + {id};
      var i := 0;
      while i < |links|
        invariant 0 <= i <= |links|
        invariant visitedUp <= universe && old(visitedUp) + {id} <= visitedUp
        invariant WalkState(links, false, start, visitedUp, upstream, stack + {id})
        invariant forall x :: x in old(upstream) ==> x in upstream
        invariant Explored(links, false, id, visitedUp, upstream, i)
      {
        if links[i].to == id {
          Shrinks(universe, old(visitedUp), visitedUp, id);
          StepUp(id, stack, i);
        } else {
          ExploredSkip(links, false, id, visitedUp, upstream, i);
        }
        i := i + 1;
      }
      assert Explored(links, false, id, visitedUp, upstream, |links|);
      LeaveNode(links, false, start, visitedUp, upstream, stack, id);
    }

    /** One turn of the loop of `walkUp(id)`, on a link whose `to` is `id`: add its `from` to
        `upstream`, then walk up from it. */
    method StepUp(id: string, ghost stack: set<string>, i: int)
      requires universe == Endpoints(links) + {start} && visitedUp <= universe
      requires 0 <= i < |links| && links[i].to == id && id in visitedUp && Reaches(links, false, start, id)
      requires WalkState(links, false, start, visitedUp, upstream, stack + {id})
      requires Explored(links, false, id, visitedUp, upstream, i)
      modifies this`upstream, this`visitedUp
      ensures visitedUp <= universe && old(visitedUp) <= visitedUp
      ensures WalkState(links, false, start, visitedUp, upstream, stack + {id})
      ensures forall x :: x in old(upstream) ==> x in upstream
      ensures Explored(links, false, id, visitedUp, upstream, i + 1)
      decreases 2 * |universe - visitedUp| + 2
    {
      ghost var visited0, found0 := visitedUp, upstream;
      var l := links[i];
      RecordFound(links, false, start, visitedUp, upstream, stack + {id}, i);
      upstream := Add(upstream, l.from);
      ReachesExtend(links, false, start, i);
      WalkUp(l.from, stack + {id});
      ExploredGrows(links, false, id, visited0, found0, visitedUp, upstream, i);
    }

    /** `walkDown(id)`: follow every link whose `from` is `id`, adding its `to` to `downstream`. */
    method WalkDown(id: string, ghost stack: set<string>)
      requires universe == Endpoints(links) + {start} && visitedDown <= universe
      requires id in universe && Reaches(links, true, start, id)
      requires WalkState(links, true, start, visitedDown, downstream, stack)
      modifies this`downstream, this`visitedDown
      ensures visitedDown <= universe && old(visitedDown) + {id} <= visitedDown
      ensures WalkState(links, true, start, visitedDown, downstream, stack)
      ensures forall x :: x in old(downstream) ==> x in downstream
      decreases 2 * |universe - visitedDown| + 1
    {
      if id in visitedDown {
        return;
      }
      EnterNode(links, true, start, visitedDown, downstream, stack, id);
      visitedDown := visitedDown + {id};
      var i := 0;
      while i < |links|
        invariant 0 <= i <= |links|
        invariant visitedDown <= universe && old(visitedDown) + {id} <= visitedDown
        invariant WalkState(links, true, start, visitedDown, downstream, stack + {id})
        invariant forall x :: x in old(downstream) ==> x in downstream
        invariant Explored(links, true, id, visitedDown, downstream, i)
      {
        if links[i].from == id {
          Shrinks(universe, old(visitedDown), visitedDown, id);
          StepDown(id, stack, i);
        } else {
          ExploredSkip(links, true, id, visitedDown, downstream, i);
        }
        i := i + 1;
      }
      assert Explored(links, true, id, visitedDown, downstream, |links|);
      LeaveNode(links, true, start, visitedDown, downstream, stack, id);
    }

    /** One turn of the loop of `walkDown(id)`, on a link whose `from` is `id`: add its `to` to
        `downstream`, then walk down from it. */
    method StepDown(id: string, ghost stack: set<string>, i: int)
      requires universe == Endpoints(links) + {start} && visitedDown <= universe
      requires 0 <= i < |links| && links[i].from == id && id in visitedDown && Reaches(links, true, start, id)
      requires WalkState(links, true, start, visitedDown, downstream, stack + {id})
      requires Explored(links, true, id, visitedDown, downstream, i)
      modifies this`downstream, this`visitedDown
      ensures visitedDown <= universe && old(visitedDown) <= visitedDown
      ensures WalkState(links, true, start, visitedDown, downstream, stack + {id})
      ensures forall x :: x in old(downstream) ==> x in downstream
      ensures Explored(links, true, id, visitedDown, downstream, i + 1)
      decreases 2 * |universe - visitedDown| + 2
    {
      ghost var visited0, found0 := visitedDown, downstream;
      var l := links[i];
      RecordFound(links, true, start, visitedDown, downstream, stack + {id}, i);
      downstream := Add(downstream, l.to);
      ReachesExtend(links, true, start, i);
      WalkDown(l.to, stack + {id});
      ExploredGrows(links, true, id, visited0, found0, visitedDown, downstream, i);
    }
  }

  /** Both walks from `startId`: `upstream` holds exactly the nodes with a path of one or more
      links to `startId`, `downstream` exactly those reachable from it by one or more links.
      Termination on every link set, cyclic ones included, is part of what is proved. */
  method Closures(startId: string, links: seq<Link>) returns (upstream: seq<string>, downstream: seq<string>)
    ensures NoDuplicates(upstream) && NoDuplicates(downstream)
    ensures forall x :: x in upstream <==> ReachesPlus(links, false, startId, x)
    ensures forall x :: x in downstream <==> ReachesPlus(links, true, startId, x)
  {
    var w := new Walker(links, startId);
    ReachesSelf(links, false, startId);
    ReachesSelf(links, true, startId);
    w.WalkUp(startId, {});
    w.WalkDown(startId, {});
    upstream, downstream := w.upstream, w.downstream;
    WalkComplete(links, false, startId, w.visitedUp, upstream);
    WalkComplete(links, true, startId, w.visitedDown, downstream);
  }

  /** The link test of `getChainIds` over the computed Sets. */
  predicate Touches(l: Link, start: string, upstream: seq<string>, downstream: seq<string>) {
    l.from == start || l.to == start || l.from in upstream || l.to in downstream
  }

  /** The same test stated with the closures themselves. */
  ghost predicate InChain(links: seq<Link>, start: string, l: Link) {
    l.from == start || l.to == start || ReachesPlus(links, false, start, l.from) || ReachesPlus(links, true, start, l.to)
  }

  /** `links.filter(l => touches).map(l => l.id)`: the ids of the touching links, in link order. */
  function ChainLinkIds(links: seq<Link>, start: string, upstream: seq<string>, downstream: seq<string>): (r: seq<string>)
    ensures |r| <= |links|
    ensures forall i :: 0 <= i < |links| && Touches(links[i], start, upstream, downstream) ==> links[i].id in r
    ensures forall x :: x in r ==> exists i :: 0 <= i < |links| && Touches(links[i], start, upstream, downstream) && links[i].id == x
  {
    if links == [] then []
    else
      var last := links[|links| - 1];
      ChainLinkIds(links[..|links| - 1], start, upstream, downstream) + (if Touches(last, start, upstream, downstream) then [last.id] else [])
  }

  /** The ids of a list of links, in order (`map(l => l.id)`). */
  function LinkIdsOf(ls: seq<Link>): (r: seq<string>)
    ensures |r| == |ls| && forall i :: 0 <= i < |ls| ==> r[i] == ls[i].id
  {
    if ls == [] then [] else LinkIdsOf(ls[..|ls| - 1]) + [ls[|ls| - 1].id]
  }

  /** `ChainLinkIds` is the order-preserving filter of the links by any test that agrees with
      `Touches` on them, followed by the id projection. */
  lemma {:induction false} ChainLinkIdsInOrder(links: seq<Link>, start: string, upstream: seq<string>, downstream: seq<string>,
                                                keep: Link -> bool)
    requires forall i :: 0 <= i < |links| ==> (Touches(links[i], start, upstream, downstream) <==> keep(links[i]))
    ensures ChainLinkIds(links, start, upstream, downstream) == LinkIdsOf(Filter(links, keep))
  {
    if links != [] {
      var p := links[..|links| - 1];
      var last := links[|links| - 1];
      assert forall i :: 0 <= i < |p| ==> p[i] == links[i];
      ChainLinkIdsInOrder(p, start, upstream, downstream, keep);
      var f := Filter(p, keep);
      if keep(last) {
        assert (f + [last])[..|f|] == f;
      }
    }
  }

  /** What `getChainIds(startId, links)` computes: `elementIds` is `startId` followed by the
      upstream and the downstream closure, each without duplicates (the whole list is not
      deduplicated: the start node or a node on both sides appears again); `linkIds` names every
      link touching the start node, an upstream source or a downstream target, and nothing else,
      and lists their ids one per touching link, in link order. */
  ghost predicate IsElementChain(links: seq<Link>, startId: string, elementIds: seq<string>, linkIds: seq<string>) {
    && (exists up, down ::
          && elementIds == [startId] + up + down
          && NoDuplicates(up) && NoDuplicates(down)
          && (forall x :: x in up <==> ReachesPlus(links, false, startId, x))
          && (forall x :: x in down <==> ReachesPlus(links, true, startId, x)))
    && (forall i :: 0 <= i < |links| && InChain(links, startId, links[i]) ==> links[i].id in linkIds)
    && (forall x :: x in linkIds ==> exists i :: 0 <= i < |links| && InChain(links, startId, links[i]) && links[i].id == x)
    && linkIds == LinkIdsOf(Filter(links, l => InChain(links, startId, l)))
  }

  /** `getChainIds(startId, links)` */
  method GetChainIds(startId: string, links: seq<Link>) returns (elementIds: seq<string>, linkIds: seq<string>)
    ensures IsElementChain(links, startId, elementIds, linkIds)
  {
    var upstream, downstream := Closures(startId, links);
    elementIds := [startId] + upstream + downstream;
    linkIds := ChainLinkIds(links, startId, upstream, downstream);
    assert forall i :: 0 <= i < |links| ==>
      (Touches(links[i], startId, upstream, downstream) <==> InChain(links, startId, links[i]));
    ChainLinkIdsInOrder(links, startId, upstream, downstream, l => InChain(links, startId, l));
  }
}
