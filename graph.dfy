/** Paths along the link list, in either direction, and the facts the depth-first walks of the
    chain filter rest on. Walking forward follows `from -> to`; walking backward follows
    `to -> from`. */
module Graph {
  import opened Types

  /** The end a walk leaves a link from. */
  function Src(l: Link, forward: bool): string {
    if forward then l.from else l.to
  }

  /** The end a walk reaches through a link. */
  function Dst(l: Link, forward: bool): string {
    if forward then l.to else l.from
  }

  /** One link leads from `a` to `b` in the given direction. */
  predicate Step(links: seq<Link>, forward: bool, a: string, b: string) {
    exists i :: 0 <= i < |links| && Src(links[i], forward) == a && Dst(links[i], forward) == b
  }

  /** `p` is a walk of zero or more links. */
  ghost predicate IsPath(links: seq<Link>, forward: bool, p: seq<string>) {
    |p| >= 1 && forall k :: 0 <= k < |p| - 1 ==> Step(links, forward, p[k], p[k + 1])
  }

  /** `b` can be reached from `a` along zero or more links. */
  ghost predicate Reaches(links: seq<Link>, forward: bool, a: string, b: string) {
    exists p :: IsPath(links, forward, p) && p[0] == a && p[|p| - 1] == b
  }

  /** `b` can be reached from `a` along one or more links. */
  ghost predicate ReachesPlus(links: seq<Link>, forward: bool, a: string, b: string) {
    exists i :: 0 <= i < |links| && Reaches(links, forward, a, Src(links[i], forward)) && Dst(links[i], forward) == b
  }

  /** `b` can be reached from one of the seeds along zero or more links. */
  ghost predicate ReachesFrom(links: seq<Link>, forward: bool, seeds: seq<string>, b: string) {
    exists k :: 0 <= k < |seeds| && Reaches(links, forward, seeds[k], b)
  }

  /** Every node of `visited` that is not on the walk's stack has had all its links followed:
      their far ends are visited too. */
  ghost predicate FinishedClosed(links: seq<Link>, forward: bool, visited: set<string>, stack: set<string>) {
    forall i :: 0 <= i < |links| && Src(links[i], forward) in visited && Src(links[i], forward) !in stack ==>
      Dst(links[i], forward) in visited
  }

  /** Every node a link touches, plus the extra nodes a walk may start from: the finite
      universe a walk's visited set grows in. */
  function Endpoints(links: seq<Link>): (r: set<string>)
    ensures forall i :: 0 <= i < |links| ==> links[i].from in r && links[i].to in r
  {
    if links == [] then {} else Endpoints(links[..|links| - 1]) + {links[|links| - 1].from, links[|links| - 1].to}
  }

  lemma ReachesSelf(links: seq<Link>, forward: bool, a: string)
    ensures Reaches(links, forward, a, a)
  {
    assert IsPath(links, forward, [a]);
  }

  /** A reachable node followed by one more link is reachable. */
  lemma ReachesExtend(links: seq<Link>, forward: bool, a: string, i: int)
    requires 0 <= i < |links| && Reaches(links, forward, a, Src(links[i], forward))
    ensures Reaches(links, forward, a, Dst(links[i], forward))
  {
    var p :| IsPath(links, forward, p) && p[0] == a && p[|p| - 1] == Src(links[i], forward);
    var q := p + [Dst(links[i], forward)];
    assert Step(links, forward, q[|p| - 1], q[|p|]);
    assert IsPath(links, forward, q);
  }

  /** One link is a walk of one or more links. */
  lemma ReachesPlusStep(links: seq<Link>, forward: bool, a: string, i: int)
    requires 0 <= i < |links| && Src(links[i], forward) == a
    ensures ReachesPlus(links, forward, a, Dst(links[i], forward))
  {
    ReachesSelf(links, forward, a);
  }

  lemma ReachesFromSeed(links: seq<Link>, forward: bool, seeds: seq<string>, k: int)
    requires 0 <= k < |seeds|
    ensures ReachesFrom(links, forward, seeds, seeds[k])
  {
    ReachesSelf(links, forward, seeds[k]);
  }

  /** What is reachable from the seeds, followed by one more link, is reachable from them. */
  lemma ReachesFromExtend(links: seq<Link>, forward: bool, seeds: seq<string>, i: int)
    requires 0 <= i < |links| && ReachesFrom(links, forward, seeds, Src(links[i], forward))
    ensures ReachesFrom(links, forward, seeds, Dst(links[i], forward))
  {
    var k :| 0 <= k < |seeds| && Reaches(links, forward, seeds[k], Src(links[i], forward));
    ReachesExtend(links, forward, seeds[k], i);
  }

  /** A set closed under following links, holding `a`, holds everything reachable from `a`. */
  lemma {:induction false} ClosedHoldsReachable(links: seq<Link>, forward: bool, s: set<string>, a: string, b: string)
    requires FinishedClosed(links, forward, s, {}) && a in s && Reaches(links, forward, a, b)
    ensures b in s
  {
    var p :| IsPath(links, forward, p) && p[0] == a && p[|p| - 1] == b;
    var k := 0;
    while k < |p| - 1
      invariant 0 <= k <= |p| - 1 && p[k] in s
    {
      assert Step(links, forward, p[k], p[k + 1]);
      var i :| 0 <= i < |links| && Src(links[i], forward) == p[k] && Dst(links[i], forward) == p[k + 1];
      k := k + 1;
    }
  }

  lemma {:induction false} SubsetCard<T>(a: set<T>, b: set<T>)
    requires a <= b
    ensures |a| <= |b|
  {
    if a != {} {
      var x :| x in a;
      SubsetCard(a - {x}, b - {x});
    }
  }

  /** Visiting one more node of a finite universe shrinks what is left to visit. */
  lemma Shrinks<T>(universe: set<T>, before: set<T>, after: set<T>, x: T)
    requires x in universe && x !in before && before + {x} <= after
    ensures |universe - after| < |universe - before|
  {
    SubsetCard(universe - after, (universe - before) - {x});
  }
}
