/** Saving a model (`toYaml` up to the object handed to `yaml.dump`, src/store/storeActions.ts:137-193
    and src/store/store.ts:144-199): copy the components, index every element id by its
    position (a later element with the same id overwrites an earlier one), clear every
    element's `dependencies` and refill them from the link list. Links whose `from` is not an
    element id are collected apart and never written. */
module Encode {
  import opened Wrappers
  import opened Types
  import opened Decode

  /** A position in the copied components: component index and element index. */
  datatype Pos = Pos(comp: nat, el: nat)

  predicate ValidPos(comps: seq<Component>, p: Pos) {
    p.comp < |comps| && p.el < |ElementsOf(comps[p.comp])|
  }

  function ElementAt(comps: seq<Component>, p: Pos): Element
    requires ValidPos(comps, p)
  {
    ElementsOf(comps[p.comp])[p.el]
  }

  /** Component order, then element order. */
  predicate Before(p: Pos, q: Pos) {
    p.comp < q.comp || (p.comp == q.comp && p.el < q.el)
  }

  /** The first `j` turns of the inner `forEach` over the elements of component `ci`. */
  function Place(m: map<string, Pos>, els: seq<Element>, ci: nat, j: nat): map<string, Pos>
    requires j <= |els|
  {
    if j == 0 then m else Place(m, els, ci, j - 1)[els[j - 1].id := Pos(ci, j - 1)]
  }

  /** `elMap` after the first `n` components. */
  function ElMapUpTo(comps: seq<Component>, n: nat): map<string, Pos>
    requires n <= |comps|
  {
    if n == 0 then map[] else Place(ElMapUpTo(comps, n - 1), ElementsOf(comps[n - 1]), n - 1, |ElementsOf(comps[n - 1])|)
  }

  /** `elMap`: element id to the position of the last element with that id. */
  function ElMap(comps: seq<Component>): map<string, Pos> {
    ElMapUpTo(comps, |comps|)
  }

  /** `m` indexes the positions before `upTo`: each id maps to the last such position holding
      it, and every such position's id is present. */
  ghost predicate Indexes(comps: seq<Component>, m: map<string, Pos>, upTo: Pos) {
    && (forall id :: id in m ==>
          ValidPos(comps, m[id]) && Before(m[id], upTo) && ElementAt(comps, m[id]).id == id &&
          (forall q :: ValidPos(comps, q) && Before(m[id], q) && Before(q, upTo) ==> ElementAt(comps, q).id != id))
    && (forall q :: ValidPos(comps, q) && Before(q, upTo) ==> ElementAt(comps, q).id in m)
  }

  lemma PlaceStep(comps: seq<Component>, m: map<string, Pos>, ci: nat, j: nat)
    requires ci < |comps| && j < |ElementsOf(comps[ci])|
    requires Indexes(comps, Place(m, ElementsOf(comps[ci]), ci, j), Pos(ci, j))
    ensures Indexes(comps, Place(m, ElementsOf(comps[ci]), ci, j + 1), Pos(ci, j + 1))
  {
    var here := Pos(ci, j);
    assert ValidPos(comps, here);
    var m' := Place(m, ElementsOf(comps[ci]), ci, j + 1);
    assert m' == Place(m, ElementsOf(comps[ci]), ci, j)[ElementAt(comps, here).id := here];
    forall q | ValidPos(comps, q) && Before(q, Pos(ci, j + 1))
      ensures ElementAt(comps, q).id in m'
    {
      if q != here {
        assert Before(q, here);
      }
    }
  }

  lemma {:induction false} PlaceIndexes(comps: seq<Component>, m: map<string, Pos>, ci: nat, j: nat)
    requires ci < |comps| && j <= |ElementsOf(comps[ci])| && Indexes(comps, m, Pos(ci, 0))
    ensures Indexes(comps, Place(m, ElementsOf(comps[ci]), ci, j), Pos(ci, j))
  {
    if j > 0 {
      PlaceIndexes(comps, m, ci, j - 1);
      PlaceStep(comps, m, ci, j - 1);
    }
  }

  /** Finishing a component's elements is starting the next component. */
  lemma NextComponent(comps: seq<Component>, m: map<string, Pos>, ci: nat)
    requires ci < |comps| && Indexes(comps, m, Pos(ci, |ElementsOf(comps[ci])|))
    ensures Indexes(comps, m, Pos(ci + 1, 0))
  {
    forall id | id in m
      ensures forall q :: ValidPos(comps, q) && Before(m[id], q) && Before(q, Pos(ci + 1, 0)) ==> ElementAt(comps, q).id != id
    {
      forall q | ValidPos(comps, q) && Before(m[id], q) && Before(q, Pos(ci + 1, 0))
        ensures ElementAt(comps, q).id != id
      {
        assert Before(q, Pos(ci, |ElementsOf(comps[ci])|));
      }
    }
    forall q | ValidPos(comps, q) && Before(q, Pos(ci + 1, 0))
      ensures ElementAt(comps, q).id in m
    {
      assert Before(q, Pos(ci, |ElementsOf(comps[ci])|));
    }
  }

  /** Indexing all elements of component `ci` extends the index to the next component. */
  lemma ComponentIndexes(comps: seq<Component>, m: map<string, Pos>, ci: nat)
    requires ci < |comps| && Indexes(comps, m, Pos(ci, 0))
    ensures Indexes(comps, Place(m, ElementsOf(comps[ci]), ci, |ElementsOf(comps[ci])|), Pos(ci + 1, 0))
  {
    PlaceIndexes(comps, m, ci, |ElementsOf(comps[ci])|);
    NextComponent(comps, Place(m, ElementsOf(comps[ci]), ci, |ElementsOf(comps[ci])|), ci);
  }

  lemma {:induction false} ElMapUpToIndexes(comps: seq<Component>, n: nat)
    requires n <= |comps|
    ensures Indexes(comps, ElMapUpTo(comps, n), Pos(n, 0))
  {
    if n > 0 {
      ElMapUpToIndexes(comps, n - 1);
      ComponentIndexes(comps, ElMapUpTo(comps, n - 1), n - 1);
    }
  }

  /** `elMap` holds every element id, at the position of the last element with that id. */
  lemma ElMapIndexes(comps: seq<Component>)
    ensures Indexes(comps, ElMap(comps), Pos(|comps|, 0))
  {
    ElMapUpToIndexes(comps, |comps|);
  }

  /** No element after position `p` has its id. */
  ghost predicate IsLast(comps: seq<Component>, p: Pos)
    requires ValidPos(comps, p)
  {
    forall q :: ValidPos(comps, q) && Before(p, q) ==> ElementAt(comps, q).id != ElementAt(comps, p).id
  }

  /** The id of the element at a position maps to that position exactly when it is the last
      element with that id. */
  lemma ElMapAtLast(comps: seq<Component>, p: Pos)
    requires ValidPos(comps, p)
    ensures var id := ElementAt(comps, p).id; id in ElMap(comps) && (ElMap(comps)[id] == p <==> IsLast(comps, p))
  {
    var m := ElMap(comps);
    var id := ElementAt(comps, p).id;
    ElMapIndexes(comps);
    assert Before(p, Pos(|comps|, 0));
  }

  /** `elMap.has(x)` holds exactly for the element ids. */
  lemma ElMapDomain(comps: seq<Component>, x: string)
    ensures x in ElMap(comps) <==> IsElementId(comps, x)
  {
    ElMapIndexes(comps);
    var m := ElMap(comps);
    if IsElementId(comps, x) {
      var i, j :| 0 <= i < |comps| && 0 <= j < |ElementsOf(comps[i])| && ElementsOf(comps[i])[j].id == x;
      assert ValidPos(comps, Pos(i, j)) && Before(Pos(i, j), Pos(|comps|, 0));
    }
    if x in m {
      assert ElementsOf(comps[m[x].comp])[m[x].el].id == x;
    }
  }

  // ---------------------------------------------------------------------------------------
  // The copied components

  /** An element of the copy: its `dependencies` are refilled from `links` when `elMap` points
      at it, and empty otherwise. */
  function EncodedElement(e: Element, here: Pos, m: map<string, Pos>, links: seq<Link>): Element {
    e.(dependencies := if e.id in m && m[e.id] == here then DepsFrom(links, e.id) else [])
  }

  function EncodedElements(els: seq<Element>, ci: nat, m: map<string, Pos>, links: seq<Link>): (r: seq<Element>)
    ensures |r| == |els| && forall ei :: 0 <= ei < |els| ==> r[ei] == EncodedElement(els[ei], Pos(ci, ei), m, links)
  {
    seq(|els|, ei requires 0 <= ei < |els| => EncodedElement(els[ei], Pos(ci, ei), m, links))
  }

  /** The copy after the links have been distributed: a component without an `elements`
      array gets an empty one. */
  function EncodedWith(comps: seq<Component>, m: map<string, Pos>, links: seq<Link>): (r: seq<Component>)
    ensures |r| == |comps| && forall ci :: 0 <= ci < |comps| ==>
      r[ci] == comps[ci].(elements := Some(EncodedElements(ElementsOf(comps[ci]), ci, m, links)))
  {
    seq(|comps|, ci requires 0 <= ci < |comps| => comps[ci].(elements := Some(EncodedElements(ElementsOf(comps[ci]), ci, m, links))))
  }

  /** The components `toYaml` writes. */
  function Encoded(comps: seq<Component>, links: seq<Link>): seq<Component> {
    EncodedWith(comps, ElMap(comps), links)
  }

  /** `el.dependencies.push(d)` on the element at `p`. */
  function PushDep(cs: seq<Component>, p: Pos, d: Dependency): seq<Component>
    requires ValidPos(cs, p) && cs[p.comp].elements.Some?
  {
    var els := cs[p.comp].elements.value;
    cs[p.comp := cs[p.comp].(elements := Some(els[p.el := els[p.el].(dependencies := els[p.el].dependencies + [d])]))]
  }

  /** Every id of `m` points at an element with that id. */
  ghost predicate ValidMap(comps: seq<Component>, m: map<string, Pos>) {
    forall id :: id in m ==> ValidPos(comps, m[id]) && ElementAt(comps, m[id]).id == id
  }

  /** Distributing one more link pushes its pair onto the element `elMap` names, or, for a
      link whose `from` is not an element id, changes nothing. */
  lemma EncodedStep(comps: seq<Component>, m: map<string, Pos>, links: seq<Link>, l: Link)
    requires ValidMap(comps, m)
    ensures l.from in m ==> (ValidPos(EncodedWith(comps, m, links), m[l.from]) &&
      EncodedWith(comps, m, links + [l]) == PushDep(EncodedWith(comps, m, links), m[l.from], Dependency(l.to, l.caption)))
    ensures l.from !in m ==> EncodedWith(comps, m, links + [l]) == EncodedWith(comps, m, links)
  {
    var before := EncodedWith(comps, m, links);
    var after := EncodedWith(comps, m, links + [l]);
    assert (links + [l])[..|links|] == links;
    forall ci | 0 <= ci < |comps|
      ensures forall ei :: 0 <= ei < |ElementsOf(comps[ci])| ==>
        EncodedElement(ElementsOf(comps[ci])[ei], Pos(ci, ei), m, links + [l]) ==
          (if l.from in m && m[l.from] == Pos(ci, ei)
           then EncodedElement(ElementsOf(comps[ci])[ei], Pos(ci, ei), m, links).(dependencies :=
                  EncodedElement(ElementsOf(comps[ci])[ei], Pos(ci, ei), m, links).dependencies + [Dependency(l.to, l.caption)])
           else EncodedElement(ElementsOf(comps[ci])[ei], Pos(ci, ei), m, links))
    {
      forall ei | 0 <= ei < |ElementsOf(comps[ci])|
        ensures EncodedElement(ElementsOf(comps[ci])[ei], Pos(ci, ei), m, links + [l]) ==
          (if l.from in m && m[l.from] == Pos(ci, ei)
           then EncodedElement(ElementsOf(comps[ci])[ei], Pos(ci, ei), m, links).(dependencies :=
                  EncodedElement(ElementsOf(comps[ci])[ei], Pos(ci, ei), m, links).dependencies + [Dependency(l.to, l.caption)])
           else EncodedElement(ElementsOf(comps[ci])[ei], Pos(ci, ei), m, links))
      {
        var e := ElementsOf(comps[ci])[ei];
        if l.from in m && m[l.from] == Pos(ci, ei) {
          assert ElementAt(comps, Pos(ci, ei)) == e;
        }
      }
    }
    if l.from in m {
      var p := m[l.from];
      assert ValidPos(comps, p);
      var pushed := PushDep(before, p, Dependency(l.to, l.caption));
      forall ci | 0 <= ci < |comps|
        ensures after[ci] == pushed[ci]
      {
        var x := after[ci].elements.value;
        var y := pushed[ci].elements.value;
        assert |x| == |y|;
        assert forall ei :: 0 <= ei < |x| ==> x[ei] == y[ei];
        assert x == y;
      }
    } else {
      forall ci | 0 <= ci < |comps|
        ensures after[ci] == before[ci]
      {
        assert after[ci].elements.value == before[ci].elements.value;
      }
    }
  }

  /** The links `toYaml` cannot place: their `from` is not an element id. */
  function Unplaced(m: map<string, Pos>): Link -> bool {
    (l: Link) => l.from !in m
  }

  /** The copy `toYaml` starts from: a missing `elements` array becomes an empty one. */
  function Copied(comps: seq<Component>): (r: seq<Component>)
    ensures |r| == |comps| && forall ci :: 0 <= ci < |comps| ==> r[ci] == comps[ci].(elements := Some(ElementsOf(comps[ci])))
  {
    seq(|comps|, ci requires 0 <= ci < |comps| => comps[ci].(elements := Some(ElementsOf(comps[ci]))))
  }

  /** The `forEach` that fills `elMap`, component by component and element by element, so that
      a later element with the same id overwrites an earlier one. */
  method IndexPositions(comps: seq<Component>) returns (m: map<string, Pos>)
    ensures m == ElMap(comps)
  {
    m := map[];
    for ci := 0 to |comps|
      invariant m == ElMapUpTo(comps, ci)
    {
      var els := ElementsOf(comps[ci]);
      for ei := 0 to |els|
        invariant m == Place(ElMapUpTo(comps, ci), els, ci, ei)
      {
        m := m[els[ei].id := Pos(ci, ei)];
      }
    }
  }

  /** The `forEach` that empties every element's `dependencies`. */
  method ClearDependencies(comps: seq<Component>, m: map<string, Pos>, copy: seq<Component>) returns (out: seq<Component>)
    requires copy == Copied(comps)
    ensures out == EncodedWith(comps, m, [])
  {
    out := copy;
    for ci := 0 to |out|
      invariant |out| == |comps|
      invariant forall c :: 0 <= c < ci ==> out[c] == EncodedWith(comps, m, [])[c]
      invariant forall c :: ci <= c < |comps| ==> out[c] == comps[c].(elements := Some(ElementsOf(comps[c])))
    {
      var els := out[ci].elements.value;
      var cleared := seq(|els|, ei requires 0 <= ei < |els| => els[ei].(dependencies := []));
      assert cleared == EncodedWith(comps, m, [])[ci].elements.value;
      out := out[ci := out[ci].(elements := Some(cleared))];
    }
    assert out == EncodedWith(comps, m, []);
  }

  /** One turn of the link loop: push `l`'s pair onto the element `elMap` names, or keep `l`
      for `topLinks`. */
  method PlaceLink(comps: seq<Component>, m: map<string, Pos>, done: seq<Link>, l: Link,
                   out: seq<Component>, topLinks: seq<Link>)
    returns (out': seq<Component>, topLinks': seq<Link>)
    requires ValidMap(comps, m) && out == EncodedWith(comps, m, done) && topLinks == Filter(done, Unplaced(m))
    ensures out' == EncodedWith(comps, m, done + [l]) && topLinks' == Filter(done + [l], Unplaced(m))
  {
    EncodedStep(comps, m, done, l);
    assert (done + [l])[..|done|] == done;
    if l.from in m {
      var p := m[l.from];
      var els := out[p.comp].elements.value;
      out' := out[p.comp := out[p.comp].(elements := Some(els[p.el := els[p.el].(dependencies := els[p.el].dependencies + [Dependency(l.to, l.caption)])]))];
      topLinks' := topLinks;
    } else {
      out' := out;
      topLinks' := topLinks + [l];
    }
  }

  /** The loop over the links: a link whose `from` is in `elMap` pushes its pair onto that
      element; any other link goes to `topLinks`. */
  method DistributeLinks(comps: seq<Component>, m: map<string, Pos>, cleared: seq<Component>, links: seq<Link>)
    returns (out: seq<Component>, topLinks: seq<Link>)
    requires ValidMap(comps, m) && cleared == EncodedWith(comps, m, [])
    ensures out == EncodedWith(comps, m, links)
    ensures topLinks == Filter(links, Unplaced(m))
  {
    out, topLinks := cleared, [];
    for i := 0 to |links|
      invariant out == EncodedWith(comps, m, links[..i])
      invariant topLinks == Filter(links[..i], Unplaced(m))
    {
      assert links[..i + 1] == links[..i] + [links[i]];
      out, topLinks := PlaceLink(comps, m, links[..i], links[i], out, topLinks);
    }
    assert links[..|links|] == links;
  }

  /** The loops of `toYaml`: copy, index, clear, distribute. */
  method EncodeComponents(comps: seq<Component>, links: seq<Link>) returns (out: seq<Component>, topLinks: seq<Link>)
    ensures out == Encoded(comps, links)
    ensures topLinks == Filter(links, Unplaced(ElMap(comps)))
  {
    var copy := Copied(comps);
    var m := IndexPositions(comps);
    ElMapIndexes(comps);
    assert ValidMap(comps, m);
    var cleared := ClearDependencies(comps, m, copy);
    out, topLinks := DistributeLinks(comps, m, cleared, links);
  }

  // ---------------------------------------------------------------------------------------
  // What the copy holds

  /** Encoding keeps every component and element in place and changes only `dependencies`:
      the last element with a given id receives the pairs of the links leaving that id, in
      link order, and every earlier element with the same id receives none. */
  lemma EncodedMeaning(comps: seq<Component>, links: seq<Link>)
    ensures var out := Encoded(comps, links);
      && |out| == |comps|
      && (forall ci :: 0 <= ci < |comps| ==> (out[ci].(elements := comps[ci].elements) == comps[ci] &&
            out[ci].elements.Some? && |out[ci].elements.value| == |ElementsOf(comps[ci])|))
      && (forall p :: ValidPos(comps, p) ==>
            out[p.comp].elements.value[p.el] == ElementAt(comps, p).(dependencies :=
              if IsLast(comps, p) then DepsFrom(links, ElementAt(comps, p).id) else []))
  {
    forall p | ValidPos(comps, p)
      ensures Encoded(comps, links)[p.comp].elements.value[p.el] == ElementAt(comps, p).(dependencies :=
        if IsLast(comps, p) then DepsFrom(links, ElementAt(comps, p).id) else [])
    {
      ElMapAtLast(comps, p);
    }
  }

  /** The links `toYaml` leaves out of the document are exactly those whose `from` is not an
      element id. */
  lemma UnplacedMeaning(comps: seq<Component>, l: Link)
    ensures Unplaced(ElMap(comps))(l) <==> !IsElementId(comps, l.from)
  {
    ElMapDomain(comps, l.from);
  }

  /** No two elements anywhere in the model share an id. */
  ghost predicate UniqueElementIds(comps: seq<Component>) {
    forall p, q :: ValidPos(comps, p) && ValidPos(comps, q) && ElementAt(comps, p).id == ElementAt(comps, q).id ==> p == q
  }

  /** Saving right after loading gives every element back the dependencies the load gave it,
      when element ids are unique (a component without `elements` is written with an empty
      list). */
  lemma EncodeAfterDecode(comps: seq<Component>, links: seq<Link>)
    requires UniqueElementIds(comps)
    ensures var loaded := WithDeps(comps, links);
      Encoded(loaded, links) == seq(|loaded|, ci requires 0 <= ci < |loaded| => loaded[ci].(elements := Some(ElementsOf(loaded[ci]))))
  {
    var loaded := WithDeps(comps, links);
    var out := Encoded(loaded, links);
    assert forall p :: ValidPos(loaded, p) ==> ValidPos(comps, p) && ElementAt(loaded, p).id == ElementAt(comps, p).id;
    forall ci | 0 <= ci < |loaded|
      ensures out[ci] == loaded[ci].(elements := Some(ElementsOf(loaded[ci])))
    {
      forall ei | 0 <= ei < |ElementsOf(loaded[ci])|
        ensures out[ci].elements.value[ei] == ElementsOf(loaded[ci])[ei]
      {
        var p := Pos(ci, ei);
        ElMapAtLast(loaded, p);
        assert IsLast(loaded, p) by {
          forall q | ValidPos(loaded, q) && Before(p, q)
            ensures ElementAt(loaded, q).id != ElementAt(loaded, p).id
          {
            assert ValidPos(comps, p) && ValidPos(comps, q) && p != q;
          }
        }
      }
      assert out[ci].elements.value == ElementsOf(loaded[ci]);
    }
  }

  /** When two elements share an id, only the later one is written with dependencies. */
  lemma EarlierDuplicateLosesDependencies(comps: seq<Component>, links: seq<Link>, p: Pos, q: Pos)
    requires ValidPos(comps, p) && ValidPos(comps, q) && Before(p, q) && ElementAt(comps, p).id == ElementAt(comps, q).id
    ensures Encoded(comps, links)[p.comp].elements.value[p.el].dependencies == []
  {
    EncodedMeaning(comps, links);
  }
}
