/** Loading what `toYaml` wrote. The saved document has no top-level `links`, so the load
    rebuilds the edge list from the written `dependencies`; this module proves that every
    element then gets back exactly the pairs of the links that left its id, whichever copy of
    a duplicated id the save wrote them on. */
module RoundTrip {
  import opened Wrappers
  import opened Types
  import opened Decode
  import opened Encode

  /** The dependencies of every element with id `id`, concatenated in element order. */
  function IdDeps(els: seq<Element>, id: string): seq<Dependency> {
    if els == [] then []
    else IdDeps(els[..|els| - 1], id) + (if els[|els| - 1].id == id then els[|els| - 1].dependencies else [])
  }

  /** The same over all components, in component order. */
  function CompsIdDeps(cs: seq<Component>, id: string): seq<Dependency> {
    if cs == [] then [] else CompsIdDeps(cs[..|cs| - 1], id) + IdDeps(ElementsOf(cs[|cs| - 1]), id)
  }

  lemma {:induction false} OwnLinksDeps(from: string, deps: seq<Dependency>, id: string)
    ensures DepsFrom(OwnLinks(from, deps), id) == if from == id then deps else []
  {
    if deps != [] {
      var p, d := deps[..|deps| - 1], deps[|deps| - 1];
      var l := DepLink(from, d);
      OwnLinksDeps(from, p, id);
      assert OwnLinks(from, deps) == OwnLinks(from, p) + [l];
      DepsFromAppend(OwnLinks(from, p), [l], id);
      assert [l][..0] == [];
      assert DepsFrom([l], id) == if from == id then [d] else [];
      assert deps == p + [d];
    }
  }

  lemma {:induction false} ElementsLinksDeps(els: seq<Element>, id: string)
    ensures DepsFrom(ElementsLinks(els), id) == IdDeps(els, id)
  {
    if els != [] {
      var p := els[..|els| - 1];
      var e := els[|els| - 1];
      ElementsLinksDeps(p, id);
      OwnLinksDeps(e.id, e.dependencies, id);
      DepsFromAppend(ElementsLinks(p), OwnLinks(e.id, e.dependencies), id);
    }
  }

  /** Edges built from dependencies lead back to those dependencies. */
  lemma {:induction false} DepLinksDeps(cs: seq<Component>, id: string)
    ensures DepsFrom(DepLinks(cs), id) == CompsIdDeps(cs, id)
  {
    if cs != [] {
      var p := cs[..|cs| - 1];
      DepLinksDeps(p, id);
      ElementsLinksDeps(ElementsOf(cs[|cs| - 1]), id);
      DepsFromAppend(DepLinks(p), ElementsLinks(ElementsOf(cs[|cs| - 1])), id);
    }
  }

  /** Within component `ci` of the copy, only the element `elMap` names carries `id`'s pairs. */
  lemma {:induction false} EncodedIdDeps(comps: seq<Component>, m: map<string, Pos>, links: seq<Link>, ci: nat, j: nat, id: string)
    requires ValidMap(comps, m) && ci < |comps| && j <= |ElementsOf(comps[ci])|
    ensures IdDeps(EncodedElements(ElementsOf(comps[ci]), ci, m, links)[..j], id) ==
      if id in m && m[id].comp == ci && m[id].el < j then DepsFrom(links, id) else []
  {
    var enc := EncodedElements(ElementsOf(comps[ci]), ci, m, links);
    if j > 0 {
      EncodedIdDeps(comps, m, links, ci, j - 1, id);
      assert enc[..j][..j - 1] == enc[..j - 1];
      var e := ElementsOf(comps[ci])[j - 1];
      if id in m && m[id] == Pos(ci, j - 1) {
        assert ElementAt(comps, m[id]) == e;
      }
    }
  }

  lemma {:induction false} EncodedCompsIdDeps(comps: seq<Component>, m: map<string, Pos>, links: seq<Link>, n: nat, id: string)
    requires ValidMap(comps, m) && n <= |comps|
    ensures CompsIdDeps(EncodedWith(comps, m, links)[..n], id) ==
      if id in m && m[id].comp < n then DepsFrom(links, id) else []
  {
    var out := EncodedWith(comps, m, links);
    if n > 0 {
      EncodedCompsIdDeps(comps, m, links, n - 1, id);
      assert out[..n][..n - 1] == out[..n - 1];
      var els := EncodedElements(ElementsOf(comps[n - 1]), n - 1, m, links);
      EncodedIdDeps(comps, m, links, n - 1, |els|, id);
      assert els[..|els|] == els;
      assert ElementsOf(out[..n][n - 1]) == els;
      assert CompsIdDeps(out[..n], id) == CompsIdDeps(out[..n - 1], id) + IdDeps(els, id);
      if id in m {
        assert ValidPos(comps, m[id]);
        assert m[id].comp == n - 1 ==> m[id].el < |els|;
      }
    }
  }

  /** In the saved components, the pairs written for an id, over all its copies, are exactly
      the pairs of the links leaving it. */
  lemma SavedDeps(comps: seq<Component>, links: seq<Link>, id: string)
    ensures CompsIdDeps(Encoded(comps, links), id) == if IsElementId(comps, id) then DepsFrom(links, id) else []
  {
    var m := ElMap(comps);
    ElMapIndexes(comps);
    ElMapDomain(comps, id);
    EncodedCompsIdDeps(comps, m, links, |comps|, id);
    assert Encoded(comps, links)[..|comps|] == Encoded(comps, links);
  }

  // ---------------------------------------------------------------------------------------
  // The rebuilt edge list

  lemma {:induction false} ElementsLinksMember(els: seq<Element>, x: Link)
    requires x in ElementsLinks(els)
    ensures exists ei, j :: 0 <= ei < |els| && 0 <= j < |els[ei].dependencies| && x == DepLink(els[ei].id, els[ei].dependencies[j])
  {
    var p := els[..|els| - 1];
    var e := els[|els| - 1];
    if x in ElementsLinks(p) {
      ElementsLinksMember(p, x);
      var ei, j :| 0 <= ei < |p| && 0 <= j < |p[ei].dependencies| && x == DepLink(p[ei].id, p[ei].dependencies[j]);
      assert p[ei] == els[ei];
    } else {
      var j :| 0 <= j < |OwnLinks(e.id, e.dependencies)| && OwnLinks(e.id, e.dependencies)[j] == x;
      assert x == DepLink(els[|els| - 1].id, els[|els| - 1].dependencies[j]);
    }
  }

  /** Every edge built from dependencies comes from one dependency of one element. */
  lemma {:induction false} DepLinksMember(cs: seq<Component>, x: Link)
    requires x in DepLinks(cs)
    ensures exists ci, ei, j :: (0 <= ci < |cs| && 0 <= ei < |ElementsOf(cs[ci])| && 0 <= j < |ElementsOf(cs[ci])[ei].dependencies| &&
      x == DepLink(ElementsOf(cs[ci])[ei].id, ElementsOf(cs[ci])[ei].dependencies[j]))
  {
    var p := cs[..|cs| - 1];
    if x in DepLinks(p) {
      DepLinksMember(p, x);
      var ci, ei, j :| 0 <= ci < |p| && 0 <= ei < |ElementsOf(p[ci])| && 0 <= j < |ElementsOf(p[ci])[ei].dependencies| &&
        x == DepLink(ElementsOf(p[ci])[ei].id, ElementsOf(p[ci])[ei].dependencies[j]);
      assert p[ci] == cs[ci];
    } else {
      ElementsLinksMember(ElementsOf(cs[|cs| - 1]), x);
    }
  }

  /** Links whose endpoints are all element ids normalise to themselves. */
  lemma {:induction false} NormalizeIdentity(links: seq<Link>, ids: set<string>, first: map<string, string>)
    requires forall k :: 0 <= k < |links| ==> links[k].from in ids && links[k].to in ids
    ensures NormalizeAll(links, ids, first) == Success(links)
  {
    if links != [] {
      var p := links[..|links| - 1];
      assert forall k :: 0 <= k < |p| ==> p[k] == links[k];
      NormalizeIdentity(p, ids, first);
      assert links == p + [links[|links| - 1]];
    }
  }

  /** The saved document: `version`, `components`, `style` and, for the newer store,
      `componentTypes`; no `links`. */
  function SavedDocument(comps: seq<Component>, links: seq<Link>, version: int, style: Style,
                         componentTypes: Option<seq<string>>): RawDoc {
    RawDoc(Some(Encoded(comps, links)), None, Some(version), Some(style), componentTypes)
  }

  /** Every element id is truthy, and every link leaving an element leads to an element. */
  ghost predicate Saveable(comps: seq<Component>, links: seq<Link>) {
    && (forall p :: ValidPos(comps, p) ==> ElementAt(comps, p).id != "")
    && (forall k :: 0 <= k < |links| && IsElementId(comps, links[k].from) ==> IsElementId(comps, links[k].to))
  }

  /** Loading what was saved succeeds, keeps every component and element in place, and gives
      every element, whatever copy of its id it is, exactly the `{ to, label }` pairs of the
      links that left its id, in link order. */
  lemma SaveThenLoad(comps: seq<Component>, links: seq<Link>, version: int, style: Style, componentTypes: Option<seq<string>>)
    requires Saveable(comps, links)
    ensures var r := DecodeResult(Document(SavedDocument(comps, links, version, style, componentTypes)));
      && r.Success?
      && |r.value.components| == |comps|
      && (forall ci :: 0 <= ci < |comps| ==>
            r.value.components[ci].(elements := comps[ci].elements) == comps[ci] &&
            |ElementsOf(r.value.components[ci])| == |ElementsOf(comps[ci])|)
      && (forall p :: ValidPos(comps, p) ==>
            ElementAt(r.value.components, p) == ElementAt(comps, p).(dependencies := DepsFrom(links, ElementAt(comps, p).id)))
  {
    var e := Encoded(comps, links);
    var dl := DepLinks(e);
    SavedDecoded(comps, links, version, style, componentTypes);
    EncodedMeaning(comps, links);
    forall p | ValidPos(comps, p)
      ensures DepsFrom(dl, ElementAt(comps, p).id) == DepsFrom(links, ElementAt(comps, p).id)
    {
      RebuiltDeps(comps, links, p);
    }
  }

  /** The load of a saved document succeeds with the edges rebuilt from the written
      dependencies, unchanged by normalisation. */
  lemma SavedDecoded(comps: seq<Component>, links: seq<Link>, version: int, style: Style, componentTypes: Option<seq<string>>)
    requires Saveable(comps, links)
    ensures DecodeResult(Document(SavedDocument(comps, links, version, style, componentTypes))) ==
      Success(Decoded(WithDeps(Encoded(comps, links), DepLinks(Encoded(comps, links))), DepLinks(Encoded(comps, links))))
  {
    var e := Encoded(comps, links);
    var dl := DepLinks(e);
    forall k | 0 <= k < |dl|
      ensures dl[k].from in ElementIdSet(e) && dl[k].to in ElementIdSet(e)
    {
      LinkOfSaved(comps, links, dl[k]);
    }
    NormalizeIdentity(dl, ElementIdSet(e), FirstElementMap(e));
  }

  /** At every element, the rebuilt edges give back the pairs of the links leaving its id. */
  lemma RebuiltDeps(comps: seq<Component>, links: seq<Link>, p: Pos)
    requires ValidPos(comps, p)
    ensures DepsFrom(DepLinks(Encoded(comps, links)), ElementAt(comps, p).id) == DepsFrom(links, ElementAt(comps, p).id)
  {
    var id := ElementAt(comps, p).id;
    DepLinksDeps(Encoded(comps, links), id);
    SavedDeps(comps, links, id);
    assert IsElementId(comps, id);
  }

  /** The edge list the load rebuilds from a saved document joins the same endpoints, with the
      same labels, as the links that left an element when it was saved; the links whose `from`
      was not an element id are gone. */
  lemma SaveThenLoadLinks(comps: seq<Component>, links: seq<Link>, version: int, style: Style, componentTypes: Option<seq<string>>)
    requires Saveable(comps, links)
    ensures var r := DecodeResult(Document(SavedDocument(comps, links, version, style, componentTypes)));
      && r.Success?
      && (forall x :: x in r.value.links ==>
            exists k :: (0 <= k < |links| && IsElementId(comps, links[k].from) &&
              x.from == links[k].from && x.to == links[k].to && x.caption == links[k].caption))
  {
    SaveThenLoad(comps, links, version, style, componentTypes);
    var e := Encoded(comps, links);
    var dl := DepLinks(e);
    forall k | 0 <= k < |dl|
      ensures dl[k].from in ElementIdSet(e) && dl[k].to in ElementIdSet(e)
    {
      LinkOfSaved(comps, links, dl[k]);
    }
    NormalizeIdentity(dl, ElementIdSet(e), FirstElementMap(e));
    forall x | x in dl
      ensures exists k :: (0 <= k < |links| && IsElementId(comps, links[k].from) &&
        x.from == links[k].from && x.to == links[k].to && x.caption == links[k].caption)
    {
      LinkOfSaved(comps, links, x);
    }
  }

  /** The edges a load of the saved document ends with are the ones rebuilt from the written
      dependencies. */
  lemma LoadedLinks(comps: seq<Component>, links: seq<Link>, version: int, style: Style, componentTypes: Option<seq<string>>)
    requires Saveable(comps, links)
    ensures var r := DecodeResult(Document(SavedDocument(comps, links, version, style, componentTypes)));
      r.Success? && r.value.links == DepLinks(Encoded(comps, links))
  {
    SavedDecoded(comps, links, version, style, componentTypes);
  }

  /** A link that left an element is rebuilt from the dependencies the save wrote. */
  lemma SavedLinkRebuilt(comps: seq<Component>, links: seq<Link>, k: int)
    requires 0 <= k < |links| && IsElementId(comps, links[k].from)
    ensures exists x :: x in DepLinks(Encoded(comps, links)) && x.from == links[k].from && x.to == links[k].to && x.caption == links[k].caption
  {
    var dl := DepLinks(Encoded(comps, links));
    var id := links[k].from;
    var d := Dependency(links[k].to, links[k].caption);
    DepsFromMeaning(links, id);
    SavedDeps(comps, links, id);
    DepLinksDeps(Encoded(comps, links), id);
    assert d in DepsFrom(dl, id);
    DepsFromMeaning(dl, id);
    var i :| 0 <= i < |dl| && dl[i].from == id && d == Dependency(dl[i].to, dl[i].caption);
    assert dl[i] in dl;
  }

  /** And the converse: every link that left an element comes back, with its endpoints and
      its label. */
  lemma SaveThenLoadLinksComplete(comps: seq<Component>, links: seq<Link>, version: int, style: Style,
                                  componentTypes: Option<seq<string>>, k: int)
    requires Saveable(comps, links) && 0 <= k < |links| && IsElementId(comps, links[k].from)
    ensures var r := DecodeResult(Document(SavedDocument(comps, links, version, style, componentTypes)));
      && r.Success?
      && exists x :: x in r.value.links && x.from == links[k].from && x.to == links[k].to && x.caption == links[k].caption
  {
    LoadedLinks(comps, links, version, style, componentTypes);
    SavedLinkRebuilt(comps, links, k);
  }

  /** A dependency written at an element comes from a link that left its id. */
  lemma SavedDepOrigin(comps: seq<Component>, links: seq<Link>, p: Pos, j: int)
    requires ValidPos(comps, p) && 0 <= j < |Encoded(comps, links)[p.comp].elements.value[p.el].dependencies|
    ensures var d := Encoded(comps, links)[p.comp].elements.value[p.el].dependencies[j];
      exists k :: 0 <= k < |links| && links[k].from == ElementAt(comps, p).id && d == Dependency(links[k].to, links[k].caption)
  {
    var id := ElementAt(comps, p).id;
    var d := Encoded(comps, links)[p.comp].elements.value[p.el].dependencies[j];
    assert d in DepsFrom(links, id);
    DepsFromMeaning(links, id);
  }

  /** A truthy element id of the model is an element id of the saved components. */
  lemma SavedIdIn(comps: seq<Component>, links: seq<Link>, p: Pos)
    requires ValidPos(comps, p) && ElementAt(comps, p).id != ""
    ensures ElementAt(comps, p).id in ElementIdSet(Encoded(comps, links))
  {
    var e := Encoded(comps, links);
    assert ElementsOf(e[p.comp])[p.el].id == ElementAt(comps, p).id;
    ElementIdSetHas(e, p.comp, p.el);
  }

  /** One edge rebuilt from a saved document is a saved link leaving an element. */
  lemma LinkOfSaved(comps: seq<Component>, links: seq<Link>, x: Link)
    requires Saveable(comps, links) && x in DepLinks(Encoded(comps, links))
    ensures exists k :: (0 <= k < |links| && IsElementId(comps, links[k].from) &&
      x.from == links[k].from && x.to == links[k].to && x.caption == links[k].caption)
    ensures x.from in ElementIdSet(Encoded(comps, links)) && x.to in ElementIdSet(Encoded(comps, links))
  {
    var e := Encoded(comps, links);
    DepLinksMember(e, x);
    var ci, ei, j :| 0 <= ci < |e| && 0 <= ei < |ElementsOf(e[ci])| && 0 <= j < |ElementsOf(e[ci])[ei].dependencies| &&
      x == DepLink(ElementsOf(e[ci])[ei].id, ElementsOf(e[ci])[ei].dependencies[j]);
    var p := Pos(ci, ei);
    assert ValidPos(comps, p);
    var id := ElementAt(comps, p).id;
    assert x.from == id;
    SavedDepOrigin(comps, links, p, j);
    var k :| 0 <= k < |links| && links[k].from == id && ElementsOf(e[ci])[ei].dependencies[j] == Dependency(links[k].to, links[k].caption);
    assert IsElementId(comps, id);
    var i2, j2 :| 0 <= i2 < |comps| && 0 <= j2 < |ElementsOf(comps[i2])| && ElementsOf(comps[i2])[j2].id == links[k].to;
    assert ValidPos(comps, Pos(i2, j2));
    SavedIdIn(comps, links, p);
    SavedIdIn(comps, links, Pos(i2, j2));
  }
}
