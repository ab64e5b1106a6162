/** The entities of the architecture model: elements with their declared dependencies, the
    components that own them, the flat link list and the model snapshot (src/types.ts). */
module Types {
  import opened Wrappers

  /** One entry of an element's `dependencies` list: `{ to, label? }`. `label`, `type` and
      `method` are Dafny keywords, so those fields are called `caption`, `kind` and `verb`. */
  datatype Dependency = Dependency(to: string, caption: Option<string>)

  /** An element of a component (an API route, a handler, ...); `verb` (`method`) and `path`
      are the route fields the Swagger importer fills. */
  datatype Element = Element(
    id: string,
    kind: string,
    name: Option<string>,
    verb: Option<string>,
    path: Option<string>,
    dependencies: seq<Dependency>)

  /** A component. `level` and `column` are grid coordinates, absent in the document when
      `None`; `elements` is `None` when the document has no `elements` array. */
  datatype Component = Component(
    id: string,
    name: string,
    kind: string,
    level: Option<int>,
    column: Option<int>,
    elements: Option<seq<Element>>)

  /** A directed edge of the flat link list. */
  datatype Link = Link(id: string, from: string, to: string, caption: Option<string>)

  /** The style section: style[type][entry] is a map of style properties, where `entry` is
      `default`, a sub-type or a route method. */
  type StyleProps = map<string, string>
  type Style = map<string, map<string, StyleProps>>

  /** The live snapshot. `componentTypes` is `None` for models of the older store, which has
      no such field. */
  datatype Model = Model(
    version: int,
    components: seq<Component>,
    links: seq<Link>,
    style: Style,
    componentTypes: Option<seq<string>>)

  /** A selection is truthy: present and not the empty string. */
  predicate IsSet(selectedId: Option<string>) {
    selectedId.Some? && selectedId.value != ""
  }

  /** `comp.elements || []` */
  function ElementsOf(c: Component): seq<Element> {
    c.elements.GetOr([])
  }

  /** Does some component have this id? (`components.some(c => c.id === id)`) */
  predicate IsComponentId(comps: seq<Component>, id: string) {
    exists i :: 0 <= i < |comps| && comps[i].id == id
  }

  /** Does some component own an element with this id? */
  predicate IsElementId(comps: seq<Component>, id: string) {
    exists i, j :: 0 <= i < |comps| && 0 <= j < |ElementsOf(comps[i])| && ElementsOf(comps[i])[j].id == id
  }

  /** The ids of a list of elements, in order. */
  function ElementIds(els: seq<Element>): (r: seq<string>)
    ensures |r| == |els| && forall k :: 0 <= k < |els| ==> r[k] == els[k].id
  {
    seq(|els|, k requires 0 <= k < |els| => els[k].id)
  }

  /** `components.find(c => c.id === id)`: the first component with that id. */
  function FindComponent(comps: seq<Component>, id: string): (r: Option<Component>)
    ensures r.None? <==> !IsComponentId(comps, id)
    ensures r.Some? ==>
      exists i :: 0 <= i < |comps| && comps[i] == r.value && comps[i].id == id && (forall j :: 0 <= j < i ==> comps[j].id != id)
  {
    if comps == [] then None
    else if comps[0].id == id then Some(comps[0])
    else
      assert forall i :: 1 <= i < |comps| ==> comps[i] == comps[1..][i - 1];
      FindComponent(comps[1..], id)
  }

  /** Keep the elements of `s` for which `keep` holds, in order (`Array.prototype.filter`). */
  function Filter<T(!new)>(s: seq<T>, keep: T -> bool): (r: seq<T>)
    ensures |r| <= |s|
    ensures forall x :: x in r <==> x in s && keep(x)
  {
    if s == [] then [] else Filter(s[..|s| - 1], keep) + (if keep(s[|s| - 1]) then [s[|s| - 1]] else [])
  }

  lemma {:induction false} FilterAppend<T(!new)>(a: seq<T>, b: seq<T>, keep: T -> bool)
    ensures Filter(a + b, keep) == Filter(a, keep) + Filter(b, keep)
  {
    if b != [] {
      assert (a + b)[..|a + b| - 1] == a + b[..|b| - 1];
      FilterAppend(a, b[..|b| - 1], keep);
    } else {
      assert a + b == a;
    }
  }

  /** `r` is the subsequence of `s` at the strictly increasing positions `idx`, and those are
      exactly the positions where `keep` holds. */
  ghost predicate SelectedAt<T>(s: seq<T>, keep: T -> bool, r: seq<T>, idx: seq<int>) {
    && |idx| == |r|
    && (forall k :: 0 <= k < |idx| ==> 0 <= idx[k] < |s| && r[k] == s[idx[k]])
    && (forall k, m :: 0 <= k < m < |idx| ==> idx[k] < idx[m])
    && (forall i :: 0 <= i < |s| ==> (keep(s[i]) <==> i in idx))
  }

  /** The last value of `s` extends a selection of the others by its position exactly when
      it passes. */
  lemma SelectedAtGrow<T>(s: seq<T>, keep: T -> bool, f: seq<T>, idx: seq<int>)
    requires s != [] && SelectedAt(s[..|s| - 1], keep, f, idx)
    ensures keep(s[|s| - 1]) ==> SelectedAt(s, keep, f + [s[|s| - 1]], idx + [|s| - 1])
    ensures !keep(s[|s| - 1]) ==> SelectedAt(s, keep, f, idx)
  {
    var n := |s| - 1;
    assert forall i :: 0 <= i < n ==> s[i] == s[..n][i];
    assert n !in idx;
  }

  /** `Filter` keeps exactly the passing positions of `s`, in their original order. */
  lemma {:induction false} FilterSelects<T(!new)>(s: seq<T>, keep: T -> bool)
    ensures exists idx :: SelectedAt(s, keep, Filter(s, keep), idx)
  {
    if s == [] {
      assert SelectedAt(s, keep, Filter(s, keep), []);
    } else {
      var n := |s| - 1;
      FilterSelects(s[..n], keep);
      var f := Filter(s[..n], keep);
      var idx :| SelectedAt(s[..n], keep, f, idx);
      SelectedAtGrow(s, keep, f, idx);
      if keep(s[n]) {
        assert Filter(s, keep) == f + [s[n]];
        assert SelectedAt(s, keep, Filter(s, keep), idx + [n]);
      } else {
        assert Filter(s, keep) == f + [];
        assert f + [] == f;
        assert SelectedAt(s, keep, Filter(s, keep), idx);
      }
    }
  }

  /** Each value of `Filter(s, keep)` sits in `s` in the same relative order. */
  lemma {:induction false} FilterKeepsOrder<T(!new)>(s: seq<T>, keep: T -> bool, a: int, b: int)
    requires 0 <= a < b < |Filter(s, keep)|
    ensures exists a', b' :: 0 <= a' < b' < |s| && s[a'] == Filter(s, keep)[a] && s[b'] == Filter(s, keep)[b]
  {
    var p := s[..|s| - 1];
    var f := Filter(p, keep);
    if b < |f| {
      assert Filter(s, keep)[a] == f[a] && Filter(s, keep)[b] == f[b];
      FilterKeepsOrder(p, keep, a, b);
      var a', b' :| 0 <= a' < b' < |p| && p[a'] == f[a] && p[b'] == f[b];
      assert s[a'] == p[a'] && s[b'] == p[b'];
    } else {
      assert Filter(s, keep)[a] == f[a] && f[a] in p;
      var a' :| 0 <= a' < |p| && p[a'] == f[a];
      assert s[a'] == p[a'];
    }
  }

  /** Filtering twice with the same test is filtering once. */
  lemma {:induction false} FilterIdempotent<T(!new)>(s: seq<T>, keep: T -> bool)
    ensures Filter(Filter(s, keep), keep) == Filter(s, keep)
  {
    if s != [] {
      var p := s[..|s| - 1];
      FilterIdempotent(p, keep);
      FilterAppend(Filter(p, keep), if keep(s[|s| - 1]) then [s[|s| - 1]] else [], keep);
    }
  }

  /** A filter that keeps everything is the identity. */
  lemma {:induction false} FilterAll<T(!new)>(s: seq<T>, keep: T -> bool)
    requires forall x :: x in s ==> keep(x)
    ensures Filter(s, keep) == s
  {
    if s != [] {
      var p, x := s[..|s| - 1], s[|s| - 1];
      forall y | y in p
        ensures keep(y)
      {
        var k :| 0 <= k < |p| && p[k] == y;
        assert s[k] == y;
      }
      FilterAll(p, keep);
      assert keep(x) by { assert x in s; }
      SplitLast(s);
    }
  }

  /** A non-empty sequence is its prefix followed by its last entry. */
  lemma SplitLast<T>(s: seq<T>)
    requires s != []
    ensures s == s[..|s| - 1] + [s[|s| - 1]]
  {
  }

  predicate NoDuplicates<T(==)>(s: seq<T>) {
    forall i, j :: 0 <= i < j < |s| ==> s[i] != s[j]
  }

  /** The set of the entries of `s`. */
  function Elems<T>(s: seq<T>): set<T> {
    if s == [] then {} else Elems(s[..|s| - 1]) + {s[|s| - 1]}
  }

  lemma ElemsAppend<T>(s: seq<T>, x: T)
    ensures Elems(s + [x]) == Elems(s) + {x}
  {
    assert (s + [x])[..|s|] == s;
  }

  lemma ElemsPrefix<T>(s: seq<T>, k: int)
    requires 0 <= k < |s|
    ensures Elems(s[..k + 1]) == Elems(s[..k]) + {s[k]}
  {
    assert s[..k + 1] == s[..k] + [s[k]];
    ElemsAppend(s[..k], s[k]);
  }

  lemma ElemsHas<T>(s: seq<T>, k: int)
    requires 0 <= k < |s|
    ensures s[k] in Elems(s)
  {
    ElemsFacts(s);
  }

  /** `Elems(s)` holds exactly the entries of `s`; it is no larger than `s`, and as large only
      when `s` has no duplicates. */
  lemma {:induction false} ElemsFacts<T>(s: seq<T>)
    ensures forall x :: x in Elems(s) <==> x in s
    ensures |Elems(s)| <= |s|
    ensures |Elems(s)| == |s| ==> NoDuplicates(s)
  {
    if s != [] {
      var p, x := s[..|s| - 1], s[|s| - 1];
      ElemsFacts(p);
      SplitLast(s);
      assert Elems(s) == Elems(p) + {x};
      assert forall y :: y in s <==> y in p || y == x;
      if |Elems(s)| == |s| {
        assert x !in Elems(p);
        forall i, j | 0 <= i < j < |s|
          ensures s[i] != s[j]
        {
          if j < |p| {
            assert s[i] == p[i] && s[j] == p[j];
          } else {
            assert s[i] == p[i] && p[i] in p;
          }
        }
      }
    }
  }
}
