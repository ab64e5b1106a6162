/** The root view (src/App.tsx): the canvas shows the store model projected through the chain
    filter last reported by a panel, and the selection is classified as an element or not. */
module App {
  import opened Wrappers
  import opened Types
  import opened ChainFilterUtils

  /** `filteredModel`: the inline projection of App.tsx, the same computation as
      `applyChainFilter`, guarded by the filter being present. */
  function RenderedModel(m: Model, chainFilter: Option<ChainFilter>): (r: Model)
    ensures chainFilter.None? || !Engaged(chainFilter.value) ==> r == m
    ensures chainFilter.Some? ==> r == ApplyChainFilter(m, chainFilter.value)
  {
    match chainFilter
    case None => m
    case Some(f) => if Engaged(f) then ApplyChainFilter(m, f) else m
  }

  /** A filter reported active but with no element ids (a component without an `elements`
      array, or the moment the action bar's toggle fires) leaves the canvas unfiltered. */
  lemma EmptyChainShowsAll(m: Model, f: ChainFilter)
    requires f.active && f.elementIds == []
    ensures RenderedModel(m, Some(f)) == m
  {
  }

  /** `components.some(c => c.id === id)` */
  function SomeComponentHasId(comps: seq<Component>, id: string): (b: bool)
    ensures b <==> IsComponentId(comps, id)
  {
    if comps == [] then false
    else
      assert forall i :: 1 <= i < |comps| ==> comps[i] == comps[1..][i - 1];
      comps[0].id == id || SomeComponentHasId(comps[1..], id)
  }

  /** `(els || []).some(e => e.id === id)` */
  function SomeElementHasId(els: seq<Element>, id: string): (b: bool)
    ensures b <==> exists j :: 0 <= j < |els| && els[j].id == id
  {
    if els == [] then false
    else
      assert forall j :: 1 <= j < |els| ==> els[j] == els[1..][j - 1];
      els[0].id == id || SomeElementHasId(els[1..], id)
  }

  /** `components.some(c => (c.elements || []).some(e => e.id === id))` */
  function SomeComponentOwns(comps: seq<Component>, id: string): (b: bool)
    ensures b <==> IsElementId(comps, id)
  {
    if comps == [] then false
    else
      assert forall i :: 1 <= i < |comps| ==> comps[i] == comps[1..][i - 1];
      SomeElementHasId(ElementsOf(comps[0]), id) || SomeComponentOwns(comps[1..], id)
  }

  /** `isElementSelected`: a truthy selection that is no component's id and is the id of an
      element of some component. */
  function IsElementSelected(comps: seq<Component>, selectedId: Option<string>): (b: bool)
    ensures b <==> IsSet(selectedId) && !IsComponentId(comps, selectedId.value) && IsElementId(comps, selectedId.value)
  {
    IsSet(selectedId) && !SomeComponentHasId(comps, selectedId.value) && SomeComponentOwns(comps, selectedId.value)
  }
}
