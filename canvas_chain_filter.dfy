/** The canvas-area chain filter (src/components/canvas_area/ChainFilter.tsx): the selection is
    looked up among the components; a component's chain comes from `calculateChainForComponent`,
    anything else gets the element chain. The action bar (src/components/canvas_area/ActionBar.tsx)
    runs the same memo. Its Show/Disable flag is the one of `ChainPanel.Panel`. */
module CanvasChainFilter {
  import opened Wrappers
  import opened Types
  import opened ChainIds
  import opened ChainFilterUtils

  /** What the memo yields. Off or no selection: nothing. A component id: the forward chain of
      the first component with that id, or nothing when it has no `elements` array (only the
      lists of `calculateChainForComponent` are kept, not its `active` flag). Any other id: the
      element chain. */
  ghost predicate IsSelectedChain(m: Model, active: bool, selectedId: Option<string>,
                                  elementIds: seq<string>, linkIds: seq<string>)
  {
    if !active || !IsSet(selectedId) then elementIds == [] && linkIds == []
    else
      match FindComponent(m.components, selectedId.value)
      case None => IsElementChain(m.links, selectedId.value, elementIds, linkIds)
      case Some(c) =>
        match c.elements
        case None => elementIds == [] && linkIds == []
        case Some(els) => IsForwardChain(m.links, ElementIds(els), elementIds, linkIds)
  }

  /** The component-or-element dispatch of the memo. */
  method SelectedChain(m: Model, active: bool, selectedId: Option<string>)
    returns (elementIds: seq<string>, linkIds: seq<string>)
    ensures IsSelectedChain(m, active, selectedId, elementIds, linkIds)
  {
    if !active || !IsSet(selectedId) {
      return [], [];
    }
    var comp := FindComponent(m.components, selectedId.value);
    if comp.Some? {
      var f := CalculateChainForComponent(m, selectedId.value);
      elementIds, linkIds := f.elementIds, f.linkIds;
    } else {
      elementIds, linkIds := GetChainIds(selectedId.value, m.links);
    }
  }
}
