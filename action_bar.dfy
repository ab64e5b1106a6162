/** The action bar (src/components/canvas_area/ActionBar.tsx): its own `active` flag, the chain
    button that toggles it, and the filter it reports to the canvas. */
module ActionBar {
  import opened Wrappers
  import opened Types
  import opened ChainFilterUtils
  import opened CanvasChainFilter

  class Bar {
    var active: bool

    constructor ()
      ensures !active
    {
      active := false;
    }

    /** `handleChainFilterClick`: flip the flag and report it at once with empty lists. */
    method HandleChainFilterClick() returns (emitted: ChainFilter)
      modifies this
      ensures active == !old(active)
      ensures emitted == ChainFilter(active, [], [])
    {
      var newActive := !active;
      active := newActive;
      emitted := ChainFilter(newActive, [], []);
    }

    /** The effect that reports `{ active, elementIds, linkIds }` from the memo. */
    method Emitted(m: Model, selectedId: Option<string>) returns (f: ChainFilter)
      ensures f.active == active
      ensures IsSelectedChain(m, active, selectedId, f.elementIds, f.linkIds)
    {
      var elementIds, linkIds := SelectedChain(m, active, selectedId);
      f := ChainFilter(active, elementIds, linkIds);
    }
  }
}
