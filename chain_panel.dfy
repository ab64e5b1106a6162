/** The chain filter panel (src/components/ChainFilter.tsx): its `active` flag with the Show and
    Disable buttons, and the memo that feeds the element chain of the selection to the canvas.
    The canvas-area copy (src/components/canvas_area/ChainFilter.tsx) keeps the same flag and
    buttons; it differs only in its memo, modelled in `CanvasChainFilter`. */
module ChainPanel {
  import opened Wrappers
  import opened Types
  import opened ChainIds

  /** The panel's `useState(false)` flag. */
  class Panel {
    var active: bool

    constructor ()
      ensures !active
    {
      active := false;
    }

    /** Show chain is enabled (`disabled={active || !selectedId}` is false). */
    predicate ShowEnabled(selectedId: Option<string>)
      reads this
    {
      !active && IsSet(selectedId)
    }

    /** Disable filter is enabled (`disabled={!active}` is false). */
    predicate DisableEnabled()
      reads this
    {
      active
    }

    /** At most one of the two buttons is enabled, and with a selection exactly one is. */
    lemma ButtonsExclusive(selectedId: Option<string>)
      ensures !(ShowEnabled(selectedId) && DisableEnabled())
      ensures IsSet(selectedId) ==> ShowEnabled(selectedId) || DisableEnabled()
    {
    }

    /** Show chain: `setActive(true)`. */
    method Show()
      modifies this
      ensures active
    {
      active := true;
    }

    /** Disable filter: `setActive(false)`. */
    method Disable()
      modifies this
      ensures !active
    {
      active := false;
    }
  }

  /** The memo: empty lists when the filter is off or nothing is selected, otherwise the element
      chain of the selection over the model's links. */
  method ElementChainMemo(active: bool, selectedId: Option<string>, links: seq<Link>)
    returns (elementIds: seq<string>, linkIds: seq<string>)
    ensures !active || !IsSet(selectedId) ==> elementIds == [] && linkIds == []
    ensures active && IsSet(selectedId) ==> IsElementChain(links, selectedId.value, elementIds, linkIds)
  {
    if !active || !IsSet(selectedId) {
      return [], [];
    }
    elementIds, linkIds := GetChainIds(selectedId.value, links);
  }
}
