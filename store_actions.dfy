/** The current store (src/store/storeActions.ts with its state shape in
    src/store/storeTypes.ts): the live model, the mirrored link list and component types, and
    the selection, with every action that replaces the snapshot. */
module StoreActions {
  import opened Wrappers
  import opened Types
  import opened Decode
  import opened Encode
  import opened Mutations
  import opened RoundTrip

  /** `{ ok: true }` or `{ ok: false, error }` */
  datatype LoadOutcome = Ok | Rejected(error: string)

  /** `defaultModel` */
  const DefaultModel := Model(1, [], [], map[], Some([]))

  /** The snapshot a load installs: the rebuilt components, the normalised links,
      `version ?? 1`, `style ?? {}`, and the document's `componentTypes` array or else the
      distinct `type` values of the components. */
  function LoadedModel(doc: RawDoc, d: Decoded): (m: Model)
    ensures m.componentTypes.Some?
  {
    Model(doc.version.GetOr(1), d.components, d.links, doc.style.GetOr(map[]),
          Some(if doc.componentTypes.Some? then doc.componentTypes.value else DistinctTypes(d.components)))
  }

  /** The default component types do not depend on the rebuilt dependencies: they are those of
      the document's own components. */
  lemma LoadedTypesOfDocument(parsed: Parsed)
    requires DecodeResult(parsed).Success? && parsed.doc.componentTypes.None?
    ensures LoadedModel(parsed.doc, DecodeResult(parsed).value).componentTypes == Some(DistinctTypes(parsed.doc.components.value))
  {
    var comps := parsed.doc.components.value;
    var rebuilt := DecodeResult(parsed).value.components;
    assert Kinds(rebuilt) == Kinds(comps);
  }

  class Store {
    var model: Model
    var links: seq<Link>
    var componentTypes: seq<string>
    var selectedId: Option<string>

    /** The mirrored fields agree with the snapshot, as `setModel` leaves them. */
    ghost predicate Mirrored()
      reads this
    {
      links == model.links && componentTypes == model.componentTypes.GetOr([])
    }

    constructor()
      ensures model == DefaultModel && links == [] && componentTypes == [] && selectedId == None
      ensures Mirrored()
    {
      model := DefaultModel;
      links := [];
      componentTypes := [];
      selectedId := None;
    }

    /** `setModel`: install the snapshot and mirror its links and component types; the
        selection stays. */
    method SetModel(m: Model)
      modifies this
      ensures model == m && links == m.links && componentTypes == m.componentTypes.GetOr([])
      ensures selectedId == old(selectedId)
      ensures Mirrored()
    {
      model := m;
      links := m.links;
      componentTypes := m.componentTypes.GetOr([]);
    }

    /** `setModelFromYaml`: on any failure nothing is installed and the error text is
        returned; otherwise the loaded snapshot is installed. */
    method SetModelFromYaml(parsed: Parsed) returns (outcome: LoadOutcome)
      modifies this
      ensures DecodeResult(parsed).Failure? ==>
        outcome == Rejected(Message(DecodeResult(parsed).error)) && unchanged(this)
      ensures DecodeResult(parsed).Success? ==>
        && outcome == Ok
        && model == LoadedModel(parsed.doc, DecodeResult(parsed).value)
        && selectedId == old(selectedId)
        && Mirrored()
    {
      var res := DecodeDocument(parsed);
      if res.Failure? {
        return Rejected(Message(res.error));
      }
      var m := LoadedModel(parsed.doc, res.value);
      SetModel(m);
      links, componentTypes := res.value.links, m.componentTypes.value;
      return Ok;
    }

    /** `toYaml` up to the YAML text: `version`, the encoded components, `style` and
        `componentTypes ?? []`, with no `links` key. The store is not changed. */
    method ToYaml() returns (doc: RawDoc)
      ensures doc == SavedDocument(model.components, model.links, model.version, model.style,
                                   Some(model.componentTypes.GetOr([])))
    {
      var out, topLinks := EncodeComponents(model.components, model.links);
      doc := RawDoc(Some(out), None, Some(model.version), Some(model.style), Some(model.componentTypes.GetOr([])));
    }

    /** `select(id ?? null)` */
    method Select(id: Option<string>)
      modifies this
      ensures selectedId == id
      ensures model == old(model) && links == old(links) && componentTypes == old(componentTypes)
    {
      selectedId := id;
    }

    /** `addComponent(c)`: append the new component, select it, return it. */
    method AddComponent(c: ComponentPatch, now: nat) returns (added: Component)
      modifies this
      ensures added == NewComponent(c, FreshComponentId(now))
      ensures model == old(model).(components := old(model.components) + [added])
      ensures selectedId == Some(added.id)
      ensures Mirrored()
    {
      var id := c.id.GetOr(FreshComponentId(now));
      added := NewComponent(c, FreshComponentId(now));
      SetModel(model.(components := model.components + [added]));
      Select(Some(id));
    }

    /** `updateComponent(id, patch)` */
    method UpdateComponent(id: string, patch: ComponentPatch)
      modifies this
      ensures model == old(model).(components := UpdateComponents(old(model.components), id, patch))
      ensures selectedId == old(selectedId)
      ensures Mirrored()
    {
      SetModel(model.(components := UpdateComponents(model.components, id, patch)));
    }

    /** `removeComponent(id)`: drop the components with that id and the links naming it at
        either end; a selection of that id is cleared. */
    method RemoveComponent(id: string)
      modifies this
      ensures model == old(model).(components := RemainingComponents(old(model.components), id),
                                   links := RemainingLinks(old(model.links), id))
      ensures selectedId == if old(selectedId) == Some(id) then None else old(selectedId)
      ensures Mirrored()
    {
      SetModel(model.(components := RemainingComponents(model.components, id),
                      links := RemainingLinks(model.links, id)));
      if selectedId == Some(id) {
        Select(None);
      }
    }

    /** `updateElement(id, patch)`: patch every element with that id and, when the patch
        carries `dependencies`, bring the links leaving `id` in line with them. */
    method UpdateElement(id: string, patch: ElementPatch)
      modifies this
      ensures model == old(model).(components := UpdateElements(old(model.components), id, patch),
                                   links := NewLinks(old(model.links), id, PrevDeps(old(model.components), id), patch.dependencies))
      ensures selectedId == old(selectedId)
      ensures Mirrored()
    {
      var prev := FindPrevDeps(model.components, id);
      var newLinks := UpdateLinks(model.links, id, prev, patch.dependencies);
      SetModel(model.(components := UpdateElements(model.components, id, patch), links := newLinks));
    }
  }
}
