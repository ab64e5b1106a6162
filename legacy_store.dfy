/** The older store (src/store/store.ts): the live model, the mirrored link list and the
    selection, with every action that replaces the snapshot. Its models have no
    `componentTypes`. */
module LegacyStore {
  import opened Wrappers
  import opened Types
  import opened Decode
  import opened Encode
  import opened Mutations
  import opened RoundTrip

  /** `{ ok: true }` or `{ ok: false, error }` */
  datatype LoadOutcome = Ok | Rejected(error: string)

  /** `defaultModel`: it has no `links` key, which every reader takes as no links. */
  const DefaultModel := Model(1, [], [], map[], None)

  /** The snapshot a load installs: the rebuilt components, the normalised links,
      `version ?? 1` and `style ?? {}`. A document's `componentTypes` is ignored. */
  function LoadedModel(doc: RawDoc, d: Decoded): Model {
    Model(doc.version.GetOr(1), d.components, d.links, doc.style.GetOr(map[]), None)
  }

  class Store {
    var model: Model
    var links: seq<Link>
    var selectedId: Option<string>

    /** The mirrored link list agrees with the snapshot, as `setModel` leaves it. */
    ghost predicate Mirrored()
      reads this
    {
      links == model.links
    }

    constructor()
      ensures model == DefaultModel && links == [] && selectedId == None
      ensures Mirrored()
    {
      model := DefaultModel;
      links := [];
      selectedId := None;
    }

    /** `setModel`: install the snapshot and mirror its links; the selection stays. */
    method SetModel(m: Model)
      modifies this
      ensures model == m && links == m.links
      ensures selectedId == old(selectedId)
      ensures Mirrored()
    {
      model := m;
      links := m.links;
    }

    /** `setModelFromYaml`: on any failure nothing is installed and the error text is
        returned; otherwise the loaded snapshot is installed. */
    method SetModelFromYaml(parsed: Parsed) returns (outcome: LoadOutcome)
      modifies this
      ensures DecodeResult(parsed).Failure? ==>
        outcome == Rejected(Message(DecodeResult(parsed).error)) && unchanged(this)
      ensures DecodeResult(parsed).Success? ==>
        && outcome == Ok
        && model == LoadedModel(parsed.doc, DecodeResult(parsed).value)
        && selectedId == old(selectedId)
        && Mirrored()
    {
      var res := DecodeDocument(parsed);
      if res.Failure? {
        return Rejected(Message(res.error));
      }
      var m := LoadedModel(parsed.doc, res.value);
      SetModel(m);
      links := res.value.links;
      return Ok;
    }

    /** `toYaml` up to the YAML text: `version`, the encoded components and `style`, with no
        `links` and no `componentTypes` key. The store is not changed. */
    method ToYaml() returns (doc: RawDoc)
      ensures doc == SavedDocument(model.components, model.links, model.version, model.style, None)
    {
      var out, topLinks := EncodeComponents(model.components, model.links);
      doc := RawDoc(Some(out), None, Some(model.version), Some(model.style), None);
    }

    /** `select(id ?? null)` */
    method Select(id: Option<string>)
      modifies this
      ensures selectedId == id
      ensures model == old(model) && links == old(links)
    {
      selectedId := id;
    }

    /** `addComponent(c)`: append the new component, select it, return it. */
    method AddComponent(c: ComponentPatch, now: nat) returns (added: Component)
      modifies this
      ensures added == NewComponent(c, FreshComponentId(now))
      ensures model == old(model).(components := old(model.components) + [added])
      ensures selectedId == Some(added.id)
      ensures Mirrored()
    {
      var id := c.id.GetOr(FreshComponentId(now));
      added := NewComponent(c, FreshComponentId(now));
      SetModel(model.(components := model.components + [added]));
      Select(Some(id));
    }

    /** `updateComponent(id, patch)` */
    method UpdateComponent(id: string, patch: ComponentPatch)
      modifies this
      ensures model == old(model).(components := UpdateComponents(old(model.components), id, patch))
      ensures selectedId == old(selectedId)
      ensures Mirrored()
    {
      SetModel(model.(components := UpdateComponents(model.components, id, patch)));
    }

    /** `removeComponent(id)`: drop the components with that id and the links naming it at
        either end; a selection of that id is cleared. */
    method RemoveComponent(id: string)
      modifies this
      ensures model == old(model).(components := RemainingComponents(old(model.components), id),
                                   links := RemainingLinks(old(model.links), id))
      ensures selectedId == if old(selectedId) == Some(id) then None else old(selectedId)
      ensures Mirrored()
    {
      SetModel(model.(components := RemainingComponents(model.components, id),
                      links := RemainingLinks(model.links, id)));
      if selectedId == Some(id) {
        Select(None);
      }
    }

    /** `updateElement(id, patch)`: patch every element with that id and, when the patch
        carries `dependencies`, bring the links leaving `id` in line with them. */
    method UpdateElement(id: string, patch: ElementPatch)
      modifies this
      ensures model == old(model).(components := UpdateElements(old(model.components), id, patch),
                                   links := NewLinks(old(model.links), id, PrevDeps(old(model.components), id), patch.dependencies))
      ensures selectedId == old(selectedId)
      ensures Mirrored()
    {
      var prev := FindPrevDeps(model.components, id);
      var newLinks := UpdateLinks(model.links, id, prev, patch.dependencies);
      SetModel(model.(components := UpdateElements(model.components, id, patch), links := newLinks));
    }
  }
}
