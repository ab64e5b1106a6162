/** Style resolution (src/utils/d3Style.ts): the properties of a drawn item are the `default`
    entry of its type, overlaid by its sub-type entry and, for a route element, by the entry of
    its HTTP method; later entries win key by key. */
module StyleLookup {
  import opened Wrappers
  import opened Types

  /** `entries[key]`, where a missing entry spreads as nothing. */
  function Entry(entries: map<string, StyleProps>, key: string): StyleProps {
    if key in entries then entries[key] else map[]
  }

  /** An optional string argument that is present and not empty. */
  predicate Given(s: Option<string>) {
    s.Some? && s.value != ""
  }

  /** The route-method rule applies. */
  predicate RouteMethodApplies(entries: map<string, StyleProps>, kind: string, subType: Option<string>, verb: Option<string>) {
    kind == "element" && subType == Some("route") && Given(verb) && verb.value in entries
  }

  /** The sub-type rule applies. */
  predicate SubTypeApplies(entries: map<string, StyleProps>, subType: Option<string>) {
    Given(subType) && subType.value in entries
  }

  /** `getStyle(model, type, subType, method)` over `model.style ?? {}`. */
  function GetStyle(style: Style, kind: string, subType: Option<string>, verb: Option<string>): (r: StyleProps)
    ensures kind !in style ==> r == map[]
  {
    if kind !in style then map[]
    else
      var entries := style[kind];
      if RouteMethodApplies(entries, kind, subType, verb) then
        Entry(entries, "default") + Entry(entries, subType.value) + entries[verb.value]
      else if SubTypeApplies(entries, subType) then
        Entry(entries, "default") + entries[subType.value]
      else
        Entry(entries, "default")
  }

  /** `over` laid on `under` on key `k`: `over` wins where it has the key. */
  ghost predicate Overlays(r: StyleProps, under: StyleProps, over: StyleProps) {
    && (forall k :: k in r <==> k in under || k in over)
    && (forall k :: k in over ==> r[k] == over[k])
    && (forall k :: k in under && k !in over ==> r[k] == under[k])
  }

  /** The precedence of the three rules, first match wins: for a route element whose method has
      an entry, the method entry overlays the route entry, which overlays `default`; otherwise a
      present sub-type entry overlays `default`; otherwise `default` alone, or nothing. A method
      without an entry falls through to the later rules. */
  lemma GetStylePrecedence(style: Style, kind: string, subType: Option<string>, verb: Option<string>)
    requires kind in style
    ensures var e := style[kind]; var r := GetStyle(style, kind, subType, verb);
      if RouteMethodApplies(e, kind, subType, verb) then
        Overlays(r, Entry(e, "default") + Entry(e, "route"), e[verb.value]) &&
        Overlays(Entry(e, "default") + Entry(e, "route"), Entry(e, "default"), Entry(e, "route"))
      else if SubTypeApplies(e, subType) then
        Overlays(r, Entry(e, "default"), e[subType.value])
      else
        r == Entry(e, "default")
  {
  }

  /** Only the method entry can override the route entry, which only overrides `default`: a key
      set in the method entry always shows the method's value. */
  lemma MethodEntryWins(style: Style, subType: Option<string>, verb: Option<string>, k: string)
    requires "element" in style && RouteMethodApplies(style["element"], "element", subType, verb)
    requires k in style["element"][verb.value]
    ensures k in GetStyle(style, "element", subType, verb)
    ensures GetStyle(style, "element", subType, verb)[k] == style["element"][verb.value][k]
  {
  }
}
