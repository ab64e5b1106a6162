# achyml core in Dafny

achyml is a browser editor for architecture diagrams written as YAML. A model holds:

- components, placed on a grid by `column` and `level`;
- the elements each component owns, such as routes;
- a flat list of links between elements;
- a style table and a list of component types.

This project models and proves the core of that editor:

- **Stores** (`StoreActions`, `LegacyStore`). The store holds the live snapshot plus mirrored copies of its links and component types. Every action replaces the snapshot with a new one:
  - `setModel`, `setModelFromYaml`, `toYaml`, `select`;
  - `addComponent`, `updateComponent`, `removeComponent`, `updateElement`.

  The current store is `src/store/storeActions.ts`. Its older copy, `src/store/store.ts`, is modelled as a second class. Both classes share one model of each routine.
- **Codec** (`Decode`, `Encode`, `RoundTrip`):
  - *Loading* chooses the edge list: the top-level `links` array, or one link per element dependency. It then points every endpoint at an element id, mapping a component id to the component's first element. The first unresolved endpoint rejects the whole load. Finally it rebuilds every element's `dependencies` from the links.
  - *Saving* writes every link back as a dependency of the last element that carries the link's source id.
  - `RoundTrip` proves what loading a saved document gives back.
- **Layout** (`Layout`, `src/utils/d3Layout.ts`):
  - a (column, level) grid;
  - one running vertical cursor per column;
  - element boxes inside their component;
  - the canvas size.
- **Chains** (`Graph`, `ChainIds`, `ChainFilterUtils`, `ChainPanel`, `CanvasChainFilter`, `ActionBar`, `App`):
  - *Element chain*: the upstream and downstream closure of a selected element.
  - *Component chain*: the forward closure of a component's elements.
  - The projection of the model onto a chain, and the UI flags and dispatch that feed it.
- **Style lookup** (`StyleLookup`, `src/utils/d3Style.ts`).
- **Swagger import** (`SwaggerWorker`, `SwaggerImport`): turning an OpenAPI document into routes, and the routes into `route` elements of a component.

Closures and code that changes state step by step are modelled as classes and methods with loops. Each method is proved equal to a specification function, and the lemmas are stated about those functions. Pure code is modelled as functions.

The model follows the code as written, including these behaviours a reader may not expect:

- **Component chain.** The code makes a single forward walk, with one visited set shared by all of the component's elements. It therefore collects no upstream nodes. Selecting the component of `B` on `A→B→C→D` yields `B, C, D`, not `A, B, C, D`.
- **Element chain.** `elementIds` is a list, not a set: the start node, or a node that is both upstream and downstream, can appear twice.
- **Save and load.** This does not keep every link. A link whose `from` is not an element id is dropped on save. The load then rebuilds links with `dep-<from>-to-<to>` ids.
- **removeComponent.** It only drops links that name the component id, so links of the removed component's elements stay.

## Model

| member | source | states |
|---|---|---|
| `Text.NatToString` | src/store/storeActions.ts:51 | The decimal text of a number: at least one digit, a single digit exactly for numbers below 10, last digit `n % 10` |
| `Text.NatToStringInjective` | src/store/storeActions.ts:51 | Different numbers have different decimal texts |
| `Text.NatToBase36` | src/store/storeActions.ts:224 | `toString(36)`: at least one digit, one digit exactly below 36, last digit `n % 36` |
| `Text.NatToBase36Injective` | src/store/storeActions.ts:224 | Different numbers have different base-36 texts |
| `Text.ReplaceChars` | src/components/modals/SwaggerImportModal.tsx:68 | Same length; each character in the set is replaced, every other one is kept |
| `Text.ToUpper` | src/workers/swaggerWorker.ts:151 | Same length, character by character, and no lower-case ASCII letter is left |
| `Types.FindComponent` | src/utils/chainFilterUtils.ts:35 | `None` exactly when no component has the id; otherwise the first component with it |
| `Types.Filter` | src/utils/chainFilterUtils.ts:14-16 | Keeps exactly the members that pass the test, and is never longer than its input |
| `Types.FilterSelects` | src/utils/chainFilterUtils.ts:14-16 | The result is `s` read at strictly increasing positions, and those are exactly the positions whose value passes the test |
| `Types.ElementIds` | src/utils/chainFilterUtils.ts:51-53 | The ids of the elements, in order |
| `Decode.DecodeResult` | src/store/storeActions.ts:27-31 | A `yaml.load` exception and a missing `components` array each reject with their own error |
| `Decode.DecodeDocument` | src/store/storeActions.ts:22-134 | The load's steps give exactly `DecodeResult`: index, edge list, normalise, rebuild |
| `Decode.FirstElementMap` | src/store/storeActions.ts:36-44 | Maps a component id to the truthy first element id of a component with that id; every such component's id is in the map |
| `Decode.ElementIdSetMeaning` | src/store/storeActions.ts:35-41 | `elementIdSet` holds exactly the truthy ids of all elements |
| `Decode.IndexElements` | src/store/storeActions.ts:35-45 | The first loop computes `elementIdSet` and `compToFirstEl` |
| `Decode.TopLinks` | src/store/storeActions.ts:49-55 | The top-level links in order; a missing id becomes `link-top-<index>` |
| `Decode.TopLinkIdsDistinct` | src/store/storeActions.ts:51 | Two links without an id get different ids |
| `Decode.OwnLinks` | src/store/storeActions.ts:62-69 | One `dep-<from>-to-<to>` link per dependency, in order |
| `Decode.CollectDepLinks` | src/store/storeActions.ts:56-73 | The nested loops build the dependency edge list, component by component and element by element |
| `Decode.NormalizeLinks` | src/store/storeActions.ts:76-91 | The normalisation loop: the first unresolved link fails; otherwise every link is resolved |
| `Decode.NormalizeFailureSticks` | src/store/storeActions.ts:81 | Once a prefix fails, the whole list fails with the same error |
| `Decode.NormalizeAllSuccess` | src/store/storeActions.ts:76-91 | On success, every link keeps its id and label and both endpoints are resolved |
| `Decode.NormalizeAllFailure` | src/store/storeActions.ts:76-91 | On failure, the error is that of the first link with an unknown endpoint, and every earlier link resolves |
| `Decode.FirstIsElement` | src/store/storeActions.ts:78-79 | A component id resolves to an element id |
| `Decode.NormalizedEndpointsAreElements` | src/store/storeActions.ts:76-91 | Every normalised endpoint is an element id |
| `Decode.DepsFromMeaning` | src/store/storeActions.ts:100-110 | An element's rebuilt dependencies are exactly the `{to, label}` pairs of the links leaving its id, in link order |
| `Decode.CompWithDeps` | src/store/storeActions.ts:94-110 | A component keeps its fields and its element list; each element gets rebuilt dependencies; a component without `elements` is skipped |
| `Decode.WithDeps` | src/store/storeActions.ts:94-110 | Every component is rebuilt, in order |
| `Decode.PushToMatching` | src/store/storeActions.ts:103-108 | One link is pushed onto every element whose id is its `from` |
| `Decode.RebuildDependencies` | src/store/storeActions.ts:94-110 | The clear and refill loops compute `WithDeps` |
| `Decode.WithDepsIgnoresOldDeps` | src/store/storeActions.ts:94-99 | The document's own `dependencies` do not affect the rebuilt components |
| `Decode.Dedup` | src/store/storeActions.ts:117 | `Array.from(new Set(s))`: no duplicates, the same values |
| `Decode.DedupOrder` | src/store/storeActions.ts:117 | The values come in order of first occurrence |
| `Decode.Kinds` | src/store/storeActions.ts:117 | The `type` of each component, in order |
| `Decode.DistinctTypesFacts` | src/store/storeActions.ts:113-118 | The default types are the distinct truthy `type` values, without duplicates, in order of first occurrence |
| `Decode.DecodeDuality` | src/store/storeActions.ts:93-110 | After a load, every link joins two element ids. Every element's dependencies are exactly the pairs of the links leaving it |
| `Encode.ElMapIndexes` | src/store/storeActions.ts:150-160 | `elMap` maps each element id to the position of the last element with that id |
| `Encode.ElMapAtLast` | src/store/storeActions.ts:153 | An element's id maps to its own position exactly when no later element has that id |
| `Encode.ElMapDomain` | src/store/storeActions.ts:172 | `elMap.has(x)` holds exactly for element ids |
| `Encode.EncodedElements` | src/store/storeActions.ts:146 | The copy of a component's elements keeps their number and order |
| `Encode.EncodedWith` | src/store/storeActions.ts:144-147 | A component without `elements` is written with an empty list |
| `Encode.EncodedStep` | src/store/storeActions.ts:171-180 | Distributing one more link pushes its pair onto the element `elMap` names, and onto no other element |
| `Encode.EncodeComponents` | src/store/storeActions.ts:141-180 | The loops compute the written components; `topLinks` holds exactly the links whose source is not an element id |
| `Encode.IndexPositions` | src/store/storeActions.ts:150-160 | `elMap` ends up mapping each element id to the position of the last element with that id |
| `Encode.ClearDependencies` | src/store/storeActions.ts:162-167 | Every element of the copy has empty `dependencies`, and nothing else changes |
| `Encode.DistributeLinks` | src/store/storeActions.ts:169-180 | Each link with an element id as `from` appends its pair to that element, in link order; the rest go, in order, to `topLinks` |
| `Encode.EncodedMeaning` | src/store/storeActions.ts:144-180 | Only `dependencies` change. The last element with an id gets the pairs of the links leaving it; earlier elements with that id get none |
| `Encode.UnplacedMeaning` | src/store/storeActions.ts:172-179 | A link goes to `topLinks` exactly when its `from` is not an element id |
| `Encode.EncodeAfterDecode` | src/store/storeActions.ts:150-180 | With unique element ids, saving right after a load writes back the dependencies the load gave |
| `Encode.EarlierDuplicateLosesDependencies` | src/store/storeActions.ts:153 | Of two elements sharing an id, the earlier one is written with no dependencies |
| `RoundTrip.SaveThenLoad` | src/store/storeActions.ts:182-187 | When ids are truthy and links stay among elements, loading a saved document succeeds. Components and elements keep their place, and each element gets the pairs of the links leaving its id |
| `RoundTrip.SaveThenLoadLinks` | src/store/storeActions.ts:56-73 | After that load, every link joins the endpoints, with the label, of a link that left an element |
| `RoundTrip.SavedDecoded` | src/store/storeActions.ts:56-110 | Loading the saved document succeeds with the edges rebuilt from the written dependencies, unchanged by normalisation, and the components rebuilt from those edges |
| `RoundTrip.LoadedLinks` | src/store/storeActions.ts:56-73 | Loading the saved document ends with exactly the edges rebuilt from the written dependencies |
| `RoundTrip.SavedLinkRebuilt` | src/store/storeActions.ts:56-73 | Every link that left an element is among the edges rebuilt from what the save wrote |
| `RoundTrip.SaveThenLoadLinksComplete` | src/store/storeActions.ts:56-73 | Conversely, every link that left an element comes back from that load, with its endpoints and label |
| `RoundTrip.NormalizeIdentity` | src/store/storeActions.ts:76-91 | Links whose endpoints are all element ids normalise to themselves |
| `RoundTrip.DepLinksDeps` | src/store/storeActions.ts:58-72 | Links built from dependencies lead back to those dependencies |
| `RoundTrip.SavedDeps` | src/store/storeActions.ts:171-180 | The pairs saved for an id, over all its copies, are the pairs of the links leaving it |
| `RoundTrip.SavedDepOrigin` | src/store/storeActions.ts:176 | A saved dependency comes from a link that left the element's id |
| `RoundTrip.LinkOfSaved` | src/store/storeActions.ts:63-68 | A link rebuilt from a saved document matches a saved link that left an element |
| `Graph.ClosedHoldsReachable` | src/components/ChainFilter.tsx:13-34 | A finished walk's visited set holds everything reachable from its start |
| `Graph.Endpoints` | src/components/ChainFilter.tsx:16-20 | Every link's two ends are in the set the walks range over |
| `ChainIds.Walker.constructor` | src/components/ChainFilter.tsx:7-10 | The four Sets start empty |
| `ChainIds.Walker.WalkUp` | src/components/ChainFilter.tsx:13-22 | `walkUp` keeps the walk invariant: found nodes are reachable backwards, and visited nodes off the stack are finished |
| `ChainIds.Walker.StepUp` | src/components/ChainFilter.tsx:17-20 | One link into the node: its source joins `upstream` and is walked, so the link counts as followed and the invariant is kept |
| `ChainIds.Walker.WalkDown` | src/components/ChainFilter.tsx:25-34 | The same for `walkDown`, forwards |
| `ChainIds.Walker.StepDown` | src/components/ChainFilter.tsx:29-32 | One link out of the node: its target joins `downstream` and is walked, so the link counts as followed and the invariant is kept |
| `ChainIds.WalkComplete` | src/components/ChainFilter.tsx:36-37 | A finished walk has found exactly the nodes one or more links away |
| `ChainIds.Closures` | src/components/ChainFilter.tsx:36-41 | `upstream` and `downstream` have no duplicates and are exactly the backward and forward closures |
| `ChainIds.ChainLinkIds` | src/components/ChainFilter.tsx:42-49 | The ids of exactly the links that touch the start, a source upstream or a target downstream |
| `ChainIds.ChainLinkIdsInOrder` | src/components/ChainFilter.tsx:42-49 | The computed ids are those of the order-preserving filter of the links by the touching test, one per link |
| `ChainIds.GetChainIds` | src/components/ChainFilter.tsx:6-51 | `elementIds` is the start followed by both closures; `linkIds` names exactly the touching links, one id per touching link, in link order |
| `ChainFilterUtils.Narrow` | src/utils/chainFilterUtils.ts:12-17 | A component keeps its fields; its elements are those in the chain |
| `ChainFilterUtils.NarrowAll` | src/utils/chainFilterUtils.ts:11-17 | The `map` step narrows every component, in order |
| `ChainFilterUtils.ApplyChainFilter` | src/utils/chainFilterUtils.ts:7-23 | An inactive or empty filter returns the model unchanged; version, style and types are always kept |
| `ChainFilterUtils.SurvivorsHoldChainElements` | src/utils/chainFilterUtils.ts:11-18 | The surviving elements are the model's elements in the chain, in order |
| `ChainFilterUtils.ApplyChainFilterElements` | src/utils/chainFilterUtils.ts:11-18 | The same, for the whole projection |
| `ChainFilterUtils.ApplyChainFilterComponents` | src/utils/chainFilterUtils.ts:11-18 | A component survives exactly when it owns an element in the chain, and only as its narrowed copy |
| `ChainFilterUtils.ApplyChainFilterLinks` | src/utils/chainFilterUtils.ts:19-21 | A link is kept exactly when its id is in `linkIds`; order is kept |
| `ChainFilterUtils.ApplyChainFilterIdempotent` | src/utils/chainFilterUtils.ts:7-23 | Applying a filter twice is applying it once |
| `ChainFilterUtils.Collector.constructor` | src/utils/chainFilterUtils.ts:30-32 | The visited set and both lists start empty |
| `ChainFilterUtils.Collector.CollectChain` | src/utils/chainFilterUtils.ts:39-49 | `collectChain` keeps the shared walk invariant and visits its node |
| `ChainFilterUtils.Collector.FollowLinks` | src/utils/chainFilterUtils.ts:43-48 | Every link leaving the node is recorded and followed |
| `ChainFilterUtils.Collector.FollowOne` | src/utils/chainFilterUtils.ts:44-47 | One link leaving the node: its id is pushed and its target walked, so the link counts as followed and the invariant is kept |
| `ChainFilterUtils.CollectComplete` | src/utils/chainFilterUtils.ts:51-53 | A finished walk over all seeds has computed the forward chain |
| `ChainFilterUtils.CollectFromElements` | src/utils/chainFilterUtils.ts:51-53 | `elementIds` lists, once each, exactly the nodes forward-reachable from the elements; `linkIds` names exactly the links that leave them |
| `ChainFilterUtils.CalculateChainForComponent` | src/utils/chainFilterUtils.ts:29-60 | Inactive and empty when there is no such component or it has no `elements`; otherwise active with the forward chain |
| `ChainPanel.Panel.constructor` | src/components/ChainFilter.tsx:56 | The filter starts off |
| `ChainPanel.Panel.ButtonsExclusive` | src/components/ChainFilter.tsx:76-89 | Never are both buttons enabled; with a selection, exactly one is |
| `ChainPanel.Panel.Show` | src/components/ChainFilter.tsx:78 | Show chain turns the filter on |
| `ChainPanel.Panel.Disable` | src/components/ChainFilter.tsx:85 | Disable filter turns it off |
| `ChainPanel.ElementChainMemo` | src/components/ChainFilter.tsx:58-61 | Empty lists when off or with no selection; otherwise the element chain of the selection |
| `CanvasChainFilter.SelectedChain` | src/components/canvas_area/ChainFilter.tsx:56-69 | A component id gives its forward chain, or nothing without `elements`; any other id gives the element chain; off gives nothing |
| `ActionBar.Bar.constructor` | src/components/canvas_area/ActionBar.tsx:70 | The flag starts off |
| `ActionBar.Bar.HandleChainFilterClick` | src/components/canvas_area/ActionBar.tsx:108-112 | Flips the flag and reports it at once with empty lists |
| `ActionBar.Bar.Emitted` | src/components/canvas_area/ActionBar.tsx:72-89 | Reports the flag with the chain the memo selects |
| `App.RenderedModel` | src/App.tsx:52-68 | The canvas model is the store model through the chain filter, or the model itself without one |
| `App.EmptyChainShowsAll` | src/App.tsx:53 | An active filter with no element ids shows the whole model |
| `App.SomeComponentHasId` | src/App.tsx:27 | True exactly when some component has the id |
| `App.SomeElementHasId` | src/App.tsx:29 | True exactly when some element in the list has the id |
| `App.SomeComponentOwns` | src/App.tsx:28-30 | True exactly when some component owns an element with the id |
| `App.IsElementSelected` | src/App.tsx:26-31 | A truthy selection that is no component's id and is an element's id |
| `StyleLookup.GetStyle` | src/utils/d3Style.ts:3 | A type without a style entry gets no properties |
| `StyleLookup.GetStylePrecedence` | src/utils/d3Style.ts:4-8 | The first rule that applies wins. A route method entry overlays the route entry, which overlays `default`. A sub-type entry overlays `default`. Otherwise `default` alone applies |
| `StyleLookup.MethodEntryWins` | src/utils/d3Style.ts:4-5 | A key set in the method entry always shows the method's value |
| `SwaggerWorker.MakeRoute` | src/workers/swaggerWorker.ts:149-154 | A route has the path and the upper-cased method; summary and operationId default to `""` |
| `SwaggerWorker.PathRoutes` | src/workers/swaggerWorker.ts:147-155 | One route per method key of a path, in key order |
| `SwaggerWorker.ExtractRoutes` | src/workers/swaggerWorker.ts:143-159 | The key loops compute `Routes`; no `paths` gives no routes |
| `SwaggerWorker.AppendPathRoutes` | src/workers/swaggerWorker.ts:147-155 | One path's routes, one per method key in key order, are appended to those already collected |
| `SwaggerWorker.RoutesCount` | src/workers/swaggerWorker.ts:146-147 | There is one route per (path, method) pair |
| `SwaggerWorker.RoutesSound` | src/workers/swaggerWorker.ts:146-155 | Every route is the route of some pair of the document |
| `SwaggerWorker.RoutesComplete` | src/workers/swaggerWorker.ts:146-155 | Every pair of the document gives its route |
| `SwaggerWorker.RoutesUpperCase` | src/workers/swaggerWorker.ts:151 | Every extracted method is upper case |
| `SwaggerWorker.ExtractJsUrl` | src/workers/swaggerWorker.ts:27-41 | No match gives `null`. A `/` path is joined to the base; a `.` path loses the dot and is joined to the page. Anything else gets base plus `/` |
| `SwaggerWorker.ExtractJsUrlKeepsFileName` | src/workers/swaggerWorker.ts:36-40 | The resolved address ends with the script's file name |
| `SwaggerWorker.BaseOf` | src/workers/swaggerWorker.ts:99 | Strips exactly a trailing `/swagger/index.html` or `/swagger-ui/index.html`, and otherwise nothing |
| `SwaggerWorker.BaseOfStrips` | src/workers/swaggerWorker.ts:99 | Both page suffixes come off exactly |
| `SwaggerImport.FileRoutes` | src/components/modals/SwaggerImportModal.tsx:21-43 | A parse error gives `"Invalid Swagger JSON: "` plus its message; otherwise the routes of the document |
| `SwaggerImport.HandleFile` | src/components/modals/SwaggerImportModal.tsx:16-46 | The handler's loops compute `FileRoutes` |
| `SwaggerImport.SanitizePath` | src/components/modals/SwaggerImportModal.tsx:68 | Same length; each `/`, `{` and `}` becomes `-` and every other character is kept, so none of the three is left |
| `SwaggerImport.ImportedElements` | src/components/modals/SwaggerImportModal.tsx:67-74 | One `route` element per route, in order, with the id `route-<method>-<sanitized path>-<index>`, its method and path, no dependencies, and the first non-empty of summary, operationId and path as name |
| `SwaggerImport.ImportedIdsDistinct` | src/components/modals/SwaggerImportModal.tsx:68 | The index suffix makes the ids of one import pairwise distinct |
| `SwaggerImport.ImportResult` | src/components/modals/SwaggerImportModal.tsx:62-77 | No-op exactly when no component is chosen, there are no routes, or no component has the id |
| `SwaggerImport.ImportAppends` | src/components/modals/SwaggerImportModal.tsx:75-77 | The chosen component keeps its elements followed by the new ones, and components with other ids are unchanged |
| `SwaggerImport.HandleImport` | src/components/modals/SwaggerImportModal.tsx:62-79 | The store is unchanged on a no-op; otherwise its components become `ImportResult` and the selection stays |
| `Mutations.FreshComponentId` | src/store/storeActions.ts:224 | The generated id starts with `comp-` |
| `Mutations.FreshComponentIdInjective` | src/store/storeActions.ts:224 | Different clock readings give different ids |
| `Mutations.NewComponent` | src/store/storeActions.ts:224-233 | Each supplied field wins; the defaults are id, `microservice`, name equal to the id, level 1, column 1 and no elements |
| `Mutations.UpdateComponents` | src/store/storeActions.ts:247 | Same length and order; exactly the components with the id are patched |
| `Mutations.PatchComponentFields` | src/store/storeActions.ts:247 | A patched component carries every field the patch supplies, and its own value for each other field |
| `Mutations.UpdateComponentsIdempotent` | src/store/storeActions.ts:247 | Applying the same update twice is applying it once |
| `Mutations.RemoveFacts` | src/store/storeActions.ts:258-260 | Keeps exactly the components with another id and the links naming the id at neither end; removing twice is removing once |
| `Mutations.RemoveKeepsElementLinks` | src/store/storeActions.ts:259-260 | A link that names the component id at neither end survives, including links of its elements |
| `Mutations.RemoveLeavesDanglingLink` | src/store/storeActions.ts:259-260 | A concrete model in which a removal leaves a link from an element that no longer exists |
| `Mutations.UpdateElements` | src/store/storeActions.ts:327-333 | Components keep shape and fields; exactly the elements with the id are patched |
| `Mutations.FindPrevDeps` | src/store/storeActions.ts:294-301 | The previous dependencies are those of the last element with the id, or none |
| `Mutations.UpdateLinks` | src/store/storeActions.ts:304-324 | The adding and removing passes compute `NewLinks` |
| `Mutations.UpdateLinksKeepsOthers` | src/store/storeActions.ts:304-324 | Links leaving other ids are untouched, in their order |
| `Mutations.AddMissingFacts` | src/store/storeActions.ts:307-317 | Old links come first and are unchanged. Every new target is linked. Each added link is a `dep-<id>-to-<to>` link to a target not linked before, one per target |
| `Mutations.RemoveDroppedKeeps` | src/store/storeActions.ts:319-323 | A link to a target that was not dropped survives |
| `Mutations.RemoveDroppedRemoves` | src/store/storeActions.ts:319-323 | No link to a dropped target survives |
| `Mutations.RemoveDroppedOnlyRemoves` | src/store/storeActions.ts:319-323 | The removing pass creates no link |
| `Mutations.UpdateLinksTargets` | src/store/storeActions.ts:304-324 | With no new dependencies the links are unchanged. Otherwise every new target is linked, dropped targets are unlinked, and nothing else is linked anew |
| `Mutations.UpdateLinksInStep` | src/store/storeActions.ts:304-324 | If the links leaving the id matched the previous targets, they match the new targets afterwards |
| `StoreActions.LoadedModel` | src/store/storeActions.ts:112-127 | A loaded model always has component types |
| `StoreActions.LoadedTypesOfDocument` | src/store/storeActions.ts:113-118 | Without a `componentTypes` array, the types are the distinct types of the document's components |
| `StoreActions.Store.constructor` | src/store/storeTypes.ts:3-29 | The store's `model` starts as `defaultModel` (version 1, no components, no links, no types, empty style); its `links`, `componentTypes` and `selectedId` start empty |
| `StoreActions.Store.SetModel` | src/store/storeActions.ts:8-19 | Installs the model, mirrors its links and types, and keeps the selection |
| `StoreActions.Store.SetModelFromYaml` | src/store/storeActions.ts:22-134 | A failure returns its message and changes nothing; a success installs the loaded model |
| `StoreActions.Store.ToYaml` | src/store/storeActions.ts:137-193 | The document written is version, the encoded components, style and `componentTypes ?? []`, with no links; the store is unchanged |
| `StoreActions.Store.Select` | src/store/storeActions.ts:210-216 | Sets the selection only |
| `StoreActions.Store.AddComponent` | src/store/storeActions.ts:219-238 | Appends the new component, selects it and returns it |
| `StoreActions.Store.UpdateComponent` | src/store/storeActions.ts:241-250 | The components become `UpdateComponents`; nothing else changes |
| `StoreActions.Store.RemoveComponent` | src/store/storeActions.ts:253-264 | Components and links are filtered; the selection is cleared exactly when it was the id |
| `StoreActions.Store.UpdateElement` | src/store/storeActions.ts:282-336 | Elements are patched and links follow `NewLinks` from the previous dependencies |
| `LegacyStore.Store.constructor` | src/store/store.ts:26-36 | The store starts with the default model, no links and no selection |
| `LegacyStore.Store.SetModel` | src/store/store.ts:37-43 | Installs the model, mirrors its links, and keeps the selection |
| `LegacyStore.Store.SetModelFromYaml` | src/store/store.ts:44-143 | The same load, with the document's `componentTypes` ignored |
| `LegacyStore.Store.ToYaml` | src/store/store.ts:144-199 | The document written is version, the encoded components and style, with no links and no types |
| `LegacyStore.Store.Select` | src/store/store.ts:211-213 | Sets the selection only |
| `LegacyStore.Store.AddComponent` | src/store/store.ts:215-230 | Appends the new component, selects it and returns it |
| `LegacyStore.Store.UpdateComponent` | src/store/store.ts:232-236 | The components become `UpdateComponents` |
| `LegacyStore.Store.RemoveComponent` | src/store/store.ts:238-246 | Components and links are filtered; the selection is cleared exactly when it was the id |
| `LegacyStore.Store.UpdateElement` | src/store/store.ts:259-309 | Elements are patched and links follow `NewLinks` |
| `Layout.HeightFacts` | src/utils/d3Layout.ts:41-45 | The height is `max(304, 64 n + 128)` for `n` elements, at least 304, and never smaller for more elements |
| `Layout.SortedSet` | src/utils/d3Layout.ts:22-28 | Sorted keys: strictly increasing, the same values |
| `Layout.IncreasingUnique` | src/utils/d3Layout.ts:22-28 | Two increasing lists with the same values are equal, so key order does not matter |
| `Layout.ColsMeaning` | src/utils/d3Layout.ts:16-17 | The column and level keys are exactly those of the components |
| `Layout.PushComponent` | src/utils/d3Layout.ts:16-20 | One turn of the grid loop adds the component to its cell only, creating the missing keys |
| `Layout.GridInvStep` | src/utils/d3Layout.ts:15-21 | One push keeps the grid loop's invariant: every cell holds its components so far and the keys are the columns and levels seen so far |
| `Layout.GridStep` | src/utils/d3Layout.ts:15-21 | Cells grow by one component at a time |
| `Layout.BuildGrid` | src/utils/d3Layout.ts:14-28 | Each grid cell holds its components in list order, and the keys are exactly the columns and levels in use |
| `Layout.StackCell` | src/utils/d3Layout.ts:40-52 | The cell's components are stacked at the cursor, one below the other |
| `Layout.StackColumn` | src/utils/d3Layout.ts:33-54 | A column is stacked from y 0 through its levels in ascending order |
| `Layout.ComputeComponentPositions` | src/utils/d3Layout.ts:11-56 | The loops compute `ComponentPositions` |
| `Layout.StackRunAt` | src/utils/d3Layout.ts:47-48 | The last component with an id sits at the height of the components before it |
| `Layout.PositionsDomain` | src/utils/d3Layout.ts:31-55 | Every component id gets a position, and nothing else does |
| `Layout.PositionsX` | src/utils/d3Layout.ts:46 | A position's x is that of the column of a component with that id |
| `Layout.ColumnRunOrder` | src/utils/d3Layout.ts:38-40 | A column lists each of its components once: by level ascending, then list order |
| `Layout.PositionInColumn` | src/utils/d3Layout.ts:35-50 | With unique ids, the k-th component in a column has the column's x and, as y, the heights above it added up; the first has y 0 |
| `Layout.ColumnStacking` | src/utils/d3Layout.ts:47-50 | Within a column, components do not overlap and y strictly increases; each starts where the one before it ends |
| `Layout.ComputeElementPositions` | src/utils/d3Layout.ts:58-75 | The loops compute `ElementPositions` |
| `Layout.ElementRectFacts` | src/utils/d3Layout.ts:64-71 | Element `i` is 240 by 40 at `(x + 40, y + 60 + 64 i)`, so consecutive boxes are 24 apart |
| `Layout.ElementInsideComponent` | src/utils/d3Layout.ts:64-69 | Every element box lies inside its component's box |
| `Layout.ElementPositionsDomain` | src/utils/d3Layout.ts:60-73 | Exactly the element ids get a box |
| `Layout.ElementPositionAt` | src/utils/d3Layout.ts:60-71 | With unique element ids, an element's box is the one for its index, placed from the parent position or its fallback |
| `Layout.MaxOrZero` | src/utils/d3Layout.ts:78 | `Math.max(0, ...)`: an upper bound, never negative, and 0 or attained |
| `Layout.CanvasSize` | src/utils/d3Layout.ts:77-81 | Every origin is at least 440 and 360 inside the canvas; the size is at least (440, 360), the margin is attained or minimal, and no positions give (440, 360) |
| `Layout.TallComponentPassesMargin` | src/utils/d3Layout.ts:79 | A component with four or more elements is taller than the 360 margin that `computeCanvasSize` adds below the lowest position |
| `Layout.TallComponentCutOff` | src/utils/d3Layout.ts:77-81 | A component with four or more elements placed at the lowest position (not above 0) reaches below the canvas height |

## Left out

- **Outside the core logic.**
  - YAML text: `yaml.load` is an input (`Parsed`: a thrown message or a document) and `yaml.dump` is dropped, so `toYaml` stops at the object it would dump. The `catch` that yields `""` is therefore not modelled.
  - `localStorage` and `loadFromStorage` (`src/store/storeActions.ts:196-208`, `src/store/store.ts:200-208`).
  - `setStyleConfig`, which only copies a style object into the state.
  - Clocks, file reading and the network:
    - `Date.now()` is the parameter `now` of `AddComponent`;
    - `FileReader` and `JSON.parse` are the input `FileContents`;
    - the worker's `fetch` calls, `resolveSwaggerJsonUrl`, `handleUrlImport` and `extractConfigFromJs` (which runs downloaded JavaScript) are not modelled.
  - The regular expression of `extractJsUrl` is not modelled: `ExtractJsUrl` receives its captured group.
  - React rendering, effects, keyboard handlers, d3 drawing, zoom and drag, the Monaco editor, and every dialog's `onClose`, loading and error flags.
- **Simplifications of JavaScript values.**
  - Fields besides id, name, type, level, column, elements, method and path (the open `[k: string]: any` bag) are not modelled.
  - An explicit `undefined` inside a patch spread is modelled as an absent field.
  - `null` documents, and non-array values where arrays are expected, are not modelled.
  - `Number()` on non-numeric `column` or `level` is not modelled: both are integers here.
  - An absent component or element `id`, link `from` or `to`, or dependency `to` is modelled as the empty string. That merges it with an explicit `""`. The lines below give the places where the two differ.
- `Decode.Message`: where the source's template literal prints `undefined` for an absent id or endpoint, the model's message shows an empty string, as in `references unknown source ''`.
- `Decode.OwnLinks`: the id generated for a dependency without `to`, or for an element without `id`, has an empty part where the source has `undefined`, as in `dep-a-to-`.
- `Encode.ElMapIndexes`: an element without `id` is indexed under `""`, where the source's `elMap.set` keys it under `undefined` (`src/store/storeActions.ts:153`). A stored link with `from: ""` is then written as that element's dependency, where the source sends it to `topLinks` and drops it. This carries into `StoreActions.Store.ToYaml` and `LegacyStore.Store.ToYaml`.
- `Mutations.UpdateComponents`, `Mutations.RemoveFacts`, `Mutations.UpdateElements` and `Mutations.UpdateLinks`: called with the id `""`, they match components, elements and links with an absent id or endpoint, which the source's `=== id` tests do not match (`src/store/storeActions.ts:247`, `:258`, `:297`, `:330`).
- `Decode.FirstElementMap`: an id-less component is keyed under `""`, while the source keys it under `undefined`. So a top-level link without `from` resolves to that component's first element, where the source reports an unknown source.
- **Layout.** The unused `totalElementsHeight` (`src/utils/d3Layout.ts:63`) is not modelled. Halving `(COL_WIDTH - width) / 2` is exact on these constants. Coordinates are unbounded integers rather than floating point.
- **Maps.** On a repeated key, a JavaScript `Map` keeps the first insertion position, which Dafny maps do not record. Only the values are modelled. `computeCanvasSize` therefore takes the list of position values.
- `Text.ToUpper`: maps only the ASCII letters `a`-`z` to upper case, one character for one. JavaScript's `toUpperCase` also maps the other cased Unicode letters and can lengthen a string (`ß` becomes `SS`). HTTP method keys of an OpenAPI document are ASCII, so the routes agree on them.
- `StoreActions.Store.constructor`: the creator of the current store is not part of this model. Its initial `links`, `componentTypes` and `selectedId` are taken to be empty, as the older creator sets them (`src/store/store.ts:33-36`).
- `StyleLookup.GetStyle`: only the case of a type without an entry is stated in the function's own contract. The three overlay rules are stated by `GetStylePrecedence`.
- **Identical chain code.** The three identical copies of `getChainIds` are modelled once, in `ChainIds`. They are in `src/components/ChainFilter.tsx`, `src/components/canvas_area/ChainFilter.tsx` (lines 7-49) and `src/components/canvas_area/ActionBar.tsx` (lines 7-50).
- **Identical Show and Disable flag.** `ChainPanel.Panel` is the Show and Disable flag of both chain filter panels. The canvas-area copy is `src/components/canvas_area/ChainFilter.tsx:54` and `src/components/canvas_area/ChainFilter.tsx:83-96`. The inline projection in `src/App.tsx` is modelled by `App.RenderedModel` through `ChainFilterUtils.ApplyChainFilter`, because the two are the same computation.
- **Identical store code.** `src/store/store.ts` repeats the loading, saving and mutation code of `src/store/storeActions.ts`. Both stores call one model of it in `Decode`, `Encode` and `Mutations`.
- **Palette and editor.** `src/components/SwaggerImport.tsx` and the palette and editor components that only forward to the store are not modelled.
