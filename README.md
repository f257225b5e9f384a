# gloom component engine in Dafny

This project models the component engine of the gloom front-end framework
(`core/template/component.js`). A `Component` is built from a tagged template
and its interpolated arguments. The parsed tree is interned in a process-wide
cache keyed by the template with all whitespace removed. Rendering walks the
tree with two cursors. The first, `idx`, points into the argument list. The
second, `refIdx`, points into the per-slot binding table `#refToArgs`. That table
records what each interpolation slot is bound to: a component anchor, a tag
name, a text node, an attribute, an event, a ref, a scoped-css key or a reactive
subscription.

`update` reconciles a new argument list in three phases:
1. Compute the changed slots, and patch component, component-list and
   category-changed slots in place.
2. Patch attribute, event, ref and text slots, and collect the component slots.
3. Re-render those component slots from last to first.

`dispose` walks the subscription list, removes the root nodes and runs the
dispose callbacks.

Modules:
- `Template` (template.dfy) holds the tree shape, the JavaScript `\s` whitespace
  class, the cache key, and the cache. The cache is both a value (`Resolve`) and a
  mutable class (`TreeCache`).
- `Components` (component.dfy) holds the argument kinds, the classification
  predicates, the slot descriptors, specification functions for every phase, and
  the `Component` class. The class keeps the source's own mutable fields
  (`args`, `refToArgs`, `root`, `subs`, `cssKeys` and the callback lists). Its
  methods run the source's loops and are proved against the specification
  functions.
- `Findings` (findings.dfy) models two loops exactly as written, with lemmas
  that show where they go wrong.

Modelling choices:
- DOM nodes are opaque ids (`NodeId`). Nodes are created by the `Dom` oracle
  or, for a component anchor, from a counter; creating a node is not an effect.
- What the engine does outside its own fields is returned as a trace of
  `Effect`s: subscribe and unsubscribe, add and remove listener, attribute
  writes, text writes, ref assignment, `classList` additions, `before` (the
  component anchor), `after`, `append`, node removal, the mount, dispose and
  error callbacks, and the nested `update`, `render` and `dispose` of a child
  component (`NestedUpdate`, `NestedRender`, `Disposed`). A trace, together with
  the error that ended it, is a `Run`.
- A thrown exception is an `Error` value: structural error, heterogeneous list,
  no match, or a TypeError through `undefined`.
- The collaborators in `dom.js` (`createElement`, `createComponent`,
  `createComponentList`, `createFromAnyReactive`) are the fields of an oracle
  value `Dom`, passed in as a parameter. The component factories receive the
  arguments after the tag, the table and the slot, and return a new table, as
  the source hands them `refToArgs` and `refIdx`. The reactive factory receives
  the reactive, all the arguments, the cursor `idx`, the table and the slot, and
  returns a new table, as the source hands it `args`, `idx`, `refToArgs` and
  `refIdx` (lines 174 and 188).
- The binding table is `map<nat, Descriptor>`. A missing key is the sparse
  array's `undefined`.
- A descriptor is a record of the same flags the JavaScript object carries. The
  source sets and keeps flags in place (for example `isSubscription` at line
  591), so the model does not use one variant per role.
- The invoker's table for a `Children` expansion is threaded through
  `CreateDomRecursive` as a value and returned. The source mutates the
  invoker's array in place; the effect on it is the same.
- `isEqualTo` compares the tree by identity. The model keeps the cache object
  and the tree's id in each component and compares both.

## Model

| member | source | states |
|---|---|---|
| Template.CacheKeyHasNoWhitespace | core/template/component.js:106 | the cache key contains no whitespace and is no longer than the template |
| Template.CacheKeyIgnoresWhitespace | core/template/component.js:106 | inserting a run of whitespace anywhere in a template leaves its key unchanged |
| Template.CacheKeyFixedPoint | core/template/component.js:106 | a text is its own key exactly when it contains no whitespace |
| Template.CacheKeyIdempotent | core/template/component.js:106 | removing whitespace twice gives the same key as once |
| Template.CacheKeyOfWhitespace | core/template/component.js:106 | a template made only of whitespace has the empty key |
| Template.CacheKeyConcat | core/template/component.js:106 | the key of a concatenation is the concatenation of the keys, as a global replacement is |
| Template.Resolve | core/template/component.js:104-117 | a hit returns the cached tree and leaves the cache unchanged; a miss parses, stores the tree under the key with a fresh id and keeps every earlier entry; the cache stays injective |
| Template.ResolveIdentity | core/template/component.js:104-117 | two lookups against one cache give the same tree exactly when the two templates have the same key |
| Template.TreeCache.Lookup | core/template/component.js:108-115 | the mutable cache steps exactly as `Resolve` does and returns the tree stored under the returned id |
| Template.TreeCache.constructor | core/template/component.js:44 | the cache starts empty |
| Components.Component.constructor | core/template/component.js:104-117 | the component's tree is the one the cache holds for its key; the table is empty; there are no root nodes, subscriptions or css keys yet |
| Components.SharedTree | core/template/component.js:842-849 | two components built against one cache are equal under `isEqualTo` exactly when their templates differ only in whitespace, and then they hold the same tree |
| Components.ComponentListChecksFirstOnly | core/template/component.js:28-34 | whether a non-empty array is a component list depends on its first element alone; an array starting with a component is a list even when its last element is not a component |
| Components.IsChildrenLeaf | core/template/component.js:13 | a leaf is a `Children` placeholder when its tag is the static name `Children`, or when its tag is a hole and the argument under the cursor is the string "Children" |
| Components.IsRef | core/template/component.js:19 | an argument is an unbound ref when it is a ref object whose `element` is empty, as carried by the argument value |
| Components.IsScopedCss | core/template/component.js:26 | an argument is a scoped style when it is an object carrying a string style key |
| Components.IsComponentList | core/template/component.js:34 | an argument is a component list when it is an array that is empty or whose first element is a component |
| Components.Component.CreateElement | core/template/component.js:129-219 | the created element, the new table, subscription list and counters, the trace and the error are exactly those of `CreateElementRun` on the table and state before the call |
| Components.CreateElementBindings | core/template/component.js:129-219 | a static tag uses no argument and changes nothing; a literal dynamic tag uses one argument, is the factory's element, and makes the slot a tag-name slot (with the leaf's text-node flag) rooted at that element, or appends it to an existing slot's roots; a component or list inserts one fresh anchor before its first node and roots the slot at it; a reactive is the factory's result, given the arguments, the cursor and the table; it puts one subscription at the head of the list and at the end of the slot's list in the table the factory left, fails exactly when that table leaves the slot unbound, and leaves every other slot as the factory left it; only a missing property is ever thrown; no css key changes |
| Components.CreateElementNested | core/template/component.js:141-172 | a component or list in tag position is the element its factory returned for the arguments after the tag, the table and the slot; an unbound slot becomes a component slot rooted at the anchor and carrying the leaf as `children`, a bound one gains the anchor as a root; every other slot is as the factory left it |
| Components.CreateElementFrame | core/template/component.js:129-219 | when the factory writes only the slots the leaf consumes (a reactive factory only the leaf's own slot), `#createElement` writes no slot outside `refIdx` up to the slots it used |
| Components.BindRoot | core/template/component.js:147-212 | binding a node to a slot appends it to an existing descriptor's root list or creates the given descriptor, and leaves every other slot alone |
| Components.Component.BindHole | core/template/component.js:238-348 | the new table, subscription list, handle counter and css keys, the trace and the error are exactly those of `BindHoleRun` |
| Components.BindHoleRoles | core/template/component.js:246-345 | a fresh slot bound by a reactive becomes an attribute-value subscription slot under the attribute name with the one new subscription; by an `@` function an event slot under the `@`-prefixed name; by an unset ref a ref slot holding that ref; by a css marker a css-key slot; all rooted at the element. A slot bound before keeps its role and gains the element (and a reactive's subscription). A literal, or a ref already set, is written as attribute text and binds nothing. An event registers a wrapping listener under the name without `@` |
| Components.BindHoleWrites | core/template/component.js:246-345 | one interpolated attribute writes no slot but its own |
| Components.BindHoleRoots | core/template/component.js:258-341 | at its slot the root list only grows, by the element unless the value is written verbatim; a fresh slot is rooted at the element alone, and stays unbound for a verbatim value |
| Components.BindHoleState | core/template/component.js:241-341 | a subscription is pushed at the head exactly for a reactive, a css key is appended exactly for a css marker, and no anchor node is allocated |
| Components.BindHoleTouches | core/template/component.js:238-348 | every effect is on the element; it throws, with a missing property, exactly when a reactive meets a bound slot that has no subscription list |
| Components.ListenerNeverRemoved | core/template/component.js:303-316 | for an event slot bound fresh, every listener removal that clearing the slot emits is on the element but under the `@` name and with the raw handler, so it never matches the registered wrapped listener without `@` |
| Components.Component.SetAttributes | core/template/component.js:231-354 | the returned cursor, the new table and state, the trace and the error are exactly those of `SetAttributesRun` over all the attributes |
| Components.Component.SetAttributeAt | core/template/component.js:236-351 | one attribute extends `SetAttributesRun` by one step: a hole binds the next argument at the next slot, a literal value is written as text |
| Components.SetAttributesCursor | core/template/component.js:231-354 | the cursor moves by the number of holes on success and by no more on failure; the only failure is a missing property; without holes nothing is bound and nothing fails |
| Components.SetAttributesWrites | core/template/component.js:231-354 | only the slots from `refIdx` up to the holes reached are written |
| Components.SetAttributesRoots | core/template/component.js:231-354 | root lists only grow and every newly bound slot is rooted at the element |
| Components.SetAttributesState | core/template/component.js:231-354 | the subscriptions already there stay at the tail of the list, css keys only grow, and no anchor node is allocated |
| Components.SetAttributesTouches | core/template/component.js:231-354 | every effect, including the `classList` addition of the css keys, is on the element |
| Components.SetAttributesBindings | core/template/component.js:236-348 | after a successful run, every hole whose slot was free holds the descriptor of its own argument's kind, rooted at the element, or stays unbound when the argument is written verbatim |
| Components.SetAttributesErrorSticks | core/template/component.js:231-354 | once a hole throws, the later attributes change nothing |
| Components.Component.InstantiateLeaf | core/template/component.js:406-447 | the created element, cursor, table, state, trace and error of one element leaf are exactly those of `InstantiateLeafRun` |
| Components.Component.LeafAttributes | core/template/component.js:417-447 | after the element is created, the leaf's attributes are set or recorded as `LeafAttributesRun` says |
| Components.Component.BindNodeless | core/template/component.js:431-447 | the loop for a leaf that takes no attributes produces exactly `NodelessRun` |
| Components.NodelessBindings | core/template/component.js:431-447 | each hole's slot holds a node-less attribute-value descriptor with the attribute's name, and no other slot is written |
| Components.InstantiateLeafCursor | core/template/component.js:406-447 | on success the cursor moves by the slots the tag used plus one per hole; the only failure is a missing property; a static leaf without holes uses no slot and changes no table |
| Components.InstantiateLeafWrites | core/template/component.js:406-447 | under a confined factory, only the slots the leaf consumed are written |
| Components.InstantiateLeafNodeless | core/template/component.js:431-447 | when the element takes no attributes, each hole's slot holds the node-less descriptor naming that attribute |
| Components.Component.CreateDomRecursive | core/template/component.js:366-470 | the nodes, cursor, both tables, state, trace and error are exactly those of `WalkFrom` over the forest |
| Components.Component.ExpandChildren | core/template/component.js:378-403 | a `Children` leaf steps the walk as `WalkPlaceholder` does: it throws if the leaf has attributes or children, else walks the invoker's subtree against the invoker's table |
| Components.Component.ElementStep | core/template/component.js:406-462 | an element leaf steps the walk as `WalkLeaf` does on its instantiation |
| Components.Component.ElementChildren | core/template/component.js:452-462 | an element with one node walks its children from the advanced cursors and records their append to it |
| Components.WalkCursors | core/template/component.js:366-470 | under confined factories, the walk writes no slot outside `refIdx` up to the slots consumed, and never writes the invoker's table below the invoker's slot |
| Components.WalkStructuralError | core/template/component.js:378-382 | a structural error implies a leaf with attributes or children that is either a static `Children` tag or a dynamic tag among arguments holding the string "Children", in the forest or in the invoker's subtree; a static `Children` leaf with attributes or children at any top-level position of the forest always makes the walk throw |
| Components.WalkStaticForest | core/template/component.js:366-470 | a forest of static tags without holes and without `Children` leaves consumes no slot, writes neither table, and does not throw |
| Components.ChildrenLeafConsumesNothing | core/template/component.js:378-403 | a well-formed `Children` placeholder consumes no slot of its own component, leaves that table as it was, returns the nodes of the invoker's subtree, and writes the invoker's table only from the invoker's slot on |
| Components.Component.ClearReferences | core/template/component.js:476-505 | a missing descriptor throws and nothing changes; otherwise the trace is `ClearRun` of the slot's descriptor, and the subscription list loses exactly that slot's subscriptions |
| Components.ClearReleasesSubscriptions | core/template/component.js:477-490 | after clearing a subscription slot, exactly the subscriptions it recorded are gone from the list |
| Components.ChangedSlotsExact | core/template/component.js:512-629 | the changed set holds exactly the indices below the new length whose old and new arguments are not identical, in strictly ascending order |
| Components.NothingChanged | core/template/component.js:512-522 | when every new argument is identical to the old one, the changed set is empty |
| Components.Component.UpdateInternalState | core/template/component.js:512-630 | the new arguments, table, subscription list and handle counter, and the trace and error, are those of `Phase1Run`: the new arguments in order, identical ones skipped, each other one reconciled by `SlotStep`, the first error stopping the loop; on success the returned indices are the changed set |
| Components.Phase1Frame | core/template/component.js:512-630 | a slot phase 1 skips, and every slot past the new arguments, keeps its argument and descriptor |
| Components.Phase1Identical | core/template/component.js:512-630 | identical arguments leave the state as it was and emit nothing |
| Components.Phase1ErrorSticks | core/template/component.js:512-630 | once a slot throws, the later new arguments change nothing |
| Components.Component.ReconcileSlot | core/template/component.js:524-627 | the new state and trace are those of `SlotStep`: two components of one template record a nested update and keep the old one; of different templates record the old one's disposal and store the new one; two lists store the old array reconciled by `ListRun`; anything else rebinds the descriptor by `RebindState`, storing the new argument on success, and a missing descriptor throws |
| Components.SlotStepFrame | core/template/component.js:524-627 | reconciling one slot leaves every other slot's argument and descriptor as it was |
| Components.Component.ReconcileList | core/template/component.js:532-569 | the list loop produces exactly the items and trace of `ListRun` |
| Components.Component.ReconcileShared | core/template/component.js:537-550 | the loop over the common prefix produces exactly `ReconcilePairs` |
| Components.Component.DisposeTail | core/template/component.js:552-561 | the loop over the trailing old elements produces exactly `TrimRun` |
| Components.Component.AppendTail | core/template/component.js:562-568 | the loop over the extra new elements produces exactly `ExtendRun` |
| Components.ReconcilePairs | core/template/component.js:537-550 | the element-wise pass keeps the old list's length |
| Components.PairsItems | core/template/component.js:537-550 | after the pairs, every position holds the old element when the templates match and the new one otherwise; both elements are components |
| Components.PairsDisposals | core/template/component.js:537-550 | the pairs dispose exactly the old elements at the mismatched positions, in order |
| Components.PairsUpdates | core/template/component.js:537-550 | every matched pair records a nested update with the new element's arguments |
| Components.TrimComponents | core/template/component.js:552-561 | every old element past the new length is a component when the trim succeeds |
| Components.TrimDisposals | core/template/component.js:552-561 | the trim disposes exactly the old elements past the new length, in order |
| Components.ExtendRun | core/template/component.js:562-568 | appending the extra new elements emits no effect |
| Components.ExtendShape | core/template/component.js:562-568 | the extension appends exactly the new list's extra elements, all components |
| Components.ListRunShape | core/template/component.js:532-569 | after a successful reconciliation the list has the new length; shared positions keep the old element when templates match and take the new one otherwise; extra new elements are appended in order; every element on both sides is a component |
| Components.ListRunDisposals | core/template/component.js:537-561 | the components disposed are exactly the old elements at the positions whose template differs or that lie past the new length, each once, in order |
| Components.DisposedPositionsExact | core/template/component.js:537-561 | a position is disposed exactly when it is past the new length or its template differs, and the positions ascend |
| Components.ListRunUpdates | core/template/component.js:544-545 | every shared position with a matching template is updated with the new element's arguments |
| Components.ListRunRejectsNonComponents | core/template/component.js:541-566 | a non-component element in either list makes the reconciliation throw |
| Components.Component.Rebind | core/template/component.js:570-627 | a missing descriptor throws and nothing changes; otherwise the trace, the slot's new descriptor, the subscription list and the handle counter are those of `RebindState` |
| Components.Component.SubscribeRoots | core/template/component.js:594-610 | each root node is subscribed once, in order, each subscription becoming the head of the list, with consecutive fresh handles |
| Components.RebindKeepsRoots | core/template/component.js:570-619 | a category change keeps the slot's root list; a change to a component, list or ref leaves only that role; a change to a reactive subscribes each root node exactly once, records those subscriptions on the slot and puts them at the head of the list |
| Components.RebindToComponentNeverRenders | core/template/component.js:570-586 | a successful category change to a component or component list leaves the slot with the component flag and no placeholder subtree, so phase 3 on it throws for a component and for a non-empty list, and for an empty list exactly when the slot has no root |
| Components.RenderListWithoutChildren | core/template/component.js:727-734 | without a placeholder subtree, the list loop of phase 3 throws on its first element and emits nothing |
| Components.RebindNoMatch | core/template/component.js:619-623 | a change to an unclassifiable value throws exactly when the old descriptor has no role that clearing releases, and then nothing is touched |
| Components.RefRebindThenClearFails | core/template/component.js:610-617 | a slot rebound to a ref keeps no ref object, so the next category change of that slot throws while clearing |
| Components.Component.PatchAttribute | core/template/component.js:656-696 | phase 2 on one slot with a descriptor is `PatchSlot` of its argument and descriptor |
| Components.PatchSlotTargetsOwnSlot | core/template/component.js:656-672 | phase 2 on an event or attribute slot touches each of that slot's own roots once, under that slot's own attribute name |
| Components.PatchedListenerUnderPrefixedName | core/template/component.js:656-663 | for an event slot bound fresh, phase 2 registers the new handler raw under the `@`-prefixed name, and never under the unprefixed name with which the instantiation listener was registered |
| Components.Component.UpdateAttributes | core/template/component.js:638-698 | the phase-2 loop produces the trace of `Phase2Run`, and on success returns the changed slots that have the component flag |
| Components.ComponentSlotsMembers | core/template/component.js:654-655 | a slot is returned by phase 2 exactly when it is changed and its descriptor has the component flag |
| Components.ComponentSlotsSubsequence | core/template/component.js:638-698 | an ascending changed set yields an ascending component set, since phase 2 keeps the order |
| Components.Phase2ErrorSticks | core/template/component.js:638-698 | once phase 2 throws at a slot, no later slot contributes an effect |
| Components.Component.PatchComponent | core/template/component.js:709-737 | one phase-3 step is `PatchComponentSlot` on the slot's argument and descriptor |
| Components.Component.RenderItems | core/template/component.js:724-734 | the list loop of phase 3 produces exactly `RenderList` |
| Components.PatchComponentSlotSlots | core/template/component.js:709-737 | every effect of a phase-3 step belongs to that step's slot |
| Components.RenderListSlots | core/template/component.js:724-734 | re-rendering a component list renders only at that list's slot |
| Components.RenderListErrorSticks | core/template/component.js:724-734 | once one list element fails to render, the later ones add nothing |
| Components.Component.UpdateComponents | core/template/component.js:704-741 | the phase-3 loop produces the trace of `Phase3Run` over the component slots reversed |
| Components.Phase3Descending | core/template/component.js:704-741 | over an ascending component set, phase 3 emits its effects slot by slot in strictly descending slot order, and only at those slots |
| Components.Phase3ErrorSticks | core/template/component.js:704-741 | once one slot fails, the later slots do not run |
| Components.Component.Update | core/template/component.js:794-813 | the new state is that of `UpdateRun` (phase 1, then phase 2 over the changed slots, then phase 3 over their component slots from last to first, stopping at the first error); the trace is that run's, followed, when it threw, by every error callback with the error, which is not re-thrown; an all-identical argument list emits nothing and changes nothing |
| Components.UpdateIdentical | core/template/component.js:794-813 | an update with identical arguments changes nothing and emits nothing |
| Components.TextToComponentUpdateThrows | core/template/component.js:794-813 | updating a slot holding text to a component stores the component and rebinds the slot as a bare component slot, then the update throws in phase 3 with nothing emitted |
| Components.Component.Dispose | core/template/component.js:819-837 | the trace is every subscription from the head in list order, then every root node's removal, then every dispose callback; before any render it throws after the unsubscriptions; no field changes |
| Components.DisposalsOfDisposalRun | core/template/component.js:819-837 | a dispose records no disposal of a nested component |
| Components.Component.Render | core/template/component.js:747-786 | with root nodes present it returns them and reruns every mount callback, leaving the table, the root, the subscriptions and the css keys unchanged; a successful render stores and returns the nodes and then runs the mount callbacks; a failed render passes the error to every error callback, keeps the old root and returns no nodes |
| Components.RenderTwice | core/template/component.js:747-753 | a second render after one that produced nodes returns the same nodes and reruns the mount callbacks |
| Findings.PatchSlotAsWrittenAgrees | core/template/component.js:656-672 | the phase-2 event and attribute loops as written agree with the intended ones when every slot below the root count has the patched slot's attribute name |
| Findings.ShadowedListenerCounterexample | core/template/component.js:656-672 | as written, phase 2 registers the `@click` handler of slot 1 under slot 0's attribute name `title`; the intended patch uses `@click` |
| Findings.ShadowedRebindCounterexample | core/template/component.js:594-610 | as written, rebinding a one-slot table with two roots to a reactive subscribes one node and then throws; the intended rebinding subscribes both |

## Left out

- The document itself is not modelled: the effects are recorded, not applied. The nodes a nested `render` produces in phase 3, and the subtree a `dom.js` factory builds, are not tracked.
- ComponentParser, `Signal`, `Effect`, `List` and `dom.js` are not part of this model. The parser is a parameter of the constructor, and the `dom.js` creators are the `Dom` oracle. Each oracle creation returns at least one node, by the type `Tags`. A subscription is an opaque handle. `List.append` makes the new node the head.
- Components.CreateElementFrame: the write frame of `#createElement`, and through it of Components.InstantiateLeafWrites, Components.WalkCursors and Components.ChildrenLeafConsumesNothing, is proved only for factories that write the slots the leaf consumes, and for a reactive factory only the leaf's own slot (`ConfinedCall`); what `dom.js` writes is not part of this model.
- Components.WalkStructuralError: the must-throw direction is stated for static `Children` leaves only, and for a dynamic tag the implied leaf is one whose arguments hold the string "Children" somewhere, not necessarily under the cursor. A dynamic tag is a `Children` leaf when the argument under the cursor is that string, and which argument that is depends on the slots consumed before it.
- Components.Component.Update: it requires that the component is not among the components its own new arguments hold (`ReadsAll`), so that reading their templates does not read the state being updated. Components.Component.UpdateInternalState has the same requirement.
- Components.Component.Render: mount and error callbacks are taken not to throw. In the source a throwing mount callback lands in the render's `catch`.
- Components.IsRef: a ref's `element` is read from the argument as it was passed in; the engine's writes to it (`AssignElement`, lines 319, 493 and 675) are recorded but not fed back. The source mutates the one shared ref object, so when the same ref fills two holes it is bound at the first and, being bound by then, is written as an attribute or text at the second; the model binds it at both.
- Components.Same: equality of arguments is strict identity (`===`). The loose `==` at line 518 also coerces between strings, numbers and objects, and that is not modelled.
- Components.PatchSlot: the tag-name path at lines 682-692 builds a node that is never inserted, so it has no effect in the model. The `InvalidCharacterError` that `document.createElement` throws on a bad tag name is not modelled.
- Components.Component.ReconcileSlot: a nested `update`, `render` or `dispose` of a child component is recorded as `NestedUpdate`, `NestedRender` or `Disposed` and not executed; the child's own fields are not changed. The child's `update` and `render` catch their own errors. A child's `dispose` that throws (one never rendered) would stop the parent's phase 1 in the source; the model does not follow the child's state, so it takes the dispose to succeed.
- `console.error` in `render` is left out; the error is returned instead.
- index.js is a demo application and is not part of this model.
- Concurrency, and JavaScript property access on arbitrary objects beyond the argument kinds above, are left out.

## Behaviour kept as written

- `dispose` calls every unsubscribe, but unlinks nothing from the list. It does not dispose nested components. Before the first render it reads `#root` while it is `undefined` and throws (`Components.DisposalRun`).
- `#clearReferences` removes listeners under the `@`-prefixed attribute name, with the raw argument as handler. Registration (line 305, `Components.Component.BindHole`) used the unprefixed name and a wrapping lambda, so a registered listener is never removed (`Components.ListenerNeverRemoved`).
- A category change to a component or a component list (lines 575-586) installs a descriptor with the component flag but no `children`. Phase 3 then reads `desc.children.children` (lines 718 and 729) and throws, so such a slot is never rendered (`Components.RebindToComponentNeverRenders`, `Components.TextToComponentUpdateThrows`). Only an empty list gets through.
- Phase 2 re-registers a changed event handler raw, under the `@`-prefixed attribute name (lines 659-662). No event is dispatched under that name, and the listener registered at instantiation stays, so updating a handler changes nothing that fires (`Components.PatchedListenerUnderPrefixedName`).
- The doc comment of `isComponentList` says the first and the last elements are checked. Only the first is checked (`Components.ComponentListChecksFirstOnly`).
- The text-node loop at lines 678-680 also reuses `i`, but it never reads the descriptor through it, so it behaves as intended.

## Findings

| source | as written | input that shows it | evidently intended | confidence | as-written member | corrected member |
|---|---|---|---|---|---|---|
| core/template/component.js:656-672 | the inner `let i` shadows the slot index, so root `k`'s listener or attribute name is read from descriptor `k` | slot 0 an attribute `title` on node 1, slot 1 an event `@click` on node 2; phase 2 on slot 1 | every root of the patched slot uses that slot's attribute name | high, not executed | Findings.PatchSlotAsWritten | Components.PatchSlot |
| core/template/component.js:594-610 | the inner `let i` shadows the slot index, so step `k` compares with slot `k`'s root count, subscribes slot `k`'s `k`-th root and pushes onto slot `k`'s list | a table with only slot 0, whose descriptor has roots 10 and 11, rebound to a signal | subscribe each root of the rebound slot once and record the subscription on that slot | high, not executed | Findings.ReactiveRebindAsWritten | Components.RebindState |
