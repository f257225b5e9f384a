/** The component engine: instantiation of a cached tree into nodes, the per-slot
    binding table, the three-phase update and disposal.

    Nodes, reactive primitives, functions, refs and style markers are opaque:
    they are identified by numbers and carry only the state the engine reads.
    What the engine does to the world outside its own fields (DOM writes,
    subscriptions, callbacks, calls on other components) is returned as a
    trace of effects, so that the order and multiplicity of those actions can
    be stated and proved. */
module Components {
  import opened Template

  type NodeId = nat

  datatype Option<T> = None | Some(value: T)

  /** An interpolated argument, by the kinds the engine tells apart. Object
      kinds carry an identity `id`; two values are the same object exactly when
      their kind and id agree. */
  datatype Arg =
    | Undefined                                        // undefined / null, also a slot past the end
    | Plain(text: string)                              // strings, numbers and any other value used verbatim
    | Comp(c: Component)
    | List(id: nat, items: seq<Arg>)                   // a JavaScript array
    | Reactive(id: nat, isSignal: bool, current: string) // a Signal (`value`) or an Effect (`state`)
    | Func(id: nat)
    | RefObj(id: nat, element: Option<NodeId>)         // an object tagged `__isRef__` with an `element` field
    | ScopedCss(id: nat, key: string)                  // an object whose `__css__Key` is a string

  datatype Error =
    | StructuralError      // `Children` carrying attributes or children
    | Heterogeneous        // a component list holding a non-component
    | NoMatch              // a category change to a value the engine cannot classify
    | UndefinedProperty    // a TypeError: a property read or write through undefined or a primitive

  /** `<Children/>`, or a dynamic tag whose argument is the string "Children". */
  predicate IsChildrenLeaf(leaf: Tree, arg: Arg)
  {
    leaf.tag == Static("Children") || (leaf.tag == Dynamic && arg == Plain("Children"))
  }

  /** A ref whose `element` is still unset. */
  predicate IsRef(v: Arg)
  {
    v.RefObj? && v.element.None?
  }

  predicate IsScopedCss(v: Arg)
  {
    v.ScopedCss?
  }

  /** An array that is empty or whose FIRST element is a component; no other
      element is inspected. */
  predicate IsComponentList(v: Arg)
  {
    v.List? && (|v.items| == 0 || v.items[0].Comp?)
  }

  /** Only the first element decides: a list that starts with a component is a
      component list whatever follows, and one that starts with anything else is not. */
  lemma ComponentListChecksFirstOnly(id: nat, first: Arg, rest: seq<Arg>)
    ensures IsComponentList(List(id, [first] + rest)) <==> first.Comp?
    ensures first.Comp? ==> IsComponentList(List(id, [first] + rest + [Plain("")]))
  {
    assert ([first] + rest + [Plain("")])[0] == first;
  }

  /** A function interpolated under an attribute name starting with `@` is an event handler. */
  predicate IsEventBinding(arg: Arg, name: string)
  {
    arg.Func? && |name| > 0 && name[0] == '@'
  }

  /** A node of the intrusive subscription list: its handle and the reactive it unsubscribes from. */
  datatype Subscription = Subscription(handle: nat, source: nat)

  /** The binding descriptor of one slot: the flag object of the source, every flag
      optional. Flags are set independently, so several may hold at once. */
  datatype Descriptor = Descriptor(
    root: seq<NodeId>,
    isComponent: bool,
    children: Option<Tree>,
    isTagName: bool,
    isTextNode: bool,
    attribute: Option<string>,
    isAttributeValue: bool,
    isEvent: bool,
    isRef: bool,
    ref: Option<Arg>,
    isCssKey: bool,
    isSubscription: bool,
    subscription: Option<seq<Subscription>>)

  /** A descriptor with only its root list set. */
  function Bare(root: seq<NodeId>): Descriptor
  {
    Descriptor(root, false, None, false, false, None, false, false, false, None, false, false, None)
  }

  type Table = map<nat, Descriptor>

  /** The descriptor at a slot, if any (a missing entry is `undefined`). */
  function At(table: Table, k: nat): Option<Descriptor>
  {
    if k in table then Some(table[k]) else None
  }

  /** How a listener was registered: wrapped in a fresh lambda, or the raw function. */
  datatype Handler = Wrapped(fn: Arg) | Raw(fn: Arg)

  /** An action on the world outside this component's own fields. */
  datatype Effect =
    | Subscribe(sub: Subscription, node: NodeId)
    | Unsubscribe(sub: Subscription)
    | AddListener(node: NodeId, event: string, handler: Handler)
    | RemoveListener(node: NodeId, event: string, handler: Handler)
    | SetAttribute(node: NodeId, name: string, value: Arg)
    | SetText(node: NodeId, value: Arg)
    | AssignElement(refTarget: Arg, element: Option<NodeId>)
    | RemoveNode(node: NodeId)
    | RunMount(callback: nat)
    | RunDispose(callback: nat)
    | RunError(callback: nat, error: Error)
    | Disposed(target: Component)
    | NestedUpdate(target: Component, args: seq<Arg>)
    | NestedRender(slot: nat, target: Component, tree: seq<Tree>, args: seq<Arg>)
    | InsertAfter(slot: nat, anchor: NodeId)
    | InsertBefore(node: NodeId, anchor: NodeId)        // `node.before(anchor)`
    | AppendChildren(parent: NodeId, children: seq<NodeId>)
    | AddClasses(node: NodeId, keys: seq<string>)

  /** A trace of effects and the error, if any, that ended it. */
  datatype Run = Run(effects: seq<Effect>, err: Option<Error>)

  const Ok: Run := Run([], None)

  /** Sequential composition: the second part runs only when the first did not fail. */
  function Then(a: Run, b: Run): Run
  {
    if a.err.Some? then a else Run(a.effects + b.effects, b.err)
  }

  /** The argument at a slot; past the end it is `undefined`. */
  function Get(args: seq<Arg>, i: nat): Arg
  {
    if i < |args| then args[i] else Undefined
  }

  /** Assignment to a slot; past the end the array grows, with holes reading as `undefined`. */
  function Store(args: seq<Arg>, i: nat, v: Arg): (r: seq<Arg>)
    ensures |r| == if i < |args| then |args| else i + 1
    ensures Get(r, i) == v
    ensures forall j :: j != i ==> Get(r, j) == Get(args, j)
  {
    if i < |args| then args[i := v]
    else args + seq(i - |args|, _ => Undefined) + [v]
  }

  /** Strict identity, the comparison the engine's `==` performs on these kinds. */
  predicate Same(a: Arg, b: Arg)
  {
    match (a, b)
    case (Undefined, Undefined) => true
    case (Plain(x), Plain(y)) => x == y
    case (Comp(c), Comp(d)) => c == d
    case (List(i, _), List(j, _)) => i == j
    case (Reactive(i, _, _), Reactive(j, _, _)) => i == j
    case (Func(i), Func(j)) => i == j
    case (RefObj(i, _), RefObj(j, _)) => i == j
    case (ScopedCss(i, _), ScopedCss(j, _)) => i == j
    case _ => false
  }

  /** JavaScript `Array.prototype.slice(start, end)` for non-negative bounds. */
  function JsSlice(s: seq<Arg>, start: nat, end: nat): (r: seq<Arg>)
    ensures var lo := if start < |s| then start else |s|;
            var hi := if end < |s| then end else |s|;
            |r| == (if hi <= lo then 0 else hi - lo)
            && forall k :: 0 <= k < |r| ==> r[k] == s[lo + k]
  {
    var lo := if start < |s| then start else |s|;
    var hi := if end < |s| then end else |s|;
    if hi <= lo then [] else s[lo..hi]
  }

  /** The value a patch writes: a reactive's current snapshot, otherwise the value itself. */
  function Snapshot(v: Arg): Arg
  {
    if v.Reactive? then Plain(v.current) else v
  }

  /** A descriptor's attribute name, coerced as `setAttribute` coerces `undefined`. */
  function AttrName(d: Descriptor): string
  {
    if d.attribute.Some? then d.attribute.value else "undefined"
  }

  function Last(nodes: seq<NodeId>): Option<NodeId>
  {
    if |nodes| == 0 then None else Some(nodes[|nodes| - 1])
  }

  function Unsubscriptions(subs: seq<Subscription>): seq<Effect>
  {
    seq(|subs|, k requires 0 <= k < |subs| => Unsubscribe(subs[k]))
  }

  function Removals(nodes: seq<NodeId>): seq<Effect>
  {
    seq(|nodes|, k requires 0 <= k < |nodes| => RemoveNode(nodes[k]))
  }

  function DisposeCallbacks(callbacks: seq<nat>): seq<Effect>
  {
    seq(|callbacks|, k requires 0 <= k < |callbacks| => RunDispose(callbacks[k]))
  }

  function MountCallbacks(callbacks: seq<nat>): seq<Effect>
  {
    seq(|callbacks|, k requires 0 <= k < |callbacks| => RunMount(callbacks[k]))
  }

  function ErrorCallbacks(callbacks: seq<nat>, e: Error): seq<Effect>
  {
    seq(|callbacks|, k requires 0 <= k < |callbacks| => RunError(callbacks[k], e))
  }

  /** What `dispose` does: every subscription from the head along `next` is
      unsubscribed, then every root node is removed, then every dispose callback
      runs. Reading `root` of a component that was never rendered fails after
      the unsubscriptions, before any removal or callback. */
  function DisposalRun(subs: seq<Subscription>, root: Option<seq<NodeId>>, onDispose: seq<nat>): Run
  {
    match root
    case None => Run(Unsubscriptions(subs), Some(UndefinedProperty))
    case Some(nodes) => Run(Unsubscriptions(subs) + Removals(nodes) + DisposeCallbacks(onDispose), None)
  }

  /** Phase 2 for one changed slot whose descriptor is `d`: the role flags are
      tried in the source's order (component, event, attribute value, ref, text
      node, tag name). A component slot is left for phase 3; a tag-name slot
      builds a node that is never inserted, so nothing observable happens. */
  function PatchSlot(self: Arg, d: Descriptor): Run
  {
    var value := Snapshot(self);
    if d.isComponent then Ok
    else if d.isEvent then
      Run(seq(|d.root|, k requires 0 <= k < |d.root| => AddListener(d.root[k], AttrName(d), Raw(self))), None)
    else if d.isAttributeValue then
      Run(seq(|d.root|, k requires 0 <= k < |d.root| => SetAttribute(d.root[k], AttrName(d), value)), None)
    else if d.isRef then
      // a property write on undefined or on a primitive throws in module (strict) code
      if self.Undefined? || self.Plain? then Run([], Some(UndefinedProperty))
      else Run([AssignElement(self, Last(d.root))], None)
    else if d.isTextNode then
      Run(seq(|d.root|, k requires 0 <= k < |d.root| => SetText(d.root[k], value)), None)
    else Ok
  }

  /** Phase 2 on an event or attribute slot touches each of the slot's own roots
      once, under the slot's own attribute name. */
  lemma PatchSlotTargetsOwnSlot(self: Arg, d: Descriptor)
    ensures var r := PatchSlot(self, d);
            forall e :: e in r.effects ==>
              && (e.AddListener? ==> e.node in d.root && e.event == AttrName(d))
              && (e.SetAttribute? ==> e.node in d.root && e.name == AttrName(d))
    ensures var r := PatchSlot(self, d);
            !d.isComponent && (d.isEvent || d.isAttributeValue) ==>
              && r.err.None? && |r.effects| == |d.root|
              && forall k :: 0 <= k < |d.root| ==>
                   (r.effects[k].AddListener? || r.effects[k].SetAttribute?) && r.effects[k].node == d.root[k]
  {
  }

  /** Phase 2 over the changed slots, in the order given. */
  function Phase2Run(toUpdate: seq<nat>, args: seq<Arg>, table: Table): Run
    decreases |toUpdate|
  {
    if |toUpdate| == 0 then Ok
    else
      var i := toUpdate[|toUpdate| - 1];
      Then(Phase2Run(toUpdate[..|toUpdate| - 1], args, table),
           if i in table then PatchSlot(Get(args, i), table[i]) else Run([], Some(UndefinedProperty)))
  }

  /** The changed slots whose descriptor has the component flag, in the given order. */
  function ComponentSlots(toUpdate: seq<nat>, table: Table): seq<nat>
    decreases |toUpdate|
  {
    if |toUpdate| == 0 then []
    else
      var i := toUpdate[|toUpdate| - 1];
      ComponentSlots(toUpdate[..|toUpdate| - 1], table)
        + (if i in table && table[i].isComponent then [i] else [])
  }

  predicate StrictlyIncreasing(s: seq<nat>)
  {
    forall a, b :: 0 <= a < b < |s| ==> s[a] < s[b]
  }

  /** The component slots are exactly the component-role members of the changed slots. */
  lemma {:induction false} ComponentSlotsMembers(toUpdate: seq<nat>, table: Table)
    ensures forall i :: i in ComponentSlots(toUpdate, table)
              <==> i in toUpdate && i in table && table[i].isComponent
    decreases |toUpdate|
  {
    if |toUpdate| > 0 {
      var init := toUpdate[..|toUpdate| - 1];
      var i := toUpdate[|toUpdate| - 1];
      ComponentSlotsMembers(init, table);
      assert toUpdate == init + [i];
    }
  }

  /** The component slots keep the changed slots' ascending order. */
  lemma {:induction false} ComponentSlotsSubsequence(toUpdate: seq<nat>, table: Table)
    requires StrictlyIncreasing(toUpdate)
    ensures StrictlyIncreasing(ComponentSlots(toUpdate, table))
    decreases |toUpdate|
  {
    if |toUpdate| > 0 {
      var init := toUpdate[..|toUpdate| - 1];
      var i := toUpdate[|toUpdate| - 1];
      IncreasingPrefix(toUpdate);
      ComponentSlotsSubsequence(init, table);
      ComponentSlotsMembers(init, table);
      var cs := ComponentSlots(init, table);
      var extra: seq<nat> := if i in table && table[i].isComponent then [i] else [];
      forall x | x in cs ensures x < i {
        var a :| 0 <= a < |init| && init[a] == x;
        assert toUpdate[a] == x;
      }
      IncreasingSnoc(cs, extra);
    }
  }

  lemma IncreasingPrefix(s: seq<nat>)
    requires |s| > 0 && StrictlyIncreasing(s)
    ensures StrictlyIncreasing(s[..|s| - 1])
  {
  }

  lemma IncreasingSnoc(s: seq<nat>, extra: seq<nat>)
    requires StrictlyIncreasing(s) && |extra| <= 1
    requires forall x, y :: x in s && y in extra ==> x < y
    ensures StrictlyIncreasing(s + extra)
  {
    var r := s + extra;
    forall a, b | 0 <= a < b < |r| ensures r[a] < r[b] {
      if b >= |s| {
        assert r[a] in s && r[b] in extra;
      }
    }
  }

  /** Once phase 2 fails on a prefix of the slots, the rest does not run. */
  lemma {:induction false} Phase2ErrorSticks(toUpdate: seq<nat>, n: nat, args: seq<Arg>, table: Table)
    requires n <= |toUpdate| && Phase2Run(toUpdate[..n], args, table).err.Some?
    ensures Phase2Run(toUpdate, args, table) == Phase2Run(toUpdate[..n], args, table)
    decreases |toUpdate| - n
  {
    if n < |toUpdate| {
      assert toUpdate[..n + 1][..n] == toUpdate[..n];
      Phase2ErrorSticks(toUpdate, n + 1, args, table);
    } else {
      assert toUpdate[..n] == toUpdate;
    }
  }

  /** Phase 3 for one deferred slot: a component is rendered with the slot's
      placeholder subtree as children and inserted after the last anchor; a list
      renders every element, then inserts them all. */
  function PatchComponentSlot(slot: nat, self: Arg, d: Option<Descriptor>, args: seq<Arg>): Run
  {
    if self.Comp? then
      if d.None? || |d.value.root| == 0 || d.value.children.None? then Run([], Some(UndefinedProperty))
      else
        var leaf := d.value.children.value;
        Run([NestedRender(slot, self.c, leaf.children, JsSlice(args, slot + 1, leaf.numOfInterpolations + 1)),
             InsertAfter(slot, d.value.root[|d.value.root| - 1])], None)
    else if IsComponentList(self) then
      if d.None? then Run([], Some(UndefinedProperty))
      else Then(RenderList(slot, self.items, d.value, args),
                if |d.value.root| == 0 then Run([], Some(UndefinedProperty))
                else Run([InsertAfter(slot, d.value.root[|d.value.root| - 1])], None))
    else Ok
  }

  /** The list loop of phase 3: each element is rendered in order; a non-component
      element or a descriptor without a placeholder subtree fails. */
  function RenderList(slot: nat, items: seq<Arg>, d: Descriptor, args: seq<Arg>): Run
    decreases |items|
  {
    if |items| == 0 then Ok
    else
      var item := items[|items| - 1];
      Then(RenderList(slot, items[..|items| - 1], d, args),
           if !item.Comp? || d.children.None? then Run([], Some(UndefinedProperty))
           else Run([NestedRender(slot, item.c, d.children.value.children,
                            JsSlice(args, slot + 1, d.children.value.numOfInterpolations + 1))], None))
  }

  /** One more element of the list loop of phase 3. */
  lemma RenderListNext(slot: nat, items: seq<Arg>, k: nat, d: Descriptor, args: seq<Arg>)
    requires k < |items|
    ensures RenderList(slot, items[..k + 1], d, args)
            == Then(RenderList(slot, items[..k], d, args),
                    if !items[k].Comp? || d.children.None? then Run([], Some(UndefinedProperty))
                    else Run([NestedRender(slot, items[k].c, d.children.value.children,
                                     JsSlice(args, slot + 1, d.children.value.numOfInterpolations + 1))], None))
  {
    assert items[..k + 1][..k] == items[..k];
  }

  lemma {:induction false} RenderListErrorSticks(slot: nat, items: seq<Arg>, n: nat, d: Descriptor, args: seq<Arg>)
    requires n <= |items| && RenderList(slot, items[..n], d, args).err.Some?
    ensures RenderList(slot, items, d, args) == RenderList(slot, items[..n], d, args)
    decreases |items| - n
  {
    if n < |items| {
      assert items[..n + 1][..n] == items[..n];
      RenderListErrorSticks(slot, items, n + 1, d, args);
    } else {
      assert items[..n] == items;
    }
  }

  function Reverse<T>(s: seq<T>): (r: seq<T>)
    ensures |r| == |s| && forall k :: 0 <= k < |s| ==> r[k] == s[|s| - 1 - k]
  {
    if |s| == 0 then [] else Reverse(s[1..]) + [s[0]]
  }

  /** Phase 3 visits the deferred slots in the order given. */
  function Phase3Run(order: seq<nat>, args: seq<Arg>, table: Table): Run
    decreases |order|
  {
    if |order| == 0 then Ok
    else
      var i := order[|order| - 1];
      Then(Phase3Run(order[..|order| - 1], args, table), PatchComponentSlot(i, Get(args, i), At(table, i), args))
  }

  /** The slot an effect of phase 3 belongs to. */
  function SlotOf(e: Effect): nat
  {
    if e.NestedRender? then e.slot else if e.InsertAfter? then e.slot else 0
  }

  lemma {:induction false} RenderListSlots(slot: nat, items: seq<Arg>, d: Descriptor, args: seq<Arg>)
    ensures forall e :: e in RenderList(slot, items, d, args).effects ==> e.NestedRender? && e.slot == slot
  {
    if |items| > 0 {
      RenderListSlots(slot, items[..|items| - 1], d, args);
    }
  }

  lemma PatchComponentSlotSlots(slot: nat, self: Arg, d: Option<Descriptor>, args: seq<Arg>)
    ensures forall e :: e in PatchComponentSlot(slot, self, d, args).effects
              ==> (e.NestedRender? || e.InsertAfter?) && SlotOf(e) == slot
  {
    if !self.Comp? && IsComponentList(self) && d.Some? {
      RenderListSlots(slot, self.items, d.value, args);
    }
  }

  /** Once phase 3 fails on a prefix of its visiting order, the rest does not run. */
  lemma {:induction false} Phase3ErrorSticks(order: seq<nat>, n: nat, args: seq<Arg>, table: Table)
    requires n <= |order| && Phase3Run(order[..n], args, table).err.Some?
    ensures Phase3Run(order, args, table) == Phase3Run(order[..n], args, table)
    decreases |order| - n
  {
    if n < |order| {
      assert order[..n + 1][..n] == order[..n];
      Phase3ErrorSticks(order, n + 1, args, table);
    } else {
      assert order[..n] == order;
    }
  }

  /** One more slot of phase 3. */
  lemma Phase3Next(order: seq<nat>, n: nat, args: seq<Arg>, table: Table)
    requires n < |order|
    ensures Phase3Run(order[..n + 1], args, table)
            == Then(Phase3Run(order[..n], args, table), PatchComponentSlot(order[n], Get(args, order[n]), At(table, order[n]), args))
  {
    assert order[..n + 1][..n] == order[..n];
  }

  predicate SlotsDescending(es: seq<Effect>)
  {
    forall a, b :: 0 <= a < b < |es| ==> SlotOf(es[a]) >= SlotOf(es[b])
  }

  /** Visiting the slots in descending order makes every effect of a later slot
      in source order come before every effect of an earlier one. */
  lemma {:induction false} Phase3Descending(components: seq<nat>, args: seq<Arg>, table: Table)
    requires StrictlyIncreasing(components)
    ensures SlotsDescending(Phase3Run(Reverse(components), args, table).effects)
    ensures forall e :: e in Phase3Run(Reverse(components), args, table).effects ==> SlotOf(e) in components
    decreases |components|
  {
    if |components| > 0 {
      var rest := components[1..];
      var first := components[0];
      assert Reverse(components) == Reverse(rest) + [first];
      assert Reverse(components)[..|components| - 1] == Reverse(rest);
      Phase3Descending(rest, args, table);
      var prior := Phase3Run(Reverse(rest), args, table);
      var last := PatchComponentSlot(first, Get(args, first), At(table, first), args);
      PatchComponentSlotSlots(first, Get(args, first), At(table, first), args);
      assert Phase3Run(Reverse(components), args, table) == Then(prior, last);
      forall e | e in prior.effects ensures SlotOf(e) >= first && SlotOf(e) in components {
        var k :| 0 <= k < |rest| && rest[k] == SlotOf(e);
        assert rest[k] == components[k + 1];
      }
      if prior.err.None? {
        var es := prior.effects + last.effects;
        assert SlotsDescending(prior.effects);
        forall a, b | 0 <= a < b < |es| ensures SlotOf(es[a]) >= SlotOf(es[b]) {
          if b < |prior.effects| {
            assert es[a] == prior.effects[a] && es[b] == prior.effects[b];
            assert SlotOf(prior.effects[a]) >= SlotOf(prior.effects[b]);
          } else if a < |prior.effects| {
            assert es[a] == prior.effects[a];
            assert es[b] == last.effects[b - |prior.effects|];
            assert es[a] in prior.effects && es[b] in last.effects;
            assert SlotOf(es[a]) >= first;
            assert SlotOf(es[b]) == first;
          } else {
            assert es[a] == last.effects[a - |prior.effects|];
            assert es[b] == last.effects[b - |prior.effects|];
            assert es[a] in last.effects && es[b] in last.effects;
            assert SlotOf(es[a]) == first;
          }
        }
      }
    }
  }

  /* ---------------- Phase 1: the changed set and per-slot reconciliation ---------------- */

  /** The slots below `|newArgs|` whose old and new arguments are not identical, ascending. */
  function ChangedSlots(oldArgs: seq<Arg>, newArgs: seq<Arg>): seq<nat>
    decreases |newArgs|
  {
    if |newArgs| == 0 then []
    else
      var i := |newArgs| - 1;
      ChangedSlots(oldArgs, newArgs[..i]) + (if Same(Get(oldArgs, i), newArgs[i]) then [] else [i])
  }

  /** One more new argument adds its index when it is not identical. */
  lemma ChangedNext(oldArgs: seq<Arg>, newArgs: seq<Arg>, i: nat)
    requires i < |newArgs|
    ensures ChangedSlots(oldArgs, newArgs[..i + 1]) ==
              ChangedSlots(oldArgs, newArgs[..i]) + (if Same(Get(oldArgs, i), newArgs[i]) then [] else [i])
  {
    assert newArgs[..i + 1][..i] == newArgs[..i];
  }

  /** The changed set is exactly the non-identical slots, each once, in ascending order. */
  lemma {:induction false} ChangedSlotsExact(oldArgs: seq<Arg>, newArgs: seq<Arg>)
    ensures forall i: nat :: i in ChangedSlots(oldArgs, newArgs) <==> i < |newArgs| && !Same(Get(oldArgs, i), newArgs[i])
    ensures StrictlyIncreasing(ChangedSlots(oldArgs, newArgs))
    decreases |newArgs|
  {
    if |newArgs| > 0 {
      var i := |newArgs| - 1;
      var init := newArgs[..i];
      ChangedSlotsExact(oldArgs, init);
      var cs := ChangedSlots(oldArgs, init);
      var extra: seq<nat> := if Same(Get(oldArgs, i), newArgs[i]) then [] else [i];
      forall x: nat ensures x in cs + extra <==> x < |newArgs| && !Same(Get(oldArgs, x), newArgs[x]) {
        if x < i {
          assert init[x] == newArgs[x];
        }
      }
      IncreasingSnoc(cs, extra);
    }
  }

  /** Identical arguments give an empty changed set. */
  lemma {:induction false} NothingChanged(oldArgs: seq<Arg>, newArgs: seq<Arg>)
    requires forall j :: 0 <= j < |newArgs| ==> Same(Get(oldArgs, j), newArgs[j])
    ensures ChangedSlots(oldArgs, newArgs) == []
    decreases |newArgs|
  {
    if |newArgs| > 0 {
      NothingChanged(oldArgs, newArgs[..|newArgs| - 1]);
    }
  }

  /** The subscriptions other than `s` (`List.remove`). */
  function RemoveSub(subs: seq<Subscription>, s: Subscription): (r: seq<Subscription>)
    ensures forall x :: x in r <==> x in subs && x != s
  {
    if |subs| == 0 then []
    else (if subs[0] == s then [] else [subs[0]]) + RemoveSub(subs[1..], s)
  }

  /** The subscription list after each of `gone` is removed in turn. */
  function WithoutAll(subs: seq<Subscription>, gone: seq<Subscription>): seq<Subscription>
    decreases |gone|
  {
    if |gone| == 0 then subs
    else RemoveSub(WithoutAll(subs, gone[..|gone| - 1]), gone[|gone| - 1])
  }

  lemma {:induction false} WithoutAllMembers(subs: seq<Subscription>, gone: seq<Subscription>)
    ensures forall x :: x in WithoutAll(subs, gone) <==> x in subs && x !in gone
    decreases |gone|
  {
    if |gone| > 0 {
      var init := gone[..|gone| - 1];
      WithoutAllMembers(subs, init);
      assert gone == init + [gone[|gone| - 1]];
    }
  }

  /** `#clearReferences` on a slot whose descriptor is `d` and whose current argument
      is `current`: a subscription slot unsubscribes its recorded nodes, a ref slot
      frees the ref, an event slot removes a listener from every root. */
  function ClearRun(d: Descriptor, current: Arg): Run
  {
    if d.isSubscription then
      if d.subscription.None? then Run([], Some(UndefinedProperty))
      else Run(Unsubscriptions(d.subscription.value), None)
    else if d.isRef then
      if d.ref.None? then Run([], Some(UndefinedProperty))
      else Run([AssignElement(d.ref.value, None)], None)
    else if d.isEvent then
      Run(seq(|d.root|, k requires 0 <= k < |d.root| => RemoveListener(d.root[k], AttrName(d), Raw(current))), None)
    else Ok
  }

  /** The subscription list after `#clearReferences`. */
  function ClearedSubs(d: Descriptor, subs: seq<Subscription>): seq<Subscription>
  {
    if d.isSubscription && d.subscription.Some? then WithoutAll(subs, d.subscription.value) else subs
  }

  /** A descriptor role that `#clearReferences` alone is enough to release. */
  predicate Clearable(d: Descriptor)
  {
    d.isTextNode || d.isTagName || d.isAttributeValue || d.isEvent || d.isCssKey
  }

  /** The subscriptions a rebinding to a reactive creates, one per root node, with
      consecutive fresh handles. */
  function FreshSubs(roots: seq<NodeId>, source: nat, handle: nat): (r: seq<Subscription>)
    ensures |r| == |roots|
  {
    seq(|roots|, k requires 0 <= k < |roots| => Subscription(handle + k, source))
  }

  function Subscribes(subs: seq<Subscription>, roots: seq<NodeId>): seq<Effect>
    requires |subs| == |roots|
  {
    seq(|subs|, k requires 0 <= k < |subs| => Subscribe(subs[k], roots[k]))
  }

  /** The outcome of a category change: the trace, the slot's new descriptor, the
      subscription list and the handle counter. */
  datatype Rebound = Rebound(run: Run, desc: Descriptor, subs: seq<Subscription>, nextHandle: nat)

  /** A category change of a slot (descriptor `d`, old argument `current`) to `other`. */
  function RebindState(d: Descriptor, current: Arg, other: Arg, subs: seq<Subscription>, handle: nat): Rebound
  {
    var c := ClearRun(d, current);
    var cleared := ClearedSubs(d, subs);
    if other.Comp? || IsComponentList(other) then
      Rebound(c, if c.err.None? then Bare(d.root).(isComponent := true) else d, cleared, handle)
    else if other.Reactive? then
      if c.err.Some? then Rebound(c, d, cleared, handle)
      else
        var added := FreshSubs(d.root, other.id, handle);
        Rebound(Run(c.effects + Subscribes(added, d.root), None),
                d.(isSubscription := true, subscription := Some(added)),
                Reverse(added) + cleared, handle + |d.root|)
    else if IsRef(other) then
      Rebound(c, if c.err.None? then Bare(d.root).(isRef := true) else d, cleared, handle)
    else if Clearable(d) then Rebound(c, d, cleared, handle)
    else Rebound(Run([], Some(NoMatch)), d, subs, handle)
  }

  /** A category change keeps the slot's root list; a successful change to a
      component, list or ref leaves only that role, and one to a reactive records
      exactly one added subscription per root node, placed at the head of the list. */
  lemma RebindKeepsRoots(d: Descriptor, current: Arg, other: Arg, subs: seq<Subscription>, handle: nat)
    ensures var r := RebindState(d, current, other, subs, handle);
            && r.desc.root == d.root
            && (r.run.err.None? && (other.Comp? || IsComponentList(other)) ==> r.desc == Bare(d.root).(isComponent := true))
            && (r.run.err.None? && !other.Comp? && !IsComponentList(other) && !other.Reactive? && IsRef(other) ==>
                  r.desc == Bare(d.root).(isRef := true))
            && (r.run.err.None? && other.Reactive? ==>
                  && r.desc.isSubscription && r.desc.subscription.Some?
                  && |r.desc.subscription.value| == |d.root|
                  && (forall k :: 0 <= k < |d.root| ==> Subscribe(r.desc.subscription.value[k], d.root[k]) in r.run.effects)
                  && r.subs[..|d.root|] == Reverse(r.desc.subscription.value))
  {
    var r := RebindState(d, current, other, subs, handle);
    if r.run.err.None? && other.Reactive? && !other.Comp? && !IsComponentList(other) {
      var added := FreshSubs(d.root, other.id, handle);
      var c := ClearRun(d, current);
      forall k | 0 <= k < |d.root| ensures Subscribe(added[k], d.root[k]) in r.run.effects {
        assert r.run.effects[|c.effects| + k] == Subscribe(added[k], d.root[k]);
      }
    }
  }

  /** A change to a value the engine cannot classify fails exactly when the old
      descriptor has no role that clearing releases, and then nothing is touched. */
  lemma RebindNoMatch(d: Descriptor, current: Arg, other: Arg, subs: seq<Subscription>, handle: nat)
    requires !other.Comp? && !IsComponentList(other) && !other.Reactive? && !IsRef(other)
    ensures var r := RebindState(d, current, other, subs, handle);
            (r.run.err == Some(NoMatch) <==> !Clearable(d))
            && (!Clearable(d) ==> r.run.effects == [] && r.desc == d && r.subs == subs)
  {
  }

  /** A category change to a component or a component list leaves the slot with the
      component flag but without a placeholder subtree, so phase 3 on that slot throws
      for a component and for a non-empty list; an empty list still inserts its
      (empty) fragment after the last root, when there is one. */
  lemma RebindToComponentNeverRenders(d: Descriptor, current: Arg, other: Arg, subs: seq<Subscription>, handle: nat, slot: nat, args: seq<Arg>)
    ensures var r := RebindState(d, current, other, subs, handle);
            r.run.err.None? && (other.Comp? || IsComponentList(other)) ==>
              && r.desc.isComponent && r.desc.children.None?
              && (PatchComponentSlot(slot, other, Some(r.desc), args).err == Some(UndefinedProperty)
                  <==> other.Comp? || |other.items| > 0 || |d.root| == 0)
  {
    var r := RebindState(d, current, other, subs, handle);
    if r.run.err.None? && !other.Comp? && IsComponentList(other) {
      if |other.items| > 0 {
        RenderListWithoutChildren(slot, other.items, r.desc, args);
      } else {
        assert RenderList(slot, other.items, r.desc, args) == Ok;
      }
    }
  }

  /** Without a placeholder subtree, the list loop of phase 3 throws on its first element. */
  lemma {:induction false} RenderListWithoutChildren(slot: nat, items: seq<Arg>, d: Descriptor, args: seq<Arg>)
    requires d.children.None? && |items| > 0
    ensures RenderList(slot, items, d, args) == Run([], Some(UndefinedProperty))
    decreases |items|
  {
    if |items| > 1 {
      RenderListWithoutChildren(slot, items[..|items| - 1], d, args);
    }
  }

  /** After clearing a subscription slot, none of its recorded subscriptions is
      still in the list, and every other one is. */
  lemma ClearReleasesSubscriptions(d: Descriptor, subs: seq<Subscription>)
    requires d.isSubscription && d.subscription.Some?
    ensures forall x :: x in ClearedSubs(d, subs) <==> x in subs && x !in d.subscription.value
  {
    WithoutAllMembers(subs, d.subscription.value);
  }

  /** Rebinding a slot to a ref leaves a descriptor without the ref object, so the
      next category change of that slot fails in `#clearReferences`. */
  lemma RefRebindThenClearFails(d: Descriptor, current: Arg, ref: Arg, subs: seq<Subscription>, handle: nat)
    requires IsRef(ref)
    requires RebindState(d, current, ref, subs, handle).run.err.None?
    ensures var nd := RebindState(d, current, ref, subs, handle).desc;
            ClearRun(nd, ref).err == Some(UndefinedProperty)
  {
  }

  /* ---------------- Phase 1: component lists ---------------- */

  /** The components held by a list, the objects a list reconciliation may read. */
  function ComponentsIn(items: seq<Arg>): set<Component>
  {
    set k | 0 <= k < |items| && items[k].Comp? :: items[k].c
  }

  function Min(a: nat, b: nat): nat
  {
    if a < b then a else b
  }

  /** `s.dispose()` on a list element, after the homogeneity check. The call is
      recorded as `Disposed`; what the nested disposal does is that component's
      own `DisposalRun`. */
  function DisposeElement(s: Arg): Run
  {
    if !s.Comp? then Run([], Some(Heterogeneous)) else Run([Disposed(s.c)], None)
  }

  /** The common prefix of the two lists, positions below `n`: a same-template pair
      updates the old element in place, any other pair disposes it and swaps in the
      new one. Returns the list as mutated so far. */
  function ReconcilePairs(self: seq<Arg>, other: seq<Arg>, n: nat): (r: (seq<Arg>, Run))
    requires n <= |self| && n <= |other|
    reads ComponentsIn(other)
    ensures |r.0| == |self|
    decreases n
  {
    if n == 0 then (self, Ok)
    else
      var prior := ReconcilePairs(self, other, n - 1);
      var s := self[n - 1];
      var o := other[n - 1];
      if prior.1.err.Some? then prior
      else if !s.Comp? || !o.Comp? then (prior.0, Run(prior.1.effects, Some(Heterogeneous)))
      else if s.c.IsEqualTo(o.c) then (prior.0, Run(prior.1.effects + [NestedUpdate(s.c, o.c.args)], None))
      else
        var d := DisposeElement(s);
        (if d.err.None? then prior.0[n - 1 := o] else prior.0, Then(prior.1, d))
  }

  /** The old trailing elements `self[from..n]`, each disposed in order. */
  function TrimRun(self: seq<Arg>, from: nat, n: nat): Run
    requires from <= n <= |self|
    decreases n
  {
    if n == from then Ok
    else Then(TrimRun(self, from, n - 1), DisposeElement(self[n - 1]))
  }

  /** The extra new elements `other[from..n]`, each checked and pushed in order. */
  function ExtendRun(items: seq<Arg>, other: seq<Arg>, from: nat, n: nat): (r: (seq<Arg>, Run))
    requires from <= n <= |other|
    ensures r.1.effects == []
    decreases n
  {
    if n == from then (items, Ok)
    else
      var prior := ExtendRun(items, other, from, n - 1);
      if prior.1.err.Some? then prior
      else if !other[n - 1].Comp? then (prior.0, Run([], Some(Heterogeneous)))
      else (prior.0 + [other[n - 1]], prior.1)
  }

  /** Reconciliation of a component list `self` with a new component list `other`:
      the list as mutated in place (also when it stopped part way) and the trace. */
  function ListRun(self: seq<Arg>, other: seq<Arg>): (seq<Arg>, Run)
    reads ComponentsIn(other)
  {
    var m := Min(|self|, |other|);
    var pairs := ReconcilePairs(self, other, m);
    if pairs.1.err.Some? then pairs
    else if m == |other| then
      var t := TrimRun(self, m, |self|);
      (if t.err.None? then pairs.0[..m] else pairs.0, Then(pairs.1, t))
    else
      var e := ExtendRun(pairs.0, other, m, |other|);
      (e.0, Then(pairs.1, e.1))
  }

  /** The components whose disposal a trace records, in order. */
  function Disposals(es: seq<Effect>): seq<Arg>
    decreases |es|
  {
    if |es| == 0 then []
    else Disposals(es[..|es| - 1]) + (if es[|es| - 1].Disposed? then [Comp(es[|es| - 1].target)] else [])
  }

  lemma {:induction false} DisposalsAppend(a: seq<Effect>, b: seq<Effect>)
    ensures Disposals(a + b) == Disposals(a) + Disposals(b)
    decreases |b|
  {
    if |b| == 0 {
      assert a + b == a;
    } else {
      assert (a + b)[..|a + b| - 1] == a + b[..|b| - 1];
      DisposalsAppend(a, b[..|b| - 1]);
    }
  }

  lemma {:induction false} DisposalsOfDisposalRun(subs: seq<Subscription>, root: Option<seq<NodeId>>, callbacks: seq<nat>)
    ensures Disposals(DisposalRun(subs, root, callbacks).effects) == []
  {
    var es := DisposalRun(subs, root, callbacks).effects;
    NoDisposals(es);
  }

  lemma {:induction false} NoDisposals(es: seq<Effect>)
    requires forall k :: 0 <= k < |es| ==> !es[k].Disposed?
    ensures Disposals(es) == []
    decreases |es|
  {
    if |es| > 0 {
      NoDisposals(es[..|es| - 1]);
    }
  }

  /** Two list elements with the same template. */
  predicate SameTemplate(s: Arg, o: Arg)
  {
    s.Comp? && o.Comp? && s.c.IsEqualTo(o.c)
  }

  /** The positions of the old list whose element a successful reconciliation
      disposes: a mismatched pair, or a trailing element. */
  function DisposedPositions(self: seq<Arg>, other: seq<Arg>, n: nat): (r: seq<nat>)
    requires n <= |self|
    ensures forall k :: 0 <= k < |r| ==> r[k] < n
    decreases n
  {
    if n == 0 then []
    else
      var j := n - 1;
      DisposedPositions(self, other, j) + (if j >= |other| || !SameTemplate(self[j], other[j]) then [j] else [])
  }

  lemma {:induction false} PairsItems(self: seq<Arg>, other: seq<Arg>, n: nat)
    requires n <= |self| && n <= |other|
    requires ReconcilePairs(self, other, n).1.err.None?
    ensures forall j :: 0 <= j < n ==> self[j].Comp? && other[j].Comp?
    ensures forall j :: 0 <= j < n ==>
              ReconcilePairs(self, other, n).0[j] == (if SameTemplate(self[j], other[j]) then self[j] else other[j])
    ensures ReconcilePairs(self, other, n).0[n..] == self[n..]
    decreases n
  {
    if n > 0 {
      PairsItems(self, other, n - 1);
    }
  }

  lemma {:induction false} PairsDisposals(self: seq<Arg>, other: seq<Arg>, n: nat)
    requires n <= |self| && n <= |other|
    requires ReconcilePairs(self, other, n).1.err.None?
    ensures Disposals(ReconcilePairs(self, other, n).1.effects) == ElementsAt(self, DisposedPositions(self, other, n))
    decreases n
  {
    if n > 0 {
      var j := n - 1;
      PairsDisposals(self, other, j);
      var prior := ReconcilePairs(self, other, j);
      var r := ReconcilePairs(self, other, n);
      ElementsAtAppend(self, DisposedPositions(self, other, j),
                       if j >= |other| || !SameTemplate(self[j], other[j]) then [j] else []);
      if SameTemplate(self[j], other[j]) {
        var u := NestedUpdate(self[j].c, other[j].c.args);
        assert r.1.effects == prior.1.effects + [u];
        DisposalsAppend(prior.1.effects, [u]);
        assert Disposals([u]) == [];
      } else {
        var x := Disposed(self[j].c);
        assert r.1.effects == prior.1.effects + [x];
        DisposalsAppend(prior.1.effects, [x]);
        assert Disposals([x]) == [self[j]];
      }
    }
  }

  lemma {:induction false} PairsUpdates(self: seq<Arg>, other: seq<Arg>, n: nat)
    requires n <= |self| && n <= |other|
    requires ReconcilePairs(self, other, n).1.err.None?
    ensures forall j :: 0 <= j < n && SameTemplate(self[j], other[j]) ==>
              NestedUpdate(self[j].c, other[j].c.args) in ReconcilePairs(self, other, n).1.effects
    decreases n
  {
    if n > 0 {
      PairsUpdates(self, other, n - 1);
      assert ReconcilePairs(self, other, n - 1).1.effects <= ReconcilePairs(self, other, n).1.effects;
    }
  }

  lemma {:induction false} TrimShape(self: seq<Arg>, other: seq<Arg>, from: nat, n: nat)
    requires |other| == from <= n <= |self|
    requires TrimRun(self, from, n).err.None?
    ensures forall j :: from <= j < n ==> self[j].Comp?
    ensures Disposals(TrimRun(self, from, n).effects) == self[from..n]
  {
    TrimComponents(self, from, n);
    TrimDisposals(self, from, n);
  }

  lemma {:induction false} TrimComponents(self: seq<Arg>, from: nat, n: nat)
    requires from <= n <= |self|
    requires TrimRun(self, from, n).err.None?
    ensures forall j :: from <= j < n ==> self[j].Comp?
    decreases n
  {
    if n > from {
      TrimComponents(self, from, n - 1);
    }
  }

  lemma {:induction false} TrimDisposals(self: seq<Arg>, from: nat, n: nat)
    requires from <= n <= |self|
    requires TrimRun(self, from, n).err.None?
    ensures Disposals(TrimRun(self, from, n).effects) == self[from..n]
    decreases n
  {
    if n > from {
      TrimDisposals(self, from, n - 1);
      var prior := TrimRun(self, from, n - 1);
      var x := Disposed(self[n - 1].c);
      assert TrimRun(self, from, n).effects == prior.effects + [x];
      DisposalsAppend(prior.effects, [x]);
      assert Disposals([x]) == [self[n - 1]];
      assert self[from..n] == self[from..n - 1] + [self[n - 1]];
    }
  }

  lemma {:induction false} ExtendShape(items: seq<Arg>, other: seq<Arg>, from: nat, n: nat)
    requires from <= n <= |other|
    requires ExtendRun(items, other, from, n).1.err.None?
    ensures ExtendRun(items, other, from, n).0 == items + other[from..n]
    ensures forall j :: from <= j < n ==> other[j].Comp?
    decreases n
  {
    if n > from {
      ExtendShape(items, other, from, n - 1);
      assert other[from..n] == other[from..n - 1] + [other[n - 1]];
    }
  }

  lemma {:induction false} DisposedPositionsPrefix(self: seq<Arg>, other: seq<Arg>, m: nat, n: nat)
    requires m <= |other| && m <= n <= |self|
    requires m == |other| || n == m
    ensures ElementsAt(self, DisposedPositions(self, other, n))
            == ElementsAt(self, DisposedPositions(self, other, m)) + self[m..n]
    decreases n
  {
    if n > m {
      DisposedPositionsPrefix(self, other, m, n - 1);
      ElementsAtAppend(self, DisposedPositions(self, other, n - 1), [n - 1]);
      assert self[m..n] == self[m..n - 1] + [self[n - 1]];
    } else {
      assert self[m..n] == [];
    }
  }

  /** The elements of `self` at the given positions. */
  function ElementsAt(self: seq<Arg>, ps: seq<nat>): seq<Arg>
    requires forall k :: 0 <= k < |ps| ==> ps[k] < |self|
  {
    seq(|ps|, k requires 0 <= k < |ps| => self[ps[k]])
  }

  lemma ElementsAtAppend(self: seq<Arg>, ps: seq<nat>, qs: seq<nat>)
    requires forall k :: 0 <= k < |ps| ==> ps[k] < |self|
    requires forall k :: 0 <= k < |qs| ==> qs[k] < |self|
    ensures ElementsAt(self, ps + qs) == ElementsAt(self, ps) + ElementsAt(self, qs)
  {
  }

  /** The disposed positions are exactly the mismatched and trailing ones, each once, ascending. */
  lemma {:induction false} DisposedPositionsExact(self: seq<Arg>, other: seq<Arg>, n: nat)
    requires n <= |self|
    ensures forall j: nat :: j in DisposedPositions(self, other, n)
              <==> j < n && (j >= |other| || !SameTemplate(self[j], other[j]))
    ensures StrictlyIncreasing(DisposedPositions(self, other, n))
    decreases n
  {
    if n > 0 {
      var j := n - 1;
      DisposedPositionsExact(self, other, j);
      var ps := DisposedPositions(self, other, j);
      var extra: seq<nat> := if j >= |other| || !SameTemplate(self[j], other[j]) then [j] else [];
      IncreasingSnoc(ps, extra);
    }
  }

  /** A successful list reconciliation leaves the stored list as long as the new
      one; shared positions keep the old element when the templates match and take
      the new one otherwise; extra new elements follow in order. */
  lemma ListRunShape(self: seq<Arg>, other: seq<Arg>)
    requires ListRun(self, other).1.err.None?
    ensures var items := ListRun(self, other).0;
            && |items| == |other|
            && (forall j :: 0 <= j < Min(|self|, |other|) ==>
                  items[j] == if SameTemplate(self[j], other[j]) then self[j] else other[j])
            && (forall j :: Min(|self|, |other|) <= j < |other| ==> items[j] == other[j])
            && (forall j :: 0 <= j < |self| ==> self[j].Comp?)
            && (forall j :: 0 <= j < |other| ==> other[j].Comp?)
  {
    var m := Min(|self|, |other|);
    PairsItems(self, other, m);
    var pairs := ReconcilePairs(self, other, m);
    if m == |other| {
      TrimShape(self, other, m, |self|);
    } else {
      ExtendShape(pairs.0, other, m, |other|);
    }
  }

  /** A successful list reconciliation disposes each old element at a mismatched
      or trailing position exactly once, in position order, and no other (the
      positions are characterised by `DisposedPositionsExact`). */
  lemma ListRunDisposals(self: seq<Arg>, other: seq<Arg>)
    requires ListRun(self, other).1.err.None?
    ensures Disposals(ListRun(self, other).1.effects) == ElementsAt(self, DisposedPositions(self, other, |self|))
  {
    var m := Min(|self|, |other|);
    PairsDisposals(self, other, m);
    var pairs := ReconcilePairs(self, other, m);
    var run := ListRun(self, other).1;
    DisposedPositionsPrefix(self, other, m, |self|);
    if m == |other| {
      TrimShape(self, other, m, |self|);
      var t := TrimRun(self, m, |self|);
      assert run.effects == pairs.1.effects + t.effects;
      DisposalsAppend(pairs.1.effects, t.effects);
    } else {
      var e := ExtendRun(pairs.0, other, m, |other|);
      assert run.effects == pairs.1.effects + e.1.effects;
      assert pairs.1.effects + e.1.effects == pairs.1.effects;
      assert self[m..|self|] == [];
    }
  }

  /** A successful list reconciliation updates every old element whose template
      matches the new one's with the new element's arguments. */
  lemma ListRunUpdates(self: seq<Arg>, other: seq<Arg>)
    requires ListRun(self, other).1.err.None?
    ensures forall j :: 0 <= j < Min(|self|, |other|) && SameTemplate(self[j], other[j]) ==>
              NestedUpdate(self[j].c, other[j].c.args) in ListRun(self, other).1.effects
  {
    var m := Min(|self|, |other|);
    PairsUpdates(self, other, m);
    var pairs := ReconcilePairs(self, other, m);
    var run := ListRun(self, other).1;
    assert pairs.1.effects <= run.effects;
  }

  /** A non-component element among those the reconciliation examines makes it fail. */
  lemma ListRunRejectsNonComponents(self: seq<Arg>, other: seq<Arg>)
    requires (exists j :: 0 <= j < |self| && !self[j].Comp?) || (exists j :: 0 <= j < |other| && !other[j].Comp?)
    ensures ListRun(self, other).1.err.Some?
  {
    if ListRun(self, other).1.err.None? {
      ListRunShape(self, other);
    }
  }

  lemma {:induction false} PairsErrorSticks(self: seq<Arg>, other: seq<Arg>, j: nat, n: nat)
    requires j <= n <= |self| && n <= |other| && ReconcilePairs(self, other, j).1.err.Some?
    ensures ReconcilePairs(self, other, n) == ReconcilePairs(self, other, j)
    decreases n
  {
    if n > j {
      PairsErrorSticks(self, other, j, n - 1);
    }
  }

  lemma {:induction false} TrimErrorSticks(self: seq<Arg>, from: nat, j: nat, n: nat)
    requires from <= j <= n <= |self| && TrimRun(self, from, j).err.Some?
    ensures TrimRun(self, from, n) == TrimRun(self, from, j)
    decreases n
  {
    if n > j {
      TrimErrorSticks(self, from, j, n - 1);
    }
  }

  lemma {:induction false} ExtendErrorSticks(items: seq<Arg>, other: seq<Arg>, from: nat, j: nat, n: nat)
    requires from <= j <= n <= |other| && ExtendRun(items, other, from, j).1.err.Some?
    ensures ExtendRun(items, other, from, n) == ExtendRun(items, other, from, j)
    decreases n
  {
    if n > j {
      ExtendErrorSticks(items, other, from, j, n - 1);
    }
  }

  /* ---------------- Phase 1 as a whole ---------------- */

  /** The part of a component's state `#updateInternalState` changes. */
  datatype Slots = Slots(args: seq<Arg>, table: Table, subs: seq<Subscription>, handle: nat)

  /** The components whose fields reconciling a slot towards `v` reads. */
  function Reads(v: Arg): set<Component>
  {
    if v.Comp? then {v.c} else if v.List? then ComponentsIn(v.items) else {}
  }

  function ReadsAll(vs: seq<Arg>): set<Component>
    decreases |vs|
  {
    if |vs| == 0 then {} else ReadsAll(vs[..|vs| - 1]) + Reads(vs[|vs| - 1])
  }

  lemma {:induction false} ReadsAllCovers(vs: seq<Arg>, i: nat)
    requires i < |vs|
    ensures Reads(vs[i]) <= ReadsAll(vs) && ReadsAll(vs[..i]) <= ReadsAll(vs)
    decreases |vs|
  {
    if i < |vs| - 1 {
      ReadsAllCovers(vs[..|vs| - 1], i);
      assert vs[..|vs| - 1][i] == vs[i];
      assert vs[..|vs| - 1][..i] == vs[..i];
    } else {
      assert vs[..i] == vs[..|vs| - 1];
    }
  }

  /** Every component the new arguments hold already exists, so a call that changes
      only this component's fields leaves theirs alone. */
  lemma {:induction false} ReadsAllAllocated(vs: seq<Arg>)
    ensures forall c | c in ReadsAll(vs) :: allocated(c)
    decreases |vs|
  {
    if |vs| > 0 {
      ReadsAllAllocated(vs[..|vs| - 1]);
      var v := vs[|vs| - 1];
      if v.List? {
        assert forall c | c in ComponentsIn(v.items) :: allocated(c);
      }
    }
  }

  /** The reconciliation of one changed slot `i` towards `other`: two components of
      one template update the old one in place and keep it, two components of
      different templates dispose the old one and store the new one, two component
      lists reconcile the old array and store it as mutated, and anything else
      rebinds the slot's descriptor (a slot without one fails) and stores the new
      value when that succeeded. */
  function SlotStep(s: Slots, i: nat, other: Arg): (Slots, Run)
    reads Reads(other)
  {
    var self := Get(s.args, i);
    if self.Comp? && other.Comp? then
      if self.c.IsEqualTo(other.c) then (s, Run([NestedUpdate(self.c, other.c.args)], None))
      else (s.(args := Store(s.args, i, other)), Run([Disposed(self.c)], None))
    else if IsComponentList(self) && IsComponentList(other) then
      var lr := ListRun(self.items, other.items);
      (s.(args := Store(s.args, i, List(self.id, lr.0))), lr.1)
    else if i !in s.table then (s, Run([], Some(UndefinedProperty)))
    else
      var rb := RebindState(s.table[i], self, other, s.subs, s.handle);
      (Slots(if rb.run.err.None? then Store(s.args, i, other) else s.args, s.table[i := rb.desc], rb.subs, rb.nextHandle), rb.run)
  }

  /** Reconciling slot `i` leaves every other slot's argument and descriptor as it was. */
  lemma SlotStepFrame(s: Slots, i: nat, other: Arg)
    ensures var q := SlotStep(s, i, other);
            forall j: nat :: j != i ==> Get(q.0.args, j) == Get(s.args, j) && At(q.0.table, j) == At(s.table, j)
  {
  }

  /** `#updateInternalState` over the first `|newArgs|` new arguments: identical
      ones are skipped, the others reconciled in order, and the first error stops it. */
  function Phase1Run(s: Slots, newArgs: seq<Arg>): (Slots, Run)
    reads ReadsAll(newArgs)
    decreases |newArgs|
  {
    if |newArgs| == 0 then (s, Ok)
    else
      var i := |newArgs| - 1;
      var p := Phase1Run(s, newArgs[..i]);
      if p.1.err.Some? || Same(Get(p.0.args, i), newArgs[i]) then p
      else var q := SlotStep(p.0, i, newArgs[i]); (q.0, Then(p.1, q.1))
  }

  /** One more new argument extends phase 1 by one step. */
  lemma Phase1Next(s: Slots, newArgs: seq<Arg>, i: nat)
    requires i < |newArgs|
    ensures var p := Phase1Run(s, newArgs[..i]);
            Phase1Run(s, newArgs[..i + 1]) ==
              if p.1.err.Some? || Same(Get(p.0.args, i), newArgs[i]) then p
              else (SlotStep(p.0, i, newArgs[i]).0, Then(p.1, SlotStep(p.0, i, newArgs[i]).1))
  {
    assert newArgs[..i + 1][..i] == newArgs[..i];
  }

  /** Phase 1 leaves every slot it skips, and every slot past the new arguments,
      exactly as it was. */
  lemma {:induction false} Phase1Frame(s: Slots, newArgs: seq<Arg>)
    ensures var p := Phase1Run(s, newArgs);
            forall j: nat :: (j >= |newArgs| || Same(Get(s.args, j), newArgs[j])) ==>
              Get(p.0.args, j) == Get(s.args, j) && At(p.0.table, j) == At(s.table, j)
    decreases |newArgs|
  {
    if |newArgs| > 0 {
      var i := |newArgs| - 1;
      var prefix := newArgs[..i];
      Phase1Frame(s, prefix);
      var p := Phase1Run(s, prefix);
      SlotStepFrame(p.0, i, newArgs[i]);
      forall j: nat | j < i && Same(Get(s.args, j), newArgs[j])
        ensures Same(Get(s.args, j), prefix[j])
      {
        assert prefix[j] == newArgs[j];
      }
    }
  }

  /** When every new argument is identical to the old one, phase 1 does nothing. */
  lemma {:induction false} Phase1Identical(s: Slots, newArgs: seq<Arg>)
    requires forall j :: 0 <= j < |newArgs| ==> Same(Get(s.args, j), newArgs[j])
    ensures Phase1Run(s, newArgs) == (s, Ok)
    decreases |newArgs|
  {
    if |newArgs| > 0 {
      var i := |newArgs| - 1;
      forall j | 0 <= j < i ensures Same(Get(s.args, j), newArgs[..i][j]) {
        assert newArgs[..i][j] == newArgs[j];
      }
      Phase1Identical(s, newArgs[..i]);
    }
  }

  /** Once phase 1 has failed on a prefix, the remaining arguments change nothing. */
  lemma {:induction false} Phase1ErrorSticks(s: Slots, newArgs: seq<Arg>, j: nat)
    requires j <= |newArgs| && Phase1Run(s, newArgs[..j]).1.err.Some?
    ensures Phase1Run(s, newArgs) == Phase1Run(s, newArgs[..j])
    decreases |newArgs| - j
  {
    if j < |newArgs| {
      var n := |newArgs|;
      assert newArgs[..n - 1][..j] == newArgs[..j];
      Phase1ErrorSticks(s, newArgs[..n - 1], j);
      assert Phase1Run(s, newArgs[..n - 1]).1.err.Some?;
    } else {
      assert newArgs[..j] == newArgs;
    }
  }

  /** `update` before its error handling: phase 1, then phase 2 over the changed
      slots, then phase 3 over their component slots from the last to the first,
      both on the state phase 1 left. */
  function UpdateRun(s: Slots, newArgs: seq<Arg>): (Slots, Run)
    reads ReadsAll(newArgs)
  {
    var p := Phase1Run(s, newArgs);
    var changed := ChangedSlots(s.args, newArgs);
    (p.0, Then(p.1, Then(Phase2Run(changed, p.0.args, p.0.table),
                         Phase3Run(Reverse(ComponentSlots(changed, p.0.table)), p.0.args, p.0.table))))
  }

  /** An update with identical arguments changes nothing and has no effect. */
  lemma UpdateIdentical(s: Slots, newArgs: seq<Arg>)
    requires forall j :: 0 <= j < |newArgs| ==> Same(Get(s.args, j), newArgs[j])
    ensures UpdateRun(s, newArgs) == (s, Ok)
  {
    Phase1Identical(s, newArgs);
    NothingChanged(s.args, newArgs);
    assert ComponentSlots([], s.table) == [] && Reverse<nat>([]) == [];
    assert Phase2Run([], s.args, s.table) == Ok && Phase3Run([], s.args, s.table) == Ok;
    assert Then(Ok, Ok) == Ok;
  }

  /** A slot holding text that is updated to a component is never rendered: phase 1
      rebinds it to a bare component slot and stores the component, phase 2 leaves
      it alone, and phase 3 throws on its missing placeholder subtree. */
  lemma TextToComponentUpdateThrows(c: Component)
    ensures var s := Slots([Plain("a")], map[0 := Bare([5]).(isTextNode := true)], [], 0);
            var u := UpdateRun(s, [Comp(c)]);
            && u.0.args == [Comp(c)] && u.0.table == map[0 := Bare([5]).(isComponent := true)]
            && u.1 == Run([], Some(UndefinedProperty))
  {
    var s := Slots([Plain("a")], map[0 := Bare([5]).(isTextNode := true)], [], 0);
    var newArgs := [Comp(c)];
    var d := Bare([5]).(isComponent := true);
    assert newArgs[..0] == [] && newArgs[..1] == newArgs;
    assert !Same(Get(s.args, 0), Comp(c));
    assert RebindState(s.table[0], Plain("a"), Comp(c), [], 0) == Rebound(Ok, d, [], 0);
    assert Store(s.args, 0, Comp(c)) == [Comp(c)];
    assert s.table[0 := d] == map[0 := d];
    assert SlotStep(s, 0, Comp(c)) == (Slots([Comp(c)], map[0 := d], [], 0), Ok);
    assert Phase1Run(s, newArgs[..0]) == (s, Ok);
    Phase1Next(s, newArgs, 0);
    assert Then(Ok, Ok) == Ok;
    var p := Phase1Run(s, newArgs);
    assert p == (Slots([Comp(c)], map[0 := d], [], 0), Ok);
    assert ChangedSlots(s.args, newArgs) == [0];
    assert [0][..0] == [];
    assert ComponentSlots([0], p.0.table) == [0];
    assert Reverse([0]) == [0];
    assert Phase2Run([0], p.0.args, p.0.table) == Ok;
    assert Phase3Run([0], p.0.args, p.0.table) == Run([], Some(UndefinedProperty));
  }

  /* ---------------- Instantiation ---------------- */

  /** A non-empty list of created nodes. */
  type Tags = s: seq<NodeId> | |s| > 0 witness [0]

  /** What a node factory returns: the top-level nodes, whether attributes still need
      setting, and the number of argument slots it consumed. */
  datatype Created = Created(tag: Tags, needAttributes: bool, usedArgs: nat)

  /** The node factories of the DOM helper module, taken as given total functions:
      an element from a tag value; a nested component and a component list, which
      receive the arguments after the tag, the invoker's table and slot and return
      the table they leave; and a reactive, which receives all the arguments, the
      cursor, the table and the slot and returns the table it leaves. */
  datatype Dom = Dom(
    element: (Arg, Tree) -> Created,
    component: (Component, Tree, seq<Arg>, Table, nat) -> (Created, Table),
    componentList: (seq<Arg>, Tree, seq<Arg>, Table, nat) -> (Created, Table),
    reactive: (Arg, Tree, seq<Arg>, nat, Table, nat) -> (Created, Table))

  /** The factory call `#createElement` makes for this leaf, if any, writes the
      table it is handed only at the slots the leaf consumes; a reactive factory
      writes at most the leaf's own slot, since a failed leaf consumes none. */
  ghost predicate ConfinedCall(dom: Dom, leaf: Tree, args: seq<Arg>, idx: nat, table: Table, refIdx: nat)
  {
    var value := Get(args, idx);
    var sliced := JsSlice(args, idx + 1, leaf.numOfInterpolations + 1);
    && (value.Comp? ==>
          var res := dom.component(value.c, leaf, sliced, table, refIdx);
          WritesWithin(table, res.1, refIdx, refIdx + res.0.usedArgs))
    && (value.List? ==>
          var res := dom.componentList(value.items, leaf, sliced, table, refIdx);
          WritesWithin(table, res.1, refIdx, refIdx + res.0.usedArgs))
    && (value.Reactive? ==>
          var res := dom.reactive(value, leaf, args, idx, table, refIdx);
          WritesWithin(table, res.1, refIdx, refIdx))
  }

  /** The invoking component's children: the placeholder subtree, its arguments,
      the descriptor table it is bound into and the first slot to use there. */
  datatype Children = Children(tree: seq<Tree>, args: seq<Arg>, table: Table, idx: nat)

  const NoChildren: Children := Children([], [], map[], 0)

  /** A value a dynamic tag uses as a tag name (neither a component, a component list nor a reactive). */
  predicate IsLiteral(v: Arg)
  {
    !v.Comp? && !IsComponentList(v) && !v.Reactive?
  }

  /** Binding a node at a slot: a fresh descriptor when the slot is unbound, otherwise the node is appended to its root list. */
  function BindRoot(table: Table, k: nat, initial: Descriptor, node: NodeId): Table
  {
    if k in table then table[k := table[k].(root := table[k].root + [node])] else table[k := initial]
  }

  /** An interpolated attribute value the engine writes verbatim and does not bind. */
  predicate IsLiteralAttribute(arg: Arg, name: string)
  {
    !arg.Reactive? && !IsEventBinding(arg, name) && !IsRef(arg) && !IsScopedCss(arg)
  }

  /** The table agrees with `before` outside the slots `lo..hi` (both included). */
  ghost predicate WritesWithin(before: Table, after: Table, lo: int, hi: int)
  {
    forall k: nat :: (k < lo || k > hi) ==> At(after, k) == At(before, k)
  }

  lemma WritesWithinAt(before: Table, after: Table, lo: int, hi: int, k: nat)
    requires WritesWithin(before, after, lo, hi) && (k < lo || k > hi)
    ensures At(after, k) == At(before, k)
  {
  }

  lemma WritesWithinTrans(a: Table, b: Table, c: Table, lo: int, mid: int, lo2: int, hi: int)
    requires WritesWithin(a, b, lo, mid) && WritesWithin(b, c, lo2, hi) && lo <= lo2 && mid <= hi
    ensures WritesWithin(a, c, lo, hi)
  {
  }

  /** A forest of literal tags without a single interpolation slot or `Children` placeholder. */
  predicate StaticForest(ts: seq<Tree>)
    decreases ts
  {
    forall i :: 0 <= i < |ts| ==> StaticTree(ts[i])
  }

  predicate StaticTree(t: Tree)
    decreases t
  {
    t.tag.Static? && t.tag.name != "Children" && Holes(t.attributes) == 0 && StaticForest(t.children)
  }

  /** A leaf the walk takes for a `Children` placeholder although it has attributes or children. */
  predicate BadPlaceholder(t: Tree, args: seq<Arg>)
  {
    && (|t.children| > 0 || |t.attributes| > 0)
    && (t.tag == Static("Children") || (t.tag == Dynamic && Plain("Children") in args))
  }

  /** A bad placeholder somewhere in the forest. */
  predicate HasBadChildren(ts: seq<Tree>, args: seq<Arg>)
    decreases ts
  {
    exists i :: 0 <= i < |ts| && (BadPlaceholder(ts[i], args) || HasBadChildren(ts[i].children, args))
  }

  /** The part of the component's state instantiation changes: the table being
      filled, the subscription list, the two allocation counters and the style keys. */
  datatype Inst = Inst(table: Table, subs: seq<Subscription>, handle: nat, node: nat, cssKeys: seq<string>)

  /** The effect concerns the element `tag`. */
  predicate Touches(e: Effect, tag: NodeId)
  {
    match e
    case Subscribe(_, node) => node == tag
    case AddListener(node, _, _) => node == tag
    case SetAttribute(node, _, _) => node == tag
    case AssignElement(_, element) => element == Some(tag)
    case AddClasses(node, _) => node == tag
    case _ => false
  }

  datatype Bound = Bound(st: Inst, run: Run)

  /** One interpolated attribute `name` with argument `arg` on `tag`, bound at slot `r`:
      a reactive writes its current value and subscribes (a signal writes first, an
      effect subscribes first), a function under an `@` name becomes a wrapped
      listener, an unset ref receives the node, a style marker contributes its key,
      and any other value is written as the attribute's text without a binding. */
  function BindHoleRun(tag: NodeId, name: string, arg: Arg, st: Inst, r: nat): Bound
  {
    if arg.Reactive? then
      var sub := Subscription(st.handle, arg.id);
      var write := SetAttribute(tag, name, Plain(arg.current));
      var effects := if arg.isSignal then [write, Subscribe(sub, tag)] else [Subscribe(sub, tag), write];
      var st1 := st.(subs := [sub] + st.subs, handle := st.handle + 1);
      if r !in st.table then
        Bound(st1.(table := st.table[r := Bare([tag]).(attribute := Some(name), isAttributeValue := true,
                                                         isSubscription := true, subscription := Some([sub]))]),
              Run(effects, None))
      else
        var d := st.table[r].(root := st.table[r].root + [tag]);
        if d.subscription.None? then Bound(st1.(table := st.table[r := d]), Run(effects, Some(UndefinedProperty)))
        else Bound(st1.(table := st.table[r := d.(subscription := Some(d.subscription.value + [sub]))]), Run(effects, None))
    else if IsEventBinding(arg, name) then
      Bound(st.(table := BindRoot(st.table, r, Bare([tag]).(attribute := Some(name), isEvent := true), tag)),
            Run([AddListener(tag, name[1..], Wrapped(arg))], None))
    else if IsRef(arg) then
      Bound(st.(table := BindRoot(st.table, r, Bare([tag]).(isRef := true, ref := Some(arg)), tag)),
            Run([AssignElement(arg, Some(tag))], None))
    else if IsScopedCss(arg) then
      Bound(st.(table := BindRoot(st.table, r, Bare([tag]).(isCssKey := true), tag), cssKeys := st.cssKeys + [arg.key]), Ok)
    else
      Bound(st, Run([SetAttribute(tag, name, arg)], None))
  }

  /** A binding writes the table only at its slot. */
  lemma BindHoleWrites(tag: NodeId, name: string, arg: Arg, st: Inst, r: nat)
    ensures forall k: nat :: k != r ==> At(BindHoleRun(tag, name, arg, st, r).st.table, k) == At(st.table, k)
  {
  }

  /** At its slot a binding only grows the root list, by `tag` unless the value is
      written verbatim, and a fresh slot is rooted at `tag` alone. */
  lemma BindHoleRoots(tag: NodeId, name: string, arg: Arg, st: Inst, r: nat)
    ensures var t := BindHoleRun(tag, name, arg, st, r).st.table;
            && (r in st.table ==> r in t && t[r].root == st.table[r].root + (if IsLiteralAttribute(arg, name) then [] else [tag]))
            && (r !in st.table ==> (r in t <==> !IsLiteralAttribute(arg, name)) && (r in t ==> t[r].root == [tag]))
  {
  }

  /** A binding pushes a subscription exactly for a reactive, appends a key
      exactly for a style marker and allocates no anchor node. */
  lemma BindHoleState(tag: NodeId, name: string, arg: Arg, st: Inst, r: nat)
    ensures var b := BindHoleRun(tag, name, arg, st, r);
            && b.st.subs == (if arg.Reactive? then [Subscription(st.handle, arg.id)] else []) + st.subs
            && b.st.handle == st.handle + (if arg.Reactive? then 1 else 0) && b.st.node == st.node
            && b.st.cssKeys == st.cssKeys + (if !arg.Reactive? && !IsEventBinding(arg, name) && !IsRef(arg) && IsScopedCss(arg) then [arg.key] else [])
  {
  }

  /** Every effect of a binding is on `tag`, and it fails, with a missing property,
      exactly when a reactive meets a bound slot without a subscription list. */
  lemma BindHoleTouches(tag: NodeId, name: string, arg: Arg, st: Inst, r: nat)
    ensures var b := BindHoleRun(tag, name, arg, st, r);
            && (forall e :: e in b.run.effects ==> Touches(e, tag))
            && (b.run.err.Some? <==> arg.Reactive? && r in st.table && st.table[r].subscription.None?)
            && (b.run.err.Some? ==> b.run.err == Some(UndefinedProperty))
  {
  }

  /** The descriptor a fresh slot receives for a bound (non-literal) attribute argument. */
  predicate HoleBinding(d: Descriptor, tag: NodeId, name: string, arg: Arg, handle: nat)
  {
    if arg.Reactive? then
      d == Bare([tag]).(attribute := Some(name), isAttributeValue := true, isSubscription := true,
                        subscription := Some([Subscription(handle, arg.id)]))
    else if IsEventBinding(arg, name) then d == Bare([tag]).(attribute := Some(name), isEvent := true)
    else if IsRef(arg) then d == Bare([tag]).(isRef := true, ref := Some(arg))
    else d == Bare([tag]).(isCssKey := true)
  }

  /** The roles a binding gives: a fresh slot gets the descriptor of the argument's
      kind; a slot bound before keeps its role and only gains the node (and, for a
      reactive, the new subscription); a ref whose element is already set, like any
      other literal, is written as text and binds nothing. */
  lemma BindHoleRoles(tag: NodeId, name: string, arg: Arg, st: Inst, r: nat)
    ensures var b := BindHoleRun(tag, name, arg, st, r);
            && (r !in st.table && !IsLiteralAttribute(arg, name) ==> HoleBinding(b.st.table[r], tag, name, arg, st.handle))
            && (r in st.table && !IsLiteralAttribute(arg, name) ==>
                  b.st.table[r] == st.table[r].(root := st.table[r].root + [tag], subscription := b.st.table[r].subscription)
                  && (arg.Reactive? && b.run.err.None? ==>
                        b.st.table[r].subscription == Some(st.table[r].subscription.value + [Subscription(st.handle, arg.id)])))
            && (IsLiteralAttribute(arg, name) ==> b == Bound(st, Run([SetAttribute(tag, name, arg)], None)))
            && (arg.RefObj? && arg.element.Some? ==> b == Bound(st, Run([SetAttribute(tag, name, arg)], None)))
            && (IsEventBinding(arg, name) ==> b.run == Run([AddListener(tag, name[1..], Wrapped(arg))], None))
  {
  }

  /** An event listener bound at instantiation is never removed by a later
      `#clearReferences` of that slot: the removal names the event with its `@`
      and the raw function, while the listener was added without the `@` and wrapped. */
  lemma ListenerNeverRemoved(tag: NodeId, name: string, arg: Arg, st: Inst, r: nat)
    requires IsEventBinding(arg, name) && r !in st.table
    ensures var d := BindHoleRun(tag, name, arg, st, r).st.table[r];
            forall e :: e in ClearRun(d, arg).effects && e.RemoveListener? ==>
              e.node == tag && e.event != name[1..] && e.handler != Wrapped(arg)
  {
    var d := BindHoleRun(tag, name, arg, st, r).st.table[r];
    assert d == Bare([tag]).(attribute := Some(name), isEvent := true);
    assert AttrName(d) == name && d.root == [tag] && !d.isSubscription && !d.isRef;
    var effects := ClearRun(d, arg).effects;
    assert effects == seq(|d.root|, k requires 0 <= k < |d.root| => RemoveListener(d.root[k], AttrName(d), Raw(arg)));
    assert |effects| == 1 && effects[0] == RemoveListener(tag, name, Raw(arg));
    assert effects == [RemoveListener(tag, name, Raw(arg))];
    assert |name[1..]| < |name|;
  }

  /** A changed event handler is re-registered by phase 2 under the attribute name
      with its `@` and unwrapped, while the listener bound at instantiation was added
      without the `@` and wrapped: the new registration names an event no dispatch
      uses, and the old wrapper stays. */
  lemma PatchedListenerUnderPrefixedName(tag: NodeId, name: string, arg: Arg, st: Inst, r: nat, newer: Arg)
    requires IsEventBinding(arg, name) && r !in st.table
    ensures var d := BindHoleRun(tag, name, arg, st, r).st.table[r];
            && PatchSlot(newer, d) == Run([AddListener(tag, name, Raw(newer))], None)
            && AddListener(tag, name[1..], Wrapped(arg)) !in PatchSlot(newer, d).effects
  {
    var d := BindHoleRun(tag, name, arg, st, r).st.table[r];
    assert d == Bare([tag]).(attribute := Some(name), isEvent := true);
    assert AttrName(d) == name && d.root == [tag] && !d.isComponent;
    var effects := PatchSlot(newer, d).effects;
    assert |effects| == 1 && effects[0] == AddListener(tag, name, Raw(newer));
    assert effects == [AddListener(tag, name, Raw(newer))];
    assert |name[1..]| < |name|;
  }

  datatype Attrs = Attrs(next: nat, st: Inst, run: Run)

  /** `#setAttributes` over the first `n` attributes of `tag`: the component's style
      keys are added as classes first; then every hole consumes the next argument
      and the next slot, and every static attribute is written. */
  function SetAttributesRun(tag: NodeId, attributes: seq<Attribute>, args: seq<Arg>, idx: nat, st: Inst, refIdx: nat, n: nat): (a: Attrs)
    requires n <= |attributes|
    ensures idx <= a.next
    decreases n
  {
    if n == 0 then Attrs(idx, st, Run(if |st.cssKeys| > 0 then [AddClasses(tag, st.cssKeys)] else [], None))
    else
      var p := SetAttributesRun(tag, attributes, args, idx, st, refIdx, n - 1);
      var at := attributes[n - 1];
      if p.run.err.Some? then p
      else if at.value == Hole then
        var b := BindHoleRun(tag, at.name, Get(args, p.next), p.st, refIdx + (p.next - idx));
        Attrs(if b.run.err.None? then p.next + 1 else p.next, b.st, Then(p.run, b.run))
      else Attrs(p.next, p.st, Then(p.run, Run([SetAttribute(tag, at.name, Plain(at.value.text))], None)))
  }

  /** One more attribute extends `#setAttributes` by one step. */
  lemma SetAttributesNext(tag: NodeId, attributes: seq<Attribute>, args: seq<Arg>, idx: nat, st: Inst, refIdx: nat, i: nat)
    requires i < |attributes|
    ensures var p := SetAttributesRun(tag, attributes, args, idx, st, refIdx, i);
            var at := attributes[i];
            SetAttributesRun(tag, attributes, args, idx, st, refIdx, i + 1) ==
              if p.run.err.Some? then p
              else if at.value == Hole then
                var b := BindHoleRun(tag, at.name, Get(args, p.next), p.st, refIdx + (p.next - idx));
                Attrs(if b.run.err.None? then p.next + 1 else p.next, b.st, Then(p.run, b.run))
              else Attrs(p.next, p.st, Then(p.run, Run([SetAttribute(tag, at.name, Plain(at.value.text))], None)))
  {
  }

  /** A hole extends `#setAttributes` by the binding `b` of the next argument. */
  lemma SetAttributesHoleStep(tag: NodeId, attributes: seq<Attribute>, args: seq<Arg>, idx: nat, st: Inst, refIdx: nat, i: nat, p: Attrs, b: Bound)
    requires i < |attributes| && attributes[i].value == Hole
    requires p == SetAttributesRun(tag, attributes, args, idx, st, refIdx, i) && p.run.err.None?
    requires b == BindHoleRun(tag, attributes[i].name, Get(args, p.next), p.st, refIdx + (p.next - idx))
    ensures SetAttributesRun(tag, attributes, args, idx, st, refIdx, i + 1)
              == Attrs(if b.run.err.None? then p.next + 1 else p.next, b.st, Then(p.run, b.run))
  {
    SetAttributesNext(tag, attributes, args, idx, st, refIdx, i);
  }

  /** A literal attribute extends `#setAttributes` by one attribute write. */
  lemma SetAttributesTextStep(tag: NodeId, attributes: seq<Attribute>, args: seq<Arg>, idx: nat, st: Inst, refIdx: nat, i: nat, p: Attrs)
    requires i < |attributes| && attributes[i].value != Hole
    requires p == SetAttributesRun(tag, attributes, args, idx, st, refIdx, i) && p.run.err.None?
    ensures SetAttributesRun(tag, attributes, args, idx, st, refIdx, i + 1)
              == Attrs(p.next, p.st, Then(p.run, Run([SetAttribute(tag, attributes[i].name, Plain(attributes[i].value.text))], None)))
  {
    SetAttributesNext(tag, attributes, args, idx, st, refIdx, i);
  }

  lemma {:induction false} SetAttributesErrorSticks(tag: NodeId, attributes: seq<Attribute>, args: seq<Arg>, idx: nat, st: Inst, refIdx: nat, j: nat, n: nat)
    requires j <= n <= |attributes|
    requires SetAttributesRun(tag, attributes, args, idx, st, refIdx, j).run.err.Some?
    ensures SetAttributesRun(tag, attributes, args, idx, st, refIdx, n) == SetAttributesRun(tag, attributes, args, idx, st, refIdx, j)
    decreases n
  {
    if n > j {
      SetAttributesErrorSticks(tag, attributes, args, idx, st, refIdx, j, n - 1);
    }
  }

  /** The argument cursor of `#setAttributes` moves by the holes it bound, the only
      failure is a missing property, and without holes nothing is bound and nothing fails. */
  lemma {:induction false} SetAttributesCursor(tag: NodeId, attributes: seq<Attribute>, args: seq<Arg>, idx: nat, st: Inst, refIdx: nat, n: nat)
    requires n <= |attributes|
    ensures var a := SetAttributesRun(tag, attributes, args, idx, st, refIdx, n);
            && a.next <= idx + Holes(attributes[..n])
            && (a.run.err.None? ==> a.next == idx + Holes(attributes[..n]))
            && (a.run.err.Some? ==> a.run.err == Some(UndefinedProperty))
            && (Holes(attributes[..n]) == 0 ==> a.st.table == st.table && a.run.err.None?)
    decreases n
  {
    if n > 0 {
      var p := SetAttributesRun(tag, attributes, args, idx, st, refIdx, n - 1);
      var a := SetAttributesRun(tag, attributes, args, idx, st, refIdx, n);
      var at := attributes[n - 1];
      SetAttributesCursor(tag, attributes, args, idx, st, refIdx, n - 1);
      assert attributes[..n] == attributes[..n - 1] + [at];
      HolesSnoc(attributes[..n - 1], at);
      if p.run.err.Some? {
        assert a == p;
      } else if at.value == Hole {
        var rr := refIdx + (p.next - idx);
        var b := BindHoleRun(tag, at.name, Get(args, p.next), p.st, rr);
        BindHoleTouches(tag, at.name, Get(args, p.next), p.st, rr);
        assert a.st == b.st && a.run.err == b.run.err;
        assert a.next == if b.run.err.None? then p.next + 1 else p.next;
      } else {
        assert a.st == p.st && a.next == p.next && a.run.err.None?;
      }
    }
  }

  /** `#setAttributes` writes only the slots of the holes it reached: on success
      exactly the slots below the moved cursor, on failure also the failing one. */
  lemma {:induction false} SetAttributesWrites(tag: NodeId, attributes: seq<Attribute>, args: seq<Arg>, idx: nat, st: Inst, refIdx: nat, n: nat)
    requires n <= |attributes|
    ensures var a := SetAttributesRun(tag, attributes, args, idx, st, refIdx, n);
            && WritesWithin(st.table, a.st.table, refIdx, refIdx + (a.next - idx))
            && (a.run.err.None? ==> WritesWithin(st.table, a.st.table, refIdx, refIdx + (a.next - idx) - 1))
    decreases n
  {
    if n > 0 {
      var p := SetAttributesRun(tag, attributes, args, idx, st, refIdx, n - 1);
      var a := SetAttributesRun(tag, attributes, args, idx, st, refIdx, n);
      var at := attributes[n - 1];
      if p.run.err.Some? {
        assert a == p;
      } else if at.value == Hole {
        var rr := refIdx + (p.next - idx);
        var b := BindHoleRun(tag, at.name, Get(args, p.next), p.st, rr);
        assert a.st == b.st && a.run.err == b.run.err;
        assert a.next == if b.run.err.None? then p.next + 1 else p.next;
        BindHoleWrites(tag, at.name, Get(args, p.next), p.st, rr);
      } else {
        assert a.st == p.st && a.next == p.next && a.run.err.None?;
      }
      SetAttributesWrites(tag, attributes, args, idx, st, refIdx, n - 1);
    }
  }

  /** `#setAttributes` only grows root lists and roots every new slot at `tag`. */
  lemma {:induction false} SetAttributesRoots(tag: NodeId, attributes: seq<Attribute>, args: seq<Arg>, idx: nat, st: Inst, refIdx: nat, n: nat)
    requires n <= |attributes|
    ensures var a := SetAttributesRun(tag, attributes, args, idx, st, refIdx, n);
            && (forall k :: k in st.table ==> k in a.st.table && st.table[k].root <= a.st.table[k].root)
            && (forall k :: k in a.st.table && k !in st.table ==> a.st.table[k].root == [tag])
    decreases n
  {
    if n > 0 {
      var p := SetAttributesRun(tag, attributes, args, idx, st, refIdx, n - 1);
      var a := SetAttributesRun(tag, attributes, args, idx, st, refIdx, n);
      var at := attributes[n - 1];
      if p.run.err.Some? {
        assert a == p;
        SetAttributesRoots(tag, attributes, args, idx, st, refIdx, n - 1);
      } else if at.value == Hole {
        SetAttributesRoots(tag, attributes, args, idx, st, refIdx, n - 1);
        SetAttributesRootsHole(tag, attributes, args, idx, st, refIdx, n);
      } else {
        assert a.st == p.st;
        SetAttributesRoots(tag, attributes, args, idx, st, refIdx, n - 1);
      }
    }
  }

  /** The step of `SetAttributesRoots` for a last attribute that is a hole. */
  lemma SetAttributesRootsHole(tag: NodeId, attributes: seq<Attribute>, args: seq<Arg>, idx: nat, st: Inst, refIdx: nat, n: nat)
    requires 0 < n <= |attributes| && attributes[n - 1].value == Hole
    requires SetAttributesRun(tag, attributes, args, idx, st, refIdx, n - 1).run.err.None?
    requires var p := SetAttributesRun(tag, attributes, args, idx, st, refIdx, n - 1);
             && (forall k :: k in st.table ==> k in p.st.table && st.table[k].root <= p.st.table[k].root)
             && (forall k :: k in p.st.table && k !in st.table ==> p.st.table[k].root == [tag])
    ensures var a := SetAttributesRun(tag, attributes, args, idx, st, refIdx, n);
            && (forall k :: k in st.table ==> k in a.st.table && st.table[k].root <= a.st.table[k].root)
            && (forall k :: k in a.st.table && k !in st.table ==> a.st.table[k].root == [tag])
  {
    var p := SetAttributesRun(tag, attributes, args, idx, st, refIdx, n - 1);
    var a := SetAttributesRun(tag, attributes, args, idx, st, refIdx, n);
    var at := attributes[n - 1];
    var rr := refIdx + (p.next - idx);
    var b := BindHoleRun(tag, at.name, Get(args, p.next), p.st, rr);
    assert a.st == b.st;
    SetAttributesWrites(tag, attributes, args, idx, st, refIdx, n - 1);
    WritesWithinAt(st.table, p.st.table, refIdx, rr - 1, rr);
    BindHoleWrites(tag, at.name, Get(args, p.next), p.st, rr);
    BindHoleRoots(tag, at.name, Get(args, p.next), p.st, rr);
    forall k | k in st.table
      ensures k in a.st.table && st.table[k].root <= a.st.table[k].root
    {
      if k != rr {
        assert At(a.st.table, k) == At(p.st.table, k);
      }
    }
    forall k | k in a.st.table && k !in st.table
      ensures a.st.table[k].root == [tag]
    {
      if k != rr {
        assert At(a.st.table, k) == At(p.st.table, k);
      }
    }
  }

  /** `#setAttributes` pushes subscriptions at the head, appends style keys and
      allocates no anchor node. */
  lemma SetAttributesState(tag: NodeId, attributes: seq<Attribute>, args: seq<Arg>, idx: nat, st: Inst, refIdx: nat, n: nat)
    requires n <= |attributes|
    ensures var a := SetAttributesRun(tag, attributes, args, idx, st, refIdx, n);
            && |st.subs| <= |a.st.subs| && a.st.subs[|a.st.subs| - |st.subs|..] == st.subs
            && st.cssKeys <= a.st.cssKeys && a.st.node == st.node
  {
    SetAttributesSubs(tag, attributes, args, idx, st, refIdx, n);
    SetAttributesKeys(tag, attributes, args, idx, st, refIdx, n);
  }

  lemma {:induction false} SetAttributesSubs(tag: NodeId, attributes: seq<Attribute>, args: seq<Arg>, idx: nat, st: Inst, refIdx: nat, n: nat)
    requires n <= |attributes|
    ensures EndsWith(SetAttributesRun(tag, attributes, args, idx, st, refIdx, n).st.subs, st.subs)
    decreases n
  {
    if n > 0 {
      SetAttributesSubs(tag, attributes, args, idx, st, refIdx, n - 1);
      var p := SetAttributesRun(tag, attributes, args, idx, st, refIdx, n - 1);
      var a := SetAttributesRun(tag, attributes, args, idx, st, refIdx, n);
      var at := attributes[n - 1];
      if p.run.err.Some? {
        assert a == p;
      } else if at.value != Hole {
        assert a.st == p.st;
      } else {
        var arg := Get(args, p.next);
        var b := BindHoleRun(tag, at.name, arg, p.st, refIdx + (p.next - idx));
        assert a.st == b.st;
        BindHoleState(tag, at.name, arg, p.st, refIdx + (p.next - idx));
        PushedSuffix(if arg.Reactive? then [Subscription(p.st.handle, arg.id)] else [], p.st.subs, st.subs);
      }
    }
  }

  lemma {:induction false} SetAttributesKeys(tag: NodeId, attributes: seq<Attribute>, args: seq<Arg>, idx: nat, st: Inst, refIdx: nat, n: nat)
    requires n <= |attributes|
    ensures var a := SetAttributesRun(tag, attributes, args, idx, st, refIdx, n);
            st.cssKeys <= a.st.cssKeys && a.st.node == st.node
    decreases n
  {
    if n > 0 {
      SetAttributesKeys(tag, attributes, args, idx, st, refIdx, n - 1);
      var p := SetAttributesRun(tag, attributes, args, idx, st, refIdx, n - 1);
      var a := SetAttributesRun(tag, attributes, args, idx, st, refIdx, n);
      var at := attributes[n - 1];
      if p.run.err.Some? {
        assert a == p;
      } else if at.value != Hole {
        assert a.st == p.st;
      } else {
        var arg := Get(args, p.next);
        var b := BindHoleRun(tag, at.name, arg, p.st, refIdx + (p.next - idx));
        assert a.st == b.st;
        BindHoleState(tag, at.name, arg, p.st, refIdx + (p.next - idx));
      }
    }
  }

  /** Every effect of `#setAttributes` is on `tag`. */
  lemma {:induction false} SetAttributesTouches(tag: NodeId, attributes: seq<Attribute>, args: seq<Arg>, idx: nat, st: Inst, refIdx: nat, n: nat)
    requires n <= |attributes|
    ensures forall e :: e in SetAttributesRun(tag, attributes, args, idx, st, refIdx, n).run.effects ==> Touches(e, tag)
    decreases n
  {
    if n > 0 {
      var p := SetAttributesRun(tag, attributes, args, idx, st, refIdx, n - 1);
      var a := SetAttributesRun(tag, attributes, args, idx, st, refIdx, n);
      var at := attributes[n - 1];
      if p.run.err.Some? {
        assert a == p;
      } else if at.value == Hole {
        var b := BindHoleRun(tag, at.name, Get(args, p.next), p.st, refIdx + (p.next - idx));
        assert a.run.effects == p.run.effects + b.run.effects;
        BindHoleTouches(tag, at.name, Get(args, p.next), p.st, refIdx + (p.next - idx));
      } else {
        var e1 := SetAttribute(tag, at.name, Plain(at.value.text));
        assert a.run.effects == p.run.effects + [e1] && Touches(e1, tag);
      }
      SetAttributesTouches(tag, attributes, args, idx, st, refIdx, n - 1);
    }
  }

  lemma SeqAssoc<T>(a: seq<T>, b: seq<T>, c: seq<T>)
    ensures (a + b) + c == a + (b + c)
  {
  }

  /** Pushing at the head keeps a tail. */
  predicate EndsWith<T(==)>(y: seq<T>, x: seq<T>)
  {
    |x| <= |y| && y[|y| - |x|..] == x
  }

  lemma PushedSuffix<T>(pre: seq<T>, y: seq<T>, x: seq<T>)
    requires EndsWith(y, x)
    ensures EndsWith(pre + y, x)
  {
    assert (pre + y)[|pre + y| - |x|..] == y[|y| - |x|..];
  }

  /** What `#setAttributes` leaves, all together. */
  lemma SetAttributesFrame(tag: NodeId, attributes: seq<Attribute>, args: seq<Arg>, idx: nat, st: Inst, refIdx: nat, n: nat)
    requires n <= |attributes|
    ensures var a := SetAttributesRun(tag, attributes, args, idx, st, refIdx, n);
            && a.next <= idx + Holes(attributes[..n])
            && (a.run.err.None? ==> a.next == idx + Holes(attributes[..n]))
            && WritesWithin(st.table, a.st.table, refIdx, refIdx + (a.next - idx))
            && (a.run.err.None? ==> WritesWithin(st.table, a.st.table, refIdx, refIdx + (a.next - idx) - 1))
            && (a.run.err.Some? ==> a.run.err == Some(UndefinedProperty))
            && (Holes(attributes[..n]) == 0 ==> a.st.table == st.table && a.run.err.None?)
  {
    SetAttributesCursor(tag, attributes, args, idx, st, refIdx, n);
    SetAttributesWrites(tag, attributes, args, idx, st, refIdx, n);
  }

  /** On success, the hole at attribute `j` was bound at slot `refIdx` plus the
      holes before it, with the argument at the same offset from `idx`; a fresh
      slot received the descriptor of that argument's kind. */
  lemma {:induction false} SetAttributesBindings(tag: NodeId, attributes: seq<Attribute>, args: seq<Arg>, idx: nat, st: Inst, refIdx: nat, n: nat)
    requires n <= |attributes|
    ensures var a := SetAttributesRun(tag, attributes, args, idx, st, refIdx, n);
            a.run.err.None? ==>
              forall j :: 0 <= j < n && attributes[j].value == Hole ==>
                AttributeBound(tag, attributes, args, idx, st, refIdx, a.st.table, j)
    decreases n
  {
    if n > 0 {
      var a := SetAttributesRun(tag, attributes, args, idx, st, refIdx, n);
      var p := SetAttributesRun(tag, attributes, args, idx, st, refIdx, n - 1);
      SetAttributesBindings(tag, attributes, args, idx, st, refIdx, n - 1);
      if p.run.err.Some? {
        assert a == p;
      } else if attributes[n - 1].value != Hole {
        assert a.st == p.st && a.run.err.None?;
        forall j | 0 <= j < n && attributes[j].value == Hole
          ensures AttributeBound(tag, attributes, args, idx, st, refIdx, a.st.table, j)
        {
          assert j < n - 1;
        }
      } else if a.run.err.None? {
        SetAttributesBindsEarlier(tag, attributes, args, idx, st, refIdx, n);
      }
    }
  }

  /** Appending a hole leaves the bindings of the earlier holes in place. */
  lemma SetAttributesBindsEarlier(tag: NodeId, attributes: seq<Attribute>, args: seq<Arg>, idx: nat, st: Inst, refIdx: nat, n: nat)
    requires 0 < n <= |attributes| && attributes[n - 1].value == Hole
    requires SetAttributesRun(tag, attributes, args, idx, st, refIdx, n).run.err.None?
    requires var p := SetAttributesRun(tag, attributes, args, idx, st, refIdx, n - 1);
             forall j :: 0 <= j < n - 1 && attributes[j].value == Hole ==>
               AttributeBound(tag, attributes, args, idx, st, refIdx, p.st.table, j)
    ensures var a := SetAttributesRun(tag, attributes, args, idx, st, refIdx, n);
            forall j :: 0 <= j < n && attributes[j].value == Hole ==>
              AttributeBound(tag, attributes, args, idx, st, refIdx, a.st.table, j)
  {
    var a := SetAttributesRun(tag, attributes, args, idx, st, refIdx, n);
    var p := SetAttributesRun(tag, attributes, args, idx, st, refIdx, n - 1);
    SetAttributesBindsLast(tag, attributes, args, idx, st, refIdx, n);
    forall j | 0 <= j < n - 1 && attributes[j].value == Hole
      ensures AttributeBound(tag, attributes, args, idx, st, refIdx, a.st.table, j)
    {
      HolesMono(attributes, j + 1, n - 1);
      assert attributes[..j + 1] == attributes[..j] + [attributes[j]];
      HolesSnoc(attributes[..j], attributes[j]);
      var slot := refIdx + Holes(attributes[..j]);
      assert At(a.st.table, slot) == At(p.st.table, slot);
      AttributeBoundAt(tag, attributes, args, idx, st, refIdx, p.st.table, a.st.table, j);
    }
  }

  /** The step of `SetAttributesBindings` for a last attribute that is a hole. */
  lemma SetAttributesBindsLast(tag: NodeId, attributes: seq<Attribute>, args: seq<Arg>, idx: nat, st: Inst, refIdx: nat, n: nat)
    requires 0 < n <= |attributes| && attributes[n - 1].value == Hole
    requires SetAttributesRun(tag, attributes, args, idx, st, refIdx, n).run.err.None?
    ensures var a := SetAttributesRun(tag, attributes, args, idx, st, refIdx, n);
            var p := SetAttributesRun(tag, attributes, args, idx, st, refIdx, n - 1);
            && AttributeBound(tag, attributes, args, idx, st, refIdx, a.st.table, n - 1)
            && forall k: nat :: k < refIdx + Holes(attributes[..n - 1]) ==> At(a.st.table, k) == At(p.st.table, k)
  {
    SetAttributesBindsSlot(tag, attributes, args, idx, st, refIdx, n);
    SetAttributesBindsBelow(tag, attributes, args, idx, st, refIdx, n);
  }

  lemma SetAttributesBindsSlot(tag: NodeId, attributes: seq<Attribute>, args: seq<Arg>, idx: nat, st: Inst, refIdx: nat, n: nat)
    requires 0 < n <= |attributes| && attributes[n - 1].value == Hole
    requires SetAttributesRun(tag, attributes, args, idx, st, refIdx, n).run.err.None?
    ensures AttributeBound(tag, attributes, args, idx, st, refIdx, SetAttributesRun(tag, attributes, args, idx, st, refIdx, n).st.table, n - 1)
  {
    var a := SetAttributesRun(tag, attributes, args, idx, st, refIdx, n);
    var p := SetAttributesRun(tag, attributes, args, idx, st, refIdx, n - 1);
    assert p.run.err.None?;
    var r := refIdx + (p.next - idx);
    var arg := Get(args, p.next);
    var b := BindHoleRun(tag, attributes[n - 1].name, arg, p.st, r);
    assert a.st == b.st;
    SetAttributesCursor(tag, attributes, args, idx, st, refIdx, n - 1);
    SetAttributesWrites(tag, attributes, args, idx, st, refIdx, n - 1);
    WritesWithinAt(st.table, p.st.table, refIdx, r - 1, r);
    assert r == refIdx + Holes(attributes[..n - 1]) && arg == Get(args, idx + Holes(attributes[..n - 1]));
    BindHoleRoles(tag, attributes[n - 1].name, arg, p.st, r);
    BindHoleRoots(tag, attributes[n - 1].name, arg, p.st, r);
    if r !in st.table && !IsLiteralAttribute(arg, attributes[n - 1].name) {
      assert HoleBinding(a.st.table[r], tag, attributes[n - 1].name, arg, p.st.handle);
    }
  }

  lemma SetAttributesBindsBelow(tag: NodeId, attributes: seq<Attribute>, args: seq<Arg>, idx: nat, st: Inst, refIdx: nat, n: nat)
    requires 0 < n <= |attributes| && attributes[n - 1].value == Hole
    requires SetAttributesRun(tag, attributes, args, idx, st, refIdx, n).run.err.None?
    ensures var a := SetAttributesRun(tag, attributes, args, idx, st, refIdx, n);
            var p := SetAttributesRun(tag, attributes, args, idx, st, refIdx, n - 1);
            forall k: nat :: k < refIdx + Holes(attributes[..n - 1]) ==> At(a.st.table, k) == At(p.st.table, k)
  {
    var a := SetAttributesRun(tag, attributes, args, idx, st, refIdx, n);
    var p := SetAttributesRun(tag, attributes, args, idx, st, refIdx, n - 1);
    assert p.run.err.None?;
    var r := refIdx + (p.next - idx);
    var arg := Get(args, p.next);
    var b := BindHoleRun(tag, attributes[n - 1].name, arg, p.st, r);
    assert a.st == b.st;
    SetAttributesCursor(tag, attributes, args, idx, st, refIdx, n - 1);
    BindHoleWrites(tag, attributes[n - 1].name, arg, p.st, r);
  }

  /** Whether a hole is bound depends on the table only at its slot. */
  lemma AttributeBoundAt(tag: NodeId, attributes: seq<Attribute>, args: seq<Arg>, idx: nat, st: Inst, refIdx: nat, t1: Table, t2: Table, j: nat)
    requires j < |attributes|
    requires At(t1, refIdx + Holes(attributes[..j])) == At(t2, refIdx + Holes(attributes[..j]))
    requires AttributeBound(tag, attributes, args, idx, st, refIdx, t1, j)
    ensures AttributeBound(tag, attributes, args, idx, st, refIdx, t2, j)
  {
    var slot := refIdx + Holes(attributes[..j]);
    assert slot in t1 <==> slot in t2;
    if slot in t1 {
      assert t1[slot] == t2[slot];
    }
  }

  /** A hole `j` whose slot was free before `#setAttributes` is, in `table`, bound
      with the descriptor of its argument's kind, rooted at `tag`, or, for a value
      written verbatim, left unbound. */
  ghost predicate AttributeBound(tag: NodeId, attributes: seq<Attribute>, args: seq<Arg>, idx: nat, st: Inst, refIdx: nat, table: Table, j: nat)
    requires j < |attributes|
  {
    var slot := refIdx + Holes(attributes[..j]);
    var arg := Get(args, idx + Holes(attributes[..j]));
    && (slot !in st.table && !IsLiteralAttribute(arg, attributes[j].name) ==>
          slot in table && table[slot].root == [tag]
          && exists h :: HoleBinding(table[slot], tag, attributes[j].name, arg, h))
    && (slot !in st.table && IsLiteralAttribute(arg, attributes[j].name) ==> slot !in table)
  }

  /** The holes of a prefix never exceed those of a longer prefix. */
  lemma {:induction false} HolesMono(attributes: seq<Attribute>, a: nat, b: nat)
    requires a <= b <= |attributes|
    ensures Holes(attributes[..a]) <= Holes(attributes[..b])
    decreases b - a
  {
    if a < b {
      HolesMono(attributes, a, b - 1);
      assert attributes[..b] == attributes[..b - 1] + [attributes[b - 1]];
      HolesSnoc(attributes[..b - 1], attributes[b - 1]);
    }
  }

  /** A hole before position `b` leaves fewer holes before it than before `b`. */
  lemma HolesBelow(attributes: seq<Attribute>, j: nat, b: nat)
    requires j < b <= |attributes| && attributes[j].value == Hole
    ensures Holes(attributes[..j]) < Holes(attributes[..b])
  {
    HolesMono(attributes, j + 1, b);
    assert attributes[..j + 1] == attributes[..j] + [attributes[j]];
    HolesSnoc(attributes[..j], attributes[j]);
  }

  datatype Element = Element(created: Created, st: Inst, run: Run)

  /** `#createElement`: the node for one leaf. A static tag consumes no slot; a
      dynamic tag binds the slot `refIdx`: a component or a component list gets a
      fresh empty text node inserted before its first node as its anchor, a
      reactive adds the handle of its subscription to the slot, and a literal
      tag name binds the created element. */
  function CreateElementRun(leaf: Tree, args: seq<Arg>, idx: nat, st: Inst, refIdx: nat, dom: Dom): Element
  {
    var value := Get(args, idx);
    if leaf.tag.Static? then Element(dom.element(Plain(leaf.tag.name), leaf).(usedArgs := 0), st, Ok)
    else if value.Comp? || IsComponentList(value) then NestedElement(leaf, args, idx, st, refIdx, dom)
    else if value.Reactive? then ReactiveElement(leaf, args, idx, st, refIdx, dom)
    else
      var created := dom.element(value, leaf).(usedArgs := 1);
      Element(created, st.(table := BindRoot(st.table, refIdx, Bare([created.tag[0]]).(isTagName := true, isTextNode := leaf.isTextNode), created.tag[0])), Ok)
  }

  /** A component or a component list in tag position: its factory receives the
      arguments after it and the table, and a fresh anchor is inserted before its
      first node. */
  function NestedElement(leaf: Tree, args: seq<Arg>, idx: nat, st: Inst, refIdx: nat, dom: Dom): Element
    requires Get(args, idx).Comp? || IsComponentList(Get(args, idx))
  {
    var value := Get(args, idx);
    var sliced := JsSlice(args, idx + 1, leaf.numOfInterpolations + 1);
    var res := if value.Comp? then dom.component(value.c, leaf, sliced, st.table, refIdx)
               else dom.componentList(value.items, leaf, sliced, st.table, refIdx);
    var anchor := st.node;
    Element(res.0, st.(table := BindRoot(res.1, refIdx, Bare([anchor]).(isComponent := true, children := Some(leaf)), anchor),
                       node := st.node + 1),
            Run([InsertBefore(res.0.tag[0], anchor)], None))
  }

  /** A reactive in tag position: its factory receives the arguments, the cursor and
      the table; its subscription goes to the head of the list and to the end of the
      slot's list in the table the factory left; an unbound slot is a missing property. */
  function ReactiveElement(leaf: Tree, args: seq<Arg>, idx: nat, st: Inst, refIdx: nat, dom: Dom): Element
    requires Get(args, idx).Reactive?
  {
    var value := Get(args, idx);
    var res := dom.reactive(value, leaf, args, idx, st.table, refIdx);
    var written := res.1;
    var sub := Subscription(st.handle, value.id);
    var st1 := st.(subs := [sub] + st.subs, handle := st.handle + 1);
    if refIdx !in written then Element(res.0, st1.(table := written), Run([], Some(UndefinedProperty)))
    else
      var d := written[refIdx];
      Element(res.0, st1.(table := written[refIdx := d.(subscription := Some(if d.subscription.None? then [sub] else d.subscription.value + [sub]))]), Ok)
  }

  /** What `#createElement` binds at `refIdx`: a literal tag name marks the slot as a
      tag name with the created element as a root; a component or a component list
      roots the slot at a fresh anchor node inserted before its first node (see
      `CreateElementNested` for the descriptor); a reactive
      pushes one subscription at the head and appends it to the slot's list, and
      fails only when neither the table nor the reactive factory bound the slot.
      The element is the factory's own result in every case.
      Only a reactive touches the subscriptions, and only a component slot the node
      counter. */
  lemma CreateElementBindings(leaf: Tree, args: seq<Arg>, idx: nat, st: Inst, refIdx: nat, dom: Dom)
    ensures var e := CreateElementRun(leaf, args, idx, st, refIdx, dom);
            var value := Get(args, idx);
            && (leaf.tag.Static? ==> e == Element(dom.element(Plain(leaf.tag.name), leaf).(usedArgs := 0), st, Ok))
            && (leaf.tag == Dynamic && IsLiteral(value) ==>
                  && e.run == Ok && e.created == dom.element(value, leaf).(usedArgs := 1) && e.st.subs == st.subs && e.st.node == st.node
                  && refIdx in e.st.table && Last(e.st.table[refIdx].root) == Some(e.created.tag[0])
                  && (refIdx !in st.table ==> e.st.table[refIdx] == Bare([e.created.tag[0]]).(isTagName := true, isTextNode := leaf.isTextNode))
                  && (refIdx in st.table ==> e.st.table[refIdx] == st.table[refIdx].(root := st.table[refIdx].root + [e.created.tag[0]])))
            && (leaf.tag == Dynamic && (value.Comp? || IsComponentList(value)) ==>
                  && e.run == Run([InsertBefore(e.created.tag[0], st.node)], None)
                  && e.st.node == st.node + 1 && e.st.subs == st.subs
                  && refIdx in e.st.table && Last(e.st.table[refIdx].root) == Some(st.node))
            && (leaf.tag == Dynamic && value.Reactive? ==>
                  && e.created == dom.reactive(value, leaf, args, idx, st.table, refIdx).0
                  && e.st.subs == [Subscription(st.handle, value.id)] + st.subs && e.st.handle == st.handle + 1
                  && (e.run.err.Some? <==> refIdx !in dom.reactive(value, leaf, args, idx, st.table, refIdx).1)
                  && (forall k: nat :: k != refIdx ==> At(e.st.table, k) == At(dom.reactive(value, leaf, args, idx, st.table, refIdx).1, k))
                  && (e.run.err.None? ==> e.st.table[refIdx].subscription.Some?
                                           && |e.st.table[refIdx].subscription.value| > 0
                                           && e.st.table[refIdx].subscription.value[|e.st.table[refIdx].subscription.value| - 1]
                                                == Subscription(st.handle, value.id)))
            && (e.run.err.Some? ==> e.run.err == Some(UndefinedProperty))
            && (!(leaf.tag == Dynamic && value.Reactive?) ==> e.st.subs == st.subs && e.st.handle == st.handle)
            && e.st.cssKeys == st.cssKeys
  {
  }

  /** A component or a component list in tag position: the element is the one its
      factory returned, given the arguments after the tag and the table; the slot
      is rooted at the fresh anchor, as a component slot carrying the leaf when the
      factory left it unbound; every other slot is as the factory left it. */
  lemma CreateElementNested(leaf: Tree, args: seq<Arg>, idx: nat, st: Inst, refIdx: nat, dom: Dom)
    requires leaf.tag == Dynamic && (Get(args, idx).Comp? || IsComponentList(Get(args, idx)))
    ensures var e := CreateElementRun(leaf, args, idx, st, refIdx, dom);
            var value := Get(args, idx);
            var sliced := JsSlice(args, idx + 1, leaf.numOfInterpolations + 1);
            var res := if value.Comp? then dom.component(value.c, leaf, sliced, st.table, refIdx)
                       else dom.componentList(value.items, leaf, sliced, st.table, refIdx);
            && e.created == res.0
            && (refIdx !in res.1 ==> e.st.table[refIdx] == Bare([st.node]).(isComponent := true, children := Some(leaf)))
            && (refIdx in res.1 ==> e.st.table[refIdx] == res.1[refIdx].(root := res.1[refIdx].root + [st.node]))
            && (forall k: nat :: k != refIdx ==> At(e.st.table, k) == At(res.1, k))
  {
  }

  /** When its factory call is confined, `#createElement` writes only the slots its leaf consumes. */
  lemma CreateElementFrame(leaf: Tree, args: seq<Arg>, idx: nat, st: Inst, refIdx: nat, dom: Dom)
    requires ConfinedCall(dom, leaf, args, idx, st.table, refIdx)
    ensures var e := CreateElementRun(leaf, args, idx, st, refIdx, dom);
            WritesWithin(st.table, e.st.table, refIdx, refIdx + e.created.usedArgs)
  {
    var value := Get(args, idx);
    if leaf.tag == Dynamic && (value.Comp? || IsComponentList(value)) {
      var sliced := JsSlice(args, idx + 1, leaf.numOfInterpolations + 1);
      if value.Comp? {
        var res := dom.component(value.c, leaf, sliced, st.table, refIdx);
        assert WritesWithin(st.table, res.1, refIdx, refIdx + res.0.usedArgs);
      } else {
        var res := dom.componentList(value.items, leaf, sliced, st.table, refIdx);
        assert WritesWithin(st.table, res.1, refIdx, refIdx + res.0.usedArgs);
      }
    } else if leaf.tag == Dynamic && value.Reactive? {
      var res := dom.reactive(value, leaf, args, idx, st.table, refIdx);
      assert WritesWithin(st.table, res.1, refIdx, refIdx);
    }
  }

  /** The table a leaf that takes no attributes leaves: each of its first `n`
      holes binds its slot to a descriptor without nodes, naming the attribute. */
  function NodelessRun(attributes: seq<Attribute>, n: nat, table: Table, r: nat): Table
    requires n <= |attributes|
    decreases n
  {
    if n == 0 then table
    else
      var t := NodelessRun(attributes, n - 1, table, r);
      if attributes[n - 1].value == Hole
      then t[r + Holes(attributes[..n - 1]) := Bare([]).(attribute := Some(attributes[n - 1].name), isAttributeValue := true)]
      else t
  }

  /** Each hole's slot holds its node-less descriptor, and nothing outside the holes' slots is written. */
  lemma {:induction false} NodelessBindings(attributes: seq<Attribute>, n: nat, table: Table, r: nat)
    requires n <= |attributes|
    ensures var t := NodelessRun(attributes, n, table, r);
            && WritesWithin(table, t, r, r + Holes(attributes[..n]) - 1)
            && forall j :: 0 <= j < n && attributes[j].value == Hole ==>
                 At(t, r + Holes(attributes[..j])) == Some(Bare([]).(attribute := Some(attributes[j].name), isAttributeValue := true))
    decreases n
  {
    if n > 0 {
      NodelessBindings(attributes, n - 1, table, r);
      assert attributes[..n] == attributes[..n - 1] + [attributes[n - 1]];
      HolesSnoc(attributes[..n - 1], attributes[n - 1]);
      forall j | 0 <= j < n - 1 && attributes[j].value == Hole
        ensures Holes(attributes[..j]) < Holes(attributes[..n - 1])
      {
        HolesBelow(attributes, j, n - 1);
      }
    }
  }

  datatype Leaf = Leaf(created: Created, next: nat, st: Inst, run: Run)

  /** One element leaf of `#createDOMRecursive`: created, then the cursors move by
      the slots its tag used; then each interpolated attribute consumes one slot,
      either bound on the element or, when the element takes no attributes,
      recorded as a node-less descriptor. */
  function InstantiateLeafRun(leaf: Tree, args: seq<Arg>, idx: nat, st: Inst, refIdx: nat, dom: Dom): (l: Leaf)
    ensures idx <= l.next
  {
    LeafAttributesRun(leaf, args, idx, refIdx, CreateElementRun(leaf, args, idx, st, refIdx, dom))
  }

  /** The part of a leaf after its element `e` is created. */
  function LeafAttributesRun(leaf: Tree, args: seq<Arg>, idx: nat, refIdx: nat, e: Element): (l: Leaf)
    ensures idx <= l.next
  {
    if e.run.err.Some? then Leaf(e.created, idx, e.st, e.run)
    else
      var next := idx + e.created.usedArgs;
      var r := refIdx + e.created.usedArgs;
      if e.created.needAttributes then
        var a := SetAttributesRun(e.created.tag[0], leaf.attributes, args, next, e.st, r, |leaf.attributes|);
        Leaf(e.created, a.next, a.st, Then(e.run, a.run))
      else
        Leaf(e.created, next + Holes(leaf.attributes), e.st.(table := NodelessRun(leaf.attributes, |leaf.attributes|, e.st.table, r)), e.run)
  }

  /** `LeafAttributesRun` one case at a time. */
  lemma LeafCases(leaf: Tree, args: seq<Arg>, idx: nat, refIdx: nat, e: Element)
    ensures var l := LeafAttributesRun(leaf, args, idx, refIdx, e);
            var next := idx + e.created.usedArgs;
            var r := refIdx + e.created.usedArgs;
            && (e.run.err.Some? ==> l == Leaf(e.created, idx, e.st, e.run))
            && (e.run.err.None? && e.created.needAttributes ==>
                  var a := SetAttributesRun(e.created.tag[0], leaf.attributes, args, next, e.st, r, |leaf.attributes|);
                  l == Leaf(e.created, a.next, a.st, Then(e.run, a.run)))
            && (e.run.err.None? && !e.created.needAttributes ==>
                  l == Leaf(e.created, next + Holes(leaf.attributes), e.st.(table := NodelessRun(leaf.attributes, |leaf.attributes|, e.st.table, r)), e.run))
  {
  }

  /** What one leaf consumes: on success the cursor moves by the slots of its
      tag and of its holes, the failure is always a missing property, and a
      static leaf without holes changes nothing. */
  lemma InstantiateLeafCursor(leaf: Tree, args: seq<Arg>, idx: nat, st: Inst, refIdx: nat, dom: Dom)
    ensures var l := InstantiateLeafRun(leaf, args, idx, st, refIdx, dom);
            && (l.run.err.None? ==> l.next == idx + l.created.usedArgs + Holes(leaf.attributes))
            && (l.run.err.Some? ==> l.run.err == Some(UndefinedProperty))
            && (leaf.tag.Static? && Holes(leaf.attributes) == 0 ==> l.run.err.None? && l.next == idx && l.st.table == st.table)
  {
    var e := CreateElementRun(leaf, args, idx, st, refIdx, dom);
    CreateElementBindings(leaf, args, idx, st, refIdx, dom);
    LeafCursor(leaf, args, idx, refIdx, e, st.table);
  }

  /** `InstantiateLeafCursor` for any created element that fails only on a
      missing property and that a static tag leaves as it found it. */
  lemma LeafCursor(leaf: Tree, args: seq<Arg>, idx: nat, refIdx: nat, e: Element, table: Table)
    requires e.run.err.Some? ==> e.run.err == Some(UndefinedProperty)
    requires leaf.tag.Static? ==> e.run == Ok && e.created.usedArgs == 0 && e.st.table == table
    ensures var l := LeafAttributesRun(leaf, args, idx, refIdx, e);
            && (l.run.err.None? ==> l.next == idx + l.created.usedArgs + Holes(leaf.attributes))
            && (l.run.err.Some? ==> l.run.err == Some(UndefinedProperty))
            && (leaf.tag.Static? && Holes(leaf.attributes) == 0 ==> l.run.err.None? && l.next == idx && l.st.table == table)
  {
    var l := LeafAttributesRun(leaf, args, idx, refIdx, e);
    if e.run.err.Some? {
      assert l == Leaf(e.created, idx, e.st, e.run);
    } else {
      var next := idx + e.created.usedArgs;
      var r := refIdx + e.created.usedArgs;
      assert leaf.attributes[..|leaf.attributes|] == leaf.attributes;
      if e.created.needAttributes {
        var a := SetAttributesRun(e.created.tag[0], leaf.attributes, args, next, e.st, r, |leaf.attributes|);
        assert l == Leaf(e.created, a.next, a.st, Then(e.run, a.run));
        SetAttributesCursor(e.created.tag[0], leaf.attributes, args, next, e.st, r, |leaf.attributes|);
      } else {
        assert l.next == next + Holes(leaf.attributes) && l.run == e.run;
        assert l.st.table == NodelessRun(leaf.attributes, |leaf.attributes|, e.st.table, r);
        if Holes(leaf.attributes) == 0 {
          NodelessIdentity(leaf.attributes, |leaf.attributes|, e.st.table, r);
        }
      }
    }
  }

  /** What one leaf writes: under a confined factory only the slots of its tag
      and of the holes it reached. */
  lemma InstantiateLeafWrites(leaf: Tree, args: seq<Arg>, idx: nat, st: Inst, refIdx: nat, dom: Dom)
    requires ConfinedCall(dom, leaf, args, idx, st.table, refIdx)
    ensures var l := InstantiateLeafRun(leaf, args, idx, st, refIdx, dom);
            WritesWithin(st.table, l.st.table, refIdx, refIdx + (l.next - idx))
  {
    var e := CreateElementRun(leaf, args, idx, st, refIdx, dom);
    var l := InstantiateLeafRun(leaf, args, idx, st, refIdx, dom);
    CreateElementFrame(leaf, args, idx, st, refIdx, dom);
    if e.run.err.Some? {
      assert l == Leaf(e.created, idx, e.st, e.run);
      var value := Get(args, idx);
      assert leaf.tag == Dynamic && value.Reactive? && e == ReactiveElement(leaf, args, idx, st, refIdx, dom);
      forall k: nat | k != refIdx
        ensures At(l.st.table, k) == At(st.table, k)
      {
      }
    } else {
      var next := idx + e.created.usedArgs;
      var r := refIdx + e.created.usedArgs;
      if e.created.needAttributes {
        var a := SetAttributesRun(e.created.tag[0], leaf.attributes, args, next, e.st, r, |leaf.attributes|);
        assert l == Leaf(e.created, a.next, a.st, Then(e.run, a.run));
        SetAttributesWrites(e.created.tag[0], leaf.attributes, args, next, e.st, r, |leaf.attributes|);
        WritesWithinTrans(st.table, e.st.table, l.st.table, refIdx, r, r, refIdx + (l.next - idx));
      } else {
        var t := NodelessRun(leaf.attributes, |leaf.attributes|, e.st.table, r);
        assert l.next == next + Holes(leaf.attributes) && l.st.table == t;
        assert leaf.attributes[..|leaf.attributes|] == leaf.attributes;
        if Holes(leaf.attributes) == 0 {
          NodelessIdentity(leaf.attributes, |leaf.attributes|, e.st.table, r);
        } else {
          NodelessBindings(leaf.attributes, |leaf.attributes|, e.st.table, r);
          WritesWithinTrans(st.table, e.st.table, t, refIdx, r, r, r + Holes(leaf.attributes) - 1);
        }
      }
    }
  }

  /** Without attributes to set, each hole's slot of a leaf gets its node-less descriptor. */
  lemma InstantiateLeafNodeless(leaf: Tree, args: seq<Arg>, idx: nat, st: Inst, refIdx: nat, dom: Dom)
    ensures var l := InstantiateLeafRun(leaf, args, idx, st, refIdx, dom);
            l.run.err.None? && !l.created.needAttributes ==>
              forall j :: 0 <= j < |leaf.attributes| && leaf.attributes[j].value == Hole ==>
                At(l.st.table, refIdx + l.created.usedArgs + Holes(leaf.attributes[..j]))
                  == Some(Bare([]).(attribute := Some(leaf.attributes[j].name), isAttributeValue := true))
  {
    var e := CreateElementRun(leaf, args, idx, st, refIdx, dom);
    LeafNodeless(leaf, args, idx, refIdx, e);
  }

  lemma LeafNodeless(leaf: Tree, args: seq<Arg>, idx: nat, refIdx: nat, e: Element)
    ensures var l := LeafAttributesRun(leaf, args, idx, refIdx, e);
            l.run.err.None? && !l.created.needAttributes ==>
              forall j :: 0 <= j < |leaf.attributes| && leaf.attributes[j].value == Hole ==>
                At(l.st.table, refIdx + l.created.usedArgs + Holes(leaf.attributes[..j]))
                  == Some(Bare([]).(attribute := Some(leaf.attributes[j].name), isAttributeValue := true))
  {
    if e.run.err.None? && !e.created.needAttributes {
      NodelessBindings(leaf.attributes, |leaf.attributes|, e.st.table, refIdx + e.created.usedArgs);
    }
  }

  /** Without holes, a leaf that takes no attributes binds nothing. */
  lemma {:induction false} NodelessIdentity(attributes: seq<Attribute>, n: nat, table: Table, r: nat)
    requires n <= |attributes| && Holes(attributes[..n]) == 0
    ensures NodelessRun(attributes, n, table, r) == table
    decreases n
  {
    if n > 0 {
      assert attributes[..n] == attributes[..n - 1] + [attributes[n - 1]];
      HolesSnoc(attributes[..n - 1], attributes[n - 1]);
      NodelessIdentity(attributes, n - 1, table, r);
    }
  }

  /** The result of walking a forest: the top-level nodes, the argument cursor, the
      instantiation state, the invoker's table and the trace. */
  datatype Walk = Walk(nodes: seq<NodeId>, next: nat, st: Inst, ctxTable: Table, run: Run)

  /** `#createDOMRecursive` from leaf `i` on, with the nodes and effects gathered so
      far: a `Children` leaf is expanded in place, any other leaf is instantiated. */
  function WalkFrom(tree: seq<Tree>, i: nat, ctx: Children, args: seq<Arg>, st: Inst,
                    idx: nat, r: nat, nodes: seq<NodeId>, effects: seq<Effect>, dom: Dom): (w: Walk)
    requires i <= |tree|
    ensures idx <= w.next
    decreases if |ctx.tree| == 0 then 0 else 1, ForestSize(tree), |tree| - i, 1
  {
    if i == |tree| then Walk(nodes, idx, st, ctx.table, Run(effects, None))
    else if IsChildrenLeaf(tree[i], Get(args, idx)) then WalkPlaceholder(tree, i, ctx, args, st, idx, r, nodes, effects, dom)
    else WalkLeaf(tree, i, ctx, args, idx, r, nodes, effects, dom, InstantiateLeafRun(tree[i], args, idx, st, r, dom))
  }

  /** A `Children` leaf: one with attributes or children is a structural error;
      otherwise the invoker's subtree is instantiated against the invoker's
      arguments and table from the invoker's slot, and both cursors of the
      component stay where they were. */
  function WalkPlaceholder(tree: seq<Tree>, i: nat, ctx: Children, args: seq<Arg>, st: Inst,
                           idx: nat, r: nat, nodes: seq<NodeId>, effects: seq<Effect>, dom: Dom): (w: Walk)
    requires i < |tree|
    ensures idx <= w.next
    decreases if |ctx.tree| == 0 then 0 else 1, ForestSize(tree), |tree| - i, 0
  {
    var leaf := tree[i];
    ChildrenSmaller(tree, i);
    if |leaf.children| > 0 || |leaf.attributes| > 0 then
      Walk(nodes, idx, st, ctx.table, Run(effects, Some(StructuralError)))
    else
      var inner := WalkFrom(ctx.tree, 0, NoChildren, ctx.args, st.(table := ctx.table), 0, ctx.idx, [], [], dom);
      var st' := inner.st.(table := st.table);
      if inner.run.err.Some? then Walk(nodes + inner.nodes, idx, st', inner.st.table, Run(effects + inner.run.effects, inner.run.err))
      else WalkFrom(tree, i + 1, ctx.(table := inner.st.table), args, st', idx, r, nodes + inner.nodes, effects + inner.run.effects, dom)
  }

  /** An element leaf after its instantiation `l`: the slot cursor moves with the
      argument cursor; an element with children gets its subtree instantiated and
      appended to it. */
  function WalkLeaf(tree: seq<Tree>, i: nat, ctx: Children, args: seq<Arg>,
                    idx: nat, r: nat, nodes: seq<NodeId>, effects: seq<Effect>, dom: Dom, l: Leaf): (w: Walk)
    requires i < |tree| && idx <= l.next
    ensures idx <= w.next
    decreases if |ctx.tree| == 0 then 0 else 1, ForestSize(tree), |tree| - i, 0
  {
    var leaf := tree[i];
    ChildrenSmaller(tree, i);
    var r' := r + (l.next - idx);
    if l.run.err.Some? then Walk(nodes, l.next, l.st, ctx.table, Run(effects + l.run.effects, l.run.err))
    else if |l.created.tag| == 1 && |leaf.children| > 0 then
      var sub := WalkFrom(leaf.children, 0, ctx, args, l.st, l.next, r', [], [], dom);
      var effs := effects + l.run.effects + sub.run.effects;
      if sub.run.err.Some? then Walk(nodes + l.created.tag, sub.next, sub.st, sub.ctxTable, Run(effs, sub.run.err))
      else WalkFrom(tree, i + 1, ctx.(table := sub.ctxTable), args, sub.st, sub.next, r' + (sub.next - l.next),
                    nodes + l.created.tag, effs + [AppendChildren(l.created.tag[0], sub.nodes)], dom)
    else WalkFrom(tree, i + 1, ctx, args, l.st, l.next, r', nodes + l.created.tag, effects + l.run.effects, dom)
  }

  /** The walk `w` from leaf `i` on agrees with one step that ended in `out`: the
      step failed with `out`, or the walk goes on from leaf `i + 1` in the state
      `out` records, with slot cursor `r`. */
  ghost predicate StepsTo(w: Walk, tree: seq<Tree>, i: nat, ctx: Children, args: seq<Arg>, dom: Dom, out: Walk, r: nat)
    requires i < |tree|
  {
    if out.run.err.Some? then w == out
    else w == WalkFrom(tree, i + 1, ctx.(table := out.ctxTable), args, out.st, out.next, r, out.nodes, out.run.effects, dom)
  }

  /** A `Children` leaf without attributes or children, after the invoker's
      subtree walked to `inner`. */
  lemma PlaceholderNext(tree: seq<Tree>, i: nat, ctx: Children, args: seq<Arg>, st: Inst,
                        idx: nat, r: nat, nodes: seq<NodeId>, effects: seq<Effect>, dom: Dom, inner: Walk)
    requires i < |tree| && |tree[i].children| == 0 && |tree[i].attributes| == 0
    requires inner == WalkFrom(ctx.tree, 0, NoChildren, ctx.args, st.(table := ctx.table), 0, ctx.idx, [], [], dom)
    ensures StepsTo(WalkPlaceholder(tree, i, ctx, args, st, idx, r, nodes, effects, dom), tree, i, ctx, args, dom,
                    Walk(nodes + inner.nodes, idx, inner.st.(table := st.table), inner.st.table, Run(effects + inner.run.effects, inner.run.err)), r)
  {
  }

  /** An element leaf instantiated to `l` without a subtree to walk. */
  lemma LeafNext(tree: seq<Tree>, i: nat, ctx: Children, args: seq<Arg>,
                 idx: nat, r: nat, nodes: seq<NodeId>, effects: seq<Effect>, dom: Dom, l: Leaf)
    requires i < |tree| && idx <= l.next && !(l.run.err.None? && |l.created.tag| == 1 && |tree[i].children| > 0)
    ensures StepsTo(WalkLeaf(tree, i, ctx, args, idx, r, nodes, effects, dom, l), tree, i, ctx, args, dom,
                    Walk(if l.run.err.Some? then nodes else nodes + l.created.tag, l.next, l.st, ctx.table, Run(effects + l.run.effects, l.run.err)),
                    r + (l.next - idx))
  {
    assert ctx.(table := ctx.table) == ctx;
  }

  /** An element leaf instantiated to `l` whose subtree walked to `sub`. */
  lemma LeafChildrenNext(tree: seq<Tree>, i: nat, ctx: Children, args: seq<Arg>,
                         idx: nat, r: nat, nodes: seq<NodeId>, effects: seq<Effect>, dom: Dom, l: Leaf, sub: Walk, out: Walk, r': nat)
    requires i < |tree| && idx <= l.next && l.run.err.None? && |l.created.tag| == 1 && |tree[i].children| > 0
    requires sub == WalkFrom(tree[i].children, 0, ctx, args, l.st, l.next, r + (l.next - idx), [], [], dom)
    requires out == Walk(nodes + l.created.tag, sub.next, sub.st, sub.ctxTable,
                         Run(effects + l.run.effects + sub.run.effects
                               + (if sub.run.err.None? then [AppendChildren(l.created.tag[0], sub.nodes)] else []), sub.run.err))
    requires r' == r + (sub.next - idx)
    ensures StepsTo(WalkLeaf(tree, i, ctx, args, idx, r, nodes, effects, dom, l), tree, i, ctx, args, dom, out, r')
  {
  }

  /** The walk writes the component's table only between the slot cursor and the
      slots it consumed, and never writes the invoker's table below the
      invoker's slot (under confined factories). */
  lemma {:induction false} WalkCursors(tree: seq<Tree>, i: nat, ctx: Children, args: seq<Arg>, st: Inst,
                                       idx: nat, r: nat, nodes: seq<NodeId>, effects: seq<Effect>, dom: Dom)
    requires i <= |tree|
    requires forall leaf, a, k, t, r :: ConfinedCall(dom, leaf, a, k, t, r)
    ensures var w := WalkFrom(tree, i, ctx, args, st, idx, r, nodes, effects, dom);
            && WritesWithin(st.table, w.st.table, r, r + (w.next - idx))
            && (forall k: nat :: k < ctx.idx ==> At(w.ctxTable, k) == At(ctx.table, k))
    decreases if |ctx.tree| == 0 then 0 else 1, ForestSize(tree), |tree| - i, 2
  {
    var w := WalkFrom(tree, i, ctx, args, st, idx, r, nodes, effects, dom);
    if i == |tree| {
      assert w == Walk(nodes, idx, st, ctx.table, Run(effects, None));
    } else if IsChildrenLeaf(tree[i], Get(args, idx)) {
      assert w == WalkPlaceholder(tree, i, ctx, args, st, idx, r, nodes, effects, dom);
      WalkPlaceholderCursors(tree, i, ctx, args, st, idx, r, nodes, effects, dom);
    } else {
      var l := InstantiateLeafRun(tree[i], args, idx, st, r, dom);
      assert w == WalkLeaf(tree, i, ctx, args, idx, r, nodes, effects, dom, l);
      InstantiateLeafWrites(tree[i], args, idx, st, r, dom);
      WalkLeafCursors(tree, i, ctx, args, idx, r, nodes, effects, dom, l, st.table);
    }
  }

  lemma {:induction false} WalkPlaceholderCursors(tree: seq<Tree>, i: nat, ctx: Children, args: seq<Arg>, st: Inst,
                                                  idx: nat, r: nat, nodes: seq<NodeId>, effects: seq<Effect>, dom: Dom)
    requires i < |tree|
    requires forall leaf, a, k, t, r :: ConfinedCall(dom, leaf, a, k, t, r)
    ensures var w := WalkPlaceholder(tree, i, ctx, args, st, idx, r, nodes, effects, dom);
            && WritesWithin(st.table, w.st.table, r, r + (w.next - idx))
            && (forall k: nat :: k < ctx.idx ==> At(w.ctxTable, k) == At(ctx.table, k))
    decreases if |ctx.tree| == 0 then 0 else 1, ForestSize(tree), |tree| - i, 0
  {
    var leaf := tree[i];
    ChildrenSmaller(tree, i);
    if |leaf.children| == 0 && |leaf.attributes| == 0 {
      var w := WalkPlaceholder(tree, i, ctx, args, st, idx, r, nodes, effects, dom);
      var inner := WalkFrom(ctx.tree, 0, NoChildren, ctx.args, st.(table := ctx.table), 0, ctx.idx, [], [], dom);
      WalkCursors(ctx.tree, 0, NoChildren, ctx.args, st.(table := ctx.table), 0, ctx.idx, [], [], dom);
      var st' := inner.st.(table := st.table);
      if inner.run.err.None? {
        assert w == WalkFrom(tree, i + 1, ctx.(table := inner.st.table), args, st', idx, r, nodes + inner.nodes, effects + inner.run.effects, dom);
        WalkCursors(tree, i + 1, ctx.(table := inner.st.table), args, st', idx, r, nodes + inner.nodes, effects + inner.run.effects, dom);
      } else {
        assert w.st == st' && w.ctxTable == inner.st.table;
      }
    }
  }

  lemma {:induction false} WalkLeafCursors(tree: seq<Tree>, i: nat, ctx: Children, args: seq<Arg>,
                                           idx: nat, r: nat, nodes: seq<NodeId>, effects: seq<Effect>, dom: Dom, l: Leaf, t0: Table)
    requires i < |tree| && idx <= l.next
    requires forall leaf, a, k, t, r :: ConfinedCall(dom, leaf, a, k, t, r)
    requires WritesWithin(t0, l.st.table, r, r + (l.next - idx))
    ensures var w := WalkLeaf(tree, i, ctx, args, idx, r, nodes, effects, dom, l);
            && WritesWithin(t0, w.st.table, r, r + (w.next - idx))
            && (forall k: nat :: k < ctx.idx ==> At(w.ctxTable, k) == At(ctx.table, k))
    decreases if |ctx.tree| == 0 then 0 else 1, ForestSize(tree), |tree| - i, 1
  {
    var w := WalkLeaf(tree, i, ctx, args, idx, r, nodes, effects, dom, l);
    var r' := r + (l.next - idx);
    if l.run.err.Some? {
      assert w == Walk(nodes, l.next, l.st, ctx.table, Run(effects + l.run.effects, l.run.err));
    } else if |l.created.tag| == 1 && |tree[i].children| > 0 {
      WalkLeafChildrenCursors(tree, i, ctx, args, idx, r, nodes, effects, dom, l, t0);
    } else {
      assert w == WalkFrom(tree, i + 1, ctx, args, l.st, l.next, r', nodes + l.created.tag, effects + l.run.effects, dom);
      WalkCursors(tree, i + 1, ctx, args, l.st, l.next, r', nodes + l.created.tag, effects + l.run.effects, dom);
      WritesWithinTrans(t0, l.st.table, w.st.table, r, r', r', r + (w.next - idx));
    }
  }

  lemma {:induction false} WalkLeafChildrenCursors(tree: seq<Tree>, i: nat, ctx: Children, args: seq<Arg>,
                                                   idx: nat, r: nat, nodes: seq<NodeId>, effects: seq<Effect>, dom: Dom, l: Leaf, t0: Table)
    requires i < |tree| && idx <= l.next && l.run.err.None? && |l.created.tag| == 1 && |tree[i].children| > 0
    requires forall leaf, a, k, t, r :: ConfinedCall(dom, leaf, a, k, t, r)
    requires WritesWithin(t0, l.st.table, r, r + (l.next - idx))
    ensures var w := WalkLeaf(tree, i, ctx, args, idx, r, nodes, effects, dom, l);
            && WritesWithin(t0, w.st.table, r, r + (w.next - idx))
            && (forall k: nat :: k < ctx.idx ==> At(w.ctxTable, k) == At(ctx.table, k))
    decreases if |ctx.tree| == 0 then 0 else 1, ForestSize(tree), |tree| - i, 0
  {
    var w := WalkLeaf(tree, i, ctx, args, idx, r, nodes, effects, dom, l);
    var leaf := tree[i];
    ChildrenSmaller(tree, i);
    var r' := r + (l.next - idx);
    var sub := WalkFrom(leaf.children, 0, ctx, args, l.st, l.next, r', [], [], dom);
    WalkCursors(leaf.children, 0, ctx, args, l.st, l.next, r', [], [], dom);
    WritesWithinTrans(t0, l.st.table, sub.st.table, r, r', r', r' + (sub.next - l.next));
    var effs := effects + l.run.effects + sub.run.effects;
    if sub.run.err.Some? {
      assert w == Walk(nodes + l.created.tag, sub.next, sub.st, sub.ctxTable, Run(effs, sub.run.err));
    } else {
      var r'' := r' + (sub.next - l.next);
      var effs' := effs + [AppendChildren(l.created.tag[0], sub.nodes)];
      assert w == WalkFrom(tree, i + 1, ctx.(table := sub.ctxTable), args, sub.st, sub.next, r'', nodes + l.created.tag, effs', dom);
      WalkCursors(tree, i + 1, ctx.(table := sub.ctxTable), args, sub.st, sub.next, r'', nodes + l.created.tag, effs', dom);
      WritesWithinTrans(t0, sub.st.table, w.st.table, r, r'', r'', r + (w.next - idx));
    }
  }

  /** A bad placeholder at leaf `i`, or inside it, or among the later leaves, is one in the forest from `i` on. */
  lemma BadFrom(tree: seq<Tree>, i: nat, args: seq<Arg>)
    requires i < |tree|
    ensures (BadPlaceholder(tree[i], args) || HasBadChildren(tree[i].children, args) || HasBadChildren(tree[i + 1..], args))
              ==> HasBadChildren(tree[i..], args)
  {
    assert tree[i..][0] == tree[i];
    if HasBadChildren(tree[i + 1..], args) {
      var k :| 0 <= k < |tree[i + 1..]| && (BadPlaceholder(tree[i + 1..][k], args) || HasBadChildren(tree[i + 1..][k].children, args));
      assert tree[i..][k + 1] == tree[i + 1..][k];
    }
  }

  /** A structural error comes only from a bad placeholder, in the forest being
      walked or in the invoker's subtree; and a static `Children` leaf with
      attributes or children anywhere from leaf `i` on always ends the walk in an error. */
  lemma {:induction false} WalkStructuralError(tree: seq<Tree>, i: nat, ctx: Children, args: seq<Arg>, st: Inst,
                                               idx: nat, r: nat, nodes: seq<NodeId>, effects: seq<Effect>, dom: Dom)
    requires i <= |tree|
    ensures var w := WalkFrom(tree, i, ctx, args, st, idx, r, nodes, effects, dom);
            && (w.run.err == Some(StructuralError) ==> HasBadChildren(tree[i..], args) || HasBadChildren(ctx.tree, ctx.args))
            && ((exists k :: i <= k < |tree| && tree[k].tag == Static("Children") && BadPlaceholder(tree[k], args)) ==> w.run.err.Some?)
    decreases if |ctx.tree| == 0 then 0 else 1, ForestSize(tree), |tree| - i, 2
  {
    var w := WalkFrom(tree, i, ctx, args, st, idx, r, nodes, effects, dom);
    if i == |tree| {
      assert w == Walk(nodes, idx, st, ctx.table, Run(effects, None));
    } else if IsChildrenLeaf(tree[i], Get(args, idx)) {
      assert w == WalkPlaceholder(tree, i, ctx, args, st, idx, r, nodes, effects, dom);
      WalkPlaceholderStructural(tree, i, ctx, args, st, idx, r, nodes, effects, dom);
    } else {
      var l := InstantiateLeafRun(tree[i], args, idx, st, r, dom);
      assert w == WalkLeaf(tree, i, ctx, args, idx, r, nodes, effects, dom, l);
      InstantiateLeafCursor(tree[i], args, idx, st, r, dom);
      WalkLeafStructural(tree, i, ctx, args, idx, r, nodes, effects, dom, l);
    }
  }

  lemma {:induction false} WalkPlaceholderStructural(tree: seq<Tree>, i: nat, ctx: Children, args: seq<Arg>, st: Inst,
                                                     idx: nat, r: nat, nodes: seq<NodeId>, effects: seq<Effect>, dom: Dom)
    requires i < |tree| && IsChildrenLeaf(tree[i], Get(args, idx))
    ensures var w := WalkPlaceholder(tree, i, ctx, args, st, idx, r, nodes, effects, dom);
            && (w.run.err == Some(StructuralError) ==> HasBadChildren(tree[i..], args) || HasBadChildren(ctx.tree, ctx.args))
            && ((exists k :: i <= k < |tree| && tree[k].tag == Static("Children") && BadPlaceholder(tree[k], args)) ==> w.run.err.Some?)
    decreases if |ctx.tree| == 0 then 0 else 1, ForestSize(tree), |tree| - i, 1
  {
    var leaf := tree[i];
    BadFrom(tree, i, args);
    if |leaf.children| > 0 || |leaf.attributes| > 0 {
      if leaf.tag == Dynamic {
        assert Get(args, idx) == Plain("Children");
        assert Get(args, idx) in args;
      }
      assert BadPlaceholder(leaf, args);
    } else {
      WalkPlaceholderExpands(tree, i, ctx, args, st, idx, r, nodes, effects, dom);
    }
  }

  /** A bare placeholder: the invoker's subtree is walked, then the rest of the forest. */
  lemma {:induction false} WalkPlaceholderExpands(tree: seq<Tree>, i: nat, ctx: Children, args: seq<Arg>, st: Inst,
                                                  idx: nat, r: nat, nodes: seq<NodeId>, effects: seq<Effect>, dom: Dom)
    requires i < |tree| && IsChildrenLeaf(tree[i], Get(args, idx))
    requires |tree[i].children| == 0 && |tree[i].attributes| == 0
    ensures var w := WalkPlaceholder(tree, i, ctx, args, st, idx, r, nodes, effects, dom);
            && (w.run.err == Some(StructuralError) ==> HasBadChildren(tree[i..], args) || HasBadChildren(ctx.tree, ctx.args))
            && ((exists k :: i <= k < |tree| && tree[k].tag == Static("Children") && BadPlaceholder(tree[k], args)) ==> w.run.err.Some?)
    decreases if |ctx.tree| == 0 then 0 else 1, ForestSize(tree), |tree| - i, 0
  {
    var w := WalkPlaceholder(tree, i, ctx, args, st, idx, r, nodes, effects, dom);
    var leaf := tree[i];
    ChildrenSmaller(tree, i);
    BadFrom(tree, i, args);
    {
      var inner := WalkFrom(ctx.tree, 0, NoChildren, ctx.args, st.(table := ctx.table), 0, ctx.idx, [], [], dom);
      WalkStructuralError(ctx.tree, 0, NoChildren, ctx.args, st.(table := ctx.table), 0, ctx.idx, [], [], dom);
      assert ctx.tree[0..] == ctx.tree;
      assert !HasBadChildren(NoChildren.tree, NoChildren.args);
      assert !BadPlaceholder(leaf, args);
      var st' := inner.st.(table := st.table);
      if inner.run.err.None? {
        assert w == WalkFrom(tree, i + 1, ctx.(table := inner.st.table), args, st', idx, r, nodes + inner.nodes, effects + inner.run.effects, dom);
        WalkStructuralError(tree, i + 1, ctx.(table := inner.st.table), args, st', idx, r, nodes + inner.nodes, effects + inner.run.effects, dom);
      } else {
        assert w.run.err == inner.run.err;
      }
    }
  }

  lemma {:induction false} WalkLeafStructural(tree: seq<Tree>, i: nat, ctx: Children, args: seq<Arg>,
                                              idx: nat, r: nat, nodes: seq<NodeId>, effects: seq<Effect>, dom: Dom, l: Leaf)
    requires i < |tree| && idx <= l.next && tree[i].tag != Static("Children")
    requires l.run.err.Some? ==> l.run.err == Some(UndefinedProperty)
    ensures var w := WalkLeaf(tree, i, ctx, args, idx, r, nodes, effects, dom, l);
            && (w.run.err == Some(StructuralError) ==> HasBadChildren(tree[i..], args) || HasBadChildren(ctx.tree, ctx.args))
            && ((exists k :: i <= k < |tree| && tree[k].tag == Static("Children") && BadPlaceholder(tree[k], args)) ==> w.run.err.Some?)
    decreases if |ctx.tree| == 0 then 0 else 1, ForestSize(tree), |tree| - i, 1
  {
    var w := WalkLeaf(tree, i, ctx, args, idx, r, nodes, effects, dom, l);
    var leaf := tree[i];
    ChildrenSmaller(tree, i);
    var r' := r + (l.next - idx);
    if l.run.err.Some? {
      assert w.run.err == l.run.err;
    } else if |l.created.tag| == 1 && |leaf.children| > 0 {
      WalkLeafSubStructural(tree, i, ctx, args, idx, r, nodes, effects, dom, l);
    } else {
      BadFrom(tree, i, args);
      assert w == WalkFrom(tree, i + 1, ctx, args, l.st, l.next, r', nodes + l.created.tag, effects + l.run.effects, dom);
      WalkStructuralError(tree, i + 1, ctx, args, l.st, l.next, r', nodes + l.created.tag, effects + l.run.effects, dom);
    }
  }

  /** The case of `WalkLeafStructural` where the leaf's subtree is walked. */
  lemma {:induction false} WalkLeafSubStructural(tree: seq<Tree>, i: nat, ctx: Children, args: seq<Arg>,
                                                 idx: nat, r: nat, nodes: seq<NodeId>, effects: seq<Effect>, dom: Dom, l: Leaf)
    requires i < |tree| && idx <= l.next && tree[i].tag != Static("Children")
    requires l.run.err.None? && |l.created.tag| == 1 && |tree[i].children| > 0
    ensures var w := WalkLeaf(tree, i, ctx, args, idx, r, nodes, effects, dom, l);
            && (w.run.err == Some(StructuralError) ==> HasBadChildren(tree[i..], args) || HasBadChildren(ctx.tree, ctx.args))
            && ((exists k :: i <= k < |tree| && tree[k].tag == Static("Children") && BadPlaceholder(tree[k], args)) ==> w.run.err.Some?)
    decreases if |ctx.tree| == 0 then 0 else 1, ForestSize(tree), |tree| - i, 0
  {
    var w := WalkLeaf(tree, i, ctx, args, idx, r, nodes, effects, dom, l);
    var leaf := tree[i];
    ChildrenSmaller(tree, i);
    var r' := r + (l.next - idx);
    var sub := WalkFrom(leaf.children, 0, ctx, args, l.st, l.next, r', [], [], dom);
    var effs := effects + l.run.effects + sub.run.effects;
    if sub.run.err.None? {
      var effs' := effs + [AppendChildren(l.created.tag[0], sub.nodes)];
      assert w == WalkFrom(tree, i + 1, ctx.(table := sub.ctxTable), args, sub.st, sub.next, r' + (sub.next - l.next), nodes + l.created.tag, effs', dom);
      BadFrom(tree, i, args);
      WalkStructuralError(leaf.children, 0, ctx, args, l.st, l.next, r', [], [], dom);
      assert leaf.children[0..] == leaf.children;
      WalkStructuralError(tree, i + 1, ctx.(table := sub.ctxTable), args, sub.st, sub.next, r' + (sub.next - l.next), nodes + l.created.tag, effs', dom);
    } else {
      assert w.run.err == sub.run.err;
      BadFrom(tree, i, args);
      WalkStructuralError(leaf.children, 0, ctx, args, l.st, l.next, r', [], [], dom);
      assert leaf.children[0..] == leaf.children;
    }
  }

  /** A static forest consumes no slot and binds nothing in either table. */
  lemma {:induction false} WalkStaticForest(tree: seq<Tree>, i: nat, ctx: Children, args: seq<Arg>, st: Inst,
                                            idx: nat, r: nat, nodes: seq<NodeId>, effects: seq<Effect>, dom: Dom)
    requires i <= |tree| && StaticForest(tree)
    ensures var w := WalkFrom(tree, i, ctx, args, st, idx, r, nodes, effects, dom);
            w.run.err.None? && w.next == idx && w.st.table == st.table && w.ctxTable == ctx.table
    decreases ForestSize(tree), |tree| - i, 1
  {
    var w := WalkFrom(tree, i, ctx, args, st, idx, r, nodes, effects, dom);
    if i == |tree| {
      assert w == Walk(nodes, idx, st, ctx.table, Run(effects, None));
    } else {
      var leaf := tree[i];
      assert StaticTree(leaf);
      assert !IsChildrenLeaf(leaf, Get(args, idx));
      var l := InstantiateLeafRun(leaf, args, idx, st, r, dom);
      InstantiateLeafCursor(leaf, args, idx, st, r, dom);
      assert l.run.err.None? && l.next == idx && l.st.table == st.table;
      assert w == WalkLeaf(tree, i, ctx, args, idx, r, nodes, effects, dom, l);
      if |l.created.tag| == 1 && |leaf.children| > 0 {
        WalkStaticChildren(tree, i, ctx, args, st, idx, r, nodes, effects, dom, l);
      } else {
        assert w == WalkFrom(tree, i + 1, ctx, args, l.st, idx, r, nodes + l.created.tag, effects + l.run.effects, dom);
        WalkStaticForest(tree, i + 1, ctx, args, l.st, idx, r, nodes + l.created.tag, effects + l.run.effects, dom);
      }
    }
  }

  /** The step of `WalkStaticForest` for a static element with children. */
  lemma {:induction false} WalkStaticChildren(tree: seq<Tree>, i: nat, ctx: Children, args: seq<Arg>, st: Inst,
                                              idx: nat, r: nat, nodes: seq<NodeId>, effects: seq<Effect>, dom: Dom, l: Leaf)
    requires i < |tree| && StaticForest(tree)
    requires l == InstantiateLeafRun(tree[i], args, idx, st, r, dom)
    requires l.run.err.None? && l.next == idx && l.st.table == st.table
    requires |l.created.tag| == 1 && |tree[i].children| > 0
    requires WalkFrom(tree, i, ctx, args, st, idx, r, nodes, effects, dom) == WalkLeaf(tree, i, ctx, args, idx, r, nodes, effects, dom, l)
    ensures var w := WalkFrom(tree, i, ctx, args, st, idx, r, nodes, effects, dom);
            w.run.err.None? && w.next == idx && w.st.table == st.table && w.ctxTable == ctx.table
    decreases ForestSize(tree), |tree| - i, 0
  {
    var leaf := tree[i];
    ChildrenSmaller(tree, i);
    assert StaticTree(leaf);
    var sub := WalkFrom(leaf.children, 0, ctx, args, l.st, idx, r, [], [], dom);
    WalkStaticForest(leaf.children, 0, ctx, args, l.st, idx, r, [], [], dom);
    assert ctx.(table := sub.ctxTable) == ctx;
    var nodes' := nodes + l.created.tag;
    var effects' := effects + l.run.effects + sub.run.effects + [AppendChildren(l.created.tag[0], sub.nodes)];
    var out := Walk(nodes', sub.next, sub.st, sub.ctxTable, Run(effects', None));
    LeafChildrenNext(tree, i, ctx, args, idx, r, nodes, effects, dom, l, sub, out, r);
    WalkStaticForest(tree, i + 1, ctx, args, sub.st, idx, r, nodes', effects', dom);
  }

  /** A well-formed `Children` placeholder consumes no slot of the component that
      holds it: the walk leaves that component's cursor and table as they were,
      returns the nodes of the invoker's subtree, and writes the invoker's table
      only from the invoker's slot on. */
  lemma ChildrenLeafConsumesNothing(leaf: Tree, ctx: Children, args: seq<Arg>, st: Inst, idx: nat, r: nat, dom: Dom)
    requires IsChildrenLeaf(leaf, Get(args, idx)) && |leaf.children| == 0 && |leaf.attributes| == 0
    requires forall leaf, a, k, t, r :: ConfinedCall(dom, leaf, a, k, t, r)
    ensures var w := WalkFrom([leaf], 0, ctx, args, st, idx, r, [], [], dom);
            && w.next == idx && w.st.table == st.table
            && w.nodes == WalkFrom(ctx.tree, 0, NoChildren, ctx.args, st.(table := ctx.table), 0, ctx.idx, [], [], dom).nodes
            && (forall k: nat :: k < ctx.idx ==> At(w.ctxTable, k) == At(ctx.table, k))
  {
    var w := WalkFrom([leaf], 0, ctx, args, st, idx, r, [], [], dom);
    assert [leaf][0] == leaf;
    assert w == WalkPlaceholder([leaf], 0, ctx, args, st, idx, r, [], [], dom);
    var inner := WalkFrom(ctx.tree, 0, NoChildren, ctx.args, st.(table := ctx.table), 0, ctx.idx, [], [], dom);
    WalkCursors(ctx.tree, 0, NoChildren, ctx.args, st.(table := ctx.table), 0, ctx.idx, [], [], dom);
    assert [] + inner.nodes == inner.nodes;
    if inner.run.err.None? {
      var st' := inner.st.(table := st.table);
      var nodes', effects' := [] + inner.nodes, [] + inner.run.effects;
      assert w == WalkFrom([leaf], 1, ctx.(table := inner.st.table), args, st', idx, r, nodes', effects', dom);
      assert w == Walk(nodes', idx, st', inner.st.table, Run(effects', None));
    }
  }

  /** One component instance. */
  class Component {
    /** The tree cache the template was resolved in, and the identity of the
        shared cached tree within it; `isEqualTo` compares both. */
    const cache: TreeCache
    const treeId: nat
    const tree: seq<Tree>
    var args: seq<Arg>
    var refToArgs: Table
    /** The top-level nodes a successful render produced; `None` before any. */
    var root: Option<seq<NodeId>>
    /** The subscription list, from `head` along `next`. */
    var subs: seq<Subscription>
    var cssKeys: seq<string>
    var onMount: seq<nat>
    var onDispose: seq<nat>
    var onError: seq<nat>
    /** Allocation counters standing for added list nodes and added anchor text nodes. */
    var nextHandle: nat
    var nextNode: nat

    constructor (cache: TreeCache, template: string, args0: seq<Arg>, parse: string -> seq<Tree>)
      requires cache.Valid()
      modifies cache
      ensures cache.Valid() && this.cache == cache
      ensures (cache.state, treeId) == Resolve(old(cache.state), template, parse)
      ensures tree == cache.state.trees[treeId]
      ensures args == args0 && refToArgs == map[] && root == None && subs == [] && cssKeys == []
      ensures onMount == [] && onDispose == [] && onError == []
    {
      var id, t := cache.Lookup(template, parse);
      this.cache := cache;
      treeId, tree := id, t;
      args, refToArgs, root, subs, cssKeys := args0, map[], None, [], [];
      onMount, onDispose, onError := [], [], [];
      nextHandle, nextNode := 0, 0;
    }

    /** Template identity: the two instances share one cached tree. */
    predicate IsEqualTo(other: Component)
    {
      cache == other.cache && treeId == other.treeId
    }

    /** The state instantiation changes, with `table` as the table being filled. */
    function Snap(table: Table): Inst
      reads this
    {
      Inst(table, subs, nextHandle, nextNode, cssKeys)
    }

    /** The state phase 1 changes. */
    function State(): Slots
      reads this
    {
      Slots(args, refToArgs, subs, nextHandle)
    }

    /** `dispose`: walks the subscription list from the head, then removes the
        root nodes, then runs the dispose callbacks. It changes none of the
        component's own fields (the list is not unlinked) and does not reach
        components held in its arguments. */
    method Dispose() returns (effects: seq<Effect>, err: Option<Error>)
      ensures Run(effects, err) == DisposalRun(subs, root, onDispose)
    {
      effects := [];
      var curr := 0;
      while curr < |subs|
        invariant 0 <= curr <= |subs|
        invariant effects == Unsubscriptions(subs[..curr])
      {
        effects := effects + [Unsubscribe(subs[curr])];
        curr := curr + 1;
      }
      assert subs[..curr] == subs;
      if root.None? {
        err := Some(UndefinedProperty);
        return;
      }
      var nodes := root.value;
      for i := 0 to |nodes|
        invariant effects == Unsubscriptions(subs) + Removals(nodes[..i])
      {
        effects := effects + [RemoveNode(nodes[i])];
      }
      assert nodes[..|nodes|] == nodes;
      for i := 0 to |onDispose|
        invariant effects == Unsubscriptions(subs) + Removals(nodes) + DisposeCallbacks(onDispose[..i])
      {
        effects := effects + [RunDispose(onDispose[i])];
      }
      assert onDispose[..|onDispose|] == onDispose;
      err := None;
    }

    /** Phase 2 (`#updateAttributes`): patches every changed non-component slot in
        ascending order and returns the component slots, in the same order. */
    method UpdateAttributes(toUpdate: seq<nat>) returns (components: seq<nat>, effects: seq<Effect>, err: Option<Error>)
      ensures Run(effects, err) == Phase2Run(toUpdate, args, refToArgs)
      ensures err.None? ==> components == ComponentSlots(toUpdate, refToArgs)
    {
      components, effects, err := [], [], None;
      for j := 0 to |toUpdate|
        invariant Run(effects, err) == Phase2Run(toUpdate[..j], args, refToArgs)
        invariant err.None?
        invariant components == ComponentSlots(toUpdate[..j], refToArgs)
      {
        assert toUpdate[..j + 1][..j] == toUpdate[..j];
        var i := toUpdate[j];
        if i !in refToArgs {
          err := Some(UndefinedProperty);
          Phase2ErrorSticks(toUpdate, j + 1, args, refToArgs);
          return;
        }
        var e, slotErr := PatchAttribute(i);
        effects := effects + e;
        if slotErr.Some? {
          err := slotErr;
          Phase2ErrorSticks(toUpdate, j + 1, args, refToArgs);
          return;
        }
        if refToArgs[i].isComponent {
          components := components + [i];
        }
      }
      assert toUpdate[..|toUpdate|] == toUpdate;
    }

    /** Phase 2 for the changed slot `i`, whose descriptor exists: the loops over
        the slot's roots. */
    method PatchAttribute(i: nat) returns (effects: seq<Effect>, err: Option<Error>)
      requires i in refToArgs
      ensures Run(effects, err) == PatchSlot(Get(args, i), refToArgs[i])
    {
      var d := refToArgs[i];
      var self := Get(args, i);
      var value := Snapshot(self);
      var roots := d.root;
      effects, err := [], None;
      if d.isComponent {
      } else if d.isEvent {
        for k := 0 to |roots|
          invariant effects == seq(k, n requires 0 <= n < k => AddListener(roots[n], AttrName(d), Raw(self)))
        {
          effects := effects + [AddListener(roots[k], AttrName(d), Raw(self))];
        }
      } else if d.isAttributeValue {
        for k := 0 to |roots|
          invariant effects == seq(k, n requires 0 <= n < k => SetAttribute(roots[n], AttrName(d), value))
        {
          effects := effects + [SetAttribute(roots[k], AttrName(d), value)];
        }
      } else if d.isRef {
        if self.Undefined? || self.Plain? {
          err := Some(UndefinedProperty);
          return;
        }
        effects := [AssignElement(self, Last(roots))];
      } else if d.isTextNode {
        for k := 0 to |roots|
          invariant effects == seq(k, n requires 0 <= n < k => SetText(roots[n], value))
        {
          effects := effects + [SetText(roots[k], value)];
        }
      }
    }

    /** Phase 3 (`#updateComponents`): processes the component slots from last to
        first, so that a later slot is rendered before an earlier one. */
    method UpdateComponents(components: seq<nat>) returns (effects: seq<Effect>, err: Option<Error>)
      ensures Run(effects, err) == Phase3Run(Reverse(components), args, refToArgs)
    {
      effects, err := [], None;
      var order := Reverse(components);
      var i := |components|;
      while i > 0
        invariant 0 <= i <= |components|
        invariant err.None?
        invariant Run(effects, err) == Phase3Run(order[..|components| - i], args, refToArgs)
      {
        i := i - 1;
        var idx := components[i];
        assert order[|components| - i - 1] == idx;
        Phase3Next(order, |components| - i - 1, args, refToArgs);
        var step := PatchComponent(idx);
        effects := effects + step.effects;
        if step.err.Some? {
          err := step.err;
          Phase3ErrorSticks(order, |components| - i, args, refToArgs);
          return;
        }
      }
      assert order[..|components|] == order;
    }

    /** The body of phase 3 for one slot. */
    method PatchComponent(idx: nat) returns (r: Run)
      ensures r == PatchComponentSlot(idx, Get(args, idx), At(refToArgs, idx), args)
    {
      var self := Get(args, idx);
      var desc := At(refToArgs, idx);
      if self.Comp? {
        if desc.None? || |desc.value.root| == 0 || desc.value.children.None? {
          return Run([], Some(UndefinedProperty));
        }
        var leaf := desc.value.children.value;
        return Run([NestedRender(idx, self.c, leaf.children, JsSlice(args, idx + 1, leaf.numOfInterpolations + 1)),
                    InsertAfter(idx, desc.value.root[|desc.value.root| - 1])], None);
      } else if IsComponentList(self) {
        if desc.None? {
          return Run([], Some(UndefinedProperty));
        }
        var d := desc.value;
        var rendered := RenderItems(idx, self.items, d, args);
        if rendered.err.Some? {
          return rendered;
        }
        if |d.root| == 0 {
          return Run(rendered.effects, Some(UndefinedProperty));
        }
        return Run(rendered.effects + [InsertAfter(idx, d.root[|d.root| - 1])], None);
      }
      return Ok;
    }

    /** The list loop of phase 3. */
    static method RenderItems(idx: nat, items: seq<Arg>, d: Descriptor, args: seq<Arg>) returns (r: Run)
      ensures r == RenderList(idx, items, d, args)
    {
      var effects := [];
      for k := 0 to |items|
        invariant RenderList(idx, items[..k], d, args) == Run(effects, None)
      {
        RenderListNext(idx, items, k, d, args);
        if !items[k].Comp? || d.children.None? {
          RenderListErrorSticks(idx, items, k + 1, d, args);
          return Run(effects, Some(UndefinedProperty));
        }
        effects := effects + [NestedRender(idx, items[k].c, d.children.value.children,
                                     JsSlice(args, idx + 1, d.children.value.numOfInterpolations + 1))];
      }
      assert items[..|items|] == items;
      return Run(effects, None);
    }

    /** `#clearReferences(i)`: releases what the slot's descriptor holds. */
    method ClearReferences(i: nat) returns (effects: seq<Effect>, err: Option<Error>)
      modifies this`subs
      ensures i !in refToArgs ==> effects == [] && err == Some(UndefinedProperty) && subs == old(subs)
      ensures i in refToArgs ==> Run(effects, err) == ClearRun(refToArgs[i], Get(args, i))
                                 && subs == ClearedSubs(refToArgs[i], old(subs))
    {
      effects, err := [], None;
      if i !in refToArgs {
        err := Some(UndefinedProperty);
        return;
      }
      var d := refToArgs[i];
      if d.isSubscription {
        if d.subscription.None? {
          err := Some(UndefinedProperty);
          return;
        }
        var hs := d.subscription.value;
        for k := 0 to |hs|
          invariant effects == Unsubscriptions(hs[..k])
          invariant subs == WithoutAll(old(subs), hs[..k])
        {
          assert hs[..k + 1][..k] == hs[..k];
          effects := effects + [Unsubscribe(hs[k])];
          subs := RemoveSub(subs, hs[k]);
        }
        assert hs[..|hs|] == hs;
      } else if d.isRef {
        if d.ref.None? {
          err := Some(UndefinedProperty);
          return;
        }
        effects := [AssignElement(d.ref.value, None)];
      } else if d.isEvent {
        var roots := d.root;
        var current := Get(args, i);
        for k := 0 to |roots|
          invariant effects == seq(k, n requires 0 <= n < k => RemoveListener(roots[n], AttrName(d), Raw(current)))
        {
          effects := effects + [RemoveListener(roots[k], AttrName(d), Raw(current))];
        }
      }
    }

    /** The category-change branch of `#updateInternalState` for slot `i`, up to
        (not including) the store of the new argument. */
    method Rebind(i: nat, other: Arg) returns (effects: seq<Effect>, err: Option<Error>)
      modifies this`subs, this`refToArgs, this`nextHandle
      ensures i !in old(refToArgs) ==>
                effects == [] && err == Some(UndefinedProperty)
                && subs == old(subs) && refToArgs == old(refToArgs) && nextHandle == old(nextHandle)
      ensures i in old(refToArgs) ==>
                var r := RebindState(old(refToArgs[i]), Get(args, i), other, old(subs), old(nextHandle));
                && Run(effects, err) == r.run
                && refToArgs == old(refToArgs)[i := r.desc]
                && subs == r.subs && nextHandle == r.nextHandle
    {
      if i !in refToArgs {
        effects, err := [], Some(UndefinedProperty);
        return;
      }
      var d := refToArgs[i];
      var desc := d;
      if other.Comp? || IsComponentList(other) {
        effects, err := ClearReferences(i);
        if err.None? {
          desc := Bare(d.root).(isComponent := true);
        }
      } else if other.Reactive? {
        effects, err := ClearReferences(i);
        if err.None? {
          var recorded, subscribed := SubscribeRoots(d.root, other.id);
          effects := effects + subscribed;
          desc := d.(isSubscription := true, subscription := Some(recorded));
        }
      } else if IsRef(other) {
        effects, err := ClearReferences(i);
        if err.None? {
          desc := Bare(d.root).(isRef := true);
        }
      } else if Clearable(d) {
        effects, err := ClearReferences(i);
      } else {
        effects, err := [], Some(NoMatch);
      }
      assert desc == RebindState(d, Get(args, i), other, old(subs), old(nextHandle)).desc;
      refToArgs := refToArgs[i := desc];
    }

    /** Subscribes the new reactive once per root node, each new list node becoming the head. */
    method SubscribeRoots(roots: seq<NodeId>, source: nat) returns (recorded: seq<Subscription>, effects: seq<Effect>)
      modifies this`subs, this`nextHandle
      ensures recorded == FreshSubs(roots, source, old(nextHandle))
      ensures subs == Reverse(recorded) + old(subs)
      ensures nextHandle == old(nextHandle) + |roots|
      ensures effects == Subscribes(recorded, roots)
    {
      recorded, effects := [], [];
      for k := 0 to |roots|
        invariant nextHandle == old(nextHandle) + k
        invariant recorded == FreshSubs(roots[..k], source, old(nextHandle))
        invariant subs == Reverse(recorded) + old(subs)
        invariant effects == Subscribes(recorded, roots[..k])
      {
        assert roots[..k + 1][..k] == roots[..k];
        var sub := Subscription(nextHandle, source);
        nextHandle := nextHandle + 1;
        subs := [sub] + subs;
        effects := effects + [Subscribe(sub, roots[k])];
        recorded := recorded + [sub];
        assert Reverse(recorded) == [sub] + Reverse(recorded[..k]);
      }
      assert roots[..|roots|] == roots;
    }

    /** The component-list branch of `#updateInternalState`: the old array `self`
        mutated towards `other`, calling `dispose` on each element it drops. */
    method ReconcileList(self: seq<Arg>, other: seq<Arg>) returns (items: seq<Arg>, effects: seq<Effect>, err: Option<Error>)
      ensures (items, Run(effects, err)) == ListRun(self, other)
    {
      var m := Min(|self|, |other|);
      assert forall c | c in ComponentsIn(other) :: allocated(c);
      items, effects, err := ReconcileShared(self, other, m);
      if err.Some? {
        return;
      }
      ghost var pairs := ReconcilePairs(self, other, m);
      assert pairs == (items, Run(effects, None));
      if m == |other| {
        var tail, terr := DisposeTail(self, m);
        assert ListRun(self, other) == (if terr.None? then items[..m] else items, Then(pairs.1, Run(tail, terr)));
        effects, err := effects + tail, terr;
        if err.None? {
          items := items[..m];
        }
      } else {
        ghost var start := items;
        items, err := AppendTail(items, other, m);
        assert ListRun(self, other) == (items, Then(pairs.1, Run([], err)));
        assert effects + [] == effects;
      }
    }

    /** The loop over the common prefix of the two lists. */
    method ReconcileShared(self: seq<Arg>, other: seq<Arg>, m: nat) returns (items: seq<Arg>, effects: seq<Effect>, err: Option<Error>)
      requires m <= |self| && m <= |other|
      ensures (items, Run(effects, err)) == ReconcilePairs(self, other, m)
    {
      items, effects, err := self, [], None;
      for j := 0 to m
        invariant (items, Run(effects, None)) == ReconcilePairs(self, other, j)
      {
        var s := self[j];
        var o := other[j];
        if !s.Comp? || !o.Comp? {
          err := Some(Heterogeneous);
          PairsErrorSticks(self, other, j + 1, m);
          return;
        }
        if s.c.IsEqualTo(o.c) {
          effects := effects + [NestedUpdate(s.c, o.c.args)];
        } else {
          effects := effects + [Disposed(s.c)];
          items := items[j := o];
        }
      }
    }

    /** The loop disposing the old trailing elements `self[from..]`. */
    method DisposeTail(self: seq<Arg>, from: nat) returns (effects: seq<Effect>, err: Option<Error>)
      requires from <= |self|
      ensures Run(effects, err) == TrimRun(self, from, |self|)
    {
      effects, err := [], None;
      for j := from to |self|
        invariant Run(effects, None) == TrimRun(self, from, j)
      {
        var s := self[j];
        if !s.Comp? {
          err := Some(Heterogeneous);
          TrimErrorSticks(self, from, j + 1, |self|);
          return;
        }
        effects := effects + [Disposed(s.c)];
      }
    }

    /** The loop pushing the extra new elements `other[from..]`. */
    method AppendTail(start: seq<Arg>, other: seq<Arg>, from: nat) returns (items: seq<Arg>, err: Option<Error>)
      requires from <= |other|
      ensures (items, Run([], err)) == ExtendRun(start, other, from, |other|)
    {
      items, err := start, None;
      for j := from to |other|
        invariant (items, Run([], None)) == ExtendRun(start, other, from, j)
      {
        var o := other[j];
        if !o.Comp? {
          err := Some(Heterogeneous);
          ExtendErrorSticks(start, other, from, j + 1, |other|);
          return;
        }
        items := items + [o];
      }
    }

    /** The body of `#updateInternalState` for one changed slot `i`. */
    method ReconcileSlot(i: nat, other: Arg) returns (effects: seq<Effect>, err: Option<Error>)
      modifies this`args, this`subs, this`refToArgs, this`nextHandle
      ensures (State(), Run(effects, err)) == old(SlotStep(State(), i, other))
    {
      ghost var step := SlotStep(State(), i, other);
      var self := Get(args, i);
      if self.Comp? && other.Comp? {
        if self.c.IsEqualTo(other.c) {
          effects, err := [NestedUpdate(self.c, other.c.args)], None;
        } else {
          effects, err := [Disposed(self.c)], None;
          args := Store(args, i, other);
        }
      } else if IsComponentList(self) && IsComponentList(other) {
        var items;
        assert forall c | c in ComponentsIn(other.items) :: allocated(c);
        items, effects, err := ReconcileList(self.items, other.items);
        assert step == (State().(args := Store(args, i, List(self.id, items))), Run(effects, err));
        args := Store(args, i, List(self.id, items));
      } else {
        effects, err := Rebind(i, other);
        if err.None? {
          args := Store(args, i, other);
        }
      }
      assert (State(), Run(effects, err)) == step;
    }

    /** Phase 1 (`#updateInternalState`): walks the new arguments in order, skips
        identical ones, reconciles the others and returns their indices. */
    method UpdateInternalState(newArgs: seq<Arg>) returns (toUpdate: seq<nat>, effects: seq<Effect>, err: Option<Error>)
      requires this !in ReadsAll(newArgs)
      modifies this`args, this`subs, this`refToArgs, this`nextHandle
      ensures (State(), Run(effects, err)) == old(Phase1Run(State(), newArgs))
      ensures err.None? ==> toUpdate == ChangedSlots(old(args), newArgs)
    {
      ghost var s0 := State();
      ReadsAllAllocated(newArgs);
      toUpdate, effects, err := [], [], None;
      for i := 0 to |newArgs|
        invariant toUpdate == ChangedSlots(old(args), newArgs[..i])
        invariant (State(), Run(effects, None)) == Phase1Run(s0, newArgs[..i])
        invariant forall j: nat :: j >= i ==> Get(args, j) == old(Get(args, j))
      {
        ReadsAllCovers(newArgs, i);
        ChangedNext(old(args), newArgs, i);
        ghost var before := State();
        ghost var p := Phase1Run(s0, newArgs[..i]);
        var self := Get(args, i);
        var other := newArgs[i];
        if Same(self, other) {
          Phase1Next(s0, newArgs, i);
          continue;
        }
        toUpdate := toUpdate + [i];
        ghost var q := SlotStep(before, i, other);
        var e, slotErr := ReconcileSlot(i, other);
        SlotStepFrame(before, i, other);
        assert p == Phase1Run(s0, newArgs[..i]) && p.0 == before && p.1.err.None?;
        assert SlotStep(p.0, i, newArgs[i]) == q;
        Phase1Next(s0, newArgs, i);
        assert Phase1Run(s0, newArgs[..i + 1]) == (q.0, Then(p.1, q.1));
        effects := effects + e;
        if slotErr.Some? {
          err := slotErr;
          Phase1ErrorSticks(s0, newArgs, i + 1);
          return;
        }
      }
      assert newArgs[..|newArgs|] == newArgs;
    }

    /** `update`: the three phases; an error in any of them stops the update and is
        handed to every error callback instead of being thrown. */
    method Update(newArgs: seq<Arg>) returns (effects: seq<Effect>, caught: Option<Error>)
      requires this !in ReadsAll(newArgs)
      modifies this`args, this`subs, this`refToArgs, this`nextHandle
      ensures var u := old(UpdateRun(State(), newArgs));
              && State() == u.0 && caught == u.1.err
              && effects == u.1.effects + (if caught.Some? then ErrorCallbacks(onError, caught.value) else [])
      ensures (forall j :: 0 <= j < |newArgs| ==> Same(old(Get(args, j)), newArgs[j])) ==>
                effects == [] && caught.None? && State() == old(State())
    {
      ghost var s0 := State();
      if forall j :: 0 <= j < |newArgs| ==> Same(Get(args, j), newArgs[j]) {
        UpdateIdentical(s0, newArgs);
      }
      ghost var u := UpdateRun(s0, newArgs);
      var toUpdate, e1, err := UpdateInternalState(newArgs);
      ghost var p := Run(e1, err);
      ghost var s1 := State();
      ghost var r2 := Phase2Run(toUpdate, s1.args, s1.table);
      ghost var r3 := Phase3Run(Reverse(ComponentSlots(toUpdate, s1.table)), s1.args, s1.table);
      assert u == (s1, Then(p, Then(r2, r3)));
      effects := e1;
      if err.None? {
        var components, e2, err2 := UpdateAttributes(toUpdate);
        assert r2 == Run(e2, err2);
        effects, err := effects + e2, err2;
        if err.None? {
          var e3, err3 := UpdateComponents(components);
          assert r3 == Run(e3, err3);
          SeqAssoc(e1, e2, e3);
          effects, err := effects + e3, err3;
        }
      }
      assert State() == u.0 && Run(effects, err) == u.1;
      caught := err;
      if err.Some? {
        effects := effects + ErrorCallbacks(onError, err.value);
      }
    }

    /** `#createElement` for one leaf, binding the slot `refIdx` of `table`. */
    method CreateElement(leaf: Tree, args: seq<Arg>, idx: nat, table: Table, refIdx: nat, dom: Dom)
      returns (created: Created, after: Table, effects: seq<Effect>, err: Option<Error>)
      modifies this`subs, this`nextHandle, this`nextNode
      ensures Element(created, Snap(after), Run(effects, err)) == CreateElementRun(leaf, args, idx, old(Snap(table)), refIdx, dom)
    {
      var value := Get(args, idx);
      effects, err := [], None;
      if leaf.tag.Static? {
        created := dom.element(Plain(leaf.tag.name), leaf).(usedArgs := 0);
        after := table;
        return;
      }
      if value.Comp? || IsComponentList(value) {
        var sliced := JsSlice(args, idx + 1, leaf.numOfInterpolations + 1);
        var res := if value.Comp? then dom.component(value.c, leaf, sliced, table, refIdx)
                   else dom.componentList(value.items, leaf, sliced, table, refIdx);
        created := res.0;
        var anchor := nextNode;
        nextNode := nextNode + 1;
        effects := [InsertBefore(created.tag[0], anchor)];
        after := BindRoot(res.1, refIdx, Bare([anchor]).(isComponent := true, children := Some(leaf)), anchor);
      } else if value.Reactive? {
        var res := dom.reactive(value, leaf, args, idx, table, refIdx);
        created := res.0;
        after := res.1;
        var sub := Subscription(nextHandle, value.id);
        nextHandle := nextHandle + 1;
        subs := [sub] + subs;
        if refIdx !in after {
          err := Some(UndefinedProperty);
          return;
        }
        var d := after[refIdx];
        after := after[refIdx := d.(subscription := Some(if d.subscription.None? then [sub] else d.subscription.value + [sub]))];
      } else {
        created := dom.element(value, leaf).(usedArgs := 1);
        after := BindRoot(table, refIdx, Bare([created.tag[0]]).(isTagName := true, isTextNode := leaf.isTextNode), created.tag[0]);
      }
    }

    /** One interpolated attribute `name` with argument `arg` on `tag`, bound at slot `r`. */
    method BindHole(tag: NodeId, name: string, arg: Arg, table: Table, r: nat)
      returns (after: Table, effects: seq<Effect>, err: Option<Error>)
      modifies this`subs, this`nextHandle, this`cssKeys
      ensures Bound(Snap(after), Run(effects, err)) == BindHoleRun(tag, name, arg, old(Snap(table)), r)
    {
      effects, err := [], None;
      after := table;
      if arg.Reactive? {
        var sub := Subscription(nextHandle, arg.id);
        var write := SetAttribute(tag, name, Plain(arg.current));
        effects := if arg.isSignal then [write, Subscribe(sub, tag)] else [Subscribe(sub, tag), write];
        nextHandle := nextHandle + 1;
        subs := [sub] + subs;
        if r !in after {
          after := after[r := Bare([tag]).(attribute := Some(name), isAttributeValue := true,
                                             isSubscription := true, subscription := Some([sub]))];
        } else {
          var d := after[r].(root := after[r].root + [tag]);
          after := after[r := d];
          if d.subscription.None? {
            err := Some(UndefinedProperty);
            return;
          }
          after := after[r := d.(subscription := Some(d.subscription.value + [sub]))];
        }
      } else if IsEventBinding(arg, name) {
        effects := [AddListener(tag, name[1..], Wrapped(arg))];
        after := BindRoot(after, r, Bare([tag]).(attribute := Some(name), isEvent := true), tag);
      } else if IsRef(arg) {
        effects := [AssignElement(arg, Some(tag))];
        after := BindRoot(after, r, Bare([tag]).(isRef := true, ref := Some(arg)), tag);
      } else if IsScopedCss(arg) {
        cssKeys := cssKeys + [arg.key];
        after := BindRoot(after, r, Bare([tag]).(isCssKey := true), tag);
      } else {
        effects := [SetAttribute(tag, name, arg)];
      }
    }

    /** `#setAttributes`: the style keys become classes of `tag`; every attribute
        whose value is the interpolation sentinel consumes the next argument and
        binds the next slot; returns the advanced argument cursor. */
    method SetAttributes(tag: NodeId, attributes: seq<Attribute>, args: seq<Arg>, idx: nat, table: Table, refIdx: nat)
      returns (nextIdx: nat, after: Table, effects: seq<Effect>, err: Option<Error>)
      modifies this`subs, this`nextHandle, this`cssKeys
      ensures Attrs(nextIdx, Snap(after), Run(effects, err))
                == SetAttributesRun(tag, attributes, args, idx, old(Snap(table)), refIdx, |attributes|)
    {
      ghost var st0 := Snap(table);
      nextIdx, after, effects, err := idx, table, [], None;
      if |cssKeys| > 0 {
        effects := [AddClasses(tag, cssKeys)];
      }
      for i := 0 to |attributes|
        invariant err.None?
        invariant Attrs(nextIdx, Snap(after), Run(effects, None)) == SetAttributesRun(tag, attributes, args, idx, st0, refIdx, i)
      {
        nextIdx, after, effects, err := SetAttributeAt(tag, attributes, args, idx, st0, refIdx, i, nextIdx, after, effects);
        if err.Some? {
          SetAttributesErrorSticks(tag, attributes, args, idx, st0, refIdx, i + 1, |attributes|);
          return;
        }
      }
    }

    /** One attribute of `#setAttributes`: a hole binds the next argument, a
        literal value is written as it is. */
    method SetAttributeAt(tag: NodeId, attributes: seq<Attribute>, args: seq<Arg>, idx: nat, ghost st0: Inst, refIdx: nat,
                          i: nat, nextIdx: nat, table: Table, effects: seq<Effect>)
      returns (nextIdx': nat, after: Table, effects': seq<Effect>, err: Option<Error>)
      requires i < |attributes|
      requires Attrs(nextIdx, Snap(table), Run(effects, None)) == SetAttributesRun(tag, attributes, args, idx, st0, refIdx, i)
      modifies this`subs, this`nextHandle, this`cssKeys
      ensures Attrs(nextIdx', Snap(after), Run(effects', err)) == SetAttributesRun(tag, attributes, args, idx, st0, refIdx, i + 1)
    {
      ghost var p := SetAttributesRun(tag, attributes, args, idx, st0, refIdx, i);
      if attributes[i].value == Hole {
        var r := refIdx + (nextIdx - idx);
        ghost var b := BindHoleRun(tag, attributes[i].name, Get(args, nextIdx), Snap(table), r);
        SetAttributesHoleStep(tag, attributes, args, idx, st0, refIdx, i, p, b);
        var e;
        after, e, err := BindHole(tag, attributes[i].name, Get(args, nextIdx), table, r);
        effects' := effects + e;
        nextIdx' := if err.None? then nextIdx + 1 else nextIdx;
      } else {
        var write := SetAttribute(tag, attributes[i].name, Plain(attributes[i].value.text));
        SetAttributesTextStep(tag, attributes, args, idx, st0, refIdx, i, p);
        nextIdx', after, effects', err := nextIdx, table, effects + [write], None;
      }
    }

    /** One element leaf of `#createDOMRecursive`. */
    method InstantiateLeaf(leaf: Tree, args: seq<Arg>, idx: nat, table: Table, refIdx: nat, dom: Dom)
      returns (created: Created, nextIdx: nat, after: Table, effects: seq<Effect>, err: Option<Error>)
      modifies this`subs, this`nextHandle, this`nextNode, this`cssKeys
      ensures Leaf(created, nextIdx, Snap(after), Run(effects, err)) == InstantiateLeafRun(leaf, args, idx, old(Snap(table)), refIdx, dom)
    {
      var bound, e0, err0;
      created, bound, e0, err0 := CreateElement(leaf, args, idx, table, refIdx, dom);
      ghost var el := Element(created, Snap(bound), Run(e0, err0));
      nextIdx, after, effects, err := LeafAttributes(leaf, args, idx, refIdx, created, bound, e0, err0, el);
    }

    /** The part of one element leaf after its element is created. */
    method LeafAttributes(leaf: Tree, args: seq<Arg>, idx: nat, refIdx: nat, created: Created, bound: Table,
                          e0: seq<Effect>, err0: Option<Error>, ghost el: Element)
      returns (nextIdx: nat, after: Table, effects: seq<Effect>, err: Option<Error>)
      requires el == Element(created, Snap(bound), Run(e0, err0))
      modifies this`subs, this`nextHandle, this`cssKeys
      ensures Leaf(created, nextIdx, Snap(after), Run(effects, err)) == LeafAttributesRun(leaf, args, idx, refIdx, el)
    {
      LeafCases(leaf, args, idx, refIdx, el);
      after, nextIdx, effects, err := bound, idx, e0, err0;
      if err.Some? {
        return;
      }
      nextIdx := idx + created.usedArgs;
      var r := refIdx + created.usedArgs;
      if created.needAttributes {
        var n, attributed, e, attrErr := SetAttributes(created.tag[0], leaf.attributes, args, nextIdx, after, r);
        after, effects, nextIdx, err := attributed, effects + e, n, attrErr;
      } else {
        after := BindNodeless(leaf.attributes, after, r);
        nextIdx := nextIdx + Holes(leaf.attributes);
      }
    }

    /** The holes of a leaf that takes no attributes: each binds its slot, from `r`
        on, to a descriptor without nodes naming the attribute. */
    static method BindNodeless(attributes: seq<Attribute>, table: Table, r: nat) returns (after: Table)
      ensures after == NodelessRun(attributes, |attributes|, table, r)
    {
      after := table;
      var slot := r;
      for j := 0 to |attributes|
        invariant slot == r + Holes(attributes[..j])
        invariant after == NodelessRun(attributes, j, table, r)
      {
        assert attributes[..j + 1] == attributes[..j] + [attributes[j]];
        HolesSnoc(attributes[..j], attributes[j]);
        if attributes[j].value == Hole {
          // the slot is bound without a node: nothing will be patched there
          after := after[slot := Bare([]).(attribute := Some(attributes[j].name), isAttributeValue := true)];
          slot := slot + 1;
        }
      }
    }

    /** `#createDOMRecursive`: instantiates a forest left to right, binding `table`
        from slot `refIdx` and the invoker's table in `ctx`. */
    method CreateDomRecursive(tree: seq<Tree>, ctx: Children, args: seq<Arg>, idx: nat, table: Table, refIdx: nat, dom: Dom)
      returns (nodes: seq<NodeId>, nextIdx: nat, after: Table, ctxTable: Table, effects: seq<Effect>, err: Option<Error>)
      modifies this`subs, this`nextHandle, this`nextNode, this`cssKeys
      ensures Walk(nodes, nextIdx, Snap(after), ctxTable, Run(effects, err))
                == WalkFrom(tree, 0, ctx, args, old(Snap(table)), idx, refIdx, [], [], dom)
      decreases if |ctx.tree| == 0 then 0 else 1, ForestSize(tree), 2
    {
      nodes, nextIdx, after, ctxTable, effects, err := [], idx, table, ctx.table, [], None;
      var r: nat := refIdx;
      for i := 0 to |tree|
        invariant err.None?
        invariant WalkFrom(tree, 0, ctx, args, old(Snap(table)), idx, refIdx, [], [], dom)
                    == WalkFrom(tree, i, ctx.(table := ctxTable), args, Snap(after), nextIdx, r, nodes, effects, dom)
      {
        var c := ctx.(table := ctxTable);
        ghost var st0 := Snap(after);
        if IsChildrenLeaf(tree[i], Get(args, nextIdx)) {
          assert WalkFrom(tree, i, c, args, st0, nextIdx, r, nodes, effects, dom)
                   == WalkPlaceholder(tree, i, c, args, st0, nextIdx, r, nodes, effects, dom);
          nodes, nextIdx, after, ctxTable, r, effects, err := ExpandChildren(tree, i, c, args, nextIdx, after, r, nodes, effects, dom);
        } else {
          assert WalkFrom(tree, i, c, args, st0, nextIdx, r, nodes, effects, dom)
                   == WalkLeaf(tree, i, c, args, nextIdx, r, nodes, effects, dom, InstantiateLeafRun(tree[i], args, nextIdx, st0, r, dom));
          nodes, nextIdx, after, ctxTable, r, effects, err := ElementStep(tree, i, c, args, nextIdx, after, r, nodes, effects, dom);
        }
        if err.Some? {
          return;
        }
      }
    }

    /** A `Children` leaf `tree[i]` of `#createDOMRecursive`: the invoker's subtree
        is instantiated in its place. */
    method ExpandChildren(tree: seq<Tree>, i: nat, ctx: Children, args: seq<Arg>, idx: nat, table: Table, r: nat,
                          nodes: seq<NodeId>, effects: seq<Effect>, dom: Dom)
      returns (nodes': seq<NodeId>, idx': nat, after: Table, ctxTable: Table, r': nat, effects': seq<Effect>, err: Option<Error>)
      requires i < |tree|
      modifies this`subs, this`nextHandle, this`nextNode, this`cssKeys
      ensures StepsTo(WalkPlaceholder(tree, i, ctx, args, old(Snap(table)), idx, r, nodes, effects, dom), tree, i, ctx, args, dom,
                      Walk(nodes', idx', Snap(after), ctxTable, Run(effects', err)), r')
      decreases if |ctx.tree| == 0 then 0 else 1, ForestSize(tree), 0
    {
      var leaf := tree[i];
      ChildrenSmaller(tree, i);
      ghost var st0 := Snap(table);
      nodes', idx', after, ctxTable, r', effects', err := nodes, idx, table, ctx.table, r, effects, None;
      if |leaf.children| > 0 || |leaf.attributes| > 0 {
        err := Some(StructuralError);
        return;
      }
      var list, innerIdx, expanded, innerCtx, e, expandErr := CreateDomRecursive(ctx.tree, NoChildren, ctx.args, 0, ctx.table, ctx.idx, dom);
      ghost var inner := Walk(list, innerIdx, Snap(expanded), innerCtx, Run(e, expandErr));
      PlaceholderNext(tree, i, ctx, args, st0, idx, r, nodes, effects, dom, inner);
      assert Snap(after) == inner.st.(table := st0.table);
      ctxTable, nodes', effects', err := expanded, nodes + list, effects + e, expandErr;
    }

    /** An element leaf `tree[i]` of `#createDOMRecursive`: the leaf is
        instantiated and, when it made one node, its subtree is walked and
        appended to that node. */
    method ElementStep(tree: seq<Tree>, i: nat, ctx: Children, args: seq<Arg>, idx: nat, table: Table, r: nat,
                       nodes: seq<NodeId>, effects: seq<Effect>, dom: Dom)
      returns (nodes': seq<NodeId>, idx': nat, after: Table, ctxTable: Table, r': nat, effects': seq<Effect>, err: Option<Error>)
      requires i < |tree|
      modifies this`subs, this`nextHandle, this`nextNode, this`cssKeys
      ensures StepsTo(WalkLeaf(tree, i, ctx, args, idx, r, nodes, effects, dom, old(InstantiateLeafRun(tree[i], args, idx, Snap(table), r, dom))),
                      tree, i, ctx, args, dom, Walk(nodes', idx', Snap(after), ctxTable, Run(effects', err)), r')
      decreases if |ctx.tree| == 0 then 0 else 1, ForestSize(tree), 1
    {
      var created, n, bound, e, leafErr := InstantiateLeaf(tree[i], args, idx, table, r, dom);
      ghost var l := Leaf(created, n, Snap(bound), Run(e, leafErr));
      if leafErr.Some? || !(|created.tag| == 1 && |tree[i].children| > 0) {
        LeafNext(tree, i, ctx, args, idx, r, nodes, effects, dom, l);
        nodes' := if leafErr.Some? then nodes else nodes + created.tag;
        idx', after, ctxTable, r', effects', err := n, bound, ctx.table, r + (n - idx), effects + e, leafErr;
        return;
      }
      nodes', idx', after, ctxTable, r', effects', err := ElementChildren(tree, i, ctx, args, idx, r, nodes, effects, dom, l, created, n, bound, e);
    }

    /** The subtree of an element leaf that was instantiated to `l` with one node:
        walked, then appended to that node. */
    method ElementChildren(tree: seq<Tree>, i: nat, ctx: Children, args: seq<Arg>, idx: nat, r: nat,
                           nodes: seq<NodeId>, effects: seq<Effect>, dom: Dom,
                           ghost l: Leaf, created: Created, n: nat, bound: Table, e: seq<Effect>)
      returns (nodes': seq<NodeId>, idx': nat, after: Table, ctxTable: Table, r': nat, effects': seq<Effect>, err: Option<Error>)
      requires i < |tree| && idx <= n && l == Leaf(created, n, Snap(bound), Run(e, None))
      requires |created.tag| == 1 && |tree[i].children| > 0
      modifies this`subs, this`nextHandle, this`nextNode, this`cssKeys
      ensures StepsTo(WalkLeaf(tree, i, ctx, args, idx, r, nodes, effects, dom, l), tree, i, ctx, args, dom,
                      Walk(nodes', idx', Snap(after), ctxTable, Run(effects', err)), r')
      decreases if |ctx.tree| == 0 then 0 else 1, ForestSize(tree), 0
    {
      var leaf := tree[i];
      ChildrenSmaller(tree, i);
      var childNodes, index, nested, nestedCtx, ce, childErr := CreateDomRecursive(leaf.children, ctx, args, n, bound, r + (n - idx), dom);
      ghost var sub := Walk(childNodes, index, Snap(nested), nestedCtx, Run(ce, childErr));
      nodes', idx', after, ctxTable, r', err := nodes + created.tag, index, nested, nestedCtx, r + (index - idx), childErr;
      effects' := effects + e + ce + (if childErr.None? then [AppendChildren(created.tag[0], childNodes)] else []);
      LeafChildrenNext(tree, i, ctx, args, idx, r, nodes, effects, dom, l, sub, Walk(nodes', idx', Snap(after), ctxTable, Run(effects', err)), r');
    }

    /** `render`: a component that already has nodes returns them again and reruns
        its mount callbacks; otherwise it instantiates its tree, keeps the nodes
        on success and runs the mount callbacks, and on failure runs the error
        callbacks and returns no nodes. `failed` stands for the logged error. */
    method Render(ctx: Children, dom: Dom) returns (nodes: seq<NodeId>, ctxTable: Table, effects: seq<Effect>, failed: Option<Error>)
      modifies this`refToArgs, this`root, this`subs, this`nextHandle, this`nextNode, this`cssKeys
      ensures old(root).Some? && |old(root).value| > 0 ==>
                && nodes == old(root).value && effects == MountCallbacks(onMount) && failed.None?
                && ctxTable == ctx.table && Snap(refToArgs) == old(Snap(refToArgs)) && root == old(root)
      ensures !(old(root).Some? && |old(root).value| > 0) ==>
                var w := WalkFrom(tree, 0, ctx, args, old(Snap(refToArgs)), 0, 0, [], [], dom);
                && Snap(refToArgs) == w.st && ctxTable == w.ctxTable && failed == w.run.err
                && (failed.None? ==> root == Some(w.nodes) && nodes == w.nodes && effects == w.run.effects + MountCallbacks(onMount))
                && (failed.Some? ==> root == old(root) && nodes == [] && effects == w.run.effects + ErrorCallbacks(onError, failed.value))
    {
      if root.Some? && |root.value| > 0 {
        nodes, ctxTable, effects, failed := root.value, ctx.table, MountCallbacks(onMount), None;
        return;
      }
      var list, _, bound, ct, e, err := CreateDomRecursive(tree, ctx, args, 0, refToArgs, 0, dom);
      refToArgs, ctxTable := bound, ct;
      failed := err;
      if err.None? {
        root := Some(list);
        nodes, effects := list, e + MountCallbacks(onMount);
      } else {
        nodes, effects := [], e + ErrorCallbacks(onError, err.value);
      }
    }
  }

  /** `render` is idempotent once it has produced nodes: the second call returns
      the same nodes, reruns every mount callback and instantiates nothing. */
  method RenderTwice(c: Component, ctx: Children, dom: Dom)
    returns (first: seq<NodeId>, second: seq<NodeId>, secondEffects: seq<Effect>)
    modifies c
    ensures |first| > 0 ==> second == first && secondEffects == MountCallbacks(c.onMount) && c.root == Some(first)
  {
    var t1, e1, f1;
    first, t1, e1, f1 := c.Render(ctx, dom);
    var t2, f2;
    second, t2, secondEffects, f2 := c.Render(ctx, dom);
  }

  /** Two components built against one cache share their tree, and so are equal
      under `isEqualTo`, exactly when their templates differ only in whitespace. */
  method SharedTree(cache: TreeCache, t1: string, t2: string, args1: seq<Arg>, args2: seq<Arg>, parse: string -> seq<Tree>)
    returns (a: Component, b: Component)
    requires cache.Valid()
    modifies cache
    ensures cache.Valid()
    ensures a.IsEqualTo(b) <==> CacheKey(t1) == CacheKey(t2)
    ensures a.IsEqualTo(b) ==> a.tree == b.tree
  {
    ghost var s0 := cache.state;
    a := new Component(cache, t1, args1, parse);
    b := new Component(cache, t2, args2, parse);
    ResolveIdentity(s0, t1, t2, parse);
  }
}
