/** Two loops of `core/template/component.js` whose `let i` shadows the slot index
    `i` of the enclosing code. Each is modelled here as written, beside a lemma that
    exhibits an input on which it differs from the intended behaviour; the rest of
    the model uses the intended definitions (`Components.PatchSlot`,
    `Components.RebindState`). */
module Findings {
  import opened Template
  import opened Components

  /* ---------------- Phase 2: listener and attribute slots ---------------- */

  /** The inner loop of an event or attribute slot as written: step `k` reads the
      attribute name from slot `k` instead of the slot being patched, and reading a
      property of a missing slot throws. */
  function ShadowedPatchLoop(roots: seq<NodeId>, table: Table, k: nat, self: Arg, listener: bool): Run
    requires k <= |roots|
    decreases |roots| - k
  {
    if k == |roots| then Ok
    else if k !in table then Run([], Some(UndefinedProperty))
    else
      var e := if listener then AddListener(roots[k], AttrName(table[k]), Raw(self))
               else SetAttribute(roots[k], AttrName(table[k]), Snapshot(self));
      Then(Run([e], None), ShadowedPatchLoop(roots, table, k + 1, self, listener))
  }

  /** Phase 2 on one slot as written. */
  function PatchSlotAsWritten(self: Arg, table: Table, i: nat): Run
    requires i in table
  {
    var d := table[i];
    if d.isComponent then Ok
    else if d.isEvent then ShadowedPatchLoop(d.root, table, 0, self, true)
    else if d.isAttributeValue then ShadowedPatchLoop(d.root, table, 0, self, false)
    else PatchSlot(self, d)
  }

  /** When every slot below the root count carries the patched slot's attribute
      name, the shadowed loop does what the intended one does. */
  lemma {:induction false} ShadowedLoopAgrees(roots: seq<NodeId>, table: Table, k: nat, self: Arg, listener: bool, name: string)
    requires k <= |roots|
    requires forall j :: k <= j < |roots| ==> j in table && AttrName(table[j]) == name
    ensures ShadowedPatchLoop(roots, table, k, self, listener) ==
            Run(seq(|roots| - k, j requires 0 <= j < |roots| - k =>
                  if listener then AddListener(roots[k + j], name, Raw(self))
                  else SetAttribute(roots[k + j], name, Snapshot(self))), None)
    decreases |roots| - k
  {
    if k < |roots| {
      ShadowedLoopAgrees(roots, table, k + 1, self, listener, name);
    }
  }

  lemma PatchSlotAsWrittenAgrees(self: Arg, table: Table, i: nat)
    requires i in table
    requires forall j :: 0 <= j < |table[i].root| ==> j in table && AttrName(table[j]) == AttrName(table[i])
    ensures PatchSlotAsWritten(self, table, i) == PatchSlot(self, table[i])
  {
    var d := table[i];
    ShadowedLoopAgrees(d.root, table, 0, self, d.isEvent, AttrName(d));
  }

  /** Slot 1 listens for `@click` on node 2, while slot 0 is an attribute `title`:
      the loop as written registers the listener under `title`. */
  lemma ShadowedListenerCounterexample()
    ensures var t := map[0 := Bare([1]).(isAttributeValue := true, attribute := Some("title")),
                         1 := Bare([2]).(isEvent := true, attribute := Some("@click"))];
            && PatchSlotAsWritten(Func(7), t, 1) == Run([AddListener(2, "title", Raw(Func(7)))], None)
            && PatchSlot(Func(7), t[1]) == Run([AddListener(2, "@click", Raw(Func(7)))], None)
  {
    var t := map[0 := Bare([1]).(isAttributeValue := true, attribute := Some("title")),
                 1 := Bare([2]).(isEvent := true, attribute := Some("@click"))];
    assert ShadowedPatchLoop([2], t, 1, Func(7), true) == Ok;
    assert t[1].isEvent && !t[1].isComponent && t[1].root == [2] && AttrName(t[1]) == "@click";
    var r := PatchSlot(Func(7), t[1]);
    assert |r.effects| == 1 && r.effects[0] == AddListener(2, "@click", Raw(Func(7)));
    assert r.effects == [AddListener(2, "@click", Raw(Func(7)))];
  }

  /* ---------------- Phase 1: rebinding a slot to a reactive ---------------- */

  /** The subscribe loop as written: step `k` tests against slot `k`'s root count,
      subscribes its `k`-th root and pushes onto slot `k`'s subscription list;
      a missing slot or list throws. */
  function RebindLoopAsWritten(table: Table, k: nat, source: nat, handle: nat): Run
    decreases |set j | j in table && j >= k|
  {
    if k !in table then Run([], Some(UndefinedProperty))
    else if k >= |table[k].root| then Ok
    else
      var sub := Subscription(handle, source);
      var subscribed := Run([Subscribe(sub, table[k].root[k])], None);
      if table[k].subscription.None? then Then(subscribed, Run([], Some(UndefinedProperty)))
      else
        var next := table[k := table[k].(subscription := Some(table[k].subscription.value + [sub]))];
        ghost var later, rest := set j | j in next && j >= k + 1, set j | j in table && j >= k;
        assert rest == later + {k} && k !in later;
        Then(subscribed, RebindLoopAsWritten(next, k + 1, source, handle + 1))
  }

  /** Rebinding slot `i` to the reactive `source` as written, after its references
      were cleared: the slot is flagged as a subscription with an empty list, then
      the shadowed loop runs. */
  function ReactiveRebindAsWritten(table: Table, i: nat, source: nat, handle: nat): Run
  {
    if i !in table then Run([], Some(UndefinedProperty))
    else RebindLoopAsWritten(table[i := table[i].(isSubscription := true, subscription := Some([]))], 0, source, handle)
  }

  /** A single slot with two root nodes: as written, the second step looks up the
      missing slot 1 and throws after one subscription; the intended rebinding
      subscribes both nodes. */
  lemma ShadowedRebindCounterexample()
    ensures var d := Bare([10, 11]);
            && ReactiveRebindAsWritten(map[0 := d], 0, 5, 0) ==
                 Run([Subscribe(Subscription(0, 5), 10)], Some(UndefinedProperty))
            && RebindState(d, Plain("x"), Reactive(5, true, "v"), [], 0).run ==
                 Run([Subscribe(Subscription(0, 5), 10), Subscribe(Subscription(1, 5), 11)], None)
  {
    var d := Bare([10, 11]);
    var t := map[0 := d.(isSubscription := true, subscription := Some([]))];
    assert map[0 := d][0 := d.(isSubscription := true, subscription := Some([]))] == t;
    var next := t[0 := t[0].(subscription := Some([Subscription(0, 5)]))];
    assert RebindLoopAsWritten(t, 0, 5, 0) ==
           Then(Run([Subscribe(Subscription(0, 5), 10)], None), RebindLoopAsWritten(next, 1, 5, 1));
    assert RebindLoopAsWritten(next, 1, 5, 1) == Run([], Some(UndefinedProperty));
    assert Subscribes(FreshSubs(d.root, 5, 0), d.root) ==
           [Subscribe(Subscription(0, 5), 10), Subscribe(Subscription(1, 5), 11)];
  }
}
