/** What one recursive deactivation walk does, as functions of the scene state it starts
    from and of what the walk has changed so far. Unlike activation, the walk reads back
    state its own callbacks may change: an onDisable may switch back on a node whose
    deactivation is in progress, and the walk then stops at that node. So the walk is
    specified step by step over a trail of its changes, and the activator's walk is
    proved to leave the scene exactly as the trail says. */
module DeactivationWalk {
  import opened ObjFlags
  import opened SceneGraph
  import opened ActivationWalk

  /** What the deactivation walk has changed so far: the whole log, whether each node it
      has switched is active in hierarchy, and the flags of each component it has disabled. */
  datatype Trail = Trail(log: seq<Event>, inHierarchy: map<Node, bool>, flags: map<Component, Flags>)

  /** How far a loop of the walk got: the trail, and whether the node it runs for was
      switched back on, which ends the node's walk early. */
  datatype Outcome = Outcome(trail: Trail, aborted: bool)

  function InHierarchyAfter(s: Shot, t: Trail, m: Node): bool {
    if m in t.inHierarchy then t.inHierarchy[m] else InHierarchyOf(s, m)
  }

  function FlagsAfter(s: Shot, t: Trail, c: Component): Flags {
    if c in t.flags then t.flags[c] else FlagsOf(s, c)
  }

  /** Whether m carries Deactivating while the walks of the nodes of path are in progress:
      those nodes carry it, and so does any node that carried it when the walk began. */
  predicate Flagged(s: Shot, path: set<Node>, m: Node) {
    m in path || Has(NodeFlagsOf(s, m), Deactivating)
  }

  /** `disableComp(c)` while the walks of path are in progress: a component marked as
      enabled gets onDisable, which switches its target back on when the target carries
      Deactivating; the mark is cleared either way. */
  function Disabled(s: Shot, path: set<Node>, c: Component, t: Trail): (r: Trail)
    ensures FlagsAfter(s, r, c) == Without(FlagsAfter(s, t, c), IsOnEnableCalled)
    ensures Has(FlagsAfter(s, t, c), IsOnEnableCalled) <==> r.log == t.log + [Called(OnDisable, c)]
    ensures !Has(FlagsAfter(s, t, c), IsOnEnableCalled) <==> r.log == t.log
  {
    var flags := FlagsAfter(s, t, c);
    var cleared := t.(flags := t.flags[c := Without(flags, IsOnEnableCalled)]);
    if !Has(flags, IsOnEnableCalled) then cleared
    else
      var target := c.reactivatesOnDisable;
      cleared.(log := t.log + [Called(OnDisable, c)],
               inHierarchy := if target != null && Flagged(s, path, target) then t.inHierarchy[target := true]
                              else t.inHierarchy)
  }

  /** Disabling c touches no other component's flags, and switches on in hierarchy only
      c's reactivation target, only when c's onDisable runs, and only when the target is
      under deactivation. */
  lemma DisabledTouches(s: Shot, path: set<Node>, c: Component, t: Trail)
    ensures forall d :: d != c ==> FlagsAfter(s, Disabled(s, path, c, t), d) == FlagsAfter(s, t, d)
    ensures forall m :: (InHierarchyAfter(s, Disabled(s, path, c, t), m) <==>
                           InHierarchyAfter(s, t, m) ||
                           (Has(FlagsAfter(s, t, c), IsOnEnableCalled) && m == c.reactivatesOnDisable &&
                            Flagged(s, path, m)))
  {
  }

  /** The component loop of the walk of n from slot i on: each enabled component is
      disabled, and the loop stops as soon as n is back on in hierarchy. A slot that does
      not hold a component has no `_enabled` and is passed over. */
  ghost function DisableFrom(n: Node, slots: seq<Slot>, i: nat, path: set<Node>, s: Shot, t: Trail): Outcome
    decreases |slots| - i
  {
    if i >= |slots| then Outcome(t, false)
    else if slots[i].Comp? && EnabledOf(s, slots[i].c) then
      var t' := Disabled(s, path, slots[i].c, t);
      if InHierarchyAfter(s, t', n) then Outcome(t', true)
      else DisableFrom(n, slots, i + 1, path, s, t')
    else DisableFrom(n, slots, i + 1, path, s, t)
  }

  /** The children loop of the walk of n from child k on: each child still active in
      hierarchy is walked, and the loop stops as soon as n is back on in hierarchy. */
  ghost function DeactFrom(n: Node, k: nat, path: set<Node>, s: Shot, t: Trail): Outcome
    requires n.Valid() && k <= |n.children|
    decreases n.height, 1, |n.children| - k
  {
    if k == |n.children| then Outcome(t, false)
    else
      var child := n.children[k];
      if InHierarchyAfter(s, t, child) then
        var t' := Deact(child, path, s, t);
        if InHierarchyAfter(s, t', n) then Outcome(t', true)
        else DeactFrom(n, k + 1, path, s, t')
      else DeactFrom(n, k + 1, path, s, t)
  }

  /** `_deactivateNodeRecursively(n)` while the walks of path are in progress: n is marked
      and switched off, its components are disabled, then its children, and unless n was
      switched back on meanwhile its post-activation hook runs with false. */
  ghost function Deact(n: Node, path: set<Node>, s: Shot, t: Trail): Trail
    requires n.Valid()
    decreases n.height, 2
  {
    var flagged := path + {n};
    var entered := t.(inHierarchy := t.inHierarchy[n := false]);
    var comps := DisableFrom(n, SlotsOf(s, n), 0, flagged, s, entered);
    if comps.aborted then comps.trail
    else
      var below := DeactFrom(n, 0, flagged, s, comps.trail);
      if below.aborted then below.trail
      else below.trail.(log := below.trail.log + [PostActivated(n, false)])
  }

  /** The scene stands as trail t says, with the nodes of path marked Deactivating and
      every other node carrying the flags s records. */
  ghost predicate Traced(scene: Scene, s: Shot, path: set<Node>, t: Trail)
    reads scene`log, scene.nodes`activeInHierarchy, scene.nodes`objFlags, scene.comps`objFlags
  {
    scene.log == t.log && SwitchesTraced(scene, s, t) && Marked(scene, s, path) && FlagsTraced(scene, s, t)
  }

  ghost predicate SwitchesTraced(scene: Scene, s: Shot, t: Trail)
    reads scene.nodes`activeInHierarchy
  {
    forall m :: m in scene.nodes ==> m.activeInHierarchy == InHierarchyAfter(s, t, m)
  }

  ghost predicate Marked(scene: Scene, s: Shot, path: set<Node>)
    reads scene.nodes`objFlags
  {
    forall m :: m in scene.nodes ==>
      m.objFlags == if m in path then With(NodeFlagsOf(s, m), Deactivating) else NodeFlagsOf(s, m)
  }

  ghost predicate FlagsTraced(scene: Scene, s: Shot, t: Trail)
    reads scene.comps`objFlags
  {
    forall c :: c in scene.comps ==> c.objFlags == FlagsAfter(s, t, c)
  }

  /** What the deactivation walk needs of the nodes of ns, none of which it changes: each
      holds the owned component array s records, with no falsy slot (reading `_enabled` of
      one would throw), and none was already under deactivation; and every component's own
      switch is the one s records. */
  ghost predicate Settled(scene: Scene, s: Shot, ns: set<Node>)
    reads ns`components, scene.comps`enabled
  {
    OwnedIn(scene, s, ns) &&
    (forall m :: m in ns ==>
      m.components == SlotsOf(s, m) && Null !in SlotsOf(s, m) && !Has(NodeFlagsOf(s, m), Deactivating)) &&
    (forall c :: c in scene.comps ==> c.enabled == EnabledOf(s, c))
  }

  // The walk when no callback interferes. When no onDisable of the subtree can switch a
  // node under deactivation back on, the walk is never cut short: it switches off the
  // node and, below it, every node active in hierarchy, disables the enabled components
  // of those nodes, and ends each node's walk with its post-activation hook.

  /** c's onDisable cannot switch back on a node marked Deactivating (the nodes of marked,
      and those that already carried the mark). */
  predicate Calm(s: Shot, marked: set<Node>, c: Component) {
    c.reactivatesOnDisable == null || !Flagged(s, marked, c.reactivatesOnDisable)
  }

  /** No component of the nodes of ns can switch back on a node that the walk of those
      nodes, below the walks of path, marks or finds marked. */
  ghost predicate Quiet(scene: Scene, s: Shot, path: set<Node>, ns: set<Node>) {
    forall c :: c in scene.CompsAt(ns) ==> Calm(s, path + ns, c)
  }

  /** Trail t has changed nothing on the nodes of ns or their components yet. */
  ghost predicate Untouched(scene: Scene, s: Shot, t: Trail, ns: set<Node>) {
    (forall m :: m in ns ==> InHierarchyAfter(s, t, m) == InHierarchyOf(s, m)) &&
    (forall c :: c in scene.CompsAt(ns) ==> FlagsAfter(s, t, c) == FlagsOf(s, c))
  }

  /** The components among slots i and on whose onDisable the walk calls: those whose own
      switch is on and whose onEnable has been called. */
  function StartedFrom(slots: seq<Slot>, i: nat, s: Shot): seq<Component>
    decreases |slots| - i
  {
    if i >= |slots| then []
    else if slots[i].Comp? && EnabledOf(s, slots[i].c) && Has(FlagsOf(s, slots[i].c), IsOnEnableCalled) then
      [slots[i].c] + StartedFrom(slots, i + 1, s)
    else StartedFrom(slots, i + 1, s)
  }

  /** The nodes a quiet walk of n switches off: n, and what the walks of its children
      active in hierarchy switch off. */
  ghost function Switched(n: Node, s: Shot): set<Node>
    requires n.Valid()
    decreases n.height, 1
  {
    {n} + SwitchedFrom(n, 0, s)
  }

  ghost function SwitchedFrom(n: Node, k: nat, s: Shot): set<Node>
    requires n.Valid() && k <= |n.children|
    decreases n.height, 0, |n.children| - k
  {
    if k == |n.children| then {}
    else (if InHierarchyOf(s, n.children[k]) then Switched(n.children[k], s) else {}) + SwitchedFrom(n, k + 1, s)
  }

  /** What a quiet walk of n logs: onDisable of n's started components in array order,
      the walks of its children active in hierarchy, and n's post-activation hook. */
  ghost function QuietLog(n: Node, s: Shot): seq<Event>
    requires n.Valid()
    decreases n.height, 1
  {
    Dispatch(OnDisable, StartedFrom(SlotsOf(s, n), 0, s)) + QuietLogFrom(n, 0, s) + [PostActivated(n, false)]
  }

  ghost function QuietLogFrom(n: Node, k: nat, s: Shot): seq<Event>
    requires n.Valid() && k <= |n.children|
    decreases n.height, 0, |n.children| - k
  {
    if k == |n.children| then []
    else (if InHierarchyOf(s, n.children[k]) then QuietLog(n.children[k], s) else []) + QuietLogFrom(n, k + 1, s)
  }

  /** The component c is disabled by a walk that switches off the nodes of ns. */
  ghost predicate DisabledBy(s: Shot, ns: set<Node>, c: Component) {
    c.node in ns && Comp(c) in SlotsOf(s, c.node) && EnabledOf(s, c)
  }

  /** A quiet walk switches off only nodes of the subtree. */
  lemma {:induction false} SwitchedWithin(n: Node, s: Shot)
    requires n.Valid()
    ensures Switched(n, s) <= n.repr
    decreases n.height, 1
  {
    SwitchedFromWithin(n, 0, s);
  }

  lemma {:induction false} SwitchedFromWithin(n: Node, k: nat, s: Shot)
    requires n.Valid() && k <= |n.children|
    ensures forall m :: m in SwitchedFrom(n, k, s) ==> exists j :: k <= j < |n.children| && m in n.children[j].repr
    ensures SwitchedFrom(n, k, s) <= n.repr - {n}
    decreases n.height, 0, |n.children| - k
  {
    if k < |n.children| {
      SwitchedFromWithin(n, k + 1, s);
      if InHierarchyOf(s, n.children[k]) {
        SwitchedWithin(n.children[k], s);
      }
    }
  }

  /** The component loop when every component it disables is calm and untouched: it runs
      to the end, logs the onDisable of the started components, switches nothing, and
      clears the onEnable mark of exactly the enabled components from slot i on. */
  lemma {:induction false} DisableFromQuiet(scene: Scene, n: Node, slots: seq<Slot>, i: nat, path: set<Node>, s: Shot, t: Trail)
    requires scene.OwnedSlots(slots, n) && i <= |slots| && !InHierarchyAfter(s, t, n)
    requires forall j :: i <= j < |slots| && slots[j].Comp? ==>
      FlagsAfter(s, t, slots[j].c) == FlagsOf(s, slots[j].c) && Calm(s, path, slots[j].c)
    ensures var r := DisableFrom(n, slots, i, path, s, t);
      !r.aborted && r.trail.log == t.log + Dispatch(OnDisable, StartedFrom(slots, i, s)) &&
      (forall m :: InHierarchyAfter(s, r.trail, m) == InHierarchyAfter(s, t, m)) &&
      (forall c :: FlagsAfter(s, r.trail, c) ==
        if Comp(c) in slots[i..] && EnabledOf(s, c) then Without(FlagsOf(s, c), IsOnEnableCalled)
        else FlagsAfter(s, t, c))
    decreases |slots| - i, 1
  {
    if i < |slots| {
      if slots[i].Comp? && EnabledOf(s, slots[i].c) {
        DisableStepQuiet(scene, n, slots, i, path, s, t);
      } else {
        DisableFromQuiet(scene, n, slots, i + 1, path, s, t);
        assert slots[i..] == [slots[i]] + slots[i + 1..];
      }
    }
  }

  /** DisableFromQuiet at a slot holding an enabled component. */
  lemma {:induction false} DisableStepQuiet(scene: Scene, n: Node, slots: seq<Slot>, i: nat, path: set<Node>, s: Shot, t: Trail)
    requires scene.OwnedSlots(slots, n) && i < |slots| && !InHierarchyAfter(s, t, n)
    requires slots[i].Comp? && EnabledOf(s, slots[i].c)
    requires forall j :: i <= j < |slots| && slots[j].Comp? ==>
      FlagsAfter(s, t, slots[j].c) == FlagsOf(s, slots[j].c) && Calm(s, path, slots[j].c)
    ensures var r := DisableFrom(n, slots, i, path, s, t);
      !r.aborted && r.trail.log == t.log + Dispatch(OnDisable, StartedFrom(slots, i, s)) &&
      (forall m :: InHierarchyAfter(s, r.trail, m) == InHierarchyAfter(s, t, m)) &&
      (forall c :: FlagsAfter(s, r.trail, c) ==
        if Comp(c) in slots[i..] && EnabledOf(s, c) then Without(FlagsOf(s, c), IsOnEnableCalled)
        else FlagsAfter(s, t, c))
    decreases |slots| - i, 0
  {
    var c := slots[i].c;
    var t' := Disabled(s, path, c, t);
    DisabledTouches(s, path, c, t);
    OwnedLater(scene, slots, n, i);
    DisableFromQuiet(scene, n, slots, i + 1, path, s, t');
    var started := if Has(FlagsOf(s, c), IsOnEnableCalled) then [c] else [];
    DispatchAppend(OnDisable, started, StartedFrom(slots, i + 1, s));
    assert slots[i..] == [slots[i]] + slots[i + 1..];
    assert Comp(c) !in slots[i + 1..];
  }

  /** A component held by slot i of an owned array is held by no later slot. */
  lemma OwnedLater(scene: Scene, slots: seq<Slot>, n: Node, i: nat)
    requires scene.OwnedSlots(slots, n) && i < |slots| && slots[i].Comp?
    ensures forall j :: i < j < |slots| ==> slots[j] != slots[i]
    ensures Comp(slots[i].c) !in slots[i + 1..]
  {
    forall j | i < j < |slots|
      ensures slots[j] != slots[i]
    {
      scene.OwnedSlotsAt(slots, n, j);
      assert slots[..j][i] == slots[i];
    }
  }

  /** Every component an owned array holds is a scene component attached to its node. */
  lemma OwnedHolds(scene: Scene, slots: seq<Slot>, n: Node)
    requires scene.OwnedSlots(slots, n)
    ensures forall c :: Comp(c) in slots ==> c in scene.comps && c.node == n
  {
    forall c | Comp(c) in slots
      ensures c in scene.comps && c.node == n
    {
      var j :| 0 <= j < |slots| && slots[j] == Comp(c);
      scene.OwnedSlotsAt(slots, n, j);
    }
  }

  /** A quiet walk of n switches off n and every node below it reached through nodes
      active in hierarchy, logs the onDisable of their started components and their
      post-activation hooks in walk order, clears the onEnable mark of exactly their
      enabled components, and changes nothing else. */
  lemma {:induction false} DeactQuiet(scene: Scene, n: Node, path: set<Node>, s: Shot, t: Trail)
    requires n.Valid() && OwnedIn(scene, s, n.repr) && path !! n.repr
    requires Quiet(scene, s, path, n.repr) && Untouched(scene, s, t, n.repr)
    ensures var r := Deact(n, path, s, t);
      r.log == t.log + QuietLog(n, s) &&
      (forall m :: InHierarchyAfter(s, r, m) == (m !in Switched(n, s) && InHierarchyAfter(s, t, m))) &&
      (forall c :: FlagsAfter(s, r, c) ==
        if DisabledBy(s, Switched(n, s), c) then Without(FlagsOf(s, c), IsOnEnableCalled) else FlagsAfter(s, t, c))
    decreases n.height, 2
  {
    var flagged := path + {n};
    var entered := t.(inHierarchy := t.inHierarchy[n := false]);
    ComponentsQuiet(scene, n, path, s, t);
    var comps := DisableFrom(n, SlotsOf(s, n), 0, flagged, s, entered);
    QuietPart(scene, s, path, n.repr, flagged, n.repr - {n});
    DeactFromQuiet(scene, n, 0, flagged, s, comps.trail);
    var below := DeactFrom(n, 0, flagged, s, comps.trail);
    var r := below.trail.(log := below.trail.log + [PostActivated(n, false)]);
    assert Deact(n, path, s, t) == r;
    var disabled := Dispatch(OnDisable, StartedFrom(SlotsOf(s, n), 0, s));
    AppendAssoc(t.log, disabled, QuietLogFrom(n, 0, s));
    AppendAssoc(t.log, disabled + QuietLogFrom(n, 0, s), [PostActivated(n, false)]);
    QuietJoin(s, n, SwitchedFrom(n, 0, s), t, comps.trail, below.trail, r);
  }

  /** The changes of a node's component loop and of its children loop add up. */
  lemma QuietJoin(s: Shot, n: Node, below: set<Node>, t: Trail, mid: Trail, end: Trail, r: Trail)
    requires forall m :: InHierarchyAfter(s, mid, m) == (m != n && InHierarchyAfter(s, t, m))
    requires forall c :: (FlagsAfter(s, mid, c) ==
      if DisabledBy(s, {n}, c) then Without(FlagsOf(s, c), IsOnEnableCalled) else FlagsAfter(s, t, c))
    requires forall m :: InHierarchyAfter(s, end, m) == (m !in below && InHierarchyAfter(s, mid, m))
    requires forall c :: (FlagsAfter(s, end, c) ==
      if DisabledBy(s, below, c) then Without(FlagsOf(s, c), IsOnEnableCalled) else FlagsAfter(s, mid, c))
    requires r.inHierarchy == end.inHierarchy && r.flags == end.flags
    ensures forall m :: InHierarchyAfter(s, r, m) == (m !in {n} + below && InHierarchyAfter(s, t, m))
    ensures forall c :: (FlagsAfter(s, r, c) ==
      if DisabledBy(s, {n} + below, c) then Without(FlagsOf(s, c), IsOnEnableCalled) else FlagsAfter(s, t, c))
  {
  }

  /** The component loop of a quiet walk of n: it runs to the end, logs the onDisable of
      n's started components, switches off only n, clears the onEnable mark of exactly n's
      enabled components, and leaves the children's subtrees untouched. */
  lemma {:induction false} ComponentsQuiet(scene: Scene, n: Node, path: set<Node>, s: Shot, t: Trail)
    requires n.Valid() && OwnedIn(scene, s, n.repr) && path !! n.repr
    requires Quiet(scene, s, path, n.repr) && Untouched(scene, s, t, n.repr)
    ensures var r := DisableFrom(n, SlotsOf(s, n), 0, path + {n}, s, t.(inHierarchy := t.inHierarchy[n := false]));
      !r.aborted && r.trail.log == t.log + Dispatch(OnDisable, StartedFrom(SlotsOf(s, n), 0, s)) &&
      (forall m :: InHierarchyAfter(s, r.trail, m) == (m != n && InHierarchyAfter(s, t, m))) &&
      (forall c :: FlagsAfter(s, r.trail, c) ==
        if DisabledBy(s, {n}, c) then Without(FlagsOf(s, c), IsOnEnableCalled) else FlagsAfter(s, t, c)) &&
      (forall j :: 0 <= j < |n.children| ==> Untouched(scene, s, r.trail, n.children[j].repr))
  {
    var flagged := path + {n};
    var entered := t.(inHierarchy := t.inHierarchy[n := false]);
    var slots := SlotsOf(s, n);
    OwnedHolds(scene, slots, n);
    QuietPart(scene, s, path, n.repr, flagged, {n});
    DisableFromQuiet(scene, n, slots, 0, flagged, s, entered);
    assert slots[0..] == slots;
    var comps := DisableFrom(n, slots, 0, flagged, s, entered);
    forall c
      ensures FlagsAfter(s, comps.trail, c) ==
        if DisabledBy(s, {n}, c) then Without(FlagsOf(s, c), IsOnEnableCalled) else FlagsAfter(s, t, c)
    {
      assert (Comp(c) in slots && EnabledOf(s, c)) == DisabledBy(s, {n}, c);
    }
    forall j | 0 <= j < |n.children|
      ensures Untouched(scene, s, comps.trail, n.children[j].repr)
    {
      var ns := n.children[j].repr;
      assert n !in ns && ns <= n.repr;
      forall c | c in scene.CompsAt(ns)
        ensures FlagsAfter(s, comps.trail, c) == FlagsOf(s, c)
      {
        assert c in scene.CompsAt(n.repr) && !DisabledBy(s, {n}, c);
      }
    }
  }

  /** Quiet holds of fewer nodes below more walks, as long as no more nodes are marked. */
  lemma QuietPart(scene: Scene, s: Shot, path: set<Node>, ns: set<Node>, path': set<Node>, ns': set<Node>)
    requires Quiet(scene, s, path, ns) && ns' <= ns && path' + ns' <= path + ns
    ensures Quiet(scene, s, path', ns')
  {
    forall c | c in scene.CompsAt(ns')
      ensures Calm(s, path' + ns', c)
    {
      assert c in scene.CompsAt(ns);
    }
  }

  /** The children loop of a quiet walk, from child k on. */
  lemma {:induction false} DeactFromQuiet(scene: Scene, n: Node, k: nat, path: set<Node>, s: Shot, t: Trail)
    requires n.Valid() && k <= |n.children| && OwnedIn(scene, s, n.repr) && n in path && path !! n.repr - {n}
    requires Quiet(scene, s, path, n.repr - {n}) && !InHierarchyAfter(s, t, n)
    requires forall j :: k <= j < |n.children| ==> Untouched(scene, s, t, n.children[j].repr)
    ensures var r := DeactFrom(n, k, path, s, t);
      !r.aborted && r.trail.log == t.log + QuietLogFrom(n, k, s) &&
      (forall m :: InHierarchyAfter(s, r.trail, m) == (m !in SwitchedFrom(n, k, s) && InHierarchyAfter(s, t, m))) &&
      (forall c :: FlagsAfter(s, r.trail, c) ==
        if DisabledBy(s, SwitchedFrom(n, k, s), c) then Without(FlagsOf(s, c), IsOnEnableCalled) else FlagsAfter(s, t, c))
    decreases n.height, 1, |n.children| - k, 1
  {
    if k < |n.children| {
      if InHierarchyOf(s, n.children[k]) {
        DeactChildQuiet(scene, n, k, path, s, t);
      } else {
        DeactFromQuiet(scene, n, k + 1, path, s, t);
      }
    }
  }

  /** DeactFromQuiet at a child active in hierarchy. */
  lemma {:induction false} DeactChildQuiet(scene: Scene, n: Node, k: nat, path: set<Node>, s: Shot, t: Trail)
    requires n.Valid() && k < |n.children| && OwnedIn(scene, s, n.repr) && n in path && path !! n.repr - {n}
    requires Quiet(scene, s, path, n.repr - {n}) && !InHierarchyAfter(s, t, n)
    requires forall j :: k <= j < |n.children| ==> Untouched(scene, s, t, n.children[j].repr)
    requires InHierarchyOf(s, n.children[k])
    ensures var r := DeactFrom(n, k, path, s, t);
      !r.aborted && r.trail.log == t.log + QuietLogFrom(n, k, s) &&
      (forall m :: InHierarchyAfter(s, r.trail, m) == (m !in SwitchedFrom(n, k, s) && InHierarchyAfter(s, t, m))) &&
      (forall c :: FlagsAfter(s, r.trail, c) ==
        if DisabledBy(s, SwitchedFrom(n, k, s), c) then Without(FlagsOf(s, c), IsOnEnableCalled) else FlagsAfter(s, t, c))
    decreases n.height, 1, |n.children| - k, 0
  {
    var child := n.children[k];
    assert child.Valid() && child.repr <= n.repr - {n};
    QuietPart(scene, s, path, n.repr - {n}, path, child.repr);
    DeactQuiet(scene, child, path, s, t);
    var t' := Deact(child, path, s, t);
    SwitchedWithin(child, s);
    assert !InHierarchyAfter(s, t', n);
    forall j | k + 1 <= j < |n.children|
      ensures Untouched(scene, s, t', n.children[j].repr)
    {
      assert child.repr !! n.children[j].repr;
    }
    DeactFromQuiet(scene, n, k + 1, path, s, t');
  }

  // The walk when a callback interferes: an onDisable switches back on the node whose
  // walk is in progress, and that walk stops.

  /** The component loop stops early exactly when n is back on in hierarchy. */
  lemma {:induction false} DisableFromStops(n: Node, slots: seq<Slot>, i: nat, path: set<Node>, s: Shot, t: Trail)
    requires !InHierarchyAfter(s, t, n)
    ensures var r := DisableFrom(n, slots, i, path, s, t); r.aborted == InHierarchyAfter(s, r.trail, n)
    decreases |slots| - i
  {
    if i < |slots| {
      if slots[i].Comp? && EnabledOf(s, slots[i].c) {
        var t' := Disabled(s, path, slots[i].c, t);
        if !InHierarchyAfter(s, t', n) {
          DisableFromStops(n, slots, i + 1, path, s, t');
        }
      } else {
        DisableFromStops(n, slots, i + 1, path, s, t);
      }
    }
  }

  /** The child loop stops early exactly when n is back on in hierarchy. */
  lemma {:induction false} DeactFromStops(n: Node, k: nat, path: set<Node>, s: Shot, t: Trail)
    requires n.Valid() && k <= |n.children| && !InHierarchyAfter(s, t, n)
    ensures var r := DeactFrom(n, k, path, s, t); r.aborted == InHierarchyAfter(s, r.trail, n)
    decreases |n.children| - k
  {
    if k < |n.children| {
      var child := n.children[k];
      if InHierarchyAfter(s, t, child) {
        var t' := Deact(child, path, s, t);
        if !InHierarchyAfter(s, t', n) {
          DeactFromStops(n, k + 1, path, s, t');
        }
      } else {
        DeactFromStops(n, k + 1, path, s, t);
      }
    }
  }

  /** The component loop when the enabled component at slot j is the first from slot i on
      that can switch back on a node under deactivation, and its onDisable switches n
      back on: the loop disables the enabled components from i up to j, stops there with
      n on in hierarchy, switches no other node, and leaves every later slot alone. */
  lemma {:induction false} DisableAborts(scene: Scene, n: Node, slots: seq<Slot>, i: nat, j: nat, path: set<Node>, s: Shot, t: Trail)
    requires scene.OwnedSlots(slots, n) && i <= j < |slots| && n in path && !InHierarchyAfter(s, t, n)
    requires forall l :: i <= l <= j && slots[l].Comp? ==> FlagsAfter(s, t, slots[l].c) == FlagsOf(s, slots[l].c)
    requires forall l :: i <= l < j && slots[l].Comp? ==> Calm(s, path, slots[l].c)
    requires slots[j].Comp? && EnabledOf(s, slots[j].c) && Has(FlagsOf(s, slots[j].c), IsOnEnableCalled)
    requires slots[j].c.reactivatesOnDisable == n
    ensures var r := DisableFrom(n, slots, i, path, s, t);
      r.aborted && InHierarchyAfter(s, r.trail, n) &&
      r.trail.log == t.log + Dispatch(OnDisable, StartedFrom(slots[..j], i, s)) + [Called(OnDisable, slots[j].c)] &&
      (forall m :: m != n ==> InHierarchyAfter(s, r.trail, m) == InHierarchyAfter(s, t, m)) &&
      (forall c :: Comp(c) !in slots[i..j + 1] ==> FlagsAfter(s, r.trail, c) == FlagsAfter(s, t, c))
    decreases j - i, 1
  {
    assert slots[i..j + 1] == [slots[i]] + slots[i + 1..j + 1];
    if i == j {
      DisabledTouches(s, path, slots[i].c, t);
    } else if slots[i].Comp? && EnabledOf(s, slots[i].c) {
      DisableAbortStep(scene, n, slots, i, j, path, s, t);
      assert DisableFrom(n, slots, i, path, s, t) == DisableFrom(n, slots, i + 1, path, s, Disabled(s, path, slots[i].c, t));
    } else {
      assert slots[..j][i..] == [slots[i]] + slots[..j][i + 1..];
      DisableAborts(scene, n, slots, i + 1, j, path, s, t);
    }
  }

  /** DisableAborts at a slot before j holding an enabled component. */
  lemma {:induction false} DisableAbortStep(scene: Scene, n: Node, slots: seq<Slot>, i: nat, j: nat, path: set<Node>, s: Shot, t: Trail)
    requires scene.OwnedSlots(slots, n) && i < j < |slots| && n in path && !InHierarchyAfter(s, t, n)
    requires slots[i].Comp? && EnabledOf(s, slots[i].c)
    requires forall l :: i <= l <= j && slots[l].Comp? ==> FlagsAfter(s, t, slots[l].c) == FlagsOf(s, slots[l].c)
    requires forall l :: i <= l < j && slots[l].Comp? ==> Calm(s, path, slots[l].c)
    requires slots[j].Comp? && EnabledOf(s, slots[j].c) && Has(FlagsOf(s, slots[j].c), IsOnEnableCalled)
    requires slots[j].c.reactivatesOnDisable == n
    ensures !InHierarchyAfter(s, Disabled(s, path, slots[i].c, t), n)
    ensures var r := DisableFrom(n, slots, i + 1, path, s, Disabled(s, path, slots[i].c, t));
      r.aborted && InHierarchyAfter(s, r.trail, n) &&
      r.trail.log == t.log + Dispatch(OnDisable, StartedFrom(slots[..j], i, s)) + [Called(OnDisable, slots[j].c)] &&
      (forall m :: m != n ==> InHierarchyAfter(s, r.trail, m) == InHierarchyAfter(s, t, m)) &&
      (forall c :: Comp(c) !in slots[i..j + 1] ==> FlagsAfter(s, r.trail, c) == FlagsAfter(s, t, c))
    decreases j - i, 0
  {
    var c := slots[i].c;
    var t' := Disabled(s, path, c, t);
    DisabledCalm(scene, n, slots, i, j, path, s, t);
    DisableAborts(scene, n, slots, i + 1, j, path, s, t');
    var r := DisableFrom(n, slots, i + 1, path, s, t');
    StartedStep(slots, i, j, s);
    DisabledLog(s, path, c, t);
    AbortLogStep(t.log, t'.log, r.trail.log, if Has(FlagsOf(s, c), IsOnEnableCalled) then [c] else [],
      StartedFrom(slots[..j], i + 1, s), StartedFrom(slots[..j], i, s), Called(OnDisable, slots[j].c));
    forall d | Comp(d) !in slots[i..j + 1]
      ensures FlagsAfter(s, r.trail, d) == FlagsAfter(s, t, d)
    {
      OutsideTail(slots, i, j, d);
    }
  }

  /** A component held by no slot from i to j is held by none from i + 1 to j either, and is
      not the one at slot i. */
  lemma OutsideTail(slots: seq<Slot>, i: nat, j: nat, d: Component)
    requires i < j < |slots| && Comp(d) !in slots[i..j + 1]
    ensures slots[i] != Comp(d) && Comp(d) !in slots[i + 1..j + 1]
  {
    assert slots[i..j + 1] == [slots[i]] + slots[i + 1..j + 1];
  }

  /** The log of an aborted pass through one more started component: its onDisable call
      joins those of the components after it. */
  lemma AbortLogStep(base: seq<Event>, mid: seq<Event>, last: seq<Event>,
                     started: seq<Component>, rest: seq<Component>, all: seq<Component>, x: Event)
    requires mid == base + Dispatch(OnDisable, started)
    requires last == mid + Dispatch(OnDisable, rest) + [x]
    requires all == started + rest
    ensures last == base + Dispatch(OnDisable, all) + [x]
  {
    DispatchAppend(OnDisable, started, rest);
  }

  /** Disabling c logs its onDisable call exactly when its onEnable had been called. */
  lemma DisabledLog(s: Shot, path: set<Node>, c: Component, t: Trail)
    ensures Disabled(s, path, c, t).log ==
      t.log + Dispatch(OnDisable, if Has(FlagsAfter(s, t, c), IsOnEnableCalled) then [c] else [])
  {
    assert Dispatch(OnDisable, [c]) == [Called(OnDisable, c)];
  }

  /** The started components from slot i before j: the one at slot i, when it is, then
      those after it. */
  lemma StartedStep(slots: seq<Slot>, i: nat, j: nat, s: Shot)
    requires i < j <= |slots| && slots[i].Comp? && EnabledOf(s, slots[i].c)
    ensures StartedFrom(slots[..j], i, s) ==
      (if Has(FlagsOf(s, slots[i].c), IsOnEnableCalled) then [slots[i].c] else []) + StartedFrom(slots[..j], i + 1, s)
  {
    assert slots[..j][i] == slots[i];
  }

  /** Disabling the calm component at slot i before j leaves n off in hierarchy, switches
      no node, and touches the flags of no other component of the array. */
  lemma DisabledCalm(scene: Scene, n: Node, slots: seq<Slot>, i: nat, j: nat, path: set<Node>, s: Shot, t: Trail)
    requires scene.OwnedSlots(slots, n) && i < j < |slots| && n in path && !InHierarchyAfter(s, t, n)
    requires slots[i].Comp? && Calm(s, path, slots[i].c)
    requires forall l :: i <= l <= j && slots[l].Comp? ==> FlagsAfter(s, t, slots[l].c) == FlagsOf(s, slots[l].c)
    ensures var t' := Disabled(s, path, slots[i].c, t);
      !InHierarchyAfter(s, t', n) &&
      (forall m :: InHierarchyAfter(s, t', m) == InHierarchyAfter(s, t, m)) &&
      (forall d :: d != slots[i].c ==> FlagsAfter(s, t', d) == FlagsAfter(s, t, d)) &&
      (forall l :: i < l <= j && slots[l].Comp? ==> FlagsAfter(s, t', slots[l].c) == FlagsOf(s, slots[l].c)) &&
      Comp(slots[i].c) !in slots[i + 1..]
  {
    DisabledTouches(s, path, slots[i].c, t);
    OwnedLater(scene, slots, n, i);
  }

  /** `_deactivateNodeRecursively(n)` when the onDisable of the enabled component at slot j
      of n is the first one that can switch back on a node under deactivation, and it
      switches n back on: the walk ends with n on in hierarchy, having logged only the
      onDisable calls of n's started components up to slot j, so no post-activation hook;
      it switches no other node, so no child of n is walked; and the flags of every
      component after slot j are left as they were. */
  lemma DeactAborts(scene: Scene, n: Node, j: nat, path: set<Node>, s: Shot, t: Trail)
    requires n.Valid() && scene.OwnedSlots(SlotsOf(s, n), n) && j < |SlotsOf(s, n)|
    requires var slots := SlotsOf(s, n);
      (forall l :: 0 <= l <= j && slots[l].Comp? ==> FlagsAfter(s, t, slots[l].c) == FlagsOf(s, slots[l].c)) &&
      (forall l :: 0 <= l < j && slots[l].Comp? ==> Calm(s, path + {n}, slots[l].c)) &&
      slots[j].Comp? && EnabledOf(s, slots[j].c) && Has(FlagsOf(s, slots[j].c), IsOnEnableCalled) &&
      slots[j].c.reactivatesOnDisable == n
    ensures var r := Deact(n, path, s, t); var slots := SlotsOf(s, n);
      InHierarchyAfter(s, r, n) &&
      r.log == t.log + Dispatch(OnDisable, StartedFrom(slots[..j], 0, s)) + [Called(OnDisable, slots[j].c)] &&
      PostActivated(n, false) !in r.log[|t.log|..] &&
      (forall m :: m != n ==> InHierarchyAfter(s, r, m) == InHierarchyAfter(s, t, m)) &&
      (forall l :: j < l < |slots| && slots[l].Comp? ==> FlagsAfter(s, r, slots[l].c) == FlagsAfter(s, t, slots[l].c))
  {
    var slots := SlotsOf(s, n);
    var entered := t.(inHierarchy := t.inHierarchy[n := false]);
    DisableAborts(scene, n, slots, 0, j, path + {n}, s, entered);
    var started := StartedFrom(slots[..j], 0, s);
    AbortLogHasNoPost(n, started, slots[j].c);
    LaterOutside(scene, slots, n, j);
    assert slots[0..j + 1] == slots[..j + 1];
  }

  /** The events of an aborted component loop hold no post-activation hook. */
  lemma AbortLogHasNoPost(n: Node, started: seq<Component>, c: Component)
    ensures PostActivated(n, false) !in Dispatch(OnDisable, started) + [Called(OnDisable, c)]
  {
    DispatchCalls(OnDisable, started);
  }

  /** No component after slot j of an owned array appears at or before slot j. */
  lemma LaterOutside(scene: Scene, slots: seq<Slot>, n: Node, j: nat)
    requires scene.OwnedSlots(slots, n) && j < |slots|
    ensures forall l :: j < l < |slots| && slots[l].Comp? ==> Comp(slots[l].c) !in slots[..j + 1]
  {
    forall l | j < l < |slots| && slots[l].Comp?
      ensures Comp(slots[l].c) !in slots[..j + 1]
    {
      scene.OwnedSlotsAt(slots, n, l);
      assert slots[..j + 1] <= slots[..l];
    }
  }
}
