/** What one recursive activation walk does, as functions of the scene state it starts
    from: the nodes it reaches, the components it visits in order, the callbacks each
    invoker is given and the events it reports. The activator's walk is proved against
    these. */
module ActivationWalk {
  import opened ObjFlags
  import opened SceneGraph

  /** The part of the scene state the activation walk reads or changes, as it stands when
      the walk starts: each node's own switch, whether it is active in hierarchy, its flags
      and its component array, and each component's enabled switch and flags. */
  datatype Shot = Shot(
    active: map<Node, bool>, inHierarchy: map<Node, bool>, nodeFlags: map<Node, Flags>,
    slots: map<Node, seq<Slot>>, enabled: map<Component, bool>, flags: map<Component, Flags>)

  function ActiveOf(s: Shot, m: Node): bool {
    if m in s.active then s.active[m] else false
  }

  function InHierarchyOf(s: Shot, m: Node): bool {
    if m in s.inHierarchy then s.inHierarchy[m] else false
  }

  function NodeFlagsOf(s: Shot, m: Node): Flags {
    if m in s.nodeFlags then s.nodeFlags[m] else 0
  }

  function SlotsOf(s: Shot, m: Node): seq<Slot> {
    if m in s.slots then s.slots[m] else []
  }

  function EnabledOf(s: Shot, c: Component): bool {
    if c in s.enabled then s.enabled[c] else false
  }

  function FlagsOf(s: Shot, c: Component): Flags {
    if c in s.flags then s.flags[c] else 0
  }

  /** A node whose deactivation is in progress refuses to be activated. */
  predicate Refused(s: Shot, n: Node) {
    Has(NodeFlagsOf(s, n), Deactivating)
  }

  /** The nodes the walk from n switches on: n itself unless it refuses, and below it
      every child whose own `active` switch is on, recursively. */
  ghost function Reached(n: Node, s: Shot): set<Node>
    requires n.Valid()
    decreases n.height, 1
  {
    if Refused(s, n) then {} else {n} + ReachedBelow(n, |n.children|, s)
  }

  /** The nodes reached below the first k children of n. */
  ghost function ReachedBelow(n: Node, k: nat, s: Shot): set<Node>
    requires n.Valid() && k <= |n.children|
    decreases n.height, 0, k
  {
    if k == 0 then {}
    else
      var child := n.children[k - 1];
      ReachedBelow(n, k - 1, s) + (if ActiveOf(s, child) then Reached(child, s) else {})
  }

  /** The components the walk from n hands to `activateComp`, in call order: the valid
      components present in each reached node's array on arrival, node before children. */
  ghost function Visit(n: Node, s: Shot): seq<Component>
    requires n.Valid()
    decreases n.height, 1
  {
    if Refused(s, n) then [] else ValidComps(SlotsOf(s, n)) + VisitBelow(n, |n.children|, s)
  }

  ghost function VisitBelow(n: Node, k: nat, s: Shot): seq<Component>
    requires n.Valid() && k <= |n.children|
    decreases n.height, 0, k
  {
    if k == 0 then []
    else
      var child := n.children[k - 1];
      VisitBelow(n, k - 1, s) + (if ActiveOf(s, child) then Visit(child, s) else [])
  }

  /** The corruption reports for a slot array: one per slot that does not hold a
      component, carrying the loop index it is found at, which is the number of valid
      components before it since every earlier bad slot has been spliced out. */
  function CorruptionLog(n: Node, slots: seq<Slot>): seq<Event> {
    if slots == [] then []
    else
      var init, last := slots[..|slots| - 1], slots[|slots| - 1];
      CorruptionLog(n, init) + (if last.Comp? then [] else [CorruptionReported(n, |ValidComps(init)|)])
  }

  /** The number of components among the first k slots: the loop index at which the
      component loop reaches slot k. */
  function ValidBefore(slots: seq<Slot>, k: nat): nat
    requires k <= |slots|
  {
    if k == 0 then 0 else ValidBefore(slots, k - 1) + (if slots[k - 1].Comp? then 1 else 0)
  }

  /** The corruption reports of the first k slots, as the component loop makes them. */
  function CorruptionLogBefore(n: Node, slots: seq<Slot>, k: nat): seq<Event>
    requires k <= |slots|
  {
    if k == 0 then []
    else
      CorruptionLogBefore(n, slots, k - 1) +
      (if slots[k - 1].Comp? then [] else [CorruptionReported(n, ValidBefore(slots, k - 1))])
  }

  /** What one more step of the component loop adds after the events already logged. */
  lemma CorruptionLogStep(logged: seq<Event>, n: Node, slots: seq<Slot>, k: nat)
    requires k < |slots|
    ensures logged + CorruptionLogBefore(n, slots, k + 1) ==
      (logged + CorruptionLogBefore(n, slots, k)) +
      (if slots[k].Comp? then [] else [CorruptionReported(n, ValidBefore(slots, k))])
  {
  }

  /** The step-by-step count agrees with the slot-array definition. */
  lemma {:induction false} ValidBeforeIs(slots: seq<Slot>, k: nat)
    requires k <= |slots|
    ensures ValidBefore(slots, k) == |ValidComps(slots[..k])|
  {
    if k > 0 {
      ValidBeforeIs(slots, k - 1);
      assert slots[..k][..k - 1] == slots[..k - 1];
    }
  }

  /** The step-by-step reports agree with the slot-array definition. */
  lemma {:induction false} CorruptionLogBeforeIs(n: Node, slots: seq<Slot>, k: nat)
    requires k <= |slots|
    ensures CorruptionLogBefore(n, slots, k) == CorruptionLog(n, slots[..k])
  {
    if k > 0 {
      CorruptionLogBeforeIs(n, slots, k - 1);
      ValidBeforeIs(slots, k - 1);
      assert slots[..k][..k - 1] == slots[..k - 1];
    }
  }

  /** The first k + 1 slots are the first k and slot k. */
  lemma PrefixStep(slots: seq<Slot>, k: nat)
    requires k < |slots|
    ensures slots[..k + 1] == slots[..k] + [slots[k]]
  {
  }

  /** The component array once the component loop has handled the first k slots of the
      array it started from: each slot that does not hold a component has been spliced out
      at the loop index it was found at. */
  function Pending(slots: seq<Slot>, k: nat): seq<Slot>
    requires k <= |slots|
  {
    if k == 0 then slots
    else if slots[k - 1].Comp? then Pending(slots, k - 1)
    else RemoveAt(Pending(slots, k - 1), ValidBefore(slots, k - 1))
  }

  /** After the slots of pre the array is pre repaired followed by the untouched rest. */
  lemma {:induction false} PendingClosed(pre: seq<Slot>, rest: seq<Slot>)
    ensures Pending(pre + rest, |pre|) == Repaired(pre) + rest
    decreases |pre|
  {
    if pre != [] {
      var init, last := pre[..|pre| - 1], pre[|pre| - 1];
      var slots := pre + rest;
      assert slots == init + ([last] + rest);
      assert slots[..|init|] == init;
      assert pre == init + [last];
      ValidBeforeIs(slots, |init|);
      PendingClosed(init, [last] + rest);
      RepairedKeeps(init);
      assert Repaired(pre) == Repaired(init) + (if last.Comp? then [last] else []);
      if last.Comp? {
        assert Pending(slots, |pre|) == Repaired(init) + ([last] + rest);
        AppendAssoc(Repaired(init), [last], rest);
      } else {
        SpliceOut(Repaired(init), last, rest);
        assert Pending(slots, |pre|) == RemoveAt(Repaired(init) + ([last] + rest), |Repaired(init)|);
      }
    }
  }

  /** Concatenation is associative. */
  lemma AppendAssoc<T>(a: seq<T>, b: seq<T>, c: seq<T>)
    ensures a + b + c == a + (b + c)
  {
  }

  /** Splicing out the entry that follows r. */
  lemma {:induction false} SpliceOut(r: seq<Slot>, x: Slot, rest: seq<Slot>)
    ensures RemoveAt(r + ([x] + rest), |r|) == r + rest
    decreases |rest|
  {
    var s := r + ([x] + rest);
    if rest == [] {
      assert s[..|r|] == r;
    } else {
      var init, last := rest[..|rest| - 1], rest[|rest| - 1];
      assert s[..|s| - 1] == r + ([x] + init);
      SpliceOut(r, x, init);
      assert r + rest == (r + init) + [last];
    }
  }

  /** The loop index reaches slot k at position ValidBefore(slots, k); a slot that does
      not hold a component is the first occurrence of its value there. */
  lemma PendingStep(slots: seq<Slot>, k: nat)
    requires k < |slots|
    ensures var i := ValidBefore(slots, k);
      i < |Pending(slots, k)| && Pending(slots, k)[i] == slots[k] &&
      (!slots[k].Comp? ==> IndexOf(Pending(slots, k), slots[k]) == i) &&
      Pending(slots, k + 1) == if slots[k].Comp? then Pending(slots, k) else RemoveAt(Pending(slots, k), i)
  {
    var i := ValidBefore(slots, k);
    ValidBeforeIs(slots, k);
    var done := Repaired(slots[..k]);
    assert slots == slots[..k] + slots[k..];
    PendingClosed(slots[..k], slots[k..]);
    RepairedKeeps(slots[..k]);
    assert slots[k..] == [slots[k]] + slots[k + 1..];
    var p := Pending(slots, k);
    assert p[i] == slots[k];
    if !slots[k].Comp? {
      assert p[..i] == done;
      var at := IndexOf(p, slots[k]);
      assert slots[k] !in p[..i];
      assert 0 <= at <= i;
    }
  }

  lemma PendingEnds(slots: seq<Slot>)
    ensures Pending(slots, |slots|) == Repaired(slots)
  {
    PendingClosed(slots, []);
    assert slots + [] == slots;
  }

  /** The events the walk from n reports, in order. */
  ghost function WalkLog(n: Node, s: Shot): seq<Event>
    requires n.Valid()
    decreases n.height, 1
  {
    if Refused(s, n) then [ReactivationRefused(n)]
    else CorruptionLog(n, SlotsOf(s, n)) + WalkLogBelow(n, |n.children|, s) + [PostActivated(n, true)]
  }

  ghost function WalkLogBelow(n: Node, k: nat, s: Shot): seq<Event>
    requires n.Valid() && k <= |n.children|
    decreases n.height, 0, k
  {
    if k == 0 then []
    else
      var child := n.children[k - 1];
      WalkLogBelow(n, k - 1, s) + (if ActiveOf(s, child) then WalkLog(child, s) else [])
  }

  /** The walk itself calls no lifecycle callback: it only reports, and every callback
      it schedules goes to the invokers. */
  lemma {:induction false} WalkLogCallsNothing(n: Node, s: Shot)
    requires n.Valid()
    ensures forall e :: e in WalkLog(n, s) ==> !e.Called?
    decreases n.height, 1
  {
    if !Refused(s, n) {
      CorruptionLogCallsNothing(n, SlotsOf(s, n));
      WalkLogBelowCallsNothing(n, |n.children|, s);
    }
  }

  lemma {:induction false} WalkLogBelowCallsNothing(n: Node, k: nat, s: Shot)
    requires n.Valid() && k <= |n.children|
    ensures forall e :: e in WalkLogBelow(n, k, s) ==> !e.Called?
    decreases n.height, 0, k
  {
    if k > 0 {
      WalkLogBelowCallsNothing(n, k - 1, s);
      if ActiveOf(s, n.children[k - 1]) {
        WalkLogCallsNothing(n.children[k - 1], s);
      }
    }
  }

  lemma {:induction false} CorruptionLogCallsNothing(n: Node, slots: seq<Slot>)
    ensures forall e :: e in CorruptionLog(n, slots) ==> e.CorruptionReported? && e.node == n
  {
    if slots != [] {
      CorruptionLogCallsNothing(n, slots[..|slots| - 1]);
    }
  }

  /** The flags `activateComp` leaves on a component: one not yet started gets both
      IsOnLoadStarted and IsOnLoadCalled; one already started is left as it is. */
  function Loaded(flags: Flags): (r: Flags)
    ensures Has(r, IsOnLoadStarted)
    ensures !Has(flags, IsOnLoadStarted) ==> Has(r, IsOnLoadCalled)
    ensures Has(flags, IsOnLoadCalled) ==> Has(r, IsOnLoadCalled)
    ensures Has(r, IsOnEnableCalled) == Has(flags, IsOnEnableCalled)
    ensures Has(r, Deactivating) == Has(flags, Deactivating)
  {
    if Has(flags, IsOnLoadStarted) then flags
    else
      Independent(flags, IsOnLoadStarted, IsOnEnableCalled);
      Independent(flags, IsOnLoadStarted, IsOnLoadCalled);
      Independent(flags, IsOnLoadStarted, Deactivating);
      Independent(With(flags, IsOnLoadStarted), IsOnLoadCalled, IsOnEnableCalled);
      Independent(With(flags, IsOnLoadStarted), IsOnLoadCalled, IsOnLoadStarted);
      Independent(With(flags, IsOnLoadStarted), IsOnLoadCalled, Deactivating);
      With(With(flags, IsOnLoadStarted), IsOnLoadCalled)
  }

  /** Whether `activateComp`, given the invoker for hook, adds c to it: preload and onLoad
      are queued on first activation when the component has the hook; onEnable is queued
      when the component is enabled and not yet marked as enabled. */
  predicate Wants(hook: Hook, c: Component, s: Shot) {
    match hook
    case Preload => c.hasPreload && !Has(FlagsOf(s, c), IsOnLoadStarted)
    case OnLoad => c.hasOnLoad && !Has(FlagsOf(s, c), IsOnLoadStarted)
    case OnEnable => EnabledOf(s, c) && !Has(FlagsOf(s, c), IsOnEnableCalled)
    case _ => false
  }

  /** The entries of cs that the invoker for hook receives, in order. */
  function Enqueued(hook: Hook, cs: seq<Component>, s: Shot): (r: seq<Component>)
    ensures |r| <= |cs|
  {
    if cs == [] then []
    else Enqueued(hook, cs[..|cs| - 1], s) + (if Wants(hook, cs[|cs| - 1], s) then [cs[|cs| - 1]] else [])
  }

  /** An entry is enqueued exactly when it is in cs and wanted. */
  lemma {:induction false} EnqueuedMembers(hook: Hook, cs: seq<Component>, s: Shot)
    ensures forall c :: c in Enqueued(hook, cs, s) <==> c in cs && Wants(hook, c, s)
  {
    if cs != [] {
      var init, last := cs[..|cs| - 1], cs[|cs| - 1];
      EnqueuedMembers(hook, init, s);
      assert cs == init + [last];
    }
  }

  /** The wanted components among the first k slots, in order: what the invoker for hook
      receives from the first k steps of the component loop. */
  function ChosenBefore(slots: seq<Slot>, hook: Hook, s: Shot, k: nat): seq<Component>
    requires k <= |slots|
  {
    if k == 0 then []
    else
      ChosenBefore(slots, hook, s, k - 1) +
      (if slots[k - 1].Comp? && Wants(hook, slots[k - 1].c, s) then [slots[k - 1].c] else [])
  }

  /** What one more step of the component loop adds after the entries already queued. */
  lemma ChosenStep(queued: seq<Component>, slots: seq<Slot>, hook: Hook, s: Shot, k: nat)
    requires k < |slots|
    ensures queued + ChosenBefore(slots, hook, s, k + 1) ==
      (queued + ChosenBefore(slots, hook, s, k)) +
      (if slots[k].Comp? && Wants(hook, slots[k].c, s) then [slots[k].c] else [])
  {
  }

  /** The first k steps enqueue the wanted valid components of the first k slots. */
  lemma {:induction false} ChosenBeforeIs(hook: Hook, slots: seq<Slot>, s: Shot, k: nat)
    requires k <= |slots|
    ensures ChosenBefore(slots, hook, s, k) == Enqueued(hook, ValidComps(slots[..k]), s)
  {
    if k > 0 {
      ChosenBeforeIs(hook, slots, s, k - 1);
      var pre := slots[..k];
      var valid := ValidComps(slots[..k - 1]);
      assert pre[..k - 1] == slots[..k - 1];
      assert ValidComps(pre) == valid + (if pre[k - 1].Comp? then [pre[k - 1].c] else []);
      if slots[k - 1].Comp? {
        EnqueuedSnoc(hook, valid, slots[k - 1].c, s);
      } else {
        assert ValidComps(pre) == valid;
      }
    }
  }

  /** Enqueued of one more entry. */
  lemma EnqueuedSnoc(hook: Hook, cs: seq<Component>, c: Component, s: Shot)
    ensures Enqueued(hook, cs + [c], s) == Enqueued(hook, cs, s) + (if Wants(hook, c, s) then [c] else [])
  {
    assert (cs + [c])[..|cs|] == cs;
  }

  /** Filtering distributes over concatenation. */
  lemma {:induction false} EnqueuedAppend(hook: Hook, a: seq<Component>, b: seq<Component>, s: Shot)
    ensures Enqueued(hook, a + b, s) == Enqueued(hook, a, s) + Enqueued(hook, b, s)
    decreases |b|
  {
    if b == [] {
      assert a + b == a;
    } else {
      assert (a + b)[..|a + b| - 1] == a + b[..|b| - 1];
      EnqueuedAppend(hook, a, b[..|b| - 1], s);
    }
  }

  /** The walk only reaches nodes of the subtree. */
  lemma {:induction false} ReachedWithin(n: Node, s: Shot)
    requires n.Valid()
    ensures Reached(n, s) <= n.repr
    decreases n.height, 1
  {
    if !Refused(s, n) {
      ReachedBelowWithin(n, |n.children|, s);
    }
  }

  lemma {:induction false} ReachedBelowWithin(n: Node, k: nat, s: Shot)
    requires n.Valid() && k <= |n.children|
    ensures ReachedBelow(n, k, s) <= n.repr - {n}
    ensures forall j :: k <= j < |n.children| ==> ReachedBelow(n, k, s) !! n.children[j].repr
    decreases n.height, 0, k
  {
    if k > 0 {
      ReachedBelowWithin(n, k - 1, s);
      ReachedWithin(n.children[k - 1], s);
    }
  }

  /** Below n the walk reaches only nodes whose own switch is on and that do not refuse. */
  lemma {:induction false} ReachedAreActive(n: Node, s: Shot)
    requires n.Valid()
    ensures forall m :: m in Reached(n, s) ==> !Refused(s, m) && (m != n ==> ActiveOf(s, m))
    decreases n.height, 1
  {
    if !Refused(s, n) {
      ReachedBelowAreActive(n, |n.children|, s);
    }
  }

  lemma {:induction false} ReachedBelowAreActive(n: Node, k: nat, s: Shot)
    requires n.Valid() && k <= |n.children|
    ensures forall m :: m in ReachedBelow(n, k, s) ==> ActiveOf(s, m) && !Refused(s, m)
    decreases n.height, 0, k
  {
    if k > 0 {
      ReachedBelowAreActive(n, k - 1, s);
      var child := n.children[k - 1];
      if ActiveOf(s, child) {
        ReachedAreActive(child, s);
      }
    }
  }

  /** The slot arrays of the nodes in ns, as recorded, are owned by their nodes. */
  ghost predicate OwnedIn(scene: Scene, s: Shot, ns: set<Node>) {
    forall m :: m in ns ==> scene.OwnedSlots(SlotsOf(s, m), m)
  }

  /** Every visited component is a scene component held by a reached node, and no
      component is visited twice. */
  lemma {:induction false} VisitOwned(scene: Scene, n: Node, s: Shot)
    requires n.Valid() && OwnedIn(scene, s, n.repr)
    ensures forall c :: c in Visit(n, s) ==> c in scene.comps && c.node in Reached(n, s) && Comp(c) in SlotsOf(s, c.node)
    ensures forall i, j :: 0 <= i < j < |Visit(n, s)| ==> Visit(n, s)[i] != Visit(n, s)[j]
    decreases n.height, 1
  {
    if !Refused(s, n) {
      VisitBelowOwned(scene, n, |n.children|, s);
      ValidCompsOwned(scene, SlotsOf(s, n), n);
      ReachedBelowWithin(n, |n.children|, s);
      var mine, below := ValidComps(SlotsOf(s, n)), VisitBelow(n, |n.children|, s);
      forall i, j | 0 <= i < j < |mine + below| ensures (mine + below)[i] != (mine + below)[j] {
        if i < |mine| <= j {
          assert (mine + below)[j] == below[j - |mine|];
          assert below[j - |mine|] in below;
        }
      }
    }
  }

  lemma {:induction false} VisitBelowOwned(scene: Scene, n: Node, k: nat, s: Shot)
    requires n.Valid() && k <= |n.children| && OwnedIn(scene, s, n.repr)
    ensures forall c :: c in VisitBelow(n, k, s) ==>
      c in scene.comps && c.node in ReachedBelow(n, k, s) && Comp(c) in SlotsOf(s, c.node)
    ensures forall i, j :: 0 <= i < j < |VisitBelow(n, k, s)| ==> VisitBelow(n, k, s)[i] != VisitBelow(n, k, s)[j]
    decreases n.height, 0, k
  {
    if k > 0 {
      VisitBelowOwned(scene, n, k - 1, s);
      ReachedBelowWithin(n, k - 1, s);
      var child := n.children[k - 1];
      if ActiveOf(s, child) {
        VisitOwned(scene, child, s);
        ReachedWithin(child, s);
        var before, mine := VisitBelow(n, k - 1, s), Visit(child, s);
        forall i, j | 0 <= i < j < |before + mine| ensures (before + mine)[i] != (before + mine)[j] {
          if i < |before| <= j {
            assert (before + mine)[j] == mine[j - |before|];
            assert mine[j - |before|] in mine;
            assert before[i] in before;
          }
        }
      }
    }
  }

  /** The valid components of an owned slot array are scene components attached to its
      node, held by the array, and pairwise distinct. */
  lemma {:induction false} ValidCompsOwned(scene: Scene, slots: seq<Slot>, n: Node)
    requires scene.OwnedSlots(slots, n)
    ensures forall c :: c in ValidComps(slots) ==> c in scene.comps && c.node == n && Comp(c) in slots
    ensures forall i, j :: 0 <= i < j < |ValidComps(slots)| ==> ValidComps(slots)[i] != ValidComps(slots)[j]
  {
    if slots != [] {
      var init, last := slots[..|slots| - 1], slots[|slots| - 1];
      ValidCompsOwned(scene, init, n);
      assert slots == init + [last];
      if last.Comp? {
        forall i | 0 <= i < |ValidComps(init)| ensures ValidComps(init)[i] != last.c {
          assert ValidComps(init)[i] in ValidComps(init);
        }
      }
    }
  }
}
