/** The parts of the component scheduler the activator relies on, stated as the contracts
    its call sites use: ordered one-shot invokers, the stable removal of entries whose node
    went inactive, and enabling and disabling a component. */
module CompScheduler {
  import opened ObjFlags
  import opened SceneGraph

  /** The entries of q whose node is still active in hierarchy, in their original order. */
  ghost function ActiveOnly(q: seq<Component>): (r: seq<Component>)
    reads NodesOf(q)`activeInHierarchy
    ensures |r| <= |q|
  {
    if q == [] then []
    else
      var init, last := q[..|q| - 1], q[|q| - 1];
      assert NodesOf(init) <= NodesOf(q);
      ActiveOnly(init) + (if last.node.activeInHierarchy then [last] else [])
  }

  /** Filtering keeps exactly the entries whose node is active in hierarchy. */
  lemma {:induction false} ActiveOnlyMembers(q: seq<Component>)
    ensures forall c :: c in ActiveOnly(q) <==> c in q && c.node.activeInHierarchy
  {
    if q != [] {
      var init, last := q[..|q| - 1], q[|q| - 1];
      ActiveOnlyMembers(init);
      assert q == init + [last];
    }
  }

  lemma ActiveOnlySnoc(q: seq<Component>, c: Component)
    ensures ActiveOnly(q + [c]) == ActiveOnly(q) + (if c.node.activeInHierarchy then [c] else [])
  {
    assert (q + [c])[..|q|] == q;
  }

  /** Filtering twice keeps what filtering once keeps. */
  lemma {:induction false} ActiveOnlyIdempotent(q: seq<Component>)
    ensures ActiveOnly(ActiveOnly(q)) == ActiveOnly(q)
  {
    if q != [] {
      var init, last := q[..|q| - 1], q[|q| - 1];
      ActiveOnlyIdempotent(init);
      ActiveOnlyAppend(ActiveOnly(init), if last.node.activeInHierarchy then [last] else []);
    }
  }

  /** Filtering distributes over concatenation. */
  lemma {:induction false} ActiveOnlyAppend(a: seq<Component>, b: seq<Component>)
    ensures ActiveOnly(a + b) == ActiveOnly(a) + ActiveOnly(b)
    decreases |b|
  {
    if b == [] {
      assert a + b == a;
    } else {
      assert (a + b)[..|a + b| - 1] == a + b[..|b| - 1];
      ActiveOnlyAppend(a, b[..|b| - 1]);
    }
  }

  /** `stableRemoveInactive`: removes in place, keeping the order of the rest, every entry
      whose node is no longer active in hierarchy. */
  method StableRemoveInactive(entries: seq<Component>) returns (kept: seq<Component>)
    ensures kept == ActiveOnly(entries)
  {
    kept := entries;
    var next := 0;
    ghost var seen := 0;
    while next < |kept|
      invariant 0 <= next <= |kept| && 0 <= seen <= |entries|
      invariant kept[..next] == ActiveOnly(entries[..seen])
      invariant kept[next..] == entries[seen..]
      decreases |kept| - next
    {
      ghost var done := ActiveOnly(entries[..seen]);
      ghost var c := entries[seen];
      assert kept[next] == c by {
        assert kept[next..][0] == entries[seen..][0];
      }
      assert entries[..seen + 1] == entries[..seen] + [c];
      ActiveOnlySnoc(entries[..seen], c);
      if kept[next].node.activeInHierarchy {
        next := next + 1;
        assert kept[..next] == done + [c];
      } else {
        kept := kept[..next] + kept[next + 1..];
        assert kept[..next] == done;
      }
      seen := seen + 1;
      assert kept[next..] == entries[seen..];
    }
    assert entries[..seen] == entries;
  }

  /** Which per-component function a one-shot invoker was built with. */
  datatype Stage = LoadStage | EnableStage

  /** Where the onLoad dispatch loop breaks: it stops right after the first entry whose
      node is inactive once its onLoad has run. Until then no onLoad has switched a node
      off, so that is the first entry whose node is already inactive or whose onLoad
      switches it off. */
  ghost function LoadRun(q: seq<Component>): (k: nat)
    reads NodesOf(q)`activeInHierarchy
    ensures k <= |q|
    ensures q != [] ==> k > 0
  {
    if q == [] then 0
    else if !q[0].node.activeInHierarchy || q[0].deactivatesOnLoad then 1
    else
      assert forall c :: c in q[1..] ==> c in q;
      1 + LoadRun(q[1..])
  }

  /** Whether the last of the first k entries is one whose onLoad switches node off. */
  predicate LastLoadedDeactivates(q: seq<Component>, k: nat, node: Node)
    requires k <= |q|
  {
    k > 0 && q[k - 1].node == node && q[k - 1].deactivatesOnLoad
  }

  /** Where the onLoad dispatch loop breaks when every entry's node is active in hierarchy
      to begin with: right after the first entry whose onLoad switches its node off, or at
      the end. */
  function LoadStop(q: seq<Component>): (k: nat)
    ensures k <= |q| && (q != [] ==> k > 0)
    ensures forall j :: 0 <= j < k - 1 ==> !q[j].deactivatesOnLoad
    ensures 0 < k < |q| ==> q[k - 1].deactivatesOnLoad
  {
    if q == [] then 0
    else if q[0].deactivatesOnLoad then 1
    else 1 + LoadStop(q[1..])
  }

  /** With every entry's node active in hierarchy, the loop breaks where LoadStop says. */
  lemma {:induction false} LoadRunAllActive(q: seq<Component>)
    requires forall c :: c in q ==> c.node.activeInHierarchy
    ensures LoadRun(q) == LoadStop(q)
  {
    if q != [] && !q[0].deactivatesOnLoad {
      assert forall c :: c in q[1..] ==> c in q;
      LoadRunAllActive(q[1..]);
    }
  }

  /** The dispatch loop of the onLoad invoker: `c.onLoad(); if (!c.node._activeInHierarchy) break;`
      off says whether the last onLoad called switched its node off; if it did, every node
      the deactivation walk from that node reached is off. */
  method InvokeOnLoad(scene: Scene, entries: seq<Component>) returns (off: bool)
    requires scene.Shaped() && NodesOf(entries) <= scene.nodes
    modifies scene`log, scene.nodes`active, scene.nodes`activeInHierarchy
    ensures scene.log == old(scene.log) + Dispatch(OnLoad, entries[..old(LoadRun(entries))])
    ensures var k := old(LoadRun(entries));
      off == (k > 0 && old(entries[k - 1].node.activeInHierarchy) && entries[k - 1].deactivatesOnLoad) &&
      (forall m :: m in scene.nodes ==> m.active == (old(m.active) && !LastLoadedDeactivates(entries, k, m))) &&
      (forall m :: m in scene.nodes ==>
        m.activeInHierarchy == (old(m.activeInHierarchy) && !(off && m in old(ActiveBelow(entries[k - 1].node)))))
  {
    ghost var k := LoadRun(entries);
    off := false;
    var i := 0;
    while i < |entries|
      invariant 0 <= i <= k && k == i + old(LoadRun(entries[i..]))
      invariant i > 0 ==> !entries[i - 1].deactivatesOnLoad
      invariant !off
      invariant scene.log == old(scene.log) + Dispatch(OnLoad, entries[..i])
      invariant forall m :: m in scene.nodes ==> m.active == old(m.active)
      invariant forall m :: m in scene.nodes ==> m.activeInHierarchy == old(m.activeInHierarchy)
    {
      var c := entries[i];
      assert c in entries;
      assert ActiveBelow(c.node) == old(ActiveBelow(c.node));
      off := LoadOne(scene, c);
      DispatchStep(old(scene.log), OnLoad, entries, i);
      assert entries[i..][0] == c;
      if !c.node.activeInHierarchy {
        // deactivated during onLoad
        assert k == i + 1 && entries[..k] == entries[..i + 1];
        return;
      }
      assert entries[i..][1..] == entries[i + 1..];
      i := i + 1;
    }
  }

  /** One pass of that loop, seen from the whole scene: the onLoad call, the node's own
      switch cleared when the onLoad switches it off, and the walk's nodes off. */
  method LoadOne(scene: Scene, c: Component) returns (off: bool)
    requires scene.Shaped() && c.node in scene.nodes
    modifies scene`log, scene.nodes`active, scene.nodes`activeInHierarchy
    ensures scene.log == old(scene.log) + [Called(OnLoad, c)]
    ensures off == (old(c.node.activeInHierarchy) && c.deactivatesOnLoad)
    ensures c.node.activeInHierarchy == (old(c.node.activeInHierarchy) && !c.deactivatesOnLoad)
    ensures forall m :: m in scene.nodes ==> m.active == (old(m.active) && !(c.deactivatesOnLoad && m == c.node))
    ensures forall m :: m in scene.nodes ==>
      m.activeInHierarchy == (old(m.activeInHierarchy) && !(off && m in old(ActiveBelow(c.node))))
  {
    ActiveBelowWithin(c.node);
    off := scene.CallOnLoad(c);
  }

  /** The scheduler's onEnable dispatch: every entry gets onEnable, and is marked as
      enabled while its node is still active in hierarchy. */
  method InvokeOnEnable(scene: Scene, entries: seq<Component>)
    modifies scene`log, Elements(entries)`objFlags
    ensures scene.log == old(scene.log) + Dispatch(OnEnable, entries)
    ensures forall j :: 0 <= j < |entries| ==>
      entries[j].objFlags ==
        if entries[j].node.activeInHierarchy then With(old(entries[j].objFlags), IsOnEnableCalled)
        else old(entries[j].objFlags)
  {
    ghost var flags := map c | c in Elements(entries) :: c.objFlags;
    ghost var called: set<Component> := {};
    var i := 0;
    while i < |entries|
      invariant 0 <= i <= |entries|
      invariant scene.log == old(scene.log) + Dispatch(OnEnable, entries[..i])
      invariant forall j :: 0 <= j < i ==> entries[j] in called
      invariant forall c :: c in Elements(entries) ==>
        c.objFlags == if c in called && c.node.activeInHierarchy then With(flags[c], IsOnEnableCalled) else flags[c]
    {
      var c := entries[i];
      SetTwice(flags[c], IsOnEnableCalled);
      EnableOne(scene, c);
      called := called + {c};
      DispatchStep(old(scene.log), OnEnable, entries, i);
      i := i + 1;
    }
    assert entries[..i] == entries;
  }

  /** One pass of that dispatch: onEnable, then the mark while the node is still active
      in hierarchy. */
  method EnableOne(scene: Scene, c: Component)
    modifies scene`log, c`objFlags
    ensures scene.log == old(scene.log) + [Called(OnEnable, c)]
    ensures c.objFlags == if c.node.activeInHierarchy then With(old(c.objFlags), IsOnEnableCalled) else old(c.objFlags)
  {
    scene.Call(OnEnable, c);
    if c.node.activeInHierarchy {
      c.objFlags := With(c.objFlags, IsOnEnableCalled);
    }
  }

  /** An ordered one-shot invoker: a queue of components that receive one lifecycle
      callback each when the invoker is flushed. */
  class OneOffInvoker {
    const stage: Stage
    var queue: seq<Component>

    constructor (stage: Stage)
      ensures this.stage == stage && queue == []
    {
      this.stage := stage;
      queue := [];
    }

    /** `add`: appends. */
    method Add(c: Component)
      modifies this`queue
      ensures queue == old(queue) + [c]
    {
      queue := queue + [c];
    }

    /** `cancelInactive`: drops the entries whose node is no longer active in hierarchy. */
    method CancelInactive()
      modifies this`queue
      ensures queue == ActiveOnly(old(queue))
    {
      queue := StableRemoveInactive(queue);
    }

    /** `invoke`: dispatches with the invoker's function, then empties the queue. The
        ghost parameter q names the queue as it was when the call began; off says whether
        an onLoad called switched its node off. */
    method Invoke(scene: Scene, ghost q: seq<Component>) returns (off: bool)
      requires q == queue
      requires stage == LoadStage ==> scene.Shaped() && NodesOf(q) <= scene.nodes
      modifies this`queue, scene`log
      modifies (if stage == LoadStage then scene.nodes else {})`active
      modifies (if stage == LoadStage then scene.nodes else {})`activeInHierarchy
      modifies (if stage == EnableStage then Elements(q) else {})`objFlags
      ensures queue == []
      ensures stage == LoadStage ==>
        scene.log == old(scene.log) + Dispatch(OnLoad, q[..old(LoadRun(q))]) &&
        (var k := old(LoadRun(q));
         off == (k > 0 && old(q[k - 1].node.activeInHierarchy) && q[k - 1].deactivatesOnLoad) &&
         (forall m :: m in scene.nodes ==> m.active == (old(m.active) && !LastLoadedDeactivates(q, k, m))) &&
         (forall m :: m in scene.nodes ==>
           m.activeInHierarchy == (old(m.activeInHierarchy) && !(off && m in old(ActiveBelow(q[k - 1].node))))))
      ensures stage == EnableStage ==>
        scene.log == old(scene.log) + Dispatch(OnEnable, q) && !off &&
        (forall j :: 0 <= j < |q| ==>
          q[j].objFlags ==
            if q[j].node.activeInHierarchy then With(old(q[j].objFlags), IsOnEnableCalled)
            else old(q[j].objFlags))
    {
      if stage == LoadStage {
        off := InvokeOnLoad(scene, queue);
      } else {
        InvokeOnEnable(scene, queue);
        off := false;
      }
      queue := [];
    }
  }

  /** `enableComp(comp, invoker)`: a component not yet enabled is queued on the given
      invoker, or without one receives onEnable at once. */
  method EnableComp(scene: Scene, c: Component, invoker: OneOffInvoker?)
    modifies c`objFlags, scene`log, (if invoker == null then {} else {invoker})`queue
    ensures Has(old(c.objFlags), IsOnEnableCalled) ==>
      c.objFlags == old(c.objFlags) && scene.log == old(scene.log) &&
      (invoker != null ==> invoker.queue == old(invoker.queue))
    ensures !Has(old(c.objFlags), IsOnEnableCalled) && invoker != null ==>
      invoker.queue == old(invoker.queue) + [c] && c.objFlags == old(c.objFlags) && scene.log == old(scene.log)
    ensures !Has(old(c.objFlags), IsOnEnableCalled) && invoker == null ==>
      scene.log == old(scene.log) + [Called(OnEnable, c)] &&
      c.objFlags == if c.node.activeInHierarchy then With(old(c.objFlags), IsOnEnableCalled) else old(c.objFlags)
  {
    if !Has(c.objFlags, IsOnEnableCalled) {
      if invoker != null {
        invoker.Add(c);
      } else {
        scene.Call(OnEnable, c);
        if c.node.activeInHierarchy {
          c.objFlags := With(c.objFlags, IsOnEnableCalled);
        }
      }
    }
  }

  /** `disableComp(comp)`: an enabled component receives onDisable and loses its mark;
      a component that is not enabled is left alone. */
  method DisableComp(scene: Scene, c: Component)
    modifies c`objFlags, scene`log, ReactivationTarget(c)`activeInHierarchy
    ensures c.objFlags == Without(old(c.objFlags), IsOnEnableCalled)
    ensures scene.log == old(scene.log) + (if Has(old(c.objFlags), IsOnEnableCalled) then [Called(OnDisable, c)] else [])
    ensures forall t :: t in ReactivationTarget(c) ==>
      t.activeInHierarchy ==
        (old(t.activeInHierarchy) || (Has(old(c.objFlags), IsOnEnableCalled) && Has(t.objFlags, Deactivating)))
  {
    if Has(c.objFlags, IsOnEnableCalled) {
      scene.CallOnDisable(c);
      c.objFlags := Without(c.objFlags, IsOnEnableCalled);
    }
  }
}
