/** The scene objects the activator walks (nodes and their components) and the engine
    around it: user lifecycle callbacks, node hooks and error reports, whose observable
    effects are recorded in the scene's event log. */
module SceneGraph {
  import opened ObjFlags

  /** One entry of a node's `_components` array: a real component, a truthy value that is
      not a component, or a falsy value such as null. */
  datatype Slot = Comp(c: Component) | Junk(id: nat) | Null

  /** The lifecycle callbacks a component may expose. */
  datatype Hook = Preload | OnLoad | OnEnable | OnDisable | OnDestroy

  /** What code outside the activator observably does when the activator calls it. */
  datatype Event =
    | Called(hook: Hook, comp: Component)
    | PostActivated(node: Node, active: bool)   // node._onPostActivated(active)
    | ReactivationRefused(node: Node)           // error 3816
    | CorruptionReported(node: Node, index: nat) // error 3817
    | HierarchyChanged(node: Node)              // 'active-in-hierarchy-changed' emitted

  /** The components held by a sequence of slots, in order; every other slot is dropped. */
  function ValidComps(slots: seq<Slot>): (cs: seq<Component>)
    ensures |cs| <= |slots|
  {
    if slots == [] then []
    else ValidComps(slots[..|slots| - 1]) + (if slots[|slots| - 1].Comp? then [slots[|slots| - 1].c] else [])
  }

  /** The valid components are exactly the components the slots hold. */
  lemma {:induction false} ValidCompsMembers(slots: seq<Slot>)
    ensures forall c :: c in ValidComps(slots) <==> Comp(c) in slots
  {
    if slots != [] {
      var init, last := slots[..|slots| - 1], slots[|slots| - 1];
      ValidCompsMembers(init);
      assert slots == init + [last];
    }
  }

  /** A slot sequence with every slot that does not hold a component spliced out. */
  function Repaired(slots: seq<Slot>): seq<Slot> {
    if slots == [] then []
    else Repaired(slots[..|slots| - 1]) + (if slots[|slots| - 1].Comp? then [slots[|slots| - 1]] else [])
  }

  /** Repairing keeps exactly the component slots: what is left holds only components,
      the same ones in the same order. */
  lemma {:induction false} RepairedKeeps(slots: seq<Slot>)
    ensures forall i :: 0 <= i < |Repaired(slots)| ==> Repaired(slots)[i].Comp?
    ensures ValidComps(Repaired(slots)) == ValidComps(slots)
    ensures |Repaired(slots)| == |ValidComps(slots)|
  {
    if slots != [] {
      var init, last := Repaired(slots[..|slots| - 1]), slots[|slots| - 1];
      RepairedKeeps(slots[..|slots| - 1]);
      assert slots == slots[..|slots| - 1] + [last];
      if last.Comp? {
        assert Repaired(slots) == init + [last];
        assert (init + [last])[..|init|] == init;
      } else {
        assert Repaired(slots) == init;
      }
    }
  }

  /** The first index of x in s, or -1 when s does not hold x (`Array.prototype.indexOf`). */
  function IndexOf<T(==)>(s: seq<T>, x: T): (i: int)
    ensures -1 <= i < |s|
    ensures i >= 0 ==> s[i] == x && x !in s[..i]
    ensures i < 0 <==> x !in s
  {
    if s == [] then -1
    else
      var init := s[..|s| - 1];
      var j := IndexOf(init, x);
      assert s == init + [s[|s| - 1]];
      if j >= 0 then
        assert s[..j] == init[..j];
        j
      else if s[|s| - 1] == x then |s| - 1
      else -1
  }

  /** s with the entry at index i spliced out (`Array.prototype.splice(i, 1)`); an index
      past the end removes nothing. */
  function RemoveAt<T>(s: seq<T>, i: nat): seq<T> {
    if i >= |s| then s
    else if i == |s| - 1 then s[..i]
    else RemoveAt(s[..|s| - 1], i) + [s[|s| - 1]]
  }

  /** Splicing out index i keeps the entries before i and shifts the later ones down. */
  lemma {:induction false} RemoveAtSplices<T>(s: seq<T>, i: nat)
    requires i < |s|
    ensures RemoveAt(s, i) == s[..i] + s[i + 1..]
  {
    if i < |s| - 1 {
      var init := s[..|s| - 1];
      RemoveAtSplices(init, i);
      assert init[..i] == s[..i];
      assert init[i + 1..] + [s[|s| - 1]] == s[i + 1..];
    }
  }

  /** The union of the footprints of a sequence of nodes. */
  ghost function ReprOf(nodes: seq<Node>): set<Node> {
    if nodes == [] then {} else ReprOf(nodes[..|nodes| - 1]) + nodes[|nodes| - 1].repr
  }

  ghost function MaxHeight(nodes: seq<Node>): (h: nat)
    ensures forall i :: 0 <= i < |nodes| ==> nodes[i].height <= h
  {
    if nodes == [] then 0
    else
      var h := MaxHeight(nodes[..|nodes| - 1]);
      if nodes[|nodes| - 1].height > h then nodes[|nodes| - 1].height else h
  }

  /** A scene node. Its place in the tree is fixed in this model; what the activator
      changes is its hierarchy state, its flags and its component array. */
  class Node {
    const children: seq<Node>
    ghost const repr: set<Node>   // this node and every node below it
    ghost const height: nat       // termination measure of the recursive walks
    var active: bool              // _active: the node's own switch
    var activeInHierarchy: bool   // _activeInHierarchy
    var objFlags: Flags           // _objFlags
    var components: seq<Slot>     // _components

    /** The subtree is a finite tree: children are lower, inside the footprint, below this
        node, and no two children share a node. */
    ghost predicate Valid()
      decreases height
    {
      this in repr &&
      (forall i :: 0 <= i < |children| ==>
        children[i].height < height && children[i] in repr && children[i].repr <= repr &&
        this !in children[i].repr && children[i].Valid()) &&
      (forall i, j :: 0 <= i < j < |children| ==> children[i].repr !! children[j].repr)
    }

    constructor (children: seq<Node>, active: bool, components: seq<Slot>)
      requires forall i :: 0 <= i < |children| ==> children[i].Valid()
      requires forall i, j :: 0 <= i < j < |children| ==> children[i].repr !! children[j].repr
      ensures Valid() && repr == {this} + ReprOf(children)
      ensures this.children == children && this.active == active && this.components == components
      ensures !activeInHierarchy && objFlags == 0
    {
      this.children := children;
      this.repr := {this} + ReprOf(children);
      this.height := MaxHeight(children) + 1;
      this.active := active;
      this.activeInHierarchy := false;
      this.objFlags := 0;
      this.components := components;
      new;
      ReprOfCovers(children);
    }
  }

  lemma {:induction false} ReprOfCovers(nodes: seq<Node>)
    ensures forall i :: 0 <= i < |nodes| ==> nodes[i] in nodes[i].repr ==> nodes[i] in ReprOf(nodes)
    ensures forall i :: 0 <= i < |nodes| ==> nodes[i].repr <= ReprOf(nodes)
  {
    if nodes != [] {
      ReprOfCovers(nodes[..|nodes| - 1]);
      forall i | 0 <= i < |nodes| ensures nodes[i].repr <= ReprOf(nodes) {
        if i < |nodes| - 1 {
          assert nodes[i] == nodes[..|nodes| - 1][i];
        }
      }
    }
  }

  /** The nodes a deactivation walk started at n reaches: n itself and, below it, every
      child active in hierarchy together with what the walk reaches from that child. */
  ghost function ActiveBelow(n: Node): set<Node>
    requires n.Valid()
    reads n.repr`activeInHierarchy
    decreases n.height, 1
  {
    {n} + ActiveBelowFrom(n, 0)
  }

  /** What the walk from n reaches through the children from index k on. */
  ghost function ActiveBelowFrom(n: Node, k: nat): set<Node>
    requires n.Valid() && k <= |n.children|
    reads n.repr`activeInHierarchy
    decreases n.height, 0, |n.children| - k
  {
    if k == |n.children| then {}
    else (if n.children[k].activeInHierarchy then ActiveBelow(n.children[k]) else {}) + ActiveBelowFrom(n, k + 1)
  }

  /** The walk stays inside the subtree. */
  lemma {:induction false} ActiveBelowWithin(n: Node)
    requires n.Valid()
    ensures ActiveBelow(n) <= n.repr
    decreases n.height, 1
  {
    ActiveBelowFromWithin(n, 0);
  }

  /** Through the children from k on, the walk reaches only nodes below those children,
      none below an earlier child, and a node below child i only through child i. */
  lemma {:induction false} ActiveBelowFromWithin(n: Node, k: nat)
    requires n.Valid() && k <= |n.children|
    ensures ActiveBelowFrom(n, k) <= n.repr - {n}
    ensures forall j :: 0 <= j < k ==> ActiveBelowFrom(n, k) !! n.children[j].repr
    ensures forall i :: k <= i <= |n.children| ==> ActiveBelowFrom(n, i) <= ActiveBelowFrom(n, k)
    ensures forall i, m :: k <= i < |n.children| && m in n.children[i].repr && m in ActiveBelowFrom(n, k) ==>
      m in ActiveBelowFrom(n, i)
    decreases n.height, 0, |n.children| - k
  {
    if k < |n.children| {
      ActiveBelowFromWithin(n, k + 1);
      if n.children[k].activeInHierarchy {
        ActiveBelowWithin(n.children[k]);
      }
    }
  }

  /** The hierarchy part of `_deactivateNodeRecursively(n)`: clears activeInHierarchy on
      n and on every node the walk reaches through children active in hierarchy. */
  method SwitchOff(n: Node)
    requires n.Valid()
    modifies n.repr`activeInHierarchy
    ensures forall m :: m in n.repr ==>
      m.activeInHierarchy == (old(m.activeInHierarchy) && m !in old(ActiveBelow(n)))
    decreases n.height
  {
    forall k | 0 <= k <= |n.children| {
      ActiveBelowFromWithin(n, k);
    }
    forall j | 0 <= j < |n.children| {
      ActiveBelowWithin(n.children[j]);
    }
    n.activeInHierarchy := false;
    var i := 0;
    while i < |n.children|
      invariant i <= |n.children|
      invariant forall m :: m in n.repr ==>
        m.activeInHierarchy == (old(m.activeInHierarchy) && m != n &&
          (m in old(ActiveBelowFrom(n, 0)) ==> m in old(ActiveBelowFrom(n, i))))
    {
      var child := n.children[i];
      assert forall m :: m in child.repr ==> m.activeInHierarchy == old(m.activeInHierarchy);
      assert old(ActiveBelowFrom(n, i)) ==
        (if old(child.activeInHierarchy) then old(ActiveBelow(child)) else {}) + old(ActiveBelowFrom(n, i + 1));
      label before:
      if child.activeInHierarchy {
        assert ActiveBelow(child) == old(ActiveBelow(child));
        SwitchOff(child);
      }
      forall m | m in n.repr
        ensures m.activeInHierarchy == (old(m.activeInHierarchy) && m != n &&
          (m in old(ActiveBelowFrom(n, 0)) ==> m in old(ActiveBelowFrom(n, i + 1))))
      {
        if m in child.repr {
          assert m !in old(ActiveBelowFrom(n, i + 1));
        } else {
          assert m.activeInHierarchy == old@before(m.activeInHierarchy);
        }
      }
      i := i + 1;
    }
  }

  /** A component attached to a node. Its lifecycle callbacks are user code: the model
      knows which of them exist and the one re-entrant effect each can have on the state
      the activator reads back afterwards. */
  class Component {
    const node: Node
    const hasPreload: bool           // typeof comp.__preload === 'function'
    const hasOnLoad: bool            // comp.onLoad is set
    const hasOnDestroy: bool         // comp.onDestroy is set
    const deactivatesOnLoad: bool    // its onLoad switches its own node off
    const reactivatesOnDisable: Node? // its onDisable switches this node back on
    var enabled: bool                // _enabled
    var objFlags: Flags              // _objFlags

    constructor (node: Node, hasPreload: bool, hasOnLoad: bool, hasOnDestroy: bool,
                 deactivatesOnLoad: bool, reactivatesOnDisable: Node?, enabled: bool)
      ensures this.node == node && this.hasPreload == hasPreload && this.hasOnLoad == hasOnLoad
      ensures this.hasOnDestroy == hasOnDestroy && this.deactivatesOnLoad == deactivatesOnLoad
      ensures this.reactivatesOnDisable == reactivatesOnDisable
      ensures this.enabled == enabled && objFlags == 0
    {
      this.node := node;
      this.hasPreload := hasPreload;
      this.hasOnLoad := hasOnLoad;
      this.hasOnDestroy := hasOnDestroy;
      this.deactivatesOnLoad := deactivatesOnLoad;
      this.reactivatesOnDisable := reactivatesOnDisable;
      this.enabled := enabled;
      this.objFlags := 0;
    }
  }

  /** The node a component's onDisable may switch back on, as a frame. */
  function ReactivationTarget(c: Component): set<Node> {
    if c.reactivatesOnDisable == null then {} else {c.reactivatesOnDisable}
  }

  /** The running scene: its nodes and components, and the log of everything the
      activator has made code outside it do. */
  class Scene {
    ghost const nodes: set<Node>
    ghost const comps: set<Component>
    var log: seq<Event>

    /** The node set is closed: every node is a valid tree root whose subtree is in the
        scene, and every component belongs to a node of the scene. */
    ghost predicate Shaped() {
      (forall n :: n in nodes ==> n.Valid() && n.repr <= nodes) &&
      (forall c :: c in comps ==> c.node in nodes && ReactivationTarget(c) <= nodes)
    }

    /** Every component among the slots is a scene component attached to n, and none
        appears twice. */
    ghost predicate OwnedSlots(slots: seq<Slot>, n: Node) {
      slots == [] ||
      (OwnedSlots(slots[..|slots| - 1], n) &&
       var last := slots[|slots| - 1];
       last.Comp? ==> last.c in comps && last.c.node == n && last !in slots[..|slots| - 1])
    }

    /** n's component array is owned by n. */
    ghost predicate Owns(n: Node)
      reads n`components
    {
      OwnedSlots(n.components, n)
    }

    /** What ownership says about one slot. */
    lemma {:induction false} OwnedSlotsAt(slots: seq<Slot>, n: Node, k: nat)
      requires OwnedSlots(slots, n) && k < |slots|
      ensures OwnedSlots(slots[..k + 1], n)
      ensures slots[k].Comp? ==> slots[k].c in comps && slots[k].c.node == n && slots[k] !in slots[..k]
      decreases |slots|
    {
      if k + 1 < |slots| {
        OwnedSlotsAt(slots[..|slots| - 1], n, k);
        assert slots[..|slots| - 1][..k + 1] == slots[..k + 1];
      } else {
        assert slots[..k + 1] == slots;
      }
    }

    /** The scene components attached to the nodes of ns. */
    ghost function CompsAt(ns: set<Node>): set<Component> {
      set c | c in comps && c.node in ns
    }

    ghost predicate Valid()
      reads nodes`components
    {
      Shaped() && forall n :: n in nodes ==> Owns(n)
    }

    constructor (nodes: set<Node>, comps: set<Component>)
      requires forall n :: n in nodes ==> n.Valid() && n.repr <= nodes
      requires forall c :: c in comps ==> c.node in nodes && ReactivationTarget(c) <= nodes
      requires forall n :: n in nodes ==> n.components == []
      ensures Valid() && this.nodes == nodes && this.comps == comps && log == []
    {
      this.nodes := nodes;
      this.comps := comps;
      this.log := [];
    }

    /** Records an engine-side event (a node hook, an error report, an emitted event). */
    method Record(e: Event)
      modifies this`log
      ensures log == old(log) + [e]
    {
      log := log + [e];
    }

    /** Calls a hook with no effect on the activator's state: `__preload`, `onEnable`
        or `onDestroy`. */
    method Call(hook: Hook, c: Component)
      requires hook in {Preload, OnEnable, OnDestroy}
      modifies this`log
      ensures log == old(log) + [Called(hook, c)]
    {
      log := log + [Called(hook, c)];
    }

    /** `comp.onLoad()`: user code that may run `this.node.active = false`. The setter
        clears the node's own switch and, when the node is active in hierarchy, walks the
        deactivation down from it, which switches off every node that walk reaches; off
        says whether that happened. */
    method CallOnLoad(c: Component) returns (off: bool)
      requires c.node.Valid()
      modifies this`log, c.node`active, c.node.repr`activeInHierarchy
      ensures log == old(log) + [Called(OnLoad, c)]
      ensures c.node.active == (old(c.node.active) && !c.deactivatesOnLoad)
      ensures off == (old(c.node.activeInHierarchy) && c.deactivatesOnLoad)
      ensures forall m :: m in c.node.repr ==>
        m.activeInHierarchy == (old(m.activeInHierarchy) && !(off && m in old(ActiveBelow(c.node))))
    {
      log := log + [Called(OnLoad, c)];
      off := c.node.activeInHierarchy && c.deactivatesOnLoad;
      if c.deactivatesOnLoad {
        c.node.active := false;
        if c.node.activeInHierarchy {
          SwitchOff(c.node);
        }
      }
    }

    /** `comp.onDisable()`: user code that may switch back on a node whose deactivation is
        in progress (the case the deactivation walk checks for after every call). */
    method CallOnDisable(c: Component)
      modifies this`log, ReactivationTarget(c)`activeInHierarchy
      ensures log == old(log) + [Called(OnDisable, c)]
      ensures forall t :: t in ReactivationTarget(c) ==>
        t.activeInHierarchy == (old(t.activeInHierarchy) || Has(t.objFlags, Deactivating))
    {
      log := log + [Called(OnDisable, c)];
      var t := c.reactivatesOnDisable;
      if t != null && Has(t.objFlags, Deactivating) {
        t.activeInHierarchy := true;
      }
    }
  }

  /** The events of calling one hook on each component of cs, in order. */
  function Dispatch(hook: Hook, cs: seq<Component>): (es: seq<Event>)
    ensures |es| == |cs|
  {
    if cs == [] then [] else Dispatch(hook, cs[..|cs| - 1]) + [Called(hook, cs[|cs| - 1])]
  }

  lemma {:induction false} DispatchAppend(hook: Hook, a: seq<Component>, b: seq<Component>)
    ensures Dispatch(hook, a + b) == Dispatch(hook, a) + Dispatch(hook, b)
    decreases |b|
  {
    if b != [] {
      assert (a + b)[..|a + b| - 1] == a + b[..|b| - 1];
      DispatchAppend(hook, a, b[..|b| - 1]);
    } else {
      assert a + b == a;
    }
  }

  /** Logging the call on entry i after those on the entries before it. */
  lemma DispatchStep(logged: seq<Event>, hook: Hook, cs: seq<Component>, i: nat)
    requires i < |cs|
    ensures logged + Dispatch(hook, cs[..i + 1]) == (logged + Dispatch(hook, cs[..i])) + [Called(hook, cs[i])]
  {
    assert cs[..i + 1][..i] == cs[..i];
  }

  /** Dispatching a hook logs a call of that hook on each component of cs and nothing else. */
  lemma {:induction false} DispatchCalls(hook: Hook, cs: seq<Component>)
    ensures forall e :: e in Dispatch(hook, cs) <==> e.Called? && e.hook == hook && e.comp in cs
  {
    if cs != [] {
      var init := cs[..|cs| - 1];
      DispatchCalls(hook, init);
      assert cs == init + [cs[|cs| - 1]];
    }
  }

  /** The nodes the components of cs are attached to. */
  ghost function NodesOf(cs: seq<Component>): set<Node> {
    set c | c in cs :: c.node
  }

  /** The components of cs, as a frame. */
  ghost function Elements(cs: seq<Component>): set<Component> {
    set c | c in cs
  }
}
