/** The node activator: activating and deactivating a node subtree and its components,
    deferring the subtree's preload, onLoad and onEnable callbacks through a pooled task. */
module Activation {
  import opened ObjFlags
  import opened SceneGraph
  import opened CompScheduler
  import opened ActivationWalk
  import opened ActivateTasks
  import opened DeactivationWalk

  /** `_componentCorrupted`: reports the bad slot, then removes it, through the node's
      component removal (the first occurrence of the value) when the slot holds something,
      and by index when it holds nothing. */
  method ComponentCorrupted(scene: Scene, n: Node, slot: Slot, index: nat)
    modifies scene`log, n`components
    ensures scene.log == old(scene.log) + [CorruptionReported(n, index)]
    ensures slot != Null ==>
      var at := IndexOf(old(n.components), slot);
      n.components == if at < 0 then old(n.components) else RemoveAt(old(n.components), at)
    ensures slot == Null ==> n.components == RemoveAt(old(n.components), index)
  {
    scene.Record(CorruptionReported(n, index));
    if slot != Null {
      var at := IndexOf(n.components, slot);
      if at >= 0 {
        n.components := RemoveAt(n.components, at);
      }
    } else {
      n.components := RemoveAt(n.components, index);
    }
  }

  /** The tasks of an activating stack have distinct onLoad and onEnable invokers and share
      no invoker with one another or with the pooled tasks. */
  predicate Sound(stack: seq<Task>, pooled: seq<Task>) {
    (forall i :: 0 <= i < |stack| ==> stack[i].onLoad != stack[i].onEnable) &&
    (forall i, j :: 0 <= i < j < |stack| ==> Apart(stack[i], stack[j])) &&
    (forall i, j :: 0 <= i < |stack| && 0 <= j < |pooled| ==> Apart(stack[i], pooled[j]))
  }

  /** The node activator. Its only state is the stack of tasks whose walk is in progress;
      the task pool it draws from is shared. */
  class NodeActivator {
    var stack: seq<Task>
    const pool: TaskPool

    /** The pool is valid, and the tasks on the stack are sound and share no invoker with
        one another or with the pooled tasks. */
    ghost predicate Valid()
      reads this`stack, pool`tasks, PreloadsOf(pool.tasks)`queue, OneOffsOf(pool.tasks)`queue
    {
      pool.Valid() && Sound(stack, pool.tasks)
    }

    constructor (pool: TaskPool)
      requires pool.Valid()
      ensures Valid() && stack == [] && this.pool == pool
    {
      this.pool := pool;
      stack := [];
    }

    /** `reset`: the activating stack is emptied. */
    method Reset()
      requires Valid()
      modifies this`stack
      ensures Valid() && stack == []
    {
      stack := [];
    }

    /** `activateNode(node, active)`: switching a subtree on walks it with a pooled task on
        the stack and then flushes the task's invokers in the order preload, onLoad,
        onEnable; switching it off walks it and then drops, from every task on the stack,
        the queued components whose node is now inactive. Either way the change is
        announced last. An onLoad of the flush that switches its node off stops the onLoad
        run and, as switching a node off does, cancels every task on the stack, the running
        one included, before the onEnable run. */
    method ActivateNode(scene: Scene, node: Node, active: bool)
      requires Valid() && scene.Valid() && node in scene.nodes
      requires !active ==> Deactivatable(scene, node)
      modifies this`stack, pool, PartsOf(pool.tasks), PartsOf(stack)
      modifies scene.nodes`active, scene.nodes`activeInHierarchy, scene.nodes`components, scene.nodes`objFlags
      modifies scene.comps`objFlags, scene`log
      ensures Valid() && stack == old(stack)
      ensures active ==>
        var s := old(Snap(scene));
        scene.log == old(scene.log) + ActivationLog(node, s) + [HierarchyChanged(node)]
      ensures active ==> NodesSettled(scene, node, old(Snap(scene))) && CompsEnabled(scene, node, old(Snap(scene)))
      ensures active ==> forall i :: 0 <= i < |stack| ==>
        CancelledIf(LoadSwitchesOff(node, old(Snap(scene))), stack[i],
                    old(stack[i].preload.queue), old(stack[i].onLoad.queue), old(stack[i].onEnable.queue))
      ensures !active ==>
        var s := old(Snap(scene));
        var r := Deact(node, {}, s, Trail(old(scene.log), map[], map[]));
        scene.log == r.log + [HierarchyChanged(node)] && Deactivated(scene, s, r)
      ensures !active ==> forall i :: 0 <= i < |stack| ==>
        Cancelled(stack[i], old(stack[i].preload.queue), old(stack[i].onLoad.queue), old(stack[i].onEnable.queue))
    {
      if active {
        ghost var s := ActivateTree(scene, node);
      } else {
        ghost var s, r := DeactivateBranch(scene, node);
      }
    }

    /** The second branch of `activateNode`, then the announcement. */
    method DeactivateBranch(scene: Scene, node: Node) returns (ghost s: Shot, ghost r: Trail)
      requires Valid() && scene.Valid() && node in scene.nodes && Deactivatable(scene, node)
      modifies PreloadsOf(stack)`queue, OneOffsOf(stack)`queue
      modifies scene.nodes`activeInHierarchy, scene.nodes`objFlags, scene.comps`objFlags, scene`log
      ensures Valid() && s == old(Snap(scene)) && r == Deact(node, {}, s, Trail(old(scene.log), map[], map[]))
      ensures scene.log == r.log + [HierarchyChanged(node)] && Deactivated(scene, s, r)
      ensures forall i :: 0 <= i < |stack| ==>
        Cancelled(stack[i], old(stack[i].preload.queue), old(stack[i].onLoad.queue), old(stack[i].onEnable.queue))
    {
      s, r := DeactivateTree(scene, node);
      CancelAndAnnounce(scene, node, s, r);
    }

    /** The loop of the second branch of `activateNode`, then the announcement; the
        deactivated subtree stays as the walk left it. */
    method CancelAndAnnounce(scene: Scene, node: Node, ghost s: Shot, ghost r: Trail)
      requires Valid() && Deactivated(scene, s, r)
      modifies PreloadsOf(stack)`queue, OneOffsOf(stack)`queue, scene`log
      ensures Valid() && Deactivated(scene, s, r) && scene.log == old(scene.log) + [HierarchyChanged(node)]
      ensures forall i :: 0 <= i < |stack| ==>
        Cancelled(stack[i], old(stack[i].preload.queue), old(stack[i].onLoad.queue), old(stack[i].onEnable.queue))
    {
      CancelAll();
      scene.log := scene.log + [HierarchyChanged(node)];
    }

    /** The loop of the second branch of `activateNode`, over the activator's own stack. */
    method CancelAll()
      requires Valid()
      modifies PreloadsOf(stack)`queue, OneOffsOf(stack)`queue
      ensures Valid()
      ensures forall i :: 0 <= i < |stack| ==>
        Cancelled(stack[i], old(stack[i].preload.queue), old(stack[i].onLoad.queue), old(stack[i].onEnable.queue))
    {
      PartsApart(stack, pool.tasks);
      CancelStacked(stack);
    }

    /** The first branch of `activateNode`, then the announcement: a pooled task is
        pushed, the subtree walked with its invokers, the invokers flushed, the task popped
        and handed back, and the change announced. */
    method ActivateTree(scene: Scene, node: Node) returns (ghost s: Shot)
      requires Valid() && scene.Valid() && node in scene.nodes
      modifies this`stack, pool, PartsOf(pool.tasks), PreloadsOf(stack)`queue, OneOffsOf(stack)`queue
      modifies scene.nodes`active, scene.nodes`activeInHierarchy, scene.nodes`components, scene.comps`objFlags, scene`log
      ensures Valid() && stack == old(stack)
      ensures s == old(Snap(scene))
      ensures scene.log == old(scene.log) + ActivationLog(node, s) + [HierarchyChanged(node)]
      ensures NodesSettled(scene, node, s) && CompsEnabled(scene, node, s)
      ensures forall i :: 0 <= i < |stack| ==>
        CancelledIf(LoadSwitchesOff(node, s), stack[i], old(stack[i].preload.queue), old(stack[i].onLoad.queue), old(stack[i].onEnable.queue))
    {
      ghost var ps, ls, es := PreloadQueues(stack), LoadQueues(stack), EnableQueues(stack);
      var task := PushTask();
      assert unchanged(scene.nodes) && unchanged(scene.comps);
      forall i | 0 <= i < |stack| - 1
        ensures stack[i].preload.queue == ps[i] && stack[i].onLoad.queue == ls[i] && stack[i].onEnable.queue == es[i]
      {
        assert stack[i] == old(stack[i]);
      }
      s := RunAndPop(scene, node, task, ps, ls, es);
      forall i | 0 <= i < |stack|
        ensures CancelledIf(LoadSwitchesOff(node, s), stack[i], old(stack[i].preload.queue), old(stack[i].onLoad.queue), old(stack[i].onEnable.queue))
      {
        assert ps[i] == old(stack[i].preload.queue) && ls[i] == old(stack[i].onLoad.queue) && es[i] == old(stack[i].onEnable.queue);
      }
    }

    /** The rest of that branch, with the task on top of the stack. */
    method RunAndPop(scene: Scene, node: Node, task: Task,
                     ghost ps: seq<seq<Component>>, ghost ls: seq<seq<Component>>, ghost es: seq<seq<Component>>)
      returns (ghost s: Shot)
      requires Valid() && stack != [] && stack[|stack| - 1] == task && Idle(task)
      requires |ps| == |ls| == |es| == |stack| - 1
      requires forall i :: 0 <= i < |stack| - 1 ==>
        stack[i].preload.queue == ps[i] && stack[i].onLoad.queue == ls[i] && stack[i].onEnable.queue == es[i]
      requires scene.Valid() && node in scene.nodes
      modifies this`stack, pool, PreloadsOf(stack)`queue, OneOffsOf(stack)`queue
      modifies scene.nodes`active, scene.nodes`activeInHierarchy, scene.nodes`components, scene.comps`objFlags, scene`log
      ensures Valid() && stack == old(stack[..|stack| - 1])
      ensures s == old(Snap(scene))
      ensures scene.log == old(scene.log) + ActivationLog(node, s) + [HierarchyChanged(node)]
      ensures NodesSettled(scene, node, s) && CompsEnabled(scene, node, s)
      ensures forall i :: 0 <= i < |stack| ==> CancelledIf(LoadSwitchesOff(node, s), stack[i], ps[i], ls[i], es[i])
    {
      s := Snap(scene);
      SnapWalked(scene, node);
      RunThenPop(scene, node, task, s, ps, ls, es);
    }

    /** The walk and flush with the task on top of the stack, then the task's release and
        the announcement. */
    method RunThenPop(scene: Scene, node: Node, task: Task, ghost s: Shot,
                      ghost ps: seq<seq<Component>>, ghost ls: seq<seq<Component>>, ghost es: seq<seq<Component>>)
      requires Valid() && stack != [] && stack[|stack| - 1] == task
      requires |ps| == |ls| == |es| == |stack| - 1
      requires forall i :: 0 <= i < |stack| - 1 ==>
        stack[i].preload.queue == ps[i] && stack[i].onLoad.queue == ls[i] && stack[i].onEnable.queue == es[i]
      requires scene.Shaped() && node in scene.nodes && Idle(task)
      requires Walked(scene, s, scene.nodes, {}, []) && OwnedIn(scene, s, node.repr)
      modifies this`stack, pool, PreloadsOf(stack)`queue, OneOffsOf(stack)`queue
      modifies scene.nodes`active, scene.nodes`activeInHierarchy, scene.nodes`components, scene.comps`objFlags, scene`log
      ensures Valid() && stack == old(stack[..|stack| - 1])
      ensures scene.log == old(scene.log) + ActivationLog(node, s) + [HierarchyChanged(node)]
      ensures NodesSettled(scene, node, s) && CompsEnabled(scene, node, s)
      ensures forall i :: 0 <= i < |stack| ==> CancelledIf(LoadSwitchesOff(node, s), stack[i], ps[i], ls[i], es[i])
    {
      RunTask(scene, node, task, s, ps, ls, es);
      PopAndAnnounce(scene, node, task, s, LoadSwitchesOff(node, s), ps, ls, es);
    }

    /** The end of that branch: the pop off the stack and `putActivateTask`, then the
        announcement. Neither touches the scene nodes and components nor the queues of the
        tasks below, so the outcome of the flush stands. */
    method PopAndAnnounce(scene: Scene, node: Node, task: Task, ghost s: Shot, ghost off: bool,
                          ghost ps: seq<seq<Component>>, ghost ls: seq<seq<Component>>, ghost es: seq<seq<Component>>)
      requires Valid() && stack != [] && stack[|stack| - 1] == task && Idle(task) && node.Valid()
      requires |ps| == |ls| == |es| == |stack| - 1
      requires forall i :: 0 <= i < |stack| - 1 ==> CancelledIf(off, stack[i], ps[i], ls[i], es[i])
      requires NodesSettled(scene, node, s) && CompsEnabled(scene, node, s)
      modifies this`stack, pool, scene`log
      ensures Valid() && stack == old(stack[..|stack| - 1])
      ensures scene.log == old(scene.log) + [HierarchyChanged(node)]
      ensures NodesSettled(scene, node, s) && CompsEnabled(scene, node, s)
      ensures forall i :: 0 <= i < |stack| ==> CancelledIf(off, stack[i], ps[i], ls[i], es[i])
    {
      PopKeeping(task, off, ps, ls, es);
      scene.log := scene.log + [HierarchyChanged(node)];
    }

    /** The pop at the end of that branch, which leaves the cancellation outcome of the
        tasks below as it was. */
    method PopKeeping(task: Task, ghost off: bool,
                      ghost ps: seq<seq<Component>>, ghost ls: seq<seq<Component>>, ghost es: seq<seq<Component>>)
      requires Valid() && stack != [] && stack[|stack| - 1] == task && Idle(task)
      requires |ps| == |ls| == |es| == |stack| - 1
      requires forall i :: 0 <= i < |stack| - 1 ==> CancelledIf(off, stack[i], ps[i], ls[i], es[i])
      modifies this`stack, pool
      ensures Valid() && stack == old(stack[..|stack| - 1])
      ensures forall i :: 0 <= i < |stack| ==> CancelledIf(off, stack[i], ps[i], ls[i], es[i])
    {
      PopTask(task);
      forall i | 0 <= i < |stack|
        ensures CancelledIf(off, stack[i], ps[i], ls[i], es[i])
      {
        assert old(CancelledIf(off, stack[i], ps[i], ls[i], es[i]));
        assert forall n | n in NodesOf(ps[i]) + NodesOf(ls[i]) + NodesOf(es[i]) :: n.activeInHierarchy == old(n.activeInHierarchy);
      }
    }

    /** The start of that branch: `getActivateTask` and the push onto the stack. */
    method PushTask() returns (task: Task)
      requires Valid()
      modifies this`stack, pool
      ensures Valid() && stack == old(stack) + [task] && Idle(task) && Parts(task) !! PartsOf(pool.tasks)
      ensures old(|pool.tasks|) > 0 ==> task == old(pool.tasks[|pool.tasks| - 1]) && pool.tasks == old(pool.tasks[..|pool.tasks| - 1])
      ensures old(|pool.tasks|) == 0 ==> pool.tasks == [] && fresh(task.preload) && fresh(task.onLoad) && fresh(task.onEnable)
    {
      task := pool.Get();
      stack := stack + [task];
    }

    /** The end of that branch: the pop off the stack and `putActivateTask`. */
    method PopTask(task: Task)
      requires Valid() && stack != [] && stack[|stack| - 1] == task && Idle(task)
      modifies this`stack, pool
      ensures Valid() && stack == old(stack[..|stack| - 1])
      ensures pool.tasks == if old(|pool.tasks|) < MAX_POOL_SIZE then old(pool.tasks) + [task] else old(pool.tasks)
    {
      stack := stack[..|stack| - 1];
      pool.Put(task);
    }

    /** The middle of the first branch of `activateNode`, run with the task on top of the
        stack: the walk, the preload and onLoad runs, the cancellation of every stacked task
        when an onLoad switched its node off, and the onEnable run. The activator stays
        valid and the task is idle again afterwards. */
    method RunTask(scene: Scene, node: Node, task: Task, ghost s: Shot,
                   ghost ps: seq<seq<Component>>, ghost ls: seq<seq<Component>>, ghost es: seq<seq<Component>>)
      requires Valid() && stack != [] && stack[|stack| - 1] == task
      requires |ps| == |ls| == |es| == |stack| - 1
      requires forall i :: 0 <= i < |stack| - 1 ==>
        stack[i].preload.queue == ps[i] && stack[i].onLoad.queue == ls[i] && stack[i].onEnable.queue == es[i]
      requires scene.Shaped() && node in scene.nodes && Idle(task)
      requires Walked(scene, s, scene.nodes, {}, []) && OwnedIn(scene, s, node.repr)
      modifies PreloadsOf(stack)`queue, OneOffsOf(stack)`queue
      modifies scene.nodes`active, scene.nodes`activeInHierarchy, scene.nodes`components, scene.comps`objFlags, scene`log
      ensures Valid() && Idle(task) && stack == old(stack)
      ensures scene.log == old(scene.log) + ActivationLog(node, s)
      ensures NodesSettled(scene, node, s) && CompsEnabled(scene, node, s)
      ensures forall i :: 0 <= i < |stack| - 1 ==> CancelledIf(LoadSwitchesOff(node, s), stack[i], ps[i], ls[i], es[i])
    {
      var off := WalkOnTop(scene, node, task, s, ps, ls, es);
      EnableOnTop(scene, node, task, s, off, ps, ls, es);
      AppendAssoc(old(scene.log), LoadLog(node, s), Dispatch(OnEnable, EnablesAfterLoad(node, s)));
    }

    /** The walk and the preload and onLoad runs of the task on top of the stack, which
        leave the other stacked tasks as they were. */
    method WalkOnTop(scene: Scene, node: Node, task: Task, ghost s: Shot,
                     ghost ps: seq<seq<Component>>, ghost ls: seq<seq<Component>>, ghost es: seq<seq<Component>>)
      returns (off: bool)
      requires Valid() && stack != [] && stack[|stack| - 1] == task
      requires |ps| == |ls| == |es| == |stack| - 1
      requires forall i :: 0 <= i < |stack| - 1 ==>
        stack[i].preload.queue == ps[i] && stack[i].onLoad.queue == ls[i] && stack[i].onEnable.queue == es[i]
      requires scene.Shaped() && node in scene.nodes && Idle(task)
      requires Walked(scene, s, scene.nodes, {}, []) && OwnedIn(scene, s, node.repr)
      modifies task.preload`queue, task.onLoad`queue, task.onEnable`queue
      modifies scene.nodes`active, scene.nodes`activeInHierarchy, scene.nodes`components, scene.comps`objFlags, scene`log
      ensures Valid()
      ensures forall i :: 0 <= i < |stack| - 1 ==>
        stack[i].preload.queue == ps[i] && stack[i].onLoad.queue == ls[i] && stack[i].onEnable.queue == es[i]
      ensures task.preload.queue == [] && task.onLoad.queue == []
      ensures task.onEnable.queue == Enqueued(OnEnable, Visit(node, s), s) && Elements(task.onEnable.queue) <= scene.comps
      ensures scene.log == old(scene.log) + LoadLog(node, s)
      ensures off == LoadSwitchesOff(node, s)
      ensures NodesSettled(scene, node, s) && CompsLoaded(scene, node, s)
      ensures forall c :: c in task.onEnable.queue ==> c.node.activeInHierarchy == (c.node !in SwitchedOnLoad(node, s))
    {
      off := WalkPooled(scene, node, task, s);
      forall i | 0 <= i < |stack| - 1
        ensures stack[i].preload.queue == ps[i] && stack[i].onLoad.queue == ls[i] && stack[i].onEnable.queue == es[i]
      {
        assert Apart(stack[i], task);
      }
    }

    /** The rest of the flush after the walk from node, as the walk and the onLoad run
        left the task on top of the stack. */
    method EnableOnTop(scene: Scene, node: Node, task: Task, ghost s: Shot, off: bool,
                       ghost ps: seq<seq<Component>>, ghost ls: seq<seq<Component>>, ghost es: seq<seq<Component>>)
      requires Valid() && stack != [] && stack[|stack| - 1] == task && node.Valid()
      requires |ps| == |ls| == |es| == |stack| - 1
      requires forall i :: 0 <= i < |stack| - 1 ==>
        stack[i].preload.queue == ps[i] && stack[i].onLoad.queue == ls[i] && stack[i].onEnable.queue == es[i]
      requires task.onLoad != task.onEnable && task.onLoad.stage == LoadStage && task.onEnable.stage == EnableStage
      requires task.preload.queue == [] && task.onLoad.queue == []
      requires task.onEnable.queue == Enqueued(OnEnable, Visit(node, s), s) && Elements(task.onEnable.queue) <= scene.comps
      requires off == LoadSwitchesOff(node, s)
      requires NodesSettled(scene, node, s) && CompsLoaded(scene, node, s)
      requires forall c :: c in task.onEnable.queue ==> c.node.activeInHierarchy == (c.node !in SwitchedOnLoad(node, s))
      modifies PreloadsOf(stack)`queue, OneOffsOf(stack)`queue, scene`log, scene.comps`objFlags
      ensures Valid() && Idle(task)
      ensures scene.log == old(scene.log) + Dispatch(OnEnable, EnablesAfterLoad(node, s))
      ensures NodesSettled(scene, node, s) && CompsEnabled(scene, node, s)
      ensures forall i :: 0 <= i < |stack| - 1 ==> CancelledIf(LoadSwitchesOff(node, s), stack[i], ps[i], ls[i], es[i])
    {
      CancelThenEnable(scene, task, off, SwitchedOnLoad(node, s), task.onEnable.queue, EnablesAfterLoad(node, s), ps, ls, es);
    }

    /** The rest of the flush, with the task on top of the stack after its preload and
        onLoad runs: when an onLoad switched node m off, every stacked task is cancelled,
        which leaves the task's onEnable queue without the entries on the switched-off
        nodes ns; then the onEnable run, which marks each entry it calls as enabled. */
    method CancelThenEnable(scene: Scene, task: Task, off: bool, ghost ns: set<Node>, ghost enables: seq<Component>,
                            ghost after: seq<Component>,
                            ghost ps: seq<seq<Component>>, ghost ls: seq<seq<Component>>, ghost es: seq<seq<Component>>)
      requires Valid() && stack != [] && stack[|stack| - 1] == task
      requires |ps| == |ls| == |es| == |stack| - 1
      requires forall i :: 0 <= i < |stack| - 1 ==>
        stack[i].preload.queue == ps[i] && stack[i].onLoad.queue == ls[i] && stack[i].onEnable.queue == es[i]
      requires task.onLoad != task.onEnable && task.onLoad.stage == LoadStage && task.onEnable.stage == EnableStage
      requires task.preload.queue == [] && task.onLoad.queue == [] && task.onEnable.queue == enables
      requires Elements(enables) <= scene.comps
      requires forall c :: c in enables ==> c.node.activeInHierarchy == (c.node !in ns)
      requires !off ==> ns == {}
      requires after == if off then Excluding(enables, ns) else enables
      modifies PreloadsOf(stack)`queue, OneOffsOf(stack)`queue, scene`log, scene.comps`objFlags
      ensures Valid() && Idle(task)
      ensures scene.log == old(scene.log) + Dispatch(OnEnable, after)
      ensures forall c :: c in scene.comps ==>
        c.objFlags == if c in after then With(old(c.objFlags), IsOnEnableCalled) else old(c.objFlags)
      ensures forall i :: 0 <= i < |stack| - 1 ==> CancelledIf(off, stack[i], ps[i], ls[i], es[i])
    {
      CancelIfOff(task, off, ns, enables, ps, ls, es);
      ExcludingMembers(enables, ns);
      assert Elements(task.onEnable.queue) <= scene.comps;
      EnableRun(scene, task, off, ps, ls, es);
    }

    /** The cancellation that a switch-off during the onLoad run brings about, seen from
        the task on top of the stack: its onEnable queue loses the entries on the nodes ns
        that the switch-off reached. */
    method CancelIfOff(task: Task, off: bool, ghost ns: set<Node>, ghost enables: seq<Component>,
                       ghost ps: seq<seq<Component>>, ghost ls: seq<seq<Component>>, ghost es: seq<seq<Component>>)
      requires Valid() && stack != [] && stack[|stack| - 1] == task
      requires |ps| == |ls| == |es| == |stack| - 1
      requires forall i :: 0 <= i < |stack| - 1 ==>
        stack[i].preload.queue == ps[i] && stack[i].onLoad.queue == ls[i] && stack[i].onEnable.queue == es[i]
      requires task.preload.queue == [] && task.onLoad.queue == [] && task.onEnable.queue == enables
      requires forall c :: c in enables ==> c.node.activeInHierarchy == (c.node !in ns)
      modifies PreloadsOf(stack)`queue, OneOffsOf(stack)`queue
      ensures Valid()
      ensures task.preload.queue == [] && task.onLoad.queue == []
      ensures task.onEnable.queue == if off then Excluding(enables, ns) else enables
      ensures forall i :: 0 <= i < |stack| - 1 ==> CancelledIf(off, stack[i], ps[i], ls[i], es[i])
    {
      if off {
        CancelAll();
        ActiveOnlyExcluding(enables, ns);
        assert Cancelled(task, [], [], enables);
      }
    }

    /** The onEnable run of the task on top of the stack; the other stacked tasks keep
        their queues. */
    method EnableRun(scene: Scene, task: Task, ghost off: bool, ghost ps: seq<seq<Component>>, ghost ls: seq<seq<Component>>, ghost es: seq<seq<Component>>)
      requires Valid() && stack != [] && stack[|stack| - 1] == task
      requires |ps| == |ls| == |es| == |stack| - 1
      requires forall i :: 0 <= i < |stack| - 1 ==> CancelledIf(off, stack[i], ps[i], ls[i], es[i])
      requires task.onLoad != task.onEnable && task.onLoad.stage == LoadStage && task.onEnable.stage == EnableStage
      requires task.preload.queue == [] && task.onLoad.queue == [] && Elements(task.onEnable.queue) <= scene.comps
      modifies task.onEnable`queue, scene`log, scene.comps`objFlags
      ensures Valid() && Idle(task)
      ensures scene.log == old(scene.log) + Dispatch(OnEnable, old(task.onEnable.queue))
      ensures forall c :: c in scene.comps ==>
        c.objFlags ==
          if c in old(task.onEnable.queue) && c.node.activeInHierarchy then With(old(c.objFlags), IsOnEnableCalled)
          else old(c.objFlags)
      ensures forall i :: 0 <= i < |stack| - 1 ==> CancelledIf(off, stack[i], ps[i], ls[i], es[i])
    {
      assert task.onEnable !in PartsOf(pool.tasks);
      ghost var q := task.onEnable.queue;
      var _ := task.onEnable.Invoke(scene, q);
      forall c | c in scene.comps && c in q
        ensures c.objFlags == if c.node.activeInHierarchy then With(old(c.objFlags), IsOnEnableCalled) else old(c.objFlags)
      {
        var j :| 0 <= j < |q| && q[j] == c;
      }
      forall i | 0 <= i < |stack| - 1
        ensures CancelledIf(off, stack[i], ps[i], ls[i], es[i])
      {
        assert old(CancelledIf(off, stack[i], ps[i], ls[i], es[i]));
        assert forall n | n in NodesOf(ps[i]) + NodesOf(ls[i]) + NodesOf(es[i]) :: n.activeInHierarchy == old(n.activeInHierarchy);
      }
    }

    /** The walk and the preload and onLoad runs of a task that is not in the pool, which
        leave the pool as it was. */
    method WalkPooled(scene: Scene, node: Node, task: Task, ghost s: Shot) returns (off: bool)
      requires Valid() && Parts(task) !! PartsOf(pool.tasks)
      requires scene.Shaped() && node in scene.nodes && Idle(task)
      requires Walked(scene, s, scene.nodes, {}, []) && OwnedIn(scene, s, node.repr)
      modifies task.preload`queue, task.onLoad`queue, task.onEnable`queue
      modifies scene.nodes`active, scene.nodes`activeInHierarchy, scene.nodes`components, scene.comps`objFlags, scene`log
      ensures Valid()
      ensures task.preload.queue == [] && task.onLoad.queue == []
      ensures task.onEnable.queue == Enqueued(OnEnable, Visit(node, s), s) && Elements(task.onEnable.queue) <= scene.comps
      ensures scene.log == old(scene.log) + LoadLog(node, s)
      ensures off == LoadSwitchesOff(node, s)
      ensures NodesSettled(scene, node, s) && CompsLoaded(scene, node, s)
      ensures forall c :: c in task.onEnable.queue ==> c.node.activeInHierarchy == (c.node !in SwitchedOnLoad(node, s))
    {
      assert task.preload !in PartsOf(pool.tasks) && task.onLoad !in PartsOf(pool.tasks) && task.onEnable !in PartsOf(pool.tasks);
      off := WalkAndLoad(scene, node, task, s);
    }

    /** The walk with the task's invokers, then the preload and onLoad runs. Every queued
        component's node is active in hierarchy once the walk is done, so the onLoad run
        stops where LoadStop says; off says whether its last onLoad switched its node off.
        The scene then stands as NodesSettled and CompsLoaded say, and the nodes of the
        onEnable queue that are inactive are those the switch-off reached. */
    method WalkAndLoad(scene: Scene, node: Node, task: Task, ghost s: Shot) returns (off: bool)
      requires scene.Shaped() && node in scene.nodes && Idle(task)
      requires Walked(scene, s, scene.nodes, {}, []) && OwnedIn(scene, s, node.repr)
      modifies task.preload`queue, task.onLoad`queue, task.onEnable`queue
      modifies scene.nodes`active, scene.nodes`activeInHierarchy, scene.nodes`components, scene.comps`objFlags, scene`log
      ensures task.preload.queue == [] && task.onLoad.queue == []
      ensures task.onEnable.queue == Enqueued(OnEnable, Visit(node, s), s) && Elements(task.onEnable.queue) <= scene.comps
      ensures scene.log == old(scene.log) + LoadLog(node, s)
      ensures off == LoadSwitchesOff(node, s)
      ensures NodesSettled(scene, node, s) && CompsLoaded(scene, node, s)
      ensures forall c :: c in task.onEnable.queue ==> c.node.activeInHierarchy == (c.node !in SwitchedOnLoad(node, s))
    {
      ghost var log := scene.log;
      ghost var visited := Visit(node, s);
      ghost var preloads, loads := Enqueued(Preload, visited, s), Enqueued(OnLoad, visited, s);
      WalkScene(scene, node, task, s);
      EnqueuedInScene(scene, node, s);
      off := FlushLoads(scene, node, task, s);
      ghost var k := LoadStop(loads);
      AppendAssoc(log, WalkLog(node, s), Dispatch(Preload, preloads));
      AppendAssoc(log, WalkLog(node, s) + Dispatch(Preload, preloads), Dispatch(OnLoad, loads[..k]));
      assert scene.log == log + (WalkLog(node, s) + Dispatch(Preload, preloads) + Dispatch(OnLoad, loads[..k]));
    }

    /** The walk from node with the task's invokers, seen from the whole scene. */
    method WalkScene(scene: Scene, node: Node, task: Task, ghost s: Shot)
      requires scene.Shaped() && node in scene.nodes && Idle(task)
      requires Walked(scene, s, scene.nodes, {}, []) && OwnedIn(scene, s, node.repr)
      modifies task.preload`queue, task.onLoad`queue, task.onEnable`queue
      modifies node.repr`activeInHierarchy, node.repr`components, scene.CompsAt(node.repr)`objFlags, scene`log
      ensures task.preload.queue == Enqueued(Preload, Visit(node, s), s)
      ensures task.onLoad.queue == Enqueued(OnLoad, Visit(node, s), s)
      ensures task.onEnable.queue == Enqueued(OnEnable, Visit(node, s), s)
      ensures scene.log == old(scene.log) + WalkLog(node, s)
      ensures Walked(scene, s, scene.nodes, Reached(node, s), Visit(node, s))
    {
      ghost var rest := scene.nodes - node.repr;
      WalkedPart(scene, s, scene.nodes, node.repr, {}, []);
      WalkedPart(scene, s, scene.nodes, rest, {}, []);
      assert scene.CompsAt(rest) !! scene.CompsAt(node.repr);
      ActivateRec(scene, node, task.preload, task.onLoad, task.onEnable, s);
      assert unchanged(rest) && unchanged(scene.CompsAt(rest));
      WalkedWhole(scene, node, s);
    }

    /** The walk of the second branch of `activateNode`, from the scene as it stands. */
    method DeactivateTree(scene: Scene, node: Node) returns (ghost s: Shot, ghost r: Trail)
      requires Valid() && scene.Valid() && node in scene.nodes && Deactivatable(scene, node)
      modifies scene.nodes`activeInHierarchy, scene.nodes`objFlags, scene.comps`objFlags, scene`log
      ensures Valid()
      ensures forall i :: 0 <= i < |stack| ==>
        stack[i].preload.queue == old(stack[i].preload.queue) && stack[i].onLoad.queue == old(stack[i].onLoad.queue) &&
        stack[i].onEnable.queue == old(stack[i].onEnable.queue)
      ensures s == old(Snap(scene)) && r == Deact(node, {}, s, Trail(old(scene.log), map[], map[]))
      ensures scene.log == r.log && Deactivated(scene, s, r)
    {
      ghost var ps, ls, es := PreloadQueues(stack), LoadQueues(stack), EnableQueues(stack);
      s, r := DeactivateWalk(scene, node);
      assert pool.Valid() && Sound(stack, pool.tasks);
      assert PreloadQueues(stack) == ps && LoadQueues(stack) == ls && EnableQueues(stack) == es;
    }

    /** The deactivation walk itself, which touches the scene and nothing of the activator. */
    method DeactivateWalk(scene: Scene, node: Node) returns (ghost s: Shot, ghost r: Trail)
      requires scene.Valid() && node in scene.nodes && Deactivatable(scene, node)
      modifies scene.nodes`activeInHierarchy, scene.nodes`objFlags, scene.comps`objFlags, scene`log
      ensures s == old(Snap(scene)) && r == Deact(node, {}, s, Trail(old(scene.log), map[], map[]))
      ensures scene.log == r.log && Deactivated(scene, s, r)
    {
      s := Snap(scene);
      ghost var t := Trail(scene.log, map[], map[]);
      SnapSettled(scene, node);
      r := Deact(node, {}, s, t);
      DeactivateRec(scene, node, s, {}, t);
    }


    /** The first-activation block of `activateComp`: a component not yet started is marked
        started, its preload and onLoad are queued (or, without an invoker, called), and it
        is marked loaded; a component already started is left alone. */
    method LoadComp(scene: Scene, c: Component, preload: UnsortedInvoker?, onLoad: OneOffInvoker?)
      requires onLoad == null ==> c.node.Valid()
      modifies c`objFlags, scene`log, c.node`activeInHierarchy
      modifies (if onLoad == null then {c.node} else {})`active
      modifies (if onLoad == null then c.node.repr else {})`activeInHierarchy
      modifies (if preload == null then {} else {preload})`queue
      modifies (if onLoad == null then {} else {onLoad})`queue
      ensures c.objFlags == Loaded(old(c.objFlags))
      ensures var first := !Has(old(c.objFlags), IsOnLoadStarted);
        preload != null ==> preload.queue == old(preload.queue) + (if first && c.hasPreload then [c] else [])
      ensures var first := !Has(old(c.objFlags), IsOnLoadStarted);
        onLoad != null ==> onLoad.queue == old(onLoad.queue) + (if first && c.hasOnLoad then [c] else [])
      ensures var first := !Has(old(c.objFlags), IsOnLoadStarted);
        c.node.activeInHierarchy ==
          (old(c.node.activeInHierarchy) && !(first && c.hasOnLoad && onLoad == null && c.deactivatesOnLoad))
      ensures var first := !Has(old(c.objFlags), IsOnLoadStarted);
        c.node.active == (old(c.node.active) && !(first && c.hasOnLoad && onLoad == null && c.deactivatesOnLoad))
      ensures var off := !Has(old(c.objFlags), IsOnLoadStarted) && c.hasOnLoad && onLoad == null &&
          old(c.node.activeInHierarchy) && c.deactivatesOnLoad;
        forall m :: m in (if onLoad == null then c.node.repr else {}) ==>
          m.activeInHierarchy == (old(m.activeInHierarchy) && !(off && m in old(ActiveBelow(c.node))))
      ensures var first := !Has(old(c.objFlags), IsOnLoadStarted);
        scene.log == old(scene.log) +
          ((if first && c.hasPreload && preload == null then [Called(Preload, c)] else []) +
           (if first && c.hasOnLoad && onLoad == null then [Called(OnLoad, c)] else []))
    {
      if !Has(c.objFlags, IsOnLoadStarted) {
        c.objFlags := With(c.objFlags, IsOnLoadStarted);
        if c.hasPreload {
          if preload != null {
            preload.Add(c);
          } else {
            scene.Call(Preload, c);
          }
        }
        if c.hasOnLoad {
          if onLoad != null {
            onLoad.Add(c);
          } else {
            var _ := scene.CallOnLoad(c);
          }
        }
        c.objFlags := With(c.objFlags, IsOnLoadCalled);
      }
    }

    /** `activateComp`: the first activation of a component marks it started and loaded and
        queues (or, without an invoker, calls) its preload and onLoad; an enabled component
        whose node is still active in hierarchy is then enabled through the scheduler. */
    method ActivateComp(scene: Scene, c: Component, preload: UnsortedInvoker?, onLoad: OneOffInvoker?, onEnable: OneOffInvoker?)
      requires onLoad != null && onEnable != null ==> onLoad != onEnable
      requires onLoad == null ==> c.node.Valid()
      modifies c`objFlags, scene`log, c.node`activeInHierarchy
      modifies (if onLoad == null then {c.node} else {})`active
      modifies (if onLoad == null then c.node.repr else {})`activeInHierarchy
      modifies (if preload == null then {} else {preload})`queue
      modifies (if onLoad == null then {} else {onLoad})`queue
      modifies (if onEnable == null then {} else {onEnable})`queue
      ensures var first := !Has(old(c.objFlags), IsOnLoadStarted);
        preload != null ==> preload.queue == old(preload.queue) + (if first && c.hasPreload then [c] else [])
      ensures var first := !Has(old(c.objFlags), IsOnLoadStarted);
        onLoad != null ==> onLoad.queue == old(onLoad.queue) + (if first && c.hasOnLoad then [c] else [])
      ensures var first := !Has(old(c.objFlags), IsOnLoadStarted);
        c.node.activeInHierarchy ==
          (old(c.node.activeInHierarchy) && !(first && c.hasOnLoad && onLoad == null && c.deactivatesOnLoad))
      ensures var first := !Has(old(c.objFlags), IsOnLoadStarted);
        c.node.active == (old(c.node.active) && !(first && c.hasOnLoad && onLoad == null && c.deactivatesOnLoad))
      ensures var off := !Has(old(c.objFlags), IsOnLoadStarted) && c.hasOnLoad && onLoad == null &&
          old(c.node.activeInHierarchy) && c.deactivatesOnLoad;
        forall m :: m in (if onLoad == null then c.node.repr else {}) ==>
          m.activeInHierarchy == (old(m.activeInHierarchy) && !(off && m in old(ActiveBelow(c.node))))
      ensures var enabling := c.enabled && c.node.activeInHierarchy && !Has(old(c.objFlags), IsOnEnableCalled);
        onEnable != null ==> onEnable.queue == old(onEnable.queue) + (if enabling then [c] else [])
      ensures var enabling := c.enabled && c.node.activeInHierarchy && !Has(old(c.objFlags), IsOnEnableCalled);
        c.objFlags == if enabling && onEnable == null then With(Loaded(old(c.objFlags)), IsOnEnableCalled)
                      else Loaded(old(c.objFlags))
      ensures var first := !Has(old(c.objFlags), IsOnLoadStarted);
        var enabling := c.enabled && c.node.activeInHierarchy && !Has(old(c.objFlags), IsOnEnableCalled);
        scene.log == old(scene.log) +
          ((if first && c.hasPreload && preload == null then [Called(Preload, c)] else []) +
           (if first && c.hasOnLoad && onLoad == null then [Called(OnLoad, c)] else [])) +
          (if enabling && onEnable == null then [Called(OnEnable, c)] else [])
    {
      LoadComp(scene, c, preload, onLoad);
      if c.enabled {
        var deactivatedOnLoading := !c.node.activeInHierarchy;
        if deactivatedOnLoading {
          return;
        }
        EnableComp(scene, c, onEnable);
      }
    }

    /** `destroyComp`: the component is always disabled first; onDestroy runs only when the
        component has it and its load completed. */
    method DestroyComp(scene: Scene, c: Component)
      modifies c`objFlags, scene`log, ReactivationTarget(c)`activeInHierarchy
      ensures c.objFlags == Without(old(c.objFlags), IsOnEnableCalled)
      ensures scene.log == old(scene.log) +
        (if Has(old(c.objFlags), IsOnEnableCalled) then [Called(OnDisable, c)] else []) +
        (if c.hasOnDestroy && Has(old(c.objFlags), IsOnLoadCalled) then [Called(OnDestroy, c)] else [])
      ensures forall t :: t in ReactivationTarget(c) ==>
        t.activeInHierarchy ==
          (old(t.activeInHierarchy) || (Has(old(c.objFlags), IsOnEnableCalled) && Has(t.objFlags, Deactivating)))
    {
      // ensure onDisable called
      DisableComp(scene, c);
      Independent(old(c.objFlags), IsOnEnableCalled, IsOnLoadCalled);
      if c.hasOnDestroy && Has(c.objFlags, IsOnLoadCalled) {
        scene.Call(OnDestroy, c);
      }
    }

    /** One pass of the component loop of `_activateNodeRecursively`, at loop index i,
        which holds slot k of the array the loop started from: a component is activated;
        any other slot is reported and removed. */
    method VisitSlot(scene: Scene, n: Node, i: nat, preload: UnsortedInvoker, onLoad: OneOffInvoker, onEnable: OneOffInvoker,
                     ghost start: LoopStart, ghost k: nat)
      returns (corrupted: bool)
      requires Fits(scene, n, start) && Progress(scene, n, preload, onLoad, onEnable, start, k, i) && k < |start.slots|
      requires onLoad != onEnable
      modifies n`components, n`activeInHierarchy, scene.CompsAt({n})`objFlags, scene`log
      modifies preload`queue, onLoad`queue, onEnable`queue
      ensures corrupted == !start.slots[k].Comp? && Fits(scene, n, start)
      ensures Progress(scene, n, preload, onLoad, onEnable, start, k + 1, if corrupted then i else i + 1)
    {
      PendingStep(start.slots, k);
      var slot := n.components[i];
      corrupted := !slot.Comp?;
      if slot.Comp? {
        ActivateSlot(scene, n, i, preload, onLoad, onEnable, start, k);
      } else {
        RemoveCorruptedSlot(scene, n, i, preload, onLoad, onEnable, start, k);
      }
    }

    /** VisitSlot for a slot holding a component. */
    method ActivateSlot(scene: Scene, n: Node, i: nat, preload: UnsortedInvoker, onLoad: OneOffInvoker, onEnable: OneOffInvoker,
                        ghost start: LoopStart, ghost k: nat)
      requires Fits(scene, n, start) && Progress(scene, n, preload, onLoad, onEnable, start, k, i) && k < |start.slots|
      requires onLoad != onEnable && start.slots[k].Comp?
      modifies n`components, n`activeInHierarchy, scene.CompsAt({n})`objFlags, scene`log
      modifies preload`queue, onLoad`queue, onEnable`queue
      ensures Progress(scene, n, preload, onLoad, onEnable, start, k + 1, i + 1)
    {
      var slots, s := start.slots, start.shot;
      PendingStep(slots, k);
      scene.OwnedSlotsAt(slots, n, k);
      PrefixStep(slots, k);
      ChosenStep(start.preloadQueue, slots, Preload, s, k);
      ChosenStep(start.onLoadQueue, slots, OnLoad, s, k);
      ChosenStep(start.onEnableQueue, slots, OnEnable, s, k);
      CorruptionLogStep(start.log, n, slots, k);
      ActivateComp(scene, n.components[i].c, preload, onLoad, onEnable);
    }

    /** VisitSlot for a slot that does not hold a component. */
    method RemoveCorruptedSlot(scene: Scene, n: Node, i: nat, preload: UnsortedInvoker, onLoad: OneOffInvoker, onEnable: OneOffInvoker,
                               ghost start: LoopStart, ghost k: nat)
      requires Fits(scene, n, start) && Progress(scene, n, preload, onLoad, onEnable, start, k, i) && k < |start.slots|
      requires !start.slots[k].Comp?
      modifies n`components, scene`log
      ensures Progress(scene, n, preload, onLoad, onEnable, start, k + 1, i)
    {
      var slots, s := start.slots, start.shot;
      PendingStep(slots, k);
      PrefixStep(slots, k);
      ChosenStep(start.preloadQueue, slots, Preload, s, k);
      ChosenStep(start.onLoadQueue, slots, OnLoad, s, k);
      ChosenStep(start.onEnableQueue, slots, OnEnable, s, k);
      CorruptionLogStep(start.log, n, slots, k);
      ComponentCorrupted(scene, n, n.components[i], i);
    }

    /** The component loop of `_activateNodeRecursively`: the components present on entry
        are activated in order; a slot without a component is reported and spliced out,
        and the loop index and bound step back so that the slot shifted into its place is
        visited next. The state it starts from is the one s records. */
    method ActivateComponents(scene: Scene, n: Node, preload: UnsortedInvoker, onLoad: OneOffInvoker, onEnable: OneOffInvoker,
                              ghost s: Shot)
      requires NodeAt(scene, s, n) && n.activeInHierarchy && onLoad != onEnable
      modifies n`components, n`activeInHierarchy, scene.CompsAt({n})`objFlags, scene`log
      modifies preload`queue, onLoad`queue, onEnable`queue
      ensures n.components == Repaired(SlotsOf(s, n)) && n.activeInHierarchy
      ensures forall c :: c in scene.CompsAt({n}) ==>
        c.objFlags == if Comp(c) in SlotsOf(s, n) then Loaded(FlagsOf(s, c)) else FlagsOf(s, c)
      ensures preload.queue == old(preload.queue) + Enqueued(Preload, ValidComps(SlotsOf(s, n)), s)
      ensures onLoad.queue == old(onLoad.queue) + Enqueued(OnLoad, ValidComps(SlotsOf(s, n)), s)
      ensures onEnable.queue == old(onEnable.queue) + Enqueued(OnEnable, ValidComps(SlotsOf(s, n)), s)
      ensures scene.log == old(scene.log) + CorruptionLog(n, SlotsOf(s, n))
    {
      ghost var start := LoopStarts(scene, n, preload, onLoad, onEnable, s);
      ghost var slots := start.slots;
      ghost var k := 0;
      var originCount := |n.components|;
      var i := 0;
      while i < originCount
        invariant Fits(scene, n, start) && Progress(scene, n, preload, onLoad, onEnable, start, k, i)
        invariant originCount == i + (|slots| - k)
        decreases |slots| - k
      {
        var corrupted := VisitSlot(scene, n, i, preload, onLoad, onEnable, start, k);
        if corrupted {
          i := i - 1;
          originCount := originCount - 1;
        }
        i := i + 1;
        k := k + 1;
      }
      assert k == |slots|;
    }

    /** `_activateNodeRecursively`: a node whose deactivation is in progress refuses and is
        reported; otherwise the node is switched on in hierarchy, its components are
        activated, then each child whose own switch is on is walked in order, and the node's
        post-activation hook runs. The state the walk starts from is the one s records. */
    method ActivateRec(scene: Scene, n: Node, preload: UnsortedInvoker, onLoad: OneOffInvoker, onEnable: OneOffInvoker,
                       ghost s: Shot)
      requires n.Valid() && Walked(scene, s, n.repr, {}, []) && OwnedIn(scene, s, n.repr) && onLoad != onEnable
      modifies n.repr`activeInHierarchy, n.repr`components, scene.CompsAt(n.repr)`objFlags, scene`log
      modifies preload`queue, onLoad`queue, onEnable`queue
      ensures scene.log == old(scene.log) + WalkLog(n, s)
      ensures preload.queue == old(preload.queue) + Enqueued(Preload, Visit(n, s), s)
      ensures onLoad.queue == old(onLoad.queue) + Enqueued(OnLoad, Visit(n, s), s)
      ensures onEnable.queue == old(onEnable.queue) + Enqueued(OnEnable, Visit(n, s), s)
      ensures Walked(scene, s, n.repr, Reached(n, s), Visit(n, s))
      decreases n.height, 4
    {
      if Has(n.objFlags, Deactivating) {
        Refusal(scene, n, s);
        scene.Record(ReactivationRefused(n));
        return;
      }
      ActivateWalk(scene, n, preload, onLoad, onEnable, s);
    }

    /** `_activateNodeRecursively` on a node that does not refuse. */
    method ActivateWalk(scene: Scene, n: Node, preload: UnsortedInvoker, onLoad: OneOffInvoker, onEnable: OneOffInvoker,
                        ghost s: Shot)
      requires n.Valid() && Walked(scene, s, n.repr, {}, []) && OwnedIn(scene, s, n.repr)
      requires !Refused(s, n) && onLoad != onEnable
      modifies n.repr`activeInHierarchy, n.repr`components, scene.CompsAt(n.repr)`objFlags, scene`log
      modifies preload`queue, onLoad`queue, onEnable`queue
      ensures scene.log == old(scene.log) + WalkLog(n, s)
      ensures preload.queue == old(preload.queue) + Enqueued(Preload, Visit(n, s), s)
      ensures onLoad.queue == old(onLoad.queue) + Enqueued(OnLoad, Visit(n, s), s)
      ensures onEnable.queue == old(onEnable.queue) + Enqueued(OnEnable, Visit(n, s), s)
      ensures Walked(scene, s, n.repr, Reached(n, s), Visit(n, s))
      decreases n.height, 3
    {
      ghost var log := scene.log;
      ActivateHereAndBelow(scene, n, preload, onLoad, onEnable, s);
      scene.Record(PostActivated(n, true));
      WalkLogJoin(log, n, s);
    }

    /** `_activateNodeRecursively` of a node that does not refuse, up to its
        post-activation hook. */
    method ActivateHereAndBelow(scene: Scene, n: Node, preload: UnsortedInvoker, onLoad: OneOffInvoker,
                                onEnable: OneOffInvoker, ghost s: Shot)
      requires n.Valid() && Walked(scene, s, n.repr, {}, []) && OwnedIn(scene, s, n.repr)
      requires !Refused(s, n) && onLoad != onEnable
      modifies n.repr`activeInHierarchy, n.repr`components, scene.CompsAt(n.repr)`objFlags, scene`log
      modifies preload`queue, onLoad`queue, onEnable`queue
      ensures scene.log == (old(scene.log) + CorruptionLog(n, SlotsOf(s, n))) + WalkLogBelow(n, |n.children|, s)
      ensures preload.queue == old(preload.queue) + Enqueued(Preload, Visit(n, s), s)
      ensures onLoad.queue == old(onLoad.queue) + Enqueued(OnLoad, Visit(n, s), s)
      ensures onEnable.queue == old(onEnable.queue) + Enqueued(OnEnable, Visit(n, s), s)
      ensures Walked(scene, s, n.repr, Reached(n, s), Visit(n, s))
      decreases n.height, 2
    {
      ghost var pq, lq, eq := preload.queue, onLoad.queue, onEnable.queue;
      ActivateHere(scene, n, preload, onLoad, onEnable, s);
      label own:
      ActivateChildren(scene, n, preload, onLoad, onEnable, s);
      assert unchanged@own(n);
      assert unchanged@own(scene.CompsAt({n}));
      JoinUp(scene, n, s);
      QueueJoin(pq, Preload, n, s);
      QueueJoin(lq, OnLoad, n, s);
      QueueJoin(eq, OnEnable, n, s);
    }

    /** The part of `_activateNodeRecursively` that handles the node itself: it is switched
        on in hierarchy and its components are activated. */
    method ActivateHere(scene: Scene, n: Node, preload: UnsortedInvoker, onLoad: OneOffInvoker, onEnable: OneOffInvoker,
                        ghost s: Shot)
      requires n.Valid() && Walked(scene, s, n.repr, {}, []) && OwnedIn(scene, s, n.repr)
      requires !Refused(s, n) && onLoad != onEnable
      modifies n`activeInHierarchy, n`components, scene.CompsAt({n})`objFlags, scene`log
      modifies preload`queue, onLoad`queue, onEnable`queue
      ensures scene.log == old(scene.log) + CorruptionLog(n, SlotsOf(s, n))
      ensures preload.queue == old(preload.queue) + Enqueued(Preload, ValidComps(SlotsOf(s, n)), s)
      ensures onLoad.queue == old(onLoad.queue) + Enqueued(OnLoad, ValidComps(SlotsOf(s, n)), s)
      ensures onEnable.queue == old(onEnable.queue) + Enqueued(OnEnable, ValidComps(SlotsOf(s, n)), s)
      ensures Walked(scene, s, {n}, Reached(n, s), Visit(n, s))
      ensures Walked(scene, s, n.repr - {n}, {}, [])
    {
      SplitOff(scene, n, s);
      label start:
      n.activeInHierarchy := true;
      ActivateComponents(scene, n, preload, onLoad, onEnable, s);
      assert unchanged@start(n.repr - {n});
      assert unchanged@start(scene.CompsAt(n.repr - {n}));
      NodeDone(scene, n, s);
    }

    /** The children loop of `_activateNodeRecursively`. */
    method ActivateChildren(scene: Scene, n: Node, preload: UnsortedInvoker, onLoad: OneOffInvoker, onEnable: OneOffInvoker,
                            ghost s: Shot)
      requires n.Valid() && Walked(scene, s, n.repr - {n}, {}, []) && OwnedIn(scene, s, n.repr) && onLoad != onEnable
      modifies (n.repr - {n})`activeInHierarchy, (n.repr - {n})`components, scene.CompsAt(n.repr - {n})`objFlags, scene`log
      modifies preload`queue, onLoad`queue, onEnable`queue
      ensures scene.log == old(scene.log) + WalkLogBelow(n, |n.children|, s)
      ensures preload.queue == old(preload.queue) + Enqueued(Preload, VisitBelow(n, |n.children|, s), s)
      ensures onLoad.queue == old(onLoad.queue) + Enqueued(OnLoad, VisitBelow(n, |n.children|, s), s)
      ensures onEnable.queue == old(onEnable.queue) + Enqueued(OnEnable, VisitBelow(n, |n.children|, s), s)
      ensures Walked(scene, s, n.repr - {n}, ReachedBelow(n, |n.children|, s), VisitBelow(n, |n.children|, s))
      decreases n.height, 1
    {
      ghost var w := WalkStart(scene.log, preload.queue, onLoad.queue, onEnable.queue);
      BelowStarts(scene, n, preload, onLoad, onEnable, s, w);
      var k := 0;
      while k < |n.children|
        invariant Below(scene, n, preload, onLoad, onEnable, s, w, k)
      {
        ActivateChild(scene, n, k, preload, onLoad, onEnable, s, w);
        k := k + 1;
      }
    }

    /** One pass of the children loop: the k-th child is walked when its own switch is on. */
    method ActivateChild(scene: Scene, n: Node, k: nat, preload: UnsortedInvoker, onLoad: OneOffInvoker, onEnable: OneOffInvoker,
                         ghost s: Shot, ghost w: WalkStart)
      requires Below(scene, n, preload, onLoad, onEnable, s, w, k) && k < |n.children| && onLoad != onEnable
      modifies (n.repr - {n})`activeInHierarchy, (n.repr - {n})`components, scene.CompsAt(n.repr - {n})`objFlags, scene`log
      modifies preload`queue, onLoad`queue, onEnable`queue
      ensures Below(scene, n, preload, onLoad, onEnable, s, w, k + 1)
      decreases n.height, 0, 1
    {
      var child := n.children[k];
      LogBelowStep(w.log, n, k, s);
      QueueBelowStep(w.preloadQueue, Preload, n, k, s);
      QueueBelowStep(w.onLoadQueue, OnLoad, n, k, s);
      QueueBelowStep(w.onEnableQueue, OnEnable, n, k, s);
      ChildSplit(scene, n, k, s);
      if child.active {
        WalkChild(scene, n, k, preload, onLoad, onEnable, s);
      } else {
        ChildSkipped(scene, n, k, s);
      }
    }

    /** The walk below the k-th child, whose switch is on, seen from the children loop. */
    method WalkChild(scene: Scene, n: Node, k: nat, preload: UnsortedInvoker, onLoad: OneOffInvoker, onEnable: OneOffInvoker,
                     ghost s: Shot)
      requires n.Valid() && k < |n.children| && OwnedIn(scene, s, n.repr) && onLoad != onEnable
      requires n.children[k].Valid() && OwnedIn(scene, s, n.children[k].repr)
      requires ActiveOf(s, n.children[k]) && Walked(scene, s, n.children[k].repr, {}, [])
      requires Walked(scene, s, Rest(n, k), ReachedBelow(n, k, s), VisitBelow(n, k, s))
      modifies n.children[k].repr`activeInHierarchy, n.children[k].repr`components
      modifies scene.CompsAt(n.children[k].repr)`objFlags, scene`log, preload`queue, onLoad`queue, onEnable`queue
      ensures scene.log == old(scene.log) + WalkLog(n.children[k], s)
      ensures preload.queue == old(preload.queue) + Enqueued(Preload, Visit(n.children[k], s), s)
      ensures onLoad.queue == old(onLoad.queue) + Enqueued(OnLoad, Visit(n.children[k], s), s)
      ensures onEnable.queue == old(onEnable.queue) + Enqueued(OnEnable, Visit(n.children[k], s), s)
      ensures Walked(scene, s, n.repr - {n}, ReachedBelow(n, k + 1, s), VisitBelow(n, k + 1, s))
      decreases n.height, 0, 0
    {
      var child := n.children[k];
      label before:
      ActivateRec(scene, child, preload, onLoad, onEnable, s);
      assert unchanged@before(Rest(n, k));
      assert unchanged@before(scene.CompsAt(Rest(n, k)));
      ChildJoin(scene, n, k, s);
    }

    /** `_deactivateNodeRecursively`, with the walks of path in progress above n: n is
        marked Deactivating and switched off in hierarchy, its enabled components are
        disabled, then each child still active in hierarchy is walked, and the node's
        post-activation hook runs with false; when a callback switches n back on, the walk
        of n stops there. Either way n leaves with its mark cleared, and the scene stands
        as Deact says. The state the walk starts from is the one s records, changed as t
        says. */
    method DeactivateRec(scene: Scene, n: Node, ghost s: Shot, ghost path: set<Node>, ghost t: Trail)
      requires scene.Shaped() && n in scene.nodes && Settled(scene, s, n.repr) && path !! n.repr
      requires Traced(scene, s, path, t) && InHierarchyAfter(s, t, n)
      modifies scene.nodes`activeInHierarchy, scene.nodes`objFlags, scene.comps`objFlags, scene`log
      ensures Traced(scene, s, path, Deact(n, path, s, t))
      decreases n.height, 3
    {
      ghost var flagged := path + {n};
      ghost var entered := t.(inHierarchy := t.inHierarchy[n := false]);
      Mark(scene, n, s, path, t);
      var aborted := DeactivateComponents(scene, n, s, flagged, entered);
      ghost var comps := DisableFrom(n, SlotsOf(s, n), 0, flagged, s, entered);
      if aborted {
        Unmark(scene, n, s, path, comps.trail);
      } else {
        DeactivateBelow(scene, n, s, path, comps.trail);
      }
    }

    /** The rest of `_deactivateNodeRecursively` once the component loop ran to its end:
        the children loop, then, unless n was switched back on, the post-activation hook;
        the mark is cleared either way. */
    method DeactivateBelow(scene: Scene, n: Node, ghost s: Shot, ghost path: set<Node>, ghost t: Trail)
      requires scene.Shaped() && n in scene.nodes && Settled(scene, s, n.repr) && path !! n.repr
      requires Traced(scene, s, path + {n}, t) && !InHierarchyAfter(s, t, n)
      modifies scene.nodes`activeInHierarchy, scene.nodes`objFlags, scene.comps`objFlags, scene`log
      ensures var below := DeactFrom(n, 0, path + {n}, s, t);
        Traced(scene, s, path,
          if below.aborted then below.trail else below.trail.(log := below.trail.log + [PostActivated(n, false)]))
      decreases n.height, 2
    {
      ghost var flagged := path + {n};
      var aborted := DeactivateChildren(scene, n, s, flagged, t);
      ghost var below := DeactFrom(n, 0, flagged, s, t);
      if aborted {
        Unmark(scene, n, s, path, below.trail);
      } else {
        Finish(scene, n, s, path, below.trail);
      }
    }

    /** The component loop of `_deactivateNodeRecursively`: the components present on
        entry whose own switch is on are disabled in order, until one of them switches n
        back on in hierarchy, which the result reports. */
    method DeactivateComponents(scene: Scene, n: Node, ghost s: Shot, ghost flagged: set<Node>, ghost t: Trail)
      returns (aborted: bool)
      requires scene.Shaped() && n in scene.nodes && Settled(scene, s, {n}) && n in flagged
      requires Traced(scene, s, flagged, t) && !InHierarchyAfter(s, t, n)
      modifies scene.nodes`activeInHierarchy, scene.comps`objFlags, scene`log
      ensures var r := DisableFrom(n, SlotsOf(s, n), 0, flagged, s, t);
        Traced(scene, s, flagged, r.trail) && aborted == r.aborted == InHierarchyAfter(s, r.trail, n)
    {
      ghost var cur := t;
      var originCount := |n.components|;
      var i := 0;
      while i < originCount
        invariant i <= originCount == |SlotsOf(s, n)|
        invariant Settled(scene, s, {n})
        invariant Traced(scene, s, flagged, cur) && !InHierarchyAfter(s, cur, n)
        invariant DisableFrom(n, SlotsOf(s, n), i, flagged, s, cur) == DisableFrom(n, SlotsOf(s, n), 0, flagged, s, t)
      {
        ghost var next;
        aborted, next := DisableSlot(scene, n, i, s, flagged, cur);
        if aborted {
          return;
        }
        cur := next;
        i := i + 1;
      }
      return false;
    }

    /** One pass of the component loop of `_deactivateNodeRecursively`: the component of
        slot i is disabled when it is enabled, and the result reports whether n was switched
        back on. */
    method DisableSlot(scene: Scene, n: Node, i: nat, ghost s: Shot, ghost flagged: set<Node>, ghost t: Trail)
      returns (aborted: bool, ghost next: Trail)
      requires scene.Shaped() && n in scene.nodes && Settled(scene, s, {n}) && n in flagged
      requires i < |SlotsOf(s, n)| && Traced(scene, s, flagged, t) && !InHierarchyAfter(s, t, n)
      modifies scene.nodes`activeInHierarchy, scene.comps`objFlags, scene`log
      ensures Traced(scene, s, flagged, next) && aborted == InHierarchyAfter(s, next, n)
      ensures aborted ==> DisableFrom(n, SlotsOf(s, n), i, flagged, s, t) == Outcome(next, true)
      ensures !aborted ==>
        DisableFrom(n, SlotsOf(s, n), i, flagged, s, t) == DisableFrom(n, SlotsOf(s, n), i + 1, flagged, s, next)
    {
      next := t;
      var slot := n.components[i];
      scene.OwnedSlotsAt(SlotsOf(s, n), n, i);
      if slot.Comp? && slot.c.enabled {
        DisableTraced(scene, slot.c, s, flagged, t);
        next := Disabled(s, flagged, slot.c, t);
        if n.activeInHierarchy {
          return true, next;
        }
      }
      aborted := false;
    }

    /** The children loop of `_deactivateNodeRecursively`: each child still active in
        hierarchy is walked in order, until one of the walks switches n back on in
        hierarchy, which the result reports. */
    method DeactivateChildren(scene: Scene, n: Node, ghost s: Shot, ghost flagged: set<Node>, ghost t: Trail)
      returns (aborted: bool)
      requires scene.Shaped() && n in scene.nodes && Settled(scene, s, n.repr) && n in flagged
      requires flagged !! n.repr - {n}
      requires Traced(scene, s, flagged, t) && !InHierarchyAfter(s, t, n)
      modifies scene.nodes`activeInHierarchy, scene.nodes`objFlags, scene.comps`objFlags, scene`log
      ensures var r := DeactFrom(n, 0, flagged, s, t);
        Traced(scene, s, flagged, r.trail) && aborted == r.aborted == InHierarchyAfter(s, r.trail, n)
      decreases n.height, 1
    {
      ghost var cur := t;
      var i := 0;
      var len := |n.children|;
      while i < len
        invariant i <= len == |n.children|
        invariant Traced(scene, s, flagged, cur) && !InHierarchyAfter(s, cur, n)
        invariant DeactFrom(n, i, flagged, s, cur) == DeactFrom(n, 0, flagged, s, t)
      {
        ghost var next;
        aborted, next := DeactivateChild(scene, n, i, s, flagged, cur);
        if aborted {
          return;
        }
        cur := next;
        i := i + 1;
      }
      return false;
    }

    /** One pass of the children loop of `_deactivateNodeRecursively`: child i is walked
        when it is still active in hierarchy, and the result reports whether n was switched
        back on. */
    method DeactivateChild(scene: Scene, n: Node, i: nat, ghost s: Shot, ghost flagged: set<Node>, ghost t: Trail)
      returns (aborted: bool, ghost next: Trail)
      requires scene.Shaped() && n in scene.nodes && Settled(scene, s, n.repr) && n in flagged
      requires flagged !! n.repr - {n} && i < |n.children|
      requires Traced(scene, s, flagged, t) && !InHierarchyAfter(s, t, n)
      modifies scene.nodes`activeInHierarchy, scene.nodes`objFlags, scene.comps`objFlags, scene`log
      ensures Traced(scene, s, flagged, next) && aborted == InHierarchyAfter(s, next, n)
      ensures DeactFrom(n, i, flagged, s, t) == if aborted then Outcome(next, true) else DeactFrom(n, i + 1, flagged, s, next)
      decreases n.height, 0
    {
      var child := n.children[i];
      next, aborted := t, false;
      if child.activeInHierarchy {
        DeactivateRec(scene, child, s, flagged, t);
        next := Deact(child, flagged, s, t);
        aborted := n.activeInHierarchy;
      }
    }
  }

  /** The entry of `_deactivateNodeRecursively`: n is marked Deactivating and switched off
      in hierarchy. */
  method Mark(scene: Scene, n: Node, ghost s: Shot, ghost path: set<Node>, ghost t: Trail)
    requires n in scene.nodes && n !in path && Traced(scene, s, path, t)
    modifies n`objFlags, n`activeInHierarchy
    ensures Traced(scene, s, path + {n}, t.(inHierarchy := t.inHierarchy[n := false]))
  {
    n.objFlags := With(n.objFlags, Deactivating);
    n.activeInHierarchy := false;
  }

  /** Every exit of `_deactivateNodeRecursively`: n's Deactivating mark is cleared. */
  method Unmark(scene: Scene, n: Node, ghost s: Shot, ghost path: set<Node>, ghost t: Trail)
    requires n in scene.nodes && n !in path && !Has(NodeFlagsOf(s, n), Deactivating)
    requires Traced(scene, s, path + {n}, t)
    modifies n`objFlags
    ensures Traced(scene, s, path, t)
  {
    SetThenClear(NodeFlagsOf(s, n), Deactivating);
    n.objFlags := Without(n.objFlags, Deactivating);
  }

  /** The normal exit of `_deactivateNodeRecursively`: n's post-activation hook runs with
      false, then n's Deactivating mark is cleared. */
  method Finish(scene: Scene, n: Node, ghost s: Shot, ghost path: set<Node>, ghost t: Trail)
    requires n in scene.nodes && n !in path && !Has(NodeFlagsOf(s, n), Deactivating)
    requires Traced(scene, s, path + {n}, t)
    modifies scene`log, n`objFlags
    ensures Traced(scene, s, path, t.(log := t.log + [PostActivated(n, false)]))
  {
    scene.Record(PostActivated(n, false));
    SetThenClear(NodeFlagsOf(s, n), Deactivating);
    n.objFlags := Without(n.objFlags, Deactivating);
  }

  /** After the walk from node, component c gets its onEnable call exactly when the walk
      queued it and the switch-off by an onLoad of the flush did not reach c's node: the
      cancellation that follows a switch-off leaves none of those nodes' components to
      enable. */
  lemma OnEnableSkipsSwitchedOff(node: Node, s: Shot, c: Component)
    requires node.Valid()
    ensures Called(OnEnable, c) in ActivationLog(node, s) <==>
      c in Enqueued(OnEnable, Visit(node, s), s) && c.node !in SwitchedOnLoad(node, s)
  {
    var visited := Visit(node, s);
    var loads, enables := Enqueued(OnLoad, visited, s), Enqueued(OnEnable, visited, s);
    var e := Called(OnEnable, c);
    WalkLogCallsNothing(node, s);
    DispatchCalls(Preload, Enqueued(Preload, visited, s));
    DispatchCalls(OnLoad, loads[..LoadStop(loads)]);
    DispatchCalls(OnEnable, EnablesAfterLoad(node, s));
    ExcludingMembers(enables, SwitchedOnLoad(node, s));
    assert e in LoadLog(node, s) <==>
      e in WalkLog(node, s) || e in Dispatch(Preload, Enqueued(Preload, visited, s)) || e in Dispatch(OnLoad, loads[..LoadStop(loads)]);
    assert e !in LoadLog(node, s);
  }

  /** After the walk from node, component c gets its onLoad call exactly when it is among
      the queued entries up to the first whose onLoad switches its node off. */
  lemma OnLoadStopsAtSwitchOff(node: Node, s: Shot, c: Component)
    requires node.Valid()
    ensures var loads := Enqueued(OnLoad, Visit(node, s), s);
      Called(OnLoad, c) in ActivationLog(node, s) <==> c in loads[..LoadStop(loads)]
  {
    var visited := Visit(node, s);
    var loads := Enqueued(OnLoad, visited, s);
    var e := Called(OnLoad, c);
    WalkLogCallsNothing(node, s);
    DispatchCalls(Preload, Enqueued(Preload, visited, s));
    DispatchCalls(OnLoad, loads[..LoadStop(loads)]);
    DispatchCalls(OnEnable, EnablesAfterLoad(node, s));
    assert e in LoadLog(node, s) <==>
      e in WalkLog(node, s) || e in Dispatch(Preload, Enqueued(Preload, visited, s)) || e in Dispatch(OnLoad, loads[..LoadStop(loads)]);
  }

  /** The preload queues of the tasks, in order. */
  ghost function PreloadQueues(ts: seq<Task>): (r: seq<seq<Component>>)
    reads PreloadsOf(ts)
    ensures |r| == |ts| && forall i :: 0 <= i < |ts| ==> r[i] == ts[i].preload.queue
  {
    seq(|ts|, i requires 0 <= i < |ts| reads PreloadsOf(ts) => ts[i].preload.queue)
  }

  /** The onLoad queues of the tasks, in order. */
  ghost function LoadQueues(ts: seq<Task>): (r: seq<seq<Component>>)
    reads OneOffsOf(ts)
    ensures |r| == |ts| && forall i :: 0 <= i < |ts| ==> r[i] == ts[i].onLoad.queue
  {
    seq(|ts|, i requires 0 <= i < |ts| reads OneOffsOf(ts) => ts[i].onLoad.queue)
  }

  /** The onEnable queues of the tasks, in order. */
  ghost function EnableQueues(ts: seq<Task>): (r: seq<seq<Component>>)
    reads OneOffsOf(ts)
    ensures |r| == |ts| && forall i :: 0 <= i < |ts| ==> r[i] == ts[i].onEnable.queue
  {
    seq(|ts|, i requires 0 <= i < |ts| reads OneOffsOf(ts) => ts[i].onEnable.queue)
  }

  /** Whether the onLoad run of the flush after the walk from node ends by switching the
      node of its last entry off. */
  ghost predicate LoadSwitchesOff(node: Node, s: Shot)
    requires node.Valid()
  {
    SwitchesOff(Enqueued(OnLoad, Visit(node, s), s))
  }

  /** The events of the first branch of `activateNode` before the announcement: the
      events up to the end of the onLoad run, then onEnable on every queued entry that the
      cancellation after a switch-off keeps. */
  ghost function ActivationLog(node: Node, s: Shot): seq<Event>
    requires node.Valid()
  {
    LoadLog(node, s) + Dispatch(OnEnable, EnablesAfterLoad(node, s))
  }

  /** The events of the walk from node and of the flush's first two runs: the walk's own
      events, then preload on every queued entry, then onLoad on the queued entries up to
      where the onLoad run stops. */
  ghost function LoadLog(node: Node, s: Shot): seq<Event>
    requires node.Valid()
  {
    var visited := Visit(node, s);
    var loads := Enqueued(OnLoad, visited, s);
    WalkLog(node, s) + Dispatch(Preload, Enqueued(Preload, visited, s)) + Dispatch(OnLoad, loads[..LoadStop(loads)])
  }

  /** The node that the last onLoad of the flush after the walk from node switches off,
      when it does; node itself otherwise. */
  ghost function LastLoaded(node: Node, s: Shot): Node
    requires node.Valid()
  {
    var loads := Enqueued(OnLoad, Visit(node, s), s);
    if SwitchesOff(loads) then loads[LoadStop(loads) - 1].node else node
  }

  /** Whether an onLoad run over loads, each node active in hierarchy, ends with an onLoad
      that switches its node off. */
  predicate SwitchesOff(loads: seq<Component>) {
    var k := LoadStop(loads);
    0 < k && loads[k - 1].deactivatesOnLoad
  }

  /** The onEnable queue as the flush after the walk from node runs it: after a switch-off
      every entry of a node the switch-off reached has been cancelled. */
  ghost function EnablesAfterLoad(node: Node, s: Shot): seq<Component>
    requires node.Valid()
  {
    var enables := Enqueued(OnEnable, Visit(node, s), s);
    if LoadSwitchesOff(node, s) then Excluding(enables, SwitchedOnLoad(node, s)) else enables
  }

  /** The nodes switched off when the last onLoad of the flush after the walk from node
      switches its node off: those the deactivation walk from that node reaches over the
      hierarchy the walk left. None when no onLoad switches its node off. */
  ghost function SwitchedOnLoad(node: Node, s: Shot): set<Node>
    requires node.Valid()
  {
    var m := LastLoaded(node, s);
    if !LoadSwitchesOff(node, s) then {}
    else if m.Valid() then SwitchedOver(m, s, Reached(node, s))
    else {m}
  }

  /** The nodes the deactivation walk from n reaches when a node is active in hierarchy if
      s records it so or it is among on: n, and below each child that is active in
      hierarchy, the nodes the walk from that child reaches. */
  ghost function SwitchedOver(n: Node, s: Shot, on: set<Node>): set<Node>
    requires n.Valid()
    decreases n.height, 1
  {
    {n} + SwitchedOverFrom(n, 0, s, on)
  }

  ghost function SwitchedOverFrom(n: Node, k: nat, s: Shot, on: set<Node>): set<Node>
    requires n.Valid() && k <= |n.children|
    decreases n.height, 0, |n.children| - k
  {
    if k == |n.children| then {}
    else
      var child := n.children[k];
      (if InHierarchyOf(s, child) || child in on then SwitchedOver(child, s, on) else {}) + SwitchedOverFrom(n, k + 1, s, on)
  }

  /** The entries of q attached to a node outside ns, in order. */
  function Excluding(q: seq<Component>, ns: set<Node>): (r: seq<Component>)
    ensures |r| <= |q|
  {
    if q == [] then []
    else Excluding(q[..|q| - 1], ns) + (if q[|q| - 1].node !in ns then [q[|q| - 1]] else [])
  }

  /** Excluding keeps exactly the entries not attached to a node of ns. */
  lemma {:induction false} ExcludingMembers(q: seq<Component>, ns: set<Node>)
    ensures forall c :: c in Excluding(q, ns) <==> c in q && c.node !in ns
  {
    if q != [] {
      ExcludingMembers(q[..|q| - 1], ns);
      assert q == q[..|q| - 1] + [q[|q| - 1]];
    }
  }

  /** When the inactive nodes among q's are exactly those of ns, cancelling q drops exactly
      the entries on ns. */
  lemma {:induction false} ActiveOnlyExcluding(q: seq<Component>, ns: set<Node>)
    requires forall c :: c in q ==> c.node.activeInHierarchy == (c.node !in ns)
    ensures ActiveOnly(q) == Excluding(q, ns)
  {
    if q != [] {
      assert forall c :: c in q[..|q| - 1] ==> c in q;
      ActiveOnlyExcluding(q[..|q| - 1], ns);
    }
  }

  /** The scene nodes as the first branch of `activateNode` from node leaves them, up to
      its announcement: a node's own switch is cleared only if the flush's last onLoad
      switched it off; a node is active in hierarchy if it was or the walk reached it,
      unless the switch-off reached it; the walk repaired the component arrays of the
      nodes it reached; node flags are as they were. */
  ghost predicate NodesSettled(scene: Scene, node: Node, s: Shot)
    requires node.Valid()
    reads scene.nodes`active, scene.nodes`activeInHierarchy, scene.nodes`objFlags, scene.nodes`components
  {
    Flushed(scene, s, Reached(node, s), StoppedOnLoad(node, s), SwitchedOnLoad(node, s))
  }

  /** The node whose own switch the flush's last onLoad cleared, if any. */
  ghost function StoppedOnLoad(node: Node, s: Shot): set<Node>
    requires node.Valid()
  {
    if LoadSwitchesOff(node, s) then {LastLoaded(node, s)} else {}
  }

  /** The scene nodes hold what s records for them, except that the nodes of reached are
      active in hierarchy unless in switched, and have had their component arrays
      repaired, and the nodes of stopped have their own switch cleared. */
  ghost predicate Flushed(scene: Scene, s: Shot, reached: set<Node>, stopped: set<Node>, switched: set<Node>)
    reads scene.nodes`active, scene.nodes`activeInHierarchy, scene.nodes`objFlags, scene.nodes`components
  {
    forall m :: m in scene.nodes ==>
      m.active == (ActiveOf(s, m) && m !in stopped) && m.objFlags == NodeFlagsOf(s, m) &&
      m.activeInHierarchy == ((InHierarchyOf(s, m) || m in reached) && m !in switched) &&
      m.components == if m in reached then Repaired(SlotsOf(s, m)) else SlotsOf(s, m)
  }

  /** The flags of component c once the walk from node is done: loaded if the walk
      visited it, as they were otherwise. */
  ghost function LoadedFlags(node: Node, s: Shot, c: Component): Flags
    requires node.Valid()
  {
    if c in Visit(node, s) then Loaded(FlagsOf(s, c)) else FlagsOf(s, c)
  }

  /** Every scene component as the walk and the onLoad run leave it. */
  ghost predicate CompsLoaded(scene: Scene, node: Node, s: Shot)
    requires node.Valid()
    reads scene.comps`enabled, scene.comps`objFlags
  {
    LoadedAt(scene, s, Visit(node, s))
  }

  /** Every scene component holds what s records for it, except that the components of
      visited are loaded. */
  ghost predicate LoadedAt(scene: Scene, s: Shot, visited: seq<Component>)
    reads scene.comps`enabled, scene.comps`objFlags
  {
    forall c :: c in scene.comps ==>
      c.enabled == EnabledOf(s, c) && c.objFlags == if c in visited then Loaded(FlagsOf(s, c)) else FlagsOf(s, c)
  }

  /** Every scene component as the first branch of `activateNode` leaves it: the entries
      the onEnable run calls are marked as enabled as well. */
  ghost predicate CompsEnabled(scene: Scene, node: Node, s: Shot)
    requires node.Valid()
    reads scene.comps`enabled, scene.comps`objFlags
  {
    forall c :: c in scene.comps ==> c.enabled == EnabledOf(s, c) && c.objFlags == ActivatedFlags(node, s, c)
  }

  /** The flags of component c once the first branch of `activateNode` from node is done:
      loaded if the walk visited it, and marked as enabled if the onEnable run called it. */
  ghost function ActivatedFlags(node: Node, s: Shot, c: Component): Flags
    requires node.Valid()
  {
    if c in EnablesAfterLoad(node, s) then With(LoadedFlags(node, s, c), IsOnEnableCalled) else LoadedFlags(node, s, c)
  }

  /** Once the first branch of `activateNode` from node is done, a component that was not
      marked as enabled is marked exactly when the activation log holds its onEnable call. */
  lemma {:induction false} EnabledMarkIsLogged(node: Node, s: Shot, c: Component)
    requires node.Valid() && !Has(FlagsOf(s, c), IsOnEnableCalled)
    ensures Has(ActivatedFlags(node, s, c), IsOnEnableCalled) <==> Called(OnEnable, c) in ActivationLog(node, s)
  {
    OnEnableSkipsSwitchedOff(node, s, c);
    ExcludingMembers(Enqueued(OnEnable, Visit(node, s), s), SwitchedOnLoad(node, s));
  }

  /** Over a hierarchy that agrees with w on n's subtree, the deactivation walk from n
      reaches the nodes Switched records. */
  lemma {:induction false} ActiveBelowSwitched(n: Node, s: Shot, on: set<Node>)
    requires n.Valid()
    requires forall x :: x in n.repr ==> x.activeInHierarchy == (InHierarchyOf(s, x) || x in on)
    ensures ActiveBelow(n) == SwitchedOver(n, s, on)
    decreases n.height, 1
  {
    ActiveBelowFromSwitched(n, 0, s, on);
  }

  lemma {:induction false} ActiveBelowFromSwitched(n: Node, k: nat, s: Shot, on: set<Node>)
    requires n.Valid() && k <= |n.children|
    requires forall x :: x in n.repr ==> x.activeInHierarchy == (InHierarchyOf(s, x) || x in on)
    ensures ActiveBelowFrom(n, k) == SwitchedOverFrom(n, k, s, on)
    decreases n.height, 0, |n.children| - k
  {
    if k < |n.children| {
      ActiveBelowFromSwitched(n, k + 1, s, on);
      if n.children[k].activeInHierarchy {
        ActiveBelowSwitched(n.children[k], s, on);
      }
    }
  }

  /** Once the walk from node is done, the switch-off by the flush's last onLoad, if any,
      starts at a scene node and reaches exactly SwitchedOnLoad. */
  lemma SwitchedOnLoadIs(scene: Scene, node: Node, s: Shot)
    requires scene.Shaped() && node in scene.nodes && OwnedIn(scene, s, node.repr)
    requires Walked(scene, s, scene.nodes, Reached(node, s), Visit(node, s))
    ensures LoadSwitchesOff(node, s) ==>
      LastLoaded(node, s) in scene.nodes && ActiveBelow(LastLoaded(node, s)) == SwitchedOnLoad(node, s)
  {
    if LoadSwitchesOff(node, s) {
      var loads := Enqueued(OnLoad, Visit(node, s), s);
      EnqueuedInScene(scene, node, s);
      assert loads[LoadStop(loads) - 1] in loads;
      ActiveBelowSwitched(LastLoaded(node, s), s, Reached(node, s));
    }
  }

  /** Walked of every scene node says how every scene component stands. */
  lemma WalkedComps(scene: Scene, node: Node, s: Shot)
    requires scene.Shaped() && node.Valid()
    requires Walked(scene, s, scene.nodes, Reached(node, s), Visit(node, s))
    ensures CompsLoaded(scene, node, s)
  {
    assert forall c :: c in scene.comps ==> c in scene.CompsAt(scene.nodes);
  }

  /** The queue contents a flush leaves on a task of the stack: cancelled after a
      switch-off, and otherwise as they were. */
  ghost predicate CancelledIf(off: bool, t: Task, preloads: seq<Component>, loads: seq<Component>, enables: seq<Component>)
    reads t.preload`queue, t.onLoad`queue, t.onEnable`queue
    reads NodesOf(preloads)`activeInHierarchy, NodesOf(loads)`activeInHierarchy, NodesOf(enables)`activeInHierarchy
  {
    if off then Cancelled(t, preloads, loads, enables)
    else t.preload.queue == preloads && t.onLoad.queue == loads && t.onEnable.queue == enables
  }

  /** The subtree switched off as the deactivation trail r says, with no node left marked. */
  ghost predicate Deactivated(scene: Scene, s: Shot, r: Trail)
    reads scene.nodes`activeInHierarchy, scene.nodes`objFlags, scene.comps`objFlags
  {
    SwitchesTraced(scene, s, r) && Marked(scene, s, {}) && FlagsTraced(scene, s, r)
  }

  /** The scene state as it stands, as the record the walks are specified against. */
  ghost function Snap(scene: Scene): Shot
    reads scene.nodes, scene.comps
  {
    Shot(map m | m in scene.nodes :: m.active, map m | m in scene.nodes :: m.activeInHierarchy,
         map m | m in scene.nodes :: m.objFlags, map m | m in scene.nodes :: m.components,
         map c | c in scene.comps :: c.enabled, map c | c in scene.comps :: c.objFlags)
  }

  /** The snapshot agrees with every scene node and component. */
  lemma SnapAgrees(scene: Scene)
    ensures var s := Snap(scene);
      forall m :: m in scene.nodes ==>
        ActiveOf(s, m) == m.active && InHierarchyOf(s, m) == m.activeInHierarchy &&
        NodeFlagsOf(s, m) == m.objFlags && SlotsOf(s, m) == m.components
    ensures var s := Snap(scene);
      forall c :: c in scene.comps ==> EnabledOf(s, c) == c.enabled && FlagsOf(s, c) == c.objFlags
  {
  }

  /** What `_deactivateNodeRecursively` demands of the subtree it starts on: the node is
      active in hierarchy, and no node of the subtree is under deactivation already or has a
      falsy component slot. */
  ghost predicate Deactivatable(scene: Scene, node: Node)
    reads node, node.repr
  {
    node.activeInHierarchy &&
    forall m :: m in node.repr ==> Null !in m.components && !Has(m.objFlags, Deactivating)
  }

  /** Once the walk from node is done, the node of every queued component is active in
      hierarchy: it is a node the walk reached. */
  lemma QueuedActive(scene: Scene, node: Node, s: Shot)
    requires node.Valid() && OwnedIn(scene, s, node.repr)
    requires Walked(scene, s, node.repr, Reached(node, s), Visit(node, s))
    ensures forall hook, c :: c in Enqueued(hook, Visit(node, s), s) ==> c.node.activeInHierarchy
  {
    VisitOwned(scene, node, s);
    ReachedWithin(node, s);
    forall hook: Hook
      ensures forall c :: c in Enqueued(hook, Visit(node, s), s) ==> c.node.activeInHierarchy
    {
      var queued := Enqueued(hook, Visit(node, s), s);
      EnqueuedMembers(hook, Visit(node, s), s);
      forall c | c in Elements(queued)
        ensures c.node.activeInHierarchy
      {
        assert c in queued;
      }
    }
  }

  /** The queued components of a walk are scene components on scene nodes. */
  lemma EnqueuedInScene(scene: Scene, node: Node, s: Shot)
    requires scene.Shaped() && node.Valid() && OwnedIn(scene, s, node.repr)
    ensures forall hook :: Elements(Enqueued(hook, Visit(node, s), s)) <= scene.comps
    ensures forall hook :: NodesOf(Enqueued(hook, Visit(node, s), s)) <= scene.nodes
  {
    VisitOwned(scene, node, s);
    forall hook: Hook
      ensures Elements(Enqueued(hook, Visit(node, s), s)) <= scene.comps
      ensures NodesOf(Enqueued(hook, Visit(node, s), s)) <= scene.nodes
    {
      var queued := Enqueued(hook, Visit(node, s), s);
      EnqueuedMembers(hook, Visit(node, s), s);
      forall c | c in Elements(queued)
        ensures c in scene.comps && c.node in scene.nodes
      {
        assert c in queued;
      }
    }
  }

  /** The first part of the flush at the end of the first branch of `activateNode`:
      preload, then onLoad up to the first entry whose node is inactive once its onLoad
      has run. The flush follows a walk, which leaves every queued node active in
      hierarchy, so the onLoad run stops right after the first entry whose onLoad switches
      its node off; off says whether that happened, and then that node's own switch is
      cleared and every node the deactivation walk from it reaches is off. */
  method LoadFlush(scene: Scene, task: Task, ghost stopped: set<Node>, ghost switched: set<Node>) returns (off: bool)
    requires task.onLoad != task.onEnable && task.onLoad.stage == LoadStage
    requires scene.Shaped() && NodesOf(task.onLoad.queue) <= scene.nodes
    requires forall c :: c in task.onLoad.queue ==> c.node.activeInHierarchy
    requires var loads := task.onLoad.queue; var k := LoadStop(loads);
      stopped == (if SwitchesOff(loads) then {loads[k - 1].node} else {}) &&
      switched == if SwitchesOff(loads) then ActiveBelow(loads[k - 1].node) else {}
    modifies task.preload`queue, task.onLoad`queue, scene`log, scene.nodes`active, scene.nodes`activeInHierarchy
    ensures task.preload.queue == [] && task.onLoad.queue == []
    ensures var loads := old(task.onLoad.queue);
      scene.log == old(scene.log) + Dispatch(Preload, old(task.preload.queue)) + Dispatch(OnLoad, loads[..LoadStop(loads)]) &&
      off == SwitchesOff(loads)
    ensures forall m :: m in scene.nodes ==> m.active == (old(m.active) && m !in stopped)
    ensures forall m :: m in scene.nodes ==> m.activeInHierarchy == (old(m.activeInHierarchy) && m !in switched)
  {
    task.preload.Invoke(scene);
    off := LoadRunOff(scene, task.onLoad, stopped, switched);
  }

  /** The onLoad run of that flush, over queued nodes that are all active in hierarchy. */
  method LoadRunOff(scene: Scene, onLoad: OneOffInvoker, ghost stopped: set<Node>, ghost switched: set<Node>)
    returns (off: bool)
    requires onLoad.stage == LoadStage
    requires scene.Shaped() && NodesOf(onLoad.queue) <= scene.nodes
    requires forall c :: c in onLoad.queue ==> c.node.activeInHierarchy
    requires var loads := onLoad.queue; var k := LoadStop(loads);
      stopped == (if SwitchesOff(loads) then {loads[k - 1].node} else {}) &&
      switched == if SwitchesOff(loads) then ActiveBelow(loads[k - 1].node) else {}
    modifies onLoad`queue, scene`log, scene.nodes`active, scene.nodes`activeInHierarchy
    ensures onLoad.queue == []
    ensures var loads := old(onLoad.queue);
      scene.log == old(scene.log) + Dispatch(OnLoad, loads[..LoadStop(loads)]) && off == SwitchesOff(loads)
    ensures forall m :: m in scene.nodes ==> m.active == (old(m.active) && m !in stopped)
    ensures forall m :: m in scene.nodes ==> m.activeInHierarchy == (old(m.activeInHierarchy) && m !in switched)
  {
    ghost var loads := onLoad.queue;
    LoadRunAllActive(loads);
    ghost var k := LoadStop(loads);
    assert 0 < k ==> loads[k - 1].node.activeInHierarchy by {
      if 0 < k {
        assert loads[k - 1] in loads;
      }
    }
    off := onLoad.Invoke(scene, loads);
  }

  /** The preload and onLoad runs of the flush after the walk from node. The scene nodes
      end as NodesSettled says and the components as CompsLoaded says; the node of an
      onEnable entry is active in hierarchy exactly when the switch-off did not reach it. */
  method FlushLoads(scene: Scene, node: Node, task: Task, ghost s: Shot) returns (off: bool)
    requires scene.Shaped() && node in scene.nodes && OwnedIn(scene, s, node.repr)
    requires Walked(scene, s, scene.nodes, Reached(node, s), Visit(node, s))
    requires task.onLoad != task.onEnable && task.onLoad.stage == LoadStage
    requires task.preload.queue == Enqueued(Preload, Visit(node, s), s)
    requires task.onLoad.queue == Enqueued(OnLoad, Visit(node, s), s)
    requires task.onEnable.queue == Enqueued(OnEnable, Visit(node, s), s)
    modifies task.preload`queue, task.onLoad`queue, scene`log, scene.nodes`active, scene.nodes`activeInHierarchy
    ensures task.preload.queue == [] && task.onLoad.queue == []
    ensures var loads := Enqueued(OnLoad, Visit(node, s), s);
      scene.log == old(scene.log) + Dispatch(Preload, Enqueued(Preload, Visit(node, s), s)) +
        Dispatch(OnLoad, loads[..LoadStop(loads)])
    ensures off == LoadSwitchesOff(node, s)
    ensures NodesSettled(scene, node, s) && CompsLoaded(scene, node, s)
    ensures forall c :: c in task.onEnable.queue ==> c.node.activeInHierarchy == (c.node !in SwitchedOnLoad(node, s))
  {
    ghost var loads := task.onLoad.queue;
    ghost var enables := task.onEnable.queue;
    WalkedPart(scene, s, scene.nodes, node.repr, Reached(node, s), Visit(node, s));
    EnqueuedInScene(scene, node, s);
    QueuedActive(scene, node, s);
    WalkedComps(scene, node, s);
    SwitchedOnLoadIs(scene, node, s);
    ghost var reached, stopped, switched := Reached(node, s), StoppedOnLoad(node, s), SwitchedOnLoad(node, s);
    assert forall c :: c in enables ==> c.node in NodesOf(enables);
    off := FlushWalked(scene, task, s, reached, Visit(node, s), stopped, switched);
  }

  /** FlushLoads over the sets it computes: the flush moves the scene nodes from what the
      walk left to Flushed. */
  method FlushWalked(scene: Scene, task: Task, ghost s: Shot, ghost reached: set<Node>, ghost visited: seq<Component>,
                     ghost stopped: set<Node>, ghost switched: set<Node>)
    returns (off: bool)
    requires Walked(scene, s, scene.nodes, reached, visited) && LoadedAt(scene, s, visited)
    requires task.onLoad != task.onEnable && task.onLoad.stage == LoadStage
    requires scene.Shaped() && NodesOf(task.onLoad.queue) <= scene.nodes
    requires forall c :: c in task.onLoad.queue ==> c.node.activeInHierarchy
    requires forall c :: c in task.onEnable.queue ==> c.node in scene.nodes && c.node.activeInHierarchy
    requires var loads := task.onLoad.queue; var k := LoadStop(loads);
      stopped == (if SwitchesOff(loads) then {loads[k - 1].node} else {}) &&
      switched == if SwitchesOff(loads) then ActiveBelow(loads[k - 1].node) else {}
    modifies task.preload`queue, task.onLoad`queue, scene`log, scene.nodes`active, scene.nodes`activeInHierarchy
    ensures task.preload.queue == [] && task.onLoad.queue == []
    ensures var loads := old(task.onLoad.queue);
      scene.log == old(scene.log) + Dispatch(Preload, old(task.preload.queue)) + Dispatch(OnLoad, loads[..LoadStop(loads)]) &&
      off == SwitchesOff(loads)
    ensures Flushed(scene, s, reached, stopped, switched) && LoadedAt(scene, s, visited)
    ensures forall c :: c in task.onEnable.queue ==> c.node.activeInHierarchy == (c.node !in switched)
  {
    off := LoadFlush(scene, task, stopped, switched);
  }

  /** A subtree of a valid scene, as it stands, is ready for the activation walk. */
  lemma SnapWalked(scene: Scene, node: Node)
    requires scene.Valid() && node in scene.nodes
    ensures node.Valid() && Walked(scene, Snap(scene), scene.nodes, {}, []) && OwnedIn(scene, Snap(scene), node.repr)
  {
    SnapAgrees(scene);
  }

  /** A deactivatable subtree of a valid scene, as it stands, is ready for the
      deactivation walk. */
  lemma SnapSettled(scene: Scene, node: Node)
    requires scene.Valid() && node in scene.nodes && Deactivatable(scene, node)
    ensures Settled(scene, Snap(scene), node.repr)
    ensures Traced(scene, Snap(scene), {}, Trail(scene.log, map[], map[]))
  {
    SnapAgrees(scene);
  }

  /** No invoker of a pooled task is an invoker of a soundly stacked task. */
  lemma PartsApart(stack: seq<Task>, pooled: seq<Task>)
    requires Sound(stack, pooled)
    ensures forall j :: 0 <= j < |pooled| ==>
      pooled[j].preload !in PreloadsOf(stack) && pooled[j].onLoad !in OneOffsOf(stack) && pooled[j].onEnable !in OneOffsOf(stack)
  {
    forall j | 0 <= j < |pooled|
      ensures pooled[j].preload !in PreloadsOf(stack) && pooled[j].onLoad !in OneOffsOf(stack) && pooled[j].onEnable !in OneOffsOf(stack)
    {
      assert forall i :: 0 <= i < |stack| ==> Apart(stack[i], pooled[j]);
    }
  }

  /** Each invoker of t holds the entries of the given queue whose node is active. */
  ghost predicate Cancelled(t: Task, preloads: seq<Component>, loads: seq<Component>, enables: seq<Component>)
    reads t.preload`queue, t.onLoad`queue, t.onEnable`queue
    reads NodesOf(preloads)`activeInHierarchy, NodesOf(loads)`activeInHierarchy, NodesOf(enables)`activeInHierarchy
  {
    t.preload.queue == ActiveOnly(preloads) && t.onLoad.queue == ActiveOnly(loads) && t.onEnable.queue == ActiveOnly(enables)
  }

  /** The loop of the second branch of `activateNode`: every invoker of every task on the
      activating stack drops its entries whose node is inactive. */
  method CancelStacked(stack: seq<Task>)
    requires forall i :: 0 <= i < |stack| ==> stack[i].onLoad != stack[i].onEnable
    requires forall i, j :: 0 <= i < j < |stack| ==> Apart(stack[i], stack[j])
    modifies PreloadsOf(stack)`queue, OneOffsOf(stack)`queue
    ensures forall i :: 0 <= i < |stack| ==>
      Cancelled(stack[i], old(stack[i].preload.queue), old(stack[i].onLoad.queue), old(stack[i].onEnable.queue))
  {
    ghost var preloads := seq(|stack|, j reads PartsOf(stack) => if 0 <= j < |stack| then stack[j].preload.queue else []);
    ghost var loads := seq(|stack|, j reads PartsOf(stack) => if 0 <= j < |stack| then stack[j].onLoad.queue else []);
    ghost var enables := seq(|stack|, j reads PartsOf(stack) => if 0 <= j < |stack| then stack[j].onEnable.queue else []);
    var i := 0;
    while i < |stack|
      invariant 0 <= i <= |stack|
      invariant forall j :: 0 <= j < i ==> Cancelled(stack[j], preloads[j], loads[j], enables[j])
      invariant forall j :: i <= j < |stack| ==>
        stack[j].preload.queue == preloads[j] && stack[j].onLoad.queue == loads[j] && stack[j].onEnable.queue == enables[j]
    {
      CancelStep(stack, i, preloads, loads, enables);
      i := i + 1;
    }
  }

  /** The body of that loop: the i-th task is cancelled, the others keep their queues. */
  method CancelStep(stack: seq<Task>, i: nat, ghost preloads: seq<seq<Component>>, ghost loads: seq<seq<Component>>,
                    ghost enables: seq<seq<Component>>)
    requires i < |stack| == |preloads| == |loads| == |enables|
    requires stack[i].onLoad != stack[i].onEnable
    requires forall j :: 0 <= j < |stack| && j != i ==> Apart(stack[j], stack[i])
    requires forall j :: 0 <= j < i ==> Cancelled(stack[j], preloads[j], loads[j], enables[j])
    requires stack[i].preload.queue == preloads[i] && stack[i].onLoad.queue == loads[i] && stack[i].onEnable.queue == enables[i]
    modifies stack[i].preload`queue, stack[i].onLoad`queue, stack[i].onEnable`queue
    ensures forall j :: 0 <= j <= i ==> Cancelled(stack[j], preloads[j], loads[j], enables[j])
  {
    label before:
    CancelTask(stack[i]);
    assert forall j :: 0 <= j < i ==> unchanged@before(stack[j].preload, stack[j].onLoad, stack[j].onEnable);
    assert forall j :: 0 <= j < i ==> unchanged@before(NodesOf(preloads[j])`activeInHierarchy);
    assert forall j :: 0 <= j < i ==> unchanged@before(NodesOf(loads[j])`activeInHierarchy);
    assert forall j :: 0 <= j < i ==> unchanged@before(NodesOf(enables[j])`activeInHierarchy);
  }

  /** One pass of the loop of the second branch of `activateNode`. */
  method CancelTask(task: Task)
    requires task.onLoad != task.onEnable
    modifies task.preload`queue, task.onLoad`queue, task.onEnable`queue
    ensures Cancelled(task, old(task.preload.queue), old(task.onLoad.queue), old(task.onEnable.queue))
  {
    ghost var preloads, loads := task.preload.queue, task.onLoad.queue;
    task.preload.CancelInactive();
    label one:
    task.onLoad.CancelInactive();
    label two:
    task.onEnable.CancelInactive();
    assert unchanged@one(NodesOf(preloads)`activeInHierarchy);
    assert unchanged@two(NodesOf(loads)`activeInHierarchy);
  }

  /** `disableComp(c)` seen from the deactivation walk: the scene moves on as Disabled says. */
  method DisableTraced(scene: Scene, c: Component, ghost s: Shot, ghost flagged: set<Node>, ghost t: Trail)
    requires scene.Shaped() && c in scene.comps && Traced(scene, s, flagged, t)
    modifies c`objFlags, scene`log, ReactivationTarget(c)`activeInHierarchy
    ensures Traced(scene, s, flagged, Disabled(s, flagged, c, t))
  {
    var target := c.reactivatesOnDisable;
    assert target != null ==> (Has(target.objFlags, Deactivating) <==> Flagged(s, flagged, target));
    DisabledTouches(s, flagged, c, t);
    ghost var r := Disabled(s, flagged, c, t);
    DisableComp(scene, c);
    forall d | d in scene.comps
      ensures d.objFlags == FlagsAfter(s, r, d)
    {
      if d != c {
        assert d.objFlags == old(d.objFlags) == FlagsAfter(s, t, d);
      }
    }
    forall m | m in scene.nodes
      ensures m.activeInHierarchy == InHierarchyAfter(s, r, m)
    {
      if m != target {
        assert m.activeInHierarchy == old(m.activeInHierarchy) == InHierarchyAfter(s, t, m);
      }
    }
  }

  /** The nodes of ns hold what s records for them, except that the nodes of reached are
      active in hierarchy and have had their component arrays repaired, and the components
      of visited carry the flags of a started onLoad. */
  ghost predicate Walked(scene: Scene, s: Shot, ns: set<Node>, reached: set<Node>, visited: seq<Component>)
    reads ns, scene.CompsAt(ns)
  {
    (forall m :: m in ns ==>
      m.active == ActiveOf(s, m) && m.objFlags == NodeFlagsOf(s, m) &&
      m.activeInHierarchy == (InHierarchyOf(s, m) || m in reached) &&
      m.components == if m in reached then Repaired(SlotsOf(s, m)) else SlotsOf(s, m)) &&
    (forall c :: c in scene.CompsAt(ns) ==>
      c.enabled == EnabledOf(s, c) &&
      c.objFlags == if c in visited then Loaded(FlagsOf(s, c)) else FlagsOf(s, c))
  }

  /** Walked of a set of nodes holds of each part of it. */
  lemma WalkedPart(scene: Scene, s: Shot, ns: set<Node>, part: set<Node>, reached: set<Node>, visited: seq<Component>)
    requires Walked(scene, s, ns, reached, visited) && part <= ns
    ensures Walked(scene, s, part, reached, visited)
  {
  }

  /** The walk from node, seen from the whole scene: the rest of the scene is as it was. */
  lemma WalkedWhole(scene: Scene, node: Node, s: Shot)
    requires scene.Shaped() && node in scene.nodes && OwnedIn(scene, s, node.repr)
    requires Walked(scene, s, node.repr, Reached(node, s), Visit(node, s))
    requires Walked(scene, s, scene.nodes - node.repr, {}, [])
    ensures Walked(scene, s, scene.nodes, Reached(node, s), Visit(node, s))
  {
    ReachedWithin(node, s);
    VisitOwned(scene, node, s);
    WalkedRetarget(scene, s, scene.nodes - node.repr, {}, [], Reached(node, s), Visit(node, s));
    WalkedUnion(scene, s, node.repr, scene.nodes - node.repr, Reached(node, s), Visit(node, s));
    assert node.repr + (scene.nodes - node.repr) == scene.nodes;
  }

  /** Walked of two sets of nodes is Walked of their union. */
  lemma WalkedUnion(scene: Scene, s: Shot, a: set<Node>, b: set<Node>, reached: set<Node>, visited: seq<Component>)
    requires Walked(scene, s, a, reached, visited) && Walked(scene, s, b, reached, visited)
    ensures Walked(scene, s, a + b, reached, visited)
  {
  }

  /** Walked only depends on which of ns's nodes are reached and which of their components
      are visited. */
  lemma WalkedRetarget(scene: Scene, s: Shot, ns: set<Node>, reached: set<Node>, visited: seq<Component>,
                       reached': set<Node>, visited': seq<Component>)
    requires Walked(scene, s, ns, reached, visited)
    requires forall m :: m in ns ==> (m in reached <==> m in reached')
    requires forall c :: c in scene.CompsAt(ns) ==> (c in visited <==> c in visited')
    ensures Walked(scene, s, ns, reached', visited')
  {
  }

  /** What the component loop needs of the node it starts on: the node's array is the
      recorded one and owned by it, and its components hold what s records for them. */
  ghost predicate NodeAt(scene: Scene, s: Shot, n: Node)
    reads n, scene.CompsAt({n})
  {
    n.components == SlotsOf(s, n) && scene.OwnedSlots(SlotsOf(s, n), n) &&
    (forall c :: c in scene.CompsAt({n}) ==> c.enabled == EnabledOf(s, c) && c.objFlags == FlagsOf(s, c))
  }

  /** What the component loop leaves alone on the node it runs on. */
  ghost predicate Kept(scene: Scene, s: Shot, n: Node)
    reads n`active, n`objFlags, scene.CompsAt({n})`enabled
  {
    n.active == ActiveOf(s, n) && n.objFlags == NodeFlagsOf(s, n) &&
    forall c :: c in scene.CompsAt({n}) ==> c.enabled == EnabledOf(s, c)
  }

  /** A node whose deactivation is in progress neither reaches nor visits anything. */
  lemma Refusal(scene: Scene, n: Node, s: Shot)
    requires n.Valid() && Walked(scene, s, n.repr, {}, []) && Has(n.objFlags, Deactivating)
    ensures Refused(s, n) && Reached(n, s) == {} && Visit(n, s) == [] && WalkLog(n, s) == [ReactivationRefused(n)]
    ensures forall hook :: Enqueued(hook, Visit(n, s), s) == []
  {
  }

  /** A node about to be walked: its own part is ready for the component loop, and the
      rest of its subtree is as recorded. */
  lemma SplitOff(scene: Scene, n: Node, s: Shot)
    requires n.Valid() && Walked(scene, s, n.repr, {}, []) && OwnedIn(scene, s, n.repr)
    ensures NodeAt(scene, s, n) && Kept(scene, s, n) && Walked(scene, s, n.repr - {n}, {}, [])
  {
    WalkedPart(scene, s, n.repr, n.repr - {n}, {}, []);
  }

  /** The node itself once its components are activated. */
  lemma NodeDone(scene: Scene, n: Node, s: Shot)
    requires n.Valid() && OwnedIn(scene, s, n.repr) && !Refused(s, n) && Kept(scene, s, n)
    requires n.components == Repaired(SlotsOf(s, n)) && n.activeInHierarchy
    requires forall c :: c in scene.CompsAt({n}) ==>
      c.objFlags == if Comp(c) in SlotsOf(s, n) then Loaded(FlagsOf(s, c)) else FlagsOf(s, c)
    ensures Walked(scene, s, {n}, Reached(n, s), Visit(n, s))
  {
    WalkSplits(scene, n, s);
  }

  /** The node and the walks below it together. */
  lemma JoinUp(scene: Scene, n: Node, s: Shot)
    requires n.Valid() && OwnedIn(scene, s, n.repr) && !Refused(s, n)
    requires Walked(scene, s, {n}, Reached(n, s), Visit(n, s))
    requires Walked(scene, s, n.repr - {n}, ReachedBelow(n, |n.children|, s), VisitBelow(n, |n.children|, s))
    ensures Walked(scene, s, n.repr, Reached(n, s), Visit(n, s))
  {
    WalkSplits(scene, n, s);
    WalkedRetarget(scene, s, n.repr - {n}, ReachedBelow(n, |n.children|, s), VisitBelow(n, |n.children|, s),
      Reached(n, s), Visit(n, s));
    WalkedUnion(scene, s, {n}, n.repr - {n}, Reached(n, s), Visit(n, s));
    assert {n} + (n.repr - {n}) == n.repr;
  }

  /** The log of a walk that does not refuse, as the walk writes it. */
  lemma WalkLogJoin(logged: seq<Event>, n: Node, s: Shot)
    requires n.Valid() && !Refused(s, n)
    ensures logged + WalkLog(n, s) ==
      ((logged + CorruptionLog(n, SlotsOf(s, n))) + WalkLogBelow(n, |n.children|, s)) + [PostActivated(n, true)]
  {
  }

  /** The queue of a walk that does not refuse, as the walk fills it. */
  lemma QueueJoin(queued: seq<Component>, hook: Hook, n: Node, s: Shot)
    requires n.Valid() && !Refused(s, n)
    ensures queued + Enqueued(hook, Visit(n, s), s) ==
      (queued + Enqueued(hook, ValidComps(SlotsOf(s, n)), s)) + Enqueued(hook, VisitBelow(n, |n.children|, s), s)
  {
    EnqueuedAppend(hook, ValidComps(SlotsOf(s, n)), VisitBelow(n, |n.children|, s), s);
  }

  /** What the children loop started from: the log and the queues. */
  datatype WalkStart = WalkStart(
    log: seq<Event>, preloadQueue: seq<Component>, onLoadQueue: seq<Component>, onEnableQueue: seq<Component>)

  /** Where the children loop stands once it has handled the first k children: what the
      walks below them did, on top of what it started from. */
  ghost predicate Below(scene: Scene, n: Node, preload: UnsortedInvoker, onLoad: OneOffInvoker, onEnable: OneOffInvoker,
                        s: Shot, w: WalkStart, k: nat)
    reads n.repr - {n}, scene.CompsAt(n.repr - {n}), scene, preload, onLoad, onEnable
  {
    n.Valid() && k <= |n.children| && OwnedIn(scene, s, n.repr) &&
    scene.log == w.log + WalkLogBelow(n, k, s) &&
    preload.queue == w.preloadQueue + Enqueued(Preload, VisitBelow(n, k, s), s) &&
    onLoad.queue == w.onLoadQueue + Enqueued(OnLoad, VisitBelow(n, k, s), s) &&
    onEnable.queue == w.onEnableQueue + Enqueued(OnEnable, VisitBelow(n, k, s), s) &&
    Walked(scene, s, n.repr - {n}, ReachedBelow(n, k, s), VisitBelow(n, k, s))
  }

  /** The children loop before its first pass. */
  lemma BelowStarts(scene: Scene, n: Node, preload: UnsortedInvoker, onLoad: OneOffInvoker, onEnable: OneOffInvoker,
                    s: Shot, w: WalkStart)
    requires n.Valid() && Walked(scene, s, n.repr - {n}, {}, []) && OwnedIn(scene, s, n.repr)
    requires w == WalkStart(scene.log, preload.queue, onLoad.queue, onEnable.queue)
    ensures Below(scene, n, preload, onLoad, onEnable, s, w, 0)
  {
    assert scene.log + [] == scene.log;
    assert preload.queue + [] == preload.queue;
    assert onLoad.queue + [] == onLoad.queue;
    assert onEnable.queue + [] == onEnable.queue;
  }

  /** The rest of the subtree below n once the k-th child's subtree is set aside. */
  ghost function Rest(n: Node, k: nat): set<Node>
    requires k < |n.children|
  {
    n.repr - {n} - n.children[k].repr
  }

  /** Before the k-th child is walked: its subtree is still as recorded, and apart from
      what the walks below the earlier children reached and visited. */
  lemma ChildSplit(scene: Scene, n: Node, k: nat, s: Shot)
    requires n.Valid() && k < |n.children| && OwnedIn(scene, s, n.repr)
    requires Walked(scene, s, n.repr - {n}, ReachedBelow(n, k, s), VisitBelow(n, k, s))
    ensures var child := n.children[k];
      child.Valid() && child.repr <= n.repr - {n} && OwnedIn(scene, s, child.repr) &&
      child.active == ActiveOf(s, child) &&
      Walked(scene, s, child.repr, {}, []) &&
      Walked(scene, s, Rest(n, k), ReachedBelow(n, k, s), VisitBelow(n, k, s))
  {
    var child := n.children[k];
    ReachedBelowWithin(n, k, s);
    VisitBelowOwned(scene, n, k, s);
    WalkedPart(scene, s, n.repr - {n}, child.repr, ReachedBelow(n, k, s), VisitBelow(n, k, s));
    WalkedRetarget(scene, s, child.repr, ReachedBelow(n, k, s), VisitBelow(n, k, s), {}, []);
    WalkedPart(scene, s, n.repr - {n}, Rest(n, k), ReachedBelow(n, k, s), VisitBelow(n, k, s));
  }

  /** After the k-th child, walked because its switch is on: its subtree and the rest
      together are where the loop stands after k + 1 children. */
  lemma ChildJoin(scene: Scene, n: Node, k: nat, s: Shot)
    requires n.Valid() && k < |n.children| && OwnedIn(scene, s, n.repr) && ActiveOf(s, n.children[k])
    requires Walked(scene, s, n.children[k].repr, Reached(n.children[k], s), Visit(n.children[k], s))
    requires Walked(scene, s, Rest(n, k), ReachedBelow(n, k, s), VisitBelow(n, k, s))
    ensures Walked(scene, s, n.repr - {n}, ReachedBelow(n, k + 1, s), VisitBelow(n, k + 1, s))
  {
    var child := n.children[k];
    ReachedBelowWithin(n, k, s);
    VisitBelowOwned(scene, n, k, s);
    ReachedWithin(child, s);
    VisitOwned(scene, child, s);
    WalkedRetarget(scene, s, child.repr, Reached(child, s), Visit(child, s),
      ReachedBelow(n, k + 1, s), VisitBelow(n, k + 1, s));
    WalkedRetarget(scene, s, Rest(n, k), ReachedBelow(n, k, s), VisitBelow(n, k, s),
      ReachedBelow(n, k + 1, s), VisitBelow(n, k + 1, s));
    WalkedUnion(scene, s, child.repr, Rest(n, k), ReachedBelow(n, k + 1, s), VisitBelow(n, k + 1, s));
    assert child.repr + Rest(n, k) == n.repr - {n};
  }

  /** A child whose switch is off is skipped: nothing more is reached or visited. */
  lemma ChildSkipped(scene: Scene, n: Node, k: nat, s: Shot)
    requires n.Valid() && k < |n.children| && !ActiveOf(s, n.children[k])
    ensures ReachedBelow(n, k + 1, s) == ReachedBelow(n, k, s) && VisitBelow(n, k + 1, s) == VisitBelow(n, k, s)
    ensures WalkLogBelow(n, k + 1, s) == WalkLogBelow(n, k, s)
  {
    assert VisitBelow(n, k, s) + [] == VisitBelow(n, k, s);
    assert WalkLogBelow(n, k, s) + [] == WalkLogBelow(n, k, s);
  }

  /** What one more pass of the children loop adds after what is already logged. */
  lemma LogBelowStep(logged: seq<Event>, n: Node, k: nat, s: Shot)
    requires n.Valid() && k < |n.children|
    ensures logged + WalkLogBelow(n, k + 1, s) ==
      (logged + WalkLogBelow(n, k, s)) + (if ActiveOf(s, n.children[k]) then WalkLog(n.children[k], s) else [])
  {
  }

  /** What one more pass of the children loop adds after what the invoker for hook holds. */
  lemma QueueBelowStep(queued: seq<Component>, hook: Hook, n: Node, k: nat, s: Shot)
    requires n.Valid() && k < |n.children|
    ensures queued + Enqueued(hook, VisitBelow(n, k + 1, s), s) ==
      (queued + Enqueued(hook, VisitBelow(n, k, s), s)) +
      (if ActiveOf(s, n.children[k]) then Enqueued(hook, Visit(n.children[k], s), s) else [])
  {
    var child := n.children[k];
    EnqueuedAppend(hook, VisitBelow(n, k, s), if ActiveOf(s, child) then Visit(child, s) else [], s);
  }

  /** What the walk from a node that does not refuse splits into: its own components,
      then those below it, which belong to other nodes of the subtree. */
  lemma WalkSplits(scene: Scene, n: Node, s: Shot)
    requires n.Valid() && OwnedIn(scene, s, n.repr) && !Refused(s, n)
    ensures var mine, below := ValidComps(SlotsOf(s, n)), VisitBelow(n, |n.children|, s);
      Visit(n, s) == mine + below &&
      Enqueued(Preload, Visit(n, s), s) == Enqueued(Preload, mine, s) + Enqueued(Preload, below, s) &&
      Enqueued(OnLoad, Visit(n, s), s) == Enqueued(OnLoad, mine, s) + Enqueued(OnLoad, below, s) &&
      Enqueued(OnEnable, Visit(n, s), s) == Enqueued(OnEnable, mine, s) + Enqueued(OnEnable, below, s) &&
      (forall c :: c in mine <==> Comp(c) in SlotsOf(s, n)) &&
      (forall c :: c in mine ==> c.node == n) &&
      (forall c :: c in below ==> c.node in ReachedBelow(n, |n.children|, s)) &&
      ReachedBelow(n, |n.children|, s) <= n.repr - {n}
  {
    var mine, below := ValidComps(SlotsOf(s, n)), VisitBelow(n, |n.children|, s);
    EnqueuedAppend(Preload, mine, below, s);
    EnqueuedAppend(OnLoad, mine, below, s);
    EnqueuedAppend(OnEnable, mine, below, s);
    ValidCompsMembers(SlotsOf(s, n));
    ValidCompsOwned(scene, SlotsOf(s, n), n);
    VisitBelowOwned(scene, n, |n.children|, s);
    ReachedBelowWithin(n, |n.children|, s);
  }

  /** The state the component loop starts from, and what handling every slot of it
      amounts to. */
  lemma LoopStarts(scene: Scene, n: Node, preload: UnsortedInvoker, onLoad: OneOffInvoker, onEnable: OneOffInvoker, s: Shot)
    returns (start: LoopStart)
    requires NodeAt(scene, s, n) && n.activeInHierarchy
    ensures Fits(scene, n, start) && Progress(scene, n, preload, onLoad, onEnable, start, 0, 0)
    ensures start.slots == n.components == SlotsOf(s, n) && start.shot == s
    ensures Pending(start.slots, |start.slots|) == Repaired(n.components)
    ensures CorruptionLogBefore(n, start.slots, |start.slots|) == CorruptionLog(n, n.components)
    ensures start.preloadQueue == preload.queue && start.onLoadQueue == onLoad.queue &&
      start.onEnableQueue == onEnable.queue && start.log == scene.log
    ensures ChosenBefore(start.slots, Preload, s, |start.slots|) == Enqueued(Preload, ValidComps(n.components), s)
    ensures ChosenBefore(start.slots, OnLoad, s, |start.slots|) == Enqueued(OnLoad, ValidComps(n.components), s)
    ensures ChosenBefore(start.slots, OnEnable, s, |start.slots|) == Enqueued(OnEnable, ValidComps(n.components), s)
  {
    var slots := n.components;
    start := LoopStart(s, slots, preload.queue, onLoad.queue, onEnable.queue, scene.log);
    PendingEnds(slots);
    CorruptionLogBeforeIs(n, slots, |slots|);
    ChosenBeforeIs(Preload, slots, s, |slots|);
    ChosenBeforeIs(OnLoad, slots, s, |slots|);
    ChosenBeforeIs(OnEnable, slots, s, |slots|);
    assert slots[..|slots|] == slots;
  }

  /** What the component loop started from, as values: the recorded state, the slot
      array, and the invokers' queues and the log. */
  datatype LoopStart = LoopStart(
    shot: Shot, slots: seq<Slot>,
    preloadQueue: seq<Component>, onLoadQueue: seq<Component>, onEnableQueue: seq<Component>,
    log: seq<Event>)

  /** What the component loop started from and does not change: the slots belong to the
      node, and its components' enabled switches are the recorded ones. */
  ghost predicate Fits(scene: Scene, n: Node, start: LoopStart)
    reads scene.CompsAt({n})`enabled
  {
    scene.OwnedSlots(start.slots, n) &&
    (forall c :: c in scene.CompsAt({n}) ==> c.enabled == EnabledOf(start.shot, c))
  }

  /** Where the component loop stands once it has handled the first k slots of the array
      it started from, at loop index i: the bad slots among them are spliced out and
      reported, their components carry the loaded flags, and each invoker holds, after
      what it held, the wanted components among them in order. */
  ghost predicate Progress(scene: Scene, n: Node, preload: UnsortedInvoker, onLoad: OneOffInvoker, onEnable: OneOffInvoker,
                           start: LoopStart, k: nat, i: int)
    reads n, preload, onLoad, onEnable, scene, scene.CompsAt({n})
  {
    var slots, s := start.slots, start.shot;
    k <= |slots| && i == ValidBefore(slots, k) &&
    n.components == Pending(slots, k) && n.activeInHierarchy &&
    (forall c :: c in scene.CompsAt({n}) ==>
      c.objFlags == if Comp(c) in slots[..k] then Loaded(FlagsOf(s, c)) else FlagsOf(s, c)) &&
    preload.queue == start.preloadQueue + ChosenBefore(slots, Preload, s, k) &&
    onLoad.queue == start.onLoadQueue + ChosenBefore(slots, OnLoad, s, k) &&
    onEnable.queue == start.onEnableQueue + ChosenBefore(slots, OnEnable, s, k) &&
    scene.log == start.log + CorruptionLogBefore(n, slots, k)
  }
}
