# Node activator

A Dafny model of the engine's node activator (`cocos2d/core/node-activator.js`). The
activator switches a subtree of scene nodes on or off, and with it the components attached
to those nodes. It fires the components' lifecycle callbacks in a fixed order.

- **Switching a subtree on** (`activateNode(node, true)`):
  - It takes an activate task from a small pool and pushes it on the activator's stack.
  - It walks the subtree depth first (`_activateNodeRecursively`). The walk sets
    `_activeInHierarchy` and visits only the components present when each node is entered.
  - A corrupted component slot is reported and spliced out, with the loop index and bound
    rewound.
  - The walk recurses only into children whose own `_active` switch is on. It queues
    `__preload`, `onLoad` and `onEnable` in the task's three invokers.
  - After the walk, the invokers are flushed in the order preload, onLoad, onEnable. The
    onLoad run stops after an entry whose `onLoad` switched its node off. That switch-off
    re-enters the activator, which takes the node and its active descendants out of the
    hierarchy and drops the inactive entries of every stacked task, the running one
    included, so the components on those nodes get no `onEnable`.
  - The task is then popped and returned to the pool.
- **Switching a subtree off** (`activateNode(node, false)`):
  - The eager walk (`_deactivateNodeRecursively`) marks each node `Deactivating` and disables
    its enabled components.
  - The walk stops as soon as an `onDisable` switches the node back on. The mark is cleared
    on every exit.
  - Afterwards, every task on the stack drops its queued entries whose node is now inactive.
- **Announcement.** Either way, the change is announced last.

## How the model is built

- **State.**
  - Nodes, components, invokers, the task pool and the activator are classes whose fields
    the methods update in place.
  - The node tree's shape is fixed.
  - `_objFlags` is a `bv32` with the four bits this core uses.
  - A node's `_components` array is a `seq<Slot>`. A slot holds a component, some other
    truthy value, or a falsy one.
- **Callbacks and log.** User callbacks, error reports, post-activation hooks and the
  `active-in-hierarchy-changed` emit are appended to a scene-wide event log. Two user
  effects are modelled:
  - an `onLoad` may switch its own node off, with the cancellation that follows;
  - an `onDisable` may switch a node under deactivation back on.
- **Specifications.**
  - Each walk is proved against a ghost function of the scene as it stands when the walk
    starts (`Shot`).
  - The activation walk is specified by `Reached`, `Visit`, `WalkLog` and `Enqueued`.
  - The deactivation walk is specified by `Deact` and its `Trail`.
  - The scene a switch-on leaves is stated node by node (`NodesSettled`) and component by
    component (`CompsEnabled`) in terms of the same functions and of `SwitchedOnLoad`, the
    nodes the onLoad switch-off takes out of the hierarchy.
  - Lemmas prove what these functions mean. One says that every visited component is
    visited once. `OnEnableSkipsSwitchedOff` and `OnLoadStopsAtSwitchOff` say exactly which
    components get onLoad and onEnable during an activation. `DeactQuiet` gives the exact
    effect of a deactivation in which no callback reactivates anything, and `DeactAborts`
    that of one an onDisable cuts short.

## Model

| member | source | states |
|---|---|---|
| ActivateTasks.UnsortedInvoker.constructor | cocos2d/core/node-activator.js:45-46 | a new preload invoker has an empty queue |
| ActivateTasks.UnsortedInvoker.Add | cocos2d/core/node-activator.js:47-49 | `add` appends the component at the end of the queue |
| ActivateTasks.UnsortedInvoker.Remove | cocos2d/core/node-activator.js:50-52 | `remove` leaves the queue as the unordered removal `FastRemoved` of the component |
| ActivateTasks.FastRemoved | cocos2d/core/node-activator.js:50-52 | removing a present entry shortens the queue by one and removes exactly one occurrence from its multiset; an absent entry leaves the queue unchanged |
| ActivateTasks.UnsortedInvoker.CancelInactive | cocos2d/core/node-activator.js:53-55 | `cancelInactive` keeps exactly the entries whose node is active in hierarchy, in their order |
| ActivateTasks.UnsortedInvoker.Invoke | cocos2d/core/node-activator.js:56-59 | `invoke` calls `__preload` on every queued entry in queue order, then leaves the queue empty |
| ActivateTasks.CreateActivateTask | cocos2d/core/node-activator.js:62-80 | a new task has three fresh, empty invokers; its onLoad and onEnable invokers are distinct and bound to the onLoad and onEnable dispatch |
| ActivateTasks.TaskPool.constructor | cocos2d/core/node-activator.js:82 | the pool starts empty and within its bound |
| ActivateTasks.TaskPool.Get | cocos2d/core/node-activator.js:84-86 | `getActivateTask` pops the last pooled task when there is one and creates a fresh task otherwise; the result is idle and shares no invoker with the pool; the pool stays within MAX_POOL_SIZE |
| ActivateTasks.TaskPool.Put | cocos2d/core/node-activator.js:88-92 | `putActivateTask` appends the task only while the pool holds fewer than MAX_POOL_SIZE (4) tasks and drops it otherwise; the pool stays bounded, idle and disjoint |
| CompScheduler.LoadRun | cocos2d/core/node-activator.js:74 | the number of onLoad calls the breaking dispatch makes is at least one for a non-empty queue and at most its length |
| CompScheduler.LoadStop | cocos2d/core/node-activator.js:74 | the stop computed from the components alone: no entry before the last one run is one whose onLoad switches its node off, and the last one run is such an entry unless the queue is exhausted |
| CompScheduler.LoadRunAllActive | cocos2d/core/node-activator.js:74 | when every queued entry's node is active in hierarchy as the dispatch starts, the dispatch stops exactly where `LoadStop` says |
| CompScheduler.InvokeOnLoad | cocos2d/core/node-activator.js:74 | the onLoad dispatch calls onLoad on the queue's entries in order, up to and including the first entry whose node is inactive after its onLoad, and no further; only the last entry run can clear its node's own switch; the result says whether it switched an active node off, and then exactly the nodes the deactivation walk from that node reaches leave the hierarchy |
| CompScheduler.LoadOne | cocos2d/core/node-activator.js:74 | one pass of that loop: the onLoad call is logged, and an onLoad that switches its node off clears that node's switch and takes the node and the nodes its deactivation walk reaches out of the hierarchy, leaving every other scene node alone |
| CompScheduler.InvokeOnEnable | cocos2d/core/node-activator.js:78 | the onEnable dispatch calls onEnable on every entry in order and marks as enabled exactly the entries whose node is active in hierarchy |
| CompScheduler.OneOffInvoker.constructor | cocos2d/core/node-activator.js:77-78 | a new one-off invoker is empty and bound to its stage |
| CompScheduler.OneOffInvoker.Add | cocos2d/core/node-activator.js:287 | `add` appends the component at the end of the queue |
| CompScheduler.OneOffInvoker.CancelInactive | cocos2d/core/node-activator.js:222-223 | `cancelInactive` keeps exactly the entries whose node is active in hierarchy, in their order |
| CompScheduler.OneOffInvoker.Invoke | cocos2d/core/node-activator.js:207-208 | `invoke` runs the stage's dispatch: the breaking onLoad dispatch, reporting whether its last onLoad switched its node off and which nodes then left the hierarchy, or the full onEnable dispatch, which marks the entries whose node is active; the queue ends empty |
| CompScheduler.StableRemoveInactive | cocos2d/core/node-activator.js:54 | the stable filter returns exactly the active-in-hierarchy entries, in order |
| CompScheduler.ActiveOnlyMembers | cocos2d/core/node-activator.js:53-55 | a component survives cancellation if and only if it was queued and its node is active in hierarchy |
| CompScheduler.ActiveOnlyIdempotent | cocos2d/core/node-activator.js:53-55 | cancelling twice is the same as cancelling once |
| CompScheduler.ActiveOnlyAppend | cocos2d/core/node-activator.js:53-55 | cancelling a concatenation is the concatenation of the cancelled parts, so the order is kept |
| CompScheduler.EnableComp | cocos2d/core/node-activator.js:301 | `enableComp` leaves an enabled component alone; otherwise it queues the component on the given invoker, or without one calls onEnable and marks the component while its node is active |
| CompScheduler.DisableComp | cocos2d/core/node-activator.js:174 | `disableComp` calls onDisable exactly when the component is marked enabled, clears the mark either way, and may only switch back on a node under deactivation |
| SceneGraph.ValidCompsMembers | cocos2d/core/node-activator.js:139 | a component is among a slot array's valid components if and only if some slot holds it |
| SceneGraph.RepairedKeeps | cocos2d/core/node-activator.js:135-147 | after every non-component slot is spliced out, only component slots remain, the same components in the same order |
| SceneGraph.IndexOf | cocos2d/core/node-activator.js:100 | the index found is that of the first occurrence, or -1 exactly when the value is absent |
| SceneGraph.RemoveAtSplices | cocos2d/core/node-activator.js:103 | `removeAt` splices out exactly the slot at the index |
| SceneGraph.DispatchAppend | cocos2d/core/node-activator.js:206-208 | the events of dispatching to a concatenation are those of each part, in order |
| SceneGraph.DispatchCalls | cocos2d/core/node-activator.js:206-208 | an event is among those of a dispatch if and only if it is a call of that hook on one of the dispatched components |
| SceneGraph.Scene.CallOnLoad | cocos2d/core/node-activator.js:74 | a component's onLoad is logged; one that switches its node off clears the node's own switch, and when the node was active in hierarchy the result is true and the node and every node the deactivation walk from it reaches leave the hierarchy, while the rest of the subtree is untouched |
| SceneGraph.SwitchOff | cocos2d/core/node-activator.js:158-198 | the hierarchy part of `_deactivateNodeRecursively`: exactly the node and the nodes below it reached through children active in hierarchy (`ActiveBelow`) leave the hierarchy; no other node of the subtree changes |
| SceneGraph.ActiveBelowWithin | cocos2d/core/node-activator.js:183-194 | the deactivation walk from a node stays inside its subtree |
| SceneGraph.ActiveBelowFromWithin | cocos2d/core/node-activator.js:183-194 | through the children from k on, the walk reaches only nodes below those children, none below an earlier child, and a node below child i only through child i |
| Activation.ComponentCorrupted | cocos2d/core/node-activator.js:94-105 | `_componentCorrupted` reports the node and index, then removes the first occurrence of a truthy slot value, or the slot at the index when it is falsy |
| Activation.NodeActivator.constructor | cocos2d/core/node-activator.js:111-114 | a new activator has an empty activating stack |
| Activation.NodeActivator.Reset | cocos2d/core/node-activator.js:117 | `reset` empties the activating stack |
| Activation.NodeActivator.ActivateNode | cocos2d/core/node-activator.js:200-227 | the stack is the same before and after. Switching on logs `ActivationLog` and then the announcement, and leaves every scene node and component as `NodesSettled` and `CompsEnabled` say: the reached nodes active in hierarchy and repaired except those the onLoad switch-off reached, the visited components loaded, and exactly the onEnable calls of the log marked; when an onLoad switched its node off every stacked task is cancelled, otherwise the stacked tasks are untouched. Switching off leaves the scene as `Deact` says, clears every mark, cancels the inactive entries of every stacked task, then announces |
| Activation.NodeActivator.ActivateTree | cocos2d/core/node-activator.js:202-226 | get, push, walk, flush, pop, put and announce: the stack is restored, the log is `ActivationLog` followed by the announcement, the scene stands as `NodesSettled` and `CompsEnabled` say, and the earlier tasks are cancelled exactly when an onLoad switched its node off |
| Activation.NodeActivator.PushTask | cocos2d/core/node-activator.js:202-203 | the task `getActivateTask` yields is pushed on the stack; the pool shrinks by that task or stays empty |
| Activation.NodeActivator.PopTask | cocos2d/core/node-activator.js:210-211 | the stack loses its top task, which is returned to the pool only while the pool is below MAX_POOL_SIZE |
| Activation.NodeActivator.RunAndPop | cocos2d/core/node-activator.js:205-226 | with the task on top, the walk and flush produce `ActivationLog` and the scene state of `NodesSettled` and `CompsEnabled`, the stack then loses the task, the change is announced, and the tasks below are cancelled exactly when an onLoad switched its node off |
| Activation.NodeActivator.RunThenPop | cocos2d/core/node-activator.js:205-226 | the same, from a recorded scene state |
| Activation.NodeActivator.PopAndAnnounce | cocos2d/core/node-activator.js:210-226 | the pop and `putActivateTask`, then the announcement: the stack loses its top, the log gains the announcement, and the scene state and the cancellation outcome of the tasks below stand as the flush left them |
| Activation.NodeActivator.PopKeeping | cocos2d/core/node-activator.js:210-211 | popping the idle task keeps the tasks below as they were, cancelled or not |
| Activation.NodeActivator.RunTask | cocos2d/core/node-activator.js:205-208 | the walk and flush log `ActivationLog`, leave the scene as `NodesSettled` and `CompsEnabled` say, leave the stack unchanged and the task idle again, and cancel the tasks below exactly when an onLoad switched its node off |
| Activation.NodeActivator.WalkOnTop | cocos2d/core/node-activator.js:205-207 | with the task on top, the walk and the preload and onLoad runs log `LoadLog` and leave the scene as `NodesSettled` and `CompsLoaded` say, leave the tasks below untouched, and leave the onEnable queue holding every visited component that wants onEnable, whose node is active in hierarchy exactly when the onLoad switch-off did not reach it |
| Activation.NodeActivator.WalkPooled | cocos2d/core/node-activator.js:205-207 | the same for a task outside the pool, which keeps the pool valid |
| Activation.NodeActivator.WalkAndLoad | cocos2d/core/node-activator.js:205-207 | the walk, then the preload run, then the onLoad run up to its break: the log grows by `LoadLog`, the preload and onLoad queues end empty, the scene stands as `NodesSettled` and `CompsLoaded` say, and the result says whether an onLoad switched its node off |
| Activation.NodeActivator.WalkScene | cocos2d/core/node-activator.js:205 | the walk from the node seen from the whole scene: the three queues hold the wanted visited components in visit order, the log grows by `WalkLog`, the reached nodes and visited components change as `Walked` says, and every other scene node and component is untouched |
| Activation.LoadFlush | cocos2d/core/node-activator.js:206-207 | preload runs on every queued entry, then onLoad up to and including the first entry that switches its node off; that node's own switch is cleared, and exactly the nodes its deactivation walk reaches leave the hierarchy |
| Activation.LoadRunOff | cocos2d/core/node-activator.js:207 | the onLoad run over entries whose nodes are all active in hierarchy stops where `LoadStop` says and switches off exactly the last entry's node and the nodes its deactivation walk reaches, when that entry switches its node off |
| Activation.FlushLoads | cocos2d/core/node-activator.js:206-207 | after the walk, the preload and onLoad runs log their dispatches, leave the scene as `NodesSettled` and `CompsLoaded` say, and leave an onEnable entry's node active in hierarchy exactly when the switch-off did not reach it |
| Activation.FlushWalked | cocos2d/core/node-activator.js:206-207 | the same over the sets of reached, stopped and switched-off nodes: the scene moves from what the walk left to `Flushed`, and the components stay loaded |
| Activation.NodeActivator.EnableOnTop | cocos2d/core/node-activator.js:208 | the onEnable run after the onLoad run: the log grows by onEnable on `EnablesAfterLoad`, the components move from `CompsLoaded` to `CompsEnabled`, the nodes stay as `NodesSettled` says, and the tasks below are cancelled exactly when an onLoad switched its node off |
| Activation.NodeActivator.CancelThenEnable | cocos2d/core/node-activator.js:218-224 | the cancellation done by the switch-off inside onLoad, then the onEnable run of what is left: exactly the entries not on a switched-off node are called and marked as enabled, and every other component keeps its flags |
| Activation.NodeActivator.CancelIfOff | cocos2d/core/node-activator.js:218-224 | after an onLoad switch-off every stacked task, the running one included, keeps only the entries whose node is active, so the running onEnable queue loses exactly the components on the nodes the switch-off reached |
| Activation.NodeActivator.EnableRun | cocos2d/core/node-activator.js:208 | the onEnable dispatch calls onEnable on the whole remaining queue, marks exactly the called entries whose node is active, leaves the task idle, and does not disturb the tasks below |
| Activation.OnEnableSkipsSwitchedOff | cocos2d/core/node-activator.js:205-224 | onEnable is called on a component during activation if and only if the walk queued it for onEnable and its node is not among those the onLoad switch-off took out of the hierarchy |
| Activation.OnLoadStopsAtSwitchOff | cocos2d/core/node-activator.js:205-207 | onLoad is called on a component during activation if and only if it is among the queued onLoad entries up to the first one that switches its node off |
| Activation.EnabledMarkIsLogged | cocos2d/core/node-activator.js:205-208 | once the first branch of `activateNode` is done, a component not already marked as enabled is marked exactly when the activation log holds its onEnable call |
| Activation.ActiveBelowSwitched | cocos2d/core/node-activator.js:158-198 | on a scene where the nodes active in hierarchy are those recorded so or reached by the walk, the deactivation walk from a node reaches exactly `SwitchedOver`, a function of the recorded state alone |
| Activation.ActiveBelowFromSwitched | cocos2d/core/node-activator.js:183-194 | the same for the children loop from child k |
| Activation.SwitchedOnLoadIs | cocos2d/core/node-activator.js:205-207 | after the walk, the nodes the onLoad switch-off takes out of the hierarchy are those the deactivation walk from the switched-off node reaches |
| Activation.WalkedWhole | cocos2d/core/node-activator.js:205 | the walk's effect on the subtree, together with the rest of the scene untouched, is the walk's effect on the whole scene |
| Activation.WalkedComps | cocos2d/core/node-activator.js:135-147 | after the walk every scene component stands as `CompsLoaded` says: visited components loaded, the others as they were |
| Activation.Excluding | cocos2d/core/node-activator.js:222-223 | removing the components of a set of nodes from a queue never lengthens it |
| Activation.ExcludingMembers | cocos2d/core/node-activator.js:222-223 | a component survives the removal if and only if it was queued and its node is not among the removed nodes |
| Activation.ActiveOnlyExcluding | cocos2d/core/node-activator.js:53-55 | when the queued nodes that are off are exactly those of a set, cancelling the inactive entries is removing that set's components |
| Activation.QueuedActive | cocos2d/core/node-activator.js:131-156 | after the walk, the node of every queued component is active in hierarchy |
| Activation.NodeActivator.DeactivateBranch | cocos2d/core/node-activator.js:213-226 | the deactivation walk, then cancellation on every stacked task, then the announcement |
| Activation.NodeActivator.DeactivateTree | cocos2d/core/node-activator.js:214 | the deactivation walk from the scene as it stands leaves it as `Deact` says, with no node left marked, and does not touch the activator or the stacked tasks' queues |
| Activation.NodeActivator.DeactivateWalk | cocos2d/core/node-activator.js:214 | the deactivation walk, from a recorded scene state, leaves the scene as `Deact` says with no node left marked |
| Activation.NodeActivator.CancelAndAnnounce | cocos2d/core/node-activator.js:218-226 | every stacked task is cancelled and the announcement comes last |
| Activation.NodeActivator.CancelAll | cocos2d/core/node-activator.js:218-224 | each of the three invokers of every stacked task keeps exactly its entries whose node is active in hierarchy |
| Activation.CancelStacked | cocos2d/core/node-activator.js:219-224 | the loop over the stack cancels each task's three invokers |
| Activation.CancelStep | cocos2d/core/node-activator.js:220-223 | one pass of that loop cancels the i-th task and keeps the earlier tasks cancelled |
| Activation.CancelTask | cocos2d/core/node-activator.js:221-223 | the three `cancelInactive` calls on one task |
| Activation.NodeActivator.ActivateRec | cocos2d/core/node-activator.js:119-157 | a node marked Deactivating logs a refusal and changes nothing else. Otherwise the log grows by `WalkLog`, each invoker grows by the visited components it wants, in visit order, and exactly the reached nodes are switched on |
| Activation.Refusal | cocos2d/core/node-activator.js:120-129 | a node marked Deactivating reaches nothing, visits nothing, queues nothing, and reports exactly one refusal |
| Activation.NodeActivator.ActivateWalk | cocos2d/core/node-activator.js:131-156 | the walk of a node that does not refuse ends with its post-activation hook |
| Activation.NodeActivator.ActivateHereAndBelow | cocos2d/core/node-activator.js:131-154 | the node's own corruption reports are followed by its children's walks; the queues grow by all the components visited |
| Activation.NodeActivator.ActivateHere | cocos2d/core/node-activator.js:131-147 | the node is switched on, its components are activated, and the nodes below it are not touched |
| Activation.NodeActivator.ActivateComponents | cocos2d/core/node-activator.js:135-147 | the component loop leaves the array with its bad slots spliced out. Exactly the components present on entry are loaded; each invoker grows by the wanted ones in array order; one corruption report per bad slot, at its shifted index |
| Activation.NodeActivator.VisitSlot | cocos2d/core/node-activator.js:138-146 | one pass reports corruption exactly when the slot does not hold a component, and advances the loop's state |
| Activation.NodeActivator.ActivateSlot | cocos2d/core/node-activator.js:139-141 | a component slot is activated and the loop index moves on |
| Activation.NodeActivator.RemoveCorruptedSlot | cocos2d/core/node-activator.js:142-146 | a bad slot is reported and removed, and the loop index stays where it is |
| Activation.NodeActivator.ActivateChildren | cocos2d/core/node-activator.js:148-154 | the children loop logs and queues the walks of the children whose own switch is on, in child order |
| Activation.NodeActivator.ActivateChild | cocos2d/core/node-activator.js:150-153 | one pass of the children loop walks the child only when its own switch is on |
| Activation.NodeActivator.WalkChild | cocos2d/core/node-activator.js:152 | the recursive walk of one child leaves its siblings' subtrees untouched |
| Activation.ChildSkipped | cocos2d/core/node-activator.js:151 | a child whose switch is off adds no node, component or event |
| Activation.WalkSplits | cocos2d/core/node-activator.js:131-156 | the visited components of a node that does not refuse are its own valid components followed by those below it |
| ActivationWalk.VisitOwned | cocos2d/core/node-activator.js:135-154 | every visited component is a scene component held by a reached node, and no component is visited twice |
| ActivationWalk.ReachedWithin | cocos2d/core/node-activator.js:148-154 | the walk only reaches nodes of the subtree |
| ActivationWalk.ReachedAreActive | cocos2d/core/node-activator.js:119-157 | every reached node does not refuse, and every reached node below the root has its own switch on |
| ActivationWalk.PendingClosed | cocos2d/core/node-activator.js:142-146 | once the first slots are handled, the array is their repaired part followed by the untouched rest |
| ActivationWalk.PendingStep | cocos2d/core/node-activator.js:138-146 | the loop index equals the number of component slots handled so far, and it points at the next unhandled slot |
| ActivationWalk.ChosenBeforeIs | cocos2d/core/node-activator.js:137-141 | the entries queued one slot at a time are the wanted components among the valid ones, in order |
| ActivationWalk.EnqueuedMembers | cocos2d/core/node-activator.js:274-301 | a component is queued for a hook if and only if it was visited and wants that hook |
| ActivationWalk.EnqueuedAppend | cocos2d/core/node-activator.js:148-154 | the queue of a concatenated visit is the concatenation of the queues |
| ActivationWalk.CorruptionLogBeforeIs | cocos2d/core/node-activator.js:142-145 | the reports made slot by slot agree with the report list of the array |
| ActivationWalk.Loaded | cocos2d/core/node-activator.js:274-295 | a component that has not started gets both IsOnLoadStarted and IsOnLoadCalled; one already started keeps its flags; the enable and Deactivating bits are untouched |
| Activation.NodeActivator.LoadComp | cocos2d/core/node-activator.js:274-295 | first activation marks the component started and loaded, and queues (or, without an invoker, calls) `__preload` and onLoad exactly when present; without an onLoad invoker, an onLoad that switches its node off clears the node's switch and takes out of the hierarchy exactly the nodes its deactivation walk reaches; a started component is left alone |
| Activation.NodeActivator.ActivateComp | cocos2d/core/node-activator.js:273-303 | as `LoadComp`; then an enabled component whose node is still active and not yet marked is queued for onEnable (or enabled at once without an invoker), and is skipped when its onLoad switched the node off |
| Activation.NodeActivator.DestroyComp | cocos2d/core/node-activator.js:314-321 | onDisable (when the component is enabled) always comes first; onDestroy follows exactly when the hook exists and IsOnLoadCalled is set |
| Activation.NodeActivator.DeactivateRec | cocos2d/core/node-activator.js:159-198 | the walk of a node leaves the scene as `Deact` says, and the node's Deactivating mark is cleared on both exits |
| Activation.Mark | cocos2d/core/node-activator.js:165-166 | entry sets Deactivating and clears `_activeInHierarchy` together |
| Activation.Unmark | cocos2d/core/node-activator.js:178-179 | the early exit clears the mark and restores the flags |
| Activation.Finish | cocos2d/core/node-activator.js:196-197 | the normal exit runs the post-activation hook with false, then clears the mark |
| Activation.NodeActivator.DeactivateBelow | cocos2d/core/node-activator.js:183-197 | the children loop, then the hook unless the node was switched back on; the mark is cleared either way |
| Activation.NodeActivator.DeactivateComponents | cocos2d/core/node-activator.js:170-182 | the component loop disables the enabled components present on entry, in order, and stops exactly when the node is switched back on |
| Activation.NodeActivator.DisableSlot | cocos2d/core/node-activator.js:172-181 | one pass disables an enabled component and reports an abort exactly when the node is active again |
| Activation.DisableTraced | cocos2d/core/node-activator.js:174 | `disableComp` moves the scene on as `Disabled` says |
| DeactivationWalk.Disabled | cocos2d/core/node-activator.js:174 | the mark is cleared, and onDisable is logged if and only if the component was marked enabled |
| DeactivationWalk.DisabledTouches | cocos2d/core/node-activator.js:174 | disabling one component changes no other component's flags, and can only switch back on a node under deactivation |
| Activation.NodeActivator.DeactivateChildren | cocos2d/core/node-activator.js:183-194 | the children loop walks the children still active in hierarchy, in order, and stops exactly when the node is switched back on |
| Activation.NodeActivator.DeactivateChild | cocos2d/core/node-activator.js:184-193 | one pass walks a child only when it is active in hierarchy, and reports whether the parent was switched back on |
| DeactivationWalk.DeactQuiet | cocos2d/core/node-activator.js:159-198 | with no reactivating callback, the walk switches off exactly the node and the nodes below it reached through nodes active in hierarchy. It logs their onDisable calls and post-activation hooks in walk order, clears the onEnable mark of exactly their enabled components, and changes nothing else |
| DeactivationWalk.ComponentsQuiet | cocos2d/core/node-activator.js:170-182 | with no reactivating callback, the component loop runs to the end, disables exactly the node's enabled components, and leaves the nodes below untouched |
| DeactivationWalk.DisableFromQuiet | cocos2d/core/node-activator.js:171-182 | the component loop from index i, with no reactivation, never aborts, logs onDisable for the started enabled components from i on, switches nothing, and clears the onEnable mark of exactly the enabled components from i on |
| DeactivationWalk.DisableStepQuiet | cocos2d/core/node-activator.js:172-181 | one pass of that loop, with no reactivation |
| DeactivationWalk.DeactFromQuiet | cocos2d/core/node-activator.js:183-194 | the children loop from child k, with no reactivation, switches off exactly the subtrees of the active children from k on and never aborts |
| DeactivationWalk.DeactChildQuiet | cocos2d/core/node-activator.js:185-193 | the children loop from an active child k, with no reactivation: that child's subtree is switched off as `DeactQuiet` says, then the loop goes on with the later siblings untouched, and it never aborts |
| DeactivationWalk.SwitchedWithin | cocos2d/core/node-activator.js:183-194 | a deactivation only switches off nodes of the subtree |
| DeactivationWalk.DisableFromStops | cocos2d/core/node-activator.js:171-182 | the component loop reports an abort if and only if the node ends active in hierarchy |
| DeactivationWalk.DeactFromStops | cocos2d/core/node-activator.js:183-194 | the children loop reports an abort if and only if the node ends active in hierarchy |
| DeactivationWalk.DisableAborts | cocos2d/core/node-activator.js:172-181 | when the component at slot j switches the node back on in its onDisable and those before it do not, the loop stops right after it: onDisable is logged for the started components up to j, the node is on again, no other node changes and the components after j keep their flags |
| DeactivationWalk.DisableAbortStep | cocos2d/core/node-activator.js:172-181 | one pass of that loop over an enabled component before slot j |
| DeactivationWalk.DeactAborts | cocos2d/core/node-activator.js:165-198 | a node switched back on by the onDisable at slot j stays on, its walk stops there (lines 176-180) without the post-activation hook or any child walk, and only the components up to j were disabled |

## Left out

- The `CC_EDITOR` branches are not modelled: the try/catch wrappers, focus callbacks, the asset watcher, the play-mode gating of onDestroy, and `resetComp` (node-activator.js lines 37-42, 229-272, 305-313 and 323-327). They are editor tooling that calls into code outside this core. `cocos2d/core/physics/CCPhysicsManager.js` is not part of this model.
- `component-scheduler.js` is not part of this model. Its `LifeCycleInvoker`, `OneOffInvoker`, `createInvokeImpl`, `invokeOnEnable`, `stableRemoveInactive`, `enableComp` and `disableComp` are modelled as contracts, from how this file uses them. The execution-order buckets (negative, zero, positive) of those invokers are not modelled: each invoker is one queue in insertion order.
- CompScheduler.OneOffInvoker.CancelInactive: only `UnsortedInvoker.cancelInactive` (lines 53-55) is in this file. That the one-off invokers' `cancelInactive` keeps exactly the entries whose node is active in hierarchy, in order, through `stableRemoveInactive`, is an assumption of the model about the scheduler.
- Error reports (`cc.errorID`, `console.log`), the post-activation hooks and the `active-in-hierarchy-changed` emit are events appended to a log. Nothing they do is modelled.
- Activation.ComponentCorrupted: the model always logs the corruption report. The code reports only in development builds (`CC_DEV`, lines 95-98); the splice happens in every build, as modelled.
- User callbacks are opaque. Only two effects are modelled: an `onLoad` may switch its own node off (`deactivatesOnLoad`), and an `onDisable` may switch one given node back on while that node is marked Deactivating (`reactivatesOnDisable`). Other effects are not modelled: adding components, re-entering the activator, or touching other nodes.
- `reactivatesOnDisable` stands for code outside this file that switches a node's `_activeInHierarchy` back on while the node is marked Deactivating. This file has no such path of its own: `_activateNodeRecursively` refuses a node marked Deactivating (lines 120-129). The model takes the effect as given and states the early exits it leads to at lines 176-180 and 188-192 (`DisableAborts`, `DeactAborts`).
- The onLoad switch-off: an `onLoad` that sets `node.active = false` re-enters `activateNode(node, false)`. The model clears the node's own switch, takes the node and every node its deactivation walk reaches through children active in hierarchy out of the hierarchy (`SwitchOff`, lines 166 and 183-186), and cancels the inactive entries of every stacked task, the running one included (lines 218-224). The re-entered walk's `onDisable` calls, its Deactivating marks, its `_onPostActivated(false)` hooks, the clearing of IsOnEnableCalled and its `active-in-hierarchy-changed` emit are not modelled.
- The `active` setter of `CCNode` is not part of this model. The model takes it as clearing `_active` and, when the node is active in hierarchy, running the deactivation walk; the setter's check that the node has a parent that is active in hierarchy is not modelled.
- SceneGraph.Scene.CallOnLoad: the model treats a node with no parent as if its parent were active in hierarchy. When an `onLoad` switches off the walk's own root and that root has no parent, the setter only clears `_active`: the node stays in the hierarchy, the onLoad run goes on and its onEnable entries are kept. The model instead takes the root's subtree out of the hierarchy, stops the run and cuts those entries.
- Activation.NodeActivator.ActivateNode: the same assumption about a walk root with no parent, carried up through `SwitchedOnLoad`, `LoadFlush` and `EnablesAfterLoad`.
- Activation.NodeActivator.LoadComp: without an onLoad invoker, an onLoad that switches its node off clears the node's switch and takes its deactivation walk's nodes out of the hierarchy, but the cancellation of the stacked tasks that the re-entry would perform is not modelled on this path (`activateNode` always passes invokers).
- Activation.NodeActivator.ActivateComp: the same as `LoadComp` when called without invokers.
- Re-entrant activation from inside a callback is not modelled beyond the onLoad switch-off above. In particular, a nested activation that pushes onto the stack while a walk runs is not.
- `_deactivateNodeRecursively` reads `component._enabled` without an `instanceof` guard, so a falsy slot throws there. The model requires the subtree to have no falsy slot and no node already marked Deactivating (`Deactivatable`). The code asserts something narrower, only under `CC_TEST` or `CC_DEV` (lines 160-164): that the node the walk starts from is not marked Deactivating and is active in hierarchy.
- Activation.NodeActivator.ActivateTree: the contract does not relate the pool before and after. `PushTask` and `PopTask` state the pool's change for each step.
- `cancelInactive` receives the deactivated node (lines 221-223) but does not use it. `UnsortedInvoker.cancelInactive` (lines 53-55) only calls the scheduler's `stableRemoveInactive`, whose body is outside this file. That it keeps exactly the entries whose node is active in hierarchy, in order, is an assumption of the model, the same one as for the one-off invokers above; the model makes it for all three invokers.
- `putActivateTask` (lines 88-92) does not clear the task's invokers. The three `invoke` calls before it (lines 206-208) have already emptied them, so the model requires an idle task there.
- Only the onLoad dispatch stops after an entry whose node is inactive (line 74). The preload dispatch (line 63) and the onEnable dispatch, the scheduler's `invokeOnEnable` (line 78), run through their whole queue.
- The `deactivatedOnLoading` check of `activateComp` is modelled. Components added during a pass are not, since adding components from a callback is not among the modelled effects.
