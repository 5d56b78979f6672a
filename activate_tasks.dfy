/** The activator's deferred-dispatch machinery: the unsorted preload invoker, the
    three-invoker activate task, and the small pool tasks are recycled through. */
module ActivateTasks {
  import opened SceneGraph
  import opened CompScheduler

  /** The array after `fastRemove(x)`: the first occurrence of x is overwritten by the last
      entry and the array is shortened by one; an array without x is left alone. */
  function FastRemoved<T(==)>(s: seq<T>, x: T): (r: seq<T>)
    ensures x in s ==> |r| == |s| - 1 && multiset(r) == multiset(s) - multiset{x}
    ensures x !in s ==> r == s
  {
    var i := IndexOf(s, x);
    if i < 0 then s
    else
      var last := |s| - 1;
      var r := s[i := s[last]][..last];
      assert multiset(r) == multiset(s) - multiset{x} by {
        if i == last {
          assert s == r + [x];
        } else {
          assert r == s[..i] + [s[last]] + s[i + 1..last];
          assert s == s[..i] + [x] + s[i + 1..last] + [s[last]];
        }
      }
      r
  }

  /** The preload invoker: a plain queue, dispatched in insertion order. */
  class UnsortedInvoker {
    var queue: seq<Component>

    constructor ()
      ensures queue == []
    {
      queue := [];
    }

    /** `add`: appends. */
    method Add(c: Component)
      modifies this`queue
      ensures queue == old(queue) + [c]
    {
      queue := queue + [c];
    }

    /** `remove`: the unordered removal of one occurrence. */
    method Remove(c: Component)
      modifies this`queue
      ensures queue == FastRemoved(old(queue), c)
    {
      queue := FastRemoved(queue, c);
    }

    /** `cancelInactive`: drops the entries whose node is no longer active in hierarchy. */
    method CancelInactive()
      modifies this`queue
      ensures queue == ActiveOnly(old(queue))
    {
      queue := StableRemoveInactive(queue);
    }

    /** `invoke`: `__preload` on every entry in order, then the queue is truncated. */
    method Invoke(scene: Scene)
      modifies this`queue, scene`log
      ensures queue == []
      ensures scene.log == old(scene.log) + Dispatch(Preload, old(queue))
    {
      var i := 0;
      while i < |queue|
        invariant 0 <= i <= |queue| && queue == old(queue)
        invariant scene.log == old(scene.log) + Dispatch(Preload, queue[..i])
      {
        scene.Call(Preload, queue[i]);
        DispatchStep(old(scene.log), Preload, queue, i);
        i := i + 1;
      }
      assert queue[..i] == queue;
      queue := [];
    }
  }

  /** The three invokers one top-level activation writes into. */
  datatype Task = Task(preload: UnsortedInvoker, onLoad: OneOffInvoker, onEnable: OneOffInvoker)

  /** The objects a task is made of. */
  ghost function Parts(t: Task): set<object> {
    {t.preload as object, t.onLoad as object, t.onEnable as object}
  }

  ghost function PartsOf(ts: seq<Task>): set<object> {
    (set i | 0 <= i < |ts| :: ts[i].preload as object) +
    (set i | 0 <= i < |ts| :: ts[i].onLoad as object) +
    (set i | 0 <= i < |ts| :: ts[i].onEnable as object)
  }

  /** The preload invokers of the tasks. */
  ghost function PreloadsOf(ts: seq<Task>): set<UnsortedInvoker> {
    set i | 0 <= i < |ts| :: ts[i].preload
  }

  /** The onLoad and onEnable invokers of the tasks. */
  ghost function OneOffsOf(ts: seq<Task>): set<OneOffInvoker> {
    (set i | 0 <= i < |ts| :: ts[i].onLoad) + (set i | 0 <= i < |ts| :: ts[i].onEnable)
  }

  /** Two tasks share no invoker. */
  predicate Apart(a: Task, b: Task) {
    a.preload != b.preload && a.onLoad != b.onLoad && a.onLoad != b.onEnable &&
    a.onEnable != b.onLoad && a.onEnable != b.onEnable
  }

  /** A task ready for use: the onLoad and onEnable invokers are distinct, built with the
      right per-component functions, and all three queues are empty. */
  ghost predicate Idle(t: Task)
    reads t.preload`queue, t.onLoad`queue, t.onEnable`queue
  {
    t.onLoad != t.onEnable && t.onLoad.stage == LoadStage && t.onEnable.stage == EnableStage &&
    t.preload.queue == [] && t.onLoad.queue == [] && t.onEnable.queue == []
  }

  /** `createActivateTask`. */
  method CreateActivateTask() returns (t: Task)
    ensures Idle(t) && fresh(t.preload) && fresh(t.onLoad) && fresh(t.onEnable)
  {
    var preload := new UnsortedInvoker();
    var onLoad := new OneOffInvoker(LoadStage);
    var onEnable := new OneOffInvoker(EnableStage);
    t := Task(preload, onLoad, onEnable);
  }

  const MAX_POOL_SIZE := 4

  /** `activateTasksPool`: the tasks kept for reuse. */
  class TaskPool {
    var tasks: seq<Task>

    /** At most MAX_POOL_SIZE tasks, each idle, no two sharing an invoker. */
    ghost predicate Valid()
      reads this`tasks, PreloadsOf(tasks)`queue, OneOffsOf(tasks)`queue
    {
      |tasks| <= MAX_POOL_SIZE &&
      (forall i :: 0 <= i < |tasks| ==> Idle(tasks[i])) &&
      (forall i, j :: 0 <= i < j < |tasks| ==> Parts(tasks[i]) !! Parts(tasks[j]))
    }

    constructor ()
      ensures Valid() && tasks == []
    {
      tasks := [];
    }

    /** `getActivateTask`: pops the last pooled task, or creates one when the pool is empty. */
    method Get() returns (task: Task)
      requires Valid()
      modifies this
      ensures Valid() && Idle(task) && Parts(task) !! PartsOf(tasks)
      ensures old(|tasks|) > 0 ==> task == old(tasks[|tasks| - 1]) && tasks == old(tasks[..|tasks| - 1])
      ensures old(|tasks|) == 0 ==> tasks == [] && fresh(task.preload) && fresh(task.onLoad) && fresh(task.onEnable)
    {
      if |tasks| > 0 {
        task := tasks[|tasks| - 1];
        tasks := tasks[..|tasks| - 1];
        assert old(tasks)[..|tasks|] == tasks;
      } else {
        task := CreateActivateTask();
      }
    }

    /** `putActivateTask`: keeps the task only while the pool is below MAX_POOL_SIZE. */
    method Put(task: Task)
      requires Valid() && Idle(task) && Parts(task) !! PartsOf(tasks)
      modifies this
      ensures Valid()
      ensures tasks == if old(|tasks|) < MAX_POOL_SIZE then old(tasks) + [task] else old(tasks)
    {
      if |tasks| < MAX_POOL_SIZE {
        tasks := tasks + [task];
      }
    }
  }
}
