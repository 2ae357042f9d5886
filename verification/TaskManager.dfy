/** The task manager: a circular doubly linked ring of tasks, proved against the state machine of
    round-robin scheduling. */
module TaskManager {
  import opened RoundRobin

  class TaskNode {
    const id: nat
    const blockable: bool
    var blocked: bool
    var prev: TaskNode?
    var next: TaskNode?
    var context: Context

    constructor (id: nat, blockable: bool, context: Context)
      ensures this.id == id && this.blockable == blockable && !blocked && prev == null && next == null && this.context == context
    {
      this.id, this.blockable, this.context := id, blockable, context;
      blocked, prev, next := false, null, null;
    }

    function View(): Task
      reads this
    {
      Task(id, blockable, blocked, context)
    }
  }

  /** The successor of a position in a ring of n tasks. */
  function After(i: nat, n: nat): nat {
    if i + 1 < n then i + 1 else 0
  }

  /** The tasks are linked both ways in the order of the sequence, the last one to the first. */
  ghost predicate IsRing(ring: seq<TaskNode>)
    reads ring
  {
    && (forall i, j :: 0 <= i < j < |ring| ==> ring[i] != ring[j])
    && (forall i: nat :: i < |ring| ==> Follows(ring, i))
  }

  predicate Follows(ring: seq<TaskNode>, i: nat)
    requires i < |ring|
    reads ring
  {
    ring[i].next == ring[After(i, |ring|)] && ring[After(i, |ring|)].prev == ring[i]
  }

  lemma RotatedRing(ring: seq<TaskNode>, n: nat)
    requires IsRing(ring) && n <= |ring|
    ensures IsRing(ring[n..] + ring[..n])
  {
    var r := ring[n..] + ring[..n];
    forall i, j | 0 <= i < j < |r|
      ensures r[i] != r[j]
    {
      assert r[i] == ring[if i < |ring| - n then n + i else i - (|ring| - n)];
      assert r[j] == ring[if j < |ring| - n then n + j else j - (|ring| - n)];
    }
    forall i: nat | i < |r|
      ensures Follows(r, i)
    {
      var k := if i < |ring| - n then n + i else i - (|ring| - n);
      assert r[i] == ring[k] && Follows(ring, k);
      assert r[After(i, |r|)] == ring[After(k, |ring|)];
    }
  }

  /** The tasks are what the model says. */
  ghost predicate Mirrors(ring: seq<TaskNode>, tasks: seq<Task>)
    reads ring
  {
    |ring| == |tasks| && forall i :: 0 <= i < |ring| ==> ring[i].View() == tasks[i]
  }

  class TaskManager {
    var switches: nat
    var head: TaskNode?
    var taskCount: nat

    // the tasks in the order of the ring, the head first, and the state of the round-robin machine
    // that they stand for
    ghost var ring: seq<TaskNode>
    ghost var model: Ring

    ghost predicate Valid()
      reads this, ring
    {
      && head == (if ring == [] then null else ring[0]) && taskCount == |ring|
      && IsRing(ring) && Mirrors(ring, model.tasks) && model.switches == switches && WellFormed(model)
    }

    constructor ()
      ensures Valid() && model == NO_TASKS
    {
      switches, head, taskCount, ring, model := 0, null, 0, [], NO_TASKS;
    }

    /** The task with an id, searched once round the ring. */
    method FindTask(id: nat) returns (task: TaskNode?, ghost k: nat)
      requires Valid()
      ensures task == null ==> forall i :: 0 <= i < |ring| ==> ring[i].id != id
      ensures task != null ==> k < |ring| && task == ring[k] && task.id == id
    {
      hide WellFormed;
      k := 0;
      var ptr := head;
      var loopRef := ptr;
      if ptr != null {
        if ptr.id == id {
          return ptr, 0;
        }
        assert Follows(ring, 0);
        ptr := ptr.next;
        k := 1;
        while ptr != loopRef && ptr.id != id
          invariant 1 <= k <= |ring| && ptr == ring[if k < |ring| then k else 0]
          invariant forall i :: 0 <= i < k ==> ring[i].id != id
          decreases |ring| - k
        {
          assert Follows(ring, k);
          ptr := ptr.next;
          k := k + 1;
        }
        if ptr != loopRef {
          return ptr, k;
        }
      }
      return null, 0;
    }

    /** Adds a task in front of the head, that is, at the end of the ring; granted tells whether the
        heap had room for it. */
    method AddTask(context: Context, blockable: bool, granted: bool) returns (id: nat)
      requires Valid()
      modifies this, ring
      ensures Valid() && model == Step(old(model), Add(context, blockable, granted))
      ensures id == if Runnable(context) && granted then taskCount else 0
    {
      hide WellFormed, IsRing, Mirrors, Step, Added;
      NotAdded(model, context, blockable, granted);
      if context.cr3 == 0 || context.instructionPointer == 0 || context.stackPointer == 0 {
        return 0;
      }
      if !granted {
        return 0;
      }
      AddIs(model, context, blockable);
      taskCount := taskCount + 1;
      var task := new TaskNode(taskCount, blockable, context);
      MirrorsSize(ring, model.tasks);
      Link(task);
      MirrorsNext(ring, model.tasks, task);
      ring := ring + [task];
      model := Added(model, context, blockable);
      return task.id;
    }

    static lemma NotAdded(r: Ring, context: Context, blockable: bool, granted: bool)
      ensures !(Runnable(context) && granted) ==> Step(r, Add(context, blockable, granted)) == r
    {
    }

    static lemma AddIs(r: Ring, context: Context, blockable: bool)
      requires WellFormed(r) && Runnable(context)
      ensures WellFormed(Added(r, context, blockable)) && Added(r, context, blockable) == Step(r, Add(context, blockable, true))
      ensures Added(r, context, blockable) == Ring(r.tasks + [Task(|r.tasks| + 1, blockable, false, context)], r.switches)
    {
      StepKeeps(r, Add(context, blockable, true));
    }

    static lemma MirrorsNext(ring: seq<TaskNode>, tasks: seq<Task>, task: TaskNode)
      requires Mirrors(ring, tasks)
      ensures Mirrors(ring + [task], tasks + [task.View()])
    {
    }

    /** Links a task in before the head. */
    method Link(task: TaskNode)
      requires head == (if ring == [] then null else ring[0]) && IsRing(ring) && task !in ring && Mirrors(ring, model.tasks)
      modifies this`head, task, ring
      ensures head == (ring + [task])[0] && IsRing(ring + [task]) && Mirrors(ring, model.tasks)
      ensures task.View() == old(task.View())
    {
      if head == null {
        head := task;
        task.prev := task;
        task.next := task;
      } else {
        assert Follows(ring, |ring| - 1);
        var tail := head.prev;
        tail.next := task;
        task.prev := tail;
        task.next := head;
        head.prev := task;
      }
      ghost var r := ring + [task];
      forall i: nat | i < |r|
        ensures Follows(r, i)
      {
        assert i + 1 < |ring| ==> old(Follows(ring, i));
      }
    }

    method BlockTask(id: nat)
      requires Valid()
      modifies this`model, ring
      ensures Valid() && model == Step(old(model), Block(id))
      ensures forall t :: t in ring ==> t.blocked == if t.id == id then t.blockable else old(t.blocked)
      ensures forall t :: t in ring ==> t.context == old(t.context)
    {
      StepKeeps(model, Block(id));
      var task, k := FindTask(id);
      OnlyTask(k);
      hide WellFormed;
      if task != null && task.blockable {
        task.blocked := true;
      }
      model := Step(model, Block(id));
      RingStays(old(ring));
    }

    method UnblockTask(id: nat)
      requires Valid()
      modifies this`model, ring
      ensures Valid() && model == Step(old(model), Unblock(id))
      ensures forall t :: t in ring ==> t.blocked == if t.id == id then false else old(t.blocked)
      ensures forall t :: t in ring ==> t.context == old(t.context)
    {
      StepKeeps(model, Unblock(id));
      var task, k := FindTask(id);
      OnlyTask(k);
      hide WellFormed;
      if task != null {
        task.blocked := false;
      }
      model := Step(model, Unblock(id));
      RingStays(old(ring));
    }

    lemma OnlyTask(k: nat)
      requires Valid()
      ensures k < |ring| ==> forall i :: 0 <= i < |ring| && ring[i].id == ring[k].id ==> i == k
    {
      if k < |ring| {
        forall i | 0 <= i < |ring| && ring[i].id == ring[k].id
          ensures i == k
        {
          assert model.tasks[i].id == model.tasks[k].id;
        }
      }
    }

    /** Changes that leave the links alone keep the ring. */
    twostate lemma RingStays(ring: seq<TaskNode>)
      requires old(IsRing(ring)) && forall t :: t in ring ==> t.next == old(t.next) && t.prev == old(t.prev)
      ensures IsRing(ring)
    {
      forall i: nat | i < |ring|
        ensures Follows(ring, i)
      {
        assert old(Follows(ring, i));
      }
    }

    /** The task to run next, and how far it is from the head. */
    method NextTask(current: TaskNode) returns (next: TaskNode?, ghost n: nat)
      requires Valid() && head == current
      ensures n == NextFrom(model.tasks, 1) && next == ring[if n < |ring| then n else 0]
    {
      hide WellFormed;
      n := 1;
      assert Follows(ring, 0);
      next := current.next;
      while next != current && next.blocked
        invariant 1 <= n <= |ring| && next == ring[if n < |ring| then n else 0]
        invariant NextFrom(model.tasks, 1) == NextFrom(model.tasks, n)
        decreases |ring| - n
      {
        assert Follows(ring, n) && ring[n].View() == model.tasks[n];
        next := next.next;
        n := n + 1;
      }
      assert n < |ring| ==> ring[n].View() == model.tasks[n];
    }

    /** Switches to the next task that is not blocked.  locked tells that the lock was taken.  The
        result is the task whose context is to be restored, or null to stay in the current one. */
    method TaskSwitch(stackContext: nat, locked: bool) returns (started: TaskNode?)
      requires Valid()
      modifies this, ring
      ensures Valid() && model == Step(old(model), if locked then Contended else Switch(stackContext))
      ensures started == null <==> locked || Started(old(model), stackContext) == []
      ensures started != null ==> started == head && [started.context] == Started(old(model), stackContext)
      ensures forall t :: t in old(ring) && t != old(head) ==> t.context == old(t.context)
      ensures old(head) != null ==>
                old(head).context == if locked || old(switches) == 0 then old(head.context)
                                     else old(head.context).(stackPointer := stackContext)
      ensures forall t :: t in old(ring) ==> t.blocked == old(t.blocked)
    {
      hide WellFormed, IsRing, Mirrors, Switched, NextFrom, Started, Step;
      NoSwitch(model, stackContext);
      MirrorsSize(ring, model.tasks);
      if head == null {
        return null;
      } else if locked {
        return null;
      }
      SwitchIs(model, stackContext);
      var current := head;
      var next, n := NextTask(current);
      switches := switches + 1;
      if switches - 1 == 0 {
        HeadOfModel(ring, model.tasks);
        model := model.(switches := 1);
        return current;
      }
      started := LeaveFor(current, next, n, stackContext);
    }

    /** Leaves the head for the task that is n places away. */
    method LeaveFor(current: TaskNode, next: TaskNode?, ghost n: nat, stackContext: nat) returns (started: TaskNode?)
      requires IsRing(ring) && Mirrors(ring, model.tasks) && ring != [] && head == current == ring[0] && model.switches != 0
      requires WellFormed(model) && |model.tasks| == |ring|
      requires n == NextFrom(model.tasks, 1) && next == ring[if n < |ring| then n else 0]
      modifies this`head, this`ring, this`model, current`context
      ensures IsRing(ring) && Mirrors(ring, model.tasks) && |ring| == |old(ring)| && head == ring[0]
      ensures model == Switched(old(model), stackContext) && model.switches == old(model).switches + 1
      ensures current.context == old(current.context).(stackPointer := stackContext)
      ensures started == null <==> n == |ring|
      ensures started != null ==> started == head && model.tasks != [] && started.context == model.tasks[0].context
    {
      hide WellFormed, IsRing, Mirrors, Switched, NextFrom, Saved, Rotated;
      SwitchIs(model, stackContext);
      Save(current, stackContext);
      RotatedRing(ring, n);
      RotatedModel(ring, Saved(model.tasks, stackContext), n);
      model := Switched(model, stackContext);
      head := next;
      ring := ring[n..] + ring[..n];
      HeadOfModel(ring, model.tasks);
      if next == current {
        return null;
      }
      return head;
    }

    /** Saves the stack pointer of the head. */
    method Save(current: TaskNode, stackContext: nat)
      requires IsRing(ring) && Mirrors(ring, model.tasks) && ring != [] && current == ring[0]
      modifies current`context
      ensures IsRing(ring) && Mirrors(ring, Saved(model.tasks, stackContext))
      ensures current.context == old(current.context).(stackPointer := stackContext)
    {
      current.context := current.context.(stackPointer := stackContext);
      RingStays(ring);
    }

  }

  lemma MirrorsSize(ring: seq<TaskNode>, tasks: seq<Task>)
    requires Mirrors(ring, tasks)
    ensures |ring| == |tasks|
  {
  }

  lemma NoSwitch(r: Ring, stackContext: nat)
    ensures Step(r, Contended) == r
    ensures r.tasks == [] ==> Step(r, Switch(stackContext)) == r && Started(r, stackContext) == []
  {
  }

  lemma HeadOfModel(ring: seq<TaskNode>, tasks: seq<Task>)
    requires Mirrors(ring, tasks) && ring != []
    ensures |tasks| == |ring| && ring[0].context == tasks[0].context
  {
  }

  lemma SwitchIs(r: Ring, stackContext: nat)
    requires WellFormed(r) && r.tasks != []
    ensures WellFormed(Switched(r, stackContext)) && Switched(r, stackContext) == Step(r, Switch(stackContext))
    ensures r.switches == 0 ==> Switched(r, stackContext) == r.(switches := 1) && Started(r, stackContext) == [r.tasks[0].context]
    ensures r.switches != 0 ==>
              Switched(r, stackContext) == Ring(Rotated(Saved(r.tasks, stackContext), NextFrom(r.tasks, 1)), r.switches + 1)
    ensures r.switches != 0 ==>
              Started(r, stackContext) == if NextFrom(r.tasks, 1) == |r.tasks| then [] else [Switched(r, stackContext).tasks[0].context]
  {
    StepKeeps(r, Switch(stackContext));
  }

  lemma RotatedModel(ring: seq<TaskNode>, tasks: seq<Task>, n: nat)
    requires Mirrors(ring, tasks) && n <= |ring|
    ensures Mirrors(ring[n..] + ring[..n], Rotated(tasks, n))
  {
  }
}
