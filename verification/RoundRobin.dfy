/** Round-robin scheduling as a state machine: the ring of tasks, the running one first, and what is
    true of all its runs. */
module RoundRobin {

  datatype Context = Context(cr3: nat, instructionPointer: nat, stackPointer: nat)

  datatype Task = Task(id: nat, blockable: bool, blocked: bool, context: Context)

  /** The tasks in the order of the ring, the head first. */
  datatype Ring = Ring(tasks: seq<Task>, switches: nat)

  datatype Event =
    | Add(context: Context, blockable: bool, granted: bool)
    | Block(id: nat)
    | Unblock(id: nat)
    | Switch(stackPointer: nat)
    | Contended   // a switch that finds the lock taken

  const NO_TASKS := Ring([], 0)

  // ---------- steps ----------

  predicate Runnable(c: Context) {
    c.cr3 != 0 && c.instructionPointer != 0 && c.stackPointer != 0
  }

  function Added(r: Ring, context: Context, blockable: bool): Ring {
    r.(tasks := r.tasks + [Task(|r.tasks| + 1, blockable, false, context)])
  }

  /** Sets the blocked flag of a task; a task that is not blockable cannot be blocked. */
  function Marked(t: Task, id: nat, blocked: bool): Task {
    if t.id == id && (!blocked || t.blockable) then t.(blocked := blocked) else t
  }

  function WithBlocked(r: Ring, id: nat, blocked: bool): (r': Ring)
    ensures |r'.tasks| == |r.tasks| && forall i :: 0 <= i < |r.tasks| ==> r'.tasks[i] == Marked(r.tasks[i], id, blocked)
  {
    r.(tasks := seq(|r.tasks|, i requires 0 <= i < |r.tasks| => Marked(r.tasks[i], id, blocked)))
  }

  /** How far the next task is from the head: the first one that is not blocked, or all the way round. */
  function NextFrom(tasks: seq<Task>, k: nat): (n: nat)
    requires 0 < k <= |tasks|
    ensures k <= n <= |tasks|
    ensures n < |tasks| ==> !tasks[n].blocked
    ensures forall i :: k <= i < n ==> tasks[i].blocked
    decreases |tasks| - k
  {
    if k == |tasks| || !tasks[k].blocked then k else NextFrom(tasks, k + 1)
  }

  function Saved(tasks: seq<Task>, stackPointer: nat): seq<Task>
    requires tasks != []
  {
    tasks[0 := tasks[0].(context := tasks[0].context.(stackPointer := stackPointer))]
  }

  function Rotated(tasks: seq<Task>, n: nat): (r: seq<Task>)
    requires n <= |tasks|
    ensures |r| == |tasks|
    ensures forall i :: 0 <= i < |tasks| - n ==> r[i] == tasks[n + i]
    ensures forall i :: |tasks| - n <= i < |tasks| ==> r[i] == tasks[i - (|tasks| - n)]
  {
    tasks[n..] + tasks[..n]
  }

  /** One switch.  The first one only starts the head: it saves nothing. */
  function Switched(r: Ring, stackPointer: nat): Ring {
    if r.tasks == [] then r
    else if r.switches == 0 then r.(switches := 1)
    else Ring(Rotated(Saved(r.tasks, stackPointer), NextFrom(r.tasks, 1)), r.switches + 1)
  }

  /** The context a switch returns, if it starts a task. */
  function Started(r: Ring, stackPointer: nat): (c: seq<Context>)
    ensures |c| <= 1
  {
    if r.tasks == [] || (r.switches != 0 && NextFrom(r.tasks, 1) == |r.tasks|) then []
    else [Switched(r, stackPointer).tasks[0].context]
  }

  function Step(r: Ring, e: Event): Ring {
    match e
    case Add(context, blockable, granted) => if Runnable(context) && granted then Added(r, context, blockable) else r
    case Block(id) => WithBlocked(r, id, true)
    case Unblock(id) => WithBlocked(r, id, false)
    case Switch(stackPointer) => Switched(r, stackPointer)
    case Contended => r
  }

  function RunOf(r: Ring, run: seq<Event>): Ring {
    if run == [] then r else Step(RunOf(r, run[..|run| - 1]), run[|run| - 1])
  }

  // ---------- the ring stays well-formed ----------

  /** The ids are 1 to n, each once; a task that is not blockable is not blocked. */
  predicate WellFormed(r: Ring) {
    && (forall i :: 0 <= i < |r.tasks| ==> 0 < r.tasks[i].id <= |r.tasks| && (r.tasks[i].blocked ==> r.tasks[i].blockable))
    && (forall i, j :: 0 <= i < j < |r.tasks| ==> r.tasks[i].id != r.tasks[j].id)
  }

  lemma RotationKeeps(r: Ring, n: nat)
    requires WellFormed(r) && n <= |r.tasks|
    ensures WellFormed(r.(tasks := Rotated(r.tasks, n)))
  {
  }

  lemma StepKeeps(r: Ring, e: Event)
    requires WellFormed(r)
    ensures WellFormed(Step(r, e))
  {
    if e.Switch? && r.tasks != [] && r.switches != 0 {
      RotationKeeps(r.(tasks := Saved(r.tasks, e.stackPointer)), NextFrom(r.tasks, 1));
    }
  }

  lemma {:induction false} RunKeeps(r: Ring, run: seq<Event>)
    requires WellFormed(r)
    ensures WellFormed(RunOf(r, run))
    decreases |run|
  {
    if run != [] {
      RunKeeps(r, run[..|run| - 1]);
      StepKeeps(RunOf(r, run[..|run| - 1]), run[|run| - 1]);
    }
  }

  // ---------- a chosen task is not blocked ----------

  /** The ring holds a task that cannot be blocked, and before the first switch it is the head. */
  predicate HasIdle(r: Ring, idle: nat) {
    && (exists i :: 0 <= i < |r.tasks| && r.tasks[i].id == idle && !r.tasks[i].blockable)
    && (r.switches == 0 ==> r.tasks[0].id == idle && !r.tasks[0].blockable)
  }

  lemma IdleStays(r: Ring, idle: nat, e: Event)
    requires HasIdle(r, idle)
    ensures HasIdle(Step(r, e), idle)
  {
    var i :| 0 <= i < |r.tasks| && r.tasks[i].id == idle && !r.tasks[i].blockable;
    var r' := Step(r, e);
    if e.Switch? && r.switches != 0 {
      var n := NextFrom(r.tasks, 1);
      var k := if i >= n then i - n else i + |r.tasks| - n;
      assert r'.tasks[k] == Saved(r.tasks, e.stackPointer)[i];
    } else {
      assert r'.tasks[i].id == idle;
    }
  }

  /** In every run that begins with an idle task, a switch never chooses a blocked task. */
  lemma {:induction false} ChosenIsNotBlocked(r: Ring, run: seq<Event>, idle: nat, stackPointer: nat)
    requires WellFormed(r) && HasIdle(r, idle)
    ensures RunOf(r, run).tasks != [] && !Switched(RunOf(r, run), stackPointer).tasks[0].blocked
  {
    RunKeeps(r, run);
    IdleThroughout(r, run, idle);
    var s := RunOf(r, run);
    var i :| 0 <= i < |s.tasks| && s.tasks[i].id == idle && !s.tasks[i].blockable;
  }

  lemma {:induction false} IdleThroughout(r: Ring, run: seq<Event>, idle: nat)
    requires HasIdle(r, idle)
    ensures HasIdle(RunOf(r, run), idle)
    decreases |run|
  {
    if run != [] {
      IdleThroughout(r, run[..|run| - 1], idle);
      IdleStays(RunOf(r, run[..|run| - 1]), idle, run[|run| - 1]);
    }
  }

  // ---------- bounded waiting ----------

  function Switches(run: seq<Event>): nat {
    if run == [] then 0 else Switches(run[..|run| - 1]) + if run[|run| - 1].Switch? then 1 else 0
  }

  predicate IsAt(r: Ring, id: nat, p: nat) {
    p < |r.tasks| && r.tasks[p].id == id && !r.tasks[p].blocked
  }

  predicate Runs(r: Ring, id: nat) {
    r.tasks != [] && r.tasks[0].id == id
  }

  /** A switch brings every waiting task closer to the head; other events leave it in its place. */
  lemma StepCloser(r: Ring, e: Event, id: nat, p: nat)
    requires WellFormed(r) && r.switches > 0 && p > 0 && IsAt(r, id, p) && e != Block(id)
    ensures Step(r, e).switches > 0
    ensures e.Switch? ==> exists q: nat :: q < p && IsAt(Step(r, e), id, q)
    ensures !e.Switch? ==> IsAt(Step(r, e), id, p)
  {
    if e.Switch? {
      var n := NextFrom(r.tasks, 1);
      assert n <= p;
      assert Step(r, e).tasks[p - n] == r.tasks[p];
      assert IsAt(Step(r, e), id, p - n);
    }
  }

  /** The task runs after some prefix of the run with at most d switches. */
  ghost predicate RunsWithin(r: Ring, run: seq<Event>, id: nat, d: nat) {
    exists i: nat :: i <= |run| && Runs(RunOf(r, run[..i]), id) && Switches(run[..i]) <= d
  }

  /** A task that is d places from the head and is not blocked meanwhile runs within d switches,
      whatever else happens to the ring. */
  lemma {:induction false} BoundedWaiting(r: Ring, run: seq<Event>, id: nat, d: nat)
    requires WellFormed(r) && r.switches > 0 && IsAt(r, id, d) && Block(id) !in run && Switches(run) >= d
    ensures RunsWithin(r, run, id, d)
  {
    assert run[..|run|] == run;
    if !RunsWithin(r, run, id, d) {
      var p := Waiting(r, run, id, d, |run|);
      assert false;
    }
  }

  lemma RunNext(r: Ring, run: seq<Event>, n: nat)
    requires n < |run|
    ensures RunOf(r, run[..n + 1]) == Step(RunOf(r, run[..n]), run[n])
    ensures Switches(run[..n + 1]) == Switches(run[..n]) + if run[n].Switch? then 1 else 0
  {
    assert run[..n + 1][..n] == run[..n];
  }

  lemma AtHeadRuns(r: Ring, id: nat)
    requires IsAt(r, id, 0)
    ensures Runs(r, id)
  {
  }

  /** As long as the task has not run, it has come at least as many places closer as there were switches. */
  lemma {:induction false} Waiting(r: Ring, run: seq<Event>, id: nat, d: nat, n: nat) returns (p: nat)
    requires WellFormed(r) && r.switches > 0 && IsAt(r, id, d) && Block(id) !in run && n <= |run|
    requires !RunsWithin(r, run, id, d)
    ensures var s := RunOf(r, run[..n]);
            WellFormed(s) && s.switches > 0 && IsAt(s, id, p) && 0 < p && p + Switches(run[..n]) <= d
    decreases n
  {
    hide WellFormed, Step, IsAt, Runs;
    if n == 0 {
      assert run[..0] == [];
      p := d;
      if p == 0 {
        AtHeadRuns(r, id);
        assert false;
      }
    } else {
      var q := Waiting(r, run, id, d, n - 1);
      var s, e := RunOf(r, run[..n - 1]), run[n - 1];
      assert e in run;
      RunNext(r, run, n - 1);
      hide RunOf, Switches;
      StepKeeps(s, e);
      StepCloser(s, e, id, q);
      p :| p <= q && (e.Switch? ==> p < q) && IsAt(Step(s, e), id, p);
      if p == 0 {
        AtHeadRuns(Step(s, e), id);
        assert false;
      }
    }
  }

  // ---------- saved contexts ----------

  /** What a task's stack pointer must be when it is started again: the value passed to the switch
      that last left it, or the one it was created with. */
  function Expected(run: seq<Event>, id: nat): nat {
    if run == [] then 0
    else
      var before, r, e := run[..|run| - 1], RunOf(NO_TASKS, run[..|run| - 1]), run[|run| - 1];
      match e
      case Add(context, _, granted) =>
        if Runnable(context) && granted && id == |r.tasks| + 1 then context.stackPointer else Expected(before, id)
      case Switch(stackPointer) =>
        if Runs(r, id) && !Runs(Step(r, e), id) then stackPointer else Expected(before, id)
      case _ => Expected(before, id)
  }

  ghost predicate ContextsAre(r: Ring, run: seq<Event>) {
    forall i :: 0 <= i < |r.tasks| && (i > 0 || r.switches == 0) ==> r.tasks[i].context.stackPointer == Expected(run, r.tasks[i].id)
  }

  lemma {:induction false} ContextsKept(run: seq<Event>)
    ensures WellFormed(RunOf(NO_TASKS, run)) && ContextsAre(RunOf(NO_TASKS, run), run)
    decreases |run|
  {
    RunKeeps(NO_TASKS, run);
    if run != [] {
      var before, e := run[..|run| - 1], run[|run| - 1];
      var r := RunOf(NO_TASKS, before);
      ContextsKept(before);
      hide WellFormed, ContextsAre, Step;
      if e.Switch? && r.tasks != [] && r.switches != 0 {
        SwitchKeepsContexts(r, run);
      } else {
        OtherEventKeepsContexts(r, run);
      }
    }
  }

  lemma OtherEventKeepsContexts(r: Ring, run: seq<Event>)
    requires run != [] && r == RunOf(NO_TASKS, run[..|run| - 1])
    requires !(run[|run| - 1].Switch? && r.tasks != [] && r.switches != 0)
    requires WellFormed(r) && ContextsAre(r, run[..|run| - 1])
    ensures ContextsAre(Step(r, run[|run| - 1]), run)
  {
  }

  lemma SwitchKeepsContexts(r: Ring, run: seq<Event>)
    requires run != [] && r == RunOf(NO_TASKS, run[..|run| - 1]) && run[|run| - 1].Switch?
    requires WellFormed(r) && ContextsAre(r, run[..|run| - 1]) && r.tasks != [] && r.switches != 0
    ensures ContextsAre(Step(r, run[|run| - 1]), run)
  {
    var sp := run[|run| - 1].stackPointer;
    var n, saved, r' := NextFrom(r.tasks, 1), Saved(r.tasks, sp), Switched(r, sp);
    assert forall i :: 0 < i < |r.tasks| ==> saved[i] == r.tasks[i];
    forall i | 0 < i < |r'.tasks|
      ensures r'.tasks[i].context.stackPointer == Expected(run, r'.tasks[i].id)
    {
      var k := if i < |r.tasks| - n then n + i else i - (|r.tasks| - n);
      assert r'.tasks[i] == saved[k];
    }
  }

  // ---------- what a run has done to each task ----------

  /** The events that have created a task, in their order: the task with id k was created by the k-th. */
  function Creations(run: seq<Event>): (made: seq<Event>)
    ensures forall i :: 0 <= i < |made| ==> made[i].Add?
  {
    if run == [] then []
    else
      var before, e := Creations(run[..|run| - 1]), run[|run| - 1];
      if e.Add? && e.granted && e.context.cr3 != 0 && e.context.instructionPointer != 0 && e.context.stackPointer != 0
      then before + [e] else before
  }

  /** The last call to block or to unblock a task since it was created is one to block it. */
  predicate BlockedLast(run: seq<Event>, id: nat) {
    run != [] &&
    var before, e := run[..|run| - 1], run[|run| - 1];
    if |Creations(before)| < id then false
    else if e == Block(id) then true
    else if e == Unblock(id) then false
    else BlockedLast(before, id)
  }

  /** The task is as its creation and the calls since then have made it, apart from its stack pointer. */
  predicate IsOfRun(t: Task, run: seq<Event>) {
    && 0 < t.id <= |Creations(run)|
    && var made := Creations(run)[t.id - 1];
    && t.blockable == made.blockable
    && t.context.cr3 == made.context.cr3
    && t.context.instructionPointer == made.context.instructionPointer
    && (t.blocked <==> made.blockable && BlockedLast(run, t.id))
  }

  /** Where a task of the ring was before a step. */
  function Origin(r: Ring, e: Event, i: nat): (k: nat)
    requires WellFormed(r) && i < |Step(r, e).tasks|
    ensures k == |r.tasks| <==> i == |r.tasks|
    ensures k <= |r.tasks|
    ensures e.Block? || e.Unblock? ==> k == i
    ensures !e.Block? && !e.Unblock? && k < |r.tasks| ==>
              var t, t' := r.tasks[k], Step(r, e).tasks[i];
              t'.(context := t.context) == t && t'.context.(stackPointer := t.context.stackPointer) == t.context
  {
    if e.Switch? && r.switches != 0 && r.tasks != [] then
      var n := NextFrom(r.tasks, 1);
      if i < |r.tasks| - n then n + i else i - (|r.tasks| - n)
    else i
  }

  /** Every creation has its task, and every task is as the run has made it. */
  ghost predicate RingOfRun(r: Ring, run: seq<Event>) {
    |r.tasks| == |Creations(run)| && forall i :: 0 <= i < |r.tasks| ==> IsOfRun(r.tasks[i], run)
  }

  /** One more event, for a task that was in the ring before. */
  lemma KnownTaskAfter(t: Task, t': Task, run: seq<Event>)
    requires run != [] && IsOfRun(t, run[..|run| - 1])
    requires match run[|run| - 1]
             case Block(id) => t' == if t.id == id && t.blockable then t.(blocked := true) else t
             case Unblock(id) => t' == if t.id == id then t.(blocked := false) else t
             case _ => t'.(context := t.context) == t && t'.context.(stackPointer := t.context.stackPointer) == t.context
    ensures IsOfRun(t', run)
  {
    var made := Creations(run[..|run| - 1]);
    assert |made| <= |Creations(run)| && Creations(run)[t.id - 1] == made[t.id - 1];
    assert !(|made| < t.id);
  }

  /** And for the one that it creates. */
  lemma NewTaskAfter(r: Ring, run: seq<Event>)
    requires run != [] && |r.tasks| == |Creations(run[..|run| - 1])| && |Step(r, run[|run| - 1]).tasks| > |r.tasks|
    ensures IsOfRun(Step(r, run[|run| - 1]).tasks[|r.tasks|], run)
  {
    var e := run[|run| - 1];
    assert e.Add? && Creations(run) == Creations(run[..|run| - 1]) + [e];
  }

  lemma RingAfterEvent(r: Ring, run: seq<Event>)
    requires run != [] && WellFormed(r) && RingOfRun(r, run[..|run| - 1])
    ensures RingOfRun(Step(r, run[|run| - 1]), run)
  {
    var e := run[|run| - 1];
    var r' := Step(r, e);
    assert |r'.tasks| == |Creations(run)| by {
      hide NextFrom, WellFormed;
    }
    forall i: nat | i < |r'.tasks|
      ensures IsOfRun(r'.tasks[i], run)
    {
      var k := Origin(r, e, i);
      hide IsOfRun, Creations;
      if k < |r.tasks| {
        assert IsOfRun(r.tasks[k], run[..|run| - 1]);
        KnownTaskAfter(r.tasks[k], r'.tasks[i], run);
      } else {
        NewTaskAfter(r, run);
      }
    }
  }

  /** In every run, every task of the ring has the address space, the start address and the kind that its
      creation gave it, and is blocked exactly if it can be and was last told to be. */
  lemma {:induction false} TasksAreOfRun(run: seq<Event>)
    ensures RingOfRun(RunOf(NO_TASKS, run), run)
    decreases |run|
  {
    if run != [] {
      TasksAreOfRun(run[..|run| - 1]);
      RunKeeps(NO_TASKS, run[..|run| - 1]);
      hide RingOfRun, Step, WellFormed;
      RingAfterEvent(RunOf(NO_TASKS, run[..|run| - 1]), run);
    }
  }

  /** Blocking and unblocking set the flag of the one task with the id, and change nothing else. */
  lemma MarkingIsLocal(r: Ring, id: nat)
    requires WellFormed(r)
    ensures Step(r, Block(id)).switches == Step(r, Unblock(id)).switches == r.switches
    ensures |Step(r, Block(id)).tasks| == |Step(r, Unblock(id)).tasks| == |r.tasks|
    ensures forall i :: 0 <= i < |r.tasks| && r.tasks[i].id != id ==>
              Step(r, Block(id)).tasks[i] == Step(r, Unblock(id)).tasks[i] == r.tasks[i]
    ensures forall i :: 0 <= i < |r.tasks| && r.tasks[i].id == id ==>
              && Step(r, Block(id)).tasks[i] == r.tasks[i].(blocked := r.tasks[i].blockable)
              && Step(r, Unblock(id)).tasks[i] == r.tasks[i].(blocked := false)
  {
  }

  /** Which task a switch starts: the first time the head, later the next one round the ring that is not
      blocked, and none if all the others are. */
  lemma StartsNextReady(r: Ring, stackPointer: nat)
    requires WellFormed(r) && r.tasks != []
    ensures r.switches == 0 ==> Started(r, stackPointer) == [r.tasks[0].context] && Switched(r, stackPointer).tasks == r.tasks
    ensures r.switches != 0 ==>
              (Started(r, stackPointer) == [] <==> forall i :: 0 < i < |r.tasks| ==> r.tasks[i].blocked)
    ensures r.switches != 0 && Started(r, stackPointer) != [] ==>
              (exists n :: 0 < n < |r.tasks| && !r.tasks[n].blocked && (forall i :: 0 < i < n ==> r.tasks[i].blocked)
                           && Started(r, stackPointer) == [r.tasks[n].context] && Switched(r, stackPointer).tasks[0] == r.tasks[n])
  {
    hide WellFormed;
    if r.switches != 0 {
      var n := NextFrom(r.tasks, 1);
      assert n < |r.tasks| ==> Switched(r, stackPointer).tasks[0] == r.tasks[n];
    }
  }

  /** A later switch keeps the order round the ring, leaves the head with the stack pointer that was passed
      in, and every other task as it is; the head stays the head if no task is started. */
  lemma SwitchTurnsTheRing(r: Ring, stackPointer: nat)
    requires r.tasks != [] && r.switches != 0
    ensures Switched(r, stackPointer).switches == r.switches + 1
    ensures var left := r.tasks[0 := r.tasks[0].(context := r.tasks[0].context.(stackPointer := stackPointer))];
            && (exists n :: 0 < n <= |left| && Switched(r, stackPointer).tasks == left[n..] + left[..n])
            && (Started(r, stackPointer) == [] ==> Switched(r, stackPointer).tasks == left)
  {
    var left := r.tasks[0 := r.tasks[0].(context := r.tasks[0].context.(stackPointer := stackPointer))];
    var n := NextFrom(r.tasks, 1);
    assert Switched(r, stackPointer).tasks == left[n..] + left[..n];
  }

  /** The task that a switch starts is one of the ring, and not the running one unless it is the first. */
  lemma StartedTask(r: Ring, stackPointer: nat) returns (n: nat)
    requires WellFormed(r) && Started(r, stackPointer) != []
    ensures n < |r.tasks| && (n > 0 || r.switches == 0) && Started(r, stackPointer) == [r.tasks[n].context]
    ensures Switched(r, stackPointer).tasks != [] && Switched(r, stackPointer).tasks[0] == r.tasks[n]
  {
    n := 0;
    if r.switches != 0 {
      n := NextFrom(r.tasks, 1);
      assert Switched(r, stackPointer).tasks[0] == r.tasks[n];
    }
  }

  /** What a task that does not run is started with. */
  lemma ContextOfTask(run: seq<Event>, n: nat)
    requires n < |RunOf(NO_TASKS, run).tasks| && (n > 0 || RunOf(NO_TASKS, run).switches == 0)
    ensures WellFormed(RunOf(NO_TASKS, run))
    ensures var t := RunOf(NO_TASKS, run).tasks[n];
            && 0 < t.id <= |Creations(run)|
            && t.context.cr3 == Creations(run)[t.id - 1].context.cr3
            && t.context.instructionPointer == Creations(run)[t.id - 1].context.instructionPointer
            && t.context.stackPointer == Expected(run, t.id)
  {
    ContextsKept(run);
    TasksAreOfRun(run);
    hide RunOf, Expected, Creations, WellFormed;
    assert IsOfRun(RunOf(NO_TASKS, run).tasks[n], run);
  }

  /** Whenever a switch starts a task, it returns the address space and the start address that the task was
      created with, and the stack pointer that was passed in when it was last left, or its first one. */
  lemma ContextIntegrity(run: seq<Event>, stackPointer: nat)
    requires Started(RunOf(NO_TASKS, run), stackPointer) != []
    ensures var r := RunOf(NO_TASKS, run); var next := Switched(r, stackPointer).tasks[0];
            && next in r.tasks && 0 < next.id <= |Creations(run)|
            && Started(r, stackPointer)[0].cr3 == Creations(run)[next.id - 1].context.cr3
            && Started(r, stackPointer)[0].instructionPointer == Creations(run)[next.id - 1].context.instructionPointer
            && Started(r, stackPointer)[0].stackPointer == Expected(run, next.id)
  {
    RunKeeps(NO_TASKS, run);
    var r := RunOf(NO_TASKS, run);
    hide RunOf, Expected, Creations, WellFormed, Switched, Started;
    var n := StartedTask(r, stackPointer);
    ContextOfTask(run, n);
  }
}
