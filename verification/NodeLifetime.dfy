/** Reference counting of file-system nodes: a removed node is destroyed by the close that drops its
    last reference. */
module NodeLifetime {

  datatype NodeState = NodeState(openReferences: nat, removed: bool, destroyed: nat)

  datatype NodeEvent = OpenNode | CloseNode | MarkNode

  /** The counter has 64 bits. */
  const WORD_LIMIT: nat := 0x1_0000_0000_0000_0000

  /** What callers keep to: a close follows an open, a node is marked for removal while open, and nobody
      opens it so often that the counter wraps. */
  predicate Legal(s: NodeState, e: NodeEvent) {
    if e == OpenNode then s.openReferences + 1 < WORD_LIMIT else s.openReferences > 0
  }

  function Step(s: NodeState, e: NodeEvent): NodeState {
    match e
    case OpenNode => if s.removed then s else s.(openReferences := (s.openReferences + 1) % WORD_LIMIT)
    case CloseNode =>
      var left := (s.openReferences + WORD_LIMIT - 1) % WORD_LIMIT;
      NodeState(left, s.removed, s.destroyed + if left == 0 && s.removed then 1 else 0)
    case MarkNode => s.(removed := true)
  }

  predicate LegalRun(s: NodeState, run: seq<NodeEvent>)
    decreases |run|
  {
    run == [] || (Legal(s, run[0]) && LegalRun(Step(s, run[0]), run[1..]))
  }

  function RunOf(s: NodeState, run: seq<NodeEvent>): NodeState
    decreases |run|
  {
    if run == [] then s else RunOf(Step(s, run[0]), run[1..])
  }

  /** Destroyed exactly when removed and closed, and never twice. */
  predicate Sound(s: NodeState) {
    s.openReferences < WORD_LIMIT && s.destroyed == if s.removed && s.openReferences == 0 then 1 else 0
  }

  const NEW_NODE := NodeState(0, false, 0)

  /** In every run a node that is new, or sound, is destroyed at most once: it has been exactly if it is
      removed and nobody holds it. */
  lemma {:induction false} DestroyedOnce(s: NodeState, run: seq<NodeEvent>)
    requires Sound(s) && LegalRun(s, run)
    ensures Sound(RunOf(s, run))
    decreases |run|
  {
    if run != [] {
      DestroyedOnce(Step(s, run[0]), run[1..]);
    }
  }

  /** The moment: whatever has happened before, an event destroys the node exactly if it is the close
      that drops the last reference of a removed node. */
  lemma DestroyedAtLastClose(s: NodeState, run: seq<NodeEvent>, e: NodeEvent)
    requires Sound(s) && LegalRun(s, run) && Legal(RunOf(s, run), e)
    ensures var before := RunOf(s, run);
            Step(before, e).destroyed != before.destroyed <==> e == CloseNode && before.removed && before.openReferences == 1
    ensures var before := RunOf(s, run);
            Step(before, e).destroyed != before.destroyed ==> before.destroyed == 0 && Step(before, e).destroyed == 1
  {
    DestroyedOnce(s, run);
  }

  /** Once a node is removed it stays removed, no open succeeds, and references only fall. */
  lemma {:induction false} RemovedForGood(s: NodeState, run: seq<NodeEvent>)
    requires s.removed && s.openReferences < WORD_LIMIT && LegalRun(s, run)
    ensures RunOf(s, run).removed && RunOf(s, run).openReferences <= s.openReferences
    ensures RunOf(s, run).openReferences == s.openReferences - Closes(run)
    decreases |run|
  {
    if run != [] {
      RemovedForGood(Step(s, run[0]), run[1..]);
    }
  }

  function Opens(run: seq<NodeEvent>): nat {
    if run == [] then 0 else (if run[0] == OpenNode then 1 else 0) + Opens(run[1..])
  }

  /** As long as a node is not removed its references are the opens that are not yet matched by a close. */
  lemma {:induction false} CountsReferences(s: NodeState, run: seq<NodeEvent>)
    requires !s.removed && s.openReferences < WORD_LIMIT && LegalRun(s, run)
    ensures MarkNode !in run ==> !RunOf(s, run).removed
    ensures MarkNode !in run ==> RunOf(s, run).openReferences == s.openReferences + Opens(run) - Closes(run)
    ensures MarkNode in run ==> RunOf(s, run).removed
    decreases |run|
  {
    if run != [] {
      assert run == [run[0]] + run[1..];
      if run[0] == MarkNode {
        RemovedForGood(Step(s, run[0]), run[1..]);
      } else {
        CountsReferences(Step(s, run[0]), run[1..]);
      }
    }
  }

  /** Opening a node, marking it and closing it again destroys it exactly if nobody else holds it. */
  lemma MarkedWhileOpen(s: NodeState)
    requires Sound(s) && !s.removed
    ensures var s' := Step(Step(Step(s, OpenNode), MarkNode), CloseNode);
            && s'.removed && s'.openReferences == s.openReferences && Sound(s')
            && (s'.destroyed > s.destroyed <==> s.openReferences == 0)
  {
  }

  function Closes(run: seq<NodeEvent>): nat {
    if run == [] then 0 else (if run[0] == CloseNode then 1 else 0) + Closes(run[1..])
  }

  /** A file or directory, as far as its lifetime goes. */
  class IFNode {
    const isDirectory: bool
    var openReferences: nat
    var removed: bool
    ghost var destroyed: nat

    ghost function State(): NodeState
      reads this
    {
      NodeState(openReferences, removed, destroyed)
    }

    constructor (isDirectory: bool)
      ensures State() == NEW_NODE && Sound(State()) && this.isDirectory == isDirectory
    {
      this.isDirectory := isDirectory;
      openReferences, removed, destroyed := 0, false, 0;
    }

    /** Takes a reference, unless the node has been removed. */
    method Open() returns (ok: bool)
      modifies this
      ensures State() == Step(old(State()), OpenNode) && ok == !old(removed)
    {
      if removed {
        return false;
      }
      openReferences := (openReferences + 1) % WORD_LIMIT;
      return true;
    }

    /** Drops a reference; the last one of a removed node destroys it. */
    method Close()
      modifies this
      ensures State() == Step(old(State()), CloseNode)
    {
      openReferences := (openReferences + WORD_LIMIT - 1) % WORD_LIMIT;
      if openReferences == 0 {
        Destroy(removed);
      }
    }

    method MarkForRemoval()
      modifies this
      ensures State() == Step(old(State()), MarkNode)
    {
      removed := true;
    }

    method Destroy(deleted: bool)
      modifies this`destroyed
      ensures destroyed == old(destroyed) + if deleted then 1 else 0
    {
      if deleted {
        destroyed := destroyed + 1;
      }
    }
  }
}
