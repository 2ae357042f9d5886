/** Block storage of files and directories: looking blocks up, creating them on demand, and giving
    the whole tree back. */
module DataNodes {
  import opened Common
  import opened BlockTree

  datatype Response = Ok(block: Address) | OutOfBounds | NoMemory | DivideError

  /** From places to places' only the given block is new among the terminal vectors. */
  ghost predicate Extends(places: Places, places': Places, block: Address) {
    && (forall a :: a in places ==> a in places' && places'[a] == places[a])
    && (forall a :: a in places' && a !in places && places'[a].level == 0 ==> a == block)
  }

  lemma ExtendsTwice(p: Places, p': Places, p'': Places, block: Address)
    requires Extends(p, p', 0) && Extends(p', p'', block) && 0 !in p'
    ensures Extends(p, p'', block)
  {
  }

  /** Where the block tree answered before, it answers the same after being extended. */
  lemma AnswersKept(places: Places, places': Places, block: Address, id: nat, b: Address)
    requires Extends(places, places', block) && Answers(places, id, b) && 0 !in places'
    requires block != 0 ==> block in places' && places'[block] != Place(0, id)
    ensures Answers(places', id, b)
  {
  }

  // ---------- the vectors below a vector ----------

  ghost predicate IsBelow(places: Places, a: Address, b: Address) {
    a in places && b in places && places[b].level < places[a].level
    && Lift(places[b].index, places[a].level - places[b].level) == places[a].index
  }

  /** Vector b lies below one of the first n slots of vector a. */
  ghost predicate BelowSlots(places: Places, a: Address, n: nat, b: Address) {
    exists i: nat :: i < n && BelowSlot(places, a, i, b)
  }

  ghost predicate BelowSlot(places: Places, a: Address, i: nat, b: Address) {
    && a in places && b in places && places[a].level > 0 && places[b].level < places[a].level
    && Lift(places[b].index, places[a].level - 1 - places[b].level) == ChildPlace(places[a], i).index
  }

  lemma BelowStart(places: Places, a: Address)
    ensures forall b :: !BelowSlots(places, a, 0, b)
  {
  }

  lemma {:induction false} LiftLast(id: nat, n: nat)
    requires n > 0
    ensures Lift(id, n) == Lift(id, n - 1) / JUNCTION_SIZE
  {
    if n > 1 {
      LiftLast(id / JUNCTION_SIZE, n - 1);
    }
  }

  lemma BelowEnd(places: Places, a: Address)
    requires a in places && places[a].level > 0
    ensures forall b :: BelowSlots(places, a, JUNCTION_SIZE, b) <==> IsBelow(places, a, b)
  {
    forall b
      ensures BelowSlots(places, a, JUNCTION_SIZE, b) <==> IsBelow(places, a, b)
    {
      if b in places && places[b].level < places[a].level {
        LiftLast(places[b].index, places[a].level - places[b].level);
        var index := Lift(places[b].index, places[a].level - 1 - places[b].level);
        hide ChildPlace, Lift;
        if IsBelow(places, a, b) {
          assert BelowSlot(places, a, index % JUNCTION_SIZE, b);
        }
      }
    }
  }

  lemma EmptySlot(vectors: Vectors, places: Places, root: Address, a: Address, i: nat)
    requires IsBlockTree(vectors, places, root) && a in places && places[a].level > 0 && i < JUNCTION_SIZE
    requires a in vectors && vectors[a].Junction? && |vectors[a].junction| == JUNCTION_SIZE && vectors[a].junction[i] == 0
    ensures forall b :: BelowSlots(places, a, i + 1, b) <==> BelowSlots(places, a, i, b)
  {
    assert 0 !in places && places[a].level <= places[root].level;
    hide IsBlockTree, ChildPlace, BelowSlots, Lift;
    forall b
      ensures BelowSlots(places, a, i + 1, b) <==> BelowSlots(places, a, i, b)
    {
      if BelowSlot(places, a, i, b) {
        var c := Ancestor(vectors, places, root, b, places[a].level - 1);
        SlotHolds(vectors, places, root, a, i, c);
      }
    }
  }

  lemma FilledSlot(vectors: Vectors, places: Places, root: Address, a: Address, i: nat, child: Address)
    requires IsBlockTree(vectors, places, root) && a in places && places[a].level > 0 && i < JUNCTION_SIZE
    requires child in places && places[child] == ChildPlace(places[a], i)
    ensures child in vectors && (vectors[child].Junction? <==> places[child].level > 0)
    ensures forall b :: BelowSlots(places, a, i + 1, b) <==> BelowSlots(places, a, i, b) || b == child || IsBelow(places, child, b)
    ensures forall b :: b == child || IsBelow(places, child, b) ==> !BelowSlots(places, a, i, b) && IsBelow(places, a, b)
    ensures !IsBelow(places, child, child) && (vectors[child].Terminal? ==> forall b :: !IsBelow(places, child, b))
  {
    assert VectorFits(vectors[child], places[child]);
    forall b
      ensures BelowSlots(places, a, i + 1, b) <==> BelowSlots(places, a, i, b) || b == child || IsBelow(places, child, b)
      ensures b == child || IsBelow(places, child, b) ==> !BelowSlots(places, a, i, b) && IsBelow(places, a, b)
    {
      if BelowSlot(places, a, i, b) {
        BelowEnd(places, a);
        assert BelowSlots(places, a, JUNCTION_SIZE, b);
      }
      hide IsBlockTree, BelowSlots, IsBelow, BelowSlot, Lift;
    }
  }

  lemma NothingRepeats()
    ensures Distinct<Address>([])
  {
  }

  lemma Joined(s: seq<Address>, t: seq<Address>)
    requires Distinct(s) && Distinct(t) && forall b :: b in t ==> b !in s
    ensures Distinct(s + t)
  {
    forall i, j | 0 <= i < j < |s + t|
      ensures (s + t)[i] != (s + t)[j]
    {
      if i < |s| <= j {
        assert (s + t)[i] in s && (s + t)[j] in t;
      }
    }
  }

  lemma Appended(s: seq<Address>, t: seq<Address>, p: Address)
    requires Distinct(s) && Distinct(t) && (forall b :: b in t ==> b !in s) && p !in s && p !in t
    ensures Distinct(s + t + [p])
  {
    Joined(t, [p]);
    assert forall b :: b in t + [p] ==> b in t || b == p;
    Joined(s, t + [p]);
    assert s + (t + [p]) == s + t + [p];
  }

  lemma AllBelowRoot(vectors: Vectors, places: Places, root: Address)
    requires IsBlockTree(vectors, places, root)
    ensures forall b :: b in places <==> b == root || IsBelow(places, root, b)
  {
    forall b | b in places && b != root
      ensures IsBelow(places, root, b)
    {
      assert places[b].level <= places[root].level;
      var c := Ancestor(vectors, places, root, b, places[root].level);
      OnlyRoot(vectors, places, root, c);
      if places[b].level == places[root].level {
        OnlyRoot(vectors, places, root, b);
      }
    }
  }

  class DataNode {
    var vectors: Vectors
    var data: Address

    // what the heap is going to return: addresses, or 0 where it refuses
    var heap: seq<Address>
    ghost var refusals: nat

    // the addresses that have been given back to the heap
    var freed: seq<Address>

    ghost var places: Places

    ghost predicate FreshHeap()
      reads this
    {
      && (forall i :: 0 <= i < |heap| && heap[i] != 0 ==> heap[i] !in vectors)
      && (forall i, j :: 0 <= i < j < |heap| && heap[i] != 0 ==> heap[i] != heap[j])
    }

    ghost predicate Valid()
      reads this
    {
      IsBlockTree(vectors, places, data) && FreshHeap()
    }

    ghost function Depth(): nat
      requires Valid()
      reads this
    {
      places[data].level
    }

    /** The block of a number, or null. */
    ghost function Lookup(id: nat): Address
      requires Valid()
      reads this
    {
      WeakBlock(vectors, data, Depth(), id)
    }

    method HeapAllocate() returns (p: Address)
      modifies this`heap, this`refusals
      ensures p == (if old(heap) == [] then 0 else old(heap)[0])
      ensures heap == (if old(heap) == [] then [] else old(heap)[1..])
      ensures refusals == old(refusals) + if p == 0 then 1 else 0
    {
      if heap == [] {
        refusals := refusals + 1;
        return 0;
      }
      p := heap[0];
      heap := heap[1..];
      if p == 0 {
        refusals := refusals + 1;
      }
    }

    // ---------- looking up ----------

    method JunctionGetWeakBlock(a: Address, blockId: nat) returns (block: Address, fault: bool)
      requires Valid() && a in places && 0 < places[a].level
      ensures fault <==> places[a].level > MAX_DEPTH
      ensures !fault ==> block == WeakBlock(vectors, a, places[a].level, blockId)
      decreases places[a].level
    {
      hide IsBlockTree, ChildPlace, FreshHeap, WeakBlock, Power, JunctionId, SubId;
      SlotsFit(vectors, places, data, a, 0);
      var depth := vectors[a].depth;
      WeakBlockStep(vectors, a, depth, blockId);
      if depth == 1 {
        if blockId >= JUNCTION_SIZE {
          return 0, false;
        }
        return vectors[a].junction[blockId], false;
      }
      var reductor := Reductor(depth);
      if reductor == 0 {
        return 0, true;
      }
      var junctionId, subId := blockId / reductor, blockId % reductor;
      if junctionId >= JUNCTION_SIZE {
        return 0, false;
      }
      SlotsFit(vectors, places, data, a, junctionId);
      var subVector := vectors[a].junction[junctionId];
      if subVector == 0 {
        return 0, false;
      }
      block, fault := JunctionGetWeakBlock(subVector, subId);
    }

    /** The block of a number, which is the one terminal vector placed there. */
    method GetWeakBlock(blockId: nat) returns (block: Address, fault: bool)
      requires Valid()
      ensures fault <==> Depth() > MAX_DEPTH
      ensures !fault ==> block == Lookup(blockId) && Answers(places, blockId, block)
    {
      LookupAnswers(vectors, places, data, blockId);
      block, fault := JunctionGetWeakBlock(data, blockId);
    }

    // ---------- creating a block ----------

    /** Hangs a new empty vector in an empty slot, if the heap has one. */
    method NewChild(a: Address, i: nat) returns (c: Address)
      requires Valid() && a in places && places[a].level > 0 && i < JUNCTION_SIZE
      requires a in vectors && vectors[a].Junction? && |vectors[a].junction| == JUNCTION_SIZE && vectors[a].junction[i] == 0
      modifies this`vectors, this`heap, this`refusals, this`places
      ensures Valid() && refusals == old(refusals) + if c == 0 then 1 else 0
      ensures c == 0 ==> vectors == old(vectors) && places == old(places)
      ensures c != 0 ==> c !in old(places) && places == old(places)[c := ChildPlace(old(places)[a], i)]
    {
      assert vectors.Keys == places.Keys;
      hide IsBlockTree, ChildPlace;
      c := HeapAllocate();
      if c != 0 {
        ghost var v := if places[a].level == 1 then Terminal else EmptyJunction(places[a].level - 1);
        AddChild(vectors, places, data, a, i, c, v);
        DepthIsLevel(a);
        var vector := if vectors[a].depth == 1 then Terminal else EmptyJunction(vectors[a].depth - 1);
        places := places[c := ChildPlace(places[a], i)];
        vectors := WithChild(vectors, a, i, c, vector);
      }
    }

    lemma DepthIsLevel(a: Address)
      requires Valid() && a in places && places[a].level > 0
      ensures a in vectors && vectors[a].Junction? && vectors[a].depth == places[a].level
    {
      SlotsFit(vectors, places, data, a, 0);
    }

    /** The block with the given number below junction a, created if it is missing. */
    method JunctionGetBlock(a: Address, blockId: nat) returns (r: Response)
      requires Valid() && a in places && places[a].level > 0
      modifies this`vectors, this`heap, this`refusals, this`places
      ensures Valid() && a in places && places[a] == old(places[a])
      ensures r == DivideError <==> places[a].level > MAX_DEPTH
      ensures r == OutOfBounds <==> places[a].level <= MAX_DEPTH && blockId >= Power(places[a].level)
      ensures refusals == old(refusals) + if r == NoMemory then 1 else 0
      ensures Extends(old(places), places, if r.Ok? then r.block else 0)
      ensures r.Ok? ==> r.block != 0 && BlockIs(places, BlockNumber(places[a], blockId), r.block)
      ensures r == NoMemory ==> Answers(old(places), BlockNumber(places[a], blockId), 0)
      decreases places[a].level
    {
      hide IsBlockTree, ChildPlace, FreshHeap, Power, JunctionId, SubId, BlockNumber;
      ghost var place, places0 := places[a], places;
      SlotsFit(vectors, places, data, a, 0);
      StepDown(place, blockId);
      var depth := vectors[a].depth;
      WeakBlockStep(vectors, a, depth, blockId);
      if depth == 1 {
        if blockId >= JUNCTION_SIZE {
          return OutOfBounds;
        }
        SlotsFit(vectors, places, data, a, blockId);
        var tdv := vectors[a].junction[blockId];
        LeafNumber(ChildPlace(place, blockId));
        if tdv == 0 {
          NoBlockBelow(vectors, places, data, a, blockId, 0);
          tdv := NewChild(a, blockId);
          if tdv == 0 {
            return NoMemory;
          }
        }
        return Ok(tdv);
      }

      var reductor := Reductor(depth);
      if reductor == 0 {
        return DivideError;
      }
      var junctionId, subId := blockId / reductor, blockId % reductor;
      if junctionId >= JUNCTION_SIZE {
        return OutOfBounds;
      }
      SlotsFit(vectors, places, data, a, junctionId);
      var subVector := vectors[a].junction[junctionId];
      if subVector == 0 {
        NoBlockBelow(vectors, places, data, a, junctionId, subId);
        subVector := NewChild(a, junctionId);
        if subVector == 0 {
          return NoMemory;
        }
      }
      ghost var places1 := places;
      r := JunctionGetBlock(subVector, subId);
      SlotsFit(vectors, places, data, a, 0);
      ExtendsTwice(places0, places1, places, if r.Ok? then r.block else 0);
    }

    lemma LeafNumber(place: Place)
      requires place.level == 0
      ensures BlockNumber(place, 0) == place.index
    {
    }

    /** A new root above the old one, if the heap has one. */
    method Grow() returns (ok: bool)
      requires Valid()
      modifies this`vectors, this`data, this`heap, this`refusals, this`places
      ensures Valid() && Extends(old(places), places, 0)
      ensures Depth() == old(Depth()) + if ok then 1 else 0
      ensures refusals == old(refusals) + if ok then 0 else 1
    {
      assert vectors.Keys == places.Keys && data in places && places[data].level > 0;
      DepthIsLevel(data);
      hide IsBlockTree, RootJunction;
      var mem := HeapAllocate();
      if mem == 0 {
        return false;
      }
      AddRoot(vectors, places, data, mem);
      places := places[mem := Place(places[data].level + 1, 0)];
      vectors := vectors[mem := RootJunction(vectors[data].depth + 1, data)];
      data := mem;
      ok := true;
    }

    /** Every 64-bit number fits a tree of the largest depth that can be divided. */
    static lemma NumbersFit(blockId: nat)
      ensures blockId >= Power(MAX_DEPTH) ==> blockId >= SIZE_LIMIT
    {
      PowersFit(MAX_DEPTH);
    }

    /** The block of a number, created if it is missing; the tree grows at its root until the number
        fits, at most four times in one call. */
    method GetBlock(blockId: nat) returns (outcome: BlockOutcome)
      requires Valid()
      modifies this`vectors, this`data, this`heap, this`refusals, this`places
      ensures Valid()
      ensures outcome.Block? ==> outcome.block != 0 && Lookup(blockId) == outcome.block
      ensures forall id: nat :: id != blockId || !outcome.Block? ==> Lookup(id) == old(Lookup(id))
      ensures old(Lookup(blockId)) != 0 && old(Depth()) <= MAX_DEPTH ==> outcome == Block(old(Lookup(blockId)))
      ensures old(Depth()) <= Depth() <= old(Depth()) + 4
      ensures outcome == Fault <==> Depth() > MAX_DEPTH
      ensures old(Depth()) > MAX_DEPTH ==> outcome == Fault
      ensures outcome == Fault && blockId < SIZE_LIMIT && old(Depth()) <= MAX_DEPTH ==> refusals > old(refusals)
      ensures outcome == Null ==> refusals > old(refusals) || blockId >= Power(old(Depth()) + 4)
    {
      hide IsBlockTree, FreshHeap, Power, BlockNumber, WeakBlock, Extends, BlockIs, Answers;
      ghost var vectors0, places0, data0 := vectors, places, data;
      NumbersFit(blockId);
      var remainingAttempts := 5;
      RootNumber(blockId);
      var status := JunctionGetBlock(data, blockId);
      LookupsKept(vectors0, places0, data0, vectors, places, data, blockId, status);
      while status.OutOfBounds? || status.NoMemory?
        invariant Valid() && 1 <= remainingAttempts <= 5
        invariant Depth() == old(Depth()) + 5 - remainingAttempts && refusals >= old(refusals)
        invariant status == DivideError <==> Depth() > MAX_DEPTH
        invariant status == OutOfBounds ==> blockId >= Power(Depth())
        invariant status == NoMemory ==> refusals > old(refusals)
        invariant Depth() > MAX_DEPTH && blockId < SIZE_LIMIT && old(Depth()) <= MAX_DEPTH ==> refusals > old(refusals)
        invariant Extends(places0, places, if status.Ok? then status.block else 0)
        invariant status.Ok? ==> status.block != 0 && BlockIs(places, blockId, status.block)
        invariant old(Lookup(blockId)) != 0 && old(Depth()) <= MAX_DEPTH ==> status == Ok(old(Lookup(blockId)))
        decreases remainingAttempts
      {
        remainingAttempts := remainingAttempts - 1;
        if remainingAttempts == 0 {
          LookupsExtended(vectors0, places0, data0, vectors, places, data, 0, blockId);
          return Null;
        }
        ghost var places1 := places;
        RootNumber(blockId);
        var ok := Grow();
        ExtendsTwice(places0, places1, places, 0);
        if !ok {
          LookupsExtended(vectors0, places0, data0, vectors, places, data, 0, blockId);
          return Null;
        }
        ghost var places2 := places;
        RootNumber(blockId);
        status := JunctionGetBlock(data, blockId);
        RootNumber(blockId);
        ExtendsTwice(places0, places2, places, if status.Ok? then status.block else 0);
      }
      LookupsExtended(vectors0, places0, data0, vectors, places, data, if status.Ok? then status.block else 0, blockId);
      outcome := if status.Ok? then Block(status.block) else Fault;
    }

    lemma RootNumber(blockId: nat)
      requires Valid()
      ensures data in places && places[data].level > 0 && BlockNumber(places[data], blockId) == blockId && 0 !in places
    {
    }

    /** What lookups answer after the tree was extended by a block. */
    static lemma LookupsExtended(vectors: Vectors, places: Places, data: Address, vectors': Vectors, places': Places, data': Address, block: Address, blockId: nat)
      requires IsBlockTree(vectors, places, data) && IsBlockTree(vectors', places', data') && Extends(places, places', block)
      requires block != 0 ==> BlockIs(places', blockId, block)
      ensures forall id: nat :: id != blockId || block == 0 ==>
                WeakBlock(vectors', data', places'[data'].level, id) == WeakBlock(vectors, data, places[data].level, id)
      ensures block != 0 ==> WeakBlock(vectors', data', places'[data'].level, blockId) == block
    {
      assert OnePerPlace(places') && 0 !in places';
      hide IsBlockTree, Extends, OnePerPlace, WeakBlock, Answers;
      forall id: nat | id != blockId || block == 0
        ensures WeakBlock(vectors', data', places'[data'].level, id) == WeakBlock(vectors, data, places[data].level, id)
      {
        LookupAnswers(vectors, places, data, id);
        LookupAnswers(vectors', places', data', id);
        AnswersKept(places, places', block, id, WeakBlock(vectors, data, places[data].level, id));
      }
      if block != 0 {
        LookupAnswers(vectors', places', data', blockId);
      }
    }

    /** A block that existed is the one that is returned. */
    static lemma LookupsKept(vectors: Vectors, places: Places, data: Address, vectors': Vectors, places': Places, data': Address, blockId: nat, status: Response)
      requires IsBlockTree(vectors, places, data) && IsBlockTree(vectors', places', data') && Extends(places, places', if status.Ok? then status.block else 0)
      requires status == OutOfBounds ==> blockId >= Power(places[data].level)
      requires status == NoMemory ==> Answers(places, blockId, 0)
      requires status.Ok? ==> BlockIs(places', blockId, status.block)
      ensures WeakBlock(vectors, data, places[data].level, blockId) != 0 && status != DivideError ==> status == Ok(WeakBlock(vectors, data, places[data].level, blockId))
    {
      var b := WeakBlock(vectors, data, places[data].level, blockId);
      LookupAnswers(vectors, places, data, blockId);
      if b != 0 && status == OutOfBounds {
        BeyondRoot(vectors, places, data, blockId);
      }
    }

    /** No block has a number beyond the size of the tree. */
    lemma LookupBounded(id: nat)
      requires Valid() && id >= Power(Depth())
      ensures Lookup(id) == 0
    {
      BeyondRoot(vectors, places, data, id);
      LookupAnswers(vectors, places, data, id);
    }

    /** Different block numbers have different blocks. */
    lemma BlocksDiffer(i: nat, j: nat)
      requires Valid() && Lookup(i) != 0 && Lookup(i) == Lookup(j)
      ensures i == j
    {
      LookupAnswers(vectors, places, data, i);
      LookupAnswers(vectors, places, data, j);
    }

    // ---------- giving the tree back ----------

    /** Heap::Free. */
    method HeapFree(p: Address)
      requires p !in freed
      modifies this`freed
      ensures freed == old(freed) + [p]
    {
      freed := freed + [p];
    }

    /** Gives back every vector below junction a, each once and never before it has been read. */
    method DestroyJunction(a: Address) returns (ghost added: seq<Address>)
      requires Valid() && a in places && places[a].level > 0
      requires forall b :: b in freed ==> !IsBelow(places, a, b)
      modifies this`freed
      ensures freed == old(freed) + added && Distinct(added)
      ensures forall b :: b in added <==> IsBelow(places, a, b)
      decreases places[a].level
    {
      hide IsBlockTree, IsBelow, BelowSlots, Distinct, ChildPlace;
      assert Distinct<Address>([]) by {
        NothingRepeats();
      }
      added := [];
      BelowStart(places, a);
      var i := 0;
      while i < JUNCTION_SIZE
        invariant i <= JUNCTION_SIZE
        invariant freed == old(freed) + added && Distinct(added)
        invariant forall b :: b in added <==> BelowSlots(places, a, i, b)
      {
        SlotsFit(vectors, places, data, a, i);
        NothingRepeats();
        var child := vectors[a].junction[i];
        if child == 0 {
          EmptySlot(vectors, places, data, a, i);
        } else {
          FilledSlot(vectors, places, data, a, i, child);
          ghost var more := [];
          if vectors[child].Junction? {
            more := DestroyJunction(child);
          }
          HeapFree(child);
          Appended(added, more, child);
          added := added + more + [child];
        }
        i := i + 1;
      }
      BelowEnd(places, a);
    }

    /** Gives the whole tree back: every vector exactly once. */
    method Destroy() returns (ghost added: seq<Address>)
      requires Valid() && forall b :: b in freed ==> b !in places
      modifies this`freed
      ensures freed == old(freed) + added && Distinct(added)
      ensures forall b :: b in added <==> b in vectors
    {
      assert vectors.Keys == places.Keys && data in places && places[data].level > 0;
      AllBelowRoot(vectors, places, data);
      hide IsBlockTree, Distinct;
      added := DestroyJunction(data);
      HeapFree(data);
      Appended([], added, data);
      NothingRepeats();
      assert [] + added + [data] == added + [data];
      added := added + [data];
    }

    /** DataNode::Construct: an empty tree of depth 1.  The heap must have a vector for it. */
    constructor (supply: seq<Address>)
      requires supply != [] && supply[0] != 0
      requires forall i, j :: 0 <= i < j < |supply| && supply[i] != 0 ==> supply[i] != supply[j]
      ensures Valid() && Depth() == 1 && freed == [] && forall id: nat :: Lookup(id) == 0
    {
      vectors := map[supply[0] := EmptyJunction(1)];
      places := map[supply[0] := Place(1, 0)];
      data := supply[0];
      heap := supply[1..];
      refusals := 0;
      freed := [];
      new;
      forall id: nat
        ensures Lookup(id) == 0
      {
        LookupAnswers(vectors, places, data, id);
      }
    }
  }

  /** What GetBlock comes to: a block, null, or a division by a divisor that has wrapped to zero. */
  datatype BlockOutcome = Block(block: Address) | Null | Fault
}
