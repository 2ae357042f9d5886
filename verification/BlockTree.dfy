/** The radix-64 index of the blocks of a file or directory: a tree of junctions that grows at its
    root.  Addresses are numbers, 0 is the null pointer. */
module BlockTree {
  import opened Divisions

  const JUNCTION_SIZE: nat := 64
  const SIZE_LIMIT: nat := 0x1_0000_0000_0000_0000
  const MAX_DEPTH: nat := 11

  type Address = nat

  datatype Vector = Terminal | Junction(depth: nat, junction: seq<Address>)

  /** Where a vector belongs: a vector of level n and index x covers the blocks
      x * 64^n, ..., (x + 1) * 64^n - 1. */
  datatype Place = Place(level: nat, index: nat)

  type Vectors = map<Address, Vector>
  type Places = map<Address, Place>

  // ---------- powers of the junction size ----------

  function Power(n: nat): (p: nat)
    ensures p > 0
  {
    if n == 0 then 1 else JUNCTION_SIZE * Power(n - 1)
  }

  /** The divisor of a junction, computed in a 64-bit word. */
  method Reductor(depth: nat) returns (reductor: nat)
    requires depth > 0
    ensures reductor == if depth <= MAX_DEPTH then Power(depth - 1) else 0
    ensures reductor != 0 ==> forall blockId: nat :: JunctionId(blockId, depth) == blockId / reductor && SubId(blockId, depth) == blockId % reductor
  {
    reductor := 1;
    var r := 1;
    while r < depth
      invariant 1 <= r <= depth
      invariant reductor == if r <= MAX_DEPTH then Power(r - 1) else 0
    {
      PowersFit(r);
      reductor := reductor * JUNCTION_SIZE % SIZE_LIMIT;
      r := r + 1;
    }
  }

  /** The powers that fit a 64-bit word. */
  lemma PowersFit(r: nat)
    requires r > 0
    ensures r < MAX_DEPTH ==> Power(r) < SIZE_LIMIT
    ensures r == MAX_DEPTH ==> Power(r - 1) * JUNCTION_SIZE % SIZE_LIMIT == 0
    ensures Power(r) == Power(r - 1) * JUNCTION_SIZE
    ensures Power(11) == 4 * SIZE_LIMIT
  {
    assert Power(3) == 0x4_0000;
    assert Power(6) == 0x10_0000_0000;
    assert Power(9) == 0x40_0000_0000_0000;
    assert Power(10) == 0x1000_0000_0000_0000;
    assert Power(11) == 0x4_0000_0000_0000_0000;
    if r < MAX_DEPTH {
      PowerGrows(r, 10);
    }
  }

  lemma PowerGrows(m: nat, n: nat)
    requires m <= n
    ensures Power(m) <= Power(n)
  {
    if m < n {
      PowerGrows(m, n - 1);
    }
  }

  /** The part of a block number that a vector of the given level does not look at. */
  function Lift(id: nat, level: nat): nat {
    if level == 0 then id else Lift(id / JUNCTION_SIZE, level - 1)
  }

  lemma {:induction false} LiftIsQuotient(x: nat, s: nat, level: nat)
    requires s < Power(level)
    ensures Lift(x * Power(level) + s, level) == x
  {
    if level > 0 {
      var p := Power(level - 1);
      var id := x * Power(level) + s;
      assert id == JUNCTION_SIZE * (x * p) + s;
      assert id / JUNCTION_SIZE == x * p + s / JUNCTION_SIZE;
      LiftIsQuotient(x, s / JUNCTION_SIZE, level - 1);
    }
  }

  /** The absolute number of block s below a place. */
  function BlockNumber(place: Place, s: nat): nat {
    place.index * Power(place.level) + s
  }

  function ChildPlace(place: Place, i: nat): (child: Place)
    requires place.level > 0
    ensures child.level == place.level - 1
  {
    Place(place.level - 1, place.index * JUNCTION_SIZE + i)
  }

  function ParentPlace(place: Place): (parent: Place)
    ensures parent.level == place.level + 1
  {
    Place(place.level + 1, place.index / JUNCTION_SIZE)
  }

  function SlotOf(place: Place): (i: nat)
    ensures i < JUNCTION_SIZE
  {
    place.index % JUNCTION_SIZE
  }

  lemma ChildOfParent(place: Place, i: nat)
    requires place.level > 0 && i < JUNCTION_SIZE
    ensures ParentPlace(ChildPlace(place, i)) == place && SlotOf(ChildPlace(place, i)) == i
  {
  }

  /** Which child of a junction holds a block, and the number of the block within it. */
  function JunctionId(blockId: nat, level: nat): nat
    requires level > 0
  {
    blockId / Power(level - 1)
  }

  function SubId(blockId: nat, level: nat): (s: nat)
    requires level > 0
    ensures s < Power(level - 1)
  {
    blockId % Power(level - 1)
  }

  lemma SplitProduct(x: nat, j: nat, r: nat, p: nat)
    requires r < p
    ensures x * (JUNCTION_SIZE * p) + (j * p + r) == (x * JUNCTION_SIZE + j) * p + r
    ensures j < JUNCTION_SIZE <==> j * p + r < JUNCTION_SIZE * p
  {
    Distribute(x * JUNCTION_SIZE, j, p);
    assert x * (JUNCTION_SIZE * p) == x * JUNCTION_SIZE * p;
    Distribute(j, 1, p);
    Monotone(j + 1, JUNCTION_SIZE, p);
    Monotone(JUNCTION_SIZE, j, p);
  }

  /** One step down: the quotient selects the child, the remainder is the number within it. */
  lemma StepDown(place: Place, s: nat)
    requires place.level > 0
    ensures BlockNumber(place, s) == BlockNumber(ChildPlace(place, JunctionId(s, place.level)), SubId(s, place.level))
    ensures JunctionId(s, place.level) < JUNCTION_SIZE <==> s < Power(place.level)
  {
    var p, j, r := Power(place.level - 1), JunctionId(s, place.level), SubId(s, place.level);
    Quotient(s, p);
    SplitProduct(place.index, j, r, p);
  }

  // ---------- well-formed trees ----------

  predicate VectorFits(v: Vector, place: Place) {
    match v
    case Terminal => place.level == 0
    case Junction(depth, junction) => depth == place.level > 0 && |junction| == JUNCTION_SIZE
  }

  predicate ChildFits(vectors: Vectors, places: Places, a: Address, i: nat)
    requires a in vectors && a in places && vectors[a].Junction? && i < |vectors[a].junction|
  {
    var c := vectors[a].junction[i];
    c != 0 ==> c in places && places[a].level > 0 && places[c] == ChildPlace(places[a], i)
  }

  /** A vector hangs in the slot that its place tells. */
  predicate Hangs(vectors: Vectors, places: Places, c: Address, parent: Address)
    requires c in places
  {
    && parent in vectors && parent in places && vectors[parent].Junction? && |vectors[parent].junction| == JUNCTION_SIZE
    && places[parent] == ParentPlace(places[c]) && vectors[parent].junction[SlotOf(places[c])] == c
  }

  ghost predicate HangsSomewhere(vectors: Vectors, places: Places, c: Address)
    requires c in places
  {
    exists p :: Hangs(vectors, places, c, p)
  }

  ghost predicate Fitted(vectors: Vectors, places: Places) {
    vectors.Keys == places.Keys && 0 !in places && forall a :: a in vectors ==> VectorFits(vectors[a], places[a])
  }

  ghost predicate OnePerPlace(places: Places) {
    forall a, b :: a in places && b in places && places[a] == places[b] ==> a == b
  }

  ghost predicate ChildrenFit(vectors: Vectors, places: Places)
    requires Fitted(vectors, places)
  {
    forall a, i: nat :: a in vectors && vectors[a].Junction? && i < JUNCTION_SIZE ==> ChildFits(vectors, places, a, i)
  }

  ghost predicate AllHang(vectors: Vectors, places: Places, root: Address) {
    forall a {:trigger HangsSomewhere(vectors, places, a)} :: a in places && a != root ==> HangsSomewhere(vectors, places, a)
  }

  ghost predicate RootAbove(places: Places, root: Address) {
    root in places && places[root].index == 0 && places[root].level > 0 && forall a :: a in places ==> places[a].level <= places[root].level
  }

  ghost predicate IsBlockTree(vectors: Vectors, places: Places, root: Address) {
    && Fitted(vectors, places) && OnePerPlace(places) && ChildrenFit(vectors, places) && AllHang(vectors, places, root)
    && RootAbove(places, root)
  }

  // ---------- looking up a block ----------

  /** The block that a lookup below vector a, of the given level, ends at; null if there is none. */
  function WeakBlock(vectors: Vectors, a: Address, level: nat, blockId: nat): Address
    decreases level
  {
    if level == 0 then a
    else if a !in vectors || !vectors[a].Junction? || |vectors[a].junction| != JUNCTION_SIZE then 0
    else
      var junctionId := JunctionId(blockId, level);
      if junctionId >= JUNCTION_SIZE then 0
      else
        var sub := vectors[a].junction[junctionId];
        if sub == 0 then 0 else WeakBlock(vectors, sub, level - 1, SubId(blockId, level))
  }

  lemma WeakBlockStep(vectors: Vectors, a: Address, level: nat, blockId: nat)
    requires level > 0 && a in vectors && vectors[a].Junction? && |vectors[a].junction| == JUNCTION_SIZE
    ensures level == 1 ==> JunctionId(blockId, level) == blockId && SubId(blockId, level) == 0
    ensures level == 1 ==> WeakBlock(vectors, a, level, blockId) == if blockId >= JUNCTION_SIZE then 0 else vectors[a].junction[blockId]
    ensures var j := JunctionId(blockId, level);
            WeakBlock(vectors, a, level, blockId)
            == if j >= JUNCTION_SIZE || vectors[a].junction[j] == 0 then 0
               else WeakBlock(vectors, vectors[a].junction[j], level - 1, SubId(blockId, level))
  {
    assert Power(0) == 1;
  }

  /** Block b is the terminal vector of block number id. */
  predicate BlockIs(places: Places, id: nat, b: Address) {
    b in places && places[b] == Place(0, id)
  }

  /** What a lookup answers: the block of that number, or null if there is none. */
  ghost predicate Answers(places: Places, id: nat, b: Address) {
    if b != 0 then BlockIs(places, id, b) else forall c :: c in places ==> places[c] != Place(0, id)
  }

  lemma LiftNone(id: nat)
    ensures Lift(id, 0) == id
  {
  }

  lemma LiftParent(place: Place, n: nat)
    requires n > 0
    ensures Lift(place.index, n) == Lift(ParentPlace(place).index, n - 1)
  {
  }

  /** Every vector has an ancestor of each higher level. */
  lemma {:induction false} Ancestor(vectors: Vectors, places: Places, root: Address, a: Address, level: nat) returns (b: Address)
    requires IsBlockTree(vectors, places, root) && a in places && places[a].level <= level <= places[root].level
    ensures b in places && places[b] == Place(level, Lift(places[a].index, level - places[a].level))
    decreases level - places[a].level
  {
    hide Fitted, OnePerPlace, ChildrenFit, RootAbove, Lift, ParentPlace, SlotOf;
    if level == places[a].level {
      b := a;
      LiftNone(places[a].index);
    } else {
      assert HangsSomewhere(vectors, places, a);
      var p :| Hangs(vectors, places, a, p);
      LiftParent(places[a], level - places[a].level);
      b := Ancestor(vectors, places, root, p, level);
    }
  }

  /** The parent's slot of a vector's place holds the vector. */
  lemma SlotHolds(vectors: Vectors, places: Places, root: Address, a: Address, i: nat, c: Address)
    requires IsBlockTree(vectors, places, root) && a in places && places[a].level > 0 && i < JUNCTION_SIZE
    requires c in places && places[c] == ChildPlace(places[a], i)
    ensures a in vectors && vectors[a].Junction? && |vectors[a].junction| == JUNCTION_SIZE && vectors[a].junction[i] == c
  {
    hide Fitted, ChildrenFit, ChildPlace, ParentPlace, SlotOf;
    ChildOfParent(places[a], i);
    assert places[a].level <= places[root].level;
    assert c != root;
    assert HangsSomewhere(vectors, places, c);
    var p :| Hangs(vectors, places, c, p);
    assert places[p] == places[a];
  }

  lemma {:induction false} WeakBlockAnswers(vectors: Vectors, places: Places, root: Address, a: Address, blockId: nat)
    requires IsBlockTree(vectors, places, root) && a in places && blockId < Power(places[a].level)
    ensures Answers(places, BlockNumber(places[a], blockId), WeakBlock(vectors, a, places[a].level, blockId))
    decreases places[a].level
  {
    assert 0 !in places;
    hide IsBlockTree, BlockNumber, ChildPlace, Answers, JunctionId, SubId, Power;
    var place := places[a];
    if place.level == 0 {
      LeafAnswers(places, a, blockId);
    } else {
      var j, s := JunctionId(blockId, place.level), SubId(blockId, place.level);
      StepDown(place, blockId);
      SlotsFit(vectors, places, root, a, j);
      var sub := vectors[a].junction[j];
      if sub != 0 {
        WeakBlockAnswers(vectors, places, root, sub, s);
      } else {
        NoBlockBelow(vectors, places, root, a, j, s);
      }
    }
  }

  lemma LeafAnswers(places: Places, a: Address, blockId: nat)
    requires a in places && places[a].level == 0 && blockId < Power(0) && 0 !in places
    ensures Answers(places, BlockNumber(places[a], blockId), a)
  {
  }

  lemma SlotsFit(vectors: Vectors, places: Places, root: Address, a: Address, j: nat)
    requires IsBlockTree(vectors, places, root) && a in places && places[a].level > 0 && j < JUNCTION_SIZE
    ensures a in vectors && vectors[a].Junction? && |vectors[a].junction| == JUNCTION_SIZE && ChildFits(vectors, places, a, j)
    ensures vectors[a].depth == places[a].level && 0 !in places
  {
    assert VectorFits(vectors[a], places[a]);
  }

  /** Below an empty slot there is no block. */
  lemma NoBlockBelow(vectors: Vectors, places: Places, root: Address, a: Address, j: nat, s: nat)
    requires IsBlockTree(vectors, places, root) && a in places && places[a].level > 0 && j < JUNCTION_SIZE
    requires vectors[a].Junction? && vectors[a].junction[j] == 0 && s < Power(places[a].level - 1)
    ensures Answers(places, BlockNumber(ChildPlace(places[a], j), s), 0)
  {
    var place := ChildPlace(places[a], j);
    hide IsBlockTree, BlockNumber, ChildPlace, Power;
    SlotsFit(vectors, places, root, a, j);
    forall c | c in places && places[c] == Place(0, BlockNumber(place, s))
      ensures false
    {
      var b := Ancestor(vectors, places, root, c, places[a].level - 1);
      LiftsTo(place, s);
      SlotHolds(vectors, places, root, a, j, b);
    }
  }

  lemma LiftsTo(place: Place, s: nat)
    requires s < Power(place.level)
    ensures Lift(BlockNumber(place, s), place.level) == place.index
  {
    LiftIsQuotient(place.index, s, place.level);
  }

  /** A lookup from the root finds exactly the block of that number. */
  lemma LookupAnswers(vectors: Vectors, places: Places, root: Address, id: nat)
    requires IsBlockTree(vectors, places, root)
    ensures Answers(places, id, WeakBlock(vectors, root, places[root].level, id))
  {
    var level := places[root].level;
    assert BlockNumber(places[root], id) == id;
    SlotsFit(vectors, places, root, root, 0);
    if id < Power(level) {
      WeakBlockAnswers(vectors, places, root, root, id);
    } else {
      StepDown(places[root], id);
      BeyondRoot(vectors, places, root, id);
    }
  }

  lemma BeyondRoot(vectors: Vectors, places: Places, root: Address, id: nat)
    requires IsBlockTree(vectors, places, root) && id >= Power(places[root].level)
    ensures Answers(places, id, 0)
  {
    var level := places[root].level;
    hide Fitted, OnePerPlace, ChildrenFit, AllHang;
    forall c | c in places && places[c] == Place(0, id)
      ensures false
    {
      var b := Ancestor(vectors, places, root, c, level);
      OnlyRoot(vectors, places, root, b);
      LiftPositive(id, level);
    }
  }

  lemma OnlyRoot(vectors: Vectors, places: Places, root: Address, b: Address)
    requires IsBlockTree(vectors, places, root) && b in places && places[b].level == places[root].level
    ensures b == root
  {
    hide Fitted, OnePerPlace, ChildrenFit;
    assert b == root || HangsSomewhere(vectors, places, b);
  }

  lemma {:induction false} LiftPositive(id: nat, level: nat)
    requires id >= Power(level)
    ensures Lift(id, level) > 0
  {
    if level > 0 {
      LiftPositive(id / JUNCTION_SIZE, level - 1);
    }
  }

  // ---------- changing the tree ----------

  function EmptyJunction(depth: nat): Vector {
    Junction(depth, seq(JUNCTION_SIZE, i => 0))
  }

  function RootJunction(depth: nat, first: Address): Vector {
    Junction(depth, seq(JUNCTION_SIZE, i => if i == 0 then first else 0))
  }

  function WithChild(vectors: Vectors, a: Address, i: nat, c: Address, v: Vector): Vectors
    requires a in vectors && vectors[a].Junction? && i < |vectors[a].junction|
  {
    vectors[a := vectors[a].(junction := vectors[a].junction[i := c])][c := v]
  }

  lemma ChildIsNew(vectors: Vectors, places: Places, root: Address, a: Address, i: nat)
    requires IsBlockTree(vectors, places, root) && a in places && places[a].level > 0 && i < JUNCTION_SIZE
    requires vectors[a].Junction? && |vectors[a].junction| == JUNCTION_SIZE && vectors[a].junction[i] == 0
    ensures forall b :: b in places ==> places[b] != ChildPlace(places[a], i)
  {
    assert 0 !in places;
    hide IsBlockTree, ChildPlace;
    forall b | b in places && places[b] == ChildPlace(places[a], i)
      ensures false
    {
      SlotHolds(vectors, places, root, a, i, b);
    }
  }

  /** From one memory to the other, slot k of vector b and all places are the same. */
  lemma ChildStays(vectors: Vectors, places: Places, vectors': Vectors, places': Places, b: Address, k: nat)
    requires b in vectors && b in places && vectors[b].Junction? && k < |vectors[b].junction| && ChildFits(vectors, places, b, k)
    requires b in vectors' && vectors'[b].Junction? && |vectors'[b].junction| == |vectors[b].junction|
    requires vectors'[b].junction[k] == vectors[b].junction[k]
    requires forall c :: c in places ==> c in places' && places'[c] == places[c]
    ensures ChildFits(vectors', places', b, k)
  {
  }

  lemma AddedSlots(vectors: Vectors, places: Places, a: Address, i: nat, c: Address, v: Vector)
    requires Fitted(vectors, places) && ChildrenFit(vectors, places) && a in places && places[a].level > 0 && i < JUNCTION_SIZE
    requires vectors[a].Junction? && |vectors[a].junction| == JUNCTION_SIZE && c != 0 && c !in vectors
    requires v == if places[a].level == 1 then Terminal else EmptyJunction(places[a].level - 1)
    ensures var vectors', places' := WithChild(vectors, a, i, c, v), places[c := ChildPlace(places[a], i)];
            Fitted(vectors', places') && ChildrenFit(vectors', places')
  {
    var vectors', places' := WithChild(vectors, a, i, c, v), places[c := ChildPlace(places[a], i)];
    hide ChildPlace, ParentPlace, SlotOf;
    assert Fitted(vectors', places') by {
      assert VectorFits(vectors[a], places[a]);
    }
    forall b, k: nat | b in vectors' && vectors'[b].Junction? && k < JUNCTION_SIZE
      ensures ChildFits(vectors', places', b, k)
    {
      if b != c && !(b == a && k == i) {
        assert VectorFits(vectors[b], places[b]) && ChildFits(vectors, places, b, k);
        ChildStays(vectors, places, vectors', places', b, k);
      }
    }
  }

  lemma AddedHangs(vectors: Vectors, places: Places, root: Address, a: Address, i: nat, c: Address, v: Vector)
    requires AllHang(vectors, places, root) && a in vectors && a in places && places[a].level > 0 && i < JUNCTION_SIZE
    requires vectors[a].Junction? && |vectors[a].junction| == JUNCTION_SIZE && vectors[a].junction[i] == 0 && c != 0 && c !in vectors
    requires c !in places && 0 !in places
    ensures AllHang(WithChild(vectors, a, i, c, v), places[c := ChildPlace(places[a], i)], root)
  {
    var vectors', places' := WithChild(vectors, a, i, c, v), places[c := ChildPlace(places[a], i)];
    ChildOfParent(places[a], i);
    hide ChildPlace, ParentPlace, SlotOf;
    forall b | b in places' && b != root
      ensures HangsSomewhere(vectors', places', b)
    {
      if b == c {
        assert Hangs(vectors', places', c, a);
      } else {
        assert HangsSomewhere(vectors, places, b);
        var p :| Hangs(vectors, places, b, p);
        assert Hangs(vectors', places', b, p);
      }
    }
  }

  /** Hanging a new empty vector in an empty slot. */
  lemma AddChild(vectors: Vectors, places: Places, root: Address, a: Address, i: nat, c: Address, v: Vector)
    requires IsBlockTree(vectors, places, root) && a in places && places[a].level > 0 && i < JUNCTION_SIZE
    requires vectors[a].Junction? && |vectors[a].junction| == JUNCTION_SIZE && vectors[a].junction[i] == 0 && c != 0 && c !in vectors
    requires v == if places[a].level == 1 then Terminal else EmptyJunction(places[a].level - 1)
    ensures IsBlockTree(WithChild(vectors, a, i, c, v), places[c := ChildPlace(places[a], i)], root)
  {
    assert c !in places && 0 !in places;
    ChildIsNew(vectors, places, root, a, i);
    hide Fitted, ChildrenFit, AllHang, ChildPlace, WithChild, EmptyJunction;
    AddedSlots(vectors, places, a, i, c, v);
    AddedHangs(vectors, places, root, a, i, c, v);
  }

  lemma RaisedSlots(vectors: Vectors, places: Places, root: Address, c: Address)
    requires Fitted(vectors, places) && ChildrenFit(vectors, places) && root in places && places[root].index == 0 && c != 0 && c !in vectors
    ensures var level := places[root].level + 1;
            var vectors', places' := vectors[c := RootJunction(level, root)], places[c := Place(level, 0)];
            Fitted(vectors', places') && ChildrenFit(vectors', places')
  {
    var level := places[root].level + 1;
    assert ChildPlace(Place(level, 0), 0) == places[root];
    hide ChildPlace, ParentPlace, SlotOf;
    var vectors', places' := vectors[c := RootJunction(level, root)], places[c := Place(level, 0)];
    forall b, k: nat | b in vectors' && vectors'[b].Junction? && k < JUNCTION_SIZE
      ensures ChildFits(vectors', places', b, k)
    {
      if b != c {
        assert VectorFits(vectors[b], places[b]) && ChildFits(vectors, places, b, k);
        ChildStays(vectors, places, vectors', places', b, k);
      }
    }
  }

  lemma RaisedHangs(vectors: Vectors, places: Places, root: Address, c: Address)
    requires AllHang(vectors, places, root) && root in places && places[root].index == 0 && c !in vectors && c !in places
    ensures var level := places[root].level + 1;
            AllHang(vectors[c := RootJunction(level, root)], places[c := Place(level, 0)], c)
  {
    var level := places[root].level + 1;
    assert ParentPlace(places[root]) == Place(level, 0) && SlotOf(places[root]) == 0;
    hide ChildPlace, ParentPlace, SlotOf;
    var vectors', places' := vectors[c := RootJunction(level, root)], places[c := Place(level, 0)];
    forall b | b in places' && b != c
      ensures HangsSomewhere(vectors', places', b)
    {
      if b == root {
        assert Hangs(vectors', places', root, c);
      } else {
        assert HangsSomewhere(vectors, places, b);
        var p :| Hangs(vectors, places, b, p);
        assert Hangs(vectors', places', b, p);
      }
    }
  }

  /** A new root above the old one. */
  lemma AddRoot(vectors: Vectors, places: Places, root: Address, c: Address)
    requires IsBlockTree(vectors, places, root) && c != 0 && c !in vectors
    ensures var level := places[root].level + 1;
            IsBlockTree(vectors[c := RootJunction(level, root)], places[c := Place(level, 0)], c)
  {
    assert c !in places;
    hide Fitted, ChildrenFit, AllHang, RootJunction;
    RaisedSlots(vectors, places, root, c);
    RaisedHangs(vectors, places, root, c);
  }
}
