/** The trees that the kernel heap keeps its free blocks in, as values.
    Keys are the addresses of free blocks.  The functions Insert and Delete are the recursive
    specifications that the pointer code of module KernelHeap is proved against; the lemmas say
    that they keep an AVL tree and change the key set by exactly one key. */
module AvlTree {

  type Address = nat

  datatype Tree = Leaf | Node(left: Tree, key: Address, right: Tree)

  function Keys(t: Tree): set<Address> {
    match t
    case Leaf => {}
    case Node(l, k, r) => Keys(l) + {k} + Keys(r)
  }

  function Height(t: Tree): nat {
    match t
    case Leaf => 0
    case Node(l, _, r) => Max(Height(l), Height(r)) + 1
  }

  function Max(x: nat, y: nat): nat {
    if x > y then x else y
  }

  function Balance(t: Tree): int
    requires t.Node?
  {
    Height(t.left) - Height(t.right)
  }

  /** The address of the root; a missing tree is the null pointer. */
  function RootKey(t: Tree): Address {
    if t.Leaf? then 0 else t.key
  }

  /** Strict address order: every key lies strictly between lo and hi. */
  predicate Ordered(t: Tree, lo: int, hi: int) {
    match t
    case Leaf => true
    case Node(l, k, r) => lo < k < hi && Ordered(l, lo, k) && Ordered(r, k, hi)
  }

  predicate Avl(t: Tree) {
    match t
    case Leaf => true
    case Node(l, _, r) => Avl(l) && Avl(r) && -1 <= Balance(t) <= 1
  }

  // ---------- rotations ----------

  function RotateLeft(t: Tree): Tree {
    if t.Leaf? || t.right.Leaf? then t
    else Node(Node(t.left, t.key, t.right.left), t.right.key, t.right.right)
  }

  function RotateRight(t: Tree): Tree {
    if t.Leaf? || t.left.Leaf? then t
    else Node(t.left.left, t.left.key, Node(t.left.right, t.key, t.right))
  }

  function RotateRightLeft(t: Tree): Tree
    requires t.Node?
  {
    RotateLeft(t.(right := RotateRight(t.right)))
  }

  function RotateLeftRight(t: Tree): Tree
    requires t.Node?
  {
    RotateRight(t.(left := RotateLeft(t.left)))
  }

  // ---------- insertion ----------

  /** Repair after inserting n below t; the rotation is chosen by comparing addresses only. */
  function RebalanceFor(t: Tree, n: Address): Tree
    requires t.Node?
  {
    if -1 <= Balance(t) <= 1 then t
    else if n > t.key && n > RootKey(t.right) then RotateLeft(t)
    else if n < t.key && n < RootKey(t.left) then RotateRight(t)
    else if n > t.key && n < RootKey(t.right) then RotateRightLeft(t)
    else if n < t.key && n > RootKey(t.left) then RotateLeftRight(t)
    else t
  }

  function Insert(t: Tree, n: Address): Tree {
    match t
    case Leaf => Node(Leaf, n, Leaf)
    case Node(l, k, r) =>
      if n < k then RebalanceFor(Node(Insert(l, n), k, r), n)
      else if n > k then RebalanceFor(Node(l, k, Insert(r, n)), n)
      else t
  }

  // ---------- deletion ----------

  /** Repair on the way up after a deletion; the rotation is chosen by the child's balance. */
  function RebalanceHeavy(t: Tree): Tree
    requires t.Node?
  {
    if Balance(t) > 1 then
      if Balance(t.left) >= 0 then RotateRight(t) else RotateLeftRight(t)
    else if Balance(t) < -1 then
      if Balance(t.right) > 0 then RotateRightLeft(t) else RotateLeft(t)
    else t
  }

  function MinKey(t: Tree): Address
    requires t.Node?
  {
    if t.left.Leaf? then t.key else MinKey(t.left)
  }

  function DeleteMin(t: Tree): Tree
    requires t.Node?
  {
    if t.left.Leaf? then t.right else RebalanceHeavy(t.(left := DeleteMin(t.left)))
  }

  function DeleteRoot(t: Tree): Tree
    requires t.Node?
  {
    if t.right.Leaf? then t.left
    else if t.left.Leaf? then t.right
    else RebalanceHeavy(Node(t.left, MinKey(t.right), DeleteMin(t.right)))
  }

  function Delete(t: Tree, n: Address): Tree {
    match t
    case Leaf => Leaf
    case Node(l, k, r) =>
      if n < k then RebalanceHeavy(Node(Delete(l, n), k, r))
      else if n > k then RebalanceHeavy(Node(l, k, Delete(r, n)))
      else DeleteRoot(t)
  }

  // ---------- order and key sets ----------

  lemma {:induction false} OrderedKeys(t: Tree, lo: int, hi: int)
    requires Ordered(t, lo, hi)
    ensures forall k :: k in Keys(t) ==> lo < k < hi
  {
    if t.Node? {
      OrderedKeys(t.left, lo, t.key);
      OrderedKeys(t.right, t.key, hi);
    }
  }

  lemma {:induction false} OrderedWiden(t: Tree, lo: int, hi: int, lo': int, hi': int)
    requires Ordered(t, lo, hi) && lo' <= lo && hi <= hi'
    ensures Ordered(t, lo', hi')
  {
    if t.Node? {
      OrderedWiden(t.left, lo, t.key, lo', t.key);
      OrderedWiden(t.right, t.key, hi, t.key, hi');
    }
  }

  lemma RotateLeftOrdered(t: Tree, lo: int, hi: int)
    requires Ordered(t, lo, hi)
    ensures Ordered(RotateLeft(t), lo, hi) && Keys(RotateLeft(t)) == Keys(t)
  {
  }

  lemma RotateRightOrdered(t: Tree, lo: int, hi: int)
    requires Ordered(t, lo, hi)
    ensures Ordered(RotateRight(t), lo, hi) && Keys(RotateRight(t)) == Keys(t)
  {
  }

  /** Every rotation keeps the in-order reading of the tree. */
  lemma RotationsOrdered(t: Tree, lo: int, hi: int)
    requires t.Node? && Ordered(t, lo, hi)
    ensures forall u | u in [RotateLeft(t), RotateRight(t), RotateRightLeft(t), RotateLeftRight(t)] ::
              Ordered(u, lo, hi) && Keys(u) == Keys(t)
  {
    RotateLeftOrdered(t, lo, hi);
    RotateRightOrdered(t, lo, hi);
    RotateRightOrdered(t.right, t.key, hi);
    RotateLeftOrdered(t.(right := RotateRight(t.right)), lo, hi);
    RotateLeftOrdered(t.left, lo, t.key);
    RotateRightOrdered(t.(left := RotateLeft(t.left)), lo, hi);
  }

  lemma RebalanceHeavyOrdered(t: Tree, lo: int, hi: int)
    requires t.Node? && Ordered(t, lo, hi)
    ensures Ordered(RebalanceHeavy(t), lo, hi) && Keys(RebalanceHeavy(t)) == Keys(t)
  {
    RotationsOrdered(t, lo, hi);
  }

  lemma RebalanceForOrdered(t: Tree, n: Address, lo: int, hi: int)
    requires t.Node? && Ordered(t, lo, hi)
    ensures Ordered(RebalanceFor(t, n), lo, hi) && Keys(RebalanceFor(t, n)) == Keys(t)
  {
    RotationsOrdered(t, lo, hi);
  }

  /** Insertion keeps the strict order and adds exactly the new address. */
  lemma {:induction false} InsertOrdered(t: Tree, n: Address, lo: int, hi: int)
    requires Ordered(t, lo, hi) && lo < n < hi
    ensures Ordered(Insert(t, n), lo, hi) && Keys(Insert(t, n)) == Keys(t) + {n}
  {
    if t.Node? {
      if n < t.key {
        InsertOrdered(t.left, n, lo, t.key);
        RebalanceForOrdered(t.(left := Insert(t.left, n)), n, lo, hi);
      } else if n > t.key {
        InsertOrdered(t.right, n, t.key, hi);
        RebalanceForOrdered(t.(right := Insert(t.right, n)), n, lo, hi);
      }
    }
  }

  lemma {:induction false} DeleteMinOrdered(t: Tree, lo: int, hi: int)
    requires t.Node? && Ordered(t, lo, hi)
    ensures lo < MinKey(t) < hi && MinKey(t) in Keys(t)
    ensures Ordered(DeleteMin(t), MinKey(t), hi)
    ensures Keys(DeleteMin(t)) == Keys(t) - {MinKey(t)}
  {
    OrderedKeys(t, lo, hi);
    OrderedKeys(t.right, t.key, hi);
    if t.left.Node? {
      DeleteMinOrdered(t.left, lo, t.key);
      RebalanceHeavyOrdered(t.(left := DeleteMin(t.left)), MinKey(t), hi);
    }
  }

  /** Deletion keeps the strict order and removes exactly the given address. */
  lemma {:induction false} DeleteOrdered(t: Tree, n: Address, lo: int, hi: int)
    requires Ordered(t, lo, hi)
    ensures Ordered(Delete(t, n), lo, hi) && Keys(Delete(t, n)) == Keys(t) - {n}
  {
    if t.Node? {
      OrderedKeys(t.left, lo, t.key);
      OrderedKeys(t.right, t.key, hi);
      if n < t.key {
        DeleteOrdered(t.left, n, lo, t.key);
        RebalanceHeavyOrdered(t.(left := Delete(t.left, n)), lo, hi);
      } else if n > t.key {
        DeleteOrdered(t.right, n, t.key, hi);
        RebalanceHeavyOrdered(t.(right := Delete(t.right, n)), lo, hi);
      } else if t.right.Leaf? {
        OrderedWiden(t.left, lo, t.key, lo, hi);
      } else if t.left.Leaf? {
        OrderedWiden(t.right, t.key, hi, lo, hi);
      } else {
        DeleteMinOrdered(t.right, t.key, hi);
        OrderedWiden(t.left, lo, t.key, lo, MinKey(t.right));
        RebalanceHeavyOrdered(Node(t.left, MinKey(t.right), DeleteMin(t.right)), lo, hi);
      }
    }
  }

  // ---------- balance ----------

  /** A single left rotation repairs a right-heavy node whose right child leans right or not at all. */
  lemma RotateLeftAvl(t: Tree)
    requires t.Node? && Avl(t.left) && Avl(t.right) && Balance(t) == -2 && Balance(t.right) <= 0
    ensures Avl(RotateLeft(t))
    ensures Height(RotateLeft(t)) == (if Balance(t.right) == 0 then Height(t) else Height(t) - 1)
    ensures Balance(t.right) < 0 ==> Balance(RotateLeft(t)) == 0
  {
    var r := t.right;
    assert Height(t) == Height(r) + 1 && Height(r) == Height(r.right) + 1;
    assert Avl(Node(t.left, t.key, r.left));
  }

  lemma RotateRightAvl(t: Tree)
    requires t.Node? && Avl(t.left) && Avl(t.right) && Balance(t) == 2 && Balance(t.left) >= 0
    ensures Avl(RotateRight(t))
    ensures Height(RotateRight(t)) == (if Balance(t.left) == 0 then Height(t) else Height(t) - 1)
  {
    var l := t.left;
    assert Height(t) == Height(l) + 1 && Height(l) == Height(l.left) + 1;
    assert Avl(Node(l.right, t.key, t.right));
  }

  lemma RotateRightLeftAvl(t: Tree)
    requires t.Node? && Avl(t.left) && Avl(t.right) && Balance(t) == -2 && Balance(t.right) > 0
    ensures Avl(RotateRightLeft(t)) && Height(RotateRightLeft(t)) == Height(t) - 1
  {
    var r, m := t.right, t.right.left;
    assert RotateRightLeft(t) == Node(Node(t.left, t.key, m.left), m.key, Node(m.right, r.key, r.right));
    assert Height(t) == Height(r) + 1 && Height(r) == Height(m) + 1;
    assert Avl(m) && Avl(r.right);
    assert Avl(Node(t.left, t.key, m.left)) && Avl(Node(m.right, r.key, r.right));
  }

  lemma RotateLeftRightAvl(t: Tree)
    requires t.Node? && Avl(t.left) && Avl(t.right) && Balance(t) == 2 && Balance(t.left) < 0
    ensures Avl(RotateLeftRight(t)) && Height(RotateLeftRight(t)) == Height(t) - 1
  {
    var l, m := t.left, t.left.right;
    assert RotateLeftRight(t) == Node(Node(l.left, l.key, m.left), m.key, Node(m.right, t.key, t.right));
    assert Height(t) == Height(l) + 1 && Height(l) == Height(m) + 1;
    assert Avl(m) && Avl(l.left);
    assert Avl(Node(l.left, l.key, m.left)) && Avl(Node(m.right, t.key, t.right));
  }

  /** What an insertion of n may have done to subtree t: it grew by at most one level, and if it was
      nonempty and grew, it now leans to the side of n. */
  predicate GrownBy(t: Tree, u: Tree, n: Address) {
    && Avl(u) && Height(t) <= Height(u) <= Height(t) + 1
    && (Height(u) > Height(t) && t.Node? ==>
          u.Node? && u.key == t.key && Balance(u) == (if n < t.key then 1 else -1))
  }

  lemma InsertRepairLeft(t: Tree, u: Tree, n: Address)
    requires t.Node? && Avl(t) && GrownBy(t.left, u, n)
    requires n < t.key && n != RootKey(t.left)
    ensures GrownBy(t, RebalanceFor(t.(left := u), n), n)
  {
    var v := t.(left := u);
    if Balance(v) == 2 {
      if n < u.key {
        RotateRightAvl(v);
      } else {
        RotateLeftRightAvl(v);
      }
    }
  }

  lemma InsertRepairRight(t: Tree, u: Tree, n: Address)
    requires t.Node? && Avl(t) && GrownBy(t.right, u, n)
    requires n > t.key && n != RootKey(t.right)
    ensures GrownBy(t, RebalanceFor(t.(right := u), n), n)
  {
    var v := t.(right := u);
    if Balance(v) == -2 {
      if n > u.key {
        RotateLeftAvl(v);
      } else {
        RotateRightLeftAvl(v);
      }
    }
  }

  /** Address comparison alone picks the right rotation: insertion keeps the tree AVL, the height
      grows by at most one, and when a nonempty tree grows, the heavier side is the side n went to. */
  lemma {:induction false} InsertAvl(t: Tree, n: Address, lo: int, hi: int)
    requires Avl(t) && Ordered(t, lo, hi) && lo < n < hi && n != 0 && n !in Keys(t)
    ensures GrownBy(t, Insert(t, n), n)
  {
    if t.Node? {
      if n < t.key {
        InsertAvl(t.left, n, lo, t.key);
        InsertRepairLeft(t, Insert(t.left, n), n);
      } else {
        InsertAvl(t.right, n, t.key, hi);
        InsertRepairRight(t, Insert(t.right, n), n);
      }
    }
  }

  /** One repair step: a subtree that is at most one level out of balance becomes AVL. */
  lemma RebalanceHeavyAvl(t: Tree)
    requires t.Node? && Avl(t.left) && Avl(t.right) && -2 <= Balance(t) <= 2
    ensures Avl(RebalanceHeavy(t))
    ensures Height(t) - 1 <= Height(RebalanceHeavy(t)) <= Height(t)
    ensures -1 <= Balance(t) <= 1 ==> RebalanceHeavy(t) == t
  {
    if Balance(t) == 2 {
      if Balance(t.left) >= 0 {
        RotateRightAvl(t);
      } else {
        RotateLeftRightAvl(t);
      }
    } else if Balance(t) == -2 {
      if Balance(t.right) > 0 {
        RotateRightLeftAvl(t);
      } else {
        RotateLeftAvl(t);
      }
    }
  }

  /** Repairing a node one of whose subtrees may have become lower by one. */
  lemma ShrunkenLeft(t: Tree, l: Tree)
    requires t.Node? && Avl(t) && Avl(l) && Height(t.left) - 1 <= Height(l) <= Height(t.left)
    ensures var r := RebalanceHeavy(t.(left := l)); Avl(r) && Height(t) - 1 <= Height(r) <= Height(t)
  {
    hide RebalanceHeavy;
    RebalanceHeavyAvl(t.(left := l));
  }

  lemma ShrunkenRight(t: Tree, k: Address, r: Tree)
    requires t.Node? && Avl(t) && Avl(r) && Height(t.right) - 1 <= Height(r) <= Height(t.right)
    ensures var u := RebalanceHeavy(Node(t.left, k, r)); Avl(u) && Height(t) - 1 <= Height(u) <= Height(t)
  {
    hide RebalanceHeavy;
    RebalanceHeavyAvl(Node(t.left, k, r));
  }

  lemma {:induction false} DeleteMinAvl(t: Tree)
    requires t.Node? && Avl(t)
    ensures Avl(DeleteMin(t)) && Height(t) - 1 <= Height(DeleteMin(t)) <= Height(t)
  {
    hide RebalanceHeavy, Balance;
    if t.left.Node? {
      DeleteMinAvl(t.left);
      ShrunkenLeft(t, DeleteMin(t.left));
    }
  }

  /** Deletion keeps the tree AVL and the height drops by at most one. */
  lemma {:induction false} DeleteAvl(t: Tree, n: Address)
    requires Avl(t)
    ensures Avl(Delete(t, n)) && Height(t) - 1 <= Height(Delete(t, n)) <= Height(t)
  {
    hide RebalanceHeavy, Balance;
    if t.Node? {
      if n < t.key {
        DeleteAvl(t.left, n);
        ShrunkenLeft(t, Delete(t.left, n));
      } else if n > t.key {
        DeleteAvl(t.right, n);
        ShrunkenRight(t, t.key, Delete(t.right, n));
      } else if t.left.Node? && t.right.Node? {
        DeleteMinAvl(t.right);
        ShrunkenRight(t, MinKey(t.right), DeleteMin(t.right));
      }
    }
  }

  // ---------- logarithmic height ----------

  function Fib(n: nat): nat {
    if n < 2 then n else Fib(n - 1) + Fib(n - 2)
  }

  lemma {:induction false} FibMonotone(m: nat, n: nat)
    requires m <= n
    ensures Fib(m) <= Fib(n)
    decreases n - m
  {
    if m < n {
      FibMonotone(m + 1, n);
    }
  }

  lemma KeyCount(t: Tree, lo: int, hi: int)
    requires t.Node? && Ordered(t, lo, hi)
    ensures |Keys(t)| == |Keys(t.left)| + 1 + |Keys(t.right)|
  {
    OrderedKeys(t.left, lo, t.key);
    OrderedKeys(t.right, t.key, hi);
    assert |Keys(t.left) + {t.key}| == |Keys(t.left)| + 1;
    assert (Keys(t.left) + {t.key}) !! Keys(t.right);
  }

  lemma FibStep(h: nat, a: nat, b: nat)
    requires (a == h && h <= b + 1) || (b == h && h <= a + 1)
    ensures Fib(h + 3) <= Fib(a + 2) + Fib(b + 2)
  {
    assert Fib(h + 3) == Fib(h + 2) + Fib(h + 1);
    FibMonotone(h + 1, if a == h then b + 2 else a + 2);
  }

  lemma AvlHeights(t: Tree)
    requires t.Node? && Avl(t)
    ensures var h, a, b := Height(t) - 1, Height(t.left), Height(t.right);
            h >= 0 && Avl(t.left) && Avl(t.right) && ((a == h && h <= b + 1) || (b == h && h <= a + 1))
  {
  }

  /** An AVL tree of height h holds at least Fib(h + 2) - 1 keys. */
  lemma {:induction false} AvlIsShallow(t: Tree, lo: int, hi: int)
    requires Avl(t) && Ordered(t, lo, hi)
    ensures |Keys(t)| + 1 >= Fib(Height(t) + 2)
  {
    if t.Leaf? {
      assert Fib(2) == Fib(1) + Fib(0);
    } else {
      AvlHeights(t);
      KeyCount(t, lo, hi);
      hide Fib, Keys, Avl, Height;
      AvlIsShallow(t.left, lo, t.key);
      AvlIsShallow(t.right, t.key, hi);
      FibStep(Height(t) - 1, Height(t.left), Height(t.right));
    }
  }
}
