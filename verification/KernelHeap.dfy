/** The kernel heap: free blocks form an AVL tree keyed by address, allocation splits a free
    block from the top, and freeing inserts the block back.  Every method below rewrites the
    node fields in the memory of the heap, in the order of the program. */
module KernelHeap {
  import opened AvlTree
  import opened HeapMemory
  import opened HeapBlocks

  class AVLHeap {
    var mem: Memory
    var arenaRoot: Ptr

    // the free blocks, the blocks handed out and the memory obtained so far
    ghost var tree: Tree
    ghost var live: set<Ptr>
    ghost var arenas: set<Arena>

    /** Free blocks form an AVL tree in memory, and free and live blocks tile the arenas. */
    ghost predicate Valid()
      reads this
    {
      HeapState(mem, arenaRoot, tree, live, arenas)
    }

    /** The heap over its first arena. */
    constructor (arena: Ptr, size: nat)
      requires arena != 0 && arena % PAGE_SIZE == 0 && size % PAGE_SIZE == 0 && size > 0 && arena + size <= ADDRESS_LIMIT
      ensures Valid() && live == {} && arenas == {Arena(arena, size)}
      ensures tree == Node(Leaf, arena, Leaf) && Keys(tree) == {arena} && mem.Load(arena).size == size
    {
      hide Tiles, HeapState;
      mem := Memory(map[arena := Cell(size, 0, 0, 0, 1)]);
      arenaRoot := arena;
      tree := Node(Leaf, arena, Leaf);
      live := {};
      arenas := {Arena(arena, size)};
      new;
      hide *;
      FirstHeap(mem, arena, size);
    }

    /** What a caller of Allocate must get from the virtual memory manager: nothing, or new pages. */
    ghost predicate FreshChunk(chunk: Ptr, size: nat)
      reads this
    {
      chunk != 0 ==> chunk % PAGE_SIZE == 0 && chunk + size <= ADDRESS_LIMIT && Disjoint(arenas, chunk, size)
    }

    // ---------- node operations ----------

    method UpdateHeight(n: Ptr)
      requires n != 0
      modifies this`mem
      ensures mem == old(mem).SetHeight(n, Max(GetHeight(old(mem), old(mem).Load(n).left), GetHeight(old(mem), old(mem).Load(n).right)) + 1)
    {
      mem := mem.SetHeight(n, Max(GetHeight(mem, mem.Load(n).left), GetHeight(mem, mem.Load(n).right)) + 1);
    }

    method RotateLeft(root: Ptr, ghost t: Tree, ghost path: Path) returns (newRoot: Ptr)
      requires t.Node? && AtLoose(mem, root, t, path)
      modifies this`mem
      ensures t.right.Leaf? ==> newRoot == root && mem == old(mem)
      ensures t.right.Node? ==> At(mem, newRoot, AvlTree.RotateLeft(t), path)
      ensures Changed(old(mem), mem, Keys(t) + {PathKey(path)})
    {
      RotateLeftCells(mem, root, t, path);
      hide AtLoose, At, Shape, Loose, PathShape, PathOrdered, Ordered, Keys, Changed;
      newRoot := mem.Load(root).right;
      if newRoot == 0 {
        newRoot := root;
        ChangedNothing(mem, mem, Keys(t) + {PathKey(path)});
        return;
      }

      RelinkLeft(root, newRoot, t, path);
      ghost var m1 := mem;
      UpdateHeight(root);
      ghost var m2 := mem;
      UpdateHeight(newRoot);
      RelinkedLeftHeights(old(mem), m1, m2, mem, root, t, path);
      RotateLeftCorrect(old(mem), mem, root, t, path);
    }

    /** The link stores of the rotation. */
    method RelinkLeft(root: Ptr, newRoot: Ptr, ghost t: Tree, ghost path: Path)
      requires t.Node? && AtLoose(mem, root, t, path) && t.right.Node? && newRoot == t.right.key && root != 0 && newRoot != 0
      modifies this`mem
      ensures RelinkedLeft(old(mem), mem, root, t, path)
    {
      RotateLeftCells(mem, root, t, path);
      hide AtLoose, At, Shape, Loose, PathShape, PathOrdered, Ordered, Keys, Changed;
      mem := mem.SetRight(root, mem.Load(newRoot).left);
      mem := mem.SetLeft(newRoot, root);

      if mem.Load(root).right != 0 {
        mem := mem.SetParent(mem.Load(root).right, root);
      }

      var parent := mem.Load(root).parent;
      mem := mem.SetParent(root, newRoot);
      mem := mem.SetParent(newRoot, parent);

      if parent != 0 {
        if root < parent {
          mem := mem.SetLeft(parent, newRoot);
        } else {
          mem := mem.SetRight(parent, newRoot);
        }
      }
    }

    method RotateRight(root: Ptr, ghost t: Tree, ghost path: Path) returns (newRoot: Ptr)
      requires t.Node? && AtLoose(mem, root, t, path)
      modifies this`mem
      ensures t.left.Leaf? ==> newRoot == root && mem == old(mem)
      ensures t.left.Node? ==> At(mem, newRoot, AvlTree.RotateRight(t), path)
      ensures Changed(old(mem), mem, Keys(t) + {PathKey(path)})
    {
      RotateRightCells(mem, root, t, path);
      hide AtLoose, At, Shape, Loose, PathShape, PathOrdered, Ordered, Keys, Changed;
      newRoot := mem.Load(root).left;
      if newRoot == 0 {
        newRoot := root;
        ChangedNothing(mem, mem, Keys(t) + {PathKey(path)});
        return;
      }

      RelinkRight(root, newRoot, t, path);
      ghost var m1 := mem;
      UpdateHeight(root);
      ghost var m2 := mem;
      UpdateHeight(newRoot);
      RelinkedRightHeights(old(mem), m1, m2, mem, root, t, path);
      RotateRightCorrect(old(mem), mem, root, t, path);
    }

    /** The link stores of the rotation. */
    method RelinkRight(root: Ptr, newRoot: Ptr, ghost t: Tree, ghost path: Path)
      requires t.Node? && AtLoose(mem, root, t, path) && t.left.Node? && newRoot == t.left.key && root != 0 && newRoot != 0
      modifies this`mem
      ensures RelinkedRight(old(mem), mem, root, t, path)
    {
      RotateRightCells(mem, root, t, path);
      hide AtLoose, At, Shape, Loose, PathShape, PathOrdered, Ordered, Keys, Changed;
      mem := mem.SetLeft(root, mem.Load(newRoot).right);
      mem := mem.SetRight(newRoot, root);

      if mem.Load(root).left != 0 {
        mem := mem.SetParent(mem.Load(root).left, root);
      }

      var parent := mem.Load(root).parent;
      mem := mem.SetParent(root, newRoot);
      mem := mem.SetParent(newRoot, parent);

      if parent != 0 {
        if root < parent {
          mem := mem.SetLeft(parent, newRoot);
        } else {
          mem := mem.SetRight(parent, newRoot);
        }
      }
    }

    method RotateRightLeft(root: Ptr, ghost t: Tree, ghost path: Path) returns (newRoot: Ptr)
      requires t.Node? && t.right.Node? && AtLoose(mem, root, t, path)
      modifies this`mem
      ensures At(mem, newRoot, AvlTree.RotateRightLeft(t), path)
      ensures Changed(old(mem), mem, Keys(t) + {PathKey(path)})
    {
      ghost var under := InRight(path, t.left, t.key);
      ghost var u := t.(right := AvlTree.RotateRight(t.right));
      RotateRightOrdered(t.right, root, Hi(path));
      hide AtLoose, At, Shape, Loose, PathShape, PathOrdered, Ordered, Changed;

      var newSubRoot := RotateRight(mem.Load(root).right, t.right, under);
      Ascend(mem, newSubRoot, u.right, under);
      ghost var m1 := mem;
      mem := mem.SetRight(root, newSubRoot);
      SameLoads(m1, mem, root, u, path);
      ChangedNothing(m1, mem, {});
      ghost var m2 := mem;
      newRoot := RotateLeft(root, u, path);
      ChangedTwice(old(mem), m1, m2, Keys(t.right) + {root}, {}, Keys(t.right) + {root});
      ChangedTwice(old(mem), m2, mem, Keys(t.right) + {root}, Keys(u) + {PathKey(path)}, Keys(t) + {PathKey(path)});
    }

    method RotateLeftRight(root: Ptr, ghost t: Tree, ghost path: Path) returns (newRoot: Ptr)
      requires t.Node? && t.left.Node? && AtLoose(mem, root, t, path)
      modifies this`mem
      ensures At(mem, newRoot, AvlTree.RotateLeftRight(t), path)
      ensures Changed(old(mem), mem, Keys(t) + {PathKey(path)})
    {
      ghost var under := InLeft(path, t.key, t.right);
      ghost var u := t.(left := AvlTree.RotateLeft(t.left));
      RotateLeftOrdered(t.left, Lo(path), root);
      hide AtLoose, At, Shape, Loose, PathShape, PathOrdered, Ordered, Changed;

      var newSubRoot := RotateLeft(mem.Load(root).left, t.left, under);
      Ascend(mem, newSubRoot, u.left, under);
      ghost var m1 := mem;
      mem := mem.SetLeft(root, newSubRoot);
      SameLoads(m1, mem, root, u, path);
      ChangedNothing(m1, mem, {});
      ghost var m2 := mem;
      newRoot := RotateRight(root, u, path);
      ChangedTwice(old(mem), m1, m2, Keys(t.left) + {root}, {}, Keys(t.left) + {root});
      ChangedTwice(old(mem), m2, mem, Keys(t.left) + {root}, Keys(u) + {PathKey(path)}, Keys(t) + {PathKey(path)});
    }

    // ---------- insertion ----------

    /** Repairs the height and the balance of the tree at root, below which n was inserted. */
    method Rebalance(root: Ptr, n: Ptr, ghost t: Tree, ghost path: Path) returns (newRoot: Ptr)
      requires t.Node? && AtLoose(mem, root, t, path)
      requires (Balance(t) < -1 ==> n > t.key) && (Balance(t) > 1 ==> n < t.key)
      modifies this`mem
      ensures RebalanceFor(t, n).Node? && At(mem, newRoot, RebalanceFor(t, n), path)
      ensures Changed(old(mem), mem, Keys(t) + {PathKey(path)})
    {
      SetHeightAt(mem, root, t, path);
      UpdateHeight(root);
      AtTop(mem, root, t, path);
      SetHeightAt(mem, root, t, path);
      hide AtLoose, At, Shape, Loose, PathShape, PathOrdered, Ordered;
      ghost var m1 := mem;
      newRoot := root;

      var balanceFactor := GetHeight(mem, mem.Load(root).left) - GetHeight(mem, mem.Load(root).right);
      if balanceFactor < -1 || balanceFactor > 1 {
        if n > root && n > mem.Load(root).right {
          newRoot := RotateLeft(root, t, path);
        } else if n < root && n < mem.Load(root).left {
          newRoot := RotateRight(root, t, path);
        } else if n > root && n < mem.Load(root).right {
          newRoot := RotateRightLeft(root, t, path);
        } else if n < root && n > mem.Load(root).left {
          newRoot := RotateLeftRight(root, t, path);
        }
      }
    }

    /** Inserts the block at n, whose size is already stored, into the tree at root. */
    method Insert(root: Ptr, n: Ptr, ghost t: Tree) returns (newRoot: Ptr)
      requires At(mem, root, t, Top) && Avl(t) && 0 < n < ADDRESS_LIMIT
      modifies this`mem
      ensures n in Keys(t) ==> newRoot == root && mem == old(mem)
      ensures n !in Keys(t) ==> At(mem, newRoot, AvlTree.Insert(t, n), Top)
      ensures Changed(old(mem), mem, Keys(t) + {n, 0})
    {
      hide AtLoose, At, Shape, Loose, PathShape, PathOrdered, Ordered, Avl, Changed;
      AtTop(mem, root, t, Top);
      if root == 0 {
        mem := mem.Store(n, Cell(mem.Load(n).size, 0, 0, 0, 1));
        SingleNode(mem, n);
        ChangedOne(old(mem), mem, n, Keys(t) + {n, 0});
        return n;
      }

      var prev := root;
      var curr := root;
      ghost var path, sub := Top, t;

      while curr != 0
        invariant mem == old(mem) && Plug(path, sub) == t
        invariant At(mem, curr, sub, path) && Lo(path) < n < Hi(path)
        invariant prev == if path.Top? then root else PathKey(path)
        invariant path.Top? ==> curr != 0
        decreases sub
      {
        AtTop(mem, curr, sub, path);
        SearchStep(mem, curr, sub, path, n);
        PlugKeys(path, sub);
        prev := curr;
        if n < curr {
          path, sub := InLeft(path, curr, sub.right), sub.left;
          curr := mem.Load(curr).left;
        } else if n > curr {
          path, sub := InRight(path, sub.left, curr), sub.right;
          curr := mem.Load(curr).right;
        } else {
          ChangedNothing(mem, mem, Keys(t) + {n, 0});
          return root;
        }
      }
      AtTop(mem, curr, sub, path);
      PlugKeys(path, sub);
      PlugOrdered(path, sub);
      BoundsExclude(path, n);
      assert PathKey(path) == prev && n !in Keys(t);

      mem := mem.Store(n, Cell(mem.Load(n).size, 0, 0, prev, 1));
      if n < prev {
        mem := mem.SetLeft(prev, n);
      } else {
        mem := mem.SetRight(prev, n);
      }
      HangLeaf(old(mem), mem, path, n);

      ghost var linked := mem;
      newRoot := RebalanceUpwards(prev, n, t, path, sub);
      InsertedChanged(old(mem), linked, mem, n, path, t, sub);
    }

    /** The way back up after linking n: every ancestor is rebalanced, up to the root.
        sub is the subtree in the hole of path before the insertion. */
    method RebalanceUpwards(from: Ptr, n: Ptr, ghost t: Tree, ghost path0: Path, ghost sub0: Tree) returns (curr: Ptr)
      requires !path0.Top? && from == PathKey(path0) && Plug(path0, sub0) == t && Avl(t)
      requires PathOrdered(path0) && Ordered(sub0, Lo(path0), Hi(path0))
      requires Lo(path0) < n < Hi(path0) && n !in Keys(sub0) && n > 0
      requires At(mem, RootKey(AvlTree.Insert(sub0, n)), AvlTree.Insert(sub0, n), path0)
      modifies this`mem
      ensures At(mem, curr, AvlTree.Insert(t, n), Top)
      ensures Changed(old(mem), mem, Keys(t) + {n, 0})
    {
      hide AtLoose, At, Shape, Loose, PathShape, PathOrdered, Ordered, Avl, AvlTree.Insert, RebalanceFor, Keys;
      var prev := from;
      curr := 0;
      ghost var path, sub, grown := path0, sub0, AvlTree.Insert(sub0, n);
      AtTop(mem, RootKey(grown), grown, path);
      ChangedNothing(mem, mem, Keys(t) + {n, 0});

      while prev != 0
        invariant prev == PathKey(path) && Plug(path, sub) == t
        invariant PathOrdered(path) && Ordered(sub, Lo(path), Hi(path))
        invariant Lo(path) < n < Hi(path) && n !in Keys(sub)
        invariant grown == AvlTree.Insert(sub, n) && At(mem, RootKey(grown), grown, path)
        invariant path != path0 ==> curr == RootKey(grown)
        invariant path.Top? <==> PathKey(path) == 0
        invariant Changed(old(mem), mem, Keys(t) + {n, 0})
        decreases path
      {
        ghost var up, before := path.up, mem;
        ghost var parentTree := Under(path, sub);
        PlugAvl(up, parentTree);
        InsertUp(sub, path, n);
        PlugKeys(up, parentTree);
        Ascend(mem, RootKey(grown), grown, path);
        grown := Under(path, grown);
        prev := Rebalance(prev, n, grown, up);
        ChangedTwice(old(mem), before, mem, Keys(t) + {n, 0}, Keys(grown) + {PathKey(up)}, Keys(t) + {n, 0});
        path, sub, grown := up, parentTree, RebalanceFor(grown, n);
        AtTop(mem, prev, grown, path);
        curr := prev;
        prev := mem.Load(prev).parent;
      }
      AtTop(mem, RootKey(grown), grown, path);
    }

    // ---------- deletion ----------

    /** One step of the way up after a deletion: the child's balance selects the rotation. */
    method RebalanceByChild(prev: Ptr, ghost t: Tree, ghost path: Path) returns (newRoot: Ptr)
      requires t.Node? && AtLoose(mem, prev, t, path)
      modifies this`mem
      ensures RebalanceHeavy(t).Node? && At(mem, newRoot, RebalanceHeavy(t), path)
      ensures Changed(old(mem), mem, Keys(t) + {PathKey(path)})
    {
      SetHeightAt(mem, prev, t, path);
      UpdateHeight(prev);
      AtTop(mem, prev, t, path);
      ChildHeights(mem, prev, t, path);
      hide AtLoose, At, Shape, Loose, PathShape, PathOrdered, Ordered;
      newRoot := prev;

      var balanceFactor := GetBalanceFactor(mem, prev);
      if balanceFactor > 1 {
        if GetBalanceFactor(mem, mem.Load(prev).left) >= 0 {
          newRoot := RotateRight(prev, t, path);
        } else {
          newRoot := RotateLeftRight(prev, t, path);
        }
      } else if balanceFactor < -1 {
        if GetBalanceFactor(mem, mem.Load(prev).right) > 0 {
          newRoot := RotateRightLeft(prev, t, path);
        } else {
          newRoot := RotateLeft(prev, t, path);
        }
      }
    }

    /** The way back up after a deletion: every node from prev to the root is rebalanced. */
    method RebalanceAllUpwards(from: Ptr, ghost path0: Path, ghost sub0: Tree) returns (subroot: Ptr)
      requires !path0.Top? && from == PathKey(path0) && At(mem, RootKey(sub0), sub0, path0)
      modifies this`mem
      ensures At(mem, subroot, Climb(path0, sub0), Top)
      ensures Changed(old(mem), mem, PathKeys(path0) + Keys(sub0) + {0})
    {
      hide AtLoose, At, Shape, Loose, PathShape, PathOrdered, Ordered, Changed;
      var prev := from;
      subroot := 0;
      ghost var path, sub := path0, sub0;
      ghost var all := PathKeys(path0) + Keys(sub0) + {0};
      AtTop(mem, RootKey(sub), sub, path);
      ChangedNothing(mem, mem, all);

      while prev != 0
        invariant prev == PathKey(path) && At(mem, RootKey(sub), sub, path)
        invariant path != path0 ==> subroot == RootKey(sub)
        invariant path.Top? <==> PathKey(path) == 0
        invariant Climb(path, sub) == Climb(path0, sub0)
        invariant PathKeys(path) + Keys(sub) <= all
        invariant Changed(old(mem), mem, all)
        decreases path
      {
        ghost var up, before, tree := path.up, mem, Under(path, sub);
        Ascend(mem, RootKey(sub), sub, path);
        HeavyKeys(mem, path.key, tree, up);
        prev := RebalanceByChild(prev, tree, up);
        ChangedTwice(old(mem), before, mem, all, Keys(tree) + {PathKey(up)}, all);
        path, sub := up, RebalanceHeavy(tree);
        AtTop(mem, prev, sub, path);
        subroot := prev;
        prev := mem.Load(prev).parent;
      }
      AtTop(mem, RootKey(sub), sub, path);
    }

    /** The leftmost node below ptr. */
    method Leftmost(from: Ptr, ghost t: Tree, ghost parent: Ptr) returns (successor: Ptr)
      requires t.Node? && Shape(mem, from, t, parent)
      ensures successor == MinKey(t)
    {
      var ptr := from;
      successor := ptr;
      ghost var u, up := t, parent;
      while ptr != 0
        invariant Shape(mem, ptr, u, up)
        invariant if u.Leaf? then successor == MinKey(t) else MinKey(u) == MinKey(t)
        decreases u
      {
        successor := ptr;
        up, u := ptr, u.left;
        ptr := mem.Load(ptr).left;
      }
    }

    /** Puts the successor of a node with two children in the node's place; newPrev is where the
        rebalancing has to start. */
    method ReplaceBySuccessor(root0: Ptr, node: Ptr, ghost sub: Tree, ghost path: Path) returns (newPrev: Ptr, root: Ptr)
      requires sub.Node? && sub.left.Node? && sub.right.Node? && node == sub.key && At(mem, node, sub, path)
      modifies this`mem
      ensures var below := Spine(InRight(path, sub.left, MinKey(sub.right)), sub.right);
              && newPrev == PathKey(below) && !below.Top?
              && At(mem, RootKey(MinRight(sub.right)), MinRight(sub.right), below)
              && PathKeys(below) + Keys(MinRight(sub.right)) <= Keys(sub) + PathKeys(path)
      ensures Changed(old(mem), mem, Keys(sub) + PathKeys(path))
      ensures root == if path.Top? then MinKey(sub.right) else root0
    {
      SpliceCells(mem, sub, path);
      NodeCell(mem, sub, path);
      hide AtLoose, At, Shape, Loose, PathShape, PathOrdered, Ordered, Changed, Keys, MinKey, MinRight, Spine;
      root := root0;
      var prev := mem.Load(node).parent;
      var left := mem.Load(node).left;
      var right := mem.Load(node).right;
      var successor := Leftmost(right, sub.right, node);

      if mem.Load(successor).parent != node {
        mem := mem.SetLeft(mem.Load(successor).parent, mem.Load(successor).right);

        if mem.Load(successor).right != 0 {
          mem := mem.SetParent(mem.Load(successor).right, mem.Load(successor).parent);
        }

        newPrev := mem.Load(successor).parent;

        mem := mem.SetRight(successor, right);
        mem := mem.SetParent(right, successor);
      } else {
        newPrev := successor;
      }

      mem := mem.SetLeft(successor, left);
      mem := mem.SetParent(left, successor);
      mem := mem.SetParent(successor, prev);

      UpdateHeight(successor);

      if prev == 0 {
        root := successor;
      } else {
        if successor < prev {
          mem := mem.SetLeft(prev, successor);
        } else {
          mem := mem.SetRight(prev, successor);
        }
      }

      SpliceCorrect(old(mem), mem, sub, path);
    }

    /** Deletes the node at node from the tree at root0. */
    method Delete(root0: Ptr, node: Ptr, ghost t: Tree) returns (newRoot: Ptr)
      requires At(mem, root0, t, Top) && Avl(t) && (node == 0 || node in Keys(t))
      modifies this`mem
      ensures node == 0 ==> newRoot == root0 && mem == old(mem)
      ensures node != 0 ==> At(mem, newRoot, AvlTree.Delete(t, node), Top)
      ensures Changed(old(mem), mem, Keys(t) + {0})
    {
      AtTop(mem, root0, t, Top);
      ChangedNothing(mem, mem, Keys(t) + {0});
      ChangedNothing(mem, mem, {});
      if root0 == 0 || node == 0 {
        return root0;
      }

      ghost var path, sub := Locate(t, node, 0, ADDRESS_LIMIT, Top);
      AtNode(mem, root0, path, sub);
      NodeCell(mem, sub, path);
      AvlChild(path, sub);
      ClimbFromCut(path, sub);
      hide AtLoose, At, Shape, Loose, PathShape, PathOrdered, Ordered, Changed, Avl, AvlTree.Delete, Climb, Plug, Spine, DeleteRoot;

      var root := root0;
      var prev := mem.Load(node).parent;
      var left := mem.Load(node).left;
      var right := mem.Load(node).right;
      // what fills the hole of path once the node is cut out, before rebalancing
      ghost var below, rest := path, if sub.right.Leaf? then sub.left else sub.right;

      if left == 0 && right == 0 {
        if prev == 0 {
          root := 0;
        } else if node > prev {
          mem := mem.SetRight(prev, 0);
        } else {
          mem := mem.SetLeft(prev, 0);
        }
        CutOutShape(old(mem), mem, sub, path, rest);
      } else if right == 0 {
        mem := mem.SetParent(left, prev);

        if prev == 0 {
          root := left;
        } else if node > prev {
          mem := mem.SetRight(prev, left);
        } else {
          mem := mem.SetLeft(prev, left);
        }
        CutOutShape(old(mem), mem, sub, path, rest);
      } else if left == 0 {
        mem := mem.SetParent(right, prev);

        if prev == 0 {
          root := right;
        } else if node > prev {
          mem := mem.SetRight(prev, right);
        } else {
          mem := mem.SetLeft(prev, right);
        }
        CutOutShape(old(mem), mem, sub, path, rest);
      } else {
        prev, root := ReplaceBySuccessor(root, node, sub, path);
        below := Spine(InRight(path, sub.left, MinKey(sub.right)), sub.right);
        rest := MinRight(sub.right);
      }
      ghost var cut := mem;
      AtTop(mem, RootKey(rest), rest, below);
      ChangedTwice(old(mem), old(mem), cut, {}, Keys(sub) + PathKeys(path) + {0}, Keys(t) + {0});

      if prev == 0 {
        if root == 0 {
          return 0;
        }
        BalancedStays(rest, node);
        AtTop(mem, root, rest, Top);
        newRoot := Rebalance(root, node, rest, Top);
        ChangedTwice(old(mem), cut, mem, Keys(t) + {0}, Keys(rest) + {0}, Keys(t) + {0});
      } else {
        newRoot := RebalanceAllUpwards(prev, below, rest);
        ChangedTwice(old(mem), cut, mem, Keys(t) + {0}, PathKeys(below) + Keys(rest) + {0}, Keys(t) + {0});
      }
    }

    // ---------- allocation ----------

    /** Looks for a free block of at least the given size; an exact match is preferred, then the
        smallest of the root and what the subtrees offer. */
    method BestFind(root: Ptr, size: int, ghost t: Tree, ghost parent: Ptr) returns (found: Ptr)
      requires Shape(mem, root, t, parent) && size > 0
      ensures found != 0 ==> found in Keys(t) && mem.Load(found).size >= size
      ensures found != 0 && mem.Load(found).size == size <==> MeetsExact(mem, t, size)
      ensures found != 0 <==> Findable(mem, t, size)
      ensures BestFit(mem, t, size, found)
      decreases t
    {
      hide BestFit;
      if root == 0 {
        NothingFits(mem, size);
        return 0;
      }

      if mem.Load(root).size == size {
        ExactIsBest(mem, t, size, root);
        return root;
      }

      var left := BestFind(mem.Load(root).left, size, t.left, root);

      if left != 0 && mem.Load(left).size == size {
        ExactIsBest(mem, t, size, left);
        return left;
      }

      var right := BestFind(mem.Load(root).right, size, t.right, root);

      var nodes := [root, left, right];
      var sizes := [mem.Load(root).size, if left != 0 then mem.Load(left).size else 0, if right != 0 then mem.Load(right).size else 0];
      ghost var offered := sizes;

      for i := 0 to 3
        invariant |sizes| == 3 && |nodes| == 3
        invariant forall j :: 0 <= j < i ==> sizes[j] == if offered[j] < size then 0 else offered[j]
        invariant forall j :: 0 <= j < i ==> nodes[j] == if offered[j] < size then 0 else [root, left, right][j]
        invariant forall j :: i <= j < 3 ==> sizes[j] == offered[j] && nodes[j] == [root, left, right][j]
      {
        if sizes[i] < size {
          sizes := sizes[i := 0];
          nodes := nodes[i := 0];
        }
      }

      var bestFit := 0;

      for i := 0 to 3
        invariant 0 <= bestFit < 3
        invariant sizes[0] == 0 ==> bestFit == 0
        invariant sizes[0] > 0 ==> sizes[bestFit] > 0 && forall j :: 0 <= j < i && sizes[j] > 0 ==> sizes[bestFit] <= sizes[j]
      {
        if sizes[i] > 0 && sizes[i] < sizes[bestFit] && sizes[i] >= size {
          bestFit := i;
        }
      }

      assert sizes[0] > 0 ==> sizes[bestFit] == offered[bestFit] && nodes[bestFit] == [root, left, right][bestFit];
      assert sizes[0] > 0 && sizes[2] > 0 ==> sizes[bestFit] <= sizes[2];
      assert sizes[0] > 0 && sizes[1] > 0 ==> sizes[bestFit] <= sizes[1];
      BestOfThree(mem, t, size, left, right, nodes[bestFit]);
      return nodes[bestFit];
    }

    /** From m to m' the cells of the given bytes were cleared, and the first one holds their number. */
    static ghost predicate ArenaMade(m: Memory, m': Memory, node: Ptr, bytes: int)
      requires node != 0
    {
      && m'.Load(node) == (if bytes > 0 then Cell(bytes, 0, 0, 0, 0) else m.Load(node).(size := 0))
      && (forall q: Ptr {:trigger m'.Load(q)} :: q != 0 && q != node ==>
            m'.Load(q) == if node < q < node + bytes then Cell(0, 0, 0, 0, 0) else m.Load(q))
    }

    /** New pages as one block of their own; chunk is what the virtual memory manager returned.  The
        block takes up all the pages, is empty but for its size, and is at least twice as large as asked
        for unless the 64-bit size wraps. */
    method ExtendArena(size: nat, chunk: Ptr) returns (node: Ptr)
      modifies this`mem
      ensures node == chunk && (node == 0 ==> mem == old(mem))
      ensures ArenaBytes(size) % PAGE_SIZE == 0
      ensures 2 * size + PAGE_SIZE <= WORD ==> 2 * size <= ArenaBytes(size) < 2 * size + PAGE_SIZE
      ensures node != 0 ==> ArenaMade(old(mem), mem, node, ArenaBytes(size))
    {
      WholePages(size);
      if chunk == 0 {
        return 0;
      }
      mem := mem.Zeroed(chunk, ArenaBytes(size));
      node := chunk;
      mem := mem.SetSize(node, ArenaBytes(size));
    }

    /** Inserts a block that is in no list into the tree. */
    method InsertBlock(node: Ptr)
      requires Loosened(mem, arenaRoot, tree, live, arenas, node)
      modifies this
      ensures Valid() && live == old(live) && arenas == old(arenas)
      ensures tree == AvlTree.Insert(old(tree), node) && LiveKept(old(mem), mem, live)
      ensures Keys(tree) == old(Keys(tree)) + {node} && Changed(old(mem), mem, old(Keys(tree)) + {node, 0})
    {
      LoosenedTree(mem, arenaRoot, tree, live, arenas, node);
      LoosenedTiles(mem, arenaRoot, tree, live, arenas, node);
      hide At, AtLoose, Avl, Tiles, Keys, HeapState, Changed, Loosened, LiveKept, AvlTree.Insert;
      ghost var root := arenaRoot;
      arenaRoot := Insert(arenaRoot, node, tree);
      ChangedSizes(old(mem), mem, Keys(tree) + {node, 0});
      TreeChangesKeepLive(old(mem), mem, Keys(tree) + {node}, live, arenas);
      ReturnState(old(mem), mem, root, arenaRoot, tree, live, arenas, node);
      tree := AvlTree.Insert(tree, node);
    }

    /** Serves a block of the given size from new pages; the rest of the pages becomes a free block. */
    method AllocateFromExtension(size: nat, chunk: Ptr) returns (payload: Ptr)
      requires Valid() && FreshChunk(chunk, ArenaBytes(size))
      requires size % ARENA_ALIGNMENT == 0 && NODE_SIZE <= size && size + NODE_SIZE <= ArenaBytes(size) && ArenaBytes(size) % ARENA_ALIGNMENT == 0
      modifies this
      ensures Valid()
      ensures payload == 0 <==> chunk == 0
      ensures chunk == 0 ==> mem == old(mem) && arenaRoot == old(arenaRoot) && tree == old(tree) && live == old(live) && arenas == old(arenas)
      ensures chunk != 0 ==> HandedOut(old(mem), mem, old(live), live, payload, size) && arenas == old(arenas) + {Arena(chunk, ArenaBytes(size))}
      ensures LiveKept(old(mem), mem, old(live))
    {
      hide At, AtLoose, Avl, Tiles, Keys, HeapState, Disjoint, Shape, ArenaBytes, Changed, Loosened, HandedOut, LiveKept, AvlTree.Insert;
      LiveKeptSelf(mem, live);
      var node, pointer := CutExtension(size, chunk);

      if node == 0 {
        return 0;
      }

      ghost var m1, live1 := mem, live;
      InsertBlock(node);
      LiveKeptTwice(old(mem), m1, mem, old(live), live1, pointer + HEADER_SIZE, size);
      HandedOutStays(old(mem), m1, mem, old(live), live1, pointer + HEADER_SIZE, size, old(Keys(tree)) + {node, 0});
      return pointer + HEADER_SIZE;
    }

    /** New pages, with the top cut off and handed out. */
    method CutExtension(size: nat, chunk: Ptr) returns (node: Ptr, pointer: Ptr)
      requires Valid() && FreshChunk(chunk, ArenaBytes(size))
      requires size % ARENA_ALIGNMENT == 0 && NODE_SIZE <= size && size + NODE_SIZE <= ArenaBytes(size) && ArenaBytes(size) % ARENA_ALIGNMENT == 0
      modifies this`mem, this`live, this`arenas
      ensures node == chunk
      ensures chunk == 0 ==> mem == old(mem) && live == old(live) && arenas == old(arenas)
      ensures chunk != 0 ==>
                && Loosened(mem, arenaRoot, tree, live, arenas, node) && arenas == old(arenas) + {Arena(chunk, ArenaBytes(size))}
                && HandedOut(old(mem), mem, old(live), live, pointer + HEADER_SIZE, size) && LiveKept(old(mem), mem, old(live))
    {
      hide At, AtLoose, Avl, Tiles, Keys, HeapState, Disjoint, Shape, ArenaBytes, Changed, Loosened, HandedOut, LiveKept;
      node := ExtendArena(size, chunk);

      if node == 0 {
        return 0, 0;
      }

      pointer := node + mem.Load(node).size - size;
      mem := mem.SetSize(node, mem.Load(node).size - size);
      mem := mem.SetSize(pointer, size);

      ExtendState(old(mem), mem, arenaRoot, tree, live, arenas, node, ArenaBytes(size), pointer, size);
      ExtensionKeepsLive(old(mem), mem, arenaRoot, tree, live, arenas, node, ArenaBytes(size));
      live := live + {pointer};
      arenas := arenas + {Arena(node, ArenaBytes(size))};
    }

    /** Serves a block of the given size from the top of a free block, or all of it if what would
        remain is too small for a node. */
    method AllocateFromBlock(size: nat, node: Ptr) returns (payload: Ptr)
      requires Valid() && node in Keys(tree) && node != 0 && size <= mem.Load(node).size
      requires size % ARENA_ALIGNMENT == 0 && NODE_SIZE <= size
      modifies this
      ensures Valid()
      ensures HandedOut(old(mem), mem, old(live), live, payload, size) && arenas == old(arenas)
      ensures Served(old(mem), mem, old(tree), tree, old(live), live, node, size, payload) && LiveKept(old(mem), mem, old(live))
    {
      hide At, AtLoose, Avl, Tiles, Keys, HeapState, Shape, Changed, SameLinks, HandedOut, LiveKept, AvlTree.Delete;
      HeapTree(mem, arenaRoot, tree, live, arenas);
      BlockFacts(mem, arenaRoot, tree, live, arenas, node);
      if mem.Load(node).size > size && mem.Load(node).size - size >= NODE_SIZE {
        var pointer := node + mem.Load(node).size - size;
        mem := mem.SetSize(pointer, size);

        mem := mem.SetSize(node, mem.Load(node).size - size);

        SameLinksBesidesSizes(old(mem), mem);
        SplitState(old(mem), mem, arenaRoot, tree, live, arenas, node, pointer, size);
        SplitKeepsLive(old(mem), mem, arenaRoot, tree, live, arenas, node, pointer);
        live := live + {pointer};
        return pointer + HEADER_SIZE;
      } else {
        ghost var root := arenaRoot;
        arenaRoot := Delete(arenaRoot, node, tree);
        ghost var m1 := mem;

        mem := mem.SetSize(node, mem.Load(node).size);
        ChangedSizes(old(mem), m1, Keys(tree) + {0});
        SameLinksBesidesSizes(m1, mem);
        AtIgnoresSizes(m1, mem, arenaRoot, AvlTree.Delete(tree, node));
        TakeState(old(mem), mem, root, arenaRoot, tree, live, arenas, node);
        TakeKeepsLive(old(mem), m1, mem, root, tree, live, arenas, node);
        HandedOutMore(old(mem), mem, live, live + {node}, node + HEADER_SIZE, old(mem).Load(node).size, size);
        live := live + {node};
        tree := AvlTree.Delete(tree, node);
        return node + HEADER_SIZE;
      }
    }

    /** Hands out a block for the request.  chunk is what the virtual memory manager would return
        for an extension; it is asked only when the search finds nothing. */
    method Allocate(request: nat, chunk: Ptr) returns (payload: Ptr)
      requires Valid() && request <= MAX_REQUEST && FreshChunk(chunk, ArenaBytes(BlockSize(request)))
      modifies this
      ensures Valid()
      ensures payload == 0 <==> chunk == 0 && !Findable(old(mem), old(tree), BlockSize(request))
      ensures payload == 0 ==> mem == old(mem) && arenaRoot == old(arenaRoot) && tree == old(tree) && live == old(live)
      ensures payload != 0 ==> HandedOut(old(mem), mem, old(live), live, payload, request + HEADER_SIZE)
      ensures arenas == if payload == 0 || Findable(old(mem), old(tree), BlockSize(request)) then old(arenas)
                        else old(arenas) + {Arena(chunk, ArenaBytes(BlockSize(request)))}
      ensures LiveKept(old(mem), mem, old(live))
      ensures Findable(old(mem), old(tree), BlockSize(request)) ==>
                exists node {:trigger Served(old(mem), mem, old(tree), tree, old(live), live, node, BlockSize(request), payload)} ::
                  && node in old(Keys(tree)) && node != 0 && old(mem).Load(node).size >= BlockSize(request)
                  && BestFit(old(mem), old(tree), BlockSize(request), node)
                  && Served(old(mem), mem, old(tree), tree, old(live), live, node, BlockSize(request), payload)
    {
      RequestsThatFit(request);
      BlockSizeRounds(request);
      var size := BlockSize(request);
      ArenaBytesRound(size);
      HeapTree(mem, arenaRoot, tree, live, arenas);

      var node := BestFind(arenaRoot, size, tree, 0);
      hide At, Avl, Keys, HeapState, Shape, Findable, MeetsExact, BestFit, BlockSize, ArenaBytes, Disjoint, HandedOut, Served, LiveKept;

      if node == 0 {
        payload := AllocateFromExtension(size, chunk);
      } else {
        payload := AllocateFromBlock(size, node);
      }
      if payload != 0 {
        HandedOutMore(old(mem), mem, old(live), live, payload, size, request + HEADER_SIZE);
      }
    }

    /** Between two calls the owners of live blocks write in them. */
    method OwnersWrite(written: Memory)
      requires Valid() && OwnersWrote(mem, written, live)
      modifies this`mem
      ensures Valid() && mem == written
    {
      OwnersKeepState(mem, written, arenaRoot, tree, live, arenas);
      mem := written;
    }

    /** Takes back a block by its payload pointer. */
    method Free(pointer: Ptr)
      requires Valid() && pointer - HEADER_SIZE in live
      modifies this
      ensures Valid()
      ensures live == old(live) - {pointer - HEADER_SIZE} && arenas == old(arenas)
      ensures tree == AvlTree.Insert(old(tree), pointer - HEADER_SIZE) && LiveKept(old(mem), mem, live)
      ensures Keys(tree) == old(Keys(tree)) + {pointer - HEADER_SIZE}
      ensures forall b :: b in old(Keys(tree) + live) && b != 0 ==> mem.Load(b).size == old(mem).Load(b).size
    {
      var allocatedNode := pointer - HEADER_SIZE;
      BlockFacts(mem, arenaRoot, tree, live, arenas, allocatedNode);
      FreeReady(mem, arenaRoot, tree, live, arenas, allocatedNode);
      live := live - {allocatedNode};
      hide HeapState, Loosened;
      InsertBlock(allocatedNode);
    }
  }

  const FIRST_PAGES: nat := 16

  /** A heap that consists of one free block of the given size. */
  ghost predicate IsOneBlock(heap: AVLHeap, arena: Ptr, size: nat)
    reads heap
  {
    heap.Valid() && arena != 0 && heap.tree == Node(Leaf, arena, Leaf) && heap.mem.Load(arena).size == size
  }

  /** Handing out from such a heap, so that a free block remains. */
  method ServeFromOne(heap: AVLHeap, arena: Ptr, all: nat, request: nat) returns (payload: Ptr)
    requires IsOneBlock(heap, arena, all) && request <= MAX_REQUEST && BlockSize(request) + NODE_SIZE <= all && BlockSize(request) > 0
    modifies heap
    ensures IsOneBlock(heap, arena, all - BlockSize(request))
    ensures payload == arena + all - BlockSize(request) + HEADER_SIZE && payload - HEADER_SIZE in heap.live
    ensures heap.mem.Load(payload - HEADER_SIZE).size == BlockSize(request)
  {
    OneKey(arena);
    assert Findable(heap.mem, heap.tree, BlockSize(request));
    hide Findable, BlockSize, HandedOut, LiveKept, AVLHeap.Valid, Keys, ArenaBytes, BestFit;
    payload := heap.Allocate(request, 0);
  }

  lemma OneKey(arena: Ptr)
    ensures Keys(Node(Leaf, arena, Leaf)) == {arena}
  {
  }

  /** Taking back the block right above the only free one, which is too small for a request that the
      returned block fits exactly. */
  method ReturnAndMiss(heap: AVLHeap, arena: Ptr, pointer: Ptr, request: nat) returns (payload: Ptr)
    requires request <= MAX_REQUEST && BlockSize(request) > HEADER_SIZE && IsOneBlock(heap, arena, BlockSize(request) - HEADER_SIZE)
    requires pointer - HEADER_SIZE in heap.live && arena < pointer - HEADER_SIZE
    requires heap.mem.Load(pointer - HEADER_SIZE).size == BlockSize(request)
    modifies heap
    ensures heap.Valid() && payload == 0
    ensures pointer - HEADER_SIZE in Keys(heap.tree) && heap.mem.Load(pointer - HEADER_SIZE).size == BlockSize(request)
  {
    ghost var block := pointer - HEADER_SIZE;
    OneKey(arena);
    InsertedRight(arena, block);
    hide BlockSize, LiveKept, AVLHeap.Valid, ArenaBytes, AvlTree.Insert, Served;
    heap.Free(pointer);
    assert block in Keys(heap.tree);
    NotFindable(heap.mem, arena, block, BlockSize(request));
    hide Findable, Keys;
    payload := heap.Allocate(request, 0);
  }

  lemma InsertedRight(arena: Ptr, block: Ptr)
    requires arena < block
    ensures AvlTree.Insert(Node(Leaf, arena, Leaf), block) == Node(Leaf, arena, Node(Leaf, block, Leaf))
  {
  }

  lemma NotFindable(m: Memory, arena: Ptr, block: Ptr, size: int)
    requires arena != 0 && m.Load(arena).size < size
    ensures !Findable(m, Node(Leaf, arena, Node(Leaf, block, Leaf)), size)
  {
  }

  /** The search is not complete: below a root that is too small only exact matches on the left count.
      A new heap hands out two blocks and takes the second one back; what is left of the first free block
      is now the root and too small, and the returned block is not found by a request that it fits. */
  method SearchMissesAFit(arena: Ptr) returns (heap: AVLHeap, payload: Ptr, ghost fits: Ptr)
    requires arena != 0 && arena % PAGE_SIZE == 0 && arena + FIRST_PAGES * PAGE_SIZE <= ADDRESS_LIMIT
    ensures fresh(heap) && heap.Valid() && payload == 0
    ensures fits in Keys(heap.tree) && fits != 0 && heap.mem.Load(fits).size >= BlockSize(40)
  {
    heap := new AVLHeap(arena, FIRST_PAGES * PAGE_SIZE);
    assert BlockSize(65536 - 96) == 65536 - 88 && BlockSize(40) == 48;
    hide BlockSize, AVLHeap.Valid, Keys;
    var big := ServeFromOne(heap, arena, FIRST_PAGES * PAGE_SIZE, 65536 - 96);
    var small := ServeFromOne(heap, arena, 88, 40);
    fits := arena + 40;
    payload := ReturnAndMiss(heap, arena, small, 40);
  }
}
