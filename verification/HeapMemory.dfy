/** How a tree of free blocks lies in memory, and how a tree is split at one of its nodes.
    A pointer is an address and 0 is the null pointer, because the heap compares pointers and
    computes with them; a cell is what the heap stores at the start of a block. */
module HeapMemory {
  import opened AvlTree

  type Ptr = Address

  /** The fields of a tree node.  An allocated block uses only the first field, its size. */
  datatype Cell = Cell(size: nat, left: Ptr, right: Ptr, parent: Ptr, height: nat)

  /** The memory of the heap: one cell an address.  Only the null pointer cannot be followed. */
  datatype Memory = Memory(cells: map<Ptr, Cell>) {
    function Load(p: Ptr): Cell
      requires p != 0
    {
      if p in cells then cells[p] else Cell(0, 0, 0, 0, 0)
    }

    function Store(p: Ptr, c: Cell): (m: Memory)
      requires p != 0
      ensures forall q {:trigger m.Load(q)} :: q != 0 ==> m.Load(q) == if q == p then c else Load(q)
    {
      Memory(cells[p := c])
    }

    /** memset of a range to zero. */
    function Zeroed(from: Ptr, size: nat): (m: Memory)
      ensures forall q: Ptr {:trigger m.Load(q)} :: q != 0 ==>
                m.Load(q) == if from <= q < from + size then Cell(0, 0, 0, 0, 0) else Load(q)
    {
      Memory(map q: Ptr | q in cells && !(from <= q < from + size) :: cells[q])
    }

    function SetSize(p: Ptr, v: nat): (m: Memory)
      requires p != 0
      ensures forall q {:trigger m.Load(q)} :: q != 0 ==> m.Load(q) == if q == p then Load(p).(size := v) else Load(q)
    {
      Store(p, Load(p).(size := v))
    }

    function SetLeft(p: Ptr, v: Ptr): (m: Memory)
      requires p != 0
      ensures forall q {:trigger m.Load(q)} :: q != 0 ==> m.Load(q) == if q == p then Load(p).(left := v) else Load(q)
    {
      Store(p, Load(p).(left := v))
    }

    function SetRight(p: Ptr, v: Ptr): (m: Memory)
      requires p != 0
      ensures forall q {:trigger m.Load(q)} :: q != 0 ==> m.Load(q) == if q == p then Load(p).(right := v) else Load(q)
    {
      Store(p, Load(p).(right := v))
    }

    function SetParent(p: Ptr, v: Ptr): (m: Memory)
      requires p != 0
      ensures forall q {:trigger m.Load(q)} :: q != 0 ==> m.Load(q) == if q == p then Load(p).(parent := v) else Load(q)
    {
      Store(p, Load(p).(parent := v))
    }

    function SetHeight(p: Ptr, v: nat): (m: Memory)
      requires p != 0
      ensures forall q {:trigger m.Load(q)} :: q != 0 ==> m.Load(q) == if q == p then Load(p).(height := v) else Load(q)
    {
      Store(p, Load(p).(height := v))
    }
  }

  const ADDRESS_LIMIT: int := 0x1_0000_0000_0000_0000

  function GetHeight(m: Memory, n: Ptr): nat {
    if n == 0 then 0 else m.Load(n).height
  }

  function GetBalanceFactor(m: Memory, n: Ptr): int
    requires n != 0
  {
    GetHeight(m, m.Load(n).left) - GetHeight(m, m.Load(n).right)
  }

  // ---------- trees in memory ----------

  /** Below a node everything is exact; the node's own stored height may be out of date. */
  ghost predicate Loose(m: Memory, p: Ptr, t: Tree, parent: Ptr)
    decreases t
  {
    match t
    case Leaf => p == 0
    case Node(l, k, r) =>
      && p == k && k != 0 && m.Load(k).parent == parent
      && Shape(m, m.Load(k).left, l, k) && Shape(m, m.Load(k).right, r, k)
  }

  /** p points to t: child and parent pointers agree, and every stored height is exact. */
  ghost predicate Shape(m: Memory, p: Ptr, t: Tree, parent: Ptr)
    decreases t
  {
    match t
    case Leaf => p == 0
    case Node(l, k, r) =>
      && p == k && k != 0 && m.Load(k).parent == parent && m.Load(k).height == Height(t)
      && Shape(m, m.Load(k).left, l, k) && Shape(m, m.Load(k).right, r, k)
  }

  predicate SameLinks(c: Cell, d: Cell) {
    c.left == d.left && c.right == d.right && c.parent == d.parent && c.height == d.height
  }

  /** Outside s nothing changed, and block sizes did not change anywhere. */
  ghost predicate Changed(m: Memory, m': Memory, s: set<Ptr>) {
    forall q {:trigger m'.Load(q)} :: q != 0 ==>
      (q !in s ==> m'.Load(q) == m.Load(q)) && m'.Load(q).size == m.Load(q).size
  }

  lemma {:induction false} ShapeKeys(m: Memory, p: Ptr, t: Tree, parent: Ptr)
    requires Shape(m, p, t, parent)
    ensures 0 !in Keys(t) && p == RootKey(t) && GetHeight(m, p) == Height(t)
    ensures p == 0 <==> t.Leaf?
    decreases t
  {
    if t.Node? {
      ShapeKeys(m, m.Load(p).left, t.left, p);
      ShapeKeys(m, m.Load(p).right, t.right, p);
    }
  }

  lemma {:induction false} ShapeFrame(m: Memory, m': Memory, p: Ptr, t: Tree, parent: Ptr)
    requires Shape(m, p, t, parent)
    requires forall k :: k in Keys(t) && k != 0 ==> SameLinks(m.Load(k), m'.Load(k))
    ensures Shape(m', p, t, parent)
    decreases t
  {
    if t.Node? {
      assert p in Keys(t);
      ShapeFrame(m, m', m.Load(p).left, t.left, p);
      ShapeFrame(m, m', m.Load(p).right, t.right, p);
    }
  }

  /** Moving a subtree under another parent rewrites only the parent pointer of its root. */
  lemma ShapeReparent(m: Memory, m': Memory, p: Ptr, t: Tree, parent: Ptr, parent': Ptr, lo: int, hi: int)
    requires Shape(m, p, t, parent) && Ordered(t, lo, hi)
    requires forall k :: k in Keys(t) && k != 0 && k != p ==> SameLinks(m.Load(k), m'.Load(k))
    requires p != 0 ==> SameLinks(m'.Load(p), m.Load(p).(parent := parent'))
    ensures Shape(m', p, t, parent')
  {
    if t.Node? {
      OrderedKeys(t.left, lo, p);
      OrderedKeys(t.right, p, hi);
      ShapeFrame(m, m', m.Load(p).left, t.left, p);
      ShapeFrame(m, m', m.Load(p).right, t.right, p);
    }
  }

  // ---------- the way from a node up to the root ----------

  /** A tree with one subtree taken out; the frame of the hole's parent comes first. */
  datatype Path =
    | Top
    | InLeft(up: Path, key: Address, right: Tree)
    | InRight(up: Path, left: Tree, key: Address)

  function Plug(path: Path, t: Tree): Tree {
    match path
    case Top => t
    case InLeft(up, k, r) => Plug(up, Node(t, k, r))
    case InRight(up, l, k) => Plug(up, Node(l, k, t))
  }

  function PathKey(path: Path): Ptr {
    if path.Top? then 0 else path.key
  }

  function PathKeys(path: Path): set<Address> {
    match path
    case Top => {}
    case InLeft(up, k, r) => PathKeys(up) + {k} + Keys(r)
    case InRight(up, l, k) => PathKeys(up) + {k} + Keys(l)
  }

  /** The keys that fit into the hole lie strictly between Lo and Hi. */
  function Lo(path: Path): int {
    match path
    case Top => 0
    case InLeft(up, _, _) => Lo(up)
    case InRight(_, _, k) => k
  }

  function Hi(path: Path): int {
    match path
    case Top => ADDRESS_LIMIT
    case InLeft(_, k, _) => k
    case InRight(up, _, _) => Hi(up)
  }

  predicate PathOrdered(path: Path) {
    match path
    case Top => true
    case InLeft(up, k, r) => PathOrdered(up) && Lo(up) < k < Hi(up) && Ordered(r, k, Hi(up))
    case InRight(up, l, k) => PathOrdered(up) && Lo(up) < k < Hi(up) && Ordered(l, Lo(up), k)
  }

  /** The frames of path in memory, with hole as the pointer to what fills the hole.
      The stored heights of the frames may be out of date. */
  ghost predicate PathShape(m: Memory, path: Path, hole: Ptr) {
    match path
    case Top => true
    case InLeft(up, k, r) =>
      && k != 0 && m.Load(k).left == hole && m.Load(k).parent == PathKey(up)
      && Shape(m, m.Load(k).right, r, k) && PathShape(m, up, k)
    case InRight(up, l, k) =>
      && k != 0 && m.Load(k).right == hole && m.Load(k).parent == PathKey(up)
      && Shape(m, m.Load(k).left, l, k) && PathShape(m, up, k)
  }

  lemma {:induction false} PathBounds(path: Path)
    requires PathOrdered(path)
    ensures 0 <= Lo(path) <= Hi(path) <= ADDRESS_LIMIT
    ensures forall k :: k in PathKeys(path) ==> k <= Lo(path) || Hi(path) <= k
    ensures !path.Top? ==> path.key in PathKeys(path) && path.key > 0 && (path.InLeft? <==> path.key == Hi(path))
  {
    match path
    case Top =>
    case InLeft(up, k, r) =>
      PathBounds(up);
      OrderedKeys(r, k, Hi(up));
    case InRight(up, l, k) =>
      PathBounds(up);
      OrderedKeys(l, Lo(up), k);
  }

  lemma {:induction false} PathFrame(m: Memory, m': Memory, path: Path, hole: Ptr)
    requires PathShape(m, path, hole)
    requires forall k :: k in PathKeys(path) && k != 0 ==> SameLinks(m.Load(k), m'.Load(k))
    ensures PathShape(m', path, hole)
  {
    match path
    case Top =>
    case InLeft(up, k, r) =>
      assert k in PathKeys(path);
      PathFrame(m, m', up, k);
      ShapeFrame(m, m', m.Load(k).right, r, k);
    case InRight(up, l, k) =>
      assert k in PathKeys(path);
      PathFrame(m, m', up, k);
      ShapeFrame(m, m', m.Load(k).left, l, k);
  }

  function WithChild(path: Path, c: Cell, child: Ptr): Cell {
    if path.InLeft? then c.(left := child) else c.(right := child)
  }

  /** Hanging another tree into the hole rewrites only one child pointer of the hole's parent. */
  lemma PathRehang(m: Memory, m': Memory, path: Path, hole: Ptr, hole': Ptr)
    requires PathShape(m, path, hole) && PathOrdered(path)
    requires forall k :: k in PathKeys(path) && k != 0 && k != PathKey(path) ==>
               SameLinks(m.Load(k), m'.Load(k))
    requires PathKey(path) != 0 ==>
               SameLinks(m'.Load(PathKey(path)), WithChild(path, m.Load(PathKey(path)), hole'))
    ensures PathShape(m', path, hole')
  {
    match path
    case Top =>
    case InLeft(up, k, r) =>
      PathBounds(up);
      OrderedKeys(r, k, Hi(up));
      PathFrame(m, m', up, k);
      ShapeFrame(m, m', m.Load(k).right, r, k);
    case InRight(up, l, k) =>
      PathBounds(up);
      OrderedKeys(l, Lo(up), k);
      PathFrame(m, m', up, k);
      ShapeFrame(m, m', m.Load(k).left, l, k);
  }

  /** The order of the whole tree is the order of the frames and of the subtree between their bounds. */
  lemma {:induction false} PlugOrdered(path: Path, t: Tree)
    ensures Ordered(Plug(path, t), 0, ADDRESS_LIMIT) <==> PathOrdered(path) && Ordered(t, Lo(path), Hi(path))
  {
    match path
    case Top =>
    case InLeft(up, k, r) => PlugOrdered(up, Node(t, k, r));
    case InRight(up, l, k) => PlugOrdered(up, Node(l, k, t));
  }

  lemma {:induction false} PlugKeys(path: Path, t: Tree)
    ensures Keys(Plug(path, t)) == PathKeys(path) + Keys(t)
  {
    match path
    case Top =>
    case InLeft(up, k, r) => PlugKeys(up, Node(t, k, r));
    case InRight(up, l, k) => PlugKeys(up, Node(l, k, t));
  }

  /** A tree in memory can be taken apart at any of its nodes. */
  lemma {:induction false} PlugShape(m: Memory, p: Ptr, path: Path, t: Tree)
    requires Shape(m, p, Plug(path, t), 0)
    ensures PathShape(m, path, RootKey(t)) && Shape(m, RootKey(t), t, PathKey(path))
    ensures path.Top? ==> RootKey(t) == p
  {
    match path
    case Top =>
    case InLeft(up, k, r) => PlugShape(m, p, up, Node(t, k, r));
    case InRight(up, l, k) => PlugShape(m, p, up, Node(l, k, t));
  }

  // ---------- a subtree in its place ----------

  /** p points to t, which fills the hole of path; the stored height of t's root may be out of date. */
  ghost predicate AtLoose(m: Memory, p: Ptr, t: Tree, path: Path) {
    && PathOrdered(path) && Ordered(t, Lo(path), Hi(path))
    && PathShape(m, path, p) && Loose(m, p, t, PathKey(path))
  }

  ghost predicate At(m: Memory, p: Ptr, t: Tree, path: Path) {
    && PathOrdered(path) && Ordered(t, Lo(path), Hi(path))
    && PathShape(m, path, p) && Shape(m, p, t, PathKey(path))
  }

  lemma ChangedNothing(m: Memory, m': Memory, s: set<Ptr>)
    requires forall q {:trigger m'.Load(q)} :: q != 0 ==> m'.Load(q) == m.Load(q)
    ensures Changed(m, m', s)
  {
  }

  lemma ChangedOne(m: Memory, m': Memory, n: Ptr, s: set<Ptr>)
    requires n != 0 && n in s && m'.Load(n).size == m.Load(n).size
    requires forall q {:trigger m'.Load(q)} :: q != 0 && q != n ==> m'.Load(q) == m.Load(q)
    ensures Changed(m, m', s)
  {
  }

  // ---------- rotations in memory ----------

  /** The cells a left rotation touches are different ones, and an address comparison
      tells on which side of its parent the rotated node hangs. */
  lemma RotateLeftCells(m: Memory, root: Ptr, t: Tree, path: Path)
    requires t.Node? && AtLoose(m, root, t, path)
    ensures root != 0 && root == t.key && m.Load(root).right == RootKey(t.right) && m.Load(root).parent == PathKey(path)
    ensures PathKey(path) != 0 ==> PathKey(path) != root && (root < PathKey(path) <==> path.InLeft?)
    ensures t.right.Leaf? <==> RootKey(t.right) == 0
    ensures t.right.Node? ==>
              var y := t.right.key; var x := m.Load(y).left; var z := m.Load(y).right;
              && GetHeight(m, m.Load(root).left) == Height(t.left)
              && GetHeight(m, x) == Height(t.right.left) && GetHeight(m, z) == Height(t.right.right)
              && root != y && m.Load(root).left !in {root, y} && z !in {root, y} && x !in {root, y}
              && (x != 0 ==> x != z && x != m.Load(root).left && x != PathKey(path))
              && y != PathKey(path)
  {
    PathBounds(path);
    ShapeKeys(m, m.Load(root).left, t.left, root);
    ShapeKeys(m, m.Load(root).right, t.right, root);
    OrderedKeys(t.left, Lo(path), root);
    OrderedKeys(t.right, root, Hi(path));
    if t.right.Node? {
      var y := t.right.key;
      ShapeKeys(m, m.Load(y).left, t.right.left, y);
      ShapeKeys(m, m.Load(y).right, t.right.right, y);
      OrderedKeys(t.right.left, root, y);
      OrderedKeys(t.right.right, y, Hi(path));
    }
  }

  /** What a left rotation leaves in memory, cell by cell. */
  ghost predicate RotatedLeft(m: Memory, m': Memory, root: Ptr, t: Tree, path: Path)
    requires root != 0 && t.Node? && t.right.Node? && t.right.key != 0
  {
    var y := t.right.key;
    var x := m.Load(y).left;
    var parent := m.Load(root).parent;
    var h := Max(Height(t.left), Height(t.right.left)) + 1;
    && m'.Load(root) == m.Load(root).(right := x, parent := y, height := h)
    && m'.Load(y) == m.Load(y).(left := root, parent := parent, height := Max(h, Height(t.right.right)) + 1)
    && (x != 0 ==> m'.Load(x) == m.Load(x).(parent := root))
    && (parent != 0 ==> m'.Load(parent) == WithChild(path, m.Load(parent), y))
    && forall q {:trigger m'.Load(q)} :: q != 0 && q !in {root, y, x, parent} ==> m'.Load(q) == m.Load(q)
  }

  /** The same before the heights of the two nodes have been brought up to date. */
  ghost predicate RelinkedLeft(m: Memory, m': Memory, root: Ptr, t: Tree, path: Path)
    requires root != 0 && t.Node? && t.right.Node? && t.right.key != 0
  {
    var y := t.right.key;
    var x := m.Load(y).left;
    var parent := m.Load(root).parent;
    && m'.Load(root) == m.Load(root).(right := x, parent := y)
    && m'.Load(y) == m.Load(y).(left := root, parent := parent)
    && (x != 0 ==> m'.Load(x) == m.Load(x).(parent := root))
    && (parent != 0 ==> m'.Load(parent) == WithChild(path, m.Load(parent), y))
    && forall q {:trigger m'.Load(q)} :: q != 0 && q !in {root, y, x, parent} ==> m'.Load(q) == m.Load(q)
  }

  lemma RelinkedLeftHeights(m: Memory, m1: Memory, m2: Memory, m3: Memory, root: Ptr, t: Tree, path: Path)
    requires t.Node? && t.right.Node? && AtLoose(m, root, t, path)
    requires root != 0 && t.right.key != 0 && RelinkedLeft(m, m1, root, t, path)
    requires m2 == m1.SetHeight(root, Max(GetHeight(m1, m1.Load(root).left), GetHeight(m1, m1.Load(root).right)) + 1)
    requires var y := t.right.key; m3 == m2.SetHeight(y, Max(GetHeight(m2, m2.Load(y).left), GetHeight(m2, m2.Load(y).right)) + 1)
    ensures RotatedLeft(m, m3, root, t, path)
  {
    RotateLeftCells(m, root, t, path);
    hide AtLoose;
  }

  lemma RotateLeftChanged(m: Memory, m': Memory, root: Ptr, t: Tree, path: Path)
    requires t.Node? && t.right.Node? && AtLoose(m, root, t, path)
    requires root != 0 && t.right.key != 0 && RotatedLeft(m, m', root, t, path)
    ensures Changed(m, m', Keys(t) + {PathKey(path)})
  {
    RotateLeftCells(m, root, t, path);
    ShapeKeys(m, m.Load(t.right.key).left, t.right.left, t.right.key);
  }

  /** Rewriting these cells turns the tree at root into its left rotation. */
  lemma RotateLeftShape(m: Memory, m': Memory, root: Ptr, t: Tree, path: Path)
    requires t.Node? && t.right.Node? && AtLoose(m, root, t, path)
    requires root != 0 && t.right.key != 0 && RotatedLeft(m, m', root, t, path)
    ensures At(m', t.right.key, RotateLeft(t), path)
  {
    var y := t.right.key;
    var x := m.Load(y).left;
    RotateLeftCells(m, root, t, path);
    PathBounds(path);
    ShapeKeys(m, x, t.right.left, y);
    OrderedKeys(t.left, Lo(path), root);
    OrderedKeys(t.right, root, Hi(path));
    OrderedKeys(t.right.left, root, y);
    OrderedKeys(t.right.right, y, Hi(path));
    ShapeFrame(m, m', m.Load(root).left, t.left, root);
    ShapeReparent(m, m', x, t.right.left, y, root, root, y);
    ShapeFrame(m, m', m.Load(y).right, t.right.right, y);
    PathRehang(m, m', path, root, y);
    RotateLeftOrdered(t, Lo(path), Hi(path));
  }

  lemma RotateRightCells(m: Memory, root: Ptr, t: Tree, path: Path)
    requires t.Node? && AtLoose(m, root, t, path)
    ensures root != 0 && root == t.key && m.Load(root).left == RootKey(t.left) && m.Load(root).parent == PathKey(path)
    ensures PathKey(path) != 0 ==> PathKey(path) != root && (root < PathKey(path) <==> path.InLeft?)
    ensures t.left.Leaf? <==> RootKey(t.left) == 0
    ensures t.left.Node? ==>
              var y := t.left.key; var x := m.Load(y).right; var z := m.Load(y).left;
              && GetHeight(m, m.Load(root).right) == Height(t.right)
              && GetHeight(m, x) == Height(t.left.right) && GetHeight(m, z) == Height(t.left.left)
              && root != y && m.Load(root).right !in {root, y} && z !in {root, y} && x !in {root, y}
              && (x != 0 ==> x != z && x != m.Load(root).right && x != PathKey(path))
              && y != PathKey(path)
  {
    PathBounds(path);
    ShapeKeys(m, m.Load(root).left, t.left, root);
    ShapeKeys(m, m.Load(root).right, t.right, root);
    OrderedKeys(t.left, Lo(path), root);
    OrderedKeys(t.right, root, Hi(path));
    if t.left.Node? {
      var y := t.left.key;
      ShapeKeys(m, m.Load(y).left, t.left.left, y);
      ShapeKeys(m, m.Load(y).right, t.left.right, y);
      OrderedKeys(t.left.left, Lo(path), y);
      OrderedKeys(t.left.right, y, root);
    }
  }

  /** What a right rotation leaves in memory, cell by cell. */
  ghost predicate RotatedRight(m: Memory, m': Memory, root: Ptr, t: Tree, path: Path)
    requires root != 0 && t.Node? && t.left.Node? && t.left.key != 0
  {
    var y := t.left.key;
    var x := m.Load(y).right;
    var parent := m.Load(root).parent;
    var h := Max(Height(t.left.right), Height(t.right)) + 1;
    && m'.Load(root) == m.Load(root).(left := x, parent := y, height := h)
    && m'.Load(y) == m.Load(y).(right := root, parent := parent, height := Max(Height(t.left.left), h) + 1)
    && (x != 0 ==> m'.Load(x) == m.Load(x).(parent := root))
    && (parent != 0 ==> m'.Load(parent) == WithChild(path, m.Load(parent), y))
    && forall q {:trigger m'.Load(q)} :: q != 0 && q !in {root, y, x, parent} ==> m'.Load(q) == m.Load(q)
  }

  /** The same before the heights of the two nodes have been brought up to date. */
  ghost predicate RelinkedRight(m: Memory, m': Memory, root: Ptr, t: Tree, path: Path)
    requires root != 0 && t.Node? && t.left.Node? && t.left.key != 0
  {
    var y := t.left.key;
    var x := m.Load(y).right;
    var parent := m.Load(root).parent;
    && m'.Load(root) == m.Load(root).(left := x, parent := y)
    && m'.Load(y) == m.Load(y).(right := root, parent := parent)
    && (x != 0 ==> m'.Load(x) == m.Load(x).(parent := root))
    && (parent != 0 ==> m'.Load(parent) == WithChild(path, m.Load(parent), y))
    && forall q {:trigger m'.Load(q)} :: q != 0 && q !in {root, y, x, parent} ==> m'.Load(q) == m.Load(q)
  }

  lemma RelinkedRightHeights(m: Memory, m1: Memory, m2: Memory, m3: Memory, root: Ptr, t: Tree, path: Path)
    requires t.Node? && t.left.Node? && AtLoose(m, root, t, path)
    requires root != 0 && t.left.key != 0 && RelinkedRight(m, m1, root, t, path)
    requires m2 == m1.SetHeight(root, Max(GetHeight(m1, m1.Load(root).left), GetHeight(m1, m1.Load(root).right)) + 1)
    requires var y := t.left.key; m3 == m2.SetHeight(y, Max(GetHeight(m2, m2.Load(y).left), GetHeight(m2, m2.Load(y).right)) + 1)
    ensures RotatedRight(m, m3, root, t, path)
  {
    RotateRightCells(m, root, t, path);
    hide AtLoose;
  }

  lemma RotateRightChanged(m: Memory, m': Memory, root: Ptr, t: Tree, path: Path)
    requires t.Node? && t.left.Node? && AtLoose(m, root, t, path)
    requires root != 0 && t.left.key != 0 && RotatedRight(m, m', root, t, path)
    ensures Changed(m, m', Keys(t) + {PathKey(path)})
  {
    RotateRightCells(m, root, t, path);
    ShapeKeys(m, m.Load(t.left.key).right, t.left.right, t.left.key);
  }

  lemma RotateRightShape(m: Memory, m': Memory, root: Ptr, t: Tree, path: Path)
    requires t.Node? && t.left.Node? && AtLoose(m, root, t, path)
    requires root != 0 && t.left.key != 0 && RotatedRight(m, m', root, t, path)
    ensures At(m', t.left.key, RotateRight(t), path)
  {
    var y := t.left.key;
    var x := m.Load(y).right;
    RotateRightCells(m, root, t, path);
    PathBounds(path);
    ShapeKeys(m, x, t.left.right, y);
    OrderedKeys(t.left, Lo(path), root);
    OrderedKeys(t.right, root, Hi(path));
    OrderedKeys(t.left.left, Lo(path), y);
    OrderedKeys(t.left.right, y, root);
    ShapeFrame(m, m', m.Load(root).right, t.right, root);
    ShapeReparent(m, m', x, t.left.right, y, root, y, root);
    ShapeFrame(m, m', m.Load(y).left, t.left.left, y);
    PathRehang(m, m', path, root, y);
    RotateRightOrdered(t, Lo(path), Hi(path));
  }

  /** Rewriting these cells turns the tree at root into its rotation and touches nothing else. */
  lemma RotateLeftCorrect(m: Memory, m': Memory, root: Ptr, t: Tree, path: Path)
    requires t.Node? && t.right.Node? && AtLoose(m, root, t, path)
    requires root != 0 && t.right.key != 0 && RotatedLeft(m, m', root, t, path)
    ensures At(m', t.right.key, RotateLeft(t), path) && Changed(m, m', Keys(t) + {PathKey(path)})
  {
    RotateLeftShape(m, m', root, t, path);
    RotateLeftChanged(m, m', root, t, path);
  }

  lemma RotateRightCorrect(m: Memory, m': Memory, root: Ptr, t: Tree, path: Path)
    requires t.Node? && t.left.Node? && AtLoose(m, root, t, path)
    requires root != 0 && t.left.key != 0 && RotatedRight(m, m', root, t, path)
    ensures At(m', t.left.key, RotateRight(t), path) && Changed(m, m', Keys(t) + {PathKey(path)})
  {
    RotateRightShape(m, m', root, t, path);
    RotateRightChanged(m, m', root, t, path);
  }

  // ---------- small steps ----------

  /** Writing the exact height of a node completes it. */
  lemma SetHeightAt(m: Memory, p: Ptr, t: Tree, path: Path)
    requires t.Node? && AtLoose(m, p, t, path)
    ensures p != 0 && p == t.key
    ensures GetHeight(m, m.Load(p).left) == Height(t.left) && GetHeight(m, m.Load(p).right) == Height(t.right)
    ensures m.Load(p).left == RootKey(t.left) && m.Load(p).right == RootKey(t.right)
    ensures At(m.SetHeight(p, Height(t)), p, t, path)
  {
    var m' := m.SetHeight(p, Height(t));
    PathBounds(path);
    OrderedKeys(t.left, Lo(path), p);
    OrderedKeys(t.right, p, Hi(path));
    ShapeKeys(m, m.Load(p).left, t.left, p);
    ShapeKeys(m, m.Load(p).right, t.right, p);
    ShapeFrame(m, m', m.Load(p).left, t.left, p);
    ShapeFrame(m, m', m.Load(p).right, t.right, p);
    PathFrame(m, m', path, p);
  }

  /** Storing a pointer that is already there changes nothing. */
  lemma SameLoads(m: Memory, m': Memory, p: Ptr, t: Tree, path: Path)
    requires AtLoose(m, p, t, path)
    requires forall q {:trigger m'.Load(q)} :: q != 0 ==> m'.Load(q) == m.Load(q)
    ensures AtLoose(m', p, t, path)
  {
    PathFrame(m, m', path, p);
    if t.Node? {
      ShapeFrame(m, m', m.Load(p).left, t.left, p);
      ShapeFrame(m, m', m.Load(p).right, t.right, p);
    }
  }

  lemma ChangedTwice(m: Memory, m': Memory, m'': Memory, s: set<Ptr>, s': set<Ptr>, s'': set<Ptr>)
    requires Changed(m, m', s) && Changed(m', m'', s') && s + s' <= s''
    ensures Changed(m, m'', s'')
  {
  }

  function Under(path: Path, t: Tree): Tree
    requires !path.Top?
  {
    if path.InLeft? then Node(t, path.key, path.right) else Node(path.left, path.key, t)
  }

  lemma Ascend(m: Memory, p: Ptr, t: Tree, path: Path)
    requires !path.Top? && At(m, p, t, path)
    ensures path.key != 0 && AtLoose(m, path.key, Under(path, t), path.up)
  {
  }

  lemma AtTop(m: Memory, p: Ptr, t: Tree, path: Path)
    requires At(m, p, t, path)
    ensures AtLoose(m, p, t, path) && p == RootKey(t) && (p == 0 <==> t.Leaf?)
    ensures t.Node? ==> m.Load(p).parent == PathKey(path)
    ensures path.Top? <==> PathKey(path) == 0
  {
    PathBounds(path);
  }

  lemma SingleNode(m: Memory, n: Ptr)
    requires 0 < n < ADDRESS_LIMIT && SameLinks(m.Load(n), Cell(0, 0, 0, 0, 1))
    ensures At(m, n, Node(Leaf, n, Leaf), Top)
  {
  }

  // ---------- insertion ----------

  lemma PlugAvl(path: Path, t: Tree)
    requires Avl(Plug(path, t))
    ensures Avl(t)
  {
    match path
    case Top =>
    case InLeft(up, k, r) => PlugAvl(up, Node(t, k, r));
    case InRight(up, l, k) => PlugAvl(up, Node(l, k, t));
  }

  /** The search for n goes one step down; n stays between the bounds of the hole. */
  lemma SearchStep(m: Memory, p: Ptr, t: Tree, path: Path, n: Address)
    requires t.Node? && At(m, p, t, path) && Lo(path) < n < Hi(path)
    ensures p == t.key && p != 0
    ensures n < p ==> At(m, m.Load(p).left, t.left, InLeft(path, p, t.right)) && Lo(InLeft(path, p, t.right)) < n < Hi(InLeft(path, p, t.right))
    ensures n > p ==> At(m, m.Load(p).right, t.right, InRight(path, t.left, p)) && Lo(InRight(path, t.left, p)) < n < Hi(InRight(path, t.left, p))
    ensures n == p ==> n in Keys(t)
  {
  }

  lemma BoundsExclude(path: Path, n: Address)
    requires PathOrdered(path) && Lo(path) < n < Hi(path)
    ensures n !in PathKeys(path)
  {
    PathBounds(path);
  }

  /** Hanging a new leaf into an empty place. */
  lemma HangLeaf(m: Memory, m': Memory, path: Path, n: Address)
    requires !path.Top? && At(m, 0, Leaf, path) && Lo(path) < n < Hi(path)
    requires var prev := PathKey(path);
             prev != 0 && SameLinks(m'.Load(prev), WithChild(path, m.Load(prev), n))
    requires n > 0 && SameLinks(m'.Load(n), Cell(0, 0, 0, PathKey(path), 1))
    requires forall q {:trigger m'.Load(q)} :: q != 0 && q != n && q != PathKey(path) ==> m'.Load(q) == m.Load(q)
    ensures At(m', n, Node(Leaf, n, Leaf), path)
  {
    PathBounds(path);
    PathRehang(m, m', path, 0, n);
  }

  /** One step up: repairing the parent's subtree is what the recursive insertion does there,
      and if the parent is out of balance it leans to the side of n. */
  lemma InsertUp(t: Tree, path: Path, n: Address)
    requires !path.Top? && PathOrdered(path) && Ordered(t, Lo(path), Hi(path))
    requires Lo(path) < n < Hi(path) && n > 0 && n !in Keys(t) && Avl(Under(path, t))
    ensures Insert(Under(path, t), n) == RebalanceFor(Under(path, Insert(t, n)), n)
    ensures Balance(Under(path, Insert(t, n))) < -1 ==> n > path.key
    ensures Balance(Under(path, Insert(t, n))) > 1 ==> n < path.key
    ensures Lo(path.up) < n < Hi(path.up) && n !in Keys(Under(path, t))
    ensures PathOrdered(path.up) && Ordered(Under(path, t), Lo(path.up), Hi(path.up))
    ensures Keys(Under(path, Insert(t, n))) == Keys(Under(path, t)) + {n}
  {
    PathBounds(path.up);
    InsertAvl(t, n, Lo(path), Hi(path));
    InsertOrdered(t, n, Lo(path), Hi(path));
    if path.InLeft? {
      OrderedKeys(path.right, path.key, Hi(path.up));
    } else {
      OrderedKeys(path.left, Lo(path.up), path.key);
    }
  }

  /** Linking the new node n below prev, and then repairing the tree, touches only the tree and n. */
  lemma InsertedChanged(m: Memory, m1: Memory, m': Memory, n: Ptr, path: Path, t: Tree, sub: Tree)
    requires Plug(path, sub) == t && !path.Top?
    requires forall q {:trigger m1.Load(q)} :: q != 0 && q != n && q != PathKey(path) ==> m1.Load(q) == m.Load(q)
    requires forall q {:trigger m1.Load(q)} :: q != 0 ==> m1.Load(q).size == m.Load(q).size
    requires Changed(m1, m', Keys(t) + {n, 0})
    ensures Changed(m, m', Keys(t) + {n, 0})
  {
    PlugKeys(path, sub);
  }

  // ---------- deletion ----------

  /** Rebalancing every ancestor of the hole of path, after t has been put there. */
  function Climb(path: Path, t: Tree): Tree
    decreases path
  {
    if path.Top? then t else Climb(path.up, RebalanceHeavy(Under(path, t)))
  }

  /** Stored heights give the balance of a node and of its children. */
  lemma ChildHeights(m: Memory, p: Ptr, t: Tree, path: Path)
    requires t.Node? && At(m, p, t, path)
    ensures p != 0 && GetBalanceFactor(m, p) == Balance(t)
    ensures m.Load(p).left == RootKey(t.left) && m.Load(p).right == RootKey(t.right)
    ensures t.left.Node? ==> t.left.key != 0 && GetBalanceFactor(m, t.left.key) == Balance(t.left)
    ensures t.right.Node? ==> t.right.key != 0 && GetBalanceFactor(m, t.right.key) == Balance(t.right)
  {
    ShapeKeys(m, m.Load(p).left, t.left, p);
    ShapeKeys(m, m.Load(p).right, t.right, p);
    if t.left.Node? {
      ShapeKeys(m, m.Load(t.left.key).left, t.left.left, t.left.key);
      ShapeKeys(m, m.Load(t.left.key).right, t.left.right, t.left.key);
    }
    if t.right.Node? {
      ShapeKeys(m, m.Load(t.right.key).left, t.right.left, t.right.key);
      ShapeKeys(m, m.Load(t.right.key).right, t.right.right, t.right.key);
    }
  }

  lemma HeavyKeys(m: Memory, p: Ptr, t: Tree, path: Path)
    requires t.Node? && AtLoose(m, p, t, path)
    ensures Keys(RebalanceHeavy(t)) == Keys(t)
  {
    RebalanceHeavyOrdered(t, Lo(path), Hi(path));
  }

  /** Climbing from the deleted node's place gives the recursive deletion. */
  lemma {:induction false} ClimbDelete(path: Path, t: Tree, n: Address)
    requires PathOrdered(path) && Lo(path) < n < Hi(path)
    ensures Climb(path, Delete(t, n)) == Delete(Plug(path, t), n)
    decreases path
  {
    if !path.Top? {
      PathBounds(path.up);
      ClimbDelete(path.up, Under(path, t), n);
    }
  }

  /** The way from the right child of a deleted node down to its successor. */
  function Spine(base: Path, r: Tree): Path
    requires r.Node?
    decreases r
  {
    if r.left.Leaf? then base else Spine(InLeft(base, r.key, r.right), r.left)
  }

  /** What hangs to the right of the leftmost node. */
  function MinRight(r: Tree): Tree
    requires r.Node?
  {
    if r.left.Leaf? then r.right else MinRight(r.left)
  }

  lemma {:induction false} ClimbSpine(base: Path, r: Tree)
    requires r.Node?
    ensures Climb(Spine(base, r), MinRight(r)) == Climb(base, DeleteMin(r))
    decreases r
  {
    if r.left.Node? {
      ClimbSpine(InLeft(base, r.key, r.right), r.left);
    }
  }

  lemma {:induction false} SpineOrdered(base: Path, r: Tree, lo: int)
    requires r.Node? && PathOrdered(base) && Ordered(r, lo, Hi(base)) && Lo(base) == MinKey(r)
    ensures PathOrdered(Spine(base, r)) && Lo(Spine(base, r)) == MinKey(r)
    ensures Ordered(MinRight(r), MinKey(r), Hi(Spine(base, r)))
    decreases r
  {
    if r.left.Node? {
      DeleteMinOrdered(r.left, lo, r.key);
      SpineOrdered(InLeft(base, r.key, r.right), r.left, lo);
    }
  }

  lemma {:induction false} SpineKeys(base: Path, r: Tree)
    requires r.Node?
    ensures PathKeys(Spine(base, r)) + Keys(MinRight(r)) + {MinKey(r)} == PathKeys(base) + Keys(r)
    ensures r.left.Node? ==> PathKey(Spine(base, r)) in Keys(r) && !Spine(base, r).Top?
    ensures r.left.Leaf? ==> Spine(base, r) == base
    decreases r
  {
    if r.left.Node? {
      SpineKeys(InLeft(base, r.key, r.right), r.left);
    }
  }

  /** The successor's cell, before anything is rewritten. */
  lemma {:induction false} SuccessorCell(m: Memory, r: Tree, base: Path, lo: int, hi: int)
    requires r.Node? && Shape(m, r.key, r, PathKey(base)) && Ordered(r, lo, hi)
    ensures MinKey(r) != 0 && m.Load(MinKey(r)).right == RootKey(MinRight(r))
    ensures Shape(m, RootKey(MinRight(r)), MinRight(r), MinKey(r)) && m.Load(MinKey(r)).parent == PathKey(Spine(base, r))
    ensures RootKey(MinRight(r)) == 0 <==> MinRight(r).Leaf?
    ensures Ordered(MinRight(r), MinKey(r), hi)
    ensures r.left.Node? ==> MinKey(r) < PathKey(Spine(base, r)) <= r.key && MinKey(r) < r.key
    ensures r.left.Node? && MinRight(r).Node? ==> MinKey(r) < MinRight(r).key < PathKey(Spine(base, r))
    decreases r
  {
    if r.left.Leaf? {
      ShapeKeys(m, m.Load(r.key).right, r.right, r.key);
    } else {
      SuccessorCell(m, r.left, InLeft(base, r.key, r.right), lo, r.key);
      OrderedWiden(MinRight(r), MinKey(r), r.key, MinKey(r), hi);
    }
  }

  /** The fields of the cells on the spine after the successor has been cut out below it. */
  ghost predicate SpineCut(m: Memory, m': Memory, r: Tree, base: Path)
    requires r.Node?
  {
    var s := MinKey(r);
    var x := RootKey(MinRight(r));
    var sp := PathKey(Spine(base, r));
    forall q {:trigger q in Keys(r)} :: q in Keys(r) && q != s && q != 0 ==>
      && m'.Load(q).right == m.Load(q).right && m'.Load(q).height == m.Load(q).height
      && m'.Load(q).left == (if q == sp then x else m.Load(q).left)
      && m'.Load(q).parent == (if q == r.key then PathKey(base) else if q == x then sp else m.Load(q).parent)
  }

  lemma {:induction false} SpineShape(m: Memory, m': Memory, r: Tree, base: Path, parent: Ptr, lo: int, hi: int)
    requires r.Node? && r.left.Node? && Shape(m, r.key, r, parent) && Ordered(r, lo, hi)
    requires PathShape(m', base, r.key) && SpineCut(m, m', r, base)
    ensures PathShape(m', Spine(base, r), RootKey(MinRight(r)))
    ensures Shape(m', RootKey(MinRight(r)), MinRight(r), PathKey(Spine(base, r)))
    decreases r
  {
    var u, base' := r.left, InLeft(base, r.key, r.right);
    var s, sp, x := MinKey(r), PathKey(Spine(base, r)), RootKey(MinRight(r));
    SuccessorCell(m, r, InRight(Top, Leaf, parent), lo, hi);
    DeleteMinOrdered(u, lo, r.key);
    SpineKeys(base', u);
    OrderedKeys(u, lo, r.key);
    OrderedKeys(r.right, r.key, hi);
    assert r.key in Keys(r);
    assert Shape(m', m'.Load(r.key).right, r.right, r.key) by {
      ShapeFrame(m, m', m.Load(r.key).right, r.right, r.key);
    }
    if u.left.Leaf? {
      OrderedKeys(u.right, u.key, r.key);
      ShapeReparent(m, m', x, u.right, u.key, r.key, u.key, r.key);
    } else {
      SpineShape(m, m', u, base', r.key, lo, r.key);
    }
  }

  /** What cutting out a node with two children leaves in memory: its successor s stands in its place. */
  ghost predicate Spliced(m: Memory, m': Memory, sub: Tree, path: Path)
    requires sub.Node? && sub.left.Node? && sub.right.Node?
  {
    var s, x := MinKey(sub.right), RootKey(MinRight(sub.right));
    var sp := PathKey(Spine(InRight(path, sub.left, sub.key), sub.right));
    var l, r, prev := sub.left.key, sub.right.key, PathKey(path);
    var deep := s != r;
    forall q {:trigger m'.Load(q)} :: q != 0 ==>
      && m'.Load(q).size == m.Load(q).size
      && (q != s ==> m'.Load(q).height == m.Load(q).height)
      && m'.Load(q).left == (if q == s then l else if deep && q == sp then x
                             else if q == prev && path.InLeft? then s else m.Load(q).left)
      && m'.Load(q).right == (if q == s && deep then r
                              else if q == prev && path.InRight? then s else m.Load(q).right)
      && m'.Load(q).parent == (if q == s then prev else if q == l || (deep && q == r) then s
                               else if deep && q == x then sp else m.Load(q).parent)
  }

  /** The cells of the deleted node, its children and its successor. */
  lemma SpliceCells(m: Memory, sub: Tree, path: Path)
    requires sub.Node? && sub.left.Node? && sub.right.Node? && At(m, sub.key, sub, path)
    ensures var s, x := MinKey(sub.right), RootKey(MinRight(sub.right));
            var sp := PathKey(Spine(InRight(path, sub.left, sub.key), sub.right));
            var l, r, prev := sub.left.key, sub.right.key, PathKey(path);
            && sub.key != 0 && l != 0 && r != 0 && s != 0
            && m.Load(sub.key).left == l && m.Load(sub.key).right == r && m.Load(sub.key).parent == prev
            && m.Load(s).right == x && m.Load(s).parent == sp && (x == 0 <==> MinRight(sub.right).Leaf?)
            && l < sub.key < s && prev !in {l, r, s, sub.key} && (x != 0 ==> x !in {l, prev, sub.key, s})
            && (prev != 0 ==> (s < prev <==> path.InLeft?))
            && (sp == sub.key <==> s == r)
            && (s != r ==> s < sp <= r && sp != prev && (x != 0 ==> s < x < sp))
    ensures Shape(m, sub.right.key, sub.right, sub.key)
  {
    var k, right := sub.key, sub.right;
    var base := InRight(path, sub.left, k);
    ShapeKeys(m, m.Load(k).left, sub.left, k);
    ShapeKeys(m, m.Load(k).right, right, k);
    assert Shape(m, right.key, right, k);
    PathBounds(path);
    OrderedKeys(sub.left, Lo(path), k);
    OrderedKeys(right, k, Hi(path));
    DeleteMinOrdered(right, k, Hi(path));
    SuccessorCell(m, right, base, k, Hi(path));
    SpineKeys(base, right);
  }

  lemma SpliceOrdered(sub: Tree, path: Path)
    requires sub.Node? && sub.left.Node? && sub.right.Node? && PathOrdered(path) && Ordered(sub, Lo(path), Hi(path))
    ensures var below := Spine(InRight(path, sub.left, MinKey(sub.right)), sub.right);
            PathOrdered(below) && Ordered(MinRight(sub.right), Lo(below), Hi(below))
  {
    var s := MinKey(sub.right);
    PathBounds(path);
    DeleteMinOrdered(sub.right, sub.key, Hi(path));
    OrderedWiden(sub.left, Lo(path), sub.key, Lo(path), s);
    SpineOrdered(InRight(path, sub.left, s), sub.right, sub.key);
  }

  /** The successor takes the place of the deleted node, with the same left subtree. */
  lemma SpliceBase(m: Memory, m': Memory, sub: Tree, path: Path)
    requires sub.Node? && sub.left.Node? && sub.right.Node? && At(m, sub.key, sub, path) && Spliced(m, m', sub, path)
    ensures var s := MinKey(sub.right); PathShape(m', path, s) && Shape(m', sub.left.key, sub.left, s)
  {
    var k, l, r, s := sub.key, sub.left, sub.right, MinKey(sub.right);
    SpliceCells(m, sub, path);
    PathBounds(path);
    OrderedKeys(l, Lo(path), k);
    OrderedKeys(r, k, Hi(path));
    DeleteMinOrdered(r, k, Hi(path));
    ShapeKeys(m, m.Load(k).left, l, k);
    ShapeReparent(m, m', l.key, l, k, s, Lo(path), k);
    PathRehang(m, m', path, k, s);
  }

  /** After the splice, the tree without its node is in place up to rebalancing: what was to the
      right of the successor fills the successor's old place. */
  lemma SpliceShape(m: Memory, m': Memory, sub: Tree, path: Path)
    requires sub.Node? && sub.left.Node? && sub.right.Node? && At(m, sub.key, sub, path) && Spliced(m, m', sub, path)
    ensures var below := Spine(InRight(path, sub.left, MinKey(sub.right)), sub.right);
            At(m', RootKey(MinRight(sub.right)), MinRight(sub.right), below)
  {
    var s, r := MinKey(sub.right), sub.right;
    var base, base' := InRight(path, sub.left, sub.key), InRight(path, sub.left, s);
    SpliceCells(m, sub, path);
    SpliceBase(m, m', sub, path);
    SpliceOrdered(sub, path);
    OrderedKeys(r, sub.key, Hi(path));
    PathBounds(path);
    if s == r.key {
      DeleteMinOrdered(r, sub.key, Hi(path));
      SpineKeys(base, r);
      SpliceShapeNear(m, m', sub, path);
    } else {
      OrderedKeys(sub.left, Lo(path), sub.key);
      SpineSame(base, base', r);
      SpineShape(m, m', r, base', sub.key, sub.key, Hi(path));
    }
  }

  lemma {:induction false} SpineSame(base: Path, base': Path, r: Tree)
    requires r.Node? && r.left.Node?
    ensures PathKey(Spine(base, r)) == PathKey(Spine(base', r))
    decreases r
  {
    if r.left.left.Node? {
      SpineSame(InLeft(base, r.key, r.right), InLeft(base', r.key, r.right), r.left);
    }
  }

  /** The case where the successor is the right child itself. */
  lemma SpliceShapeNear(m: Memory, m': Memory, sub: Tree, path: Path)
    requires sub.Node? && sub.left.Node? && sub.right.Node? && At(m, sub.key, sub, path) && Spliced(m, m', sub, path)
    requires sub.right.left.Leaf?
    ensures Shape(m', RootKey(sub.right.right), sub.right.right, sub.right.key)
  {
    var k, r := sub.key, sub.right;
    SpliceCells(m, sub, path);
    PathBounds(path);
    OrderedKeys(sub.left, Lo(path), k);
    OrderedKeys(r, k, Hi(path));
    OrderedKeys(r.right, r.key, Hi(path));
    ShapeKeys(m, m.Load(r.key).right, r.right, r.key);
    ShapeFrame(m, m', m.Load(r.key).right, r.right, r.key);
  }

  lemma SpliceChanged(m: Memory, m': Memory, sub: Tree, path: Path)
    requires sub.Node? && sub.left.Node? && sub.right.Node? && At(m, sub.key, sub, path) && Spliced(m, m', sub, path)
    ensures Changed(m, m', Keys(sub) + PathKeys(path))
    ensures var below := Spine(InRight(path, sub.left, MinKey(sub.right)), sub.right);
            PathKeys(below) + Keys(MinRight(sub.right)) <= Keys(sub) + PathKeys(path)
  {
    var base, r := InRight(path, sub.left, sub.key), sub.right;
    SpliceCells(m, sub, path);
    SpineKeys(base, r);
    SpineKeys(InRight(path, sub.left, MinKey(r)), r);
    PathBounds(path);
    forall q | q != 0 && q !in Keys(sub) + PathKeys(path)
      ensures m'.Load(q) == m.Load(q)
    {
      assert MinRight(r).Node? ==> MinRight(r).key in Keys(MinRight(r));
      assert r.key in Keys(r) && sub.left.key in Keys(sub.left);
    }
  }

  lemma SpliceCorrect(m: Memory, m': Memory, sub: Tree, path: Path)
    requires sub.Node? && sub.left.Node? && sub.right.Node? && At(m, sub.key, sub, path) && Spliced(m, m', sub, path)
    ensures var s, rest := MinKey(sub.right), MinRight(sub.right);
            var below := Spine(InRight(path, sub.left, s), sub.right);
            && At(m', RootKey(rest), rest, below)
            && PathKeys(below) + Keys(rest) <= Keys(sub) + PathKeys(path)
            && !below.Top?
            && PathKey(below) == (if s == sub.right.key then s else PathKey(Spine(InRight(path, sub.left, sub.key), sub.right)))
    ensures Changed(m, m', Keys(sub) + PathKeys(path))
  {
    var base, base' := InRight(path, sub.left, sub.key), InRight(path, sub.left, MinKey(sub.right));
    SpliceCells(m, sub, path);
    SpliceShape(m, m', sub, path);
    SpliceChanged(m, m', sub, path);
    SpineKeys(base', sub.right);
    SpineKeys(base, sub.right);
    if sub.right.left.Node? {
      SpineSame(base, base', sub.right);
    }
  }

  /** What cutting out a node with at most one child leaves in memory; c is that child's tree. */
  ghost predicate CutOut(m: Memory, m': Memory, c: Tree, path: Path) {
    forall q {:trigger m'.Load(q)} :: q != 0 ==>
      && m'.Load(q).size == m.Load(q).size && m'.Load(q).height == m.Load(q).height
      && m'.Load(q).left == (if q == PathKey(path) && path.InLeft? then RootKey(c) else m.Load(q).left)
      && m'.Load(q).right == (if q == PathKey(path) && path.InRight? then RootKey(c) else m.Load(q).right)
      && m'.Load(q).parent == (if q == RootKey(c) then PathKey(path) else m.Load(q).parent)
  }

  lemma CutOutShape(m: Memory, m': Memory, sub: Tree, path: Path, c: Tree)
    requires sub.Node? && At(m, sub.key, sub, path)
    requires (sub.right.Leaf? && c == sub.left) || (sub.left.Leaf? && c == sub.right)
    requires CutOut(m, m', c, path)
    ensures At(m', RootKey(c), c, path) && DeleteRoot(sub) == c
    ensures Changed(m, m', Keys(sub) + PathKeys(path) + {0}) && Keys(c) <= Keys(sub)
  {
    var k := sub.key;
    PathBounds(path);
    ShapeKeys(m, m.Load(k).left, sub.left, k);
    ShapeKeys(m, m.Load(k).right, sub.right, k);
    OrderedKeys(sub.left, Lo(path), k);
    OrderedKeys(sub.right, k, Hi(path));
    OrderedWiden(sub.left, Lo(path), k, Lo(path), Hi(path));
    OrderedWiden(sub.right, k, Hi(path), Lo(path), Hi(path));
    ShapeReparent(m, m', RootKey(c), c, k, PathKey(path), Lo(path), Hi(path));
    PathRehang(m, m', path, k, RootKey(c));
  }

  /** The cell of a node that is to be deleted. */
  lemma NodeCell(m: Memory, sub: Tree, path: Path)
    requires sub.Node? && At(m, sub.key, sub, path)
    ensures sub.key != 0 && m.Load(sub.key).left == RootKey(sub.left) && m.Load(sub.key).right == RootKey(sub.right)
    ensures (RootKey(sub.left) == 0 <==> sub.left.Leaf?) && (RootKey(sub.right) == 0 <==> sub.right.Leaf?)
    ensures m.Load(sub.key).parent == PathKey(path) && (path.Top? <==> PathKey(path) == 0)
    ensures PathKey(path) != 0 ==> PathKey(path) != sub.key && (sub.key < PathKey(path) <==> path.InLeft?)
    ensures PathKey(path) == 0 || PathKey(path) !in {RootKey(sub.left), RootKey(sub.right)}
  {
    var k := sub.key;
    PathBounds(path);
    OrderedKeys(sub, Lo(path), Hi(path));
    ShapeKeys(m, m.Load(k).left, sub.left, k);
    ShapeKeys(m, m.Load(k).right, sub.right, k);
  }

  /** Every key of a tree has a place in it. */
  lemma {:induction false} Locate(t: Tree, n: Address, lo: int, hi: int, above: Path) returns (path: Path, sub: Tree)
    requires Ordered(t, lo, hi) && n in Keys(t)
    ensures Plug(path, sub) == Plug(above, t) && sub.Node? && sub.key == n
    decreases t
  {
    if n == t.key {
      path, sub := above, t;
    } else {
      OrderedKeys(t.left, lo, t.key);
      OrderedKeys(t.right, t.key, hi);
      if n < t.key {
        path, sub := Locate(t.left, n, lo, t.key, InLeft(above, t.key, t.right));
      } else {
        path, sub := Locate(t.right, n, t.key, hi, InRight(above, t.left, t.key));
      }
    }
  }

  lemma AtNode(m: Memory, p: Ptr, path: Path, sub: Tree)
    requires At(m, p, Plug(path, sub), Top)
    ensures At(m, RootKey(sub), sub, path) && Keys(Plug(path, sub)) == PathKeys(path) + Keys(sub)
    ensures Lo(path) < RootKey(sub) < Hi(path) || sub.Leaf?
  {
    PlugShape(m, p, path, sub);
    PlugOrdered(path, sub);
    PlugKeys(path, sub);
  }

  /** What climbing from the place of the deleted node gives, in both kinds of cuts. */
  lemma ClimbFromCut(path: Path, sub: Tree)
    requires sub.Node? && PathOrdered(path) && Lo(path) < sub.key < Hi(path)
    ensures Climb(path, DeleteRoot(sub)) == Delete(Plug(path, sub), sub.key)
    ensures sub.left.Node? && sub.right.Node? ==>
              Climb(Spine(InRight(path, sub.left, MinKey(sub.right)), sub.right), MinRight(sub.right))
              == Delete(Plug(path, sub), sub.key)
  {
    ClimbDelete(path, sub, sub.key);
    if sub.left.Node? && sub.right.Node? {
      ClimbSpine(InRight(path, sub.left, MinKey(sub.right)), sub.right);
    }
  }

  lemma AvlChild(path: Path, sub: Tree)
    requires Avl(Plug(path, sub)) && sub.Node?
    ensures Avl(sub.left) && Avl(sub.right)
  {
    PlugAvl(path, sub);
  }

  lemma BalancedStays(t: Tree, n: Address)
    requires t.Node? && Avl(t)
    ensures RebalanceFor(t, n) == t && -1 <= Balance(t) <= 1
  {
  }

  /** Sizes are no part of the tree. */
  lemma AtIgnoresSizes(m: Memory, m': Memory, p: Ptr, t: Tree)
    requires At(m, p, t, Top)
    requires forall q :: q in Keys(t) && q != 0 ==> SameLinks(m.Load(q), m'.Load(q))
    ensures At(m', p, t, Top)
  {
    ShapeFrame(m, m', p, t, 0);
  }
}
