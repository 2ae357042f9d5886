/** Blocks of the kernel heap as ranges of addresses, and the arithmetic of block and arena sizes
    in 64 bits. */
module HeapBlocks {
  import opened AvlTree
  import opened HeapMemory

  const NODE_SIZE: int := 40
  const HEADER_SIZE: int := 8
  const ARENA_ALIGNMENT: int := 8
  const PAGE_SIZE: int := 0x1000
  const WORD: int := 0x1_0000_0000_0000_0000

  // ---------- sizes ----------

  /** The size of the block that serves a request: header included, at least a node, aligned. */
  function BlockSize(request: nat): int {
    var withHeader := (request + HEADER_SIZE) % WORD;
    var size := if withHeader < NODE_SIZE then NODE_SIZE else withHeader;
    var misalignment := size % ARENA_ALIGNMENT;
    if misalignment != 0 then (size + ARENA_ALIGNMENT - misalignment) % WORD else size
  }

  function ArenaPages(size: nat): int {
    var effectiveSize := 2 * size % WORD;
    (effectiveSize + PAGE_SIZE - 1) % WORD / PAGE_SIZE
  }

  /** How much memory an extension of the heap obtains to serve a block of the given size. */
  function ArenaBytes(size: nat): int {
    ArenaPages(size) * PAGE_SIZE % WORD
  }

  /** The largest request whose sizes do not wrap around. */
  const MAX_REQUEST: int := 0x8000_0000_0000_0000 - 2056

  lemma BlockSizeRounds(request: nat)
    requires request < WORD
    ensures request + HEADER_SIZE <= BlockSize(request) <==> request <= WORD - 16
    ensures request <= WORD - 16 ==>
              BlockSize(request) % ARENA_ALIGNMENT == 0 && NODE_SIZE <= BlockSize(request)
              && (BlockSize(request) < request + HEADER_SIZE + ARENA_ALIGNMENT || BlockSize(request) == NODE_SIZE)
  {
  }

  lemma Wrapped(x: nat)
    requires x < 2 * WORD
    ensures x % WORD == if x < WORD then x else x - WORD
  {
  }

  lemma PagesBelow(u: nat)
    ensures u / PAGE_SIZE * PAGE_SIZE <= u
    ensures u < PAGE_SIZE ==> u / PAGE_SIZE == 0
    ensures u < WORD ==> u / PAGE_SIZE * PAGE_SIZE <= WORD - PAGE_SIZE
  {
  }

  lemma ArenaWraps(size: nat)
    requires NODE_SIZE <= size < WORD && 2 * size + PAGE_SIZE > WORD
    ensures ArenaBytes(size) < size + NODE_SIZE
  {
    var effectiveSize := if 2 * size < WORD then 2 * size else 2 * size - WORD;
    var rounded := effectiveSize + PAGE_SIZE - 1;
    var u := if rounded < WORD then rounded else rounded - WORD;
    Wrapped(2 * size);
    Wrapped(rounded);
    PagesBelow(u);
    Wrapped(u / PAGE_SIZE * PAGE_SIZE);
  }

  lemma ArenaBytesRound(size: nat)
    requires NODE_SIZE <= size < WORD && size % ARENA_ALIGNMENT == 0
    ensures size + NODE_SIZE <= ArenaBytes(size) <==> 2 * size + PAGE_SIZE <= WORD
    ensures ArenaBytes(size) % ARENA_ALIGNMENT == 0
    ensures 2 * size + PAGE_SIZE <= WORD ==> 2 * size <= ArenaBytes(size) < 2 * size + PAGE_SIZE
  {
    hide ArenaBytes;
    WholePages(size);
    PageIsAligned(ArenaBytes(size));
    if 2 * size + PAGE_SIZE > WORD {
      ArenaWraps(size);
    }
  }

  lemma WholePages(size: nat)
    ensures 0 <= ArenaBytes(size) && ArenaBytes(size) % PAGE_SIZE == 0
    ensures 2 * size + PAGE_SIZE <= WORD ==> 2 * size <= ArenaBytes(size) < 2 * size + PAGE_SIZE
  {
  }

  /** Exactly the requests up to MAX_REQUEST are served with a payload that is large enough out of
      an extension that leaves room for a free node; beyond it the 64-bit sizes wrap around. */
  lemma RequestsThatFit(request: nat)
    requires request < WORD
    ensures request <= MAX_REQUEST <==>
              var size := BlockSize(request);
              size >= request + HEADER_SIZE && ArenaBytes(size) >= size + NODE_SIZE
  {
    BlockSizeRounds(request);
    if request <= WORD - 16 {
      ArenaBytesRound(BlockSize(request));
    }
  }

  // ---------- tiling ----------

  ghost predicate Within(m: Memory, b: Ptr, x: int) {
    b != 0 && b <= x < b + m.Load(b).size
  }

  ghost predicate Covered(m: Memory, blocks: set<Ptr>, x: int) {
    exists b :: b in blocks && Within(m, b, x)
  }

  /** A stretch of memory obtained from the virtual memory manager. */
  datatype Arena = Arena(start: Ptr, size: nat) {
    predicate Contains(x: int) {
      start <= x < start + size
    }
  }

  ghost predicate Obtained(arenas: set<Arena>, x: int) {
    exists a :: a in arenas && a.Contains(x)
  }

  ghost predicate Disjoint(arenas: set<Arena>, start: Ptr, size: nat) {
    forall a :: a in arenas ==> a.start + a.size <= start || start + size <= a.start
  }

  ghost predicate Sound(m: Memory, b: Ptr) {
    && b != 0 && b % ARENA_ALIGNMENT == 0 && m.Load(b).size % ARENA_ALIGNMENT == 0
    && NODE_SIZE <= m.Load(b).size && b + m.Load(b).size <= ADDRESS_LIMIT
  }

  ghost predicate Apart(m: Memory, b: Ptr, c: Ptr) {
    b != 0 && c != 0 && (b + m.Load(b).size <= c || c + m.Load(c).size <= b)
  }

  /** The blocks are well formed, pairwise disjoint, and together exactly the bytes of the arenas. */
  ghost predicate Tiles(m: Memory, blocks: set<Ptr>, arenas: set<Arena>) {
    && (forall b :: b in blocks ==> Sound(m, b))
    && (forall b, c :: b in blocks && c in blocks && b != c ==> Apart(m, b, c))
    && (forall x: int :: Obtained(arenas, x) <==> Covered(m, blocks, x))
  }

  lemma TilesSameSizes(m: Memory, m': Memory, blocks: set<Ptr>, arenas: set<Arena>)
    requires Tiles(m, blocks, arenas)
    requires forall b :: b in blocks && b != 0 ==> m'.Load(b).size == m.Load(b).size
    ensures Tiles(m', blocks, arenas)
  {
    forall x: int
      ensures Obtained(arenas, x) <==> Covered(m', blocks, x)
    {
      if Covered(m, blocks, x) {
        var b :| b in blocks && Within(m, b, x);
        assert Within(m', b, x);
      }
      if Covered(m', blocks, x) {
        var b :| b in blocks && Within(m', b, x);
        assert Within(m, b, x);
      }
    }
  }

  lemma TopIsNew(m: Memory, blocks: set<Ptr>, arenas: set<Arena>, b: Ptr, p: Ptr)
    requires Tiles(m, blocks, arenas) && b in blocks && b != 0 && b < p < b + m.Load(b).size
    ensures p !in blocks
  {
    assert p in blocks ==> Apart(m, b, p) && Sound(m, p);
  }

  /** Cutting the top of block b off as a block p of its own. */
  lemma TilesSplit(m: Memory, m': Memory, blocks: set<Ptr>, arenas: set<Arena>, b: Ptr, p: Ptr, size: nat)
    requires Tiles(m, blocks, arenas) && b in blocks && b != 0 && p == b + m.Load(b).size - size
    requires size % ARENA_ALIGNMENT == 0 && NODE_SIZE <= size && NODE_SIZE <= m.Load(b).size - size
    requires m'.Load(b).size == m.Load(b).size - size && m'.Load(p).size == size
    requires forall q :: q in blocks && q != 0 && q != b ==> m'.Load(q).size == m.Load(q).size
    ensures p !in blocks && Tiles(m', blocks + {p}, arenas)
  {
    assert Sound(m, b);
    TopIsNew(m, blocks, arenas, b, p);
    assert Sound(m', b) && Sound(m', p) && Apart(m', b, p) && Apart(m', p, b);
    forall c | c in blocks && c != b
      ensures Sound(m', c) && Apart(m', b, c) && Apart(m', p, c) && Apart(m', c, b) && Apart(m', c, p)
    {
      assert Sound(m, c) && Apart(m, b, c);
    }
    assert forall c, d :: c in blocks && d in blocks && c != d && c != b && d != b ==> Apart(m, c, d) ==> Apart(m', c, d);
    hide Apart, Covered;
    forall x: int
      ensures Obtained(arenas, x) <==> Covered(m', blocks + {p}, x)
    {
      SplitCovers(m, m', blocks, b, p, x);
    }
  }

  lemma SplitCovers(m: Memory, m': Memory, blocks: set<Ptr>, b: Ptr, p: Ptr, x: int)
    requires b in blocks && b != 0 && p !in blocks && b < p
    requires b + m'.Load(b).size == p && p + m'.Load(p).size == b + m.Load(b).size
    requires forall q :: q in blocks && q != 0 && q != b ==> m'.Load(q).size == m.Load(q).size
    ensures Covered(m, blocks, x) <==> Covered(m', blocks + {p}, x)
  {
    if Covered(m, blocks, x) {
      var c :| c in blocks && Within(m, c, x);
      assert Within(m', if c == b && x >= p then p else c, x);
    }
    if Covered(m', blocks + {p}, x) {
      var c :| c in blocks + {p} && Within(m', c, x);
      assert Within(m, if c == p then b else c, x);
    }
  }

  /** Adding a block on memory that was not owned before. */
  lemma TilesExtend(m: Memory, m': Memory, blocks: set<Ptr>, arenas: set<Arena>, b: Ptr, size: nat)
    requires Tiles(m, blocks, arenas) && b != 0 && m'.Load(b).size == size && Sound(m', b)
    requires Disjoint(arenas, b, size)
    requires forall q :: q in blocks && q != 0 ==> m'.Load(q).size == m.Load(q).size
    ensures b !in blocks && Tiles(m', blocks + {b}, arenas + {Arena(b, size)})
  {
    var arenas' := arenas + {Arena(b, size)};
    forall c | c in blocks
      ensures Sound(m', c) && Apart(m', b, c) && Apart(m', c, b) && c != b
    {
      assert Sound(m, c) && Within(m, c, c) && Covered(m, blocks, c);
      if b < c {
        var a :| a in arenas && a.Contains(c);
      } else {
        assert Within(m, c, b) ==> Covered(m, blocks, b);
        assert Obtained(arenas, b) ==> exists a :: a in arenas && a.Contains(b);
      }
    }
    assert forall c, d :: c in blocks && d in blocks && c != d ==> Apart(m, c, d) ==> Apart(m', c, d);
    forall x: int
      ensures Obtained(arenas', x) <==> Covered(m', blocks + {b}, x)
    {
      if Obtained(arenas', x) {
        var a :| a in arenas' && a.Contains(x);
        if a in arenas {
          assert Obtained(arenas, x);
          var c :| c in blocks && Within(m, c, x);
          assert Within(m', c, x);
        } else {
          assert Within(m', b, x);
        }
      }
      if Covered(m', blocks + {b}, x) {
        var c :| c in blocks + {b} && Within(m', c, x);
        if c in blocks {
          assert Within(m, c, x) && Covered(m, blocks, x);
          var a :| a in arenas && a.Contains(x);
          assert a in arenas';
        } else {
          assert Arena(b, size) in arenas' && Arena(b, size).Contains(x);
        }
      }
    }
  }

  /** No block lies on memory that was not obtained. */
  lemma BlocksOutside(m: Memory, blocks: set<Ptr>, arenas: set<Arena>, start: Ptr, size: nat)
    requires Tiles(m, blocks, arenas) && Disjoint(arenas, start, size)
    ensures forall b :: b in blocks ==> !(start <= b < start + size)
  {
    forall b | b in blocks
      ensures !(start <= b < start + size)
    {
      assert Sound(m, b) && Within(m, b, b) && Covered(m, blocks, b);
      var a :| a in arenas && a.Contains(b);
    }
  }

  // ---------- the state of the heap ----------

  /** Free blocks form an AVL tree in memory, and free and live blocks tile the arenas. */
  ghost predicate HeapState(m: Memory, root: Ptr, tree: Tree, live: set<Ptr>, arenas: set<Arena>) {
    && At(m, root, tree, Top) && Avl(tree)
    && Keys(tree) !! live && Tiles(m, Keys(tree) + live, arenas)
  }

  lemma FirstState(m: Memory, b: Ptr, size: nat)
    requires b != 0 && m.Load(b) == Cell(size, 0, 0, 0, 1) && Sound(m, b)
    ensures HeapState(m, b, Node(Leaf, b, Leaf), {}, {Arena(b, size)})
    ensures Keys(Node(Leaf, b, Leaf)) == {b}
  {
    SingleNode(m, b);
    assert Keys(Node(Leaf, b, Leaf)) == {b} + {};
  }

  /** The state of a heap whose first arena is one free block. */
  lemma FirstHeap(m: Memory, arena: Ptr, size: nat)
    requires arena != 0 && arena % PAGE_SIZE == 0 && size % PAGE_SIZE == 0 && size > 0 && arena + size <= ADDRESS_LIMIT
    requires m == Memory(map[arena := Cell(size, 0, 0, 0, 1)])
    ensures HeapState(m, arena, Node(Leaf, arena, Leaf), {}, {Arena(arena, size)}) && Keys(Node(Leaf, arena, Leaf)) == {arena}
  {
    PagesAreAligned(arena, size);
    assert m.Load(arena) == Cell(size, 0, 0, 0, 1);
    assert Sound(m, arena);
    hide *;
    FirstState(m, arena, size);
  }

  lemma PagesAreAligned(arena: nat, size: nat)
    requires arena % PAGE_SIZE == 0 && size % PAGE_SIZE == 0 && size > 0
    ensures arena % ARENA_ALIGNMENT == 0 && size % ARENA_ALIGNMENT == 0 && NODE_SIZE <= size
  {
    PageIsAligned(arena);
    PageIsAligned(size);
    assert size >= PAGE_SIZE;
  }

  lemma PageIsAligned(x: nat)
    requires x % PAGE_SIZE == 0
    ensures x % ARENA_ALIGNMENT == 0
  {
    assert x == x / PAGE_SIZE * 512 * ARENA_ALIGNMENT;
  }

  /** A free block and a live block are aligned and larger than a node. */
  lemma BlockFacts(m: Memory, root: Ptr, tree: Tree, live: set<Ptr>, arenas: set<Arena>, b: Ptr)
    requires HeapState(m, root, tree, live, arenas) && b in Keys(tree) + live
    ensures Sound(m, b)
  {
  }

  lemma HeapTree(m: Memory, root: Ptr, tree: Tree, live: set<Ptr>, arenas: set<Arena>)
    requires HeapState(m, root, tree, live, arenas)
    ensures At(m, root, tree, Top) && Avl(tree) && Shape(m, root, tree, 0) && Ordered(tree, 0, ADDRESS_LIMIT)
    ensures Tiles(m, Keys(tree) + live, arenas) && Keys(tree) !! live
  {
  }

  /** payload is the payload of a new live block of at least the given size; live blocks keep theirs. */
  ghost predicate HandedOut(m: Memory, m': Memory, live: set<Ptr>, live': set<Ptr>, payload: Ptr, size: int) {
    var block := payload - HEADER_SIZE;
    && block > 0 && payload % ARENA_ALIGNMENT == 0
    && block !in live && live' == live + {block} && size <= m'.Load(block).size
    && forall b :: b in live && b != 0 ==> m'.Load(b).size == m.Load(b).size
  }

  /** How a free block serves a size: its top is cut off, or all of it is taken if what would remain is
      too small for a node. */
  ghost predicate Served(m: Memory, m': Memory, tree: Tree, tree': Tree, live: set<Ptr>, live': set<Ptr>, node: Ptr, size: nat, payload: Ptr)
    requires node != 0
  {
    var all := m.Load(node).size;
    var block := payload - HEADER_SIZE;
    && block > 0 && live' == live + {block}
    && if all > size && all - size >= NODE_SIZE
       then block == node + all - size && tree' == tree && m'.Load(block).size == size && m'.Load(node).size == all - size
            && forall q {:trigger m'.Load(q)} :: q != 0 && q != block && q != node ==> m'.Load(q).size == m.Load(q).size
       else block == node && tree' == Delete(tree, node)
            && forall q {:trigger m'.Load(q)} :: q != 0 ==> m'.Load(q).size == m.Load(q).size
  }

  // ---------- what the owners of live blocks do ----------

  ghost predicate InLive(m: Memory, live: set<Ptr>, q: Ptr) {
    exists b :: b in live && Within(m, b, q)
  }

  /** Owners have written in their blocks whatever they like, but for the sizes in the headers. */
  ghost predicate OwnersWrote(m: Memory, m': Memory, live: set<Ptr>) {
    && (forall b :: b in live && b != 0 ==> m'.Load(b).size == m.Load(b).size)
    && forall q {:trigger m'.Load(q)} :: q != 0 && !InLive(m, live, q) ==> m'.Load(q) == m.Load(q)
  }

  /** Writing in live blocks disturbs neither the tree nor the tiling. */
  lemma OwnersKeepState(m: Memory, m': Memory, root: Ptr, tree: Tree, live: set<Ptr>, arenas: set<Arena>)
    requires HeapState(m, root, tree, live, arenas) && OwnersWrote(m, m', live)
    ensures HeapState(m', root, tree, live, arenas)
  {
    FreeOutsideLive(m, root, tree, live, arenas);
    assert forall k :: k in Keys(tree) && k != 0 ==> m'.Load(k) == m.Load(k);
    hide Keys, Avl, Ordered, Within, InLive;
    ShapeFrame(m, m', root, tree, 0);
    TilesSameSizes(m, m', Keys(tree) + live, arenas);
  }

  lemma FreeOutsideLive(m: Memory, root: Ptr, tree: Tree, live: set<Ptr>, arenas: set<Arena>)
    requires HeapState(m, root, tree, live, arenas)
    ensures forall k :: k in Keys(tree) && k != 0 ==> !InLive(m, live, k)
  {
    hide At, Avl, Keys;
    forall k, b | k in Keys(tree) && k != 0 && b in live
      ensures !Within(m, b, k)
    {
      assert Apart(m, b, k) && Sound(m, k);
    }
  }

  /** What lies in live blocks, headers included, has not been touched. */
  ghost predicate LiveKept(m: Memory, m': Memory, live: set<Ptr>) {
    forall q {:trigger m'.Load(q)} :: q != 0 && InLive(m, live, q) ==> m'.Load(q) == m.Load(q)
  }

  lemma BlockOutsideLive(m: Memory, blocks: set<Ptr>, arenas: set<Arena>, live: set<Ptr>, b: Ptr)
    requires Tiles(m, blocks, arenas) && live <= blocks && b in blocks && b !in live && b != 0
    ensures forall q :: Within(m, b, q) ==> !InLive(m, live, q)
  {
    forall q, c | Within(m, b, q) && c in live
      ensures !Within(m, c, q)
    {
      assert Apart(m, b, c);
    }
  }

  /** Memory that was not obtained before holds no live block. */
  lemma NewOutsideLive(m: Memory, blocks: set<Ptr>, arenas: set<Arena>, live: set<Ptr>, start: Ptr, size: nat)
    requires Tiles(m, blocks, arenas) && live <= blocks && Disjoint(arenas, start, size)
    ensures forall q :: start <= q < start + size ==> !InLive(m, live, q)
  {
    forall q, c | start <= q < start + size && c in live
      ensures !Within(m, c, q)
    {
      assert Within(m, c, q) ==> Covered(m, blocks, q);
    }
  }

  lemma ChangedOutsideLive(m: Memory, m': Memory, blocks: set<Ptr>, arenas: set<Arena>, live: set<Ptr>, s: set<Ptr>)
    requires Tiles(m, blocks, arenas) && live <= blocks && s <= blocks && s !! live
    requires forall q {:trigger m'.Load(q)} :: q != 0 && q !in s ==> m'.Load(q) == m.Load(q)
    ensures LiveKept(m, m', live)
  {
    forall k | k in s && k != 0
      ensures !InLive(m, live, k)
    {
      assert Sound(m, k);
      BlockOutsideLive(m, blocks, arenas, live, k);
      assert Within(m, k, k);
    }
  }

  lemma LiveKeptSelf(m: Memory, live: set<Ptr>)
    ensures LiveKept(m, m, live)
  {
  }

  lemma LiveKeptTwice(m: Memory, m': Memory, m'': Memory, live: set<Ptr>, live': set<Ptr>, payload: Ptr, size: int)
    requires LiveKept(m, m', live) && LiveKept(m', m'', live') && HandedOut(m, m', live, live', payload, size)
    ensures LiveKept(m, m'', live)
  {
    forall q: Ptr | q != 0 && InLive(m, live, q)
      ensures InLive(m', live', q)
    {
      var b :| b in live && Within(m, b, q);
      assert Within(m', b, q);
    }
  }

  lemma TreeChangesKeepLive(m: Memory, m': Memory, s: set<Ptr>, live: set<Ptr>, arenas: set<Arena>)
    requires Tiles(m, s + live, arenas) && s !! live && Changed(m, m', s + {0})
    ensures LiveKept(m, m', live)
  {
    ChangedOutsideLive(m, m', s + live, arenas, live, s);
  }

  /** b is a block that is neither in the tree nor live. */
  ghost predicate Loosened(m: Memory, root: Ptr, tree: Tree, live: set<Ptr>, arenas: set<Arena>, b: Ptr) {
    && At(m, root, tree, Top) && Avl(tree) && b !in Keys(tree) && b !in live && Keys(tree) !! live
    && Tiles(m, Keys(tree) + {b} + live, arenas)
  }

  lemma SplitKeepsLive(m: Memory, m': Memory, root: Ptr, tree: Tree, live: set<Ptr>, arenas: set<Arena>, node: Ptr, p: Ptr)
    requires HeapState(m, root, tree, live, arenas) && node in Keys(tree) && node != 0 && Within(m, node, p)
    requires forall q {:trigger m'.Load(q)} :: q != 0 && q != node && q != p ==> m'.Load(q) == m.Load(q)
    ensures LiveKept(m, m', live)
  {
    hide At, Avl, Keys;
    assert Sound(m, node);
    BlockOutsideLive(m, Keys(tree) + live, arenas, live, node);
    assert Within(m, node, node);
  }

  lemma TakeKeepsLive(m: Memory, m1: Memory, m': Memory, root: Ptr, tree: Tree, live: set<Ptr>, arenas: set<Arena>, node: Ptr)
    requires HeapState(m, root, tree, live, arenas) && node in Keys(tree) && node != 0
    requires Changed(m, m1, Keys(tree) + {0}) && forall q {:trigger m'.Load(q)} :: q != 0 && q != node ==> m'.Load(q) == m1.Load(q)
    ensures LiveKept(m, m', live)
  {
    hide At, Avl, Keys, Tiles;
    ChangedOutsideLive(m, m', Keys(tree) + live, arenas, live, Keys(tree));
  }

  lemma ExtensionKeepsLive(m: Memory, m': Memory, root: Ptr, tree: Tree, live: set<Ptr>, arenas: set<Arena>, chunk: Ptr, size: nat)
    requires HeapState(m, root, tree, live, arenas) && Disjoint(arenas, chunk, size)
    requires forall q: Ptr {:trigger m'.Load(q)} :: q != 0 && !(chunk <= q < chunk + size) ==> m'.Load(q) == m.Load(q)
    ensures LiveKept(m, m', live)
  {
    hide At, Avl, Keys, Tiles, Disjoint;
    NewOutsideLive(m, Keys(tree) + live, arenas, live, chunk, size);
  }

  lemma LoosenedTiles(m: Memory, root: Ptr, tree: Tree, live: set<Ptr>, arenas: set<Arena>, b: Ptr)
    requires Loosened(m, root, tree, live, arenas, b)
    ensures Tiles(m, Keys(tree) + {b} + live, arenas) && Keys(tree) + {b} !! live
    ensures Keys(tree) + {b} + {0} == Keys(tree) + {b, 0}
  {
  }

  /** Handing out the top of a free block. */
  lemma SplitState(m: Memory, m': Memory, root: Ptr, tree: Tree, live: set<Ptr>, arenas: set<Arena>, b: Ptr, p: Ptr, size: nat)
    requires HeapState(m, root, tree, live, arenas) && b in Keys(tree) && b != 0 && p == b + m.Load(b).size - size
    requires size % ARENA_ALIGNMENT == 0 && NODE_SIZE <= size && NODE_SIZE <= m.Load(b).size - size
    requires forall q {:trigger m'.Load(q)} :: q != 0 ==>
               && SameLinks(m.Load(q), m'.Load(q))
               && m'.Load(q).size == if q == p then size else if q == b then m.Load(b).size - size else m.Load(q).size
    ensures HeapState(m', root, tree, live + {p}, arenas) && HandedOut(m, m', live, live + {p}, p + HEADER_SIZE, size)
  {
    hide Tiles, At, Avl, Keys, Ordered, Shape, HeapState, HandedOut;
    var blocks := Keys(tree) + live;
    HeapTree(m, root, tree, live, arenas);
    BlockFacts(m, root, tree, live, arenas, b);
    AtIgnoresSizes(m, m', root, tree);
    TopIsNew(m, blocks, arenas, b, p);
    TilesSplit(m, m', blocks, arenas, b, p, size);
    assert blocks + {p} == Keys(tree) + (live + {p});
    StateOf(m', root, tree, live + {p}, arenas);
    TopHandedOut(m, m', live, p, size);
  }

  lemma StateOf(m: Memory, root: Ptr, tree: Tree, live: set<Ptr>, arenas: set<Arena>)
    requires At(m, root, tree, Top) && Avl(tree) && Keys(tree) !! live && Tiles(m, Keys(tree) + live, arenas)
    ensures HeapState(m, root, tree, live, arenas)
  {
  }

  lemma TopHandedOut(m: Memory, m': Memory, live: set<Ptr>, p: Ptr, size: nat)
    requires p > 0 && p % ARENA_ALIGNMENT == 0 && p !in live && m'.Load(p).size == size
    requires forall q :: q in live && q != 0 ==> m'.Load(q).size == m.Load(q).size
    ensures HandedOut(m, m', live, live + {p}, p + HEADER_SIZE, size)
  {
  }

  /** Handing out a whole free block, which has been deleted from the tree. */
  lemma TakeState(m: Memory, m': Memory, root: Ptr, root': Ptr, tree: Tree, live: set<Ptr>, arenas: set<Arena>, b: Ptr)
    requires HeapState(m, root, tree, live, arenas) && b in Keys(tree)
    requires At(m', root', Delete(tree, b), Top) && forall q {:trigger m'.Load(q)} :: q != 0 ==> m'.Load(q).size == m.Load(q).size
    ensures HeapState(m', root', Delete(tree, b), live + {b}, arenas)
  {
    HeapTree(m, root, tree, live, arenas);
    hide Tiles, At, Avl, Keys, Ordered, Shape, Delete;
    DeleteAvl(tree, b);
    DeleteOrdered(tree, b, 0, ADDRESS_LIMIT);
    TilesSameSizes(m, m', Keys(tree) + live, arenas);
    assert Keys(tree) + live == Keys(Delete(tree, b)) + (live + {b});
  }

  /** Taking back a block, which has been inserted into the tree. */
  lemma ReturnState(m: Memory, m': Memory, root: Ptr, root': Ptr, tree: Tree, live: set<Ptr>, arenas: set<Arena>, b: Ptr)
    requires Loosened(m, root, tree, live, arenas, b)
    requires At(m', root', Insert(tree, b), Top) && forall q {:trigger m'.Load(q)} :: q != 0 ==> m'.Load(q).size == m.Load(q).size
    ensures HeapState(m', root', Insert(tree, b), live, arenas) && Keys(Insert(tree, b)) == Keys(tree) + {b}
  {
    assert b in Keys(tree) + {b} + live && Sound(m, b);
    InsertAvl(tree, b, 0, ADDRESS_LIMIT);
    InsertOrdered(tree, b, 0, ADDRESS_LIMIT);
    TilesSameSizes(m, m', Keys(tree) + {b} + live, arenas);
  }

  lemma ExtendTiles(m: Memory, m': Memory, blocks: set<Ptr>, arenas: set<Arena>, b: Ptr, all: nat, p: Ptr, size: nat)
    requires Tiles(m, blocks, arenas) && b != 0 && Disjoint(arenas, b, all)
    requires b % ARENA_ALIGNMENT == 0 && all % ARENA_ALIGNMENT == 0 && b + all <= ADDRESS_LIMIT
    requires size % ARENA_ALIGNMENT == 0 && NODE_SIZE <= size && NODE_SIZE <= all - size && p == b + all - size
    requires forall q :: q in blocks && q != 0 ==> m'.Load(q) == m.Load(q) && q != b && q != p
    requires m'.Load(b).size == all - size && m'.Load(p).size == size
    ensures b !in blocks && p !in blocks + {b} && Tiles(m', blocks + {b} + {p}, arenas + {Arena(b, all)})
  {
    var m1 := m'.SetSize(b, all);
    hide Disjoint, Tiles;
    TilesExtend(m, m1, blocks, arenas, b, all);
    TilesSplit(m1, m', blocks + {b}, arenas + {Arena(b, all)}, b, p, size);
  }

  /** New memory holds one block; its top is handed out at once and the rest is not yet in the tree. */
  lemma ExtendState(m: Memory, m': Memory, root: Ptr, tree: Tree, live: set<Ptr>, arenas: set<Arena>, b: Ptr, all: nat, p: Ptr, size: nat)
    requires HeapState(m, root, tree, live, arenas) && b != 0 && Disjoint(arenas, b, all)
    requires b % ARENA_ALIGNMENT == 0 && all % ARENA_ALIGNMENT == 0 && b + all <= ADDRESS_LIMIT
    requires size % ARENA_ALIGNMENT == 0 && NODE_SIZE <= size && NODE_SIZE <= all - size && p == b + all - size
    requires forall q: Ptr {:trigger m'.Load(q)} :: q != 0 && !(b <= q < b + all) ==> m'.Load(q) == m.Load(q)
    requires m'.Load(b).size == all - size && m'.Load(p).size == size
    ensures Loosened(m', root, tree, live + {p}, arenas + {Arena(b, all)}, b)
    ensures HandedOut(m, m', live, live + {p}, p + HEADER_SIZE, size)
    ensures 0 < b < ADDRESS_LIMIT
  {
    var blocks := Keys(tree) + live;
    BlocksOutside(m, blocks, arenas, b, all);
    AtIgnoresSizes(m, m', root, tree);
    hide Disjoint, At, Keys, Avl;
    ExtendTiles(m, m', blocks, arenas, b, all, p, size);
    hide Tiles;
    assert blocks + {b} + {p} == Keys(tree) + {b} + (live + {p});
  }

  lemma ChangedSizes(m: Memory, m': Memory, s: set<Ptr>)
    requires Changed(m, m', s)
    ensures forall q {:trigger m'.Load(q)} :: q != 0 ==> m'.Load(q).size == m.Load(q).size
  {
  }

  lemma SameLinksBesidesSizes(m: Memory, m': Memory)
    requires forall q {:trigger m'.Load(q)} :: q != 0 ==> m'.Load(q) == m.Load(q).(size := m'.Load(q).size)
    ensures forall q {:trigger m'.Load(q)} :: q != 0 ==> SameLinks(m.Load(q), m'.Load(q))
  {
  }

  lemma FreeReady(m: Memory, root: Ptr, tree: Tree, live: set<Ptr>, arenas: set<Arena>, b: Ptr)
    requires HeapState(m, root, tree, live, arenas) && b in live
    ensures Loosened(m, root, tree, live - {b}, arenas, b)
  {
    assert Keys(tree) + live == Keys(tree) + {b} + (live - {b});
  }

  lemma LoosenedTree(m: Memory, root: Ptr, tree: Tree, live: set<Ptr>, arenas: set<Arena>, b: Ptr)
    requires Loosened(m, root, tree, live, arenas, b)
    ensures At(m, root, tree, Top) && Avl(tree) && 0 < b < ADDRESS_LIMIT && b !in Keys(tree)
  {
    assert b in Keys(tree) + {b} + live && Sound(m, b);
  }

  lemma HandedOutMore(m: Memory, m': Memory, live: set<Ptr>, live': set<Ptr>, payload: Ptr, size: int, size': int)
    requires HandedOut(m, m', live, live', payload, size) && size' <= size
    ensures HandedOut(m, m', live, live', payload, size') && payload != 0
  {
  }

  lemma HandedOutStays(m: Memory, m': Memory, m'': Memory, live: set<Ptr>, live': set<Ptr>, payload: Ptr, size: int, s: set<Ptr>)
    requires HandedOut(m, m', live, live', payload, size) && Changed(m', m'', s)
    ensures HandedOut(m, m'', live, live', payload, size)
  {
  }

  // ---------- the search for a free block ----------

  /** The search meets a block of exactly the wanted size: at the root, on the left, or on the
      right of a root that is larger than wanted. */
  ghost predicate MeetsExact(m: Memory, t: Tree, size: int) {
    t.Node? && t.key != 0 &&
    (m.Load(t.key).size == size || MeetsExact(m, t.left, size)
     || (m.Load(t.key).size > size && MeetsExact(m, t.right, size)))
  }

  /** Exactly when the search succeeds. */
  ghost predicate Findable(m: Memory, t: Tree, size: int) {
    t.Node? && t.key != 0 && (m.Load(t.key).size >= size || MeetsExact(m, t.left, size))
  }

  /** The block and all blocks above it in the tree have at least the wanted size. */
  ghost predicate FitsFromTop(m: Memory, t: Tree, size: int, k: Ptr) {
    && t.Node? && t.key != 0 && m.Load(t.key).size >= size
    && (k == t.key || FitsFromTop(m, t.left, size, k) || FitsFromTop(m, t.right, size, k))
  }

  lemma {:induction false} FitsFromTopFits(m: Memory, t: Tree, size: int)
    ensures forall k: Ptr {:trigger FitsFromTop(m, t, size, k)} :: FitsFromTop(m, t, size, k) ==> k != 0 && m.Load(k).size >= size
  {
    if t.Node? {
      FitsFromTopFits(m, t.left, size);
      FitsFromTopFits(m, t.right, size);
    }
  }

  /** The best fit: no block that fits, with all blocks above it, is smaller than the one found, and that
      one is such a block itself unless it is exact. */
  ghost predicate BestFit(m: Memory, t: Tree, size: int, found: Ptr) {
    && (found != 0 ==> m.Load(found).size == size || FitsFromTop(m, t, size, found))
    && forall k: Ptr {:trigger FitsFromTop(m, t, size, k)} ::
         FitsFromTop(m, t, size, k) ==> found != 0 && k != 0 && m.Load(found).size <= m.Load(k).size
  }

  /** An empty tree offers nothing. */
  lemma NothingFits(m: Memory, size: int)
    ensures BestFit(m, Leaf, size, 0)
  {
  }

  /** An exact block is a best fit wherever it is. */
  lemma ExactIsBest(m: Memory, t: Tree, size: int, found: Ptr)
    requires found != 0 && m.Load(found).size == size
    ensures BestFit(m, t, size, found)
  {
    FitsFromTopFits(m, t, size);
  }

  /** The smallest of a root that fits and the best fits of its subtrees is the best fit. */
  lemma BestOfThree(m: Memory, t: Tree, size: int, left: Ptr, right: Ptr, found: Ptr)
    requires t.Node? && t.key != 0 && BestFit(m, t.left, size, left) && BestFit(m, t.right, size, right)
    requires m.Load(t.key).size < size ==> found == 0
    requires m.Load(t.key).size >= size ==> found != 0 && (found == t.key || found == left || found == right)
    requires m.Load(t.key).size >= size ==>
               && size <= m.Load(found).size <= m.Load(t.key).size
               && (left != 0 && m.Load(left).size >= size ==> m.Load(found).size <= m.Load(left).size)
               && (right != 0 && m.Load(right).size >= size ==> m.Load(found).size <= m.Load(right).size)
    ensures BestFit(m, t, size, found)
  {
    FitsFromTopFits(m, t, size);
    FitsFromTopFits(m, t.left, size);
    FitsFromTopFits(m, t.right, size);
    if m.Load(t.key).size >= size {
      assert FitsFromTop(m, t, size, t.key);
      forall k: Ptr | FitsFromTop(m, t, size, k)
        ensures m.Load(found).size <= m.Load(k).size
      {
        if FitsFromTop(m, t.left, size, k) {
          assert left != 0 && m.Load(left).size <= m.Load(k).size;
        } else if FitsFromTop(m, t.right, size, k) {
          assert right != 0 && m.Load(right).size <= m.Load(k).size;
        }
      }
    }
  }
}
