/** When page tables form a tree: every table frame is reached by exactly one path of indices.
    Under this invariant, installing an empty table changes no translation and writing a leaf
    entry changes the translation of one page. */
module TableTree {
  import opened Common
  import opened PageTables
  import opened RecursiveWindows

  /** The index path from the root to every table frame of an address space. */
  type Tables = map<nat, seq<nat>>

  /** The slots that lead to tables of the tree: all but leaf entries and the two recursive slots. */
  predicate Interior(path: seq<nat>, i: nat) {
    |path| < 3 && (path == [] ==> i != LoopSlot(true) && i != LoopSlot(false))
  }

  predicate LeadsToChild(m: Memory, tables: Tables, f: nat, i: nat)
    requires f in tables
  {
    var w := m.Load(Slot(f, i));
    Present(w) ==>
      (if Large(w) then tables[f] != [] else FrameOf(w) in tables && tables[FrameOf(w)] == tables[f] + [i])
  }

  ghost predicate IsTree(m: Memory, root: nat, tables: Tables) {
    && root in tables && tables[root] == []
    && (forall f :: f in tables ==> |tables[f]| <= 3)
    && (forall f, i: nat :: f in tables && i < ENTRIES && Interior(tables[f], i) ==> LeadsToChild(m, tables, f, i))
  }

  /** A page that is not reached through a recursive slot. */
  predicate Outside(v: VirtualAddress) {
    Indices(v) && v.pml4 != LoopSlot(true) && v.pml4 != LoopSlot(false)
  }

  predicate NoLargePage(m: Memory, root: nat, v: VirtualAddress) {
    Present(Entry4(m, root, v)) && Present(Entry3(m, root, v)) ==>
      !Large(Entry3(m, root, v)) && (Present(Entry2(m, root, v)) ==> !Large(Entry2(m, root, v)))
  }

  /** The tables on the way to a page carry the page's own index path. */
  lemma PathTables(m: Memory, root: nat, tables: Tables, v: VirtualAddress)
    requires IsTree(m, root, tables) && Outside(v)
    ensures var e4, e3, e2 := Entry4(m, root, v), Entry3(m, root, v), Entry2(m, root, v);
            Present(e4) ==>
              && !Large(e4) && FrameOf(e4) in tables && tables[FrameOf(e4)] == [v.pml4]
              && (Present(e3) && !Large(e3) ==>
                    && FrameOf(e3) in tables && tables[FrameOf(e3)] == [v.pml4, v.pdpt]
                    && (Present(e2) && !Large(e2) ==>
                          FrameOf(e2) in tables && tables[FrameOf(e2)] == [v.pml4, v.pdpt, v.pd]))
  {
    var e4, e3, e2 := Entry4(m, root, v), Entry3(m, root, v), Entry2(m, root, v);
    hide Present, Large, FrameOf, LoopSlot, Slot, Memory.Load;
    assert Interior(tables[root], v.pml4) && LeadsToChild(m, tables, root, v.pml4);
    if Present(e4) {
      assert Interior(tables[FrameOf(e4)], v.pdpt) && LeadsToChild(m, tables, FrameOf(e4), v.pdpt);
      if Present(e3) && !Large(e3) {
        assert Interior(tables[FrameOf(e3)], v.pd) && LeadsToChild(m, tables, FrameOf(e3), v.pd);
      }
    }
  }

  // ---------- writing one entry ----------

  /** m' is m with entry i of the table in frame f set to w. */
  ghost predicate OneEntry(m: Memory, m': Memory, f: nat, i: nat, w: nat) {
    forall g: nat, j: nat {:trigger m'.Load(Slot(g, j))} ::
      j < ENTRIES ==> m'.Load(Slot(g, j)) == if g == f && j == i then w else m.Load(Slot(g, j))
  }

  lemma StoreIsOneEntry(m: Memory, f: nat, i: nat, w: nat)
    requires i < ENTRIES
    ensures OneEntry(m, m.Store(Slot(f, i), w), f, i, w)
  {
    forall g: nat, j: nat | j < ENTRIES
      ensures m.Store(Slot(f, i), w).Load(Slot(g, j)) == if g == f && j == i then w else m.Load(Slot(g, j))
    {
      SlotInjective(f, i, g, j);
    }
  }

  /** m' is m with the table in frame g zeroed. */
  ghost predicate Zeroed(m: Memory, m': Memory, g: nat) {
    forall f: nat, j: nat {:trigger m'.Load(Slot(f, j))} ::
      j < ENTRIES ==> m'.Load(Slot(f, j)) == if f == g then 0 else m.Load(Slot(f, j))
  }

  /** All four levels exist on the way to v, and no large page stands in it. */
  predicate TablesPresent(m: Memory, root: nat, v: VirtualAddress) {
    && Present(Entry4(m, root, v)) && Present(Entry3(m, root, v)) && !Large(Entry3(m, root, v))
    && Present(Entry2(m, root, v)) && !Large(Entry2(m, root, v))
  }

  /** The page-table entry of a page; a page whose tables are missing has entry 0. */
  function PTEOf(m: Memory, root: nat, v: VirtualAddress): nat {
    if TablesPresent(m, root, v) then Entry1(m, root, v) else 0
  }

  /** The entries above the page table that were present on the way to a page are the same. */
  predicate UpperView(m: Memory, m': Memory, root: nat, v: VirtualAddress) {
    Present(Entry4(m, root, v)) ==>
      && Entry4(m', root, v) == Entry4(m, root, v)
      && (Present(Entry3(m, root, v)) ==>
            && Entry3(m', root, v) == Entry3(m, root, v)
            && (!Large(Entry3(m, root, v)) && Present(Entry2(m, root, v)) ==> Entry2(m', root, v) == Entry2(m, root, v)))
  }

  /** Page v translates alike and has the same entry, below the same entries of the upper levels. */
  predicate SameView(m: Memory, m': Memory, root: nat, v: VirtualAddress) {
    && Walk(m', root, v) == Walk(m, root, v) && PTEOf(m', root, v) == PTEOf(m, root, v) && UpperView(m, m', root, v)
    && NoLargePage(m', root, v) == NoLargePage(m, root, v)
    && (TablesPresent(m, root, v) ==> TablesPresent(m', root, v))
  }

  /** All pages outside the recursive windows translate alike and have the same entries. */
  ghost predicate SameTranslations(m: Memory, m': Memory, root: nat) {
    forall v :: Outside(v) ==> SameView(m, m', root, v)
  }

  lemma EmptyIsNotPresent()
    ensures !Present(0)
  {
  }

  // ---------- installing an empty table ----------

  lemma InstallKeepsWalk(m: Memory, m1: Memory, m': Memory, root: nat, tables: Tables, f: nat, i: nat, w: nat, g: nat, v: VirtualAddress)
    requires IsTree(m, root, tables) && f in tables && i < ENTRIES && Interior(tables[f], i) && g !in tables
    requires !Present(m.Load(Slot(f, i))) && PointsTo(w, g)
    requires OneEntry(m, m1, f, i, w) && Zeroed(m1, m', g) && Outside(v)
    ensures SameView(m, m', root, v)
  {
    PathTables(m, root, tables, v);
    EmptyIsNotPresent();
    hide Present, Large, FrameOf, LoopSlot, Slot, Memory.Load, IsTree;
  }

  lemma Install(m: Memory, m1: Memory, m': Memory, root: nat, tables: Tables, f: nat, i: nat, w: nat, g: nat)
    requires IsTree(m, root, tables) && f in tables && i < ENTRIES && Interior(tables[f], i) && g !in tables
    requires !Present(m.Load(Slot(f, i))) && PointsTo(w, g)
    requires OneEntry(m, m1, f, i, w) && Zeroed(m1, m', g)
    ensures IsTree(m', root, tables[g := tables[f] + [i]]) && SameTranslations(m, m', root)
  {
    forall v | Outside(v)
      ensures SameView(m, m', root, v)
    {
      InstallKeepsWalk(m, m1, m', root, tables, f, i, w, g, v);
    }
  }

  // ---------- writing a leaf entry ----------

  function LeafTarget(w: nat, v: VirtualAddress): Option<nat> {
    if Present(w) then Some(FrameOf(w) * FRAME_SIZE + v.offset) else None
  }

  /** What a page looks like after the leaf entry of v has been set to w. */
  predicate LeafView(m: Memory, m': Memory, root: nat, v: VirtualAddress, w: nat, u: VirtualAddress) {
    if SamePage(u, v)
    then && Walk(m', root, u) == LeafTarget(w, u) && PTEOf(m', root, u) == w && UpperView(m, m', root, u)
         && NoLargePage(m', root, u) && TablesPresent(m', root, u)
    else SameView(m, m', root, u)
  }

  ghost predicate LeafSet(m: Memory, m': Memory, root: nat, v: VirtualAddress, w: nat) {
    forall u :: Outside(u) ==> LeafView(m, m', root, v, w, u)
  }

  lemma SetLeafWalk(m: Memory, m': Memory, root: nat, tables: Tables, v: VirtualAddress, w: nat, u: VirtualAddress)
    requires IsTree(m, root, tables) && Outside(v) && Outside(u) && NoLargePage(m, root, v)
    requires Present(Entry4(m, root, v)) && Present(Entry3(m, root, v)) && Present(Entry2(m, root, v))
    requires OneEntry(m, m', FrameOf(Entry2(m, root, v)), v.pt, w)
    ensures LeafView(m, m', root, v, w, u)
  {
    PathTables(m, root, tables, v);
    PathTables(m, root, tables, u);
    hide Present, Large, FrameOf, LoopSlot, Slot, Memory.Load, IsTree;
    var pt := FrameOf(Entry2(m, root, v));
    assert |tables[pt]| == 3;
    assert tables[pt] == [v.pml4, v.pdpt, v.pd];
    assert [v.pml4, v.pdpt, v.pd] == [u.pml4, u.pdpt, u.pd] ==> v.pml4 == u.pml4 && v.pdpt == u.pdpt && v.pd == u.pd;
  }

  lemma SetLeaf(m: Memory, m': Memory, root: nat, tables: Tables, v: VirtualAddress, w: nat)
    requires IsTree(m, root, tables) && Outside(v) && NoLargePage(m, root, v)
    requires Present(Entry4(m, root, v)) && Present(Entry3(m, root, v)) && Present(Entry2(m, root, v))
    requires OneEntry(m, m', FrameOf(Entry2(m, root, v)), v.pt, w)
    ensures IsTree(m', root, tables) && LeafSet(m, m', root, v, w)
  {
    forall u | Outside(u)
      ensures LeafView(m, m', root, v, w, u)
    {
      SetLeafWalk(m, m', root, tables, v, w, u);
    }
    PathTables(m, root, tables, v);
    hide Present, Large, FrameOf, LoopSlot, Slot, Memory.Load;
    forall f, i: nat | f in tables && i < ENTRIES && Interior(tables[f], i)
      ensures LeadsToChild(m', tables, f, i)
    {
      assert LeadsToChild(m, tables, f, i);
    }
  }

  /** The walk to a page passes through the same entries above its page table. */
  predicate SameUppers(m: Memory, m': Memory, root: nat, u: VirtualAddress) {
    && Entry4(m', root, u) == Entry4(m, root, u)
    && (Present(Entry4(m, root, u)) ==>
          && Entry3(m', root, u) == Entry3(m, root, u)
          && (Present(Entry3(m, root, u)) && !Large(Entry3(m, root, u)) ==> Entry2(m', root, u) == Entry2(m, root, u)))
  }

  ghost predicate UpperKept(m: Memory, m': Memory, root: nat) {
    forall u :: Outside(u) ==> SameUppers(m, m', root, u)
  }

  lemma SetLeafUpper(m: Memory, m': Memory, root: nat, tables: Tables, v: VirtualAddress, w: nat)
    requires IsTree(m, root, tables) && Outside(v) && TablesPresent(m, root, v)
    requires OneEntry(m, m', FrameOf(Entry2(m, root, v)), v.pt, w)
    ensures UpperKept(m, m', root)
  {
    PathTables(m, root, tables, v);
    forall u | Outside(u)
      ensures SameUppers(m, m', root, u)
    {
      PathTables(m, root, tables, u);
      hide Present, Large, FrameOf, LoopSlot, Slot, Memory.Load, IsTree;
    }
  }
}
