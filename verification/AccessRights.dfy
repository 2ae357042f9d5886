/** What the entries on the way to a page allow: an access needs its bit in every entry of the walk
    (section 4.6 of the Intel 64 and IA-32 Architectures Software Developer's Manual, volume 3A). */
module AccessRights {
  import opened Common
  import opened PageTables
  import opened RecursiveWindows
  import opened TableTree

  /** The page is mapped, and every entry of its walk has the bit: READWRITE for writing, USERMODE for
      accesses in user mode. */
  predicate Allows(m: Memory, root: nat, v: VirtualAddress, mask: nat)
    requires mask != 0
  {
    var e4, e3, e2, e1 := Entry4(m, root, v), Entry3(m, root, v), Entry2(m, root, v), Entry1(m, root, v);
    && Present(e4) && Bit(e4, mask) && Present(e3) && Bit(e3, mask)
    && (Large(e3) || (Present(e2) && Bit(e2, mask) && (Large(e2) || (Present(e1) && Bit(e1, mask)))))
  }

  /** The tables that exist on the way to a page have the bit in the entries that lead to them. */
  predicate TablesAllow(m: Memory, root: nat, v: VirtualAddress, mask: nat)
    requires mask != 0
  {
    var e4, e3, e2 := Entry4(m, root, v), Entry3(m, root, v), Entry2(m, root, v);
    Present(e4) ==> Bit(e4, mask) && (Present(e3) ==> Bit(e3, mask) && (Present(e2) ==> Bit(e2, mask)))
  }

  /** Both rights of a page are the same. */
  predicate SameRights(m: Memory, m': Memory, root: nat, v: VirtualAddress) {
    && (Allows(m', root, v, READWRITE) <==> Allows(m, root, v, READWRITE))
    && (Allows(m', root, v, USERMODE) <==> Allows(m, root, v, USERMODE))
  }

  /** A page that looks the same allows the same. */
  lemma SameViewAllows(m: Memory, m': Memory, root: nat, v: VirtualAddress)
    requires SameView(m, m', root, v)
    ensures SameRights(m, m', root, v)
  {
    AllowsIsMapped(m, root, v, READWRITE);
    AllowsIsMapped(m, root, v, USERMODE);
    AllowsIsMapped(m', root, v, READWRITE);
    AllowsIsMapped(m', root, v, USERMODE);
    hide Present, Large, Bit, FrameOf, Slot, Memory.Load;
  }

  lemma AllowsIsMapped(m: Memory, root: nat, v: VirtualAddress, mask: nat)
    requires mask != 0
    ensures Allows(m, root, v, mask) ==> Walk(m, root, v).Some?
  {
    hide Present, Large, Bit, FrameOf, Slot, Memory.Load;
  }

  // ---------- new tables ----------

  /** An entry that leads to a table, writable, and for user mode or not. */
  predicate IsTableEntry(w: nat, user: bool) {
    Present(w) && !Large(w) && Bit(w, READWRITE) && (Bit(w, USERMODE) <==> user)
  }

  /** On the way to a page, the entries that were present are the same, and new ones lead to tables for
      user mode or not. */
  predicate GrownView(m: Memory, m': Memory, root: nat, v: VirtualAddress, user: bool) {
    var had4 := Present(Entry4(m, root, v));
    var had3 := had4 && Present(Entry3(m, root, v));
    var had2 := had3 && !Large(Entry3(m, root, v)) && Present(Entry2(m, root, v));
    && UpperView(m, m', root, v)
    && (Present(Entry4(m', root, v)) ==>
          && (had4 || IsTableEntry(Entry4(m', root, v), user))
          && (Present(Entry3(m', root, v)) ==>
                && (had3 || IsTableEntry(Entry3(m', root, v), user))
                && (!Large(Entry3(m', root, v)) && Present(Entry2(m', root, v)) ==>
                      had2 || IsTableEntry(Entry2(m', root, v), user))))
  }

  /** The tables outside the windows have grown by tables for user mode or not. */
  ghost predicate Grown(m: Memory, m': Memory, root: nat, user: bool) {
    forall v :: Outside(v) ==> GrownView(m, m', root, v, user)
  }

  lemma GrownSelf(m: Memory, root: nat, user: bool)
    ensures Grown(m, m, root, user)
  {
    hide Present, Large, FrameOf, Slot, Memory.Load, IsTableEntry;
  }

  lemma GrownTwice(m: Memory, m': Memory, m'': Memory, root: nat, user: bool)
    requires Grown(m, m', root, user) && Grown(m', m'', root, user)
    ensures Grown(m, m'', root, user)
  {
    hide IsTableEntry, Present, Large, Entry4, Entry3, Entry2, Outside;
    forall v | Outside(v)
      ensures GrownView(m, m'', root, v, user)
    {
      assert GrownView(m, m', root, v, user) && GrownView(m', m'', root, v, user);
    }
  }

  lemma UpperKeptGrown(m: Memory, m': Memory, root: nat, user: bool)
    requires UpperKept(m, m', root)
    ensures Grown(m, m', root, user)
  {
    hide IsTableEntry, Present, Large, Entry4, Entry3, Entry2, Outside;
    forall v | Outside(v)
      ensures GrownView(m, m', root, v, user)
    {
      assert SameUppers(m, m', root, v);
    }
  }

  lemma InstallGrows(m: Memory, m1: Memory, m': Memory, root: nat, tables: Tables, f: nat, i: nat, w: nat, g: nat, user: bool)
    requires IsTree(m, root, tables) && f in tables && i < ENTRIES && Interior(tables[f], i) && g !in tables
    requires !Present(m.Load(Slot(f, i))) && FrameOf(w) == g && IsTableEntry(w, user)
    requires OneEntry(m, m1, f, i, w) && Zeroed(m1, m', g)
    ensures Grown(m, m', root, user)
  {
    EmptyIsNotPresent();
    forall v | Outside(v)
      ensures GrownView(m, m', root, v, user)
    {
      PathTables(m, root, tables, v);
      hide Present, Large, Bit, FrameOf, LoopSlot, Slot, Memory.Load, IsTree;
    }
  }

  /** New tables never forbid writing, and those for user mode forbid no access. */
  lemma NewTablesAllow(m: Memory, m': Memory, root: nat, v: VirtualAddress, user: bool)
    requires Grown(m, m', root, user) && Outside(v) && NoLargePage(m, root, v) && NoLargePage(m', root, v)
    ensures TablesAllow(m', root, v, READWRITE) <==> TablesAllow(m, root, v, READWRITE)
    ensures user ==> (TablesAllow(m', root, v, USERMODE) <==> TablesAllow(m, root, v, USERMODE))
    ensures !user && TablesPresent(m', root, v) && !TablesPresent(m, root, v) ==> !TablesAllow(m', root, v, USERMODE)
  {
    assert GrownView(m, m', root, v, user);
    hide Present, Large, Bit, Entry4, Entry3, Entry2, Outside;
  }

  // ---------- the rights of a page that is given an entry ----------

  /** After its tables were made and its leaf entry set, a page allows what its entry and the tables that
      existed before allow, as far as the new tables do. */
  lemma LeafAllows(m: Memory, m': Memory, root: nat, v: VirtualAddress, w: nat, user: bool)
    requires Outside(v) && Grown(m, m', root, user) && LeafSet(m, m', root, v, w) && NoLargePage(m, root, v)
    ensures Allows(m', root, v, READWRITE) <==> Present(w) && Bit(w, READWRITE) && TablesAllow(m, root, v, READWRITE)
    ensures Present(w) && Bit(w, USERMODE) && user ==> (Allows(m', root, v, USERMODE) <==> TablesAllow(m, root, v, USERMODE))
    ensures !(Present(w) && Bit(w, USERMODE)) ==> !Allows(m', root, v, USERMODE)
  {
    assert GrownView(m, m', root, v, user) && LeafView(m, m', root, v, w, v);
    assert Entry1(m', root, v) == w;
    hide Present, Large, Bit, FrameOf, Slot, Memory.Load, Walk, Entry4, Entry3, Entry2, Entry1;
  }

  /** Every page but v allows what it did. */
  ghost predicate OthersAllow(m: Memory, m': Memory, root: nat, v: VirtualAddress) {
    forall u :: Outside(u) && !SamePage(u, v) ==> SameRights(m, m', root, u)
  }

  lemma LeafKeepsRights(m: Memory, m': Memory, root: nat, v: VirtualAddress, w: nat)
    requires LeafSet(m, m', root, v, w)
    ensures OthersAllow(m, m', root, v)
  {
    forall u | Outside(u) && !SamePage(u, v)
      ensures SameRights(m, m', root, u)
    {
      hide SameView, SameRights;
      assert LeafView(m, m', root, v, w, u);
      SameViewAllows(m, m', root, u);
    }
  }

  /** Where no page has moved, every page allows what it did. */
  lemma SameTranslationsAllow(m: Memory, m': Memory, root: nat, v: VirtualAddress)
    requires SameTranslations(m, m', root)
    ensures OthersAllow(m, m', root, v) && (Outside(v) ==> SameRights(m, m', root, v))
  {
    forall u | Outside(u)
      ensures SameRights(m, m', root, u)
    {
      hide SameRights;
      assert SameView(m, m', root, u);
      SameViewAllows(m, m', root, u);
    }
  }
}
