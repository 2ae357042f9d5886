/** Opening a second address space: its root table is given both self-referencing slots, and slot
    509 of the running root table is pointed at it. */
module SecondaryWindow {
  import opened Common
  import opened PageTables
  import opened RecursiveWindows
  import opened TableTree
  import opened AddressSpace
  import opened AccessRights
  import opened GeneralMapping

  /** A frame that neither holds a table nor is going to be handed out. */
  ghost predicate IsApart(mmu: MMU, g: nat)
    reads mmu
  {
    0 < g < mmu.addressLimit / FRAME_SIZE && g !in mmu.tables && g != mmu.cr3 && g !in mmu.supply
  }

  /** An entry that leads to a root table: writable, and not for user mode. */
  predicate IsRootLink(w: nat, g: nat) {
    PointsTo(w, g) && IsTableEntry(w, false)
  }

  /** A root table that holds nothing but its two self-referencing slots. */
  ghost predicate IsBareRoot(m: Memory, g: nat) {
    forall i: nat {:trigger Slot(g, i)} :: i < ENTRIES ==>
      if i == LoopSlot(true) || i == LoopSlot(false) then IsRootLink(m.Load(Slot(g, i)), g) else m.Load(Slot(g, i)) == 0
  }

  ghost predicate SameWalks(m: Memory, m': Memory, root: nat) {
    forall u :: Outside(u) ==> Walk(m', root, u) == Walk(m, root, u) && SameRights(m, m', root, u)
  }

  /** A bare root is an address space of its own, which its own window and that of any space whose
      slot 509 leads to it can edit. */
  lemma BareRootIsSpace(m: Memory, cr3: nat, g: nat)
    requires IsBareRoot(m, g)
    ensures IsTree(m, g, map[g := []]) && Window(m, g, g, true)
    ensures PointsTo(m.Load(Slot(cr3, LoopSlot(false))), g) ==> Window(m, cr3, g, false)
  {
    LoopSlots(true);
    LoopSlots(false);
    EmptyIsNotPresent();
    hide PointsTo, IsTableEntry, Present, Slot, LoopSlot;
    assert IsRootLink(m.Load(Slot(g, LoopSlot(true))), g) && IsRootLink(m.Load(Slot(g, LoopSlot(false))), g);
    var tables: Tables := map[g := []];
    forall f, i: nat | f in tables && i < ENTRIES && Interior(tables[f], i)
      ensures LeadsToChild(m, tables, f, i)
    {
      assert m.Load(Slot(g, i)) == 0;
    }
  }

  /** A page mapped to a frame that is no table can be written without disturbing its own walk. */
  lemma MappedIsSafe(m: Memory, root: nat, tables: Tables, v: VirtualAddress, g: nat)
    requires IsTree(m, root, tables) && Outside(v) && TablesPresent(m, root, v) && v.offset == 0
    requires Walk(m, root, v) == Some(g * FRAME_SIZE) && g !in tables
    ensures SafeTarget(m, root, v, g)
  {
    PathTables(m, root, tables, v);
    hide Present, Large, Slot, LoopSlot, FrameOf;
  }

  lemma ForeignView(m: Memory, m': Memory, root: nat, tables: Tables, others: Tables, v: VirtualAddress)
    requires IsTree(m, root, tables) && DataKept(m, m', others) && tables.Keys !! others.Keys && Outside(v)
    ensures SameView(m, m', root, v)
  {
    PathTables(m, root, tables, v);
    hide Present, Large, FrameOf, LoopSlot, Slot, Memory.Load, IsTree;
  }

  /** What is written in other frames than the tables of a space changes none of its translations. */
  lemma ForeignKeeps(m: Memory, m': Memory, root: nat, tables: Tables, others: Tables)
    requires IsTree(m, root, tables) && Window(m, root, root, true) && DataKept(m, m', others) && tables.Keys !! others.Keys
    ensures IsTree(m', root, tables) && Window(m', root, root, true) && SameTranslations(m, m', root)
    ensures forall i: nat :: i < ENTRIES ==> m'.Load(Slot(root, i)) == m.Load(Slot(root, i))
  {
    LoopSlots(true);
    forall v | Outside(v)
      ensures SameView(m, m', root, v)
    {
      ForeignView(m, m', root, tables, others, v);
    }
    hide Present, Large, FrameOf, LoopSlot, Slot, Memory.Load;
    forall f, i: nat | f in tables && i < ENTRIES && Interior(tables[f], i)
      ensures LeadsToChild(m', tables, f, i)
    {
      assert LeadsToChild(m, tables, f, i);
    }
  }

  /** Slot 509 of the root is on the way to no page outside the windows. */
  lemma SecondarySlotKeeps(m: Memory, m': Memory, root: nat, tables: Tables, w: nat)
    requires IsTree(m, root, tables) && Window(m, root, root, true) && OneEntry(m, m', root, LoopSlot(false), w)
    ensures IsTree(m', root, tables) && Window(m', root, root, true) && SameTranslations(m, m', root)
  {
    LoopSlots(true);
    LoopSlots(false);
    forall v | Outside(v)
      ensures SameView(m, m', root, v)
    {
      PathTables(m, root, tables, v);
      hide Present, Large, FrameOf, LoopSlot, Slot, Memory.Load, IsTree;
    }
    hide Present, Large, FrameOf, LoopSlot, Slot, Memory.Load;
    forall f, i: nat | f in tables && i < ENTRIES && Interior(tables[f], i)
      ensures LeadsToChild(m', tables, f, i)
    {
      assert LeadsToChild(m, tables, f, i);
    }
  }

  /** Points slot 509 of the running root table at the root table at the given address. */
  method UpdateSecondaryRecursiveMapping(mmu: MMU, rootAddress: nat)
    requires mmu.Valid() && mmu.usePrimary && mmu.root == mmu.cr3
    modifies mmu`mem
    ensures mmu.Valid() && SameTranslations(old(mmu.mem), mmu.mem, mmu.root)
    ensures OneEntry(old(mmu.mem), mmu.mem, mmu.root, LoopSlot(false), EntryWord(mmu.FilterAddress(rootAddress), false))
  {
    ghost var m := mmu.mem;
    var secondary := Parse(SECONDARY_START);
    ParsedIndices(SECONDARY_START);
    EntryAddresses(secondary, true);
    assert secondary.pml4 == LoopSlot(false);
    WalkWindow4(m, mmu.cr3, mmu.root, true, secondary.pml4 * ENTRY_SIZE);
    LoopSlots(false);
    StoreIsOneEntry(m, mmu.root, secondary.pml4, EntryWord(mmu.FilterAddress(rootAddress), false));
    hide Parse, GetPML4EAddress, LoopSlot, IsTree, Window, SameTranslations, OneEntry, Walk, EntryWord;
    mmu.Assign(GetPML4EAddress(secondary, true), EntryWord(mmu.FilterAddress(rootAddress), false));
    SecondarySlotKeeps(m, mmu.mem, mmu.root, mmu.tables, EntryWord(mmu.FilterAddress(rootAddress), false));
  }

  lemma LinkedBareRoot(m: Memory, m1: Memory, m2: Memory, m3: Memory, g: nat, w: nat)
    requires Zeroed(m, m1, g) && IsRootLink(w, g)
    requires OneEntry(m1, m2, g, LoopSlot(true), w) && OneEntry(m2, m3, g, LoopSlot(false), w)
    ensures IsBareRoot(m3, g) && SameBesides(m, m2, g) && SameBesides(m, m3, g)
  {
    hide Slot, LoopSlot, IsRootLink;
  }

  /** Empties the page at vroot, behind which frame g lies, and links it in both its own slots. */
  method WriteBareRoot(mmu: MMU, vroot: nat, w: nat, ghost g: nat)
    requires vroot % FRAME_SIZE == 0 && SafeTarget(mmu.mem, mmu.cr3, Parse(vroot), g) && IsRootLink(w, g)
    modifies mmu`mem
    ensures IsBareRoot(mmu.mem, g) && SameBesides(old(mmu.mem), mmu.mem, g)
  {
    ghost var m := mmu.mem;
    LoopSlots(true);
    LoopSlots(false);
    SlotOf(g, LoopSlot(true));
    SlotOf(g, LoopSlot(false));
    hide Parse, LoopSlot, Translate, SafeTarget, SameBesides, Slot, Zeroed, OneEntry, IsRootLink, IsBareRoot;
    mmu.ZeroPage(vroot, g);
    ghost var m1 := mmu.mem;
    SafeTranslation(m, m1, mmu.cr3, vroot, g, LoopSlot(true) * ENTRY_SIZE);
    StoreIsOneEntry(m1, g, LoopSlot(true), w);
    mmu.Assign(vroot + LoopSlot(true) * ENTRY_SIZE, w);
    ghost var m2 := mmu.mem;
    SameBesidesStep(m, m1, m2, g, LoopSlot(true), w);
    SafeTranslation(m, m2, mmu.cr3, vroot, g, LoopSlot(false) * ENTRY_SIZE);
    StoreIsOneEntry(m2, g, LoopSlot(false), w);
    mmu.Assign(vroot + LoopSlot(false) * ENTRY_SIZE, w);
    LinkedBareRoot(m, m1, m2, mmu.mem, g, w);
  }

  lemma RootWords(limit: nat, g: nat)
    requires 0 < limit <= ADDRESS_FRAMES * FRAME_SIZE && limit % FRAME_SIZE == 0 && g < limit / FRAME_SIZE
    ensures |GeneralWords(limit, g * FRAME_SIZE, 1, PRESENT + READWRITE)| == 1
    ensures Consecutive(GeneralWords(limit, g * FRAME_SIZE, 1, PRESENT + READWRITE), g)
  {
    hide GeneralWords, Filtered, Consecutive;
    RangeWords(limit, g * FRAME_SIZE, 1, PRESENT + READWRITE);
  }

  lemma OnePageWalk(m0: Memory, m: Memory, root: nat, first: nat, words: seq<nat>, g: nat)
    requires first < GP_PAGES && |words| == 1 && RunSet(m0, m, root, first, words) && Consecutive(words, g)
    ensures Walk(m, root, ZonePage(first)) == Some(g * FRAME_SIZE)
  {
    hide Walk, ZonePage, Present, FrameOf, PageNumber, SameView, InRun;
    ZonePageIndices(first);
    assert RunView(m0, m, root, first, words, ZonePage(first));
    assert Walk(m, root, ZonePage(first)) == LeafTarget(words[first - first], ZonePage(first));
  }

  /** The page mapped for a root table can be written safely. */
  lemma RootPageIsSafe(mmu: MMU, m0: Memory, first: nat, g: nat)
    requires mmu.Valid() && mmu.root == mmu.cr3 && IsApart(mmu, g) && first < GP_PAGES
    requires RunSet(m0, mmu.mem, mmu.root, first, GeneralWords(mmu.addressLimit, g * FRAME_SIZE, 1, PRESENT + READWRITE))
    requires RunHasTables(mmu.mem, mmu.root, first, 1)
    ensures SafeTarget(mmu.mem, mmu.cr3, ZonePage(first), g)
  {
    hide Parse, RunSet, RunHasTables, TablesPresent, IsTree, Window, SafeTarget, GeneralWords, Walk, ZonePage, PageNumber, Outside, Consecutive;
    ZonePageIndices(first);
    RunHasTablesAt(mmu.mem, mmu.root, first, 1, first);
    RootWords(mmu.addressLimit, g);
    OnePageWalk(m0, mmu.mem, mmu.root, first, GeneralWords(mmu.addressLimit, g * FRAME_SIZE, 1, PRESENT + READWRITE), g);
    MappedIsSafe(mmu.mem, mmu.root, mmu.tables, ZonePage(first), g);
  }

  lemma TablesKept(m: Memory, m': Memory, root: nat, first: nat)
    requires ZoneReady(m, root) && RunHasTables(m, root, first, 1) && first < GP_PAGES
    requires SameTranslations(m, m', root) && Present(Entry4(m', root, ZonePage(0)))
    ensures ZoneReady(m', root) && RunHasTables(m', root, first, 1)
  {
    ZoneReadyKept(m, m', root);
    RunHasTablesAt(m, root, first, 1, first);
    ZonePageIndices(first);
    assert SameView(m, m', root, ZonePage(first));
    hide TablesPresent, ZonePage, SameView, ZoneReady, SameTranslations;
  }

  /** The part of the invariant that does not depend on what memory holds. */
  ghost predicate FramesValid(mmu: MMU)
    reads mmu`supply, mmu`tables
  {
    && 0 < mmu.addressLimit <= ADDRESS_FRAMES * FRAME_SIZE && mmu.addressLimit % FRAME_SIZE == 0
    && (mmu.cr3 == mmu.root || mmu.cr3 !in mmu.tables)
    && (forall i :: 0 <= i < |mmu.supply| ==>
          0 < mmu.supply[i] < mmu.addressLimit / FRAME_SIZE && mmu.supply[i] !in mmu.tables && mmu.supply[i] != mmu.cr3)
    && (forall i, j :: 0 <= i < j < |mmu.supply| ==> mmu.supply[i] != mmu.supply[j])
  }

  lemma ValidInParts(mmu: MMU)
    ensures mmu.Valid() <==>
            FramesValid(mmu) && IsTree(mmu.mem, mmu.root, mmu.tables) && Window(mmu.mem, mmu.cr3, mmu.root, mmu.usePrimary)
  {
    hide IsTree, Window;
  }

  /** Writes the new root table through the page that was mapped for it. */
  method FillRoot(mmu: MMU, vroot: nat, w: nat, ghost m0: Memory, ghost first: nat, ghost g: nat)
    requires mmu.Valid() && mmu.usePrimary && mmu.root == mmu.cr3 && ZoneReady(mmu.mem, mmu.root)
    requires IsApart(mmu, g) && IsRootLink(w, g) && first < GP_PAGES && vroot == ZONE_START + first * FRAME_SIZE
    requires RunSet(m0, mmu.mem, mmu.root, first, GeneralWords(mmu.addressLimit, g * FRAME_SIZE, 1, PRESENT + READWRITE))
    requires RunHasTables(mmu.mem, mmu.root, first, 1)
    modifies mmu`mem
    ensures mmu.Valid() && ZoneReady(mmu.mem, mmu.root) && RunHasTables(mmu.mem, mmu.root, first, 1)
    ensures SameTranslations(old(mmu.mem), mmu.mem, mmu.root) && IsBareRoot(mmu.mem, g)
  {
    hide MMU.Valid, FramesValid, IsTree, Window, RunSet, RunHasTables, GeneralWords, SafeTarget, ZoneReady, SameTranslations, IsBareRoot,
         SameBesides, IsRootLink, ZonePage, PageNumber, Parse, Present, Outside, Slot;
    ghost var m := mmu.mem;
    ZoneAddress(first, vroot);
    ZonePageIndices(0);
    ZoneHasTable(m, mmu.root);
    ValidInParts(mmu);
    RootPageIsSafe(mmu, m0, first, g);
    WriteBareRoot(mmu, vroot, w, g);
    OneForeignFrame(m, mmu.mem, g);
    ForeignKeeps(m, mmu.mem, mmu.root, mmu.tables, map[g := []]);
    ValidInParts(mmu);
    TablesKept(m, mmu.mem, mmu.root, first);
  }

  lemma ZoneHasTable(m: Memory, root: nat)
    requires ZoneReady(m, root)
    ensures Present(Entry4(m, root, ZonePage(0)))
  {
  }

  lemma UnmappedWalks(m0: Memory, m1: Memory, m2: Memory, m3: Memory, root: nat, first: nat, words: seq<nat>, vroot: nat)
    requires |words| == 1 && IsRun(m0, root, first, 1) && vroot == ZONE_START + first * FRAME_SIZE
    requires RunSet(m0, m1, root, first, words) && SameTranslations(m1, m2, root) && RangeSet(m2, m3, root, vroot, 1, 0)
    ensures SameWalks(m0, m3, root)
  {
    hide IsRun, RunSet, RangeSet, Walk, Outside, SameRights;
    RunSetThenSame(m0, m1, m2, root, first, words);
    forall u | Outside(u)
      ensures Walk(m3, root, u) == Walk(m0, root, u) && SameRights(m0, m3, root, u)
    {
      UnmapRestores(m0, m2, m3, root, first, words, vroot, u);
      UnmapRestoresRights(m0, m2, m3, root, first, words, vroot, u);
    }
  }

  lemma RunSetThenSame(m0: Memory, m1: Memory, m2: Memory, root: nat, first: nat, words: seq<nat>)
    requires RunSet(m0, m1, root, first, words) && SameTranslations(m1, m2, root)
    ensures RunSet(m0, m2, root, first, words)
  {
    hide Walk, PTEOf, NoLargePage, LeafTarget, TablesPresent, Outside, InRun, ZonePage;
    forall u | Outside(u)
      ensures RunView(m0, m2, root, first, words, u)
    {
      assert RunView(m0, m1, root, first, words, u) && SameView(m1, m2, root, u);
    }
  }

  /** Unmaps the page again: the new root keeps its contents, and every page translates as before. */
  method UnmapRoot(mmu: MMU, vroot: nat, ghost first: nat, ghost g: nat) returns (ok: bool)
    requires mmu.Valid() && ZoneReady(mmu.mem, mmu.root) && RunHasTables(mmu.mem, mmu.root, first, 1)
    requires first < GP_PAGES && vroot == ZONE_START + first * FRAME_SIZE && IsBareRoot(mmu.mem, g) && g !in mmu.tables
    modifies mmu`mem
    ensures ok && mmu.Valid() && RangeSet(old(mmu.mem), mmu.mem, mmu.root, vroot, 1, 0) && IsBareRoot(mmu.mem, g)
  {
    ghost var m, root := mmu.mem, mmu.root;
    MappedIsReadable(m, root, first, 1, vroot);
    assert ReadablePage(m, mmu.root, PageAt(vroot, 0)) && TablesPresent(m, mmu.root, PageAt(vroot, 0));
    hide MMU.Valid, ZoneReady, RunHasTables, TablesPresent, RangeSet, DataKept, Outside, PageAt, IsBareRoot;
    ghost var done;
    ok, done := UnmapGeneralPages(mmu, vroot, 1);
  }

  lemma RootWord(limit: nat, address: nat)
    requires 0 < limit <= ADDRESS_FRAMES * FRAME_SIZE && limit % FRAME_SIZE == 0
    requires address % FRAME_SIZE == 0 && address / FRAME_SIZE < limit / FRAME_SIZE
    ensures Filtered(limit, address) == address && IsRootLink(EntryWord(address, false), address / FRAME_SIZE)
  {
    assert address < limit;
    SmallModulo(address, limit);
    EntryWordFields(address, false);
    SmallModulo(address / FRAME_SIZE, ADDRESS_FRAMES);
    hide EntryWord, Present, Large, FrameOf;
  }

  lemma ApartIsNoFrameTaken(mmu: MMU, tables: Tables, supply: seq<nat>, g: nat)
    requires NoneTaken(tables, supply, mmu.tables, mmu.supply) && g !in tables && g !in supply
    requires 0 < g < mmu.addressLimit / FRAME_SIZE && g != mmu.cr3
    ensures IsApart(mmu, g)
  {
  }

  lemma SlotRetargeted(m: Memory, m': Memory, root: nat, w: nat, g: nat)
    requires OneEntry(m, m', root, LoopSlot(false), w) && IsRootLink(w, g) && IsBareRoot(m, g) && g != root
    ensures IsBareRoot(m', g) && IsRootLink(m'.Load(Slot(root, LoopSlot(false))), g)
  {
    LoopSlots(false);
    hide Slot, LoopSlot, IsRootLink;
  }

  lemma SameWalksThenSame(m: Memory, m': Memory, m'': Memory, root: nat)
    requires (SameWalks(m, m', root) || m' == m) && SameTranslations(m', m'', root)
    ensures SameWalks(m, m'', root)
  {
    hide Walk, Outside, PTEOf, NoLargePage, TablesPresent, UpperView, Allows;
    forall u | Outside(u)
      ensures Walk(m'', root, u) == Walk(m, root, u) && SameRights(m, m'', root, u)
    {
      assert SameView(m', m'', root, u);
      SameViewAllows(m', m'', root, u);
    }
  }

  /** Maps the frame of the new root for a moment, and writes the root through that page. */
  method MakeBareRoot(mmu: MMU, rootAddress: nat, w: nat, ghost g: nat) returns (ok: bool)
    requires mmu.Valid() && mmu.usePrimary && mmu.root == mmu.cr3 && ZoneReady(mmu.mem, mmu.root)
    requires rootAddress == g * FRAME_SIZE && IsApart(mmu, g) && IsRootLink(w, g)
    modifies mmu
    ensures mmu.Valid() && SameWalks(old(mmu.mem), mmu.mem, mmu.root)
    ensures !ok ==> mmu.supply == [] || NoRunBefore(old(mmu.mem), mmu.root, 1, GP_PAGES)
    ensures ok ==> IsBareRoot(mmu.mem, g) && IsApart(mmu, g)
  {
    hide MMU.Valid, IsTree, Window, RunSet, RangeSet, RunHasTables, GeneralWords, ZoneReady, SameTranslations, IsBareRoot, SameWalks,
         IsRun, IsFirstRun, IsRootLink, NoRunBefore, TablesPresent, ZonePage, NoneTaken, FlagsOnly;
    ghost var m0, root := mmu.mem, mmu.root;
    ghost var words := RootPageWords(mmu, rootAddress);
    ApartFacts(mmu, g);
    var vroot, exhausted, first := MapGeneralPages(mmu, rootAddress, 1, PRESENT + READWRITE);
    if vroot.None? {
      SameWalksThenSame(m0, m0, mmu.mem, root);
      return false;
    }
    ghost var m1 := mmu.mem;
    ApartIsNoFrameTaken(mmu, old(mmu.tables), old(mmu.supply), g);
    FirstIsRun(m0, root, first, 1);
    FillRoot(mmu, vroot.value, w, m0, first, g);
    ghost var m2 := mmu.mem;
    ok := UnmapRoot(mmu, vroot.value, first, g);
    UnmappedWalks(m0, m1, m2, mmu.mem, root, first, words, vroot.value);
  }

  ghost function RootPageWords(mmu: MMU, rootAddress: nat): (words: seq<nat>)
    requires mmu.Valid()
    reads mmu
    ensures words == GeneralWords(mmu.addressLimit, rootAddress, 1, PRESENT + READWRITE) && |words| == 1
  {
    GeneralWords(mmu.addressLimit, rootAddress, 1, PRESENT + READWRITE)
  }

  lemma ApartFacts(mmu: MMU, g: nat)
    requires mmu.Valid() && IsApart(mmu, g)
    ensures g !in mmu.tables && g !in mmu.supply && FlagsOnly(PRESENT + READWRITE) && g * FRAME_SIZE % FRAME_SIZE == 0
    ensures 0 < g < mmu.addressLimit / FRAME_SIZE && g != mmu.cr3
  {
  }

  lemma RootFacts(mmu: MMU, rootAddress: nat)
    requires mmu.Valid() && rootAddress % FRAME_SIZE == 0 && IsApart(mmu, rootAddress / FRAME_SIZE)
    ensures rootAddress == rootAddress / FRAME_SIZE * FRAME_SIZE && mmu.addressLimit > 0
    ensures IsRootLink(EntryWord(mmu.FilterAddress(rootAddress), false), rootAddress / FRAME_SIZE)
  {
    hide IsTree, Window, IsRootLink, EntryWord, Filtered;
    RootWord(mmu.addressLimit, rootAddress);
  }

  /** Sets up a second address space whose root table is to lie at the given address, in a frame
      that is free for it.  The kernel's own slots are shared with it afterwards, which is not part
      of this method. */
  method CreateSecondaryRecursiveMapping(mmu: MMU, rootAddress: nat) returns (ok: bool)
    requires mmu.Valid() && mmu.usePrimary && mmu.root == mmu.cr3 && ZoneReady(mmu.mem, mmu.root)
    requires rootAddress % FRAME_SIZE == 0 && IsApart(mmu, rootAddress / FRAME_SIZE)
    modifies mmu
    ensures mmu.Valid() && SameWalks(old(mmu.mem), mmu.mem, mmu.root)
    ensures !ok ==> mmu.supply == [] || NoRunBefore(old(mmu.mem), mmu.root, 1, GP_PAGES)
    ensures ok ==> var g := rootAddress / FRAME_SIZE;
              && IsBareRoot(mmu.mem, g) && IsTree(mmu.mem, g, map[g := []]) && IsApart(mmu, g)
              && Window(mmu.mem, g, g, true) && Window(mmu.mem, mmu.cr3, g, false)
  {
    RootFacts(mmu, rootAddress);
    ghost var g, m0, root := rootAddress / FRAME_SIZE, mmu.mem, mmu.root;
    assert IsApart(mmu, g);
    hide MMU.Valid, IsTree, Window, SameTranslations, IsBareRoot, SameWalks, OneEntry, PointsTo, IsTableEntry, EntryWord, Filtered, LoopSlot, Slot,
         NoRunBefore, ZoneReady;
    ok := MakeBareRoot(mmu, rootAddress, EntryWord(mmu.FilterAddress(rootAddress), false), g);
    if ok {
      ghost var m1 := mmu.mem;
      UpdateSecondaryRecursiveMapping(mmu, rootAddress);
      SameWalksThenSame(m0, m1, mmu.mem, root);
      SlotRetargeted(m1, mmu.mem, root, EntryWord(mmu.FilterAddress(rootAddress), false), g);
      BareRootIsSpace(mmu.mem, root, g);
    }
  }

  lemma FirstIsRun(m: Memory, root: nat, first: nat, n: nat)
    requires IsFirstRun(m, root, first, n) && n > 0
    ensures IsRun(m, root, first, n) && first < GP_PAGES
  {
  }

  /** An address space can be started from a bare root. */
  method StartSpace(m: Memory, g: nat, addressLimit: nat, supply: seq<nat>) returns (mmu: MMU)
    requires IsBareRoot(m, g) && 0 < addressLimit <= ADDRESS_FRAMES * FRAME_SIZE && addressLimit % FRAME_SIZE == 0
    requires forall i :: 0 <= i < |supply| ==> 0 < supply[i] < addressLimit / FRAME_SIZE && supply[i] != g
    requires forall i, j :: 0 <= i < j < |supply| ==> supply[i] != supply[j]
    ensures fresh(mmu) && mmu.Valid() && mmu.mem == m && mmu.cr3 == mmu.root == g && mmu.usePrimary && mmu.supply == supply
  {
    BareRootIsSpace(m, g, g);
    mmu := new MMU(m, g, g, true, addressLimit, supply, map[g := []]);
  }

  lemma OneForeignFrame(m: Memory, m': Memory, g: nat)
    requires SameBesides(m, m', g)
    ensures DataKept(m, m', map[g := []])
  {
    hide Slot;
  }

  // ---------- two spaces ----------

  /** The second space shares memory and frames with the running one, but no table. */
  ghost predicate Beside(mmu: MMU, second: MMU)
    reads mmu, second
  {
    && mmu != second && mmu.Valid() && second.Valid() && mmu.root == mmu.cr3 == second.cr3 && mmu.usePrimary && !second.usePrimary
    && second.mem == mmu.mem && second.supply == mmu.supply && second.addressLimit == mmu.addressLimit
    && mmu.tables.Keys !! second.tables.Keys
  }

  /** The second space can be edited from the running one, as soon as slot 509 shows it. */
  method EditSecondary(mmu: MMU, g: nat) returns (second: MMU)
    requires mmu.Valid() && mmu.root == mmu.cr3 && mmu.usePrimary && g !in mmu.tables && g !in mmu.supply
    requires IsBareRoot(mmu.mem, g) && Window(mmu.mem, mmu.cr3, g, false)
    ensures fresh(second) && second.root == g && Beside(mmu, second)
  {
    BareRootIsSpace(mmu.mem, mmu.cr3, g);
    ValidInParts(mmu);
    hide Window, IsBareRoot, MMU.Valid;
    assert g != mmu.cr3;
    hide IsTree;
    second := new MMU(mmu.mem, mmu.cr3, g, false, mmu.addressLimit, mmu.supply, map[g := []]);
  }

  /** Maps a page in the second space: the running space keeps its tables and every translation. */
  method MapInSecond(mmu: MMU, second: MMU, physicalAddress: nat, virtualAddress: nat, privilege: AccessPrivilege) returns (ok: bool)
    requires Beside(mmu, second) && Outside(Parse(virtualAddress)) && NoLargePage(mmu.mem, second.root, Parse(virtualAddress))
    modifies mmu`mem, mmu`supply, second
    ensures Beside(mmu, second) && SameTranslations(old(mmu.mem), mmu.mem, mmu.root)
    ensures ok <==> physicalAddress % FRAME_SIZE == 0 && virtualAddress % FRAME_SIZE == 0
                    && |old(mmu.supply)| >= MissingTables(old(mmu.mem), second.root, Parse(virtualAddress))
    ensures if ok then PageMapped(old(mmu.mem), mmu.mem, second.root, Parse(virtualAddress), mmu.FilterAddress(physicalAddress))
            else SameTranslations(old(mmu.mem), mmu.mem, second.root)
    ensures ok ==> RightsGiven(old(mmu.mem), mmu.mem, second.root, Parse(virtualAddress), privilege)
    ensures OthersAllow(old(mmu.mem), mmu.mem, second.root, Parse(virtualAddress))
  {
    ghost var m, supply, tables := mmu.mem, mmu.supply, second.tables;
    ValidInParts(mmu);
    ValidInParts(second);
    hide Parse, Outside, NoLargePage, IsTree, Window, SameTranslations, PageMapped, LeafSet, DataKept, MissingTables, EntryWord, MMU.Valid,
         RightsGiven, OthersAllow, Allows, Grown;
    ok := second.MapPage(physicalAddress, virtualAddress, privilege);
    NoTableShared(mmu.tables, tables, second.tables, supply);
    ForeignKeeps(m, second.mem, mmu.root, mmu.tables, second.tables);
    mmu.mem := second.mem;
    mmu.supply := second.supply;
    ValidInParts(second);
    ValidInParts(mmu);
  }

  /** New tables of one space are no tables of the other. */
  lemma NoTableShared(mine: Tables, theirs: Tables, theirs': Tables, supply: seq<nat>)
    requires mine.Keys !! theirs.Keys && GrownFrom(theirs', theirs, supply) && forall i :: 0 <= i < |supply| ==> supply[i] !in mine
    ensures mine.Keys !! theirs'.Keys
  {
  }
}
