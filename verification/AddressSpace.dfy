/** Editing page tables through their own recursive windows, as the virtual memory manager does:
    every read and write of an entry goes through the processor's translation. */
module AddressSpace {
  import opened Common
  import opened Divisions
  import opened PageTables
  import opened RecursiveWindows
  import opened TableTree
  import opened AccessRights

  datatype AccessPrivilege = High | Medium | Low

  /** A present, writable entry, as the entry setters compose it. */
  function EntryWord(address: nat, user: bool): nat {
    PRESENT + READWRITE + (if user then USERMODE else 0) + address / FRAME_SIZE % ADDRESS_FRAMES * FRAME_SIZE
  }

  // the bits of an entry with only the lowest three in use, below a frame number

  lemma LowestBit(frame: nat, low: nat)
    requires low % 2 == 1
    ensures Present(frame * FRAME_SIZE + low)
  {
  }

  lemma FrameBits(frame: nat, low: nat)
    requires low < 8 && frame < ADDRESS_FRAMES
    ensures FrameOf(frame * FRAME_SIZE + low) == frame
  {
    Divides(frame, low, FRAME_SIZE);
    SmallModulo(frame, ADDRESS_FRAMES);
  }

  lemma LargeBit(frame: nat, low: nat)
    requires low < 8
    ensures !Large(frame * FRAME_SIZE + low)
  {
    Divides(32 * frame, low, PAGE_SIZE_BIT);
  }

  /** Writable always, for user mode as asked. */
  lemma EntryWordBits(address: nat, user: bool)
    ensures Bit(EntryWord(address, user), READWRITE) && (Bit(EntryWord(address, user), USERMODE) <==> user)
  {
    var frame, u := address / FRAME_SIZE % ADDRESS_FRAMES, if user then 1 else 0;
    assert EntryWord(address, user) == frame * FRAME_SIZE + 4 * u + 3;
    assert EntryWord(address, user) / READWRITE == 2 * (frame * 1024 + u) + 1;
    assert EntryWord(address, user) / USERMODE == 2 * (frame * 512) + u;
  }

  lemma EntryWordFields(address: nat, user: bool)
    ensures Present(EntryWord(address, user)) && !Large(EntryWord(address, user))
    ensures FrameOf(EntryWord(address, user)) == address / FRAME_SIZE % ADDRESS_FRAMES
    ensures IsTableEntry(EntryWord(address, user), user)
  {
    EntryWordBits(address, user);
    hide Present, Large, Bit, FrameOf;
    var frame, low := address / FRAME_SIZE % ADDRESS_FRAMES, PRESENT + READWRITE + if user then USERMODE else 0;
    assert EntryWord(address, user) == frame * FRAME_SIZE + low;
    LowestBit(frame, low);
    LargeBit(frame, low);
    FrameBits(frame, low);
  }

  // ---------- accesses that do not disturb themselves ----------

  /** m' may differ from m only inside frame g. */
  ghost predicate SameBesides(m: Memory, m': Memory, g: nat) {
    forall f: nat, j: nat {:trigger m'.Load(Slot(f, j))} :: j < ENTRIES && f != g ==> m'.Load(Slot(f, j)) == m.Load(Slot(f, j))
  }

  /** The walk for a ends in frame g and does not pass through g. */
  ghost predicate SafeTarget(m: Memory, cr3: nat, a: VirtualAddress, g: nat) {
    var e4, e3, e2, e1 := Entry4(m, cr3, a), Entry3(m, cr3, a), Entry2(m, cr3, a), Entry1(m, cr3, a);
    && Indices(a) && Present(e4) && Present(e3) && !Large(e3) && Present(e2) && !Large(e2) && Present(e1) && FrameOf(e1) == g
    && g != cr3 && g != FrameOf(e4) && g != FrameOf(e3) && g != FrameOf(e2)
  }

  lemma SafeWalk(m: Memory, m': Memory, cr3: nat, a: VirtualAddress, g: nat, o: nat)
    requires o < FRAME_SIZE && SafeTarget(m, cr3, a, g) && SameBesides(m, m', g)
    ensures Walk(m', cr3, a.(offset := o)) == Some(g * FRAME_SIZE + o)
  {
    hide Present, Large, FrameOf, Slot;
  }

  lemma SafeTranslation(m: Memory, m': Memory, cr3: nat, va: nat, g: nat, o: nat)
    requires va % FRAME_SIZE == 0 && o < FRAME_SIZE && SafeTarget(m, cr3, Parse(va), g) && SameBesides(m, m', g)
    ensures Translate(m', cr3, va + o) == Some(g * FRAME_SIZE + o)
  {
    hide Parse, SafeTarget, SameBesides, Walk;
    ParseInPage(va, o);
    SafeWalk(m, m', cr3, Parse(va), g, o);
  }

  lemma SlotOf(g: nat, i: nat)
    ensures Slot(g, i) == g * FRAME_SIZE + i * ENTRY_SIZE
  {
  }

  lemma SameBesidesSelf(m: Memory, g: nat)
    ensures SameBesides(m, m, g)
  {
  }

  lemma SameBesidesStep(m: Memory, m': Memory, m'': Memory, g: nat, j: nat, w: nat)
    requires SameBesides(m, m', g) && OneEntry(m', m'', g, j, w)
    ensures SameBesides(m, m'', g)
  {
  }

  /** The walk for a reaches entry i of frame f as its leaf, through the given frames only. */
  ghost predicate LeadsTo(m: Memory, cr3: nat, frames: set<nat>, a: VirtualAddress, f: nat, i: nat) {
    var e4, e3, e2 := Entry4(m, cr3, a), Entry3(m, cr3, a), Entry2(m, cr3, a);
    && Indices(a) && Present(e4) && Present(e3) && !Large(e3) && Present(e2) && !Large(e2)
    && FrameOf(e2) == f && a.pt == i && {FrameOf(e4), FrameOf(e3), f} <= frames
  }

  /** New tables come from the frames that were free. */
  ghost predicate GrownFrom(tables': Tables, tables: Tables, supply: seq<nat>) {
    forall f :: f in tables' ==> f in tables || f in supply
  }

  /** Words outside the table frames are the same. */
  ghost predicate DataKept(m: Memory, m': Memory, tables: Tables) {
    forall f: nat, j: nat {:trigger m'.Load(Slot(f, j))} :: j < ENTRIES && f !in tables ==> m'.Load(Slot(f, j)) == m.Load(Slot(f, j))
  }

  lemma DataKeptTwice(m: Memory, m': Memory, m'': Memory, tables: Tables)
    requires DataKept(m, m', tables) && DataKept(m', m'', tables)
    ensures DataKept(m, m'', tables)
  {
    hide Slot;
  }

  /** Tables were added, and words outside all tables are the same. */
  ghost predicate OnlyTablesChanged(m: Memory, tables: Tables, m': Memory, tables': Tables) {
    tables.Keys <= tables'.Keys && DataKept(m, m', tables')
  }

  lemma NothingChanged(m: Memory, tables: Tables)
    ensures OnlyTablesChanged(m, tables, m, tables)
  {
  }

  lemma OnlyTablesChangedTwice(m: Memory, tables: Tables, m': Memory, tables': Tables, m'': Memory, tables'': Tables)
    requires OnlyTablesChanged(m, tables, m', tables') && OnlyTablesChanged(m', tables', m'', tables'')
    ensures OnlyTablesChanged(m, tables, m'', tables'')
  {
    hide Slot;
  }

  lemma EntryChangesTables(m: Memory, m': Memory, tables: Tables)
    requires DataKept(m, m', tables)
    ensures OnlyTablesChanged(m, tables, m', tables)
  {
  }

  /** m' is m with entry i of frame f set to w and the table in frame g zeroed. */
  ghost predicate TableInstalled(m: Memory, m': Memory, f: nat, i: nat, w: nat, g: nat) {
    forall h: nat, j: nat {:trigger m'.Load(Slot(h, j))} :: j < ENTRIES ==>
      m'.Load(Slot(h, j)) == if h == g then 0 else if h == f && j == i then w else m.Load(Slot(h, j))
  }

  /** After linking frame g in an entry that was not present, the table's own window leads to g. */
  lemma LinkedIsSafe(m: Memory, m1: Memory, cr3: nat, frames: set<nat>, a: VirtualAddress, f: nat, i: nat, w: nat, g: nat)
    requires LeadsTo(m, cr3, frames, a, f, i) && OneEntry(m, m1, f, i, w) && !Present(m.Load(Slot(f, i)))
    requires PointsTo(w, g) && g !in frames && g != cr3
    ensures SafeTarget(m1, cr3, a, g)
  {
    hide Present, Large, FrameOf, Slot;
  }

  lemma LoopSlotIsIndex(usePrimary: bool)
    ensures LoopSlot(usePrimary) < ENTRIES
  {
  }

  // ---------- the windows of the tables on the way to a page ----------

  lemma TableWindows(a: VirtualAddress, usePrimary: bool)
    requires Indices(a)
    ensures var s := LoopSlot(usePrimary);
            && Parse(GetPTAddress(a, usePrimary)) == VirtualAddress(s, a.pml4, a.pdpt, a.pd, 0)
            && Parse(GetPDAddress(a, usePrimary)) == VirtualAddress(s, s, a.pml4, a.pdpt, 0)
            && Parse(GetPDPTAddress(a, usePrimary)) == VirtualAddress(s, s, s, a.pml4, 0)
    ensures GetPDPTAddress(a, usePrimary) % FRAME_SIZE == 0 && GetPDAddress(a, usePrimary) % FRAME_SIZE == 0
    ensures GetPTAddress(a, usePrimary) % FRAME_SIZE == 0
  {
    WindowIndices(a, usePrimary, 0);
    ParseOffset(GetPDPTAddress(a, usePrimary));
    ParseOffset(GetPDAddress(a, usePrimary));
    ParseOffset(GetPTAddress(a, usePrimary));
    hide Parse, LoopSlot, GetPDPTAddress, GetPDAddress, GetPTAddress;
  }

  lemma ParseOffset(va: nat)
    ensures Parse(va).offset == va % FRAME_SIZE
  {
  }

  lemma LeadsToPDPT(m: Memory, cr3: nat, root: nat, usePrimary: bool, tables: Tables, v: VirtualAddress)
    requires IsTree(m, root, tables) && Window(m, cr3, root, usePrimary) && Outside(v)
    ensures LeadsTo(m, cr3, tables.Keys, Parse(GetPDPTAddress(v, usePrimary)), root, v.pml4)
  {
    LoopSlotIsIndex(usePrimary);
    TableWindows(v, usePrimary);
    hide Parse, LoopSlot, Present, Large, FrameOf, Slot, GetPDPTAddress;
  }

  lemma LeadsToPD(m: Memory, cr3: nat, root: nat, usePrimary: bool, tables: Tables, v: VirtualAddress)
    requires IsTree(m, root, tables) && Window(m, cr3, root, usePrimary) && Outside(v) && Present(Entry4(m, root, v))
    ensures LeadsTo(m, cr3, tables.Keys, Parse(GetPDAddress(v, usePrimary)), FrameOf(Entry4(m, root, v)), v.pdpt)
  {
    LoopSlotIsIndex(usePrimary);
    TableWindows(v, usePrimary);
    PathTables(m, root, tables, v);
    hide Parse, LoopSlot, Present, Large, FrameOf, Slot, GetPDAddress;
  }

  lemma LeadsToPT(m: Memory, cr3: nat, root: nat, usePrimary: bool, tables: Tables, v: VirtualAddress)
    requires IsTree(m, root, tables) && Window(m, cr3, root, usePrimary) && Outside(v)
    requires Present(Entry4(m, root, v)) && Present(Entry3(m, root, v)) && !Large(Entry3(m, root, v))
    ensures LeadsTo(m, cr3, tables.Keys, Parse(GetPTAddress(v, usePrimary)), FrameOf(Entry3(m, root, v)), v.pd)
  {
    LoopSlotIsIndex(usePrimary);
    TableWindows(v, usePrimary);
    PathTables(m, root, tables, v);
    hide Parse, LoopSlot, Present, Large, FrameOf, Slot, GetPTAddress;
  }

  lemma InteriorOf(v: VirtualAddress)
    requires Outside(v)
    ensures Interior([], v.pml4) && Interior([v.pml4], v.pdpt) && Interior([v.pml4, v.pdpt], v.pd)
    ensures v.pml4 < ENTRIES && v.pdpt < ENTRIES && v.pd < ENTRIES && v.pt < ENTRIES && Indices(v)
  {
  }

  /** From m to m' page v came to lie on the frame at the given address; no other page moved. */
  ghost predicate PageMapped(m: Memory, m': Memory, root: nat, v: VirtualAddress, address: nat) {
    forall u :: Outside(u) ==> Walk(m', root, u) == if SamePage(u, v) then Some(address + u.offset) else Walk(m, root, u)
  }

  predicate No1GBPage(m: Memory, root: nat, v: VirtualAddress) {
    Present(Entry4(m, root, v)) && Present(Entry3(m, root, v)) ==> !Large(Entry3(m, root, v))
  }

  lemma LargeOffset(va: nat)
    ensures va % PDE_COVERAGE == Parse(va).pt * PTE_COVERAGE + Parse(va).offset
    ensures va % PTE_COVERAGE == Parse(va).offset
  {
    ShiftsNest(va);
  }

  /** What a translation is, level by level, where no 1GB page stands in the way. */
  lemma MappedThrough(m: Memory, root: nat, va: nat)
    requires No1GBPage(m, root, Parse(va))
    ensures var v := Parse(va); var e2, e1 := Entry2(m, root, v), Entry1(m, root, v);
            Translate(m, root, va).Some? ==>
              && Present(Entry4(m, root, v)) && Present(Entry3(m, root, v)) && !Large(Entry3(m, root, v)) && Present(e2)
              && (!Large(e2) ==> Present(e1))
              && Translate(m, root, va).value
                 == if Large(e2) then FrameOf(e2) * FRAME_SIZE / PDE_COVERAGE * PDE_COVERAGE + va % PDE_COVERAGE
                    else FrameOf(e1) * FRAME_SIZE + va % PTE_COVERAGE
  {
    LargeOffset(va);
    hide Present, Large, FrameOf, Slot;
  }

  lemma EntryWordsAll()
    ensures forall address: nat, user: bool :: Present(EntryWord(address, user)) && !Large(EntryWord(address, user))
  {
    forall address: nat, user: bool
      ensures Present(EntryWord(address, user)) && !Large(EntryWord(address, user))
    {
      EntryWordFields(address, user);
    }
  }

  lemma LeafOfEntry(address: nat, user: bool, u: VirtualAddress)
    requires address % FRAME_SIZE == 0 && address < ADDRESS_FRAMES * FRAME_SIZE
    ensures LeafTarget(EntryWord(address, user), u) == Some(address + u.offset)
  {
    EntryWordFields(address, user);
    SmallModulo(address / FRAME_SIZE, ADDRESS_FRAMES);
  }

  lemma LeafSetAfter(m0: Memory, m1: Memory, m2: Memory, root: nat, v: VirtualAddress, w: nat)
    requires (SameTranslations(m0, m1, root) || LeafSet(m0, m1, root, v, w)) && LeafSet(m1, m2, root, v, w)
    ensures LeafSet(m0, m2, root, v, w)
  {
    hide Walk, PTEOf, NoLargePage, LeafTarget, Outside;
  }

  /** Setting the leaf entry to a present word maps the page. */
  lemma MappedByLeaf(m: Memory, m': Memory, root: nat, v: VirtualAddress, address: nat, user: bool)
    requires address % FRAME_SIZE == 0 && address < ADDRESS_FRAMES * FRAME_SIZE
    requires LeafSet(m, m', root, v, EntryWord(address, user))
    ensures PageMapped(m, m', root, v, address)
  {
    hide Walk, EntryWord, LeafTarget, Outside, PTEOf, NoLargePage;
    forall u | Outside(u)
      ensures Walk(m', root, u) == if SamePage(u, v) then Some(address + u.offset) else Walk(m, root, u)
    {
      LeafOfEntry(address, user, u);
    }
  }

  /** The rights that mapping a page gives: the page is writable if the tables that existed on its way are,
      and accessible in user mode if it was mapped with the lowest privilege and those tables are. */
  ghost predicate RightsGiven(m: Memory, m': Memory, root: nat, v: VirtualAddress, privilege: AccessPrivilege) {
    && (Allows(m', root, v, READWRITE) <==> TablesAllow(m, root, v, READWRITE))
    && (Allows(m', root, v, USERMODE) <==> privilege == Low && TablesAllow(m, root, v, USERMODE))
  }

  lemma EntryGivesRights(m: Memory, m': Memory, root: nat, v: VirtualAddress, address: nat, privilege: AccessPrivilege)
    requires Outside(v) && NoLargePage(m, root, v) && Grown(m, m', root, privilege != High)
    requires LeafSet(m, m', root, v, EntryWord(address, privilege == Low))
    ensures RightsGiven(m, m', root, v, privilege) && OthersAllow(m, m', root, v)
    ensures MissingTables(m, root, v) == 3 ==>
              Allows(m', root, v, READWRITE) && (Allows(m', root, v, USERMODE) <==> privilege == Low)
  {
    var w := EntryWord(address, privilege == Low);
    EntryWordFields(address, privilege == Low);
    hide Grown, LeafSet, NoLargePage, EntryWord, Bit, Large, FrameOf, Slot, Memory.Load, Outside, Allows, OthersAllow;
    LeafAllows(m, m', root, v, w, privilege != High);
    LeafKeepsRights(m, m', root, v, w);
  }

  /** Writing a leaf entry leaves the entries above it alone. */
  lemma LeafWritten(m: Memory, m': Memory, root: nat, tables: Tables, v: VirtualAddress, w: nat)
    requires IsTree(m, root, tables) && Outside(v) && TablesPresent(m, root, v)
    requires OneEntry(m, m', FrameOf(Entry2(m, root, v)), v.pt, w)
    ensures Entry4(m', root, v) == Entry4(m, root, v) && Entry3(m', root, v) == Entry3(m, root, v)
    ensures Entry2(m', root, v) == Entry2(m, root, v) && Entry1(m', root, v) == w
  {
    PathTables(m, root, tables, v);
    InteriorOf(v);
    hide Present, Large, FrameOf, Slot, LoopSlot;
  }

  /** How many tables are missing on the way to a page. */
  function MissingTables(m: Memory, root: nat, v: VirtualAddress): nat {
    if !Present(Entry4(m, root, v)) then 3
    else if !Present(Entry3(m, root, v)) then 2
    else if !Present(Entry2(m, root, v)) then 1
    else 0
  }

  /** A new table on the way to v moves the walk one level down, to an empty entry. */
  lemma InstalledForPage(m: Memory, m': Memory, root: nat, tables: Tables, v: VirtualAddress, w: nat, g: nat)
    requires IsTree(m, root, tables) && Outside(v) && PointsTo(w, g) && g !in tables
    ensures !Present(Entry4(m, root, v)) && TableInstalled(m, m', root, v.pml4, w, g) ==>
              Entry4(m', root, v) == w && Entry3(m', root, v) == 0
    ensures Present(Entry4(m, root, v)) && TableInstalled(m, m', FrameOf(Entry4(m, root, v)), v.pdpt, w, g) ==>
              Entry4(m', root, v) == Entry4(m, root, v) && Entry3(m', root, v) == w && Entry2(m', root, v) == 0
    ensures Present(Entry4(m, root, v)) && Present(Entry3(m, root, v)) && !Large(Entry3(m, root, v))
            && TableInstalled(m, m', FrameOf(Entry3(m, root, v)), v.pd, w, g) ==>
              && Entry4(m', root, v) == Entry4(m, root, v) && Entry3(m', root, v) == Entry3(m, root, v)
              && Entry2(m', root, v) == w && Entry1(m', root, v) == 0
  {
    PathTables(m, root, tables, v);
    hide Present, Large, FrameOf, Slot;
  }

  lemma SameTranslationsSelf(m: Memory, root: nat)
    ensures SameTranslations(m, m, root)
  {
  }

  lemma SameTranslationsTwice(m: Memory, m': Memory, m'': Memory, root: nat)
    requires SameTranslations(m, m', root) && SameTranslations(m', m'', root)
    ensures SameTranslations(m, m'', root)
  {
  }

  // ---------- ranges of pages ----------

  const NP_READWRITE: nat := 0x2
  const NP_USERMODE: nat := 0x4
  const NP_ON_DEMAND: nat := 0x800

  /** The entry of a page that is reserved but has no frame yet. */
  function OnDemandWord(user: bool): nat {
    NP_ON_DEMAND + (if user then NP_USERMODE else 0) + NP_READWRITE
  }

  /** The k-th page from start on. */
  function PageAt(start: nat, k: nat): VirtualAddress {
    Parse(start + k * FRAME_SIZE)
  }

  predicate IsSuffix(s: seq<nat>, t: seq<nat>) {
    |s| <= |t| && s == t[|t| - |s|..]
  }

  ghost predicate InRange(u: VirtualAddress, start: nat, n: nat) {
    exists k: nat :: k < n && SamePage(u, PageAt(start, k))
  }

  /** From m to m' the entries of n pages were set to w; all other pages look the same. */
  ghost predicate RangeSet(m: Memory, m': Memory, root: nat, start: nat, n: nat, w: nat) {
    forall u :: Outside(u) ==>
      if InRange(u, start, n)
      then Walk(m', root, u) == LeafTarget(w, u) && PTEOf(m', root, u) == w && UpperView(m, m', root, u) && NoLargePage(m', root, u)
      else SameView(m, m', root, u)
  }

  lemma RangeSetNothing(m: Memory, root: nat, start: nat, w: nat)
    ensures RangeSet(m, m, root, start, 0, w)
  {
  }

  lemma RangeSetSame(m: Memory, m': Memory, m'': Memory, root: nat, start: nat, n: nat, w: nat)
    requires RangeSet(m, m', root, start, n, w) && SameTranslations(m', m'', root)
    ensures RangeSet(m, m'', root, start, n, w)
  {
    hide Walk, PTEOf, NoLargePage, LeafTarget, Outside, InRange;
  }

  lemma RangeSetNext(m: Memory, m': Memory, m'': Memory, root: nat, start: nat, n: nat, w: nat)
    requires RangeSet(m, m', root, start, n, w) && LeafSet(m', m'', root, PageAt(start, n), w)
    ensures RangeSet(m, m'', root, start, n + 1, w)
  {
    hide Walk, PTEOf, NoLargePage, LeafTarget, Outside, PageAt;
    forall u | Outside(u)
      ensures if InRange(u, start, n + 1)
              then Walk(m'', root, u) == LeafTarget(w, u) && PTEOf(m'', root, u) == w && UpperView(m, m'', root, u) && NoLargePage(m'', root, u)
              else SameView(m, m'', root, u)
    {
      assert InRange(u, start, n + 1) <==> InRange(u, start, n) || SamePage(u, PageAt(start, n));
    }
  }

  /** The pages of a range can be given entries. */
  ghost predicate Mappable(m: Memory, root: nat, start: nat, pages: nat) {
    forall k: nat :: k < pages ==> Outside(PageAt(start, k)) && NoLargePage(m, root, PageAt(start, k))
  }

  lemma MappableAt(m: Memory, root: nat, start: nat, pages: nat, k: nat)
    requires Mappable(m, root, start, pages) && k < pages
    ensures PageAt(start, k) == Parse(start + k * FRAME_SIZE) && Outside(PageAt(start, k)) && NoLargePage(m, root, PageAt(start, k))
  {
  }

  lemma MappableKept(m: Memory, m': Memory, root: nat, start: nat, pages: nat)
    requires Mappable(m, root, start, pages) && SameTranslations(m, m', root)
    ensures Mappable(m', root, start, pages)
  {
    hide Outside, NoLargePage, PageAt, Walk, PTEOf, TablesPresent;
    forall k: nat | k < pages
      ensures Outside(PageAt(start, k)) && NoLargePage(m', root, PageAt(start, k))
    {
      assert SameView(m, m', root, PageAt(start, k));
    }
  }

  lemma MappableAfterLeaf(m: Memory, m': Memory, root: nat, start: nat, pages: nat, v: VirtualAddress, w: nat)
    requires Mappable(m, root, start, pages) && LeafSet(m, m', root, v, w)
    ensures Mappable(m', root, start, pages)
  {
    hide Outside, NoLargePage, PageAt, Walk, PTEOf, TablesPresent;
    forall k: nat | k < pages
      ensures Outside(PageAt(start, k)) && NoLargePage(m', root, PageAt(start, k))
    {
      assert LeafView(m, m', root, v, w, PageAt(start, k));
    }
  }

  // ---------- entries of faulting pages ----------

  const NP_PWT: nat := 0x8
  const NP_PCD: nat := 0x10
  const NP_PAT: nat := 0x20
  const NP_GLOBAL: nat := 0x40

  datatype FaultOutcome = Resolved | Violation | Unmapped | HugePage | SwappingUnsupported | OutOfMemory

  /** The protection-key field of a non-present entry. */
  function ProtectionKey(w: nat): nat {
    w / 0x80 % 0x10
  }

  function Keep(w: nat, mask: nat): nat
    requires mask != 0
  {
    if Bit(w, mask) then mask else 0
  }

  /** The present entry for a reserved one: access bits stay, PAT and global move up by two. */
  function FaultWord(w: nat, page: nat): nat
    requires ProtectionKey(w) == 0
  {
    page / FRAME_SIZE % ADDRESS_FRAMES * FRAME_SIZE + Keep(w, NP_GLOBAL) * 4 + Keep(w, NP_PAT) * 4 + Keep(w, NP_PCD)
    + Keep(w, NP_PWT) + Keep(w, NP_USERMODE) + Keep(w, NP_READWRITE) + PRESENT
  }

  /** Bit by bit: the entry is present and holds the frame, every flag of the reserved entry is in its
      place, and no other bit is set. */
  lemma FaultWordBits(w: nat, page: nat)
    requires ProtectionKey(w) == 0
    ensures var e := FaultWord(w, page);
            && Present(e) && FrameOf(e) == page / FRAME_SIZE % ADDRESS_FRAMES && e < ADDRESS_FRAMES * FRAME_SIZE && e % FRAME_SIZE < 0x200
            && (Bit(e, READWRITE) <==> Bit(w, NP_READWRITE)) && (Bit(e, USERMODE) <==> Bit(w, NP_USERMODE))
            && (Bit(e, 0x8) <==> Bit(w, NP_PWT)) && (Bit(e, 0x10) <==> Bit(w, NP_PCD)) && !Bit(e, 0x20) && !Bit(e, 0x40)
            && (Bit(e, 0x80) <==> Bit(w, NP_PAT)) && (Bit(e, 0x100) <==> Bit(w, NP_GLOBAL))
  {
    var frame := page / FRAME_SIZE % ADDRESS_FRAMES;
    var g, p, c := Digit2(Bit(w, NP_GLOBAL)), Digit2(Bit(w, NP_PAT)), Digit2(Bit(w, NP_PCD));
    var t, u, r := Digit2(Bit(w, NP_PWT)), Digit2(Bit(w, NP_USERMODE)), Digit2(Bit(w, NP_READWRITE));
    assert FaultWord(w, page) == LowWord(frame, g, p, c, t, u, r);
    hide Bit, FrameOf, Present, FaultWord, Keep;
    LowWordBits(frame, g, p, c, t, u, r);
  }

  function Digit2(b: bool): (d: nat)
    ensures d <= 1
  {
    if b then 1 else 0
  }

  /** A present entry with the given frame and flags, from bit 8 down to bit 1. */
  function LowWord(frame: nat, g: nat, p: nat, c: nat, t: nat, u: nat, r: nat): nat {
    frame * FRAME_SIZE + 0x100 * g + 0x80 * p + 0x10 * c + 8 * t + 4 * u + 2 * r + 1
  }

  lemma BitAt(high: nat, d: nat, low: nat, mask: nat)
    requires d <= 1 && low < mask
    ensures Bit((2 * high + d) * mask + low, mask) <==> d == 1
  {
    Divides(2 * high + d, low, mask);
  }

  lemma LowWordBits(frame: nat, g: nat, p: nat, c: nat, t: nat, u: nat, r: nat)
    requires frame < ADDRESS_FRAMES && g <= 1 && p <= 1 && c <= 1 && t <= 1 && u <= 1 && r <= 1
    ensures var e := LowWord(frame, g, p, c, t, u, r);
            && Present(e) && FrameOf(e) == frame && e < ADDRESS_FRAMES * FRAME_SIZE && e % FRAME_SIZE < 0x200
            && (Bit(e, READWRITE) <==> r == 1) && (Bit(e, USERMODE) <==> u == 1) && (Bit(e, 0x8) <==> t == 1)
            && (Bit(e, 0x10) <==> c == 1) && !Bit(e, 0x20) && !Bit(e, 0x40) && (Bit(e, 0x80) <==> p == 1) && (Bit(e, 0x100) <==> g == 1)
  {
    hide Bit;
    LowWordHighBits(frame, g, p, 0x10 * c + 8 * t + 4 * u + 2 * r + 1);
    LowWordLowBits(frame * 16 + g, p, c, t, u, r);
    var low := 0x100 * g + 0x80 * p + 0x10 * c + 8 * t + 4 * u + 2 * r + 1;
    Divides(frame, low, FRAME_SIZE);
    SmallModulo(frame, ADDRESS_FRAMES);
    LowestBit(frame, low);
  }

  lemma LowWordHighBits(frame: nat, g: nat, p: nat, rest: nat)
    requires g <= 1 && p <= 1 && rest < 0x20
    ensures var e := frame * FRAME_SIZE + 0x100 * g + 0x80 * p + rest;
            (Bit(e, 0x100) <==> g == 1) && (Bit(e, 0x80) <==> p == 1) && !Bit(e, 0x40) && !Bit(e, 0x20)
  {
    hide Bit;
    BitAt(frame * 8, g, 0x80 * p + rest, 0x100);
    BitAt(frame * 16 + g, p, rest, 0x80);
    BitAt(frame * 32 + 2 * g + p, 0, rest, 0x40);
    BitAt(frame * 64 + 4 * g + 2 * p, 0, rest, 0x20);
  }

  lemma LowWordLowBits(high: nat, p: nat, c: nat, t: nat, u: nat, r: nat)
    requires p <= 1 && c <= 1 && t <= 1 && u <= 1 && r <= 1
    ensures var e := high * 0x100 + 0x80 * p + 0x10 * c + 8 * t + 4 * u + 2 * r + 1;
            (Bit(e, 0x10) <==> c == 1) && (Bit(e, 0x8) <==> t == 1) && (Bit(e, USERMODE) <==> u == 1) && (Bit(e, READWRITE) <==> r == 1)
  {
    hide Bit;
    BitAt(high * 8 + 4 * p, c, 8 * t + 4 * u + 2 * r + 1, 0x10);
    BitAt(high * 16 + 8 * p + c, t, 4 * u + 2 * r + 1, 0x8);
    BitAt(high * 32 + 16 * p + 2 * c + t, u, 2 * r + 1, USERMODE);
    BitAt(high * 64 + 32 * p + 4 * c + 2 * t + u, r, 1, READWRITE);
  }

  /** What the handler makes of a fault. */
  function FaultAnswer(m: Memory, root: nat, v: VirtualAddress, errorCode: nat, supply: seq<nat>): FaultOutcome {
    if errorCode % 2 == 1 then Violation
    else if !Present(Entry4(m, root, v)) || !Present(Entry3(m, root, v)) || !Present(Entry2(m, root, v)) then Unmapped
    else if Large(Entry2(m, root, v)) then HugePage
    else if Entry1(m, root, v) == 0 then Unmapped
    else if !Bit(Entry1(m, root, v), NP_ON_DEMAND) then SwappingUnsupported
    else if supply == [] then OutOfMemory
    else Resolved
  }

  /** A fault with the present bit clear is resolved exactly if the page is reserved and a frame is left;
      pages without an entry, in use for something else, or in a large page are told apart. */
  lemma FaultOutcomes(m: Memory, root: nat, v: VirtualAddress, errorCode: nat, supply: seq<nat>)
    requires No1GBPage(m, root, v)
    ensures var answer, entry := FaultAnswer(m, root, v, errorCode, supply), PTEOf(m, root, v);
            var large := Present(Entry4(m, root, v)) && Present(Entry3(m, root, v)) && Present(Entry2(m, root, v)) && Large(Entry2(m, root, v));
            && (answer == Violation <==> errorCode % 2 == 1)
            && (answer == HugePage <==> errorCode % 2 == 0 && large)
            && (answer == Unmapped <==> errorCode % 2 == 0 && !large && entry == 0)
            && (answer == SwappingUnsupported <==> errorCode % 2 == 0 && entry != 0 && !Bit(entry, NP_ON_DEMAND))
            && (answer == OutOfMemory <==> errorCode % 2 == 0 && Bit(entry, NP_ON_DEMAND) && supply == [])
            && (answer == Resolved <==> errorCode % 2 == 0 && Bit(entry, NP_ON_DEMAND) && supply != [])
  {
    assert !Bit(0, NP_ON_DEMAND);
    hide Present, Large, Bit, Entry4, Entry3, Entry2, Entry1;
  }

  lemma SmallModulo(x: nat, n: nat)
    requires x < n
    ensures x % n == x
  {
  }

  /** The part of an address that a page-table entry can hold, below the given limit. */
  function Filtered(limit: nat, address: nat): nat
    requires limit > 0
  {
    address % limit / FRAME_SIZE * FRAME_SIZE
  }

  /** Filtering keeps exactly the page-aligned addresses below the limit; of any other address it keeps the
      page, below the limit. */
  lemma FilterIsExact(limit: nat, address: nat)
    requires limit > 0
    ensures Filtered(limit, address) % FRAME_SIZE == 0
    ensures Filtered(limit, address) <= address % limit < Filtered(limit, address) + FRAME_SIZE
    ensures Filtered(limit, address) == address <==> address < limit && address % FRAME_SIZE == 0
  {
    var rest := address % limit;
    if address < limit {
      SmallModulo(address, limit);
    } else {
      assert rest < limit;
    }
    assert rest == rest / FRAME_SIZE * FRAME_SIZE + rest % FRAME_SIZE;
  }

  /** Backing a reserved page: it allows what its reservation and the tables on its way allow. */
  lemma FaultGivesRights(m: Memory, m': Memory, root: nat, v: VirtualAddress, w: nat, page: nat)
    requires Outside(v) && NoLargePage(m, root, v) && UpperKept(m, m', root) && ProtectionKey(w) == 0
    requires LeafSet(m, m', root, v, FaultWord(w, page))
    ensures Allows(m', root, v, READWRITE) <==> Bit(w, NP_READWRITE) && TablesAllow(m, root, v, READWRITE)
    ensures Allows(m', root, v, USERMODE) <==> Bit(w, NP_USERMODE) && TablesAllow(m, root, v, USERMODE)
    ensures OthersAllow(m, m', root, v)
  {
    hide LeafSet, NoLargePage, FaultWord, Bit, FrameOf, Present, Large, Outside, Allows, TablesAllow, OthersAllow, Grown, UpperKept;
    FaultWordBits(w, page);
    UpperKeptGrown(m, m', root, true);
    LeafAllows(m, m', root, v, FaultWord(w, page), true);
    LeafKeepsRights(m, m', root, v, FaultWord(w, page));
  }

  class MMU {
    var mem: Memory
    const cr3: nat

    // physical addresses below this limit fit the processor's address width
    const addressLimit: nat

    // the frames the physical allocator is going to return, before it runs out
    var supply: seq<nat>

    // the table frames of the edited address space, whose root is in frame root
    const root: nat
    const usePrimary: bool
    ghost var tables: Tables

    ghost predicate Valid()
      reads this
    {
      && 0 < addressLimit <= ADDRESS_FRAMES * FRAME_SIZE && addressLimit % FRAME_SIZE == 0
      && IsTree(mem, root, tables) && Window(mem, cr3, root, usePrimary)
      && (cr3 == root || cr3 !in tables)
      && (forall i :: 0 <= i < |supply| ==> Fresh(supply[i]))
      && (forall i, j :: 0 <= i < j < |supply| ==> supply[i] != supply[j])
    }

    /** The access to an address space whose tables are known, through a window of the running one. */
    constructor (mem: Memory, cr3: nat, root: nat, usePrimary: bool, addressLimit: nat, supply: seq<nat>, ghost tables: Tables)
      requires 0 < addressLimit <= ADDRESS_FRAMES * FRAME_SIZE && addressLimit % FRAME_SIZE == 0
      requires IsTree(mem, root, tables) && Window(mem, cr3, root, usePrimary) && (cr3 == root || cr3 !in tables)
      requires forall i :: 0 <= i < |supply| ==> 0 < supply[i] < addressLimit / FRAME_SIZE && supply[i] !in tables && supply[i] != cr3
      requires forall i, j :: 0 <= i < j < |supply| ==> supply[i] != supply[j]
      ensures Valid() && this.mem == mem && this.cr3 == cr3 && this.root == root && this.usePrimary == usePrimary
      ensures this.addressLimit == addressLimit && this.supply == supply && this.tables == tables
    {
      this.mem, this.cr3, this.root, this.usePrimary, this.addressLimit, this.supply, this.tables :=
        mem, cr3, root, usePrimary, addressLimit, supply, tables;
      new;
      hide IsTree, Window;
    }

    /** A frame the allocator may return: a real one that no table occupies. */
    ghost predicate Fresh(frame: nat)
      reads this
    {
      0 < frame < addressLimit / FRAME_SIZE && frame !in tables && frame != cr3
    }

    function FilterAddress(address: nat): nat
      requires addressLimit > 0
    {
      Filtered(addressLimit, address)
    }

    /** The word at a virtual address that is mapped. */
    function Deref(va: nat): nat
      requires Translate(mem, cr3, va).Some?
      reads this
    {
      mem.Load(Translate(mem, cr3, va).value)
    }

    method Assign(va: nat, w: nat)
      requires Translate(mem, cr3, va).Some?
      modifies this`mem
      ensures mem == old(mem).Store(Translate(old(mem), cr3, va).value, w)
    {
      mem := mem.Store(Translate(mem, cr3, va).value, w);
    }

    /** PhysicalMemory::Allocate: the address of a free frame, or null. */
    method Allocate() returns (page: nat)
      modifies this`supply
      ensures old(supply) == [] ==> page == 0 && supply == []
      ensures old(supply) != [] ==> page == old(supply)[0] * FRAME_SIZE && supply == old(supply)[1..]
    {
      if supply == [] {
        return 0;
      }
      page := supply[0] * FRAME_SIZE;
      supply := supply[1..];
    }

    /** Zeroes the page at va, word by word; g is the frame behind it. */
    method ZeroPage(va: nat, ghost g: nat)
      requires va % FRAME_SIZE == 0 && SafeTarget(mem, cr3, Parse(va), g)
      modifies this`mem
      ensures Zeroed(old(mem), mem, g)
    {
      hide SafeTarget, SameBesides, Present, Large, FrameOf, Slot, Parse;
      var qword := 0;
      SameBesidesSelf(mem, g);
      while qword < FRAME_SIZE / ENTRY_SIZE
        invariant 0 <= qword <= FRAME_SIZE / ENTRY_SIZE
        invariant forall f: nat, j: nat {:trigger mem.Load(Slot(f, j))} :: j < ENTRIES ==>
                    mem.Load(Slot(f, j)) == if f == g && j < qword then 0 else old(mem).Load(Slot(f, j))
        invariant SameBesides(old(mem), mem, g)
      {
        ghost var before := mem;
        SafeTranslation(old(mem), mem, cr3, va, g, qword * ENTRY_SIZE);
        Assign(va + qword * ENTRY_SIZE, 0);
        StoreIsOneEntry(before, g, qword, 0);
        SlotOf(g, qword);
        SameBesidesStep(old(mem), before, mem, g, qword, 0);
        qword := qword + 1;
      }
    }

    lemma FreshFrame(g: nat)
      requires 0 < addressLimit <= ADDRESS_FRAMES * FRAME_SIZE && addressLimit % FRAME_SIZE == 0
      requires 0 < g < addressLimit / FRAME_SIZE
      ensures FilterAddress(g * FRAME_SIZE) == g * FRAME_SIZE
      ensures g * FRAME_SIZE / FRAME_SIZE % ADDRESS_FRAMES == g && g * FRAME_SIZE != 0
    {
      assert g * FRAME_SIZE < addressLimit;
      SmallModulo(g * FRAME_SIZE, addressLimit);
      SmallModulo(g, ADDRESS_FRAMES);
    }

    lemma FilterFits(address: nat)
      requires 0 < addressLimit <= ADDRESS_FRAMES * FRAME_SIZE
      ensures FilterAddress(address) % FRAME_SIZE == 0 && FilterAddress(address) < ADDRESS_FRAMES * FRAME_SIZE
    {
      assert address % addressLimit < addressLimit;
    }

    lemma WindowAfterLeaf(m: Memory, m': Memory, pt: nat, i: nat, w: nat)
      requires Window(m, cr3, root, usePrimary) && root in tables && tables[root] == [] && (cr3 == root || cr3 !in tables)
      requires pt in tables && tables[pt] != [] && OneEntry(m, m', pt, i, w)
      ensures Window(m', cr3, root, usePrimary)
    {
      LoopSlotIsIndex(usePrimary);
    }

    /** One level of the walk down: allocates a table, links it in the entry that the window shows
        at entry, and zeroes the new table through its own window at table. */
    method InstallTable(entry: nat, table: nat, user: bool, ghost f: nat, ghost i: nat) returns (ok: bool)
      requires Valid() && f in tables && i < ENTRIES && Interior(tables[f], i) && !Present(mem.Load(Slot(f, i)))
      requires Translate(mem, cr3, entry) == Some(Slot(f, i))
      requires table % FRAME_SIZE == 0 && LeadsTo(mem, cr3, tables.Keys, Parse(table), f, i)
      modifies this
      ensures Valid()
      ensures ok <==> old(supply) != []
      ensures !ok ==> mem == old(mem) && supply == old(supply)
      ensures ok ==> supply == old(supply)[1..] && SameTranslations(old(mem), mem, root) && Grown(old(mem), mem, root, user)
      ensures GrownFrom(tables, old(tables), old(supply)) && OnlyTablesChanged(old(mem), old(tables), mem, tables)
      ensures ok ==> var g := old(supply)[0];
                && old(tables.Keys) + {g} == tables.Keys && g !in old(tables)
                && TableInstalled(old(mem), mem, f, i, EntryWord(g * FRAME_SIZE, user), g)
    {
      ghost var supply0 := supply;
      NothingChanged(mem, tables);
      var page := Allocate();
      if page == 0 {
        return false;
      }

      ghost var g, m := supply0[0], mem;
      ghost var w := EntryWord(page, user);
      FreshFrame(g);
      EntryWordFields(page, user);
      hide Parse, LeadsTo, IsTree, Interior, Present, Large, FrameOf, SafeTarget, EntryWord, Walk, TableInstalled, OneEntry,
           Zeroed, SameTranslations, Slot, LoopSlot, Window, OnlyTablesChanged, Grown, IsTableEntry, PointsTo, DataKept;

      Assign(entry, EntryWord(FilterAddress(page), user));
      ghost var m1 := mem;
      StoreIsOneEntry(m, f, i, w);
      LinkedIsSafe(m, m1, cr3, tables.Keys, Parse(table), f, i, w, g);

      ZeroPage(table, g);
      Install(m, m1, mem, root, tables, f, i, w, g);
      InstallGrows(m, m1, mem, root, tables, f, i, w, g, user);
      tables := tables[g := tables[f] + [i]];
      ok := true;
    }

    // ---------- making the tables on the way to a page ----------

    lemma DerefEntries(va: nat)
      requires Valid() && Outside(Parse(va))
      ensures var v := Parse(va);
              && Translate(mem, cr3, GetPML4EAddress(v, usePrimary)) == Some(Slot(root, v.pml4))
              && (Present(Entry4(mem, root, v)) ==>
                    && Translate(mem, cr3, GetPDPTEAddress(v, usePrimary)) == Some(Slot(FrameOf(Entry4(mem, root, v)), v.pdpt))
                    && (Present(Entry3(mem, root, v)) ==>
                          && Translate(mem, cr3, GetPDEAddress(v, usePrimary)) == Some(Slot(FrameOf(Entry3(mem, root, v)), v.pd))
                          && (Present(Entry2(mem, root, v)) && !Large(Entry3(mem, root, v)) ==>
                                Translate(mem, cr3, GetPTEAddress(v, usePrimary)) == Some(Slot(FrameOf(Entry2(mem, root, v)), v.pt)))))
    {
      var v := Parse(va);
      PathTables(mem, root, tables, v);
      hide Present, Large, FrameOf, Slot, Walk, LoopSlot, Parse, GetPML4EAddress, GetPDPTEAddress, GetPDEAddress, GetPTEAddress;
      WindowLandsOnEntry(mem, cr3, root, va, usePrimary);
    }

    /** The second-level table on the way to va, allocated if it is missing. */
    method EnsurePDPT(va: nat, user: bool) returns (ok: bool)
      requires Valid() && Outside(Parse(va))
      modifies this
      ensures Valid() && SameTranslations(old(mem), mem, root) && GrownFrom(tables, old(tables), old(supply))
      ensures OnlyTablesChanged(old(mem), old(tables), mem, tables) && Grown(old(mem), mem, root, user)
      ensures if Present(Entry4(old(mem), root, Parse(va))) then ok && mem == old(mem) && supply == old(supply)
              else if old(supply) == [] then !ok && mem == old(mem) && supply == []
              else ok && supply == old(supply)[1..] && Entry3(mem, root, Parse(va)) == 0
                   && Entry4(mem, root, Parse(va)) == EntryWord(old(supply)[0] * FRAME_SIZE, user)
    {
      var mapping := Parse(va);
      DerefEntries(va);
      ok := true;
      SameTranslationsSelf(mem, root);
      GrownSelf(mem, root, user);
      NothingChanged(mem, tables);
      PathTables(mem, root, tables, mapping);
      ghost var m, tables0 := mem, tables;
      hide OnlyTablesChanged, Grown, IsTableEntry, Parse, IsTree, Interior, Present, Large, FrameOf, Walk, SameTranslations, Slot, Window, LeadsTo, EntryWord, TableInstalled,
           GetPML4EAddress, GetPDPTEAddress, GetPDEAddress, GetPDPTAddress, GetPDAddress, GetPTAddress;

      var entry := GetPML4EAddress(mapping, usePrimary);
      if !Present(Deref(entry)) {
        LeadsToPDPT(mem, cr3, root, usePrimary, tables, mapping);
        TableWindows(mapping, usePrimary);
        InteriorOf(mapping);
        ok := InstallTable(entry, GetPDPTAddress(mapping, usePrimary), user, root, mapping.pml4);
        if ok {
          ghost var g := old(supply)[0];
          FreshFrame(g);
          EntryWordFields(g * FRAME_SIZE, user);
          InstalledForPage(m, mem, root, tables0, mapping, EntryWord(g * FRAME_SIZE, user), g);
        } else {
          SameTranslationsSelf(mem, root);
        }
      }
    }

    /** The third-level table on the way to va. */
    method EnsurePD(va: nat, user: bool) returns (ok: bool)
      requires Valid() && Outside(Parse(va)) && Present(Entry4(mem, root, Parse(va)))
      modifies this
      ensures Valid() && SameTranslations(old(mem), mem, root) && GrownFrom(tables, old(tables), old(supply))
      ensures OnlyTablesChanged(old(mem), old(tables), mem, tables) && Grown(old(mem), mem, root, user)
      ensures if Present(Entry3(old(mem), root, Parse(va))) then ok && mem == old(mem) && supply == old(supply)
              else if old(supply) == [] then !ok && mem == old(mem) && supply == []
              else ok && supply == old(supply)[1..] && Entry2(mem, root, Parse(va)) == 0
                   && Entry3(mem, root, Parse(va)) == EntryWord(old(supply)[0] * FRAME_SIZE, user)
                   && Entry4(mem, root, Parse(va)) == Entry4(old(mem), root, Parse(va))
    {
      var mapping := Parse(va);
      DerefEntries(va);
      ok := true;
      SameTranslationsSelf(mem, root);
      GrownSelf(mem, root, user);
      NothingChanged(mem, tables);
      PathTables(mem, root, tables, mapping);
      ghost var m, tables0 := mem, tables;
      hide OnlyTablesChanged, Grown, IsTableEntry, Parse, IsTree, Interior, Present, Large, FrameOf, Walk, SameTranslations, Slot, Window, LeadsTo, EntryWord, TableInstalled,
           GetPML4EAddress, GetPDPTEAddress, GetPDEAddress, GetPDPTAddress, GetPDAddress, GetPTAddress;

      var entry := GetPDPTEAddress(mapping, usePrimary);
      if !Present(Deref(entry)) {
        LeadsToPD(mem, cr3, root, usePrimary, tables, mapping);
        TableWindows(mapping, usePrimary);
        InteriorOf(mapping);
        ok := InstallTable(entry, GetPDAddress(mapping, usePrimary), user, FrameOf(Entry4(mem, root, mapping)), mapping.pdpt);
        if ok {
          ghost var g := old(supply)[0];
          FreshFrame(g);
          EntryWordFields(g * FRAME_SIZE, user);
          InstalledForPage(m, mem, root, tables0, mapping, EntryWord(g * FRAME_SIZE, user), g);
        } else {
          SameTranslationsSelf(mem, root);
        }
      }
    }

    /** The page table on the way to va. */
    method EnsurePT(va: nat, user: bool) returns (ok: bool)
      requires Valid() && Outside(Parse(va))
      requires Present(Entry4(mem, root, Parse(va))) && Present(Entry3(mem, root, Parse(va))) && !Large(Entry3(mem, root, Parse(va)))
      modifies this
      ensures Valid() && SameTranslations(old(mem), mem, root) && GrownFrom(tables, old(tables), old(supply))
      ensures OnlyTablesChanged(old(mem), old(tables), mem, tables) && Grown(old(mem), mem, root, user)
      ensures if Present(Entry2(old(mem), root, Parse(va))) then ok && mem == old(mem) && supply == old(supply)
              else if old(supply) == [] then !ok && mem == old(mem) && supply == []
              else ok && supply == old(supply)[1..] && Entry1(mem, root, Parse(va)) == 0
                   && Entry2(mem, root, Parse(va)) == EntryWord(old(supply)[0] * FRAME_SIZE, user)
                   && Entry4(mem, root, Parse(va)) == Entry4(old(mem), root, Parse(va)) && Entry3(mem, root, Parse(va)) == Entry3(old(mem), root, Parse(va))
    {
      var mapping := Parse(va);
      DerefEntries(va);
      ok := true;
      SameTranslationsSelf(mem, root);
      GrownSelf(mem, root, user);
      NothingChanged(mem, tables);
      PathTables(mem, root, tables, mapping);
      ghost var m, tables0 := mem, tables;
      hide OnlyTablesChanged, Grown, IsTableEntry, Parse, IsTree, Interior, Present, Large, FrameOf, Walk, SameTranslations, Slot, Window, LeadsTo, EntryWord, TableInstalled,
           GetPML4EAddress, GetPDPTEAddress, GetPDEAddress, GetPDPTAddress, GetPDAddress, GetPTAddress;

      var entry := GetPDEAddress(mapping, usePrimary);
      if !Present(Deref(entry)) {
        LeadsToPT(mem, cr3, root, usePrimary, tables, mapping);
        TableWindows(mapping, usePrimary);
        InteriorOf(mapping);
        ok := InstallTable(entry, GetPTAddress(mapping, usePrimary), user, FrameOf(Entry3(mem, root, mapping)), mapping.pd);
        if ok {
          ghost var g := old(supply)[0];
          FreshFrame(g);
          EntryWordFields(g * FRAME_SIZE, user);
          InstalledForPage(m, mem, root, tables0, mapping, EntryWord(g * FRAME_SIZE, user), g);
        } else {
          SameTranslationsSelf(mem, root);
        }
      }
    }

    /** All tables on the way to va, as MapPage and MapOnDemand make them. */
    method EnsureTables(va: nat, user: bool) returns (ok: bool)
      requires Valid() && Outside(Parse(va)) && NoLargePage(mem, root, Parse(va))
      modifies this
      ensures Valid() && SameTranslations(old(mem), mem, root) && GrownFrom(tables, old(tables), old(supply))
      ensures OnlyTablesChanged(old(mem), old(tables), mem, tables) && Grown(old(mem), mem, root, user)
      ensures ok <==> |old(supply)| >= MissingTables(old(mem), root, Parse(va))
      ensures IsSuffix(supply, old(supply))
      ensures ok ==> supply == old(supply)[MissingTables(old(mem), root, Parse(va))..] && TablesPresent(mem, root, Parse(va))
      ensures !ok ==> supply == [] && !TablesPresent(mem, root, Parse(va))
      ensures MissingTables(old(mem), root, Parse(va)) == 0 ==> mem == old(mem)
    {
      ghost var v, m0, tables0, supply0 := Parse(va), mem, tables, supply;
      EmptyIsNotPresent();
      hide OnlyTablesChanged, Grown, IsTableEntry, Parse, IsTree, Present, Large, FrameOf, Walk, SameTranslations, Slot, Window, EntryWord, Entry4, Entry3, Entry2, Entry1, Outside, FilterAddress;
      EntryWordsAll();
      ok := EnsurePDPT(va, user);
      if !ok {
        return false;
      }
      ghost var m1, tables1 := mem, tables;
      ok := EnsurePD(va, user);
      SameTranslationsTwice(m0, m1, mem, root);
      GrownTwice(m0, m1, mem, root, user);
      OnlyTablesChangedTwice(m0, tables0, m1, tables1, mem, tables);
      if !ok {
        return false;
      }
      ghost var m2, tables2 := mem, tables;
      ok := EnsurePT(va, user);
      SameTranslationsTwice(m0, m2, mem, root);
      GrownTwice(m0, m2, mem, root, user);
      OnlyTablesChangedTwice(m0, tables0, m2, tables2, mem, tables);
    }

    // ---------- mapping one page ----------

    /** Maps the page at virtualAddress to the frame at physicalAddress. */
    method MapPage(physicalAddress: nat, virtualAddress: nat, privilege: AccessPrivilege) returns (ok: bool)
      requires Valid() && Outside(Parse(virtualAddress)) && NoLargePage(mem, root, Parse(virtualAddress))
      modifies this
      ensures Valid() && IsSuffix(supply, old(supply)) && GrownFrom(tables, old(tables), old(supply))
      ensures ok <==> physicalAddress % FRAME_SIZE == 0 && virtualAddress % FRAME_SIZE == 0
                      && |old(supply)| >= MissingTables(old(mem), root, Parse(virtualAddress))
      ensures ok ==> PageMapped(old(mem), mem, root, Parse(virtualAddress), FilterAddress(physicalAddress))
      ensures ok ==> LeafSet(old(mem), mem, root, Parse(virtualAddress), EntryWord(FilterAddress(physicalAddress), privilege == Low))
      ensures !ok ==> SameTranslations(old(mem), mem, root)
      ensures OnlyTablesChanged(old(mem), old(tables), mem, tables) && Grown(old(mem), mem, root, privilege != High)
      ensures ok ==> RightsGiven(old(mem), mem, root, Parse(virtualAddress), privilege)
      ensures ok && MissingTables(old(mem), root, Parse(virtualAddress)) == 3 ==>
                && Allows(mem, root, Parse(virtualAddress), READWRITE)
                && (Allows(mem, root, Parse(virtualAddress), USERMODE) <==> privilege == Low)
      ensures OthersAllow(old(mem), mem, root, Parse(virtualAddress))
    {
      hide DataKept, OnlyTablesChanged, Grown, RightsGiven, OthersAllow, Allows;
      SameTranslationsSelf(mem, root);
      SameTranslationsAllow(mem, mem, root, Parse(virtualAddress));
      GrownSelf(mem, root, privilege != High);
      NothingChanged(mem, tables);
      if physicalAddress % FRAME_SIZE != 0 || virtualAddress % FRAME_SIZE != 0 {
        return false;
      }

      ghost var m0 := mem;
      ok := EnsureTables(virtualAddress, privilege != High);
      SameTranslationsAllow(m0, mem, root, Parse(virtualAddress));
      if !ok {
        return false;
      }

      ghost var m1 := mem;
      SetPTE(virtualAddress, EntryWord(FilterAddress(physicalAddress), privilege == Low));
      ghost var m2 := mem;
      SetPTE(virtualAddress, EntryWord(FilterAddress(physicalAddress), privilege == Low));
      DataKeptTwice(m1, m2, mem, tables);
      EntryChangesTables(m1, mem, tables);
      OnlyTablesChangedTwice(m0, old(tables), m1, tables, mem, tables);
      FilterFits(physicalAddress);
      LeafSetAfter(m0, m1, m2, root, Parse(virtualAddress), EntryWord(FilterAddress(physicalAddress), privilege == Low));
      LeafSetAfter(m0, m2, mem, root, Parse(virtualAddress), EntryWord(FilterAddress(physicalAddress), privilege == Low));
      MappedByLeaf(m0, mem, root, Parse(virtualAddress), FilterAddress(physicalAddress), privilege == Low);
      UpperKeptGrown(m1, m2, root, privilege != High);
      UpperKeptGrown(m2, mem, root, privilege != High);
      GrownTwice(m0, m1, m2, root, privilege != High);
      GrownTwice(m0, m2, mem, root, privilege != High);
      EntryGivesRights(m0, mem, root, Parse(virtualAddress), FilterAddress(physicalAddress), privilege);
    }

    /** Overwrites the leaf entry of va through its window. */
    method SetPTE(va: nat, w: nat)
      requires Valid() && Outside(Parse(va)) && TablesPresent(mem, root, Parse(va))
      modifies this`mem
      ensures Valid() && TablesPresent(mem, root, Parse(va)) && Entry1(mem, root, Parse(va)) == w
      ensures LeafSet(old(mem), mem, root, Parse(va), w) && UpperKept(old(mem), mem, root) && DataKept(old(mem), mem, tables)
    {
      var v := Parse(va);
      DerefEntries(va);
      PathTables(mem, root, tables, v);
      InteriorOf(v);
      ghost var m, pt := mem, FrameOf(Entry2(mem, root, v));
      StoreIsOneEntry(m, pt, v.pt, w);
      hide Parse, IsTree, Present, Large, FrameOf, Walk, SameTranslations, Slot, Window, LeafSet, UpperKept, GetPTEAddress, OneEntry, LoopSlot, DataKept;
      Assign(GetPTEAddress(v, usePrimary), w);
      SetLeaf(m, mem, root, tables, v, w);
      SetLeafUpper(m, mem, root, tables, v, w);
      LeafWritten(m, mem, root, tables, v, w);
      WindowAfterLeaf(m, mem, pt, v.pt, w);
    }

    // ---------- reading the tables ----------

    /** Whether va is mapped, read level by level through the windows.  The tables hold no 1GB page
        on the way to va: the check of that level is for presence only. */
    method IsMapped(va: nat) returns (mapped: bool)
      requires Valid() && Outside(Parse(va)) && No1GBPage(mem, root, Parse(va))
      ensures mapped <==> Translate(mem, root, va).Some?
    {
      DerefEntries(va);
      var mapping := Parse(va);
      if !Present(Deref(GetPML4EAddress(mapping, usePrimary))) {
        return false;
      }
      if !Present(Deref(GetPDPTEAddress(mapping, usePrimary))) {
        return false;
      }
      var pde := Deref(GetPDEAddress(mapping, usePrimary));
      if !Present(pde) {
        return false;
      } else if Large(pde) {
        return true;
      }
      return Present(Deref(GetPTEAddress(mapping, usePrimary)));
    }

    /** The physical address behind va: the same as the processor's translation. */
    method GetPhysicalAddress(va: nat) returns (address: Option<nat>)
      requires Valid() && Outside(Parse(va)) && No1GBPage(mem, root, Parse(va))
      ensures address == Translate(mem, root, va)
    {
      hide Present, Large, FrameOf, Slot, Parse, Walk, GetPDEAddress, GetPTEAddress;
      var mapped := IsMapped(va);
      MappedThrough(mem, root, va);
      if !mapped {
        return None;
      }
      DerefEntries(va);
      var mapping := Parse(va);
      var pde := Deref(GetPDEAddress(mapping, usePrimary));
      if Large(pde) {
        return Some(FrameOf(pde) * FRAME_SIZE / PDE_COVERAGE * PDE_COVERAGE + va % PDE_COVERAGE);
      }
      var pte := Deref(GetPTEAddress(mapping, usePrimary));
      if !Present(pte) {
        return None;
      }
      return Some(FrameOf(pte) * FRAME_SIZE + va % PTE_COVERAGE);
    }

    // ---------- reserving pages on demand ----------

    /** Reserves a range of pages: each gets a non-present entry that the page-fault handler
        recognises.  done is how many pages were reserved before frames for tables ran out. */
    method MapOnDemand(start: nat, pages: nat, privilege: AccessPrivilege) returns (ok: bool, ghost done: nat)
      requires Valid()
      requires Mappable(mem, root, start, pages)
      modifies this
      ensures Valid() && IsSuffix(supply, old(supply)) && GrownFrom(tables, old(tables), old(supply))
      ensures done <= pages && (ok <==> done == pages)
      ensures !ok ==> supply == [] && !TablesPresent(mem, root, PageAt(start, done))
      ensures RangeSet(old(mem), mem, root, start, done, OnDemandWord(privilege == Low))
      ensures OnlyTablesChanged(old(mem), old(tables), mem, tables) && Grown(old(mem), mem, root, privilege != High)
    {
      hide OnlyTablesChanged, Grown, TablesPresent, Valid, RangeSet, Mappable, OnDemandWord;
      var address := start;
      var i := 0;
      done := 0;
      RangeSetNothing(mem, root, start, OnDemandWord(privilege == Low));
      NothingChanged(mem, tables);
      GrownSelf(mem, root, privilege != High);

      while i < pages
        invariant i <= pages && address == start + i * FRAME_SIZE && done == i
        invariant Valid() && IsSuffix(supply, old(supply)) && GrownFrom(tables, old(tables), old(supply))
        invariant Mappable(mem, root, start, pages)
        invariant RangeSet(old(mem), mem, root, start, i, OnDemandWord(privilege == Low))
        invariant OnlyTablesChanged(old(mem), old(tables), mem, tables) && Grown(old(mem), mem, root, privilege != High)
      {
        ghost var m, tables0 := mem, tables;
        ok := ReservePage(address, privilege, old(mem), start, pages, i);
        GrownTwice(old(mem), m, mem, root, privilege != High);
        OnlyTablesChangedTwice(old(mem), old(tables), m, tables0, mem, tables);
        if !ok {
          return;
        }
        address := address + FRAME_SIZE;
        i := i + 1;
        done := i;
      }
      ok := true;
    }

    /** One round of the reservation loop. */
    method ReservePage(address: nat, privilege: AccessPrivilege, ghost m0: Memory, ghost start: nat, ghost pages: nat, ghost i: nat) returns (ok: bool)
      requires Valid() && i < pages && address == start + i * FRAME_SIZE && Mappable(mem, root, start, pages)
      requires RangeSet(m0, mem, root, start, i, OnDemandWord(privilege == Low))
      modifies this
      ensures Valid() && IsSuffix(supply, old(supply)) && GrownFrom(tables, old(tables), old(supply))
      ensures Mappable(mem, root, start, pages) && (!ok ==> supply == [] && !TablesPresent(mem, root, PageAt(start, i)))
      ensures RangeSet(m0, mem, root, start, if ok then i + 1 else i, OnDemandWord(privilege == Low))
      ensures OnlyTablesChanged(old(mem), old(tables), mem, tables) && Grown(old(mem), mem, root, privilege != High)
    {
      hide DataKept, OnlyTablesChanged, Grown, Parse, SameTranslations, LeafSet, UpperKept, Valid, NoLargePage, TablesPresent, RangeSet, Outside, OnDemandWord, MissingTables, Mappable, PageAt;
      ghost var m := mem;
      MappableAt(m, root, start, pages, i);
      ok := EnsureTables(address, privilege != High);
      ghost var m1 := mem;
      RangeSetSame(m0, m, m1, root, start, i, OnDemandWord(privilege == Low));
      MappableKept(m, m1, root, start, pages);
      if ok {
        SetPTE(address, OnDemandWord(privilege == Low));
        EntryChangesTables(m1, mem, tables);
        OnlyTablesChangedTwice(m, old(tables), m1, tables, mem, tables);
        UpperKeptGrown(m1, mem, root, privilege != High);
        GrownTwice(m, m1, mem, root, privilege != High);
        RangeSetNext(m0, m1, mem, root, start, i, OnDemandWord(privilege == Low));
        MappableAfterLeaf(m1, mem, root, start, pages, PageAt(start, i), OnDemandWord(privilege == Low));
      }
    }

    // ---------- page faults ----------

    /** The page-fault handler of the running address space, for a fault at va outside the recursive
        windows.  A panic of the kernel is reported as the outcome that caused it. */
    method HandlePageFault(va: nat, errorCode: nat) returns (outcome: FaultOutcome)
      requires Valid() && usePrimary && root == cr3 && Outside(Parse(va)) && No1GBPage(mem, root, Parse(va))
      requires ProtectionKey(PTEOf(mem, root, Parse(va))) == 0
      modifies this
      ensures Valid()
      ensures outcome == FaultAnswer(old(mem), root, Parse(va), errorCode, old(supply))
      ensures outcome != Resolved ==> mem == old(mem) && supply == old(supply)
      ensures tables == old(tables) && OnlyTablesChanged(old(mem), tables, mem, tables)
      ensures outcome == Resolved ==>
                && supply == old(supply)[1..]
                && LeafSet(old(mem), mem, root, Parse(va), FaultWord(PTEOf(old(mem), root, Parse(va)), old(supply)[0] * FRAME_SIZE))
                && OthersAllow(old(mem), mem, root, Parse(va))
                && (Allows(mem, root, Parse(va), READWRITE) <==>
                     Bit(PTEOf(old(mem), root, Parse(va)), NP_READWRITE) && TablesAllow(old(mem), root, Parse(va), READWRITE))
                && (Allows(mem, root, Parse(va), USERMODE) <==>
                     Bit(PTEOf(old(mem), root, Parse(va)), NP_USERMODE) && TablesAllow(old(mem), root, Parse(va), USERMODE))
    {
      NothingChanged(mem, tables);
      if errorCode % 2 == 1 {
        return Violation;
      }

      DerefEntries(va);
      var mapping := Parse(va);
      hide DataKept, OnlyTablesChanged, Present, Large, FrameOf, Slot, Window, LoopSlot, SameTranslations, LeafSet, Outside, Parse, Walk,
           UpperKept, Allows, TablesAllow, OthersAllow, GetPML4EAddress, GetPDPTEAddress, GetPDEAddress, GetPTEAddress;

      // the check for unmapped accesses
      if !Present(Deref(GetPML4EAddress(mapping, true))) || !Present(Deref(GetPDPTEAddress(mapping, true)))
         || !Present(Deref(GetPDEAddress(mapping, true))) {
        return Unmapped;
      }
      if !Large(Deref(GetPDEAddress(mapping, true))) && Deref(GetPTEAddress(mapping, true)) == 0 {
        return Unmapped;
      }

      if Large(Deref(GetPDEAddress(mapping, true))) {
        return HugePage;
      }

      var pte := Deref(GetPTEAddress(mapping, true));
      if !Bit(pte, NP_ON_DEMAND) {
        return SwappingUnsupported;
      }

      var page := Allocate();
      if page == 0 {
        return OutOfMemory;
      }
      FreshFrame(old(supply)[0]);
      SetPTE(va, FaultWord(pte, FilterAddress(page)));
      EntryChangesTables(old(mem), mem, tables);
      FaultGivesRights(old(mem), mem, root, mapping, pte, FilterAddress(page));
      return Resolved;
    }
  }
}
