/** The addresses at which a page-table entry shows up through a self-referencing slot of the
    root table: slot 510 for the running address space, slot 509 for a second one. */
module RecursiveWindows {
  import opened Common
  import opened PageTables

  const PRIMARY_START: nat := 0xFFFF_FF00_0000_0000
  const SECONDARY_START: nat := 0xFFFF_FE80_0000_0000

  function Loop1(usePrimary: bool): nat {
    if usePrimary then PRIMARY_START else SECONDARY_START
  }

  /** The index of the self-referencing slot. */
  function LoopSlot(usePrimary: bool): nat {
    Loop1(usePrimary) / PML4E_COVERAGE % ENTRIES
  }

  function Loop2(usePrimary: bool): nat {
    Loop1(usePrimary) + LoopSlot(usePrimary) * PDPTE_COVERAGE
  }

  function Loop3(usePrimary: bool): nat {
    Loop2(usePrimary) + LoopSlot(usePrimary) * PDE_COVERAGE
  }

  function Loop4(usePrimary: bool): nat {
    Loop3(usePrimary) + LoopSlot(usePrimary) * PTE_COVERAGE
  }

  function GetPTAddress(a: VirtualAddress, usePrimary: bool): nat {
    Loop1(usePrimary) + a.pml4 * PDPTE_COVERAGE + a.pdpt * PDE_COVERAGE + a.pd * PTE_COVERAGE
  }

  function GetPDAddress(a: VirtualAddress, usePrimary: bool): nat {
    Loop2(usePrimary) + a.pml4 * PDE_COVERAGE + a.pdpt * PTE_COVERAGE
  }

  function GetPDPTAddress(a: VirtualAddress, usePrimary: bool): nat {
    Loop3(usePrimary) + a.pml4 * PTE_COVERAGE
  }

  function GetPML4Address(usePrimary: bool): nat {
    Loop4(usePrimary)
  }

  function GetPTEAddress(a: VirtualAddress, usePrimary: bool): nat {
    GetPTAddress(a, usePrimary) + a.pt * ENTRY_SIZE
  }

  function GetPDEAddress(a: VirtualAddress, usePrimary: bool): nat {
    GetPDAddress(a, usePrimary) + a.pd * ENTRY_SIZE
  }

  function GetPDPTEAddress(a: VirtualAddress, usePrimary: bool): nat {
    GetPDPTAddress(a, usePrimary) + a.pdpt * ENTRY_SIZE
  }

  function GetPML4EAddress(a: VirtualAddress, usePrimary: bool): nat {
    GetPML4Address(usePrimary) + a.pml4 * ENTRY_SIZE
  }

  predicate Indices(a: VirtualAddress) {
    a.pml4 < ENTRIES && a.pdpt < ENTRIES && a.pd < ENTRIES && a.pt < ENTRIES && a.offset < FRAME_SIZE
  }

  lemma ParsedIndices(va: nat)
    ensures Indices(Parse(va))
  {
  }

  lemma LoopSlots(usePrimary: bool)
    ensures LoopSlot(usePrimary) == if usePrimary then 510 else 509
    ensures Loop1(usePrimary) == (0xFFFF * ENTRIES + LoopSlot(usePrimary)) * ENTRIES * ENTRIES * ENTRIES * FRAME_SIZE
  {
  }

  /** What the four window addresses of an entry take apart to, for every offset into the page. */
  lemma WindowIndices(a: VirtualAddress, usePrimary: bool, o: nat)
    requires Indices(a) && o < FRAME_SIZE
    ensures var s := LoopSlot(usePrimary);
            && Parse(GetPTAddress(a, usePrimary) + o) == VirtualAddress(s, a.pml4, a.pdpt, a.pd, o)
            && Parse(GetPDAddress(a, usePrimary) + o) == VirtualAddress(s, s, a.pml4, a.pdpt, o)
            && Parse(GetPDPTAddress(a, usePrimary) + o) == VirtualAddress(s, s, s, a.pml4, o)
            && Parse(GetPML4Address(usePrimary) + o) == VirtualAddress(s, s, s, s, o)
  {
    var s := LoopSlot(usePrimary);
    LoopSlots(usePrimary);
    ParseComposed(0xFFFF, s, a.pml4, a.pdpt, a.pd, o);
    ParseComposed(0xFFFF, s, s, a.pml4, a.pdpt, o);
    ParseComposed(0xFFFF, s, s, s, a.pml4, o);
    ParseComposed(0xFFFF, s, s, s, s, o);
  }

  lemma EntryAddresses(a: VirtualAddress, usePrimary: bool)
    requires Indices(a)
    ensures var s := LoopSlot(usePrimary);
            && Parse(GetPML4EAddress(a, usePrimary)) == VirtualAddress(s, s, s, s, a.pml4 * ENTRY_SIZE)
            && Parse(GetPDPTEAddress(a, usePrimary)) == VirtualAddress(s, s, s, a.pml4, a.pdpt * ENTRY_SIZE)
            && Parse(GetPDEAddress(a, usePrimary)) == VirtualAddress(s, s, a.pml4, a.pdpt, a.pd * ENTRY_SIZE)
            && Parse(GetPTEAddress(a, usePrimary)) == VirtualAddress(s, a.pml4, a.pdpt, a.pd, a.pt * ENTRY_SIZE)
  {
    hide Parse, GetPTAddress, GetPDAddress, GetPDPTAddress, GetPML4Address, LoopSlot;
    WindowIndices(a, usePrimary, a.pml4 * ENTRY_SIZE);
    WindowIndices(a, usePrimary, a.pdpt * ENTRY_SIZE);
    WindowIndices(a, usePrimary, a.pd * ENTRY_SIZE);
    WindowIndices(a, usePrimary, a.pt * ENTRY_SIZE);
  }

  predicate PointsTo(w: nat, frame: nat) {
    Present(w) && !Large(w) && FrameOf(w) == frame
  }

  /** The window is set up: the slot of the running root leads to the target root, which leads to
      itself in the same slot. */
  predicate Window(m: Memory, cr3: nat, root: nat, usePrimary: bool) {
    && PointsTo(m.Load(Slot(cr3, LoopSlot(usePrimary))), root)
    && PointsTo(m.Load(Slot(root, LoopSlot(usePrimary))), root)
  }

  // ---------- where the entries of v lie ----------

  /** The physical location of each level's entry for v in the tree below root, if the levels above
      it are present. */
  function Location3(m: Memory, root: nat, v: VirtualAddress): Option<nat> {
    if Present(Entry4(m, root, v)) then Some(Slot(FrameOf(Entry4(m, root, v)), v.pdpt)) else None
  }

  function Location2(m: Memory, root: nat, v: VirtualAddress): Option<nat> {
    if Location3(m, root, v).Some? && Present(Entry3(m, root, v))
    then Some(Slot(FrameOf(Entry3(m, root, v)), v.pd)) else None
  }

  function Location1(m: Memory, root: nat, v: VirtualAddress): Option<nat> {
    if Location2(m, root, v).Some? && Present(Entry2(m, root, v))
    then Some(Slot(FrameOf(Entry2(m, root, v)), v.pt)) else None
  }

  /** Walking through the self-referencing slot once, twice, three times or four times stops that
      many levels early: at offset o of the page table, the page directory and so on. */
  lemma WalkWindow4(m: Memory, cr3: nat, root: nat, usePrimary: bool, o: nat)
    requires Window(m, cr3, root, usePrimary)
    ensures var s := LoopSlot(usePrimary);
            Walk(m, cr3, VirtualAddress(s, s, s, s, o)) == Some(root * FRAME_SIZE + o)
  {
  }

  lemma WalkWindow3(m: Memory, cr3: nat, root: nat, a: VirtualAddress, usePrimary: bool, o: nat)
    requires Window(m, cr3, root, usePrimary)
    ensures var s, e4 := LoopSlot(usePrimary), Entry4(m, root, a);
            Walk(m, cr3, VirtualAddress(s, s, s, a.pml4, o)) == if Present(e4) then Some(FrameOf(e4) * FRAME_SIZE + o) else None
  {
  }

  lemma WalkWindow2(m: Memory, cr3: nat, root: nat, a: VirtualAddress, usePrimary: bool, o: nat)
    requires Window(m, cr3, root, usePrimary) && (Present(Entry4(m, root, a)) ==> !Large(Entry4(m, root, a)))
    ensures var s, e4, e3 := LoopSlot(usePrimary), Entry4(m, root, a), Entry3(m, root, a);
            Walk(m, cr3, VirtualAddress(s, s, a.pml4, a.pdpt, o)) ==
            if Present(e4) && Present(e3) then Some(FrameOf(e3) * FRAME_SIZE + o) else None
  {
  }

  lemma WalkWindow1(m: Memory, cr3: nat, root: nat, a: VirtualAddress, usePrimary: bool, o: nat)
    requires Window(m, cr3, root, usePrimary) && (Present(Entry4(m, root, a)) ==> !Large(Entry4(m, root, a)))
    requires Present(Entry3(m, root, a)) ==> !Large(Entry3(m, root, a))
    ensures var s, e4, e3, e2 := LoopSlot(usePrimary), Entry4(m, root, a), Entry3(m, root, a), Entry2(m, root, a);
            Walk(m, cr3, VirtualAddress(s, a.pml4, a.pdpt, a.pd, o)) ==
            if Present(e4) && Present(e3) && Present(e2) then Some(FrameOf(e2) * FRAME_SIZE + o) else None
  {
  }

  /** For every address, dereferencing a window address reaches the entry's physical location, and
      faults exactly when a level above the entry is missing.  The entries above must not be large
      pages (the top level never is). */
  lemma WindowLandsOnEntry(m: Memory, cr3: nat, root: nat, va: nat, usePrimary: bool)
    requires Window(m, cr3, root, usePrimary)
    requires Present(Entry4(m, root, Parse(va))) ==> !Large(Entry4(m, root, Parse(va)))
    ensures var a := Parse(va);
            && Translate(m, cr3, GetPML4EAddress(a, usePrimary)) == Some(Slot(root, a.pml4))
            && Translate(m, cr3, GetPDPTEAddress(a, usePrimary)) == Location3(m, root, a)
            && Translate(m, cr3, GetPDEAddress(a, usePrimary)) == Location2(m, root, a)
            && ((Present(Entry3(m, root, a)) ==> !Large(Entry3(m, root, a))) ==> Translate(m, cr3, GetPTEAddress(a, usePrimary)) == Location1(m, root, a))
  {
    var a, s := Parse(va), LoopSlot(usePrimary);
    ParsedIndices(va);
    EntryAddresses(a, usePrimary);
    hide Parse, Present, Large, FrameOf, Walk, Entry4, Entry3, Entry2, Entry1, LoopSlot,
         GetPML4EAddress, GetPDPTEAddress, GetPDEAddress, GetPTEAddress;
    WalkWindow4(m, cr3, root, usePrimary, a.pml4 * ENTRY_SIZE);
    WalkWindow3(m, cr3, root, a, usePrimary, a.pdpt * ENTRY_SIZE);
    WalkWindow2(m, cr3, root, a, usePrimary, a.pd * ENTRY_SIZE);
    if Present(Entry3(m, root, a)) ==> !Large(Entry3(m, root, a)) {
      WalkWindow1(m, cr3, root, a, usePrimary, a.pt * ENTRY_SIZE);
    }
  }
}
