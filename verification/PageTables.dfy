/** Four-level paging as the processor does it, over physical memory (section 4.5 of the Intel 64
    and IA-32 Architectures Software Developer's Manual, volume 3A), and the invariant under which
    the tables form a tree.  Words and addresses are natural numbers; an OR of disjoint bit fields
    is their sum, a shift is a division or a multiplication. */
module PageTables {
  import opened Common

  // ---------- addresses ----------

  const FRAME_SIZE: nat := 0x1000
  const ENTRIES: nat := 0x200
  const ENTRY_SIZE: nat := 8
  const PML4E_COVERAGE: nat := 0x80_0000_0000
  const PDPTE_COVERAGE: nat := 0x4000_0000
  const PDE_COVERAGE: nat := 0x20_0000
  const PTE_COVERAGE: nat := 0x1000

  /** The four table indices of a virtual address, and the offset in its page. */
  datatype VirtualAddress = VirtualAddress(pml4: nat, pdpt: nat, pd: nat, pt: nat, offset: nat)

  function Parse(address: nat): VirtualAddress {
    VirtualAddress(
      address / PML4E_COVERAGE % ENTRIES,
      address / PDPTE_COVERAGE % ENTRIES,
      address / PDE_COVERAGE % ENTRIES,
      address / PTE_COVERAGE % ENTRIES,
      address % FRAME_SIZE)
  }

  predicate SamePage(a: VirtualAddress, b: VirtualAddress) {
    a.pml4 == b.pml4 && a.pdpt == b.pdpt && a.pd == b.pd && a.pt == b.pt
  }

  lemma ShiftsNest(va: nat)
    ensures va / PDE_COVERAGE == va / PTE_COVERAGE / ENTRIES
    ensures va / PDPTE_COVERAGE == va / PDE_COVERAGE / ENTRIES
    ensures va / PML4E_COVERAGE == va / PDPTE_COVERAGE / ENTRIES
  {
  }

  lemma Digit(q: nat, d: nat)
    requires d < ENTRIES
    ensures (q * ENTRIES + d) / ENTRIES == q && (q * ENTRIES + d) % ENTRIES == d
  {
  }

  /** Parsing takes apart what has been composed of fields. */
  lemma ParseComposed(top: nat, a: nat, b: nat, c: nat, d: nat, offset: nat)
    requires a < ENTRIES && b < ENTRIES && c < ENTRIES && d < ENTRIES && offset < FRAME_SIZE
    ensures Parse((((top * ENTRIES + a) * ENTRIES + b) * ENTRIES + c) * ENTRIES * FRAME_SIZE + d * FRAME_SIZE + offset)
            == VirtualAddress(a, b, c, d, offset)
  {
    var x := (((top * ENTRIES + a) * ENTRIES + b) * ENTRIES + c) * ENTRIES * FRAME_SIZE + d * FRAME_SIZE + offset;
    ShiftsNest(x);
    assert x / PTE_COVERAGE == (((top * ENTRIES + a) * ENTRIES + b) * ENTRIES + c) * ENTRIES + d;
    Digit(((top * ENTRIES + a) * ENTRIES + b) * ENTRIES + c, d);
    Digit((top * ENTRIES + a) * ENTRIES + b, c);
    Digit(top * ENTRIES + a, b);
    Digit(top, a);
  }

  /** Addresses within one page differ in their offset only. */
  lemma ParseInPage(va: nat, o: nat)
    requires va % FRAME_SIZE == 0 && o < FRAME_SIZE
    ensures Parse(va + o) == Parse(va).(offset := o)
  {
    ShiftsNest(va);
    ShiftsNest(va + o);
  }

  // ---------- entries ----------

  const PRESENT: nat := 0x1
  const READWRITE: nat := 0x2
  const USERMODE: nat := 0x4
  const PAGE_SIZE_BIT: nat := 0x80
  const ADDRESS_FRAMES: nat := 0x100_0000_0000   // frame numbers have 40 bits

  predicate Bit(w: nat, mask: nat)
    requires mask != 0
  {
    w / mask % 2 == 1
  }

  predicate Present(w: nat) {
    w % 2 == 1
  }

  predicate Large(w: nat) {
    Bit(w, PAGE_SIZE_BIT)
  }

  /** The frame number in the address field, bits 12 to 51. */
  function FrameOf(w: nat): nat {
    w / FRAME_SIZE % ADDRESS_FRAMES
  }

  // ---------- physical memory ----------

  /** The physical address of entry i of the table in frame f. */
  function Slot(f: nat, i: nat): nat {
    f * FRAME_SIZE + i * ENTRY_SIZE
  }

  lemma SlotInjective(f: nat, i: nat, g: nat, j: nat)
    requires i < ENTRIES && j < ENTRIES
    ensures Slot(f, i) == Slot(g, j) ==> f == g && i == j
  {
  }

  /** Physical memory, read and written in aligned words. */
  datatype Memory = Memory(words: map<nat, nat>) {
    function Load(pa: nat): nat {
      if pa in words then words[pa] else 0
    }

    function Store(pa: nat, w: nat): (m: Memory)
      ensures forall q: nat {:trigger m.Load(q)} :: m.Load(q) == if q == pa then w else Load(q)
    {
      Memory(words[pa := w])
    }
  }

  // ---------- translation ----------

  function Entry4(m: Memory, root: nat, v: VirtualAddress): nat {
    m.Load(Slot(root, v.pml4))
  }

  function Entry3(m: Memory, root: nat, v: VirtualAddress): nat {
    m.Load(Slot(FrameOf(Entry4(m, root, v)), v.pdpt))
  }

  function Entry2(m: Memory, root: nat, v: VirtualAddress): nat {
    m.Load(Slot(FrameOf(Entry3(m, root, v)), v.pd))
  }

  function Entry1(m: Memory, root: nat, v: VirtualAddress): nat {
    m.Load(Slot(FrameOf(Entry2(m, root, v)), v.pt))
  }

  /** The physical address that the processor reaches for v, or None for a page fault. */
  function Walk(m: Memory, root: nat, v: VirtualAddress): Option<nat> {
    var e4, e3, e2, e1 := Entry4(m, root, v), Entry3(m, root, v), Entry2(m, root, v), Entry1(m, root, v);
    if !Present(e4) || !Present(e3) then None
    else if Large(e3) then Some(FrameOf(e3) * FRAME_SIZE / PDPTE_COVERAGE * PDPTE_COVERAGE + v.pd * PDE_COVERAGE + v.pt * PTE_COVERAGE + v.offset)
    else if !Present(e2) then None
    else if Large(e2) then Some(FrameOf(e2) * FRAME_SIZE / PDE_COVERAGE * PDE_COVERAGE + v.pt * PTE_COVERAGE + v.offset)
    else if !Present(e1) then None
    else Some(FrameOf(e1) * FRAME_SIZE + v.offset)
  }

  function Translate(m: Memory, root: nat, va: nat): Option<nat> {
    Walk(m, root, Parse(va))
  }
}
