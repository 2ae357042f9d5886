/** The general mapping zone: physical ranges are mapped at the first run of unmapped pages that is
    long enough, and unmapped again. */
module GeneralMapping {
  import opened Common
  import opened PageTables
  import opened RecursiveWindows
  import opened TableTree
  import opened AddressSpace
  import opened AccessRights
  import opened Divisions

  const ZONE_START: nat := 0xFFFF_8001_3000_0000
  const ZONE_LIMIT: nat := PML4E_COVERAGE - 0x1_3000_0000
  const GP_PAGES: nat := ZONE_LIMIT / FRAME_SIZE

  /** The k-th page of the zone. */
  function ZonePage(k: nat): VirtualAddress {
    PageAt(ZONE_START, k)
  }

  /** The position of a page among all pages of the zone's slot in the root table. */
  function PageNumber(v: VirtualAddress): nat {
    (v.pdpt * ENTRIES + v.pd) * ENTRIES + v.pt
  }

  /** The zone lies in slot 256 of the root table, and its pages are different pages. */
  lemma ZonePageIndices(k: nat)
    requires k < GP_PAGES
    ensures ZonePage(k).pml4 == 256 && ZonePage(k).offset == 0 && Indices(ZonePage(k)) && Outside(ZonePage(k))
    ensures PageNumber(ZonePage(k)) == 0x1_3000_0000 / FRAME_SIZE + k
  {
    var n := 0x1_3000_0000 / FRAME_SIZE + k;
    var pdpt, pd, pt := n / ENTRIES / ENTRIES, n / ENTRIES % ENTRIES, n % ENTRIES;
    assert n == (pdpt * ENTRIES + pd) * ENTRIES + pt && pdpt < ENTRIES;
    LoopSlots(true);
    LoopSlots(false);
    hide Parse, LoopSlot;
    ParseComposed(0xFFFF, 256, pdpt, pd, pt, 0);
    assert ZonePage(k) == VirtualAddress(256, pdpt, pd, pt, 0);
  }

  lemma ZonePagesDiffer(j: nat, k: nat)
    requires j < GP_PAGES && k < GP_PAGES && SamePage(ZonePage(j), ZonePage(k))
    ensures j == k
  {
    ZonePageIndices(j);
    ZonePageIndices(k);
  }

  lemma ZoneAddress(k: nat, address: nat)
    requires address == ZONE_START + k * FRAME_SIZE
    ensures ZonePage(k) == Parse(address)
  {
  }

  /** All pages of the zone hang below the same entry of the root table. */
  lemma ZoneEntry4(m: Memory, root: nat, j: nat, k: nat)
    requires j < GP_PAGES && k < GP_PAGES
    ensures Entry4(m, root, ZonePage(j)) == Entry4(m, root, ZonePage(k))
  {
    ZonePageIndices(j);
    ZonePageIndices(k);
  }

  // ---------- runs of unmapped pages ----------

  predicate Unmapped(m: Memory, root: nat, k: nat) {
    Walk(m, root, ZonePage(k)) == None
  }

  ghost predicate IsRun(m: Memory, root: nat, first: nat, n: nat) {
    first + n <= GP_PAGES && forall j: nat :: first <= j < first + n ==> Unmapped(m, root, j)
  }

  ghost predicate IsFirstRun(m: Memory, root: nat, first: nat, n: nat) {
    IsRun(m, root, first, n) && forall k: nat :: k < first ==> !IsRun(m, root, k, n)
  }

  ghost predicate NoRunBefore(m: Memory, root: nat, n: nat, limit: nat) {
    forall k: nat :: k + n <= limit ==> !IsRun(m, root, k, n)
  }

  /** The zone is ready: its slot has a table, and no large page stands in it. */
  ghost predicate ZoneReady(m: Memory, root: nat) {
    && Present(Entry4(m, root, ZonePage(0)))
    && forall k: nat :: k < GP_PAGES ==> NoLargePage(m, root, ZonePage(k))
  }

  /** What the scan knows after i pages: the last found of them are unmapped and have their tables,
      the page before those is mapped, and no run of n pages lies among the first i. */
  ghost predicate Scanned(m0: Memory, m: Memory, root: nat, n: nat, i: nat, found: nat) {
    && found <= i <= GP_PAGES && found < n
    && (forall j: nat :: i - found <= j < i ==> Unmapped(m0, root, j) && TablesPresent(m, root, ZonePage(j)))
    && (found < i ==> !Unmapped(m0, root, i - found - 1))
    && NoRunBefore(m0, root, n, i)
  }

  lemma ScanMapped(m0: Memory, m: Memory, root: nat, n: nat, i: nat, found: nat)
    requires Scanned(m0, m, root, n, i, found) && i < GP_PAGES && !Unmapped(m0, root, i)
    ensures Scanned(m0, m, root, n, i + 1, 0)
  {
    hide Unmapped, TablesPresent;
    forall k: nat | k + n <= i + 1
      ensures !IsRun(m0, root, k, n)
    {
      assert k + n == i + 1 ==> k <= i < k + n;
    }
  }

  lemma ScanUnmapped(m0: Memory, m: Memory, root: nat, n: nat, i: nat, found: nat)
    requires Scanned(m0, m, root, n, i, found) && i < GP_PAGES && Unmapped(m0, root, i) && TablesPresent(m, root, ZonePage(i))
    ensures found + 1 < n ==> Scanned(m0, m, root, n, i + 1, found + 1)
    ensures found + 1 == n ==> IsFirstRun(m0, root, i - found, n)
  {
    hide Unmapped, TablesPresent;
    forall k: nat | k + n <= i + 1 && found + 1 < n
      ensures !IsRun(m0, root, k, n)
    {
      if k + n == i + 1 {
        assert k <= i - found - 1 < k + n;
      }
    }
    forall k: nat | k < i - found && found + 1 == n
      ensures !IsRun(m0, root, k, n)
    {
    }
  }

  lemma ScanKept(m0: Memory, m: Memory, m': Memory, root: nat, n: nat, i: nat, found: nat)
    requires Scanned(m0, m, root, n, i, found) && SameTranslations(m, m', root)
    ensures Scanned(m0, m', root, n, i, found)
  {
    forall j: nat | i - found <= j < i
      ensures TablesPresent(m', root, ZonePage(j))
    {
      ZonePageIndices(j);
    }
  }

  // ---------- entries of general mappings ----------

  /** Flag bits leave the address field alone. */
  predicate FlagsOnly(flags: nat) {
    flags / FRAME_SIZE % ADDRESS_FRAMES == 0
  }

  /** A present entry for a frame with the given flags. */
  function GeneralWord(address: nat, flags: nat): nat {
    address / FRAME_SIZE % ADDRESS_FRAMES * FRAME_SIZE + flags + (1 - flags % 2)
  }

  /** A word has the given flags on every bit outside the address field, but for the present bit. */
  predicate SameFlags(w: nat, flags: nat) {
    && w % FRAME_SIZE / 2 == flags % FRAME_SIZE / 2
    && w / (FRAME_SIZE * ADDRESS_FRAMES) == flags / (FRAME_SIZE * ADDRESS_FRAMES)
  }

  lemma GeneralWordFields(address: nat, flags: nat)
    requires FlagsOnly(flags)
    ensures Present(GeneralWord(address, flags)) && FrameOf(GeneralWord(address, flags)) == address / FRAME_SIZE % ADDRESS_FRAMES
    ensures SameFlags(GeneralWord(address, flags), flags)
  {
    var frame, high, low := address / FRAME_SIZE % ADDRESS_FRAMES, flags / FRAME_SIZE / ADDRESS_FRAMES, flags % FRAME_SIZE;
    FlagsSplit(flags);
    var word, odd := GeneralWord(address, flags), low + (1 - low % 2);
    assert word == (high * ADDRESS_FRAMES + frame) * FRAME_SIZE + odd;
    hide GeneralWord, FlagsOnly, SameFlags, Present, FrameOf;
    FlagsKept(word, flags, frame, high, low);
    FrameKept(high, frame, odd);
    LowestBit(high * ADDRESS_FRAMES + frame, odd);
  }

  lemma FlagsSplit(flags: nat)
    requires FlagsOnly(flags)
    ensures flags == flags / FRAME_SIZE / ADDRESS_FRAMES * ADDRESS_FRAMES * FRAME_SIZE + flags % FRAME_SIZE
    ensures flags % FRAME_SIZE % 2 == flags % 2
  {
    Quotient(flags, FRAME_SIZE);
    MultipleOfFrames(flags / FRAME_SIZE);
    Parity(flags);
  }

  lemma MultipleOfFrames(q: nat)
    requires q % ADDRESS_FRAMES == 0
    ensures q == q / ADDRESS_FRAMES * ADDRESS_FRAMES
  {
  }

  lemma Parity(n: nat)
    ensures n % FRAME_SIZE % 2 == n % 2
  {
  }

  lemma FrameKept(high: nat, frame: nat, low: nat)
    requires frame < ADDRESS_FRAMES && low < FRAME_SIZE
    ensures FrameOf((high * ADDRESS_FRAMES + frame) * FRAME_SIZE + low) == frame
  {
    Divides(high * ADDRESS_FRAMES + frame, low, FRAME_SIZE);
    Divides(high, frame, ADDRESS_FRAMES);
  }

  lemma FlagsKept(w: nat, flags: nat, frame: nat, high: nat, low: nat)
    requires frame < ADDRESS_FRAMES && low < FRAME_SIZE
    requires flags == high * ADDRESS_FRAMES * FRAME_SIZE + low
    requires w == (high * ADDRESS_FRAMES + frame) * FRAME_SIZE + (low + (1 - low % 2))
    ensures SameFlags(w, flags)
  {
    LowFlags(high * ADDRESS_FRAMES, high * ADDRESS_FRAMES + frame, low);
    HighFlags(high, low);
    HighFlags(high, frame * FRAME_SIZE + low + (1 - low % 2));
  }

  lemma LowFlags(p: nat, q: nat, low: nat)
    requires low < FRAME_SIZE
    ensures (p * FRAME_SIZE + low) % FRAME_SIZE / 2 == (q * FRAME_SIZE + low + (1 - low % 2)) % FRAME_SIZE / 2
  {
    Divides(p, low, FRAME_SIZE);
    Divides(q, low + (1 - low % 2), FRAME_SIZE);
  }

  lemma HighFlags(high: nat, rest: nat)
    requires rest < FRAME_SIZE * ADDRESS_FRAMES
    ensures (high * ADDRESS_FRAMES * FRAME_SIZE + rest) / (FRAME_SIZE * ADDRESS_FRAMES) == high
  {
    Divides(high, rest, FRAME_SIZE * ADDRESS_FRAMES);
  }

  /** From m to m' pages first, first + 1, ... were given the words; all other pages look the same. */
  ghost predicate RunSet(m: Memory, m': Memory, root: nat, first: nat, words: seq<nat>) {
    forall u :: Outside(u) ==> RunView(m, m', root, first, words, u)
  }

  ghost predicate RunView(m: Memory, m': Memory, root: nat, first: nat, words: seq<nat>, u: VirtualAddress) {
    && (forall k: nat :: first <= k < first + |words| && SamePage(u, ZonePage(k)) ==>
          Walk(m', root, u) == LeafTarget(words[k - first], u) && PTEOf(m', root, u) == words[k - first] && UpperView(m, m', root, u))
    && (!InRun(u, first, |words|) ==> SameView(m, m', root, u))
  }

  ghost predicate InRun(u: VirtualAddress, first: nat, n: nat) {
    exists k: nat :: first <= k < first + n && SamePage(u, ZonePage(k))
  }

  lemma RunSetNext(m: Memory, m': Memory, m'': Memory, root: nat, first: nat, words: seq<nat>, w: nat)
    requires first + |words| < GP_PAGES
    requires RunSet(m, m', root, first, words) && LeafSet(m', m'', root, ZonePage(first + |words|), w)
    ensures RunSet(m, m'', root, first, words + [w])
  {
    var next, words' := first + |words|, words + [w];
    hide Walk, PTEOf, NoLargePage, LeafTarget, Outside, TablesPresent, ZonePage;
    forall u | Outside(u)
      ensures RunView(m, m'', root, first, words', u)
    {
      assert RunView(m, m', root, first, words, u) && LeafView(m', m'', root, ZonePage(next), w, u);
      forall k: nat | first <= k <= next && SamePage(u, ZonePage(k))
        ensures Walk(m'', root, u) == LeafTarget(words'[k - first], u) && PTEOf(m'', root, u) == words'[k - first]
        ensures UpperView(m, m'', root, u)
      {
        if SamePage(u, ZonePage(next)) {
          ZonePagesDiffer(k, next);
        }
      }
      assert SamePage(u, ZonePage(next)) ==> InRun(u, first, |words'|);
    }
  }

  // ---------- mapping and unmapping ----------

  lemma ZoneReadyKept(m: Memory, m': Memory, root: nat)
    requires ZoneReady(m, root) && SameTranslations(m, m', root) && Present(Entry4(m', root, ZonePage(0)))
    ensures ZoneReady(m', root)
  {
    forall k: nat | k < GP_PAGES
      ensures NoLargePage(m', root, ZonePage(k))
    {
      ZonePageIndices(k);
    }
  }

  lemma ZoneReadyAfterLeaf(m: Memory, m': Memory, root: nat, first: nat, w: nat)
    requires ZoneReady(m, root) && first < GP_PAGES && LeafSet(m, m', root, ZonePage(first), w) && TablesPresent(m', root, ZonePage(first))
    ensures ZoneReady(m', root)
  {
    ZoneEntry4(m', root, 0, first);
    hide Walk, PTEOf, NoLargePage, LeafTarget, ZonePage;
    forall k: nat | k < GP_PAGES
      ensures NoLargePage(m', root, ZonePage(k))
    {
      ZonePageIndices(k);
      assert LeafView(m, m', root, ZonePage(first), w, ZonePage(k));
    }
  }

  /** Whether a page with tables is mapped can be read off its leaf entry. */
  lemma LeafDecides(m0: Memory, m: Memory, root: nat, k: nat)
    requires k < GP_PAGES && SameTranslations(m0, m, root) && TablesPresent(m, root, ZonePage(k)) && NoLargePage(m, root, ZonePage(k))
    ensures Unmapped(m0, root, k) <==> !Present(Entry1(m, root, ZonePage(k)))
  {
    ZonePageIndices(k);
    assert SameView(m0, m, root, ZonePage(k));
    hide Present, Large, FrameOf, ZonePage;
  }

  /** Only frames of the supply become tables. */
  ghost predicate NoneTaken(tables: Tables, supply: seq<nat>, tables': Tables, supply': seq<nat>) {
    forall f :: f in tables' || f in supply' ==> f in tables || f in supply
  }

  /** The tables on the way to the k-th page of the zone. */
  method EnsureZoneTables(mmu: MMU, address: nat, ghost k: nat) returns (ok: bool)
    requires mmu.Valid() && ZoneReady(mmu.mem, mmu.root) && k < GP_PAGES && address == ZONE_START + k * FRAME_SIZE
    modifies mmu
    ensures mmu.Valid() && ZoneReady(mmu.mem, mmu.root) && SameTranslations(old(mmu.mem), mmu.mem, mmu.root)
    ensures ok <==> TablesPresent(mmu.mem, mmu.root, ZonePage(k))
    ensures !ok ==> mmu.supply == []
    ensures NoneTaken(old(mmu.tables), old(mmu.supply), mmu.tables, mmu.supply)
    ensures Grown(old(mmu.mem), mmu.mem, mmu.root, false)
  {
    ghost var m0 := mmu.mem;
    ZonePageIndices(k);
    ZoneEntry4(m0, mmu.root, k, 0);
    EmptyIsNotPresent();
    EntryWordsAll();
    assert NoLargePage(m0, mmu.root, ZonePage(k));
    hide MMU.Valid, SameTranslations, Grown, IsTableEntry, Walk, Outside, Present, Large, Parse, EntryWord, GrownFrom, Entry4, Entry3, Entry2, Entry1, FrameOf, ZoneReady;
    assert ZonePage(k) == Parse(address);
    ok := mmu.EnsurePD(address, false);
    ghost var m1 := mmu.mem;
    if ok {
      ok := mmu.EnsurePT(address, false);
      SameTranslationsTwice(m0, m1, mmu.mem, mmu.root);
      GrownTwice(m0, m1, mmu.mem, mmu.root, false);
    }
    ZoneEntry4(mmu.mem, mmu.root, k, 0);
    ZoneReadyKept(m0, mmu.mem, mmu.root);
  }

  /** Makes the tables of the k-th page of the zone and reads whether the page is free.  m0 is a
      memory with the same translations. */
  method ProbePage(mmu: MMU, address: nat, ghost k: nat, ghost m0: Memory) returns (ok: bool, free: bool)
    requires mmu.Valid() && mmu.usePrimary && ZoneReady(mmu.mem, mmu.root) && k < GP_PAGES && address == ZONE_START + k * FRAME_SIZE
    requires SameTranslations(m0, mmu.mem, mmu.root)
    modifies mmu
    ensures mmu.Valid() && ZoneReady(mmu.mem, mmu.root)
    ensures SameTranslations(old(mmu.mem), mmu.mem, mmu.root) && SameTranslations(m0, mmu.mem, mmu.root)
    ensures NoneTaken(old(mmu.tables), old(mmu.supply), mmu.tables, mmu.supply) && Grown(old(mmu.mem), mmu.mem, mmu.root, false)
    ensures !ok ==> mmu.supply == [] && !TablesPresent(mmu.mem, mmu.root, ZonePage(k))
    ensures ok ==> TablesPresent(mmu.mem, mmu.root, ZonePage(k)) && (free <==> Unmapped(m0, mmu.root, k))
  {
    hide MMU.Valid, ZoneReady, SameTranslations, Grown, Unmapped, TablesPresent, PTEOf, Walk, Outside, Present, Large, NoLargePage, Parse;
    ghost var m := mmu.mem;
    free := false;
    ok := EnsureZoneTables(mmu, address, k);
    SameTranslationsTwice(m0, m, mmu.mem, mmu.root);
    if ok {
      ZoneTables(mmu, k);
      LeafDecides(m0, mmu.mem, mmu.root, k);
      free := !Present(mmu.Deref(GetPTEAddress(Parse(address), true)));
    }
  }

  ghost predicate RunHasTables(m: Memory, root: nat, first: nat, n: nat) {
    forall k: nat :: first <= k < first + n ==> TablesPresent(m, root, ZonePage(k))
  }

  lemma RunHasTablesAt(m: Memory, root: nat, first: nat, n: nat, k: nat)
    requires RunHasTables(m, root, first, n) && first <= k < first + n
    ensures TablesPresent(m, root, ZonePage(k))
  {
  }

  /** The first j entries of a run of n pages have been written since memory m0. */
  ghost predicate RunProgress(mmu: MMU, m0: Memory, first: nat, n: nat, pageAddress: nat, flags: nat, j: nat)
    reads mmu
  {
    && mmu.Valid() && ZoneReady(mmu.mem, mmu.root) && first + n <= GP_PAGES
    && RunHasTables(mmu.mem, mmu.root, first, n)
    && RunSet(m0, mmu.mem, mmu.root, first, GeneralWords(mmu.addressLimit, pageAddress, j, flags))
    && Grown(m0, mmu.mem, mmu.root, false)
  }

  /** Writes the next entry of a run; words are those written so far. */
  method MapRunPage(mmu: MMU, address: nat, w: nat, ghost m0: Memory, ghost first: nat, ghost n: nat, ghost words: seq<nat>)
    requires mmu.Valid() && ZoneReady(mmu.mem, mmu.root)
    requires |words| < n && first + n <= GP_PAGES && address == ZONE_START + (first + |words|) * FRAME_SIZE
    requires RunHasTables(mmu.mem, mmu.root, first, n) && RunSet(m0, mmu.mem, mmu.root, first, words)
    modifies mmu`mem
    ensures mmu.Valid() && ZoneReady(mmu.mem, mmu.root)
    ensures RunHasTables(mmu.mem, mmu.root, first, n) && RunSet(m0, mmu.mem, mmu.root, first, words + [w])
    ensures UpperKept(old(mmu.mem), mmu.mem, mmu.root)
  {
    hide DataKept, UpperKept, MMU.Valid, ZoneReady, RunSet, TablesPresent, LeafSet, Outside, Parse, ZonePage, Indices, PageNumber, RunHasTables, Entry1;
    ghost var m, k := mmu.mem, first + |words|;
    ZonePageIndices(k);
    RunHasTablesAt(m, mmu.root, first, n, k);
    ZoneAddress(k, address);
    mmu.SetPTE(address, w);
    RunStep(m0, m, mmu.mem, mmu.root, first, n, words, w);
  }

  lemma RunProgressed(mmu: MMU, m0: Memory, first: nat, n: nat, pageAddress: nat, flags: nat, j: nat, words: seq<nat>)
    requires mmu.Valid() && ZoneReady(mmu.mem, mmu.root) && first + n <= GP_PAGES
    requires RunHasTables(mmu.mem, mmu.root, first, n) && RunSet(m0, mmu.mem, mmu.root, first, words)
    requires words == GeneralWords(mmu.addressLimit, pageAddress, j, flags) && Grown(m0, mmu.mem, mmu.root, false)
    ensures RunProgress(mmu, m0, first, n, pageAddress, flags, j)
  {
    hide MMU.Valid, ZoneReady, RunSet, RunHasTables, GeneralWords, Grown;
  }

  method MapRunStep(mmu: MMU, address: nat, physicalAddress: nat, flags: nat,
                    ghost m0: Memory, ghost first: nat, ghost n: nat, ghost pageAddress: nat, ghost j: nat)
    requires j < n && RunProgress(mmu, m0, first, n, pageAddress, flags, j)
    requires address == ZONE_START + (first + j) * FRAME_SIZE && physicalAddress == pageAddress + j * FRAME_SIZE
    modifies mmu`mem
    ensures RunProgress(mmu, m0, first, n, pageAddress, flags, j + 1)
  {
    GeneralWordsNext(mmu.addressLimit, pageAddress, flags, j, physicalAddress);
    ghost var words := GeneralWords(mmu.addressLimit, pageAddress, j, flags);
    hide MMU.Valid, Filtered, ZoneReady, RunSet, RunHasTables, GeneralWord, GeneralWords, Grown, UpperKept;
    ghost var m := mmu.mem;
    var w := GeneralWord(mmu.FilterAddress(physicalAddress), flags);
    MapRunPage(mmu, address, w, m0, first, n, words);
    UpperKeptGrown(m, mmu.mem, mmu.root, false);
    GrownTwice(m0, m, mmu.mem, mmu.root, false);
    RunProgressed(mmu, m0, first, n, pageAddress, flags, j + 1, words + [w]);
  }

  /** Writes the entries of a run, whose tables are all there. */
  method MapRun(mmu: MMU, start: nat, pageAddress: nat, pages: nat, flags: nat, ghost first: nat)
    requires mmu.Valid() && ZoneReady(mmu.mem, mmu.root)
    requires first + pages <= GP_PAGES && start == ZONE_START + first * FRAME_SIZE
    requires RunHasTables(mmu.mem, mmu.root, first, pages)
    modifies mmu`mem
    ensures mmu.Valid() && ZoneReady(mmu.mem, mmu.root)
    ensures RunSet(old(mmu.mem), mmu.mem, mmu.root, first, GeneralWords(mmu.addressLimit, pageAddress, pages, flags))
    ensures RunHasTables(mmu.mem, mmu.root, first, pages) && Grown(old(mmu.mem), mmu.mem, mmu.root, false)
  {
    var address := start;
    var physicalAddress := pageAddress;
    var j := 0;
    ghost var m0 := mmu.mem;
    RunSetStart(m0, mmu.root, first);
    GeneralWordsNext(mmu.addressLimit, pageAddress, flags, 0, pageAddress);
    GrownSelf(m0, mmu.root, false);
    hide Grown;
    assert RunProgress(mmu, m0, first, pages, pageAddress, flags, 0);
    hide RunProgress;
    while j < pages
      invariant j <= pages && address == start + j * FRAME_SIZE && physicalAddress == pageAddress + j * FRAME_SIZE
      invariant RunProgress(mmu, m0, first, pages, pageAddress, flags, j)
    {
      MapRunStep(mmu, address, physicalAddress, flags, m0, first, pages, pageAddress, j);
      address := address + FRAME_SIZE;
      physicalAddress := physicalAddress + FRAME_SIZE;
      j := j + 1;
    }
    assert RunProgress(mmu, m0, first, pages, pageAddress, flags, pages);
    RunFinished(mmu, m0, first, pages, pageAddress, flags);
  }

  lemma RunFinished(mmu: MMU, m0: Memory, first: nat, n: nat, pageAddress: nat, flags: nat)
    requires RunProgress(mmu, m0, first, n, pageAddress, flags, n)
    ensures mmu.Valid() && ZoneReady(mmu.mem, mmu.root)
    ensures RunSet(m0, mmu.mem, mmu.root, first, GeneralWords(mmu.addressLimit, pageAddress, n, flags)) && RunHasTables(mmu.mem, mmu.root, first, n)
    ensures Grown(m0, mmu.mem, mmu.root, false)
  {
    hide Grown, RunSet, RunHasTables, ZoneReady;
  }

  lemma GeneralWordsNext(limit: nat, pageAddress: nat, flags: nat, j: nat, physicalAddress: nat)
    requires limit > 0 && physicalAddress == pageAddress + j * FRAME_SIZE
    ensures GeneralWords(limit, pageAddress, 0, flags) == [] && |GeneralWords(limit, pageAddress, j, flags)| == j
    ensures GeneralWords(limit, pageAddress, j + 1, flags)
            == GeneralWords(limit, pageAddress, j, flags) + [GeneralWord(Filtered(limit, physicalAddress), flags)]
  {
  }

  /** One more entry of the run. */
  lemma RunStep(m0: Memory, m: Memory, m': Memory, root: nat, first: nat, n: nat, words: seq<nat>, w: nat)
    requires |words| < n && first + n <= GP_PAGES && ZoneReady(m, root) && RunSet(m0, m, root, first, words)
    requires RunHasTables(m, root, first, n)
    requires LeafSet(m, m', root, ZonePage(first + |words|), w) && TablesPresent(m', root, ZonePage(first + |words|))
    ensures RunSet(m0, m', root, first, words + [w]) && ZoneReady(m', root)
    ensures RunHasTables(m', root, first, n)
  {
    hide ZoneReady, RunSet, TablesPresent, LeafSet, ZonePage, RunHasTables;
    RunSetNext(m0, m, m', root, first, words, w);
    ZoneReadyAfterLeaf(m, m', root, first + |words|, w);
    TablesAfterLeaf(m, m', root, first, n, first + |words|, w);
  }

  lemma RunSetStart(m: Memory, root: nat, first: nat)
    ensures RunSet(m, m, root, first, [])
  {
  }

  lemma TablesAfterLeaf(m: Memory, m': Memory, root: nat, first: nat, n: nat, at: nat, w: nat)
    requires first + n <= GP_PAGES && LeafSet(m, m', root, ZonePage(at), w)
    requires RunHasTables(m, root, first, n)
    ensures RunHasTables(m', root, first, n)
  {
    hide Walk, PTEOf, NoLargePage, LeafTarget, ZonePage, TablesPresent;
    forall k: nat | first <= k < first + n
      ensures TablesPresent(m', root, ZonePage(k))
    {
      ZonePageIndices(k);
      assert LeafView(m, m', root, ZonePage(at), w, ZonePage(k));
    }
  }

  method MapFoundRun(mmu: MMU, start: nat, pageAddress: nat, pages: nat, flags: nat, ghost first: nat, ghost m0: Memory)
    requires mmu.Valid() && ZoneReady(mmu.mem, mmu.root) && SameTranslations(m0, mmu.mem, mmu.root) && Grown(m0, mmu.mem, mmu.root, false)
    requires first + pages <= GP_PAGES && start == ZONE_START + first * FRAME_SIZE && RunHasTables(mmu.mem, mmu.root, first, pages)
    requires FlagsOnly(flags)
    modifies mmu`mem
    ensures mmu.Valid() && ZoneReady(mmu.mem, mmu.root) && RunHasTables(mmu.mem, mmu.root, first, pages)
    ensures RunSet(m0, mmu.mem, mmu.root, first, GeneralWords(mmu.addressLimit, pageAddress, pages, flags))
    ensures Grown(m0, mmu.mem, mmu.root, false) && HasFlags(mmu.mem, mmu.root, first, pages, flags)
  {
    ghost var m1 := mmu.mem;
    hide MMU.Valid, ZoneReady, SameTranslations, Grown, HasFlags, FlagsOnly, RunSet, RunHasTables, GeneralWords;
    MapRun(mmu, start, pageAddress, pages, flags, first);
    RunSetAfter(m0, m1, mmu.mem, mmu.root, first, GeneralWords(mmu.addressLimit, pageAddress, pages, flags));
    GrownTwice(m0, m1, mmu.mem, mmu.root, false);
    RunHasFlags(m0, mmu.mem, mmu.root, first, pages, mmu.addressLimit, pageAddress, flags);
  }

  /** The leaf entries of a run of pages are present and have the given flags, as far as those do not
      reach into the address. */
  predicate HasFlags(m: Memory, root: nat, first: nat, n: nat, flags: nat) {
    forall k: nat :: first <= k < first + n ==> Present(PTEOf(m, root, ZonePage(k))) && SameFlags(PTEOf(m, root, ZonePage(k)), flags)
  }

  lemma RunHasFlags(m: Memory, m': Memory, root: nat, first: nat, n: nat, limit: nat, pageAddress: nat, flags: nat)
    requires limit > 0 && first + n <= GP_PAGES && FlagsOnly(flags)
    requires RunSet(m, m', root, first, GeneralWords(limit, pageAddress, n, flags))
    ensures HasFlags(m', root, first, n, flags)
  {
    hide PTEOf, SameFlags, FlagsOnly, GeneralWord, ZonePage, Present, RunSet;
    var words := GeneralWords(limit, pageAddress, n, flags);
    forall k: nat | first <= k < first + n
      ensures Present(PTEOf(m', root, ZonePage(k))) && SameFlags(PTEOf(m', root, ZonePage(k)), flags)
    {
      EntryOfRun(m, m', root, first, words, k);
      GeneralWordFields(Filtered(limit, pageAddress + (k - first) * FRAME_SIZE), flags);
    }
  }

  /** The leaf entries of a run are the words that were written. */
  lemma EntryOfRun(m: Memory, m': Memory, root: nat, first: nat, words: seq<nat>, k: nat)
    requires RunSet(m, m', root, first, words) && first <= k < first + |words| && first + |words| <= GP_PAGES
    ensures PTEOf(m', root, ZonePage(k)) == words[k - first]
  {
    ZonePageIndices(k);
    hide Walk, PTEOf, LeafTarget, UpperView, SameView, InRun, ZonePage, Outside;
    assert RunView(m, m', root, first, words, ZonePage(k));
    assert SamePage(ZonePage(k), ZonePage(k));
  }

  /** Maps a physical range at the first run of unmapped pages of the zone that is long enough.
      first is the number of the run's first page.  exhausted says that there was no frame for a table
      of page first, before a run was found. */
  method MapGeneralPages(mmu: MMU, pageAddress: nat, pages: nat, flags: nat) returns (result: Option<nat>, ghost exhausted: bool, ghost first: nat)
    requires mmu.Valid() && mmu.usePrimary && mmu.root == mmu.cr3
    requires ZoneReady(mmu.mem, mmu.root) && FlagsOnly(flags)
    modifies mmu
    ensures mmu.Valid() && ZoneReady(mmu.mem, mmu.root)
    ensures NoneTaken(old(mmu.tables), old(mmu.supply), mmu.tables, mmu.supply) && Grown(old(mmu.mem), mmu.mem, mmu.root, false)
    ensures result.None? ==> SameTranslations(old(mmu.mem), mmu.mem, mmu.root)
    ensures exhausted ==>
              && result.None? && mmu.supply == [] && first < GP_PAGES
              && NoRunBefore(old(mmu.mem), mmu.root, pages, first) && !TablesPresent(mmu.mem, mmu.root, ZonePage(first))
    ensures result.None? && !exhausted && pages > 0 ==> NoRunBefore(old(mmu.mem), mmu.root, pages, GP_PAGES)
    ensures result.Some? ==>
              && pages > 0 && IsFirstRun(old(mmu.mem), mmu.root, first, pages)
              && result.value == ZONE_START + first * FRAME_SIZE + pageAddress % FRAME_SIZE
              && RunSet(old(mmu.mem), mmu.mem, mmu.root, first, GeneralWords(mmu.addressLimit, pageAddress, pages, flags))
              && RunHasTables(mmu.mem, mmu.root, first, pages) && HasFlags(mmu.mem, mmu.root, first, pages, flags)
  {
    hide Grown, HasFlags;
    hide MMU.Valid, ZoneReady, SameTranslations, Scanned, IsRun, IsFirstRun, RunSet, RunHasTables, Unmapped, NoRunBefore, TablesPresent, PTEOf, Walk, LeafSet;
    hide Outside, Present, Large, NoLargePage, GrownFrom, GeneralWords, Parse, FlagsOnly, ZonePage;
    exhausted, first := false, 0;
    SameTranslationsSelf(mmu.mem, mmu.root);
    GrownSelf(mmu.mem, mmu.root, false);
    if pages == 0 {
      return None, false, 0;
    }

    var address := ZONE_START;
    var found := 0;
    var start := 0;
    var i := 0;
    ghost var m0 := mmu.mem;
    ScanStart(m0, mmu.root, pages);

    while i < GP_PAGES
      invariant i <= GP_PAGES && address == ZONE_START + i * FRAME_SIZE
      invariant mmu.Valid() && ZoneReady(mmu.mem, mmu.root) && SameTranslations(m0, mmu.mem, mmu.root)
      invariant Scanned(m0, mmu.mem, mmu.root, pages, i, found) && found < pages && found <= i
      invariant NoneTaken(old(mmu.tables), old(mmu.supply), mmu.tables, mmu.supply) && Grown(m0, mmu.mem, mmu.root, false)
      invariant found > 0 ==> start == ZONE_START + (i - found) * FRAME_SIZE
    {
      ghost var m := mmu.mem;
      var ok, free := ProbePage(mmu, address, i, m0);
      GrownTwice(m0, m, mmu.mem, mmu.root, false);
      ScanKept(m0, m, mmu.mem, mmu.root, pages, i, found);
      if !ok {
        ScanEnd(m0, mmu.mem, mmu.root, pages, i, found);
        return None, true, i;
      }

      if free {
        ScanUnmapped(m0, mmu.mem, mmu.root, pages, i, found);
        if found == 0 {
          start := address;
        }
        found := found + 1;
        if found == pages {
          first := i + 1 - found;
          RunTables(m0, mmu.mem, mmu.root, pages, i, found - 1);
          MapFoundRun(mmu, start, pageAddress, pages, flags, first, m0);
          return Some(start + pageAddress % FRAME_SIZE), false, first;
        }
      } else {
        ScanMapped(m0, mmu.mem, mmu.root, pages, i, found);
        found := 0;
        start := 0;
      }
      address := address + FRAME_SIZE;
      i := i + 1;
    }
    ScanEnd(m0, mmu.mem, mmu.root, pages, i, found);
    return None, false, 0;
  }

  lemma ScanStart(m: Memory, root: nat, n: nat)
    requires n > 0
    ensures Scanned(m, m, root, n, 0, 0)
  {
  }

  lemma ScanEnd(m0: Memory, m: Memory, root: nat, n: nat, i: nat, found: nat)
    requires Scanned(m0, m, root, n, i, found)
    ensures NoRunBefore(m0, root, n, i)
  {
  }

  lemma RunTables(m0: Memory, m: Memory, root: nat, n: nat, i: nat, found: nat)
    requires Scanned(m0, m, root, n, i, found) && i < GP_PAGES && found + 1 == n && TablesPresent(m, root, ZonePage(i))
    ensures RunHasTables(m, root, i - found, n)
  {
    hide TablesPresent, Unmapped;
  }

  lemma ZoneTables(mmu: MMU, k: nat)
    requires mmu.Valid() && mmu.usePrimary && ZoneReady(mmu.mem, mmu.root) && k < GP_PAGES && TablesPresent(mmu.mem, mmu.root, ZonePage(k))
    ensures NoLargePage(mmu.mem, mmu.root, ZonePage(k))
    ensures var pte := Translate(mmu.mem, mmu.cr3, GetPTEAddress(ZonePage(k), true));
            pte.Some? && mmu.mem.Load(pte.value) == Entry1(mmu.mem, mmu.root, ZonePage(k))
  {
    ZonePageIndices(k);
    mmu.DerefEntries(ZONE_START + k * FRAME_SIZE);
  }

  lemma RunSetAfter(m0: Memory, m1: Memory, m2: Memory, root: nat, first: nat, words: seq<nat>)
    requires SameTranslations(m0, m1, root) && RunSet(m1, m2, root, first, words)
    ensures RunSet(m0, m2, root, first, words)
  {
    hide Walk, PTEOf, NoLargePage, LeafTarget, TablesPresent, Outside, InRun, ZonePage;
    forall u | Outside(u)
      ensures RunView(m0, m2, root, first, words, u)
    {
      assert RunView(m1, m2, root, first, words, u) && SameView(m0, m1, root, u);
    }
  }

  /** The word of the j-th page of a mapped run. */
  function RunWord(limit: nat, pageAddress: nat, flags: nat, j: nat): nat
    requires limit > 0
  {
    GeneralWord(Filtered(limit, pageAddress + j * FRAME_SIZE), flags)
  }

  /** The words of a mapped run. */
  ghost function GeneralWords(limit: nat, pageAddress: nat, pages: nat, flags: nat): seq<nat>
    requires limit > 0
  {
    seq(pages, (j: nat) => RunWord(limit, pageAddress, flags, j))
  }

  // ---------- unmapping ----------

  /** What the unmapping loop reads without asking: the second- and third-level entries of the pages. */
  ghost predicate Readable(m: Memory, root: nat, start: nat, pages: nat) {
    forall k: nat :: k < pages ==> ReadablePage(m, root, PageAt(start, k))
  }

  predicate ReadablePage(m: Memory, root: nat, v: VirtualAddress) {
    Outside(v) && Present(Entry4(m, root, v)) && Present(Entry3(m, root, v)) && NoLargePage(m, root, v)
  }

  /** Clears the entries of a range of pages.  done is how many were cleared before a page without
      a page table was met. */
  method UnmapGeneralPages(mmu: MMU, vpage: nat, pages: nat) returns (ok: bool, ghost done: nat)
    requires mmu.Valid() && Readable(mmu.mem, mmu.root, vpage, pages)
    modifies mmu`mem
    ensures mmu.Valid() && done <= pages && (ok <==> done == pages)
    ensures RangeSet(old(mmu.mem), mmu.mem, mmu.root, vpage, done, 0) && DataKept(old(mmu.mem), mmu.mem, mmu.tables)
    ensures !ok ==> !TablesPresent(mmu.mem, mmu.root, PageAt(vpage, done))
  {
    done := 0;
    RangeSetNothing(mmu.mem, mmu.root, vpage, 0);
    if pages == 0 {
      return true, 0;
    }
    var address := vpage;
    var i := 0;
    ghost var m0 := mmu.mem;
    hide DataKept, MMU.Valid, RangeSet, Readable, TablesPresent, LeafSet, UpperKept, Parse, Walk, PTEOf;
    while i < pages
      invariant i <= pages && address == vpage + i * FRAME_SIZE && done == i
      invariant mmu.Valid() && Readable(mmu.mem, mmu.root, vpage, pages)
      invariant RangeSet(m0, mmu.mem, mmu.root, vpage, i, 0) && DataKept(m0, mmu.mem, mmu.tables)
    {
      ghost var m := mmu.mem;
      ok := UnmapPage(mmu, address, m0, vpage, pages, i);
      DataKeptTwice(m0, m, mmu.mem, mmu.tables);
      if !ok {
        return;
      }
      address := address + FRAME_SIZE;
      i := i + 1;
      done := i;
    }
    ok := true;
  }

  /** One round of the unmapping loop. */
  method UnmapPage(mmu: MMU, address: nat, ghost m0: Memory, ghost vpage: nat, ghost pages: nat, ghost i: nat) returns (ok: bool)
    requires mmu.Valid() && i < pages && Readable(mmu.mem, mmu.root, vpage, pages) && address == vpage + i * FRAME_SIZE
    requires RangeSet(m0, mmu.mem, mmu.root, vpage, i, 0)
    modifies mmu`mem
    ensures mmu.Valid() && Readable(mmu.mem, mmu.root, vpage, pages) && DataKept(old(mmu.mem), mmu.mem, mmu.tables)
    ensures if ok then RangeSet(m0, mmu.mem, mmu.root, vpage, i + 1, 0)
            else !TablesPresent(mmu.mem, mmu.root, PageAt(vpage, i)) && mmu.mem == old(mmu.mem)
  {
    var mapping := Parse(address);
    ghost var m, v := mmu.mem, PageAt(vpage, i);
    assert v == mapping && ReadablePage(m, mmu.root, v);
    mmu.DerefEntries(address);
    hide DataKept, MMU.Valid, RangeSet, Readable, LeafSet, UpperKept, Parse, Walk, PTEOf, Present, Large, FrameOf, Slot, PageAt,
         GetPML4EAddress, GetPDPTEAddress, GetPDEAddress;
    if !Present(mmu.Deref(GetPML4EAddress(mapping, mmu.usePrimary))) || !Present(mmu.Deref(GetPDPTEAddress(mapping, mmu.usePrimary)))
       || !Present(mmu.Deref(GetPDEAddress(mapping, mmu.usePrimary))) {
      return false;
    }
    mmu.SetPTE(address, 0);
    RangeSetNext(m0, m, mmu.mem, mmu.root, vpage, i, 0);
    ok := true;
  }

  // ---------- what a mapped range looks like, and unmapping it ----------

  lemma FilteredFrame(limit: nat, pageAddress: nat, k: nat, pages: nat)
    requires 0 < limit <= ADDRESS_FRAMES * FRAME_SIZE && k < pages && pageAddress + pages * FRAME_SIZE <= limit
    ensures Filtered(limit, pageAddress + k * FRAME_SIZE) / FRAME_SIZE % ADDRESS_FRAMES == pageAddress / FRAME_SIZE + k
  {
    var p, q := pageAddress + k * FRAME_SIZE, pageAddress / FRAME_SIZE + k;
    SmallModulo(p, limit);
    assert p / FRAME_SIZE == q;
    SmallModulo(q, ADDRESS_FRAMES);
  }

  /** A page of a mapped run translates to its frame. */
  lemma MappedPageTranslates(m: Memory, m': Memory, root: nat, first: nat, words: seq<nat>, k: nat, o: nat)
    requires k < |words| && first + |words| <= GP_PAGES && o < FRAME_SIZE && RunSet(m, m', root, first, words)
    requires Present(words[k])
    ensures Translate(m', root, ZONE_START + (first + k) * FRAME_SIZE + o) == Some(FrameOf(words[k]) * FRAME_SIZE + o)
  {
    hide Parse, Present, FrameOf, Walk, PageNumber;
    var u := ZonePage(first + k).(offset := o);
    ParseInPage(ZONE_START + (first + k) * FRAME_SIZE, o);
    ZonePageIndices(first + k);
    assert RunView(m, m', root, first, words, u);
    assert SamePage(u, ZonePage(first + k));
  }

  /** The words map consecutive frames. */
  predicate Consecutive(words: seq<nat>, frame: nat) {
    forall k: nat :: k < |words| ==> Present(words[k]) && FrameOf(words[k]) == frame + k
  }

  lemma RangeWords(limit: nat, pageAddress: nat, pages: nat, flags: nat)
    requires 0 < limit <= ADDRESS_FRAMES * FRAME_SIZE && FlagsOnly(flags) && pageAddress + pages * FRAME_SIZE <= limit
    ensures |GeneralWords(limit, pageAddress, pages, flags)| == pages
    ensures Consecutive(GeneralWords(limit, pageAddress, pages, flags), pageAddress / FRAME_SIZE)
  {
    forall k: nat | k < pages
      ensures Present(GeneralWords(limit, pageAddress, pages, flags)[k])
      ensures FrameOf(GeneralWords(limit, pageAddress, pages, flags)[k]) == pageAddress / FRAME_SIZE + k
    {
      FilteredFrame(limit, pageAddress, k, pages);
      GeneralWordFields(Filtered(limit, pageAddress + k * FRAME_SIZE), flags);
      hide Filtered, GeneralWord, FlagsOnly, Present, FrameOf;
    }
  }

  lemma ConsecutiveTranslates(m: Memory, m': Memory, root: nat, first: nat, words: seq<nat>, frame: nat, d: nat)
    requires first + |words| <= GP_PAGES && d < |words| * FRAME_SIZE && RunSet(m, m', root, first, words) && Consecutive(words, frame)
    ensures Translate(m', root, ZONE_START + first * FRAME_SIZE + d) == Some(frame * FRAME_SIZE + d)
  {
    var k, o := d / FRAME_SIZE, d % FRAME_SIZE;
    hide RunSet, Translate, Present, FrameOf;
    MappedPageTranslates(m, m', root, first, words, k, o);
  }

  /** Every byte of a mapped range translates to the byte of the physical range at the same distance
      from its start. */
  lemma MappedRangeTranslates(limit: nat, m: Memory, m': Memory, root: nat, first: nat, pageAddress: nat, pages: nat, flags: nat, b: nat)
    requires 0 < limit <= ADDRESS_FRAMES * FRAME_SIZE && first + pages <= GP_PAGES && FlagsOnly(flags)
    requires pageAddress + pages * FRAME_SIZE <= limit && pageAddress % FRAME_SIZE + b < pages * FRAME_SIZE
    requires RunSet(m, m', root, first, GeneralWords(limit, pageAddress, pages, flags))
    ensures Translate(m', root, ZONE_START + first * FRAME_SIZE + pageAddress % FRAME_SIZE + b) == Some(pageAddress + b)
  {
    hide Filtered, FlagsOnly, RunSet, GeneralWords, Consecutive, Translate, Parse;
    RangeWords(limit, pageAddress, pages, flags);
    var frame, o := pageAddress / FRAME_SIZE, pageAddress % FRAME_SIZE;
    assert pageAddress == frame * FRAME_SIZE + o;
    ConsecutiveTranslates(m, m', root, first, GeneralWords(limit, pageAddress, pages, flags), frame, o + b);
    assert ZONE_START + first * FRAME_SIZE + (o + b) == ZONE_START + first * FRAME_SIZE + o + b;
  }

  lemma RunFromOffset(first: nat, n: nat, vpage: nat, k: nat)
    requires k < n && first + n <= GP_PAGES
    requires ZONE_START + first * FRAME_SIZE <= vpage < ZONE_START + (first + 1) * FRAME_SIZE
    ensures SamePage(PageAt(vpage, k), ZonePage(first + k))
  {
    var d := vpage - ZONE_START - first * FRAME_SIZE;
    assert vpage + k * FRAME_SIZE == ZONE_START + (first + k) * FRAME_SIZE + d;
    ParseInPage(ZONE_START + (first + k) * FRAME_SIZE, d);
  }

  lemma FaultsTogether(m: Memory, root: nat, u: VirtualAddress, v: VirtualAddress)
    requires SamePage(u, v)
    ensures Walk(m, root, u) == None <==> Walk(m, root, v) == None
  {
    hide Present, Large, FrameOf, Slot;
  }

  /** Unmapping the pages a range was mapped to restores every translation. */
  lemma UnmapRestores(m0: Memory, m1: Memory, m2: Memory, root: nat, first: nat, words: seq<nat>, vpage: nat, u: VirtualAddress)
    requires IsRun(m0, root, first, |words|) && ZONE_START + first * FRAME_SIZE <= vpage < ZONE_START + (first + 1) * FRAME_SIZE
    requires RunSet(m0, m1, root, first, words) && RangeSet(m1, m2, root, vpage, |words|, 0) && Outside(u)
    ensures Walk(m2, root, u) == Walk(m0, root, u)
  {
    var n := |words|;
    EmptyIsNotPresent();
    forall k: nat | k < n
      ensures SamePage(PageAt(vpage, k), ZonePage(first + k))
    {
      RunFromOffset(first, n, vpage, k);
    }
    hide Walk, PTEOf, NoLargePage, TablesPresent, Outside, PageAt, ZonePage, Present;
    assert RunView(m0, m1, root, first, words, u);
    if InRange(u, vpage, n) {
      var k: nat :| k < n && SamePage(u, PageAt(vpage, k));
      assert Unmapped(m0, root, first + k);
      FaultsTogether(m0, root, u, ZonePage(first + k));
    } else if InRun(u, first, n) {
      var k: nat :| first <= k < first + n && SamePage(u, ZonePage(k));
      assert SamePage(PageAt(vpage, k - first), ZonePage(first + (k - first)));
    }
  }

  /** And every right. */
  lemma UnmapRestoresRights(m0: Memory, m1: Memory, m2: Memory, root: nat, first: nat, words: seq<nat>, vpage: nat, u: VirtualAddress)
    requires IsRun(m0, root, first, |words|) && ZONE_START + first * FRAME_SIZE <= vpage < ZONE_START + (first + 1) * FRAME_SIZE
    requires RunSet(m0, m1, root, first, words) && RangeSet(m1, m2, root, vpage, |words|, 0) && Outside(u)
    ensures SameRights(m0, m2, root, u)
  {
    UnmapRestores(m0, m1, m2, root, first, words, vpage, u);
    EmptyIsNotPresent();
    var n := |words|;
    forall k: nat | k < n
      ensures SamePage(PageAt(vpage, k), ZonePage(first + k))
    {
      RunFromOffset(first, n, vpage, k);
    }
    hide Walk, PTEOf, NoLargePage, TablesPresent, Outside, PageAt, ZonePage, Present, SameRights, IsRun, UpperView;
    assert RunView(m0, m1, root, first, words, u);
    if InRange(u, vpage, n) {
      assert Walk(m2, root, u).None?;
      UnmappedAllowsNothing(m0, m2, root, u);
    } else {
      RangeOfRun(first, n, vpage, u);
      SameViewAllows(m0, m1, root, u);
      SameViewAllows(m1, m2, root, u);
      SameRightsTwice(m0, m1, m2, root, u);
    }
  }

  lemma RangeOfRun(first: nat, n: nat, vpage: nat, u: VirtualAddress)
    requires forall k: nat :: k < n ==> SamePage(PageAt(vpage, k), ZonePage(first + k))
    ensures InRun(u, first, n) ==> InRange(u, vpage, n)
  {
    hide PageAt, ZonePage;
    if InRun(u, first, n) {
      var k: nat :| first <= k < first + n && SamePage(u, ZonePage(k));
      assert SamePage(PageAt(vpage, k - first), ZonePage(first + (k - first)));
    }
  }

  lemma UnmappedAllowsNothing(m: Memory, m': Memory, root: nat, u: VirtualAddress)
    requires Walk(m, root, u).None? && Walk(m', root, u).None?
    ensures SameRights(m, m', root, u)
  {
    AllowsIsMapped(m, root, u, READWRITE);
    AllowsIsMapped(m, root, u, USERMODE);
    AllowsIsMapped(m', root, u, READWRITE);
    AllowsIsMapped(m', root, u, USERMODE);
    hide Walk, Allows;
  }

  lemma SameRightsTwice(m: Memory, m': Memory, m'': Memory, root: nat, u: VirtualAddress)
    requires SameRights(m, m', root, u) && SameRights(m', m'', root, u)
    ensures SameRights(m, m'', root, u)
  {
    hide Allows;
  }

  /** Pages that were given tables by mapping can all be unmapped again. */
  lemma MappedIsReadable(m: Memory, root: nat, first: nat, n: nat, vpage: nat)
    requires ZoneReady(m, root) && RunHasTables(m, root, first, n) && first + n <= GP_PAGES
    requires ZONE_START + first * FRAME_SIZE <= vpage < ZONE_START + (first + 1) * FRAME_SIZE
    ensures Readable(m, root, vpage, n) && forall k: nat :: k < n ==> TablesPresent(m, root, PageAt(vpage, k))
  {
    forall k: nat | k < n
      ensures ReadablePage(m, root, PageAt(vpage, k)) && TablesPresent(m, root, PageAt(vpage, k))
    {
      RunFromOffset(first, n, vpage, k);
      ZonePageIndices(first + k);
      hide PageAt, ZonePage, Present, Large, FrameOf, Slot;
    }
  }

}
