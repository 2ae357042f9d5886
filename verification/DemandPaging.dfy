/** Demand paging over whole runs of reservations and faults: which pages are reserved, which have
    got a frame, and that no frame serves two pages. */
module DemandPaging {
  import opened Common
  import opened Divisions
  import opened PageTables
  import opened RecursiveWindows
  import opened TableTree
  import opened AddressSpace
  import opened AccessRights

  /** A page, named by its address with offset 0. */
  type Page = VirtualAddress

  function PageOf(v: VirtualAddress): Page {
    v.(offset := 0)
  }

  /** The frame behind a page that has faulted, and whether user mode may access it. */
  datatype Backing = Backing(frame: nat, user: bool)

  lemma OnDemandIsAbsent(user: bool)
    ensures !Present(OnDemandWord(user)) && ProtectionKey(OnDemandWord(user)) == 0 && OnDemandWord(user) != 0
    ensures Bit(OnDemandWord(user), NP_ON_DEMAND) && Bit(OnDemandWord(user), NP_READWRITE)
    ensures Bit(OnDemandWord(user), NP_USERMODE) == user
  {
  }

  lemma FaultedWord(user: bool, page: nat)
    ensures ProtectionKey(OnDemandWord(user)) == 0
    ensures FaultWord(OnDemandWord(user), page) == EntryWord(page, user)
  {
    assert OnDemandWord(user) == if user then 0x806 else 0x802;
  }

  lemma OnDemandBit(frame: nat, low: nat)
    requires low < 8
    ensures !Bit(frame * FRAME_SIZE + low, NP_ON_DEMAND)
  {
    Divides(2 * frame, low, NP_ON_DEMAND);
  }

  lemma KeyBits(frame: nat, low: nat)
    requires low < 8
    ensures ProtectionKey(frame * FRAME_SIZE + low) == 0
  {
    Divides(32 * frame, low, 0x80);
  }

  /** The entry of a page after its first fault: its frame, and the access bits it was reserved with. */
  lemma BackedWord(user: bool, frame: nat)
    requires frame < ADDRESS_FRAMES
    ensures ProtectionKey(OnDemandWord(user)) == 0
    ensures FaultWord(OnDemandWord(user), frame * FRAME_SIZE) == EntryWord(frame * FRAME_SIZE, user)
    ensures Present(EntryWord(frame * FRAME_SIZE, user)) && FrameOf(EntryWord(frame * FRAME_SIZE, user)) == frame
    ensures !Bit(EntryWord(frame * FRAME_SIZE, user), NP_ON_DEMAND) && ProtectionKey(EntryWord(frame * FRAME_SIZE, user)) == 0
  {
    hide FaultWord, OnDemandWord, Present, FrameOf, Bit, ProtectionKey;
    var low := PRESENT + READWRITE + if user then USERMODE else 0;
    FaultedWord(user, frame * FRAME_SIZE);
    SmallModulo(frame, ADDRESS_FRAMES);
    assert EntryWord(frame * FRAME_SIZE, user) == frame * FRAME_SIZE + low;
    LowestBit(frame, low);
    FrameBits(frame, low);
    OnDemandBit(frame, low);
    KeyBits(frame, low);
  }

  // ---------- the state of a run ----------

  ghost predicate Disjoint(reserved: map<Page, bool>, backed: map<Page, Backing>) {
    forall p :: p in reserved ==> p !in backed
  }

  /** Reserved pages wait for their first fault. */
  ghost predicate ReservedPages(m: Memory, root: nat, reserved: map<Page, bool>) {
    forall p :: p in reserved ==> Outside(p) && p == PageOf(p) && PTEOf(m, root, p) == OnDemandWord(reserved[p])
  }

  /** Backed pages have their own frame, with the access they were reserved with. */
  ghost predicate BackedPages(m: Memory, root: nat, backed: map<Page, Backing>) {
    forall p :: p in backed ==>
      Outside(p) && p == PageOf(p) && PTEOf(m, root, p) == EntryWord(backed[p].frame * FRAME_SIZE, backed[p].user)
  }

  /** No frame serves two pages, and none of them is still free or holds a table. */
  ghost predicate FramesExclusive(backed: map<Page, Backing>, supply: seq<nat>, tables: Tables) {
    && (forall p, q :: p in backed && q in backed && p != q ==> backed[p].frame != backed[q].frame)
    && (forall p :: p in backed ==> backed[p].frame !in supply && backed[p].frame !in tables && 0 < backed[p].frame < ADDRESS_FRAMES)
  }

  ghost function RangePages(start: nat, n: nat): set<Page> {
    set k: nat | k < n :: PageOf(PageAt(start, k))
  }

  ghost predicate PagerState(m: Memory, root: nat, reserved: map<Page, bool>, backed: map<Page, Backing>, supply: seq<nat>, tables: Tables) {
    && Disjoint(reserved, backed) && ReservedPages(m, root, reserved) && BackedPages(m, root, backed)
    && FramesExclusive(backed, supply, tables)
  }

  /** What the processor sees at any offset: a reserved page faults, a backed page lies on its own
      frame. */
  lemma PagesTranslate(m: Memory, root: nat, reserved: map<Page, bool>, backed: map<Page, Backing>, supply: seq<nat>, tables: Tables,
                       p: Page, o: nat)
    requires PagerState(m, root, reserved, backed, supply, tables) && o < FRAME_SIZE
    ensures p in reserved ==> Walk(m, root, p.(offset := o)) == None
    ensures p in backed ==> Walk(m, root, p.(offset := o)) == Some(backed[p].frame * FRAME_SIZE + o)
  {
    if p in reserved {
      OnDemandIsAbsent(reserved[p]);
    }
    if p in backed {
      BackedWord(backed[p].user, backed[p].frame);
    }
    hide OnDemandWord, EntryWord, Present, Large, FrameOf, Slot, FaultWord;
  }

  /** What the manager knows about a page decides how its fault is answered. */
  lemma KnownPage(m: Memory, root: nat, v: VirtualAddress, reserved: map<Page, bool>, backed: map<Page, Backing>, supply: seq<nat>, tables: Tables, errorCode: nat)
    requires PagerState(m, root, reserved, backed, supply, tables) && Outside(v)
    ensures PageOf(v) in reserved ==>
              && PTEOf(m, root, v) == OnDemandWord(reserved[PageOf(v)]) && ProtectionKey(PTEOf(m, root, v)) == 0
              && FaultAnswer(m, root, v, errorCode, supply) ==
                 (if errorCode % 2 == 1 then Violation else if supply == [] then OutOfMemory else Resolved)
    ensures PageOf(v) in backed ==> FaultAnswer(m, root, v, errorCode, supply) != Resolved
  {
    var p := PageOf(v);
    assert PTEOf(m, root, v) == PTEOf(m, root, p) && TablesPresent(m, root, v) == TablesPresent(m, root, p);
    if p in reserved {
      OnDemandIsAbsent(reserved[p]);
    }
    if p in backed {
      BackedWord(backed[p].user, backed[p].frame);
    }
  }

  /** The first fault of a reserved page. */
  lemma FirstFault(m: Memory, m': Memory, root: nat, v: VirtualAddress, reserved: map<Page, bool>, backed: map<Page, Backing>, supply: seq<nat>, tables: Tables)
    requires PagerState(m, root, reserved, backed, supply, tables) && Outside(v) && PageOf(v) in reserved
    requires supply != [] && supply[0] !in supply[1..] && supply[0] !in tables && 0 < supply[0] < ADDRESS_FRAMES
    requires ProtectionKey(OnDemandWord(reserved[PageOf(v)])) == 0
    requires LeafSet(m, m', root, v, FaultWord(OnDemandWord(reserved[PageOf(v)]), supply[0] * FRAME_SIZE))
    ensures var p := PageOf(v);
            PagerState(m', root, reserved - {p}, backed[p := Backing(supply[0], reserved[p])], supply[1..], tables)
    ensures PageMapped(m, m', root, v, supply[0] * FRAME_SIZE)
  {
    hide Walk, PTEOf, NoLargePage, LeafTarget, EntryWord, OnDemandWord, FaultWord, LeafSet, Disjoint, ReservedPages, BackedPages, FramesExclusive, PageMapped, Outside;
    var p := PageOf(v);
    BackedWord(reserved[p], supply[0]);
    MappedByLeaf(m, m', root, v, supply[0] * FRAME_SIZE, reserved[p]);
    FaultedViews(m, m', root, v, reserved, backed, supply[0]);
    FrameTaken(backed, supply, tables, p, reserved[p]);
  }

  lemma FaultedViews(m: Memory, m': Memory, root: nat, v: VirtualAddress, reserved: map<Page, bool>, backed: map<Page, Backing>, frame: nat)
    requires Disjoint(reserved, backed) && ReservedPages(m, root, reserved) && BackedPages(m, root, backed)
    requires Outside(v) && PageOf(v) in reserved && LeafSet(m, m', root, v, EntryWord(frame * FRAME_SIZE, reserved[PageOf(v)]))
    ensures var p := PageOf(v); var backed' := backed[p := Backing(frame, reserved[p])];
            Disjoint(reserved - {p}, backed') && ReservedPages(m', root, reserved - {p}) && BackedPages(m', root, backed')
  {
    hide Walk, PTEOf, NoLargePage, LeafTarget, EntryWord, OnDemandWord;
    var p := PageOf(v);
    assert Outside(p) && SamePage(p, v);
    assert forall q :: q in reserved && SamePage(q, v) ==> q == p;
    assert forall q :: q in backed && SamePage(q, v) ==> q == p;
  }

  lemma FrameTaken(backed: map<Page, Backing>, supply: seq<nat>, tables: Tables, p: Page, user: bool)
    requires FramesExclusive(backed, supply, tables) && supply != []
    requires supply[0] !in supply[1..] && supply[0] !in tables && 0 < supply[0] < ADDRESS_FRAMES
    ensures FramesExclusive(backed[p := Backing(supply[0], user)], supply[1..], tables)
  {
  }

  /** A fault of a page that is neither reserved here nor backed. */
  lemma OtherFault(m: Memory, m': Memory, root: nat, v: VirtualAddress, reserved: map<Page, bool>, backed: map<Page, Backing>, supply: seq<nat>, tables: Tables, w: nat)
    requires PagerState(m, root, reserved, backed, supply, tables) && supply != []
    requires Outside(v) && PageOf(v) !in reserved && PageOf(v) !in backed && LeafSet(m, m', root, v, w)
    ensures PagerState(m', root, reserved, backed, supply[1..], tables)
  {
    hide Walk, PTEOf, NoLargePage, LeafTarget, EntryWord, OnDemandWord;
  }

  /** The given pages become reserved with the given privilege. */
  ghost function WithRange(reserved: map<Page, bool>, range: set<Page>, user: bool): map<Page, bool> {
    reserved + map p | p in range :: user
  }

  /** A range of pages becomes reserved. */
  lemma RangeReserved(m: Memory, m': Memory, root: nat, start: nat, n: nat, user: bool, reserved: map<Page, bool>, backed: map<Page, Backing>,
                      supply: seq<nat>, supply': seq<nat>, tables: Tables, tables': Tables)
    requires PagerState(m, root, reserved, backed, supply, tables) && RangeSet(m, m', root, start, n, OnDemandWord(user))
    requires forall k: nat :: k < n ==> Outside(PageAt(start, k))
    requires IsSuffix(supply', supply) && GrownFrom(tables', tables, supply)
    ensures PagerState(m', root, WithRange(reserved, RangePages(start, n), user), backed - RangePages(start, n), supply', tables')
  {
    hide Walk, PTEOf, NoLargePage, LeafTarget, EntryWord, OnDemandWord, PageAt, RangePages, Disjoint, ReservedPages, BackedPages, FramesExclusive,
         Outside, RangeSet, WithRange;
    RangeIsRange(start, n);
    RangeViews(m, m', root, start, n, user, reserved, backed, RangePages(start, n));
    RangeDisjoint(reserved, backed, RangePages(start, n), user);
    FramesAfterRange(backed, supply, supply', tables, tables', RangePages(start, n));
  }

  /** The canonical pages of a range. */
  lemma RangeIsRange(start: nat, n: nat)
    ensures forall p: Page {:trigger p in RangePages(start, n)} {:trigger InRange(p, start, n)} ::
              p == PageOf(p) ==> (p in RangePages(start, n) <==> InRange(p, start, n))
    ensures forall p :: p in RangePages(start, n) ==> p == PageOf(p)
  {
    hide PageAt;
    forall p: Page | p == PageOf(p)
      ensures p in RangePages(start, n) <==> InRange(p, start, n)
    {
      if InRange(p, start, n) {
        var k: nat :| k < n && SamePage(p, PageAt(start, k));
        assert p == PageOf(PageAt(start, k));
      }
      if p in RangePages(start, n) {
        var k: nat :| k < n && p == PageOf(PageAt(start, k));
        assert SamePage(p, PageAt(start, k));
      }
    }
  }

  lemma RangeViews(m: Memory, m': Memory, root: nat, start: nat, n: nat, user: bool, reserved: map<Page, bool>, backed: map<Page, Backing>, range: set<Page>)
    requires ReservedPages(m, root, reserved) && BackedPages(m, root, backed) && RangeSet(m, m', root, start, n, OnDemandWord(user))
    requires forall k: nat :: k < n ==> Outside(PageAt(start, k))
    requires forall p: Page {:trigger p in range} {:trigger InRange(p, start, n)} :: p == PageOf(p) ==> (p in range <==> InRange(p, start, n))
    requires forall p :: p in range ==> p == PageOf(p)
    ensures ReservedPages(m', root, WithRange(reserved, range, user)) && BackedPages(m', root, backed - range)
  {
    forall p | p in range
      ensures Outside(p)
    {
      assert InRange(p, start, n);
      var k: nat :| k < n && SamePage(p, PageAt(start, k));
      SamePageOutside(p, PageAt(start, k));
    }
    hide Walk, PTEOf, NoLargePage, LeafTarget, EntryWord, OnDemandWord, PageAt, InRange, Outside, PageOf;
    forall p | p in WithRange(reserved, range, user)
      ensures Outside(p) && p == PageOf(p) && PTEOf(m', root, p) == OnDemandWord(WithRange(reserved, range, user)[p])
    {
    }
    forall p | p in backed - range
      ensures PTEOf(m', root, p) == PTEOf(m, root, p)
    {
    }
  }

  lemma SamePageOutside(p: Page, v: VirtualAddress)
    requires p == PageOf(p) && SamePage(p, v) && Outside(v)
    ensures Outside(p)
  {
  }

  lemma RangeDisjoint(reserved: map<Page, bool>, backed: map<Page, Backing>, range: set<Page>, user: bool)
    requires Disjoint(reserved, backed)
    ensures Disjoint(WithRange(reserved, range, user), backed - range)
  {
  }

  lemma FramesAfterRange(backed: map<Page, Backing>, supply: seq<nat>, supply': seq<nat>, tables: Tables, tables': Tables, range: set<Page>)
    requires FramesExclusive(backed, supply, tables) && IsSuffix(supply', supply) && GrownFrom(tables', tables, supply)
    ensures FramesExclusive(backed - range, supply', tables')
  {
  }

  /** What the entry of a reserved page allows. */
  lemma ReservationBits(m: Memory, root: nat, v: VirtualAddress, reserved: map<Page, bool>, backed: map<Page, Backing>, supply: seq<nat>, tables: Tables)
    requires PagerState(m, root, reserved, backed, supply, tables) && PageOf(v) in reserved
    ensures Bit(PTEOf(m, root, v), NP_READWRITE) && (Bit(PTEOf(m, root, v), NP_USERMODE) <==> reserved[PageOf(v)])
  {
    assert PTEOf(m, root, v) == PTEOf(m, root, PageOf(v));
    hide PTEOf;
  }

  class DemandPager {
    const mmu: MMU
    ghost var reserved: map<Page, bool>
    ghost var backed: map<Page, Backing>

    ghost predicate Valid()
      reads this, mmu
    {
      && mmu.Valid() && mmu.usePrimary && mmu.root == mmu.cr3
      && PagerState(mmu.mem, mmu.root, reserved, backed, mmu.supply, mmu.tables)
    }

    /** No page of the running address space is reserved yet. */
    constructor (mmu: MMU)
      requires mmu.Valid() && mmu.usePrimary && mmu.root == mmu.cr3
      ensures Valid() && this.mmu == mmu && reserved == map[] && backed == map[]
    {
      this.mmu := mmu;
      reserved := map[];
      backed := map[];
    }

    /** A fault at va.  The first fault of a reserved page gives it a frame of its own with the
        access bits it was reserved with; no other page is touched. */
    method Fault(va: nat, errorCode: nat) returns (outcome: FaultOutcome)
      requires Valid() && Outside(Parse(va)) && No1GBPage(mmu.mem, mmu.root, Parse(va))
      requires ProtectionKey(PTEOf(mmu.mem, mmu.root, Parse(va))) == 0
      modifies this, mmu
      ensures Valid()
      ensures outcome == FaultAnswer(old(mmu.mem), mmu.root, Parse(va), errorCode, old(mmu.supply))
      ensures outcome != Resolved ==> mmu.mem == old(mmu.mem) && reserved == old(reserved) && backed == old(backed)
      ensures outcome == Resolved && PageOf(Parse(va)) in old(reserved) ==>
                var p, frame := PageOf(Parse(va)), old(mmu.supply)[0];
                && reserved == old(reserved) - {p} && backed == old(backed)[p := Backing(frame, old(reserved)[p])]
                && PageMapped(old(mmu.mem), mmu.mem, mmu.root, Parse(va), frame * FRAME_SIZE)
                && (Allows(mmu.mem, mmu.root, Parse(va), READWRITE) <==> TablesAllow(old(mmu.mem), mmu.root, Parse(va), READWRITE))
                && (Allows(mmu.mem, mmu.root, Parse(va), USERMODE) <==>
                     old(reserved)[p] && TablesAllow(old(mmu.mem), mmu.root, Parse(va), USERMODE))
      ensures outcome == Resolved ==> OthersAllow(old(mmu.mem), mmu.mem, mmu.root, Parse(va))
      ensures PageOf(Parse(va)) !in old(reserved) ==> reserved == old(reserved) && backed == old(backed)
      ensures errorCode % 2 == 0 && PageOf(Parse(va)) in old(reserved) && old(mmu.supply) != [] ==> outcome == Resolved
    {
      ghost var m, supply, v := mmu.mem, mmu.supply, Parse(va);
      ghost var p := PageOf(v);
      KnownPage(m, mmu.root, v, reserved, backed, supply, mmu.tables, errorCode);
      if p in reserved {
        ReservationBits(m, mmu.root, v, reserved, backed, supply, mmu.tables);
      }
      hide MMU.Valid, PagerState, LeafSet, EntryWord, OnDemandWord, FaultWord, Parse, PageMapped, FaultAnswer, PTEOf,
           Allows, TablesAllow, OthersAllow, Bit;
      outcome := mmu.HandlePageFault(va, errorCode);
      if outcome == Resolved {
        if p in reserved {
          FirstFault(m, mmu.mem, mmu.root, v, reserved, backed, supply, mmu.tables);
          backed := backed[p := Backing(supply[0], reserved[p])];
          reserved := reserved - {p};
        } else {
          OtherFault(m, mmu.mem, mmu.root, v, reserved, backed, supply, mmu.tables, FaultWord(PTEOf(m, mmu.root, v), supply[0] * FRAME_SIZE));
        }
      }
    }

    /** Reserves a range of pages.  The first done of them, all of them on success, become reserved
        with the given privilege, whatever they were before; no other page is touched. */
    method Reserve(start: nat, pages: nat, privilege: AccessPrivilege) returns (ok: bool, ghost done: nat)
      requires Valid()
      requires Mappable(mmu.mem, mmu.root, start, pages)
      modifies this, mmu
      ensures Valid()
      ensures done <= pages && (ok <==> done == pages)
      ensures !ok ==> mmu.supply == [] && !TablesPresent(mmu.mem, mmu.root, PageAt(start, done))
      ensures RangeSet(old(mmu.mem), mmu.mem, mmu.root, start, done, OnDemandWord(privilege == Low))
      ensures reserved == WithRange(old(reserved), RangePages(start, done), privilege == Low)
      ensures backed == old(backed) - RangePages(start, done)
      ensures Grown(old(mmu.mem), mmu.mem, mmu.root, privilege != High)
    {
      ghost var m, supply, tables := mmu.mem, mmu.supply, mmu.tables;
      hide TablesPresent, MMU.Valid, PagerState, OnDemandWord, PageAt, Outside, RangeSet, NoLargePage, RangePages, Grown;
      ok, done := mmu.MapOnDemand(start, pages, privilege);
      RangeReserved(m, mmu.mem, mmu.root, start, done, privilege == Low, reserved, backed, supply, mmu.supply, tables, mmu.tables);
      reserved := WithRange(reserved, RangePages(start, done), privilege == Low);
      backed := backed - RangePages(start, done);
    }
  }
}
