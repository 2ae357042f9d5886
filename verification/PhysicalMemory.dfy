/** The physical frame allocator: bitmaps of three levels, a ring of regions that may be free, and
    one frame that may be free. */
module PhysicalMemory {
  import opened Common
  import opened FrameBitmaps
  import opened PageTables

  const WORD: nat := 64
  const CACHE_SIZE: nat := 64

  /** The place of entry i in a ring that starts at head. */
  function RingIndex(head: nat, i: nat): (k: nat)
    ensures k < CACHE_SIZE
  {
    (head + i) % CACHE_SIZE
  }

  lemma RingNext(head: nat, count: nat)
    requires count < CACHE_SIZE
    ensures (RingIndex(head, count) + 1) % CACHE_SIZE == RingIndex(head, count + 1)
    ensures forall i: nat :: i < count ==> RingIndex(head, i) != RingIndex(head, count)
  {
  }

  lemma RingShifted(head: nat, next: nat)
    requires head < CACHE_SIZE && next == (head + 1) % CACHE_SIZE
    ensures RingIndex(head, 0) == head && forall i: nat {:trigger RingIndex(next, i)} :: RingIndex(next, i) == RingIndex(head, i + 1)
  {
  }

  /** A ring buffer of region numbers. */
  class LargeMemoryCache {
    const cache: array<nat>
    var head: nat
    var tail: nat
    var count: nat

    ghost predicate Valid()
      reads this
    {
      cache.Length == CACHE_SIZE && head < CACHE_SIZE && count <= CACHE_SIZE && tail == RingIndex(head, count)
    }

    /** The entries, oldest first. */
    ghost function Contents(): (s: seq<nat>)
      requires Valid()
      reads this, cache
      ensures |s| == count
    {
      seq(count, i requires 0 <= i < count reads this, cache requires Valid() => cache[RingIndex(head, i)])
    }

    constructor ()
      ensures Valid() && Contents() == [] && fresh(cache)
    {
      cache := new nat[CACHE_SIZE](_ => 0);
      head, tail, count := 0, 0, 0;
    }

    predicate IsEmpty()
      reads this
    {
      count == 0
    }

    predicate IsFull()
      reads this
    {
      count == CACHE_SIZE
    }

    /** Adds an entry, unless the ring is full. */
    method Push(entry: nat)
      requires Valid()
      modifies this, cache
      ensures Valid()
      ensures Contents() == if |old(Contents())| == CACHE_SIZE then old(Contents()) else old(Contents()) + [entry]
    {
      if !IsFull() {
        RingNext(head, count);
        hide RingIndex;
        cache[tail] := entry;
        tail := (tail + 1) % CACHE_SIZE;
        count := count + 1;
      }
    }

    /** Takes the oldest entry. */
    method Pop() returns (entry: Option<nat>)
      requires Valid()
      modifies this`head, this`count
      ensures Valid()
      ensures old(Contents()) == [] ==> entry == None && Contents() == []
      ensures old(Contents()) != [] ==> entry == Some(old(Contents())[0]) && Contents() == old(Contents())[1..]
    {
      if IsEmpty() {
        return None;
      }
      RingShifted(head, (head + 1) % CACHE_SIZE);
      hide RingIndex;
      entry := Some(cache[head]);
      head := (head + 1) % CACHE_SIZE;
      count := count - 1;
    }
  }

  // ---------- words of 64 flags ----------

  /** std::countr_zero of a word that is not zero. */
  function CountrZero(word: seq<bool>): (k: nat)
    requires true in word
    ensures k < |word| && word[k] && forall j :: 0 <= j < k ==> !word[j]
  {
    if word[0] then 0 else 1 + CountrZero(word[1..])
  }

  /** The first free frame of the word in which a frame lies. */
  function NextInWord(used4KB: seq<bool>, frame: nat): Option<nat>
    requires frame < FRAMES && |used4KB| == FRAMES
  {
    var word := frame / WORD;
    var free := Not(used4KB[word * WORD..(word + 1) * WORD]);
    if true in free then Some(word * WORD + CountrZero(free)) else None
  }

  /** It is free, and all frames before it in the word are used. */
  lemma NextInWordIsFirst(used4KB: seq<bool>, frame: nat)
    requires frame < FRAMES && |used4KB| == FRAMES
    ensures match NextInWord(used4KB, frame)
            case Some(f) =>
              && f < FRAMES && f / WORD == frame / WORD && !used4KB[f]
              && forall f' :: frame / WORD * WORD <= f' < f ==> used4KB[f']
            case None => forall f' :: frame / WORD * WORD <= f' < (frame / WORD + 1) * WORD ==> used4KB[f']
  {
    var word := frame / WORD;
    var free := Not(used4KB[word * WORD..(word + 1) * WORD]);
    forall f | word * WORD <= f < (word + 1) * WORD
      ensures free[f - word * WORD] == !used4KB[f]
    {
    }
  }

  /** It is missed only if the word is full. */
  lemma NextInWordFinds(used4KB: seq<bool>, frame: nat, f: nat)
    requires frame < FRAMES && |used4KB| == FRAMES && f < FRAMES && f / WORD == frame / WORD && !used4KB[f]
    ensures NextInWord(used4KB, frame).Some?
  {
    var word := frame / WORD;
    var free := Not(used4KB[word * WORD..(word + 1) * WORD]);
    assert free[f - word * WORD];
  }

  /** The group that a word of flags offers: the first one that is partly used and flagged as free, or, if
      the word has none, the first one that is flagged as free. */
  predicate FirstOfWord(b: Maps, g: nat) {
    && b.Sized() && g < GROUPS && b.free32MB[g]
    && if b.used32MB[g] then forall h :: g / WORD * WORD <= h < g ==> !(b.used32MB[h] && b.free32MB[h])
       else && (forall h :: g / WORD * WORD <= h < g ==> !b.free32MB[h])
            && (forall h :: g / WORD * WORD <= h < (g / WORD + 1) * WORD ==> !(b.used32MB[h] && b.free32MB[h]))
  }

  /** The flags of the groups that a word offers. */
  function Offered(b: Maps, word: nat): (target: seq<bool>)
    requires b.Sized() && (word + 1) * WORD <= GROUPS
    ensures |target| == WORD
  {
    var hasFree := b.free32MB[word * WORD..(word + 1) * WORD];
    var partial := And(b.used32MB[word * WORD..(word + 1) * WORD], hasFree);
    if true in partial then partial else hasFree
  }

  lemma ChosenIsFirst(b: Maps, word: nat)
    requires b.Sized() && (word + 1) * WORD <= GROUPS
    ensures true in Offered(b, word) <==> exists g :: word * WORD <= g < (word + 1) * WORD && b.free32MB[g]
    ensures true in Offered(b, word) ==>
              var g := word * WORD + CountrZero(Offered(b, word)); g / WORD == word && FirstOfWord(b, g)
  {
    var hasFree := b.free32MB[word * WORD..(word + 1) * WORD];
    var partial := And(b.used32MB[word * WORD..(word + 1) * WORD], hasFree);
    forall g | word * WORD <= g < (word + 1) * WORD
      ensures hasFree[g - word * WORD] == b.free32MB[g] && partial[g - word * WORD] == (b.used32MB[g] && b.free32MB[g])
    {
    }
    if true in Offered(b, word) {
      OfferedIsFirst(b, word, CountrZero(Offered(b, word)), partial, hasFree);
    } else {
      assert true !in hasFree;
    }
  }

  lemma OfferedIsFirst(b: Maps, word: nat, bit: nat, partial: seq<bool>, hasFree: seq<bool>)
    requires b.Sized() && (word + 1) * WORD <= GROUPS && |partial| == |hasFree| == WORD
    requires forall g :: word * WORD <= g < (word + 1) * WORD ==>
               hasFree[g - word * WORD] == b.free32MB[g] && partial[g - word * WORD] == (b.used32MB[g] && b.free32MB[g])
    requires var target := if true in partial then partial else hasFree;
             bit < WORD && target[bit] && forall j :: 0 <= j < bit ==> !target[j]
    ensures (word * WORD + bit) / WORD == word && FirstOfWord(b, word * WORD + bit)
  {
    var g := word * WORD + bit;
    assert g / WORD == word;
    assert hasFree[g - word * WORD] == b.free32MB[g] && partial[g - word * WORD] == (b.used32MB[g] && b.free32MB[g]);
  }

  function And(v: seq<bool>, w: seq<bool>): (r: seq<bool>)
    requires |v| == |w|
    ensures |r| == |v| && forall k :: 0 <= k < |r| ==> r[k] == (v[k] && w[k])
  {
    seq(|v|, k requires 0 <= k < |v| => v[k] && w[k])
  }

  function Not(w: seq<bool>): (r: seq<bool>)
    ensures |r| == |w| && forall k :: 0 <= k < |r| ==> r[k] == !w[k]
  {
    seq(|w|, k requires 0 <= k < |w| => !w[k])
  }

  // ---------- which region is offered ----------

  predicate IsPartial(b: Maps, g: nat)
    requires b.Sized() && g < GROUPS
  {
    b.used32MB[g] && b.free32MB[g]
  }

  /** The first untouched region of the groups that are partly used. */
  predicate FirstPartial(b: Maps, region: nat) {
    && b.Sized() && region < REGIONS && IsPartial(b, GroupOf(region)) && !b.used2MB[region]
    && forall r :: 0 <= r < region && IsPartial(b, GroupOf(r)) ==> b.used2MB[r]
  }

  /** No group that is partly used has an untouched region. */
  predicate NoneInPartial(b: Maps) {
    b.Sized() && forall r :: 0 <= r < REGIONS && IsPartial(b, GroupOf(r)) ==> b.used2MB[r]
  }

  /** The first region of the first group that is not used at all. */
  predicate FirstOfFreeGroup(b: Maps, region: nat) {
    && b.Sized() && region < REGIONS && region == GroupOf(region) * GROUP_REGIONS && !b.used32MB[GroupOf(region)]
    && forall g :: 0 <= g < GroupOf(region) ==> b.used32MB[g]
  }

  // ---------- the memory map ----------

  datatype Descriptor = Descriptor(start: nat, pages: nat)

  /** The part of described memory that lies above the DMA zone. */
  function Trimmed(d: Descriptor): Descriptor {
    var end := d.start + d.pages * FRAME_SIZE;
    if d.start >= DMA_FRAMES * FRAME_SIZE then d
    else if end <= DMA_FRAMES * FRAME_SIZE then Descriptor(d.start, 0)
    else Descriptor(DMA_FRAMES * FRAME_SIZE, (end - DMA_FRAMES * FRAME_SIZE) / FRAME_SIZE)
  }

  predicate Covers(d: Descriptor, f: int) {
    d.start / FRAME_SIZE <= f < d.start / FRAME_SIZE + d.pages
  }

  predicate Described(descriptors: seq<Descriptor>, f: int) {
    exists i :: 0 <= i < |descriptors| && Covers(Trimmed(descriptors[i]), f)
  }

  lemma DescribedIsNotDMA(descriptors: seq<Descriptor>)
    ensures forall f :: 0 <= f < DMA_FRAMES ==> !Described(descriptors, f)
  {
  }

  /** The frame lies in memory that some descriptor describes. */
  predicate InMemory(descriptors: seq<Descriptor>, f: int) {
    exists d :: d in descriptors && d.start <= f * FRAME_SIZE < d.start + d.pages * FRAME_SIZE
  }

  predicate PageAligned(descriptors: seq<Descriptor>) {
    forall d :: d in descriptors ==> d.start % FRAME_SIZE == 0
  }

  /** Of descriptors that begin with a page, exactly the frames above the DMA zone are freed. */
  lemma DescribedIsInMemory(descriptors: seq<Descriptor>, f: nat)
    requires PageAligned(descriptors)
    ensures Described(descriptors, f) <==> f >= DMA_FRAMES && InMemory(descriptors, f)
  {
    hide Covers, Trimmed;
    forall i | 0 <= i < |descriptors|
      ensures Covers(Trimmed(descriptors[i]), f) <==>
              f >= DMA_FRAMES && descriptors[i].start <= f * FRAME_SIZE < descriptors[i].start + descriptors[i].pages * FRAME_SIZE
    {
      TrimmedCovers(descriptors[i], f);
    }
  }

  lemma TrimmedCovers(d: Descriptor, f: nat)
    requires d.start % FRAME_SIZE == 0
    ensures Covers(Trimmed(d), f) <==> f >= DMA_FRAMES && d.start <= f * FRAME_SIZE < d.start + d.pages * FRAME_SIZE
  {
    assert d.start == d.start / FRAME_SIZE * FRAME_SIZE;
  }

  class FrameAllocator {
    const used4KB: array<bool>
    const anyUsed2MB: array<bool>
    const anyFree2MB: array<bool>
    const anyUsed32MB: array<bool>
    const anyFree32MB: array<bool>
    const cache2MB: LargeMemoryCache
    var cached4KB: Option<nat>

    // the blocks that have been handed out and not yet been given back
    ghost var frames: set<nat>
    ghost var regions: set<nat>

    ghost predicate Shaped() {
      && used4KB.Length == FRAMES && anyUsed2MB.Length == REGIONS && anyFree2MB.Length == REGIONS
      && anyUsed32MB.Length == GROUPS && anyFree32MB.Length == GROUPS
      && anyUsed2MB != anyFree2MB && anyUsed32MB != anyFree32MB
    }

    ghost function Bits(): (b: Maps)
      requires Shaped()
      reads used4KB, anyUsed2MB, anyFree2MB, anyUsed32MB, anyFree32MB
      ensures b.Sized()
    {
      Maps(used4KB[..], anyUsed2MB[..], anyFree2MB[..], anyUsed32MB[..], anyFree32MB[..])
    }

    ghost predicate CachesFit()
      requires Shaped()
      reads this, used4KB, cache2MB, cache2MB.cache
    {
      && cache2MB.Valid() && AllRegions(cache2MB.Contents())
      && (cached4KB.Some? ==> cached4KB.value < FRAMES && !used4KB[cached4KB.value])
    }

    ghost predicate Valid()
      reads this, used4KB, anyUsed2MB, anyFree2MB, anyUsed32MB, anyFree32MB, cache2MB, cache2MB.cache
    {
      Shaped() && CachesFit() && Consistent(Bits(), frames, regions)
    }

    // ---------- setup ----------

    /** Marks the described memory as free and computes the summaries.  The descriptors are those of
        usable memory, without the pages that hold the bitmaps. */
    constructor (descriptors: seq<Descriptor>)
      ensures Valid() && frames == {} && regions == {} && cached4KB == None && cache2MB.Contents() == []
      ensures fresh(used4KB) && fresh(anyUsed2MB) && fresh(anyFree2MB) && fresh(anyUsed32MB) && fresh(anyFree32MB)
      ensures fresh(cache2MB) && fresh(cache2MB.cache)
      ensures Summarised(Bits()) && forall f :: 0 <= f < FRAMES ==> used4KB[f] == !Described(descriptors, f)
      ensures PageAligned(descriptors) ==>
                forall f :: 0 <= f < FRAMES ==> (!used4KB[f] <==> f >= DMA_FRAMES && InMemory(descriptors, f))
    {
      hide Described, Summarised, Consistent, PageAligned, InMemory;
      used4KB := new bool[FRAMES](_ => true);
      anyUsed2MB := new bool[REGIONS](_ => true);
      anyFree2MB := new bool[REGIONS](_ => false);
      anyUsed32MB := new bool[GROUPS](_ => true);
      anyFree32MB := new bool[GROUPS](_ => false);
      cache2MB := new LargeMemoryCache();
      cached4KB := None;
      frames, regions := {}, {};
      new;
      MarkDescribed(descriptors);
      Summarise();
      DescribedIsNotDMA(descriptors);
      if PageAligned(descriptors) {
        forall f | 0 <= f < FRAMES
          ensures Described(descriptors, f) <==> f >= DMA_FRAMES && InMemory(descriptors, f)
        {
          DescribedIsInMemory(descriptors, f);
        }
      }
      SummarisedIsConsistent(Bits());
    }

    /** Both summary loops. */
    method Summarise()
      requires Shaped()
      modifies anyUsed2MB, anyFree2MB, anyUsed32MB, anyFree32MB
      ensures Summarised(Bits())
    {
      hide Summary2MB, AnyOf;
      Summarise2MB();
      Summarise32MB();
    }

    method MarkDescribed(descriptors: seq<Descriptor>)
      requires Shaped() && forall f :: 0 <= f < FRAMES ==> used4KB[f]
      modifies used4KB
      ensures forall f :: 0 <= f < FRAMES ==> used4KB[f] == !Described(descriptors, f)
    {
      for i := 0 to |descriptors|
        invariant forall f :: 0 <= f < FRAMES ==> used4KB[f] == !Described(descriptors[..i], f)
      {
        var d := Trimmed(descriptors[i]);
        for page := 0 to d.pages
          invariant forall f :: 0 <= f < FRAMES ==>
                      used4KB[f] == (!Described(descriptors[..i], f) && !(d.start / FRAME_SIZE <= f < d.start / FRAME_SIZE + page))
        {
          var address := d.start + page * FRAME_SIZE;
          if address < FRAMES * FRAME_SIZE {
            used4KB[address / FRAME_SIZE] := false;
          }
        }
      }
      assert descriptors[..|descriptors|] == descriptors;
    }

    method Summarise2MB()
      requires Shaped()
      modifies anyUsed2MB, anyFree2MB
      ensures forall r :: 0 <= r < REGIONS ==>
                anyUsed2MB[r] == Summary2MB(used4KB[..], r, true) && anyFree2MB[r] == Summary2MB(used4KB[..], r, false)
    {
      for r := 0 to REGIONS
        invariant forall r' :: 0 <= r' < r ==>
                    anyUsed2MB[r'] == Summary2MB(used4KB[..], r', true) && anyFree2MB[r'] == Summary2MB(used4KB[..], r', false)
      {
        var hasFree, hasUsed := SummariseRegion(r);
        anyUsed2MB[r] := hasUsed;
        anyFree2MB[r] := hasFree;
      }
    }

    method SummariseRegion(r: nat) returns (hasFree: bool, hasUsed: bool)
      requires Shaped() && r < REGIONS
      ensures hasUsed == Summary2MB(used4KB[..], r, true) && hasFree == Summary2MB(used4KB[..], r, false)
    {
      hasFree, hasUsed := false, false;
      for f := r * REGION_FRAMES to (r + 1) * REGION_FRAMES
        invariant hasUsed <==> exists f' :: r * REGION_FRAMES <= f' < f && used4KB[f'] == true
        invariant hasFree <==> exists f' :: r * REGION_FRAMES <= f' < f && used4KB[f'] == false
      {
        if used4KB[f] {
          hasUsed := true;
        } else {
          hasFree := true;
        }
      }
    }

    method Summarise32MB()
      requires Shaped()
      modifies anyUsed32MB, anyFree32MB
      ensures forall g :: 0 <= g < GROUPS ==> anyUsed32MB[g] == AnyOf(anyUsed2MB[..], g) && anyFree32MB[g] == AnyOf(anyFree2MB[..], g)
    {
      for g := 0 to GROUPS
        invariant forall g' :: 0 <= g' < g ==> anyUsed32MB[g'] == AnyOf(anyUsed2MB[..], g') && anyFree32MB[g'] == AnyOf(anyFree2MB[..], g')
      {
        var free := Update32MBFlags(g);
      }
    }

    // ---------- the frame that may be free ----------

    predicate HintUsable()
      requires Shaped()
      reads this, anyFree2MB
    {
      cached4KB.Some? && cached4KB.value < FRAMES && anyFree2MB[RegionOf(cached4KB.value)]
    }

    method Try4KBCache() returns (frame: Option<nat>)
      requires Shaped() && (cached4KB.Some? ==> cached4KB.value < FRAMES)
      modifies this`cached4KB
      ensures cached4KB == None
      ensures frame == if old(HintUsable()) then old(cached4KB) else None
    {
      if cached4KB.Some? {
        var region := cached4KB.value;
        cached4KB := None;
        if anyFree2MB[RegionOf(region)] {
          return Some(region);
        }
      }
      return None;
    }

    // ---------- marking ----------

    method Mark32MBRegionUsed(region: nat)
      requires Shaped() && region < GROUPS
      modifies anyUsed32MB, anyFree32MB
      ensures Bits() == MarkedGroup(old(Bits()), region)
    {
      anyUsed32MB[region] := true;
      var first2MB := region * GROUP_REGIONS;
      var allUsed := true;
      var i := 0;
      while i < GROUP_REGIONS && allUsed
        invariant i <= GROUP_REGIONS
        invariant allUsed ==> forall r :: first2MB <= r < first2MB + i ==> anyUsed2MB[r]
        invariant !allUsed ==> !GroupUsed(anyUsed2MB[..], region)
      {
        if !anyUsed2MB[first2MB + i] {
          allUsed := false;
        }
        i := i + 1;
      }
      if allUsed {
        anyFree32MB[region] := false;
      }
    }

    method Mark2MBRegionUsed(region: nat)
      requires Shaped() && region < REGIONS
      modifies anyUsed2MB, anyFree2MB, anyUsed32MB, anyFree32MB
      ensures Bits() == MarkedRegion(old(Bits()), region)
    {
      anyUsed2MB[region] := true;
      Mark32MBRegionUsed(GroupOf(region));
      var first4KB := region * REGION_FRAMES;
      var allUsed := true;
      var i := 0;
      while i < REGION_FRAMES && allUsed
        invariant i <= REGION_FRAMES
        invariant allUsed ==> forall f :: first4KB <= f < first4KB + i ==> used4KB[f]
        invariant !allUsed ==> !RegionFull(used4KB[..], region)
      {
        if !used4KB[first4KB + i] {
          allUsed := false;
        }
        i := i + 1;
      }
      if allUsed {
        anyFree2MB[region] := false;
      }
    }

    method Update32MBFlags(region: nat) returns (free: bool)
      requires Shaped() && region < GROUPS
      modifies anyUsed32MB, anyFree32MB
      ensures Bits() == UpdatedGroup(old(Bits()), region)
      ensures free == !anyUsed32MB[region]
    {
      var anyUsed := false;
      var anyFree := false;
      var first2MB := region * GROUP_REGIONS;
      for i := 0 to GROUP_REGIONS
        invariant anyUsed <==> exists r :: first2MB <= r < first2MB + i && anyUsed2MB[r]
        invariant anyFree <==> exists r :: first2MB <= r < first2MB + i && anyFree2MB[r]
      {
        if anyUsed2MB[first2MB + i] {
          anyUsed := true;
        }
        if anyFree2MB[first2MB + i] {
          anyFree := true;
        }
      }
      anyUsed32MB[region] := anyUsed;
      anyFree32MB[region] := anyFree;
      free := !anyUsed;
    }

    method Region2MBHasUsed(region: nat) returns (any: bool)
      requires Shaped() && region < REGIONS
      ensures any <==> exists f :: region * REGION_FRAMES <= f < (region + 1) * REGION_FRAMES && used4KB[f]
      ensures any == AnyFrameUsed(used4KB[..], region)
    {
      for f := region * REGION_FRAMES to (region + 1) * REGION_FRAMES
        invariant forall f' :: region * REGION_FRAMES <= f' < f ==> !used4KB[f']
      {
        if used4KB[f] {
          return true;
        }
      }
      return false;
    }

    method Mark2MBRegionFreed(region: nat)
      requires Shaped() && cache2MB.Valid() && region < REGIONS
      modifies used4KB, anyUsed2MB, anyFree2MB, anyUsed32MB, anyFree32MB, cache2MB, cache2MB.cache
      ensures Bits() == WithoutRegion(old(Bits()), region)
      ensures cache2MB.Valid() && cache2MB.Contents() == Pushed(old(cache2MB.Contents()), region)
    {
      for f := region * REGION_FRAMES to (region + 1) * REGION_FRAMES
        modifies used4KB
        invariant forall f' :: 0 <= f' < FRAMES ==> used4KB[f'] == (old(used4KB[f']) && !(region * REGION_FRAMES <= f' < f))
      {
        used4KB[f] := false;
      }
      ghost var b := old(Bits());
      anyUsed2MB[region] := false;
      anyFree2MB[region] := true;
      assert used4KB[..] == Cleared(b.used4KB, region);
      assert Bits() == b.(used4KB := Cleared(b.used4KB, region), used2MB := b.used2MB[region := false], free2MB := b.free2MB[region := true]);
      var parentFree := Update32MBFlags(GroupOf(region));
      cache2MB.Push(region);
    }

    // ---------- allocating a 2MB region ----------

    /** Hands out the oldest cached region, if it is free; a stale entry is dropped. */
    method AllocateCached2MBPage() returns (address: nat)
      requires Valid()
      modifies this`regions, anyUsed2MB, anyFree2MB, anyUsed32MB, anyFree32MB, cache2MB`head, cache2MB`count
      ensures Valid() && RegionAnswer(address, old(regions))
      ensures old(cache2MB.Contents()) != [] ==>
                && address == (if old(anyUsed2MB[cache2MB.Contents()[0]]) then 0 else old(cache2MB.Contents()[0]) * PDE_COVERAGE)
                && (address == 0 <==> old(anyUsed2MB[cache2MB.Contents()[0]]))
      ensures old(cache2MB.Contents()) == [] ==> address == 0
      ensures cache2MB.Contents() == Popped(old(cache2MB.Contents()))
      ensures address == 0 ==> Bits() == old(Bits())
      ensures address != 0 ==> Bits() == WithRegion(old(Bits()), address / PDE_COVERAGE)
    {
      hide Consistent, MarkedGroup;
      var entry := cache2MB.Pop();
      if entry.Some? {
        var region := entry.value;
        if !anyUsed2MB[region] {
          RegionKeeps(Bits(), frames, regions, region);
          anyUsed2MB[region] := true;
          anyFree2MB[region] := false;
          Mark32MBRegionUsed(GroupOf(region));
          regions := regions + {region};
          assert Bits() == WithRegion(old(Bits()), region);
          return region * PDE_COVERAGE;
        }
      }
      return 0;
    }

    /** The address is null, or that of a region that has just become live. */
    ghost predicate RegionAnswer(address: nat, before: set<nat>)
      reads this
    {
      if address == 0 then regions == before
      else address % PDE_COVERAGE == 0 && address / PDE_COVERAGE !in before && regions == before + {address / PDE_COVERAGE}
    }

    /** The cache has only gained untouched regions. */
    ghost predicate CacheGrown(before: seq<nat>, after: seq<nat>)
      requires Shaped() && AllRegions(after)
      reads anyUsed2MB
    {
      |before| <= |after| && before == after[..|before|] && forall i :: |before| <= i < |after| ==> !anyUsed2MB[after[i]]
    }

    /** The lowest untouched region of a group. */
    ghost predicate LowestOfGroup(region: nat, group: nat)
      requires Shaped() && group < GROUPS
      reads anyUsed2MB
    {
      && group * GROUP_REGIONS <= region < (group + 1) * GROUP_REGIONS && !anyUsed2MB[region]
      && forall r :: group * GROUP_REGIONS <= r < region ==> anyUsed2MB[r]
    }

    /** Caches the untouched regions of a group, until the cache is full. */
    method CacheGroup(group: nat)
      requires Valid() && group < GROUPS
      modifies cache2MB, cache2MB.cache
      ensures Valid() && CacheGrown(old(cache2MB.Contents()), cache2MB.Contents())
      ensures cache2MB.Contents() == [] ==> GroupUsed(anyUsed2MB[..], group)
      ensures old(cache2MB.Contents()) == [] && cache2MB.Contents() != [] ==> LowestOfGroup(cache2MB.Contents()[0], group)
    {
      hide Consistent;
      var first2MB := group * GROUP_REGIONS;
      var j := 0;
      while j < GROUP_REGIONS
        invariant j <= GROUP_REGIONS
        invariant Shaped() && CachesFit() && CacheGrown(old(cache2MB.Contents()), cache2MB.Contents())
        invariant cache2MB.Contents() == [] ==> forall r :: first2MB <= r < first2MB + j ==> anyUsed2MB[r]
        invariant old(cache2MB.Contents()) == [] && cache2MB.Contents() != [] ==> LowestOfGroup(cache2MB.Contents()[0], group)
      {
        if !anyUsed2MB[first2MB + j] {
          cache2MB.Push(first2MB + j);
          if cache2MB.IsFull() {
            break;
          }
        }
        j := j + 1;
      }
    }

    /** The lowest untouched region of the groups that a word marks. */
    ghost predicate LowestOfMask(region: nat, word: nat, mask: seq<bool>)
      requires Shaped() && (word + 1) * WORD <= GROUPS && |mask| == WORD
      reads anyUsed2MB
    {
      exists k :: 0 <= k < WORD && mask[k] && LowestOfGroup(region, word * WORD + k)
                  && forall j :: 0 <= j < k && mask[j] ==> GroupUsed(anyUsed2MB[..], word * WORD + j)
    }

    /** Caches untouched regions of the groups that a word marks. */
    method CachePartial(word: nat, partialMask: seq<bool>)
      requires Valid() && (word + 1) * WORD <= GROUPS && |partialMask| == WORD
      modifies cache2MB, cache2MB.cache
      ensures Valid() && CacheGrown(old(cache2MB.Contents()), cache2MB.Contents())
      ensures cache2MB.Contents() == [] ==> forall k :: 0 <= k < WORD && partialMask[k] ==> GroupUsed(anyUsed2MB[..], word * WORD + k)
      ensures old(cache2MB.Contents()) == [] && cache2MB.Contents() != [] ==> LowestOfMask(cache2MB.Contents()[0], word, partialMask)
    {
      hide Consistent, GroupUsed, LowestOfGroup;
      var mask := partialMask;
      ghost var left: nat := WORD;
      while true in mask && !cache2MB.IsFull()
        invariant Valid() && |mask| == WORD && left <= WORD
        invariant CacheGrown(old(cache2MB.Contents()), cache2MB.Contents())
        invariant forall k :: 0 <= k < WORD - left ==> !mask[k]
        invariant forall k :: WORD - left <= k < WORD ==> mask[k] == partialMask[k]
        invariant cache2MB.Contents() == [] ==>
                    forall k :: 0 <= k < WORD - left && partialMask[k] ==> GroupUsed(anyUsed2MB[..], word * WORD + k)
        invariant old(cache2MB.Contents()) == [] && cache2MB.Contents() != [] ==>
                    LowestOfMask(cache2MB.Contents()[0], word, partialMask)
        decreases left
      {
        var bit := CountrZero(mask);
        mask := mask[bit := false];
        left := WORD - bit - 1;
        CacheGroup(word * WORD + bit);
      }
    }

    /** Groups that are partly used have nothing to offer, where the cache is empty, or do not exist. */
    ghost predicate NoPartial(cached: seq<nat>, limit: nat)
      requires Shaped() && limit <= GROUPS
      reads anyUsed2MB, anyUsed32MB, anyFree32MB
    {
      forall g :: 0 <= g < limit && anyUsed32MB[g] && anyFree32MB[g] ==> cached == [] && GroupUsed(anyUsed2MB[..], g)
    }

    lemma NothingUntouched(cached: seq<nat>)
      requires Valid() && NoPartial(cached, GROUPS) && forall g :: 0 <= g < GROUPS ==> anyUsed32MB[g]
      ensures forall r :: 0 <= r < REGIONS ==> anyUsed2MB[r]
    {
      forall r | 0 <= r < REGIONS
        ensures anyUsed2MB[r]
      {
        var g := GroupOf(r);
        assert Bits().used2MB[r] == anyUsed2MB[r] && Bits().free32MB[g] == anyFree32MB[g];
      }
    }

    lemma MaskIsFirst(region: nat, word: nat, mask: seq<bool>)
      requires Shaped() && (word + 1) * WORD <= GROUPS && |mask| == WORD && NoPartial([], word * WORD)
      requires forall g :: word * WORD <= g < (word + 1) * WORD ==> mask[g - word * WORD] == (anyUsed32MB[g] && anyFree32MB[g])
      requires LowestOfMask(region, word, mask)
      ensures FirstPartial(Bits(), region)
    {
      var k :| 0 <= k < WORD && mask[k] && LowestOfGroup(region, word * WORD + k)
               && forall j :: 0 <= j < k && mask[j] ==> GroupUsed(anyUsed2MB[..], word * WORD + j);
      var group := word * WORD + k;
      assert GroupOf(region) == group && anyUsed32MB[group] && anyFree32MB[group] by {
        assert mask[group - word * WORD];
      }
      forall r | 0 <= r < region && IsPartial(Bits(), GroupOf(r))
        ensures anyUsed2MB[r]
      {
        var g := GroupOf(r);
        assert g * GROUP_REGIONS <= r < (g + 1) * GROUP_REGIONS && anyUsed32MB[g] && anyFree32MB[g];
        if g < word * WORD {
          assert GroupUsed(anyUsed2MB[..], g);
          assert anyUsed2MB[..][r];
        } else if g < group {
          assert mask[g - word * WORD] && GroupUsed(anyUsed2MB[..], word * WORD + (g - word * WORD));
          assert anyUsed2MB[..][r];
        }
      }
    }

    /** Fills the cache from the partly used groups of a word, if it has any. */
    method CacheWord(word: nat) returns (some: bool)
      requires Valid() && (word + 1) * WORD <= GROUPS && NoPartial(cache2MB.Contents(), word * WORD)
      modifies cache2MB, cache2MB.cache
      ensures Valid() && CacheGrown(old(cache2MB.Contents()), cache2MB.Contents())
      ensures some ==> cache2MB.Contents() != []
      ensures !some ==> cache2MB.Contents() == old(cache2MB.Contents()) && NoPartial(cache2MB.Contents(), (word + 1) * WORD)
      ensures some && old(cache2MB.Contents()) == [] ==> FirstPartial(Bits(), cache2MB.Contents()[0])
    {
      hide Consistent, GroupUsed, LowestOfMask, FirstPartial;
      var partialMask := And(anyUsed32MB[word * WORD..(word + 1) * WORD], anyFree32MB[word * WORD..(word + 1) * WORD]);
      assert forall g :: word * WORD <= g < (word + 1) * WORD ==>
        partialMask[g - word * WORD] == (anyUsed32MB[g] && anyFree32MB[g]);
      if true in partialMask {
        CachePartial(word, partialMask);
        if old(cache2MB.Contents()) == [] && cache2MB.Contents() != [] {
          MaskIsFirst(cache2MB.Contents()[0], word, partialMask);
        }
        return !cache2MB.IsEmpty();
      }
      return false;
    }

    /** Caches the first region of the first group that is not used at all. */
    method CacheFreeGroup() returns (some: bool)
      requires Valid() && |cache2MB.Contents()| < CACHE_SIZE
      modifies cache2MB, cache2MB.cache
      ensures Valid() && CacheGrown(old(cache2MB.Contents()), cache2MB.Contents())
      ensures some ==> cache2MB.Contents() != []
      ensures !some ==> cache2MB.Contents() == old(cache2MB.Contents()) && forall g :: 0 <= g < GROUPS ==> anyUsed32MB[g]
      ensures some && old(cache2MB.Contents()) == [] ==> FirstOfFreeGroup(Bits(), cache2MB.Contents()[0])
    {
      hide Consistent, FirstOfFreeGroup;
      var i := 0;
      while i < GROUPS / WORD
        invariant i <= GROUPS / WORD && Valid()
        invariant cache2MB.Contents() == old(cache2MB.Contents()) && forall g :: 0 <= g < i * WORD ==> anyUsed32MB[g]
      {
        var freeRegions := Not(anyUsed32MB[i * WORD..(i + 1) * WORD]);
        assert forall g :: i * WORD <= g < (i + 1) * WORD ==> freeRegions[g - i * WORD] == !anyUsed32MB[g];
        if true in freeRegions {
          var group := i * WORD + CountrZero(freeRegions);
          FreeGroupIsUntouched(group);
          forall g | i * WORD <= g < group
            ensures anyUsed32MB[g]
          {
            assert !freeRegions[g - i * WORD];
          }
          FreeGroupIsFirst(group);
          cache2MB.Push(group * GROUP_REGIONS);
          return true;
        }
        i := i + 1;
      }
      return false;
    }

    lemma FreeGroupIsFirst(group: nat)
      requires Shaped() && group < GROUPS && !anyUsed32MB[group] && forall g :: 0 <= g < group ==> anyUsed32MB[g]
      ensures FirstOfFreeGroup(Bits(), group * GROUP_REGIONS)
    {
      assert GroupOf(group * GROUP_REGIONS) == group;
    }

    lemma NoneInAnyPartial()
      requires Shaped() && NoPartial([], GROUPS)
      ensures NoneInPartial(Bits())
    {
      forall r | 0 <= r < REGIONS && IsPartial(Bits(), GroupOf(r))
        ensures anyUsed2MB[r]
      {
        var g := GroupOf(r);
        assert g * GROUP_REGIONS <= r < (g + 1) * GROUP_REGIONS && anyUsed32MB[g] && anyFree32MB[g];
        assert GroupUsed(anyUsed2MB[..], g) && anyUsed2MB[..][r];
      }
    }

    lemma GrownFromNothing(before: seq<nat>, after: seq<nat>)
      requires Shaped() && AllRegions(after) && CacheGrown(before, after) && after != []
      ensures before != [] ==> after[0] == before[0]
      ensures before == [] ==> !anyUsed2MB[after[0]]
    {
    }

    /** Tries the oldest cached region, then fills the cache from partly used groups and tries the
        next one, then takes a region of an untouched group. */
    method Allocate2MB() returns (address: nat)
      requires Valid()
      modifies this`regions, anyUsed2MB, anyFree2MB, anyUsed32MB, anyFree32MB, cache2MB, cache2MB.cache
      ensures Valid() && RegionAnswer(address, old(regions))
      ensures var s := old(cache2MB.Contents());
              (address == 0 <==>
                 && (s == [] || old(anyUsed2MB[..])[s[0]])
                 && if |s| > 1 then old(anyUsed2MB[..])[s[1]] else forall r :: 0 <= r < REGIONS ==> old(anyUsed2MB[..])[r])
      ensures var s := old(cache2MB.Contents());
              && (s != [] && !old(anyUsed2MB[..])[s[0]] ==> address == s[0] * PDE_COVERAGE)
              && (|s| > 1 && old(anyUsed2MB[..])[s[0]] && address != 0 ==> address == s[1] * PDE_COVERAGE)
      ensures Bits() == if address == 0 then old(Bits()) else WithRegion(old(Bits()), address / PDE_COVERAGE)
      ensures var s := old(cache2MB.Contents());
              |s| <= 1 && (s == [] || old(anyUsed2MB[..])[s[0]]) && address != 0 ==>
                || FirstPartial(old(Bits()), address / PDE_COVERAGE)
                || (NoneInPartial(old(Bits())) && FirstOfFreeGroup(old(Bits()), address / PDE_COVERAGE))
    {
      hide Consistent, GroupUsed, CacheGrown, WithRegion, FirstPartial, NoneInPartial, FirstOfFreeGroup;
      address := AllocateCached2MBPage();
      if address != 0 {
        return;
      }
      ghost var cached := cache2MB.Contents();
      var some := FillCache();
      if some {
        GrownFromNothing(cached, cache2MB.Contents());
        address := AllocateCached2MBPage();
      }
    }

    /** Caches untouched regions of partly used groups, from the first word of groups that has any; without
        one, the first region of a group that is not used at all. */
    method FillCache() returns (some: bool)
      requires Valid() && |cache2MB.Contents()| < CACHE_SIZE
      modifies cache2MB, cache2MB.cache
      ensures Valid() && CacheGrown(old(cache2MB.Contents()), cache2MB.Contents())
      ensures some ==> cache2MB.Contents() != []
      ensures !some ==> cache2MB.Contents() == old(cache2MB.Contents()) && forall r :: 0 <= r < REGIONS ==> anyUsed2MB[r]
      ensures some && old(cache2MB.Contents()) == [] ==>
                || FirstPartial(Bits(), cache2MB.Contents()[0])
                || (NoneInPartial(Bits()) && FirstOfFreeGroup(Bits(), cache2MB.Contents()[0]))
    {
      hide Consistent, GroupUsed, CacheGrown, NoPartial, FirstPartial, NoneInPartial, FirstOfFreeGroup;
      ghost var cached := cache2MB.Contents();
      NoGroupsYet(cached);
      GrownByNothing(cached);
      var i := 0;
      while i < GROUPS / WORD
        invariant i <= GROUPS / WORD && Valid() && cache2MB.Contents() == cached && NoPartial(cached, i * WORD)
        invariant CacheGrown(cached, cached)
      {
        some := CacheWord(i);
        if some {
          return;
        }
        i := i + 1;
      }
      if cached == [] {
        NoneInAnyPartial();
      }
      some := CacheFreeGroup();
      if !some {
        NothingUntouched(cached);
      }
    }

    lemma GrownByNothing(cached: seq<nat>)
      requires Shaped() && AllRegions(cached)
      ensures CacheGrown(cached, cached)
    {
    }

    lemma NoGroupsYet(cached: seq<nat>)
      requires Shaped()
      ensures NoPartial(cached, 0)
    {
    }

    lemma FreeGroupIsUntouched(group: nat)
      requires Valid() && group < GROUPS && !anyUsed32MB[group]
      ensures !anyUsed2MB[group * GROUP_REGIONS]
    {
      assert GroupOf(group * GROUP_REGIONS) == group;
    }

    // ---------- allocating a frame ----------

    /** The address is null, or that of a frame that has just become live. */
    ghost predicate FrameAnswer(address: nat, before: set<nat>)
      reads this
    {
      if address == 0 then frames == before
      else address % FRAME_SIZE == 0 && address / FRAME_SIZE !in before && frames == before + {address / FRAME_SIZE}
    }

    /** Marks one free frame of a marked region. */
    method TakeFrame(frame: nat)
      requires Valid() && frame < FRAMES && !used4KB[frame] && RegionOf(frame) !in regions && cached4KB == None
      requires anyUsed2MB[RegionOf(frame)] && GroupTrusted(Bits(), RegionOf(frame))
      modifies this`frames, used4KB
      ensures Valid() && frames == old(frames) + {frame} && frame !in old(frames) && frame >= DMA_FRAMES
      ensures used4KB[..] == old(used4KB[..])[frame := true]
    {
      hide Consistent, GroupTrusted;
      assert Available(Bits(), regions, frame);
      FrameKeeps(Bits(), frames, regions, frame);
      used4KB[frame] := true;
      frames := frames + {frame};
      assert Bits() == WithFrame(old(Bits()), frame);
    }

    /** The word with the first free frame of a region, or the end of the region. */
    method FindFreeWord(region: nat) returns (word: nat)
      requires Shaped() && region < REGIONS
      ensures region * 8 <= word <= (region + 1) * 8
      ensures word == (region + 1) * 8 <==> RegionFull(used4KB[..], region)
      ensures word < (region + 1) * 8 ==> true in Not(used4KB[word * WORD..(word + 1) * WORD])
      ensures forall f :: region * REGION_FRAMES <= f < word * WORD ==> used4KB[f]
    {
      word := region * REGION_FRAMES / WORD;
      while word < (region + 1) * REGION_FRAMES / WORD
        invariant region * 8 <= word <= (region + 1) * 8
        invariant forall f :: region * REGION_FRAMES <= f < word * WORD ==> used4KB[f]
      {
        var free := Not(used4KB[word * WORD..(word + 1) * WORD]);
        if true in free {
          var k := CountrZero(free);
          assert !used4KB[word * WORD + k];
          return;
        }
        forall f | word * WORD <= f < (word + 1) * WORD
          ensures used4KB[f]
        {
          assert !free[f - word * WORD];
        }
        word := word + 1;
      }
    }

    /** Remembers the next free frame of a word. */
    method Remember(word: nat, ghost frame: nat)
      requires Valid() && frame < FRAMES && word == frame / WORD && cached4KB == None
      modifies this`cached4KB
      ensures Valid() && cached4KB == NextInWord(used4KB[..], frame)
    {
      hide Consistent;
      assert used4KB[..][word * WORD..(word + 1) * WORD] == used4KB[word * WORD..(word + 1) * WORD];
      var free := Not(used4KB[word * WORD..(word + 1) * WORD]);
      if true in free {
        cached4KB := Some(word * WORD + CountrZero(free));
      }
    }

    /** Takes the first free frame of a marked region, and remembers the next one in the same word. */
    method TakeFromRegion(region: nat) returns (address: nat)
      requires Valid() && region < REGIONS && region !in regions && cached4KB == None
      requires anyUsed2MB[region] && GroupTrusted(Bits(), region)
      modifies this`frames, this`cached4KB, used4KB
      ensures Valid() && FrameAnswer(address, old(frames))
      ensures address == 0 <==> old(RegionFull(used4KB[..], region))
      ensures address == 0 ==> used4KB[..] == old(used4KB[..]) && cached4KB == None
      ensures address != 0 ==>
                var f := address / FRAME_SIZE;
                && RegionOf(f) == region && f < FRAMES && !old(used4KB[..])[f] && used4KB[..] == old(used4KB[..])[f := true]
                && (forall f' :: region * REGION_FRAMES <= f' < f ==> old(used4KB[..])[f'])
                && cached4KB == NextInWord(used4KB[..], f)
    {
      hide Consistent, GroupTrusted, RegionFull, CachesFit, NextInWord;
      var word := FindFreeWord(region);
      if word == (region + 1) * REGION_FRAMES / WORD {
        return 0;
      }
      var free := Not(used4KB[word * WORD..(word + 1) * WORD]);
      var frame := word * WORD + CountrZero(free);
      forall f | word * WORD <= f < frame
        ensures used4KB[f]
      {
        assert !free[f - word * WORD];
      }
      TakeFrame(frame);
      Remember(word, frame);
      return frame * FRAME_SIZE;
    }

    /** Searches the regions of a group that claims to have a free frame. */
    method SearchGroup(group: nat) returns (address: nat)
      requires Valid() && group < GROUPS && anyFree32MB[group] && cached4KB == None
      modifies this`frames, this`cached4KB, used4KB, anyUsed2MB, anyFree2MB, anyUsed32MB, anyFree32MB
      ensures Valid() && FrameAnswer(address, old(frames)) && address != 0
      ensures var f := address / FRAME_SIZE;
              && Took(old(Bits()), Bits(), f) && SearchFlags(old(Bits()), Bits(), f) && LowestOpen(old(Bits()), f)
              && GroupOf(RegionOf(f)) == group && cached4KB == NextInWord(used4KB[..], f)
    {
      ghost var b0 := Bits();
      hide Consistent, FrameRemains, CachesFit, Took, SearchFlags, LowestOpen, Searched, NextInWord;
      SearchBegins(b0, group);
      var j := 0;
      while j < GROUP_REGIONS
        invariant j <= GROUP_REGIONS && Valid() && cached4KB == None && frames == old(frames)
        invariant Searched(b0, Bits(), group, j) && FrameRemains(Bits(), regions, group, j)
      {
        address := SearchNext(group * GROUP_REGIONS + j, group, j, b0);
        if address != 0 {
          return;
        }
        j := j + 1;
      }
      assert false;
    }

    /** Searches the next region of a group, or passes over it if it does not claim to have a free frame. */
    method SearchNext(region: nat, ghost group: nat, ghost j: nat, ghost b0: Maps) returns (address: nat)
      requires Valid() && cached4KB == None && j < GROUP_REGIONS && group < GROUPS && region == group * GROUP_REGIONS + j
      requires Searched(b0, Bits(), group, j) && FrameRemains(Bits(), regions, group, j)
      modifies this`frames, this`cached4KB, used4KB, anyUsed2MB, anyFree2MB, anyUsed32MB, anyFree32MB
      ensures Valid() && FrameAnswer(address, old(frames))
      ensures address == 0 ==>
                cached4KB == None && Searched(b0, Bits(), group, j + 1) && FrameRemains(Bits(), regions, group, j + 1)
      ensures address != 0 ==>
                var f := address / FRAME_SIZE;
                && Took(b0, Bits(), f) && SearchFlags(b0, Bits(), f) && LowestOpen(b0, f)
                && GroupOf(RegionOf(f)) == group && cached4KB == NextInWord(used4KB[..], f)
    {
      ghost var b := Bits();
      hide Consistent, FrameRemains, RegionFull, CachesFit, Took, SearchFlags, LowestOpen, Searched, NextInWord, MarkedRegion, WithFrame;
      if !anyFree2MB[region] {
        ClosedHasNone(b, frames, regions, group, j);
        PassesClosed(b0, b, group, j);
        return 0;
      }
      UpwardsOf(b, frames, regions);
      address := SearchRegion(region, group, j);
      if address != 0 {
        SearchFinds(b0, b, group, j, address / FRAME_SIZE);
      } else {
        PassesFull(b0, b, group, j);
      }
    }

    lemma UpwardsOf(b: Maps, frames: set<nat>, regions: set<nat>)
      requires Consistent(b, frames, regions)
      ensures UsedUpwards(b)
    {
    }

    /** Marks a region that claims to have a free frame, and takes its first one if there is any. */
    method SearchRegion(region: nat, ghost group: nat, ghost j: nat) returns (address: nat)
      requires Valid() && cached4KB == None && j < GROUP_REGIONS && group < GROUPS && region == group * GROUP_REGIONS + j
      requires anyFree2MB[region] && FrameRemains(Bits(), regions, group, j)
      modifies this`frames, this`cached4KB, used4KB, anyUsed2MB, anyFree2MB, anyUsed32MB, anyFree32MB
      ensures Valid() && FrameAnswer(address, old(frames))
      ensures address == 0 ==> cached4KB == None && FrameRemains(Bits(), regions, group, j + 1)
      ensures address == 0 ==> RegionFull(old(Bits()).used4KB, region) && Bits() == MarkedRegion(old(Bits()), region)
      ensures address != 0 ==>
                var f := address / FRAME_SIZE;
                && f < FRAMES && RegionOf(f) == region && !old(Bits()).used4KB[f]
                && (forall f' :: region * REGION_FRAMES <= f' < f ==> old(Bits()).used4KB[f'])
                && Bits() == WithFrame(MarkedRegion(old(Bits()), region), f) && cached4KB == NextInWord(used4KB[..], f)
    {
      ghost var b := Bits();
      OpenIsNotLive(b, frames, regions, region);
      MarkKeeps(b, frames, regions, region);
      hide Consistent, FrameRemains, GroupTrusted, RegionFull, NextInWord;
      Mark2MBRegionUsed(region);
      assert Valid();
      assert anyUsed2MB[region];
      address := TakeFromRegion(region);
      if address == 0 {
        FullHasNone(b, Bits(), regions, group, j);
      } else {
        assert Bits().used4KB == b.used4KB[address / FRAME_SIZE := true];
      }
    }

    /** Takes the remembered frame. */
    method TakeHint(frame: nat) returns (address: nat)
      requires Valid() && cached4KB == None && frame < FRAMES && !used4KB[frame] && anyFree2MB[RegionOf(frame)]
      modifies this`frames, used4KB, anyUsed2MB, anyFree2MB, anyUsed32MB, anyFree32MB
      ensures Valid() && FrameAnswer(address, old(frames)) && address == frame * FRAME_SIZE && address != 0
      ensures Took(old(Bits()), Bits(), frame) && HintFlags(old(Bits()), Bits(), frame)
    {
      hide Consistent, MarkedRegion, Took, HintFlags;
      ghost var b := Bits();
      HintTook(b, frame);
      OpenIsNotLive(b, frames, regions, RegionOf(frame));
      FrameThenMarkKeeps(b, frames, regions, frame);
      used4KB[frame] := true;
      assert Bits() == WithFrame(b, frame);
      Mark2MBRegionUsed(RegionOf(frame));
      frames := frames + {frame};
      return frame * FRAME_SIZE;
    }

    /** Searches one group of a word that claims to have a free frame, a partly used one first. */
    method SearchWord(word: nat) returns (address: nat)
      requires Valid() && (word + 1) * WORD <= GROUPS && cached4KB == None
      modifies this`frames, this`cached4KB, used4KB, anyUsed2MB, anyFree2MB, anyUsed32MB, anyFree32MB
      ensures Valid() && FrameAnswer(address, old(frames))
      ensures address == 0 <==> forall g :: word * WORD <= g < (word + 1) * WORD ==> !old(anyFree32MB[..])[g]
      ensures address == 0 ==> cached4KB == None && Bits() == old(Bits())
      ensures address != 0 ==>
                var f := address / FRAME_SIZE;
                && Took(old(Bits()), Bits(), f) && SearchFlags(old(Bits()), Bits(), f) && LowestOpen(old(Bits()), f)
                && GroupOf(RegionOf(f)) / WORD == word && FirstOfWord(old(Bits()), GroupOf(RegionOf(f)))
                && cached4KB == NextInWord(used4KB[..], f)
    {
      hide Consistent, CachesFit, Took, SearchFlags, LowestOpen, NextInWord, FirstOfWord;
      var group := ChooseGroup(word);
      if group.None? {
        return 0;
      }
      address := SearchGroup(group.value);
    }

    /** The group of a word that is to be searched. */
    method ChooseGroup(word: nat) returns (group: Option<nat>)
      requires Shaped() && (word + 1) * WORD <= GROUPS
      ensures group.None? <==> forall g :: word * WORD <= g < (word + 1) * WORD ==> !anyFree32MB[g]
      ensures group.Some? ==> group.value / WORD == word && FirstOfWord(Bits(), group.value) && anyFree32MB[group.value]
    {
      hide FirstOfWord;
      ghost var b := Bits();
      ChosenIsFirst(b, word);
      var hasFree := anyFree32MB[word * WORD..(word + 1) * WORD];
      var partial := And(anyUsed32MB[word * WORD..(word + 1) * WORD], hasFree);
      var target := if true in partial then partial else hasFree;
      assert hasFree == b.free32MB[word * WORD..(word + 1) * WORD];
      assert anyUsed32MB[word * WORD..(word + 1) * WORD] == b.used32MB[word * WORD..(word + 1) * WORD];
      if true in target {
        return Some(word * WORD + CountrZero(target));
      }
      return None;
    }

    /** Takes the remembered frame if its region still has room; otherwise searches one group of the first
        word that claims to have a free frame, a partly used group if there is one. */
    method Allocate() returns (address: nat)
      requires Valid()
      modifies this`frames, this`cached4KB, used4KB, anyUsed2MB, anyFree2MB, anyUsed32MB, anyFree32MB
      ensures Valid() && FrameAnswer(address, old(frames))
      ensures old(HintUsable()) ==>
                address == old(cached4KB).value * FRAME_SIZE && address != 0 && HintFlags(old(Bits()), Bits(), address / FRAME_SIZE)
      ensures address == 0 <==> !old(HintUsable()) && forall g :: 0 <= g < GROUPS ==> !old(anyFree32MB[..])[g]
      ensures if address == 0 then Bits() == old(Bits()) else Took(old(Bits()), Bits(), address / FRAME_SIZE)
      ensures address != 0 && !old(HintUsable()) ==>
                var f := address / FRAME_SIZE;
                && SearchFlags(old(Bits()), Bits(), f) && LowestOpen(old(Bits()), f) && FirstOfWord(old(Bits()), GroupOf(RegionOf(f)))
                && forall g :: 0 <= g < GROUPS && g / WORD < GroupOf(RegionOf(f)) / WORD ==> !old(anyFree32MB[..])[g]
      ensures cached4KB == if address == 0 || old(HintUsable()) then None else NextInWord(used4KB[..], address / FRAME_SIZE)
    {
      hide Consistent, Took, HintFlags, SearchFlags, LowestOpen, NextInWord, FirstOfWord;
      var cached := Try4KBCache();
      if cached.Some? {
        address := TakeHint(cached.value);
        return;
      }
      hide CachesFit, HintUsable;
      var i := 0;
      while i < GROUPS / WORD
        invariant i <= GROUPS / WORD && Valid() && cached4KB == None && frames == old(frames)
        invariant Bits() == old(Bits())
        invariant forall g :: 0 <= g < i * WORD ==> !old(anyFree32MB[..])[g]
      {
        address := SearchWord(i);
        if address != 0 {
          return;
        }
        i := i + 1;
      }
      return 0;
    }

    // ---------- giving back ----------

    /** Clears the bit of a frame, and the flags of its region as far as they follow. */
    method ClearFrame(region: nat)
      requires Shaped() && cache2MB.Valid() && AllRegions(cache2MB.Contents()) && region < FRAMES
      modifies used4KB, anyUsed2MB, anyFree2MB, cache2MB, cache2MB.cache
      ensures Bits() == ClearedFrame(old(Bits()), region)
      ensures cache2MB.Valid() && AllRegions(cache2MB.Contents())
      ensures cache2MB.Contents() == Released(old(cache2MB.Contents()), Bits(), region)
    {
      ghost var b := Bits();
      var parent2MB := RegionOf(region);
      used4KB[region] := false;
      anyFree2MB[parent2MB] := true;
      assert used4KB[..] == b.used4KB[region := false] && anyFree2MB[..] == b.free2MB[parent2MB := true];
      hide AnyFrameUsed;
      var used := Region2MBHasUsed(parent2MB);
      if !used {
        anyUsed2MB[parent2MB] := false;
        cache2MB.Push(parent2MB);
        assert anyUsed2MB[..] == b.used2MB[parent2MB := false];
      }
    }

    method FreeUsed(region: nat)
      requires Valid() && DMA_FRAMES <= region < FRAMES && used4KB[region]
      modifies this`frames, this`cached4KB, used4KB, anyUsed2MB, anyFree2MB, anyUsed32MB, anyFree32MB, cache2MB, cache2MB.cache
      ensures Valid() && frames == old(frames) - {region} && HintUsable() && cached4KB == Some(region)
      ensures cache2MB.Contents() == Released(old(cache2MB.Contents()), Bits(), region)
      ensures Bits() == WithoutFrame(old(Bits()), region)
    {
      hide Consistent, ClearedFrame, UpdatedGroup;
      ghost var b := Bits();
      FreeFrameKeeps(b, frames, regions, region);
      ClearFrame(region);
      var fullyFree := Update32MBFlags(GroupOf(RegionOf(region)));
      cached4KB := Some(region);
      frames := frames - {region};
    }

    method Free(address: nat) returns (ok: bool)
      requires Valid()
      modifies this`frames, this`cached4KB, used4KB, anyUsed2MB, anyFree2MB, anyUsed32MB, anyFree32MB, cache2MB, cache2MB.cache
      ensures Valid()
      ensures ok <==> DMA_FRAMES * FRAME_SIZE <= address < FRAMES * FRAME_SIZE
      ensures frames == if ok then old(frames) - {address / FRAME_SIZE} else old(frames)
      ensures ok && old(used4KB[address / FRAME_SIZE]) ==> HintUsable() && cached4KB == Some(address / FRAME_SIZE)
      ensures ok && old(used4KB[address / FRAME_SIZE]) ==>
                Bits() == WithoutFrame(old(Bits()), address / FRAME_SIZE)
                && cache2MB.Contents() ==
                     if AnyFrameUsed(used4KB[..], RegionOf(address / FRAME_SIZE)) || |old(cache2MB.Contents())| == CACHE_SIZE
                     then old(cache2MB.Contents()) else old(cache2MB.Contents()) + [RegionOf(address / FRAME_SIZE)]
      ensures !ok || !old(used4KB[address / FRAME_SIZE]) ==>
                Bits() == old(Bits()) && cached4KB == old(cached4KB) && cache2MB.Contents() == old(cache2MB.Contents())
    {
      if address == 0 || address >= FRAMES * FRAME_SIZE || address < DMA_FRAMES * FRAME_SIZE {
        return false;
      }
      var region := address / FRAME_SIZE;
      ghost var b := Bits();
      if !used4KB[region] {
        return true;
      }
      hide Consistent, WithoutFrame, AnyFrameUsed;
      FreeUsed(region);
      return true;
    }

    /** Gives a region back.  Its frames must not be live on their own. */
    method Free2MB(address: nat) returns (ok: bool)
      requires Valid()
      requires forall f :: f in frames ==> RegionOf(f) != address / PDE_COVERAGE
      modifies this`regions, used4KB, anyUsed2MB, anyFree2MB, anyUsed32MB, anyFree32MB, cache2MB, cache2MB.cache
      ensures Valid()
      ensures ok <==> DMA_FRAMES * FRAME_SIZE <= address < FRAMES * FRAME_SIZE && old(anyUsed2MB[address / PDE_COVERAGE])
      ensures regions == if ok then old(regions) - {address / PDE_COVERAGE} else old(regions)
      ensures Bits() == if ok then WithoutRegion(old(Bits()), address / PDE_COVERAGE) else old(Bits())
      ensures cache2MB.Contents() == if !ok || |old(cache2MB.Contents())| == CACHE_SIZE then old(cache2MB.Contents())
                                     else old(cache2MB.Contents()) + [address / PDE_COVERAGE]
    {
      if address == 0 || address >= FRAMES * FRAME_SIZE || address < DMA_FRAMES * FRAME_SIZE {
        return false;
      }
      var region := address / PDE_COVERAGE;
      if !anyUsed2MB[region] {
        return false;
      }
      ghost var b := Bits();
      FreeRegionKeeps(b, frames, regions, region);
      hide Consistent, WithoutRegion;
      Mark2MBRegionFreed(region);
      regions := regions - {region};
      return true;
    }
  }

  /** The summaries can lose frames: of three free frames in a memory whose other regions are all in
      use, two are handed out, and then null is returned although the third is free. */
  method SummariesLoseFrames() returns (allocator: FrameAllocator, first: nat, second: nat, third: nat, ghost lost: nat)
    ensures first != 0 && second != 0 && third == 0
    ensures allocator.Valid() && Available(allocator.Bits(), allocator.regions, lost)
  {
    allocator := ThreeFreeFrames();
    first := TakeOne(allocator);
    hide *;
    second, lost := TakeAnother(allocator, first / FRAME_SIZE);
    third := FindNone(allocator, lost);
  }

  method ThreeFreeFrames() returns (allocator: FrameAllocator)
    ensures allocator.Valid() && allocator.regions == {} && allocator.cached4KB == None
    ensures OnlyThree(allocator.Bits())
    ensures fresh(allocator) && fresh(allocator.used4KB) && fresh(allocator.anyUsed2MB) && fresh(allocator.anyFree2MB)
    ensures fresh(allocator.anyUsed32MB) && fresh(allocator.anyFree32MB)
  {
    var memory := [Descriptor(DMA_FRAMES * FRAME_SIZE, 3)];
    allocator := new FrameAllocator(memory);
    ThreeDescribed(memory[0]);
    assert OnlyFree(allocator.Bits(), DMA_FRAMES, 3);
    hide Described, Summarised, Consistent, FrameAllocator.CachesFit, OnlyFree;
    ThreeFrames(allocator.Bits());
  }

  method TakeOne(allocator: FrameAllocator) returns (address: nat)
    requires allocator.Valid() && allocator.regions == {} && allocator.cached4KB == None && OnlyThree(allocator.Bits())
    modifies allocator, allocator.used4KB, allocator.anyUsed2MB, allocator.anyFree2MB, allocator.anyUsed32MB, allocator.anyFree32MB
    ensures allocator.Valid() && allocator.regions == {} && allocator.HintUsable()
    ensures address != 0 && AllClosed(allocator.Bits()) && StillFree(allocator.Bits(), {address / FRAME_SIZE})
  {
    ghost var b := allocator.Bits();
    hide Consistent, Took, OnlyThree, NextInWord, FrameAllocator.CachesFit, FrameAllocator.FrameAnswer, StillFree, AllClosed;
    ThreeHaveAFlag(b);
    address := allocator.Allocate();
    TookOne(b, allocator.Bits(), address);
    FreeIsOpen(allocator.Bits(), allocator.frames, allocator.cached4KB);
  }

  method TakeAnother(allocator: FrameAllocator, ghost taken: nat) returns (address: nat, ghost lost: nat)
    requires allocator.Valid() && allocator.regions == {} && allocator.HintUsable()
    requires AllClosed(allocator.Bits()) && StillFree(allocator.Bits(), {taken})
    modifies allocator, allocator.used4KB, allocator.anyUsed2MB, allocator.anyFree2MB, allocator.anyUsed32MB, allocator.anyFree32MB
    ensures allocator.Valid() && allocator.regions == {} && allocator.cached4KB == None
    ensures address != 0 && AllClosed(allocator.Bits()) && lost < FRAMES && !allocator.used4KB[lost]
  {
    ghost var b := allocator.Bits();
    hide Consistent, Took, NextInWord, FrameAllocator.CachesFit, FrameAllocator.FrameAnswer, StillFree, AllClosed;
    address := allocator.Allocate();
    lost := TookAnother(b, allocator.Bits(), address, taken);
  }

  method FindNone(allocator: FrameAllocator, ghost free: nat) returns (address: nat)
    requires allocator.Valid() && allocator.regions == {} && allocator.cached4KB == None
    requires AllClosed(allocator.Bits()) && free < FRAMES && !allocator.used4KB[free]
    modifies allocator, allocator.used4KB, allocator.anyUsed2MB, allocator.anyFree2MB, allocator.anyUsed32MB, allocator.anyFree32MB
    ensures address == 0 && allocator.Valid() && Available(allocator.Bits(), allocator.regions, free)
  {
    hide Consistent, Took, NextInWord, FrameAllocator.CachesFit, FrameAllocator.FrameAnswer;
    address := allocator.Allocate();
  }

  lemma ThreeDescribed(d: Descriptor)
    requires d == Descriptor(DMA_FRAMES * FRAME_SIZE, 3)
    ensures forall f :: Described([d], f) <==> DMA_FRAMES <= f < DMA_FRAMES + 3
  {
    assert Trimmed(d) == d;
    forall f
      ensures Described([d], f) <==> Covers(d, f)
    {
      assert [d][0] == d;
    }
  }

  /** The three frames above the DMA zone are free, but for the taken ones. */
  ghost predicate StillFree(b: Maps, taken: set<nat>) {
    b.Sized() && forall f: nat :: DMA_FRAMES <= f < DMA_FRAMES + 3 && b.used4KB[f] ==> f in taken
  }

  /** Three free frames, in a group that is flagged as free; every region is in use. */
  ghost predicate OnlyThree(b: Maps) {
    && OnlyFree(b, DMA_FRAMES, 3) && (forall r :: 0 <= r < REGIONS ==> b.used2MB[r])
    && b.free32MB[0] && forall g :: 0 < g < GROUPS ==> !b.free32MB[g]
  }

  lemma ThreeHaveAFlag(b: Maps)
    requires OnlyThree(b)
    ensures b.Sized() && b.free32MB[0]
  {
  }

  lemma TookOne(b: Maps, m: Maps, address: nat)
    requires OnlyThree(b) && Took(b, m, address / FRAME_SIZE)
    ensures AllClosed(m) && StillFree(m, {address / FRAME_SIZE}) && NextInWord(m.used4KB, address / FRAME_SIZE).Some?
  {
    var f := address / FRAME_SIZE;
    hide NextInWord;
    TakingCloses(b, m, f);
    NextInWordFinds(m.used4KB, f, if f == DMA_FRAMES then DMA_FRAMES + 1 else DMA_FRAMES);
  }

  /** A remembered frame lies in a region that is flagged as free, as long as no region is live. */
  lemma FreeIsOpen(b: Maps, frames: set<nat>, frame: Option<nat>)
    requires Consistent(b, frames, {}) && frame.Some? && frame.value < FRAMES && !b.used4KB[frame.value]
    ensures b.free2MB[RegionOf(frame.value)]
  {
  }

  lemma TookAnother(b: Maps, m: Maps, address: nat, taken: nat) returns (lost: nat)
    requires AllClosed(b) && StillFree(b, {taken}) && Took(b, m, address / FRAME_SIZE)
    ensures AllClosed(m) && lost < FRAMES && !m.used4KB[lost]
  {
    var a, x := DMA_FRAMES, address / FRAME_SIZE;
    lost := if a != taken && a != x then a else if a + 1 != taken && a + 1 != x then a + 1 else a + 2;
  }

  predicate AllRegions(s: seq<nat>) {
    forall i :: 0 <= i < |s| ==> s[i] < REGIONS
  }

  /** The cached regions after a frame has been freed: its region is added if no frame of it is used. */
  function Released(s: seq<nat>, b: Maps, frame: nat): seq<nat>
    requires b.Sized() && frame < FRAMES
  {
    if AnyFrameUsed(b.used4KB, RegionOf(frame)) then s else Pushed(s, RegionOf(frame))
  }

  function Popped(s: seq<nat>): seq<nat> {
    if s == [] then s else s[1..]
  }

  function Pushed(s: seq<nat>, entry: nat): seq<nat> {
    if |s| == CACHE_SIZE then s else s + [entry]
  }
}
