/** The cache through which the entries of a partition table are read: which blocks it holds when an
    entry is read, and for which tables every entry is read from its place. */
module EntryCache {
  import opened Divisions

  const ENTRY_BYTES: nat := 128

  /** The sizes that decide what is cached: entries whole entries fit the cache of so many blocks. */
  datatype Geometry = Geometry(entrySize: nat, blockSize: nat, blocks: nat, entries: nat)

  /** A cache for the given number of entries, or of one block if none are wanted. */
  function GeometryOf(entrySize: nat, blockSize: nat, wanted: nat): Geometry
    requires entrySize > 0 && blockSize > 0
  {
    var blocks := RoundUp(if wanted * entrySize == 0 then blockSize else wanted * entrySize, blockSize);
    Geometry(entrySize, blockSize, blocks, Div(blocks * blockSize, entrySize))
  }

  predicate Plausible(g: Geometry) {
    ENTRY_BYTES <= g.entrySize <= g.blockSize && g.blocks > 0 && g.entries == Div(g.blocks * g.blockSize, g.entrySize)
  }

  lemma GeometryIsPlausible(entrySize: nat, blockSize: nat, wanted: nat)
    requires ENTRY_BYTES <= entrySize <= blockSize
    ensures Plausible(GeometryOf(entrySize, blockSize, wanted))
  {
    hide RoundUp, Div;
    RoundUpBounds(if wanted * entrySize == 0 then blockSize else wanted * entrySize, blockSize);
  }

  /** The entries fill the cache but for less than one entry. */
  lemma Filled(g: Geometry)
    requires Plausible(g)
    ensures g.entries > 0 && g.entries * g.entrySize <= g.blocks * g.blockSize < g.entries * g.entrySize + g.entrySize
  {
    hide Div;
    Floor(g.blocks * g.blockSize, g.entrySize);
    Distribute(g.entries, 1, g.entrySize);
    Monotone(1, g.blocks, g.blockSize);
  }

  /** Sizing the cache once more for the entries that fit it changes nothing. */
  lemma SameGeometry(entrySize: nat, blockSize: nat, wanted: nat)
    requires ENTRY_BYTES <= entrySize <= blockSize
    ensures var g := GeometryOf(entrySize, blockSize, wanted); GeometryOf(entrySize, blockSize, g.entries) == g
  {
    var g := GeometryOf(entrySize, blockSize, wanted);
    GeometryIsPlausible(entrySize, blockSize, wanted);
    Filled(g);
    hide RoundUp, Div;
    Monotone(1, g.entries, entrySize);
    RoundUpIs(g.entries * entrySize, g.blocks, blockSize);
  }

  // ---------- what is cached ----------

  /** The first cached entry, as the reader numbers it, and the first cached block of the array. */
  datatype Cache = Cache(index: nat, block: nat)

  /** The cache after it has been refilled for entry i. */
  function Refilled(g: Geometry, i: nat): Cache
    requires Plausible(g)
  {
    var block := Div(i * g.entrySize, g.blockSize);
    Cache(Div(block * g.blockSize, g.entrySize), block)
  }

  /** The cache from which entry i is read, if the entries are read one after the other. */
  function CacheFor(g: Geometry, i: nat): Cache
    requires Plausible(g)
  {
    if i == 0 then Cache(0, 0)
    else var c := CacheFor(g, i - 1); if i >= c.index + g.entries then Refilled(g, i) else c
  }

  /** Where in the array entry i is read from. */
  function ReadAt(g: Geometry, i: nat): int
    requires Plausible(g)
  {
    var c := CacheFor(g, i);
    c.block * g.blockSize + (i - c.index) * g.entrySize
  }

  /** Whether the bytes of entry i that are read lie in the cache. */
  predicate WithinCache(g: Geometry, i: nat)
    requires Plausible(g)
  {
    (i - CacheFor(g, i).index) * g.entrySize + ENTRY_BYTES <= g.blocks * g.blockSize
  }

  lemma {:induction false} IndexIsBefore(g: Geometry, i: nat)
    requires Plausible(g)
    ensures CacheFor(g, i).index <= i
  {
    if i > 0 {
      IndexIsBefore(g, i - 1);
      hide Div;
      RefilledIsBefore(g, i);
    }
  }

  lemma RefilledIsBefore(g: Geometry, i: nat)
    requires Plausible(g)
    ensures Refilled(g, i).index <= i
  {
    var c := Refilled(g, i);
    hide Div;
    Floor(i * g.entrySize, g.blockSize);
    Floor(c.block * g.blockSize, g.entrySize);
    Monotone(i + 1, c.index, g.entrySize);
    Distribute(i, 1, g.entrySize);
  }

  // ---------- which tables are read entry by entry ----------

  /** The table fits the cache, or every refill begins at an entry: at the end of the cached blocks,
      or one block before it.  With a single cached block, one entry more can be read. */
  predicate InStep(g: Geometry, count: nat)
    requires Plausible(g)
  {
    || count <= g.entries
    || g.blocks * g.blockSize % g.entrySize == 0
    || (g.blocks > 1 && (g.blocks - 1) * g.blockSize % g.entrySize == 0)
    || (g.blocks == 1 && count == g.entries + 1 && g.entries * g.entrySize + ENTRY_BYTES <= g.blockSize)
  }

  predicate ReadFromItsPlace(g: Geometry, i: nat)
    requires Plausible(g)
  {
    ReadAt(g, i) == i * g.entrySize && WithinCache(g, i)
  }

  /** The block at which the first refill begins, relative to the cache. */
  function RefillBlock(g: Geometry): nat
    requires Plausible(g)
  {
    if g.blocks * g.blockSize % g.entrySize == 0 then g.blocks else g.blocks - 1
  }

  /** The first refill begins at an entry, and not with the block that is cached already. */
  predicate RefillsAtEntries(g: Geometry)
    requires Plausible(g)
  {
    RefillBlock(g) > 0 && RefillBlock(g) * g.blockSize % g.entrySize == 0
  }

  lemma RefillBlockIs(g: Geometry)
    requires Plausible(g)
    ensures var f := RefillBlock(g); f * g.blockSize <= g.entries * g.entrySize < f * g.blockSize + g.blockSize
    ensures RefillBlock(g) == g.blocks <==> g.entries * g.entrySize == g.blocks * g.blockSize
  {
    Filled(g);
    hide Div;
    DivIs(g.blocks * g.blockSize, g.entries, g.entrySize);
    Distribute(g.blocks - 1, 1, g.blockSize);
  }

  lemma {:induction false} FirstCache(g: Geometry, i: nat)
    requires Plausible(g) && i < g.entries
    ensures CacheFor(g, i) == Cache(0, 0)
  {
    if i > 0 {
      FirstCache(g, i - 1);
    }
  }

  predicate Aligned(g: Geometry, c: Cache, i: nat) {
    c.index * g.entrySize == c.block * g.blockSize && c.index <= i < c.index + g.entries
  }

  lemma AlignedReads(g: Geometry, i: nat)
    requires Plausible(g) && Aligned(g, CacheFor(g, i), i)
    ensures ReadFromItsPlace(g, i)
  {
    var c := CacheFor(g, i);
    Filled(g);
    hide CacheFor, Div;
    Distribute(c.index, i - c.index, g.entrySize);
    Distribute(i - c.index, 1, g.entrySize);
    Monotone(i - c.index + 1, g.entries, g.entrySize);
  }

  /** A refill for the first entry that is not cached begins where the entries of an aligned cache end,
      rounded down to a block. */
  lemma RefillFrom(g: Geometry, c: Cache, i: nat)
    requires Plausible(g) && c.index * g.entrySize == c.block * g.blockSize && i == c.index + g.entries
    ensures Refilled(g, i).block == c.block + RefillBlock(g)
  {
    var f := RefillBlock(g);
    RefillBlockIs(g);
    hide Div, RefillBlock;
    Distribute(c.index, g.entries, g.entrySize);
    Distribute(c.block, f, g.blockSize);
    DivIs(i * g.entrySize, c.block + f, g.blockSize);
  }

  lemma AlignedRefill(g: Geometry, c: Cache, i: nat)
    requires Plausible(g) && c.index * g.entrySize == c.block * g.blockSize && i == c.index + g.entries
    requires RefillsAtEntries(g)
    ensures Aligned(g, Refilled(g, i), i)
  {
    var f := RefillBlock(g);
    RefillFrom(g, c, i);
    RefillBlockIs(g);
    hide Div, RefillBlock;
    var q := Div(f * g.blockSize, g.entrySize);
    Quotient(f * g.blockSize, g.entrySize);
    Distribute(c.block, f, g.blockSize);
    Distribute(c.index, q, g.entrySize);
    DivIs((c.block + f) * g.blockSize, c.index + q, g.entrySize);
    Monotone(1, f, g.blockSize);
    Monotone(g.entries + 1, q, g.entrySize);
    Distribute(g.entries, 1, g.entrySize);
  }

  lemma {:induction false} StaysAligned(g: Geometry, i: nat)
    requires Plausible(g)
    ensures RefillsAtEntries(g) ==> Aligned(g, CacheFor(g, i), i)
  {
    if i == 0 {
      Filled(g);
    } else if RefillsAtEntries(g) {
      StaysAligned(g, i - 1);
      var c := CacheFor(g, i - 1);
      if i >= c.index + g.entries {
        AlignedRefill(g, c, i);
      }
    }
  }

  /** The first entry that is not cached at first. */
  lemma FirstRefill(g: Geometry)
    requires Plausible(g)
    ensures CacheFor(g, g.entries) == Refilled(g, g.entries) && Refilled(g, g.entries).block == RefillBlock(g)
    ensures RefillBlock(g) == 0 ==> CacheFor(g, g.entries) == Cache(0, 0)
  {
    Filled(g);
    FirstCache(g, g.entries - 1);
    RefillFrom(g, Cache(0, 0), g.entries);
    hide RefillBlock, Div;
    if RefillBlock(g) == 0 {
      DivIs(0, 0, g.entrySize);
    }
  }

  /** Entries are read from their places exactly where the cache begins at an entry. */
  lemma ReadFromEntries(g: Geometry, i: nat)
    requires Plausible(g) && ReadFromItsPlace(g, i)
    ensures CacheFor(g, i).block * g.blockSize % g.entrySize == 0
  {
    var c := CacheFor(g, i);
    IndexIsBefore(g, i);
    hide CacheFor, Div;
    Distribute(c.index, i - c.index, g.entrySize);
    DivIs(c.block * g.blockSize, c.index, g.entrySize);
  }

  /** With one cached block that does not end with an entry, the second entry beyond it is misread. */
  lemma SecondRefill(g: Geometry)
    requires Plausible(g) && RefillBlock(g) == 0
    ensures !ReadFromItsPlace(g, g.entries + 1)
  {
    var i := g.entries + 1;
    FirstRefill(g);
    RefillBlockIs(g);
    Filled(g);
    assert CacheFor(g, i) == Refilled(g, i);
    hide Div, RefillBlock, CacheFor;
    Distribute(g.entries, 1, g.entrySize);
    DivIs(i * g.entrySize, 1, g.blockSize);
    DivIs(g.blockSize, g.entries, g.entrySize);
    if ReadFromItsPlace(g, i) {
      ReadFromEntries(g, i);
    }
  }

  /** All entries of a table are read from their places, within the cache, if and only if the table is
      in step with it. */
  lemma ReadsInStep(g: Geometry, count: nat)
    requires Plausible(g)
    ensures (forall i: nat :: i < count ==> ReadFromItsPlace(g, i)) <==> InStep(g, count)
  {
    var f := RefillBlock(g);
    if InStep(g, count) {
      forall i: nat | i < count
        ensures ReadFromItsPlace(g, i)
      {
        ReadsWhenInStep(g, count, i);
      }
    } else {
      FirstRefill(g);
      if f > 0 {
        if ReadFromItsPlace(g, g.entries) {
          ReadFromEntries(g, g.entries);
        }
        assert !ReadFromItsPlace(g, g.entries);
      } else {
        SecondRefill(g);
        assert count == g.entries + 1 ==> !ReadFromItsPlace(g, g.entries);
        assert count > g.entries + 1 ==> !ReadFromItsPlace(g, g.entries + 1);
      }
    }
  }

  lemma ReadsWhenInStep(g: Geometry, count: nat, i: nat)
    requires Plausible(g) && InStep(g, count) && i < count
    ensures ReadFromItsPlace(g, i)
  {
    Filled(g);
    if i < g.entries {
      FirstCache(g, i);
      AlignedReads(g, i);
    } else if RefillBlock(g) > 0 {
      StaysAligned(g, i);
      AlignedReads(g, i);
    } else {
      FirstRefill(g);
    }
  }

  // ---------- reads that stay in the cache ----------

  /** Every entry that is read lies in the cache, at its place or not. */
  ghost predicate StaysWithin(g: Geometry, count: nat)
    requires Plausible(g)
  {
    forall i: nat :: i < count ==> WithinCache(g, i)
  }

  lemma InStepStays(g: Geometry, count: nat)
    requires Plausible(g) && InStep(g, count)
    ensures StaysWithin(g, count)
  {
    ReadsInStep(g, count);
    forall i: nat | i < count
      ensures WithinCache(g, i)
    {
      assert ReadFromItsPlace(g, i);
    }
  }

  /** A refilled cache begins less than an entry and a block before the entry it was refilled for. */
  lemma RefilledIsClose(g: Geometry, i: nat)
    requires Plausible(g)
    ensures (i - Refilled(g, i).index) * g.entrySize < g.blockSize + g.entrySize
  {
    var c := Refilled(g, i);
    RefilledIsBefore(g, i);
    hide Div;
    Floor(i * g.entrySize, g.blockSize);
    Floor(c.block * g.blockSize, g.entrySize);
    Distribute(c.block, 1, g.blockSize);
    Distribute(c.index, 1, g.entrySize);
    Distribute(c.index, i - c.index, g.entrySize);
  }

  /** With three cached blocks or more no read leaves the cache. */
  lemma ThreeBlocksStay(g: Geometry, count: nat)
    requires Plausible(g) && g.blocks >= 3
    ensures StaysWithin(g, count)
  {
    forall i: nat | i < count
      ensures WithinCache(g, i)
    {
      ThreeBlocksHold(g, i);
    }
  }

  lemma ThreeBlocksHold(g: Geometry, i: nat)
    requires Plausible(g) && g.blocks >= 3
    ensures WithinCache(g, i)
  {
    var c := CacheFor(g, i);
    IndexIsBefore(g, i);
    Filled(g);
    assert i < c.index + g.entries || c == Refilled(g, i);
    hide Div, CacheFor, Refilled;
    if i < c.index + g.entries {
      Distribute(i - c.index, 1, g.entrySize);
      Monotone(i - c.index + 1, g.entries, g.entrySize);
    } else {
      RefilledIsClose(g, i);
      Monotone(3, g.blocks, g.blockSize);
    }
  }

  /** With blocks of 512 bytes, the 34th entry of 136 bytes is misread, while entries of 384
      bytes, which do not divide the block either, are always in step. */
  lemma SizesThatDoNotDivide(count: nat)
    ensures !ReadFromItsPlace(GeometryOf(136, 512, 32), 33)
    ensures InStep(GeometryOf(384, 512, 32), count)
  {
    var g := GeometryOf(136, 512, 32);
    assert g == Geometry(136, 512, 9, 33);
    FirstRefill(g);
    assert Refilled(g, 33) == Cache(30, 8);
  }
}
