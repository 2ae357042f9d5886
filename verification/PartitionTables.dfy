/** Reading a GUID partition table (section 5.3 of the UEFI Specification): the batched check of the
    partition array, the cached reader of its entries, and the two passes that make partitions. */
module PartitionTables {
  import opened Common
  import opened Crc32
  import opened Divisions
  import opened EntryCache

  type Bytes = seq<bv8>

  // ---------- block devices ----------

  /** Bytes lba * blockSize on, count blocks of them. */
  function BlocksAt(disk: Bytes, blockSize: nat, lba: nat, count: nat): (b: Bytes)
    requires (lba + count) * blockSize <= |disk|
    ensures |b| == count * blockSize
  {
    assert lba * blockSize + count * blockSize == (lba + count) * blockSize;
    disk[lba * blockSize..(lba + count) * blockSize]
  }

  class Interface {
    const blockSize: nat
    const disk: Bytes

    // whether the device carries out the reads to come; it does once the list has run out
    var outcomes: seq<bool>
    ghost var failures: nat

    constructor (blockSize: nat, disk: Bytes, outcomes: seq<bool>)
      ensures this.blockSize == blockSize && this.disk == disk && this.outcomes == outcomes && failures == 0
    {
      this.blockSize, this.disk, this.outcomes, failures := blockSize, disk, outcomes, 0;
    }

    /** Reads whole blocks; fails beyond the end of the device. */
    method ReadBlocks(lba: nat, count: nat) returns (r: Option<Bytes>)
      modifies this
      ensures failures == old(failures) + if r.None? then 1 else 0
      ensures (lba + count) * blockSize > |disk| ==> r.None?
      ensures r.Some? ==> (lba + count) * blockSize <= |disk| && r.value == BlocksAt(disk, blockSize, lba, count)
    {
      if (lba + count) * blockSize > |disk| || (outcomes != [] && !outcomes[0]) {
        failures := failures + 1;
        outcomes := if outcomes != [] then outcomes[1..] else [];
        return None;
      }
      outcomes := if outcomes != [] then outcomes[1..] else [];
      return Some(BlocksAt(disk, blockSize, lba, count));
    }

    function GetBlocksCount(): nat
      requires blockSize > 0
    {
      |disk| / blockSize
    }
  }

  /** The fields of the table header that locate the partition array. */
  datatype GPT = GPT(entriesLba: nat, entryCount: nat, entrySize: nat, entriesCrc32: bv32, firstUsableLba: nat, lastUsableLba: nat)

  // ---------- the batched check of the array ----------

  const BATCH_SIZE: nat := 32

  function BatchCount(gpt: GPT): nat {
    RoundUp(gpt.entryCount, BATCH_SIZE)
  }

  function BatchBlocks(gpt: GPT, blockSize: nat): nat
    requires blockSize > 0
  {
    RoundUp(BATCH_SIZE * gpt.entrySize, blockSize)
  }

  function BatchEntries(gpt: GPT, batch: nat): nat
    requires batch < BatchCount(gpt)
  {
    var remaining := gpt.entryCount - batch * BATCH_SIZE;
    if BATCH_SIZE < remaining then BATCH_SIZE else remaining
  }

  /** The byte at which a batch starts. */
  function BatchStartAt(lba: nat, batch: nat, blocks: nat, blockSize: nat): nat {
    (lba + batch * blocks) * blockSize
  }

  /** Where on the device the check reads byte i of the array: batches start at whole blocks. */
  function CheckedAt(gpt: GPT, blockSize: nat, i: nat): nat
    requires blockSize > 0 && gpt.entrySize > 0
  {
    var batchBytes := BATCH_SIZE * gpt.entrySize;
    BatchStartAt(gpt.entriesLba, Div(i, batchBytes), BatchBlocks(gpt, blockSize), blockSize) + i % batchBytes
  }

  /** Where byte i of the array is. */
  function PlaceOf(gpt: GPT, blockSize: nat, i: nat): nat {
    gpt.entriesLba * blockSize + i
  }

  /** The check reads every byte of the array from its place if and only if there is one batch, or a
      full batch is a whole number of blocks. */
  lemma CheckReadsTheArray(gpt: GPT, blockSize: nat)
    requires blockSize > 0 && gpt.entrySize > 0
    ensures (forall i: nat :: i < gpt.entryCount * gpt.entrySize ==> CheckedAt(gpt, blockSize, i) == PlaceOf(gpt, blockSize, i))
            <==> BatchCount(gpt) <= 1 || BATCH_SIZE * gpt.entrySize % blockSize == 0
  {
    var batchBytes := BATCH_SIZE * gpt.entrySize;
    RoundUpExact(batchBytes, blockSize);
    if BatchCount(gpt) <= 1 || batchBytes % blockSize == 0 {
      forall i: nat | i < gpt.entryCount * gpt.entrySize
        ensures CheckedAt(gpt, blockSize, i) == PlaceOf(gpt, blockSize, i)
      {
        ByteInPlace(gpt, blockSize, i);
      }
    } else {
      assert gpt.entryCount >= BATCH_SIZE + 1;
      SecondBatchMisses(gpt, blockSize);
    }
  }

  lemma ByteInPlace(gpt: GPT, blockSize: nat, i: nat)
    requires blockSize > 0 && gpt.entrySize > 0 && i < gpt.entryCount * gpt.entrySize
    requires BatchCount(gpt) <= 1 || BATCH_SIZE * gpt.entrySize % blockSize == 0
    ensures CheckedAt(gpt, blockSize, i) == PlaceOf(gpt, blockSize, i)
  {
    var size := BATCH_SIZE * gpt.entrySize;
    RoundUpExact(size, blockSize);
    if BatchCount(gpt) <= 1 {
      assert gpt.entryCount <= BATCH_SIZE;
      Monotone(gpt.entryCount, BATCH_SIZE, gpt.entrySize);
      Divides(0, i, size);
    } else {
      Quotient(i, size);
      hide Div, RoundUp;
      StartProduct(gpt.entriesLba, Div(i, size), BatchBlocks(gpt, blockSize), blockSize, gpt.entrySize);
    }
  }

  lemma SecondBatchMisses(gpt: GPT, blockSize: nat)
    requires blockSize > 0 && gpt.entrySize > 0 && gpt.entryCount > BATCH_SIZE && BATCH_SIZE * gpt.entrySize % blockSize != 0
    ensures BATCH_SIZE * gpt.entrySize < gpt.entryCount * gpt.entrySize
    ensures CheckedAt(gpt, blockSize, BATCH_SIZE * gpt.entrySize) != PlaceOf(gpt, blockSize, BATCH_SIZE * gpt.entrySize)
  {
    var batchBytes, blocks := BATCH_SIZE * gpt.entrySize, BatchBlocks(gpt, blockSize);
    RoundUpExact(batchBytes, blockSize);
    Divides(1, 0, batchBytes);
    assert (gpt.entriesLba + blocks) * blockSize == gpt.entriesLba * blockSize + blocks * blockSize;
    assert (gpt.entryCount - BATCH_SIZE) * gpt.entrySize >= gpt.entrySize;
    assert gpt.entryCount * gpt.entrySize == (gpt.entryCount - BATCH_SIZE) * gpt.entrySize + batchBytes;
  }

  /** The bytes of one batch, as the check reads them; none if they lie beyond the device. */
  function BatchAt(gpt: GPT, disk: Bytes, blockSize: nat, batch: nat): Bytes
    requires blockSize > 0 && gpt.entrySize > 0 && batch < BatchCount(gpt)
  {
    var start := BatchStartAt(gpt.entriesLba, batch, BatchBlocks(gpt, blockSize), blockSize);
    var size := BatchEntries(gpt, batch) * gpt.entrySize;
    if start + size <= |disk| then disk[start..start + size] else []
  }

  /** What the check feeds to the checksum in its first n batches. */
  function CheckedBytes(gpt: GPT, disk: Bytes, blockSize: nat, n: nat): Bytes
    requires blockSize > 0 && gpt.entrySize > 0 && n <= BatchCount(gpt)
  {
    if n == 0 then [] else CheckedBytes(gpt, disk, blockSize, n - 1) + BatchAt(gpt, disk, blockSize, n - 1)
  }

  /** The check of the partition array, batch by batch; granted tells whether the heap had room for
      the buffer. */
  method IsPartitionArrayValid(gpt: GPT, blockSize: nat, interface: Interface, granted: bool) returns (valid: bool)
    requires blockSize == interface.blockSize > 0
    modifies interface
    ensures valid ==> 128 <= gpt.entrySize <= blockSize && gpt.entryCount > 0 && 2 <= gpt.entriesLba < |interface.disk| / blockSize
    ensures 128 <= gpt.entrySize <= blockSize && gpt.entryCount > 0 && 2 <= gpt.entriesLba < |interface.disk| / blockSize
            && granted && interface.failures == old(interface.failures) ==>
              (valid <==> Checksum(CheckedBytes(gpt, interface.disk, blockSize, BatchCount(gpt))) == gpt.entriesCrc32)
    ensures valid ==> Checksum(CheckedBytes(gpt, interface.disk, blockSize, BatchCount(gpt))) == gpt.entriesCrc32
  {
    hide Checksum, CheckedBytes;
    if gpt.entrySize < 128 || gpt.entrySize > blockSize {
      return false;
    } else if gpt.entryCount == 0 {
      return false;
    } else if gpt.entriesLba < 2 || gpt.entriesLba >= interface.GetBlocksCount() {
      return false;
    }
    if !granted {
      return false;
    }
    var actual := ChecksumOfArray(gpt, blockSize, interface);
    valid := actual == Some(gpt.entriesCrc32);
  }

  /** The checksum over all batches, or nothing if the device fails. */
  method ChecksumOfArray(gpt: GPT, blockSize: nat, interface: Interface) returns (checksum: Option<bv32>)
    requires blockSize == interface.blockSize > 0 && gpt.entrySize > 0
    modifies interface
    ensures interface.failures == old(interface.failures) + if checksum.None? then 1 else 0
    ensures checksum.Some? ==> checksum.value == Checksum(CheckedBytes(gpt, interface.disk, blockSize, BatchCount(gpt)))
  {
    hide Updated, CheckedBytes, BatchAt, BlocksAt, Xor;
    var batchArraySize := BATCH_SIZE * gpt.entrySize;
    var batchArrayBlocks := (batchArraySize + blockSize - 1) / blockSize;
    var batchCount := (gpt.entryCount + BATCH_SIZE - 1) / BATCH_SIZE;
    assert batchCount == BatchCount(gpt) && batchArrayBlocks == BatchBlocks(gpt, blockSize);
    hide BatchCount, BatchBlocks, RoundUp;
    var crcProcessor := new CRC32Engine();
    var batchId := 0;
    NoBatch(gpt, interface.disk, blockSize);
    while batchId < batchCount
      invariant batchId <= batchCount && interface.failures == old(interface.failures)
      invariant crcProcessor.crc32 == Updated(0xFFFF_FFFF, CheckedBytes(gpt, interface.disk, blockSize, batchId))
    {
      var batch := ReadBatch(gpt, blockSize, interface, batchId, batchArraySize, batchArrayBlocks);
      if batch.None? {
        return None;
      }
      NextBatch(gpt, interface.disk, blockSize, batchId);
      UpdatedInPieces(0xFFFF_FFFF, CheckedBytes(gpt, interface.disk, blockSize, batchId), batch.value);
      crcProcessor.Update(batch.value);
      batchId := batchId + 1;
    }
    var actual := crcProcessor.Finalize();
    checksum := Some(actual);
  }

  lemma NoBatch(gpt: GPT, disk: Bytes, blockSize: nat)
    requires blockSize > 0 && gpt.entrySize > 0
    ensures Updated(0xFFFF_FFFF, CheckedBytes(gpt, disk, blockSize, 0)) == 0xFFFF_FFFF
  {
  }

  lemma NextBatch(gpt: GPT, disk: Bytes, blockSize: nat, n: nat)
    requires blockSize > 0 && gpt.entrySize > 0 && n < BatchCount(gpt)
    ensures CheckedBytes(gpt, disk, blockSize, n + 1) == CheckedBytes(gpt, disk, blockSize, n) + BatchAt(gpt, disk, blockSize, n)
  {
  }

  /** Reads one batch: the blocks that hold its entries, cut to the entries. */
  method ReadBatch(gpt: GPT, blockSize: nat, interface: Interface, batchId: nat, batchArraySize: nat, batchArrayBlocks: nat) returns (r: Option<Bytes>)
    requires blockSize == interface.blockSize > 0 && gpt.entrySize > 0 && batchId < BatchCount(gpt)
    requires batchArraySize == BATCH_SIZE * gpt.entrySize && batchArrayBlocks == BatchBlocks(gpt, blockSize)
    modifies interface
    ensures interface.failures == old(interface.failures) + if r.None? then 1 else 0
    ensures r.Some? ==> r.value == BatchAt(gpt, interface.disk, blockSize, batchId)
  {
    hide Div, RoundUp, BlocksAt, BatchCount, BatchBlocks;
    var batchOffset := batchId * batchArraySize;
    EntriesBefore(gpt, batchId);
    var remainingEntries := gpt.entryCount - Div(batchOffset, gpt.entrySize);
    var batchEntries := if BATCH_SIZE < remainingEntries then BATCH_SIZE else remainingEntries;
    var batchSize := batchEntries * gpt.entrySize;
    var batchBlocks := RoundUp(batchSize, blockSize);
    var batchLba := gpt.entriesLba + batchId * batchArrayBlocks;
    var data := interface.ReadBlocks(batchLba, batchBlocks);
    if data.None? {
      return None;
    }
    RoundUpExact(batchSize, blockSize);
    CutBlocks(interface.disk, blockSize, batchLba, batchBlocks, batchSize);
    return Some(data.value[..batchSize]);
  }

  lemma EntriesBefore(gpt: GPT, batchId: nat)
    requires gpt.entrySize > 0 && batchId < BatchCount(gpt)
    ensures Div(batchId * (BATCH_SIZE * gpt.entrySize), gpt.entrySize) == batchId * BATCH_SIZE <= gpt.entryCount
  {
    Divides(batchId * BATCH_SIZE, 0, gpt.entrySize);
    assert batchId * (BATCH_SIZE * gpt.entrySize) == batchId * BATCH_SIZE * gpt.entrySize;
  }

  lemma CutBlocks(disk: Bytes, blockSize: nat, lba: nat, count: nat, size: nat)
    requires (lba + count) * blockSize <= |disk| && size <= count * blockSize
    ensures lba * blockSize + size <= |disk|
    ensures BlocksAt(disk, blockSize, lba, count)[..size] == disk[lba * blockSize..lba * blockSize + size]
  {
    assert (lba + count) * blockSize == lba * blockSize + count * blockSize;
  }

  // ---------- what the check computes ----------

  /** A full batch is a whole number of blocks. */
  predicate WholeBatches(gpt: GPT, blockSize: nat)
    requires blockSize > 0
  {
    BATCH_SIZE * gpt.entrySize % blockSize == 0
  }

  function ArrayStart(gpt: GPT, blockSize: nat): nat {
    gpt.entriesLba * blockSize
  }

  function ArrayBytes(gpt: GPT): nat {
    gpt.entryCount * gpt.entrySize
  }

  /** The entries and the bytes of the first n batches. */
  function EntriesIn(gpt: GPT, n: nat): nat {
    if n * BATCH_SIZE < gpt.entryCount then n * BATCH_SIZE else gpt.entryCount
  }

  function BytesIn(gpt: GPT, n: nat): nat {
    EntriesIn(gpt, n) * gpt.entrySize
  }

  /** Batch n is the array's entries 32 n to 32 n + 31, if batches are whole numbers of blocks. */
  lemma {:induction false} CheckedIsPrefix(gpt: GPT, disk: Bytes, blockSize: nat, n: nat)
    requires blockSize > 0 && gpt.entrySize > 0 && n <= BatchCount(gpt) && (n <= 1 || WholeBatches(gpt, blockSize))
    requires ArrayStart(gpt, blockSize) + ArrayBytes(gpt) <= |disk|
    ensures var start := ArrayStart(gpt, blockSize);
            start + BytesIn(gpt, n) <= |disk| && CheckedBytes(gpt, disk, blockSize, n) == disk[start..start + BytesIn(gpt, n)]
    decreases n
  {
    hide ArrayStart, ArrayBytes, BytesIn, BatchAt, BatchCount, WholeBatches;
    var start := ArrayStart(gpt, blockSize);
    NoBytes(gpt);
    if n > 0 {
      CheckedIsPrefix(gpt, disk, blockSize, n - 1);
      BatchIs(gpt, disk, blockSize, n - 1);
      var mid, end := start + BytesIn(gpt, n - 1), start + BytesIn(gpt, n);
      assert disk[start..mid] + disk[mid..end] == disk[start..end];
    }
  }

  lemma NoBytes(gpt: GPT)
    ensures BytesIn(gpt, 0) == 0
  {
  }

  lemma BatchIs(gpt: GPT, disk: Bytes, blockSize: nat, n: nat)
    requires blockSize > 0 && gpt.entrySize > 0 && n < BatchCount(gpt) && (n == 0 || WholeBatches(gpt, blockSize))
    requires ArrayStart(gpt, blockSize) + ArrayBytes(gpt) <= |disk|
    ensures var start := ArrayStart(gpt, blockSize);
            BytesIn(gpt, n) <= BytesIn(gpt, n + 1) && start + BytesIn(gpt, n + 1) <= |disk|
            && BatchAt(gpt, disk, blockSize, n) == disk[start + BytesIn(gpt, n)..start + BytesIn(gpt, n + 1)]
  {
    hide EntriesIn, BatchBlocks, BatchEntries, BatchCount, RoundUp, BatchStartAt, ArrayStart, WholeBatches;
    BatchStart(gpt, blockSize, n);
    EntriesNext(gpt, n);
    Distribute(EntriesIn(gpt, n), BatchEntries(gpt, n), gpt.entrySize);
    Monotone(EntriesIn(gpt, n + 1), gpt.entryCount, gpt.entrySize);
  }

  lemma EntriesNext(gpt: GPT, n: nat)
    requires n < BatchCount(gpt)
    ensures EntriesIn(gpt, n + 1) == EntriesIn(gpt, n) + BatchEntries(gpt, n) && EntriesIn(gpt, n + 1) <= gpt.entryCount
  {
  }

  lemma BatchStart(gpt: GPT, blockSize: nat, n: nat)
    requires blockSize > 0 && gpt.entrySize > 0 && n < BatchCount(gpt) && (n == 0 || WholeBatches(gpt, blockSize))
    ensures BatchStartAt(gpt.entriesLba, n, BatchBlocks(gpt, blockSize), blockSize) == ArrayStart(gpt, blockSize) + BytesIn(gpt, n)
  {
    RoundUpExact(BATCH_SIZE * gpt.entrySize, blockSize);
    assert EntriesIn(gpt, n) == n * BATCH_SIZE;
    hide RoundUp, EntriesIn;
    StartProduct(gpt.entriesLba, n, BatchBlocks(gpt, blockSize), blockSize, gpt.entrySize);
  }

  lemma StartProduct(lba: nat, n: nat, blocks: nat, blockSize: nat, entrySize: nat)
    requires n == 0 || blocks * blockSize == BATCH_SIZE * entrySize
    ensures (lba + n * blocks) * blockSize == lba * blockSize + n * BATCH_SIZE * entrySize
  {
    Distribute(lba, n * blocks, blockSize);
    assert n * blocks * blockSize == n * (blocks * blockSize);
  }

  /** The checksum that is compared is that of the whole array. */
  lemma CheckIsOfTheArray(gpt: GPT, disk: Bytes, blockSize: nat)
    requires blockSize > 0 && gpt.entrySize > 0 && (BatchCount(gpt) <= 1 || WholeBatches(gpt, blockSize))
    requires ArrayStart(gpt, blockSize) + ArrayBytes(gpt) <= |disk|
    ensures Checksum(CheckedBytes(gpt, disk, blockSize, BatchCount(gpt)))
            == Checksum(disk[ArrayStart(gpt, blockSize)..ArrayStart(gpt, blockSize) + ArrayBytes(gpt)])
  {
    hide Checksum, CheckedBytes, ArrayStart, WholeBatches;
    assert EntriesIn(gpt, BatchCount(gpt)) == gpt.entryCount;
    CheckedIsPrefix(gpt, disk, blockSize, BatchCount(gpt));
  }

  // ---------- the cached reader of entries ----------

  /** The bytes of an entry that stands at the given place of the array; nothing beyond the device. */
  function BytesAt(gpt: GPT, disk: Bytes, blockSize: nat, at: int): Bytes {
    var start := gpt.entriesLba * blockSize + at;
    if 0 <= start && start + ENTRY_BYTES <= |disk| then disk[start..start + ENTRY_BYTES] else []
  }

  /** The bytes that are read as entry i, through a cache of the given sizes. */
  function EntryRead(gpt: GPT, disk: Bytes, g: Geometry, i: nat): Bytes
    requires Plausible(g)
  {
    BytesAt(gpt, disk, g.blockSize, ReadAt(g, i))
  }

  /** The bytes of entry i. */
  function EntryAt(gpt: GPT, disk: Bytes, blockSize: nat, i: nat): Bytes {
    BytesAt(gpt, disk, blockSize, i * gpt.entrySize)
  }

  /** What the reader returns: an entry, nothing, or whatever lies behind its cache in memory. */
  datatype Fetched = Entry(bytes: Bytes) | NoEntry | BeyondCache

  class GPTPartitionFetcher {
    const gpt: GPT
    const blockSize: nat
    const interface: Interface
    var currentPartition: nat
    var cachedPartitionIndex: nat
    var cachedPartitions: nat
    var cachedBlocks: nat
    var cached: Bytes

    // the number of entries the cache was asked to hold
    ghost const wanted: nat

    ghost predicate Configured()
      reads this
    {
      && blockSize == interface.blockSize && ENTRY_BYTES <= gpt.entrySize <= blockSize
      && (cachedPartitions == wanted || cachedPartitions == GeometryOf(gpt.entrySize, blockSize, wanted).entries)
    }

    ghost function Sizes(): (g: Geometry)
      requires ENTRY_BYTES <= gpt.entrySize <= blockSize
      ensures Plausible(g)
    {
      GeometryIsPlausible(gpt.entrySize, blockSize, wanted);
      GeometryOf(gpt.entrySize, blockSize, wanted)
    }

    /** The cache holds the blocks from which the last entry was read. */
    ghost predicate Valid()
      reads this
    {
      && Configured() && cachedBlocks == Sizes().blocks && cachedPartitions == Sizes().entries
      && var c := CacheFor(Sizes(), if currentPartition == 0 then 0 else currentPartition - 1);
         cachedPartitionIndex == c.index && Holds(c.block)
    }

    ghost predicate Holds(block: nat)
      reads this
    {
      var start := gpt.entriesLba * blockSize + block * blockSize;
      start + cachedBlocks * blockSize <= |interface.disk| && cached == interface.disk[start..start + cachedBlocks * blockSize]
    }

    constructor (gpt: GPT, blockSize: nat, interface: Interface, cachedPartitions: nat)
      ensures this.gpt == gpt && this.blockSize == blockSize && this.interface == interface
      ensures this.cachedPartitions == wanted == cachedPartitions
      ensures currentPartition == 0 && cachedPartitionIndex == 0
    {
      this.gpt, this.blockSize, this.interface, this.cachedPartitions, wanted := gpt, blockSize, interface, cachedPartitions, cachedPartitions;
      currentPartition, cachedPartitionIndex, cachedBlocks, cached := 0, 0, 0, [];
    }

    /** Sizes the cache and fills it from the first entry on. */
    method Initialize(granted: bool) returns (ok: bool)
      requires Configured() && cachedPartitionIndex == 0 && currentPartition == 0
      modifies this`cachedBlocks, this`cachedPartitions, this`cached, interface
      ensures Configured() && (ok ==> Valid())
      ensures if ok then interface.failures == old(interface.failures) else !granted || interface.failures > old(interface.failures)
    {
      SameGeometry(gpt.entrySize, blockSize, wanted);
      hide Div, RoundUp, BlocksAt;
      var cacheSize := cachedPartitions * gpt.entrySize;
      if cacheSize == 0 {
        cacheSize := blockSize;
      }
      cachedBlocks := RoundUp(cacheSize, blockSize);
      cachedPartitions := Div(cachedBlocks * blockSize, gpt.entrySize);
      if !granted {
        return false;
      }
      var data := interface.ReadBlocks(gpt.entriesLba, cachedBlocks);
      if data.None? {
        return false;
      }
      cached := data.value;
      BlocksFrom(interface.disk, blockSize, gpt.entriesLba, 0, cachedBlocks);
      return true;
    }

    method Reset(granted: bool) returns (ok: bool)
      requires Configured()
      modifies this, interface
      ensures Configured() && (ok ==> Valid() && currentPartition == 0)
      ensures if ok then interface.failures == old(interface.failures) else !granted || interface.failures > old(interface.failures)
    {
      currentPartition := 0;
      cachedPartitionIndex := 0;
      ok := Initialize(granted);
    }

    /** Fills the cache from the block that holds the given entry on. */
    method UpdateCache(partitionIndex: nat) returns (ok: bool)
      requires Configured() && cachedBlocks == Sizes().blocks && cachedPartitions == Sizes().entries
      modifies this`cached, this`cachedPartitionIndex, interface
      ensures if ok then interface.failures == old(interface.failures)
              else partitionIndex >= gpt.entryCount || interface.failures > old(interface.failures)
      ensures ok ==> var c := Refilled(Sizes(), partitionIndex); cachedPartitionIndex == c.index && Holds(c.block)
    {
      if partitionIndex >= gpt.entryCount {
        return false;
      }
      hide Div, BlocksAt, GeometryOf;
      var cacheLba := gpt.entriesLba + Div(partitionIndex * gpt.entrySize, blockSize);
      var data := interface.ReadBlocks(cacheLba, cachedBlocks);
      if data.None? {
        return false;
      }
      cached := data.value;
      cachedPartitionIndex := Div((cacheLba - gpt.entriesLba) * blockSize, gpt.entrySize);
      BlocksFrom(interface.disk, blockSize, gpt.entriesLba, Div(partitionIndex * gpt.entrySize, blockSize), cachedBlocks);
      return true;
    }

    predicate HasNext()
      reads this
    {
      currentPartition < gpt.entryCount
    }

    /** Whether an entry starts before the end of the cache. */
    predicate IsPartitionFullyWithinCache(partitionIndex: nat)
      reads this
    {
      partitionIndex * gpt.entrySize <= cachedPartitionIndex * gpt.entrySize + cachedBlocks * blockSize
    }

    /** The next entry, from the place where the cache puts it. */
    method Next() returns (r: Fetched)
      requires Valid()
      modifies this`currentPartition, this`cached, this`cachedPartitionIndex, interface
      ensures r.NoEntry? ==> currentPartition == old(currentPartition) && (!old(HasNext()) || interface.failures > old(interface.failures))
      ensures !r.NoEntry? ==>
                && Valid() && currentPartition == old(currentPartition) + 1 <= gpt.entryCount && interface.failures == old(interface.failures)
                && (r.Entry? <==> WithinCache(Sizes(), old(currentPartition)))
      ensures r.Entry? ==> r.bytes != [] && r.bytes == BytesAt(gpt, interface.disk, blockSize, ReadAt(Sizes(), old(currentPartition)))
      ensures Configured()
    {
      if !HasNext() {
        return NoEntry;
      }
      IndexIsBefore(Sizes(), currentPartition);
      hide Div, BytesAt, GeometryOf, Plausible, CacheFor;
      var ok := CacheCurrent();
      if !ok {
        return NoEntry;
      }
      r := CachedEntry(currentPartition - cachedPartitionIndex, CacheFor(Sizes(), currentPartition).block);
      currentPartition := currentPartition + 1;
    }

    /** Refills the cache if the next entry is not in it. */
    method CacheCurrent() returns (ok: bool)
      requires Valid() && HasNext()
      modifies this`cached, this`cachedPartitionIndex, interface
      ensures if ok then interface.failures == old(interface.failures) else interface.failures > old(interface.failures)
      ensures ok ==> var c := CacheFor(Sizes(), currentPartition); cachedPartitionIndex == c.index && Holds(c.block)
    {
      CacheForNext(Sizes(), currentPartition);
      hide Div, GeometryOf, Plausible, CacheFor, Refilled;
      if currentPartition >= cachedPartitionIndex + cachedPartitions || !IsPartitionFullyWithinCache(currentPartition) {
        ok := UpdateCache(currentPartition);
      } else {
        ok := true;
      }
    }

    /** The next entry of a table whose reads stay in the cache. */
    method NextWithin() returns (entry: Option<Bytes>)
      requires Valid() && StaysWithin(Sizes(), gpt.entryCount)
      modifies this`currentPartition, this`cached, this`cachedPartitionIndex, interface
      ensures entry.None? ==> currentPartition == old(currentPartition) && (!old(HasNext()) || interface.failures > old(interface.failures))
      ensures entry.Some? ==>
                && Valid() && currentPartition == old(currentPartition) + 1 <= gpt.entryCount && interface.failures == old(interface.failures)
                && entry.value != [] && entry.value == EntryRead(gpt, interface.disk, Sizes(), old(currentPartition))
      ensures Configured()
    {
      assert HasNext() ==> WithinCache(Sizes(), currentPartition);
      hide Valid, Configured, BytesAt, CacheFor;
      var r := Next();
      entry := if r.Entry? then Some(r.bytes) else None;
    }

    /** What lies at a distance from the first cached entry. */
    method CachedEntry(partitionOffset: nat, ghost block: nat) returns (r: Fetched)
      requires Holds(block)
      ensures !r.NoEntry? && (r.Entry? <==> partitionOffset * gpt.entrySize + ENTRY_BYTES <= cachedBlocks * blockSize)
      ensures r.Entry? ==> r.bytes != [] && r.bytes == BytesAt(gpt, interface.disk, blockSize, block * blockSize + partitionOffset * gpt.entrySize)
    {
      var offset := partitionOffset * gpt.entrySize;
      if offset + ENTRY_BYTES > |cached| {
        return BeyondCache;
      }
      Slice(interface.disk, gpt.entriesLba * blockSize + block * blockSize, cachedBlocks * blockSize, offset);
      return Entry(cached[offset..offset + ENTRY_BYTES]);
    }
  }

  /** The cache is refilled exactly when the entry is behind the cached ones; one that is not starts
      before the end of the cache. */
  lemma CacheForNext(g: Geometry, i: nat)
    requires Plausible(g)
    ensures var c := CacheFor(g, if i == 0 then 0 else i - 1);
            && CacheFor(g, i) == (if i >= c.index + g.entries then Refilled(g, i) else c)
            && (i < c.index + g.entries ==> i * g.entrySize <= c.index * g.entrySize + g.blocks * g.blockSize)
  {
    var c := CacheFor(g, if i == 0 then 0 else i - 1);
    Filled(g);
    hide Div, Plausible, Refilled;
    Distribute(c.index, g.entries, g.entrySize);
    Monotone(i, c.index + g.entries, g.entrySize);
  }

  lemma Slice(disk: Bytes, start: nat, size: nat, at: nat)
    requires start + size <= |disk| && at + ENTRY_BYTES <= size
    ensures disk[start..start + size][at..at + ENTRY_BYTES] == disk[start + at..start + at + ENTRY_BYTES]
    ensures |disk[start + at..start + at + ENTRY_BYTES]| == ENTRY_BYTES
  {
    var cut := disk[start..start + size];
    var a, b := cut[at..at + ENTRY_BYTES], disk[start + at..start + at + ENTRY_BYTES];
    assert forall k :: 0 <= k < ENTRY_BYTES ==> a[k] == b[k];
  }

  lemma BlocksFrom(disk: Bytes, blockSize: nat, lba: nat, k: nat, count: nat)
    requires (lba + k + count) * blockSize <= |disk|
    ensures var start := lba * blockSize + k * blockSize;
            start + count * blockSize <= |disk| && BlocksAt(disk, blockSize, lba + k, count) == disk[start..start + count * blockSize]
  {
    Distribute(lba, k, blockSize);
    Distribute(lba + k, count, blockSize);
  }

  // ---------- counting partitions and making them ----------

  function LittleEndian(b: Bytes): nat {
    if b == [] then 0 else (b[0] as nat) + 0x100 * LittleEndian(b[1..])
  }

  function StartingLba(e: Bytes): nat
    requires |e| == ENTRY_BYTES
  {
    LittleEndian(e[32..40])
  }

  function EndingLba(e: Bytes): nat
    requires |e| == ENTRY_BYTES
  {
    LittleEndian(e[40..48])
  }

  /** An entry that is in use and lies in the usable part of the device. */
  predicate Usable(gpt: GPT, e: Bytes) {
    && |e| == ENTRY_BYTES && !(StartingLba(e) == 0 && EndingLba(e) == 0)
    && gpt.firstUsableLba <= StartingLba(e) <= EndingLba(e) <= gpt.lastUsableLba
  }

  datatype Partition = Partition(firstBlock: nat, blockCount: nat, typeGuid: Bytes, uniqueGuid: Bytes)

  function PartitionOf(e: Bytes): Partition
    requires |e| == ENTRY_BYTES && StartingLba(e) <= EndingLba(e)
  {
    Partition(StartingLba(e), EndingLba(e) - StartingLba(e) + 1, e[..16], e[16..32])
  }

  /** The partitions among entries, in their order. */
  function Partitions(gpt: GPT, entries: seq<Bytes>): seq<Partition> {
    if entries == [] then []
    else
      var e := entries[|entries| - 1];
      Partitions(gpt, entries[..|entries| - 1]) + if Usable(gpt, e) then [PartitionOf(e)] else []
  }

  /** The partitions of the first n entries of the table. */
  function PartitionsIn(gpt: GPT, disk: Bytes, blockSize: nat, n: nat): seq<Partition> {
    Partitions(gpt, EntriesOf(gpt, disk, blockSize, n))
  }

  /** What is read as the partitions of the first n entries. */
  function PartitionsRead(gpt: GPT, disk: Bytes, g: Geometry, n: nat): seq<Partition>
    requires Plausible(g)
  {
    Partitions(gpt, EntriesRead(gpt, disk, g, n))
  }

  /** For a table in step with the cache what is read are its partitions. */
  lemma ReadsThePartitions(gpt: GPT, disk: Bytes, g: Geometry)
    requires Plausible(g) && g.entrySize == gpt.entrySize && InStep(g, gpt.entryCount)
    ensures PartitionsRead(gpt, disk, g, gpt.entryCount) == PartitionsIn(gpt, disk, g.blockSize, gpt.entryCount)
  {
    ReadsInStep(g, gpt.entryCount);
    forall i: nat | i < gpt.entryCount
      ensures EntryRead(gpt, disk, g, i) == EntryAt(gpt, disk, g.blockSize, i)
    {
      assert ReadFromItsPlace(g, i);
    }
    hide EntryRead, EntryAt, Partitions;
    assert EntriesRead(gpt, disk, g, gpt.entryCount) == EntriesOf(gpt, disk, g.blockSize, gpt.entryCount);
  }

  // ---------- which entries are partitions, and what they describe ----------

  /** The number in eight bytes, the lowest byte first. */
  function Number64(e: Bytes, at: nat): nat
    requires at + 8 <= |e|
  {
    (e[at] as nat) + 0x100 * (e[at + 1] as nat) + 0x1_0000 * (e[at + 2] as nat) + 0x100_0000 * (e[at + 3] as nat)
    + 0x1_0000_0000 * (e[at + 4] as nat) + 0x100_0000_0000 * (e[at + 5] as nat)
    + 0x1_0000_0000_0000 * (e[at + 6] as nat) + 0x100_0000_0000_0000 * (e[at + 7] as nat)
  }

  /** An entry that is in use and lies in the usable part of the device, by its bytes. */
  predicate InUse(gpt: GPT, e: Bytes) {
    && |e| == ENTRY_BYTES && !(Number64(e, 32) == 0 && Number64(e, 40) == 0)
    && gpt.firstUsableLba <= Number64(e, 32) <= Number64(e, 40) <= gpt.lastUsableLba
  }

  /** The partition has the blocks from the first to the last one that the bytes of the entry name, both
      included, and the entry's two identifiers. */
  predicate Describes(e: Bytes, p: Partition)
    requires |e| == ENTRY_BYTES
  {
    && p.firstBlock == Number64(e, 32) && p.firstBlock + p.blockCount - 1 == Number64(e, 40)
    && |p.typeGuid| == |p.uniqueGuid| == 16
    && forall i :: 0 <= i < 16 ==> p.typeGuid[i] == e[i] && p.uniqueGuid[i] == e[16 + i]
  }

  /** A field of eight bytes holds the number that they spell. */
  lemma FieldIs(e: Bytes, at: nat)
    requires at + 8 <= |e|
    ensures LittleEndian(e[at..at + 8]) == Number64(e, at)
  {
    var b := e[at..at + 8];
    FourMore(b);
    FourMore(b[4..]);
    assert b[4..][4..] == [];
    hide LittleEndian;
    assert forall i :: 0 <= i < 8 ==> b[i] == e[at + i];
    assert forall i :: 0 <= i < 4 ==> b[4..][i] == e[at + 4 + i];
  }

  lemma FourMore(b: Bytes)
    requires |b| >= 4
    ensures LittleEndian(b) == (b[0] as nat) + 0x100 * (b[1] as nat) + 0x1_0000 * (b[2] as nat) + 0x100_0000 * (b[3] as nat)
                               + 0x1_0000_0000 * LittleEndian(b[4..])
  {
    assert b[1..][1..] == b[2..] && b[2..][1..] == b[3..] && b[3..][1..] == b[4..];
    assert LittleEndian(b[3..]) == (b[3] as nat) + 0x100 * LittleEndian(b[4..]);
    assert LittleEndian(b[2..]) == (b[2] as nat) + 0x100 * LittleEndian(b[3..]);
    assert LittleEndian(b[1..]) == (b[1] as nat) + 0x100 * LittleEndian(b[2..]);
  }

  /** Which entries make a partition, and which one. */
  lemma EntryDescribes(gpt: GPT, e: Bytes)
    ensures Usable(gpt, e) <==> InUse(gpt, e)
    ensures Usable(gpt, e) ==> Describes(e, PartitionOf(e))
  {
    hide LittleEndian, Number64;
    if |e| == ENTRY_BYTES {
      FieldIs(e, 32);
      FieldIs(e, 40);
    }
  }

  /** A block of the device belongs to the partition of an entry exactly if it lies between the two that the
      entry names, and then it is a usable one. */
  lemma BlocksOfPartition(gpt: GPT, e: Bytes, p: Partition, b: nat)
    requires InUse(gpt, e) && Describes(e, p)
    ensures p.firstBlock <= b < p.firstBlock + p.blockCount <==> Number64(e, 32) <= b <= Number64(e, 40)
    ensures p.firstBlock <= b < p.firstBlock + p.blockCount ==> gpt.firstUsableLba <= b <= gpt.lastUsableLba
    ensures Usable(gpt, e) && p == PartitionOf(e)
  {
    hide Number64;
    EntryDescribes(gpt, e);
    assert p.typeGuid == e[..16] && p.uniqueGuid == e[16..32];
  }

  /** The numbers of the entries that are listed: all those in use, in their order, each once. */
  ghost predicate Lists(gpt: GPT, entries: seq<Bytes>, parts: seq<Partition>, at: seq<nat>) {
    && |at| == |parts|
    && (forall k :: 0 <= k < |at| ==> at[k] < |entries| && InUse(gpt, entries[at[k]]) && Describes(entries[at[k]], parts[k]))
    && (forall j, k :: 0 <= j < k < |at| ==> at[j] < at[k])
    && (forall i: nat :: i < |entries| && InUse(gpt, entries[i]) ==> i in at)
  }

  /** The partitions are those of the entries in use, in their order. */
  ghost predicate ListsTheUsed(gpt: GPT, entries: seq<Bytes>, parts: seq<Partition>) {
    exists at: seq<nat> :: Lists(gpt, entries, parts, at)
  }

  lemma {:induction false} PartitionsAreListed(gpt: GPT, entries: seq<Bytes>) returns (at: seq<nat>)
    ensures Lists(gpt, entries, Partitions(gpt, entries), at)
    decreases |entries|
  {
    if entries == [] {
      at := [];
    } else {
      hide Lists, Usable, PartitionOf;
      var n := |entries| - 1;
      at := PartitionsAreListed(gpt, entries[..n]);
      EntryDescribes(gpt, entries[n]);
      ListsNext(gpt, entries, Partitions(gpt, entries[..n]), at, if Usable(gpt, entries[n]) then [PartitionOf(entries[n])] else []);
      at := at + if Usable(gpt, entries[n]) then [n] else [];
    }
  }

  lemma ListsNext(gpt: GPT, entries: seq<Bytes>, parts: seq<Partition>, at: seq<nat>, more: seq<Partition>)
    requires entries != [] && Lists(gpt, entries[..|entries| - 1], parts, at)
    requires var e := entries[|entries| - 1];
             if InUse(gpt, e) then |more| == 1 && Describes(e, more[0]) else more == []
    ensures Lists(gpt, entries, parts + more, at + if more != [] then [|entries| - 1] else [])
  {
    hide InUse, Describes;
    var n := |entries| - 1;
    var at' := at + if more != [] then [n] else [];
    forall i: nat | i < |entries| && InUse(gpt, entries[i])
      ensures i in at'
    {
      if i < n {
        assert entries[..n][i] == entries[i] && i in at;
      } else {
        assert at'[|at'| - 1] == n;
      }
    }
  }

  /** What is read as the first n entries of the table. */
  function EntriesRead(gpt: GPT, disk: Bytes, g: Geometry, n: nat): (entries: seq<Bytes>)
    requires Plausible(g)
    ensures |entries| == n && forall i :: 0 <= i < n ==> entries[i] == EntryRead(gpt, disk, g, i)
  {
    seq(n, i requires 0 <= i => EntryRead(gpt, disk, g, i))
  }

  /** The first n entries of the table. */
  function EntriesOf(gpt: GPT, disk: Bytes, blockSize: nat, n: nat): (entries: seq<Bytes>)
    ensures |entries| == n && forall i :: 0 <= i < n ==> entries[i] == EntryAt(gpt, disk, blockSize, i)
  {
    seq(n, i requires 0 <= i => EntryAt(gpt, disk, blockSize, i))
  }

  lemma OneMoreRead(gpt: GPT, disk: Bytes, g: Geometry, n: nat)
    requires Plausible(g)
    ensures PartitionsRead(gpt, disk, g, 0) == []
    ensures var e := EntryRead(gpt, disk, g, n);
            PartitionsRead(gpt, disk, g, n + 1) == PartitionsRead(gpt, disk, g, n) + if Usable(gpt, e) then [PartitionOf(e)] else []
  {
    hide EntryRead, Usable, PartitionOf;
    assert EntriesRead(gpt, disk, g, n + 1)[..n] == EntriesRead(gpt, disk, g, n);
  }

  lemma {:induction false} PartitionsGrow(gpt: GPT, disk: Bytes, g: Geometry, m: nat, n: nat)
    requires Plausible(g) && m <= n
    ensures PartitionsRead(gpt, disk, g, m) <= PartitionsRead(gpt, disk, g, n)
    decreases n
  {
    hide PartitionsRead, EntryRead;
    if m < n {
      PartitionsGrow(gpt, disk, g, m, n - 1);
      OneMoreRead(gpt, disk, g, n - 1);
    }
  }

  ghost predicate Counted(gpt: GPT, fetcher: GPTPartitionFetcher, count: nat, g: Geometry)
    requires Plausible(g)
    reads fetcher
  {
    && fetcher.gpt == gpt && fetcher.Valid() && g == fetcher.Sizes() && fetcher.currentPartition <= gpt.entryCount
    && count == |PartitionsRead(gpt, fetcher.interface.disk, g, fetcher.currentPartition)|
  }

  /** One entry of the first pass. */
  method CountNext(gpt: GPT, fetcher: GPTPartitionFetcher, count: nat, ghost g: Geometry) returns (ok: bool, next: nat)
    requires Plausible(g) && Counted(gpt, fetcher, count, g) && fetcher.HasNext() && StaysWithin(g, gpt.entryCount)
    modifies fetcher, fetcher.interface
    ensures fetcher.Configured()
    ensures ok ==> Counted(gpt, fetcher, next, g) && fetcher.currentPartition == old(fetcher.currentPartition) + 1
    ensures if ok then fetcher.interface.failures == old(fetcher.interface.failures)
            else fetcher.interface.failures > old(fetcher.interface.failures)
  {
    hide Skipped, EntryRead, PartitionOf, StartingLba, EndingLba, StaysWithin, PartitionsRead, Usable, BytesAt, Plausible,
         GPTPartitionFetcher.Valid, GPTPartitionFetcher.Configured, GPTPartitionFetcher.Sizes;
    next := count;
    var entry := fetcher.NextWithin();
    if entry.None? {
      return false, next;
    }
    PartitionsNext(gpt, fetcher.interface.disk, g, fetcher.currentPartition - 1, gpt.entryCount);
    var skip := Skip(gpt, entry.value);
    if !skip {
      next := count + 1;
    }
    ok := true;
  }

  lemma CountedStart(gpt: GPT, fetcher: GPTPartitionFetcher, g: Geometry)
    requires fetcher.gpt == gpt && fetcher.Valid() && fetcher.currentPartition == 0 && g == fetcher.Sizes()
    ensures Counted(gpt, fetcher, 0, g)
  {
    OneMoreRead(gpt, fetcher.interface.disk, g, 0);
    hide PartitionsRead, GPTPartitionFetcher.Valid, GPTPartitionFetcher.Sizes;
  }

  lemma CountedEnd(gpt: GPT, fetcher: GPTPartitionFetcher, count: nat, g: Geometry)
    requires Plausible(g) && Counted(gpt, fetcher, count, g) && !fetcher.HasNext()
    ensures g == fetcher.Sizes() && count == |PartitionsRead(gpt, fetcher.interface.disk, g, gpt.entryCount)|
  {
    hide PartitionsRead, GPTPartitionFetcher.Valid, GPTPartitionFetcher.Sizes, Plausible;
  }

  /** The first pass: how many partitions the table has. */
  method CountPartitions(gpt: GPT, fetcher: GPTPartitionFetcher) returns (count: Option<nat>)
    requires fetcher.gpt == gpt && fetcher.Valid() && fetcher.currentPartition == 0 && StaysWithin(fetcher.Sizes(), gpt.entryCount)
    modifies fetcher, fetcher.interface
    ensures count.Some? ==> count.value == |PartitionsRead(gpt, fetcher.interface.disk, fetcher.Sizes(), gpt.entryCount)|
    ensures if count.Some? then fetcher.interface.failures == old(fetcher.interface.failures)
            else fetcher.interface.failures > old(fetcher.interface.failures)
    ensures fetcher.Configured()
  {
    ghost var g := fetcher.Sizes();
    hide Counted, PartitionsRead, StaysWithin, Plausible, GPTPartitionFetcher.Valid, GPTPartitionFetcher.Sizes, GPTPartitionFetcher.Configured;
    var partitionCount := 0;
    CountedStart(gpt, fetcher, g);
    while fetcher.HasNext()
      invariant Counted(gpt, fetcher, partitionCount, g) && fetcher.Configured()
      invariant fetcher.interface.failures == old(fetcher.interface.failures)
      decreases gpt.entryCount - fetcher.currentPartition
    {
      var ok;
      ok, partitionCount := CountNext(gpt, fetcher, partitionCount, g);
      if !ok {
        return None;
      }
    }
    CountedEnd(gpt, fetcher, partitionCount, g);
    return Some(partitionCount);
  }

  predicate Skipped(gpt: GPT, e: Bytes)
    requires |e| == ENTRY_BYTES
  {
    || (StartingLba(e) == 0 && EndingLba(e) == 0)
    || StartingLba(e) < gpt.firstUsableLba || EndingLba(e) > gpt.lastUsableLba || StartingLba(e) > EndingLba(e)
  }

  /** The test of both passes: unused entries, and those outside the usable part of the device. */
  method Skip(gpt: GPT, e: Bytes) returns (skip: bool)
    requires |e| == ENTRY_BYTES
    ensures skip == Skipped(gpt, e)
    ensures !skip ==> StartingLba(e) <= EndingLba(e)
  {
    if StartingLba(e) == 0 && EndingLba(e) == 0 {
      return true;
    } else if StartingLba(e) < gpt.firstUsableLba || EndingLba(e) > gpt.lastUsableLba || StartingLba(e) > EndingLba(e) {
      return true;
    }
    return false;
  }

  /** What entry i adds to the partitions. */
  lemma PartitionsNext(gpt: GPT, disk: Bytes, g: Geometry, i: nat, n: nat)
    requires Plausible(g) && EntryRead(gpt, disk, g, i) != [] && i < n
    ensures |EntryRead(gpt, disk, g, i)| == ENTRY_BYTES
    ensures var e, before := EntryRead(gpt, disk, g, i), PartitionsRead(gpt, disk, g, i);
            && PartitionsRead(gpt, disk, g, i + 1) == (if Skipped(gpt, e) then before else before + [PartitionOf(e)])
            && PartitionsRead(gpt, disk, g, i + 1) <= PartitionsRead(gpt, disk, g, n)
  {
    PartitionsGrow(gpt, disk, g, i + 1, n);
    OneMoreRead(gpt, disk, g, i);
    hide StartingLba, EndingLba, PartitionsRead, ReadAt;
  }

  method StorePartition(partitions: array<Partition>, current: nat, e: Bytes)
    requires current < partitions.Length && |e| == ENTRY_BYTES && StartingLba(e) <= EndingLba(e)
    modifies partitions
    ensures partitions[..current + 1] == old(partitions[..current]) + [PartitionOf(e)]
  {
    hide StartingLba, EndingLba;
    partitions[current] := Partition(StartingLba(e), EndingLba(e) - StartingLba(e) + 1, e[..16], e[16..32]);
  }

  /** Of the partitions that are read as the table's, those of the entries so far have been written. */
  ghost predicate Written(gpt: GPT, fetcher: GPTPartitionFetcher, partitions: array<Partition>, current: nat, g: Geometry)
    requires Plausible(g)
    reads fetcher, partitions
  {
    && fetcher.gpt == gpt && fetcher.Valid() && g == fetcher.Sizes() && fetcher.currentPartition <= gpt.entryCount
    && partitions.Length == |PartitionsRead(gpt, fetcher.interface.disk, g, gpt.entryCount)|
    && current <= partitions.Length && partitions[..current] == PartitionsRead(gpt, fetcher.interface.disk, g, fetcher.currentPartition)
  }

  /** One entry of the second pass. */
  method FillNext(gpt: GPT, fetcher: GPTPartitionFetcher, partitions: array<Partition>, current: nat, ghost g: Geometry)
    returns (ok: bool, next: nat)
    requires Plausible(g) && Written(gpt, fetcher, partitions, current, g) && fetcher.HasNext() && StaysWithin(g, gpt.entryCount)
    modifies fetcher, fetcher.interface, partitions
    ensures ok ==> Written(gpt, fetcher, partitions, next, g) && fetcher.currentPartition == old(fetcher.currentPartition) + 1
    ensures if ok then fetcher.interface.failures == old(fetcher.interface.failures)
            else fetcher.interface.failures > old(fetcher.interface.failures)
  {
    hide Skipped, EntryRead, PartitionOf, StartingLba, EndingLba, StaysWithin, PartitionsRead, Usable, BytesAt, Plausible,
         GPTPartitionFetcher.Valid, GPTPartitionFetcher.Configured, GPTPartitionFetcher.Sizes;
    ghost var disk := fetcher.interface.disk;
    next := current;
    var entry := fetcher.NextWithin();
    if entry.None? {
      return false, next;
    }
    var e := entry.value;
    PartitionsNext(gpt, disk, g, fetcher.currentPartition - 1, gpt.entryCount);
    var skip := Skip(gpt, e);
    if !skip {
      StorePartition(partitions, current, e);
      next := current + 1;
    }
    ok := true;
  }

  lemma WrittenStart(gpt: GPT, fetcher: GPTPartitionFetcher, partitions: array<Partition>, g: Geometry)
    requires fetcher.gpt == gpt && fetcher.Valid() && fetcher.currentPartition == 0 && g == fetcher.Sizes()
    requires partitions.Length == |PartitionsRead(gpt, fetcher.interface.disk, g, gpt.entryCount)|
    ensures Written(gpt, fetcher, partitions, 0, g)
  {
    OneMoreRead(gpt, fetcher.interface.disk, g, 0);
    hide PartitionsRead, GPTPartitionFetcher.Valid, GPTPartitionFetcher.Sizes;
  }

  lemma WrittenEnd(gpt: GPT, fetcher: GPTPartitionFetcher, partitions: array<Partition>, current: nat, g: Geometry)
    requires Plausible(g) && Written(gpt, fetcher, partitions, current, g) && !fetcher.HasNext()
    ensures g == fetcher.Sizes() && partitions[..] == PartitionsRead(gpt, fetcher.interface.disk, g, gpt.entryCount)
  {
    hide PartitionsRead, GPTPartitionFetcher.Valid, GPTPartitionFetcher.Sizes, Plausible;
    assert partitions[..current] == partitions[..];
  }

  /** The second pass: makes the partitions.  It never writes beyond what the first pass counted. */
  method FillPartitions(gpt: GPT, fetcher: GPTPartitionFetcher, partitions: array<Partition>) returns (ok: bool)
    requires fetcher.gpt == gpt && fetcher.Valid() && fetcher.currentPartition == 0 && StaysWithin(fetcher.Sizes(), gpt.entryCount)
    requires partitions.Length == |PartitionsRead(gpt, fetcher.interface.disk, fetcher.Sizes(), gpt.entryCount)|
    modifies fetcher, fetcher.interface, partitions
    ensures ok ==> partitions[..] == PartitionsRead(gpt, fetcher.interface.disk, fetcher.Sizes(), gpt.entryCount)
    ensures ok ==> ListsTheUsed(gpt, EntriesRead(gpt, fetcher.interface.disk, fetcher.Sizes(), gpt.entryCount), partitions[..])
    ensures !ok ==> fetcher.interface.failures > old(fetcher.interface.failures)
  {
    ghost var g := fetcher.Sizes();
    WrittenStart(gpt, fetcher, partitions, g);
    hide Written, PartitionsRead, EntriesRead, ListsTheUsed, StaysWithin, Plausible, GPTPartitionFetcher.Valid, GPTPartitionFetcher.Sizes;
    var current := 0;
    while fetcher.HasNext()
      invariant Written(gpt, fetcher, partitions, current, g) && fetcher.gpt == gpt
      invariant fetcher.interface.failures == old(fetcher.interface.failures)
      decreases gpt.entryCount - fetcher.currentPartition
    {
      ok, current := FillNext(gpt, fetcher, partitions, current, g);
      if !ok {
        return;
      }
    }
    WrittenEnd(gpt, fetcher, partitions, current, g);
    ReadAreListed(gpt, fetcher.interface.disk, g);
    return true;
  }

  lemma ReadAreListed(gpt: GPT, disk: Bytes, g: Geometry)
    requires Plausible(g)
    ensures ListsTheUsed(gpt, EntriesRead(gpt, disk, g, gpt.entryCount), PartitionsRead(gpt, disk, g, gpt.entryCount))
  {
    hide Lists, EntriesRead, Partitions;
    var at := PartitionsAreListed(gpt, EntriesRead(gpt, disk, g, gpt.entryCount));
  }

  lemma TableIsListed(gpt: GPT, disk: Bytes, blockSize: nat)
    ensures ListsTheUsed(gpt, EntriesOf(gpt, disk, blockSize, gpt.entryCount), PartitionsIn(gpt, disk, blockSize, gpt.entryCount))
  {
    hide Lists, EntriesOf, Partitions;
    var at := PartitionsAreListed(gpt, EntriesOf(gpt, disk, blockSize, gpt.entryCount));
  }

  const NO_PARTITION := Partition(0, 0, [], [])

  /** The sizes of the cache with which a device is added. */
  function CacheSizes(gpt: GPT, blockSize: nat): (g: Geometry)
    requires ENTRY_BYTES <= gpt.entrySize <= blockSize
    ensures Plausible(g)
  {
    GeometryIsPlausible(gpt.entrySize, blockSize, BATCH_SIZE);
    GeometryOf(gpt.entrySize, blockSize, BATCH_SIZE)
  }

  /** Both passes, as a device is added: what is read as the table's usable entries becomes its
      partitions, in order, and these are its usable entries if the table is in step with the cache.
      The header has passed the checks of IsPartitionArrayValid. */
  method LoadPartitions(gpt: GPT, interface: Interface, granted: bool) returns (ok: bool, partitions: array<Partition>)
    requires ENTRY_BYTES <= gpt.entrySize <= interface.blockSize
    requires StaysWithin(CacheSizes(gpt, interface.blockSize), gpt.entryCount)
    modifies interface
    ensures fresh(partitions)
    ensures ok ==> partitions[..] == PartitionsRead(gpt, interface.disk, CacheSizes(gpt, interface.blockSize), gpt.entryCount)
    ensures ok && InStep(CacheSizes(gpt, interface.blockSize), gpt.entryCount) ==>
              partitions[..] == PartitionsIn(gpt, interface.disk, interface.blockSize, gpt.entryCount)
              && ListsTheUsed(gpt, EntriesOf(gpt, interface.disk, interface.blockSize, gpt.entryCount), partitions[..])
    ensures ok ==> ListsTheUsed(gpt, EntriesRead(gpt, interface.disk, CacheSizes(gpt, interface.blockSize), gpt.entryCount), partitions[..])
    ensures !ok ==> !granted || interface.failures > old(interface.failures)
  {
    if InStep(CacheSizes(gpt, interface.blockSize), gpt.entryCount) {
      ReadsThePartitions(gpt, interface.disk, CacheSizes(gpt, interface.blockSize));
    }
    TableIsListed(gpt, interface.disk, interface.blockSize);
    hide PartitionsIn, PartitionsRead, EntriesOf, EntriesRead, ListsTheUsed, InStep, StaysWithin, GPTPartitionFetcher.Valid, GeometryOf;
    partitions := new Partition[0];
    var fetcher := new GPTPartitionFetcher(gpt, interface.blockSize, interface, BATCH_SIZE);
    ok := fetcher.Initialize(granted);
    if !ok {
      return;
    }
    var count := CountPartitions(gpt, fetcher);
    if count.None? {
      return false, partitions;
    }
    ok := fetcher.Reset(granted);
    if !ok {
      return;
    }
    partitions := new Partition[count.value](_ => NO_PARTITION);
    ok := FillPartitions(gpt, fetcher, partitions);
  }
}
