/** The hash map: buckets of linked chunks, for any hash function. */
module BasicHashMap {
  import opened Common
  import opened HashTable

  const WORD_BITS: nat := 32

  // ---------- presence words ----------

  /** All flags of a presence word are clear. */
  predicate WordEmpty(presence: seq<bool>, w: nat) {
    forall j :: w * WORD_BITS <= j < (w + 1) * WORD_BITS && j < |presence| ==> !presence[j]
  }

  /** All flags of a presence word are set; flags beyond the slots never are. */
  predicate WordFull(presence: seq<bool>, w: nat) {
    (w + 1) * WORD_BITS <= |presence| && forall j :: w * WORD_BITS <= j < (w + 1) * WORD_BITS ==> presence[j]
  }

  class Aggregate<K(==), V> {
    var keys: seq<K>
    var values: seq<V>
    var presence: seq<bool>
    var next: Aggregate?<K, V>

    /** A chunk without entries. */
    constructor (ratio: nat, key: K, value: V)
      ensures ChunkSized(View(), ratio) && next == null && forall i :: 0 <= i < ratio ==> !presence[i]
    {
      keys, values, presence, next := seq(ratio, _ => key), seq(ratio, _ => value), seq(ratio, _ => false), null;
    }

    ghost function View(): Chunk<K, V>
      reads this
    {
      Chunk(keys, values, presence)
    }

    /** The slot of a key, skipping empty words. */
    method Access(key: K, ratio: nat) returns (slot: Option<nat>)
      requires ChunkSized(View(), ratio)
      ensures slot.Some? ==> slot.value < ratio && presence[slot.value] && keys[slot.value] == key
      ensures slot.None? ==> forall j :: 0 <= j < ratio && presence[j] ==> keys[j] != key
    {
      var i := 0;
      while i < ratio
        invariant i % WORD_BITS == 0 || (i < ratio && !WordEmpty(presence, i / WORD_BITS)) || i >= ratio
        invariant forall j :: 0 <= j < i && j < ratio && presence[j] ==> keys[j] != key
        decreases ratio - i
      {
        if WordEmpty(presence, i / WORD_BITS) {
          i := i + 31;
        } else if presence[i] && keys[i] == key {
          return Some(i);
        }
        i := i + 1;
      }
      return None;
    }

    /** Puts an entry in the first free slot, skipping full words. */
    method Insert(key: K, value: V, ratio: nat) returns (slot: Option<nat>)
      requires ChunkSized(View(), ratio)
      modifies this`keys, this`values, this`presence
      ensures slot.None? ==> View() == old(View()) && forall j :: 0 <= j < ratio ==> presence[j]
      ensures slot.Some? ==> slot.value < ratio && !old(presence)[slot.value] && View() == Stored(old(View()), ratio, slot.value, key, value)
      ensures slot.Some? ==> forall j :: 0 <= j < slot.value && j < ratio ==> old(presence)[j]
    {
      var i := 0;
      while i < ratio
        invariant i % WORD_BITS == 0 || (i < ratio && !WordFull(presence, i / WORD_BITS)) || i >= ratio
        invariant forall j :: 0 <= j < i && j < ratio ==> presence[j]
        invariant View() == old(View())
        decreases ratio - i
      {
        if WordFull(presence, i / WORD_BITS) {
          i := i + 31;
        } else if !presence[i] {
          values := values[i := value];
          keys := keys[i := key];
          presence := presence[i := true];
          return Some(i);
        }
        i := i + 1;
      }
      return None;
    }
  }

  /** Chunk c of bucket b is the c-th object of the bucket's chain, and links to the next one. */
  ghost predicate ChunkIs<K, V>(chain: seq<Aggregate<K, V>>, chunks: seq<Chunk<K, V>>, c: nat)
    requires c < |chain| == |chunks|
    reads chain[c]
  {
    chain[c].View() == chunks[c] && chain[c].next == if c + 1 < |chain| then chain[c + 1] else null
  }

  ghost predicate ChainIs<K, V>(head: Aggregate?<K, V>, chain: seq<Aggregate<K, V>>, chunks: seq<Chunk<K, V>>)
    reads chain
  {
    && |chain| == |chunks| && head == (if chain == [] then null else chain[0])
    && forall c: nat :: c < |chain| ==> ChunkIs(chain, chunks, c)
  }

  /** Every object of the chains has one place. */
  ghost predicate Homes<K, V>(chains: seq<seq<Aggregate<K, V>>>, home: map<Aggregate<K, V>, (nat, nat)>) {
    forall b, c :: 0 <= b < |chains| && 0 <= c < |chains[b]| ==> chains[b][c] in home && home[chains[b][c]] == (b, c)
  }

  /** A chunk whose first slot is free. */
  ghost predicate IsEmptyChunk<K, V>(c: Chunk<K, V>) {
    c.present != [] && !c.present[0]
  }

  class BasicHashMap<K(==, !new), V> {
    const capacity: nat
    const ratio: nat
    const hash: K -> nat
    var entries: seq<Aggregate?<K, V>>
    var elementsCount: nat

    ghost var chains: seq<seq<Aggregate<K, V>>>
    ghost var home: map<Aggregate<K, V>, (nat, nat)>
    ghost var table: Table<K, V>
    ghost var index: map<K, Place>

    ghost predicate Linked()
      reads this`entries, this`chains, this`table, this`home, home.Keys
    {
      && capacity > 0 && ratio > 0 && |entries| == |chains| == |table| == capacity && Homes(chains, home)
      && forall b: nat :: b < capacity ==> BucketIs(b)
    }

    ghost predicate BucketIs(b: nat)
      requires b < |entries| == |chains| == |table|
      reads this`entries, this`chains, this`table, this`home, home.Keys
    {
      (forall c :: 0 <= c < |chains[b]| ==> chains[b][c] in home) && ChainIs(entries[b], chains[b], table[b])
    }

    ghost predicate Valid()
      reads this, home.Keys
    {
      Linked() && Sized(table, ratio) && Indexed(table, ratio, index, hash) && elementsCount == |index|
    }

    /** The map that the buckets stand for. */
    ghost function Map(): map<K, V>
      requires Valid()
      reads this, home.Keys
    {
      MapOf(table, ratio, index, hash)
    }

    /** What Valid and Map stand for, in one step. */
    lemma Parts()
      requires Valid()
      ensures Linked() && Sized(table, ratio) && Indexed(table, ratio, index, hash) && elementsCount == |index|
      ensures Map() == MapOf(table, ratio, index, hash)
      ensures |table| == capacity > 0 && ratio > 0 && |entries| == |chains| == capacity
    {
    }

    lemma Whole()
      requires Linked() && Sized(table, ratio) && Indexed(table, ratio, index, hash) && elementsCount == |index|
      ensures Valid() && Map() == MapOf(table, ratio, index, hash)
    {
    }

    constructor (capacity: nat, ratio: nat, hash: K -> nat)
      requires capacity > 0 && ratio > 0
      ensures Valid() && Map() == map[] && home == map[]
      ensures this.capacity == capacity && this.ratio == ratio && this.hash == hash
    {
      this.capacity, this.ratio, this.hash := capacity, ratio, hash;
      entries := seq(capacity, _ => null);
      elementsCount := 0;
      chains, home, table, index := seq(capacity, _ => []), map[], seq(capacity, _ => []), map[];
    }

    function Size(): nat
      reads this
    {
      elementsCount
    }

    // ---------- looking up ----------

    /** The slot of a key: the chunk that holds it, and its position there. */
    method Locate(key: K) returns (agg: Aggregate?<K, V>, slot: nat, ghost p: Place)
      requires Valid()
      ensures agg == null <==> key !in index
      ensures agg != null ==> p == index[key] && InTable(table, ratio, p) && slot == p.slot
                              && p.chunk < |chains[p.bucket]| && agg == chains[p.bucket][p.chunk] && agg in home
    {
      var h := hash(key) % capacity;
      agg := entries[h];
      ghost var c: nat := 0;
      slot := 0;
      p := Place(h, 0, 0);
      assert BucketIs(h);
      while agg != null
        invariant c <= |chains[h]| && agg == if c < |chains[h]| then chains[h][c] else null
        invariant forall d, j :: 0 <= d < c && 0 <= j < ratio && table[h][d].present[j] ==> table[h][d].keys[j] != key
        decreases |chains[h]| - c
      {
        assert ChunkIs(chains[h], table[h], c) && ChunkSized(table[h][c], ratio);
        var found := agg.Access(key, ratio);
        if found.Some? {
          slot := found.value;
          p := Place(h, c, slot);
          assert Used(table, ratio, p) && KeyAt(table, ratio, p) == key;
          assert KeyPlaced(table, ratio, index, hash, p);
          return;
        }
        agg := agg.next;
        c := c + 1;
      }
      KeyAbsent(table, ratio, index, hash, key);
    }

    /** The value of a key. */
    method At(key: K) returns (value: Option<V>)
      requires Valid()
      ensures value == if key in Map() then Some(Map()[key]) else None
    {
      var agg, slot, p := Locate(key);
      if agg == null {
        return None;
      }
      ChunkOf(p);
      value := Some(agg.values[slot]);
    }

    lemma ChunkOf(p: Place)
      requires Linked() && InTable(table, ratio, p)
      ensures p.chunk < |chains[p.bucket]| && chains[p.bucket][p.chunk] in home && chains[p.bucket][p.chunk].View() == table[p.bucket][p.chunk]
    {
      assert BucketIs(p.bucket) && ChunkIs(chains[p.bucket], table[p.bucket], p.chunk);
    }

    // ---------- storing ----------

    /** Replaces the value in a slot. */
    method SetValue(agg: Aggregate<K, V>, slot: nat, key: K, value: V, ghost p: Place)
      requires Linked() && Sized(table, ratio) && InTable(table, ratio, p) && slot == p.slot
      requires p.chunk < |chains[p.bucket]| && agg == chains[p.bucket][p.chunk] && agg in home
      requires Used(table, ratio, p) && KeyAt(table, ratio, p) == key
      modifies this`table, agg
      ensures Linked() && table == Put(old(table), ratio, p, key, value)
    {
      ChunkOf(p);
      ghost var chunk := Stored(table[p.bucket][p.chunk], ratio, slot, key, value);
      agg.values := agg.values[slot := value];
      assert agg.View() == chunk;
      table := WithChunk(table, p.bucket, p.chunk, chunk);
      forall b: nat | b < capacity
        ensures BucketIs(b)
      {
        assert old(BucketIs(b));
        forall c: nat | c < |chains[b]|
          ensures ChunkIs(chains[b], table[b], c)
        {
          assert old(ChunkIs(chains[b], table[b], c));
        }
      }
    }

    /** Replaces the value of a key that is there. */
    method Overwrite(agg: Aggregate<K, V>, slot: nat, key: K, value: V, ghost p: Place)
      requires Valid() && key in index && p == index[key] && slot == p.slot
      requires InTable(table, ratio, p) && p.chunk < |chains[p.bucket]| && agg == chains[p.bucket][p.chunk] && agg in home
      modifies this`table, agg
      ensures Valid() && Map() == old(Map())[key := value]
    {
      hide Valid, Map, Linked, MapOf, Put, Sized;
      Parts();
      PutOld(table, ratio, index, hash, key, value);
      assert Used(table, ratio, p) && KeyAt(table, ratio, p) == key;
      hide Indexed, Used, KeyAt, InTable;
      SetValue(agg, slot, key, value, p);
      Whole();
    }

    /** Puts an entry in a free slot of a chunk, if there is one. */
    method FillSlot(agg: Aggregate<K, V>, key: K, value: V, ghost b: nat, ghost c: nat) returns (slot: Option<nat>)
      requires Linked() && Sized(table, ratio) && b < capacity && c < |chains[b]| && agg == chains[b][c]
      modifies this`table, home.Keys
      ensures Linked()
      ensures slot.Some? ==> old(InTable(table, ratio, Place(b, c, slot.value))) && !old(Used(table, ratio, Place(b, c, slot.value)))
                             && table == Put(old(table), ratio, Place(b, c, slot.value), key, value)
      ensures slot.None? ==> table == old(table) && c < |table[b]| && ChunkSized(table[b][c], ratio)
                             && forall i :: 0 <= i < ratio ==> table[b][c].present[i]
    {
      assert BucketIs(b) && ChunkIs(chains[b], table[b], c) && ChunkSized(table[b][c], ratio);
      ghost var t := table;
      slot := agg.Insert(key, value, ratio);
      if slot.Some? {
        table := WithChunk(t, b, c, agg.View());
      }
      forall d: nat | d < capacity
        ensures BucketIs(d)
      {
        assert old(BucketIs(d));
        forall e: nat | e < |chains[d]|
          ensures ChunkIs(chains[d], table[d], e)
        {
          assert old(ChunkIs(chains[d], table[d], e));
        }
      }
    }

    /** Puts a new key in a free slot of a chunk of its bucket. */
    method StoreIn(agg: Aggregate<K, V>, key: K, value: V, ghost b: nat, ghost c: nat) returns (slot: Option<nat>)
      requires Valid() && key !in index && b == hash(key) % capacity && c < |chains[b]| && agg == chains[b][c]
      modifies this`table, this`index, this`elementsCount, home.Keys
      ensures Valid()
      ensures slot.Some? ==> Map() == old(Map())[key := value]
      ensures slot.None? ==> index == old(index) && table == old(table) && Map() == old(Map())
      ensures slot.None? ==> c < |table[b]| && ChunkSized(table[b][c], ratio) && forall i :: 0 <= i < ratio ==> table[b][c].present[i]
    {
      hide Valid, Map, Linked, Indexed, MapOf, Put, Used, Sized, InTable, ChunkSized;
      Parts();
      ghost var t := table;
      slot := FillSlot(agg, key, value, b, c);
      if slot.Some? {
        ghost var p := Place(b, c, slot.value);
        PutNew(t, ratio, index, hash, p, key, value);
        index := index[key := p];
        elementsCount := elementsCount + 1;
      }
      Whole();
    }

    lemma TableSize()
      requires Linked()
      ensures |table| == capacity > 0 && ratio > 0 && |entries| == |chains| == capacity
    {
    }

    lemma HeadIs(h: nat)
      requires Linked() && h < capacity
      ensures h < |entries| && h < |chains| && h < |table| && |chains[h]| == |table[h]| && entries[h] == if chains[h] == [] then null else chains[h][0]
    {
      assert BucketIs(h);
    }

    lemma NextIs(h: nat, c: nat)
      requires Linked() && h < capacity && c < |chains[h]|
      ensures chains[h][c].next == (if c + 1 < |chains[h]| then chains[h][c + 1] else null)
      ensures c < |table[h]| && chains[h][c].View() == table[h][c] && chains[h][c] in home
    {
      assert BucketIs(h) && ChunkIs(chains[h], table[h], c);
    }

    lemma EmptyBucket(key: K)
      requires Valid() && entries[hash(key) % capacity] == null
      ensures key !in index && chains[hash(key) % capacity] == []
    {
      assert BucketIs(hash(key) % capacity);
      KeyAbsent(table, ratio, index, hash, key);
    }

    /** Links a new chunk at the end of a bucket, prev being the last one, and stores the entry there. */
    method NewChunk(h: nat, prev: Aggregate?<K, V>, key: K, value: V)
      requires Valid() && key !in index && h == hash(key) % capacity
      requires prev == if chains[h] == [] then null else chains[h][|chains[h]| - 1]
      modifies this, home.Keys
      ensures Valid() && Map() == old(Map())[key := value]
    {
      TableSize();
      hide Valid, Map;
      var agg := AppendChunk(h, prev, key, value);
      var slot := StoreIn(agg, key, value, h, |chains[h]| - 1);
    }

    /** A new chunk without entries at the end of a bucket. */
    method AppendChunk(h: nat, prev: Aggregate?<K, V>, key: K, value: V) returns (agg: Aggregate<K, V>)
      requires Valid() && h < |chains| && h < capacity
      requires prev == if chains[h] == [] then null else chains[h][|chains[h]| - 1]
      modifies this`entries, this`home, this`chains, this`table, home.Keys
      ensures Valid() && Map() == old(Map()) && index == old(index) && fresh(home.Keys - old(home.Keys))
      ensures |chains| == capacity && chains[h] != [] && agg == chains[h][|chains[h]| - 1]
      ensures h < |table| && |chains[h]| == |table[h]| && IsEmptyChunk(table[h][|chains[h]| - 1])
    {
      hide Valid, Map, Linked, Indexed, MapOf, Sized, WithNewChunk, ChunkSized;
      Parts();
      agg := new Aggregate(ratio, key, value);
      ghost var chunk := agg.View();
      AddChunk(table, ratio, index, hash, h, chunk);
      NewChunkIs(table, h, chunk);
      ChainSize(h);
      LinkChunk(h, prev, agg);
      Whole();
      Parts();
    }

    lemma ChainSize(h: nat)
      requires Linked() && h < capacity
      ensures |chains[h]| == |table[h]|
    {
      assert BucketIs(h);
    }

    /** Links an empty chunk at the end of a bucket. */
    method LinkChunk(h: nat, prev: Aggregate?<K, V>, agg: Aggregate<K, V>)
      requires Linked() && h < capacity && agg !in home && agg.next == null
      requires prev == if chains[h] == [] then null else chains[h][|chains[h]| - 1]
      modifies this`entries, this`home, this`chains, this`table, home.Keys
      ensures Linked() && home.Keys == old(home.Keys) + {agg}
      ensures chains[h] == old(chains[h]) + [agg] && table == WithNewChunk(old(table), h, agg.View())
    {
      assert BucketIs(h);
      ghost var t := table;
      if prev == null {
        entries := entries[h := agg];
      } else {
        assert ChunkIs(chains[h], table[h], |chains[h]| - 1);
        prev.next := agg;
      }
      home := home[agg := (h, |chains[h]|)];
      chains := chains[h := chains[h] + [agg]];
      table := WithNewChunk(t, h, agg.View());
      forall b: nat | b < capacity
        ensures BucketIs(b)
      {
        assert old(BucketIs(b));
        forall c: nat | c < |chains[b]|
          ensures ChunkIs(chains[b], table[b], c)
        {
          assert c < |old(chains[b])| ==> old(ChunkIs(chains[b], table[b], c));
        }
      }
    }

    /** Stores a key that is not there: in the first chunk with a free slot, or in a new chunk. */
    method InsertNew(h: nat, key: K, value: V, granted: bool) returns (stored: bool)
      requires Valid() && key !in index && h == hash(key) % capacity
      modifies this, home.Keys
      ensures Valid() && Map() == (if stored then old(Map())[key := value] else old(Map()))
      ensures !stored ==> !granted && key !in Map()
    {
      HeadIs(h);
      hide Linked, Indexed, MapOf, Sized, Used, ChunkSized;
      var agg := entries[h];
      var prev: Aggregate?<K, V> := null;
      ghost var c: nat := 0;
      while agg != null
        invariant Valid() && h < |chains| && home == old(home) && chains == old(chains) && index == old(index) && Map() == old(Map())
        invariant c <= |chains[h]| && agg == (if c < |chains[h]| then chains[h][c] else null)
        invariant prev == if c == 0 then null else chains[h][c - 1]
        decreases |chains[h]| - c
      {
        var slot := StoreIn(agg, key, value, h, c);
        if slot.Some? {
          return true;
        }
        NextIs(h, c);
        prev := agg;
        agg := agg.next;
        c := c + 1;
      }
      if !granted {
        return false;
      }
      NewChunk(h, prev, key, value);
      stored := true;
    }

    /** Stores a value under a key.  granted tells whether the heap has room for a new chunk. */
    method Insert(key: K, value: V, granted: bool) returns (stored: bool)
      requires Valid()
      modifies this, home.Keys
      ensures Valid() && Map() == (if stored then old(Map())[key := value] else old(Map()))
      ensures elementsCount == |Map()|
      ensures !stored ==> !granted && key !in Map()
    {
      var h := hash(key) % capacity;
      if entries[h] == null {
        EmptyBucket(key);
        if !granted {
          return false;
        }
        NewChunk(h, null, key, value);
        stored := true;
        return;
      }
      var found, slot, p := Locate(key);
      if found != null {
        Overwrite(found, slot, key, value, p);
        return true;
      }
      stored := InsertNew(h, key, value, granted);
    }

    // ---------- iterating ----------

    /** An iterator at the first entry, or the end. */
    method Begin() returns (it: Iterator<K, V>)
      requires Valid()
      ensures fresh(it) && it.owner == this && !it.error
      ensures if elementsCount == 0 then it.ref == 0
              else it.ref == 0 && it.IsAt() && PlacesFrom(table, ratio, it.entry, it.c, it.i) == PlacesFrom(table, ratio, 0, 0, 0)
    {
      hide Indexed, Sized, Linked, PlacesFrom, KeysOf, Used, MapOf;
      if elementsCount == 0 {
        it := new Iterator(0, this, 0, null, 0);
        return;
      }
      TableSize();
      VisitsEveryEntryOnce(table, ratio, index, hash);
      HeadIs(0);
      var entry, agg, i, c := FirstFrom(0, entries[0], 0, 0);
      if agg == null {
        assert false;
      }
      it := new Iterator(0, this, entry, agg, i);
      it.c := c;
    }

    method End() returns (it: Iterator<K, V>)
      requires Valid()
      ensures fresh(it) && it.owner == this && !it.error && it.ref == elementsCount
    {
      it := new Iterator(elementsCount, this, 0, null, 0);
    }

    /** The first present slot of a chunk from a position on, skipping empty words; ratio if there is none. */
    method FirstPresent(agg: Aggregate<K, V>, from: nat) returns (i: nat)
      requires ChunkSized(agg.View(), ratio)
      requires from % WORD_BITS == 0 || (0 < from && agg.presence != [] && from - 1 < ratio && agg.presence[from - 1])
      ensures i >= ratio || (from <= i && agg.presence[i])
      ensures forall j :: from <= j < i && j < ratio ==> !agg.presence[j]
    {
      i := from;
      while i < ratio
        invariant from <= i
        invariant i % WORD_BITS == 0 || !WordEmpty(agg.presence, i / WORD_BITS) || i >= ratio
        invariant forall j :: from <= j < i && j < ratio ==> !agg.presence[j]
        decreases ratio - i
      {
        if WordEmpty(agg.presence, i / WORD_BITS) {
          i := i + 31;
        } else if agg.presence[i] {
          return;
        }
        i := i + 1;
      }
    }

    /** Searches from a slot on, chunk by chunk and bucket by bucket.  agg is the chunk c of bucket
        entry, or null behind the last one. */
    method FirstFrom(entry0: nat, agg0: Aggregate?<K, V>, i0: nat, ghost c0: nat) returns (entry: nat, agg: Aggregate?<K, V>, i: nat, ghost c: nat)
      requires Valid() && entry0 < capacity && c0 <= |chains[entry0]| && agg0 == (if c0 < |chains[entry0]| then chains[entry0][c0] else null)
      requires agg0 != null ==> AlignedAt(agg0, i0)
      ensures agg == null ==> PlacesFrom(table, ratio, entry0, c0, i0) == []
      ensures agg != null ==>
                && entry < capacity && c < |chains[entry]| && agg == chains[entry][c] && i < ratio
                && Used(table, ratio, Place(entry, c, i))
                && PlacesFrom(table, ratio, entry, c, i) == PlacesFrom(table, ratio, entry0, c0, i0)
    {
      entry, agg, i, c := entry0, agg0, i0, c0;
      hide Linked, Indexed, MapOf, PlacesFrom, Used, Sized;
      TableSize();
      while entry < capacity
        invariant entry <= capacity && |table| == capacity && |chains| == capacity
        invariant entry < capacity ==> c <= |chains[entry]| && agg == if c < |chains[entry]| then chains[entry][c] else null
        invariant agg != null ==> entry < capacity && AlignedAt(agg, i)
        invariant PlacesFrom(table, ratio, entry, c, i) == PlacesFrom(table, ratio, entry0, c0, i0)
        decreases capacity - entry, if entry < capacity then |chains[entry]| - c else 0
      {
        HeadIs(entry);
        PlacesStep(table, ratio, entry, c, i);
        if agg != null {
          NextIs(entry, c);
          SizedAt(entry, c);
          var found := FirstPresent(agg, i);
          SkipAbsent(table, ratio, entry, c, i, found);
          if found < ratio {
            i := found;
            UsedAt(entry, c, i);
            return;
          }
          PlacesStep(table, ratio, entry, c, found);
          agg := agg.next;
          c := c + 1;
          i := 0;
        } else {
          entry := entry + 1;
          c := 0;
          i := 0;
          if entry < capacity {
            HeadIs(entry);
            agg := entries[entry];
          }
        }
      }
      PlacesStep(table, ratio, entry, c, i);
      agg := null;
    }

    /** A scan starts at a word boundary, or behind a present slot. */
    ghost predicate AlignedAt(agg: Aggregate<K, V>, i: nat)
      reads this, agg
    {
      i % WORD_BITS == 0 || (0 < i && ChunkSized(agg.View(), ratio) && i - 1 < ratio && agg.presence[i - 1])
    }

    lemma SizedAt(b: nat, c: nat)
      requires Valid() && b < |table| && c < |table[b]|
      ensures ChunkSized(table[b][c], ratio)
    {
    }

    lemma UsedAt(b: nat, c: nat, i: nat)
      requires Valid() && b < |table| && c < |table[b]| && i < ratio && ChunkSized(table[b][c], ratio) && table[b][c].present[i]
      ensures Used(table, ratio, Place(b, c, i))
    {
    }
  }

  /** Slots that are not present do not matter to the visit. */
  lemma {:induction false} SkipAbsent<K, V>(t: Table<K, V>, ratio: nat, b: nat, c: nat, from: nat, to: nat)
    requires Sized(t, ratio) && b < |t| && c < |t[b]|
    requires forall j :: from <= j < to && j < ratio ==> !t[b][c].present[j]
    ensures from <= to ==> PlacesFrom(t, ratio, b, c, from) == PlacesFrom(t, ratio, b, c, to)
    decreases if from < to then to - from else 0
  {
    if from < to {
      SkipAbsent(t, ratio, b, c, from + 1, to);
    }
  }

  class Iterator<K(==, !new), V> {
    var error: bool
    var ref: nat
    const owner: BasicHashMap<K, V>
    var entry: nat
    var agg: Aggregate?<K, V>
    var i: nat

    // which chunk of its bucket agg is
    ghost var c: nat

    constructor (ref: nat, owner: BasicHashMap<K, V>, entry: nat, agg: Aggregate?<K, V>, i: nat)
      ensures !error && this.ref == ref && this.owner == owner && this.entry == entry && this.agg == agg && this.i == i
    {
      error, this.ref, this.owner, this.entry, this.agg, this.i, c := false, ref, owner, entry, agg, i, 0;
    }

    /** The iterator stands at an entry. */
    ghost predicate IsAt()
      reads this, owner, owner.home.Keys
    {
      && owner.Valid() && !error && entry < |owner.chains| && c < |owner.chains[entry]| && agg == owner.chains[entry][c] && agg != null
      && Used(owner.table, owner.ratio, Place(entry, c, i))
    }

    /** operator++: the next entry, or the error state behind the last one. */
    method Advance()
      requires IsAt()
      modifies this
      ensures var rest := PlacesFrom(owner.table, owner.ratio, old(entry), old(c), old(i) + 1);
              if rest == [] then error
              else IsAt() && ref == old(ref) + 1 && PlacesFrom(owner.table, owner.ratio, entry, c, i) == rest
    {
      hide BasicHashMap.Linked, Indexed, Sized, PlacesFrom, MapOf;
      owner.ChunkOf(Place(entry, c, i));
      owner.SizedAt(entry, c);
      owner.TableSize();
      i := i + 1;
      var entry1, agg1, i1, c1 := owner.FirstFrom(entry, agg, i, c);
      entry, i, c := entry1, i1, c1;
      if agg1 == null {
        error := true;
      } else {
        agg := agg1;
        ref := ref + 1;
        PlacesStep(owner.table, owner.ratio, entry, c, i);
      }
    }

    predicate Equals(other: Iterator<K, V>)
      reads this, other
    {
      error || other.error || (ref == other.ref && owner == other.owner)
    }
  }

  /** How far a visit has come: the places met so far, and where the iterator stands. */
  ghost predicate Visiting<K(!new), V>(m: BasicHashMap<K, V>, it: Iterator<K, V>, places: seq<Place>, all: seq<Place>)
    reads it, m, m.home.Keys
  {
    && it.owner == m && m.Valid() && |all| == m.elementsCount
    && if it.error || it.ref == m.elementsCount then places == all
       else it.ref == |places| < |all| && it.IsAt() && places + PlacesFrom(m.table, m.ratio, it.entry, it.c, it.i) == all
  }

  /** One entry of a visit: its key is taken, and the iterator advances. */
  method VisitNext<K(==, !new), V>(m: BasicHashMap<K, V>, it: Iterator<K, V>, ghost places: seq<Place>, ghost all: seq<Place>) returns (key: K, ghost p: Place)
    requires Visiting(m, it, places, all) && !it.error && it.ref != m.elementsCount
    modifies it
    ensures Visiting(m, it, places + [p], all)
    ensures |places| < |all| && p == all[|places|] && InTable(m.table, m.ratio, p) && key == KeyAt(m.table, m.ratio, p)
  {
    hide PlacesFrom, Indexed, MapOf, BasicHashMap.Linked;
    p := Place(it.entry, it.c, it.i);
    m.ChunkOf(p);
    PlacesStep(m.table, m.ratio, it.entry, it.c, it.i);
    key := it.agg.keys[it.i];
    it.Advance();
  }

  /** A visit from begin to end meets every entry once. */
  method Visit<K(==, !new), V>(m: BasicHashMap<K, V>) returns (keys: seq<K>)
    requires m.Valid()
    ensures Distinct(keys) && Elements(keys) == m.Map().Keys && |keys| == m.elementsCount
  {
    VisitsEveryEntryOnce(m.table, m.ratio, m.index, m.hash);
    ghost var all := PlacesFrom(m.table, m.ratio, 0, 0, 0);
    keys := VisitAll(m, all, KeysOf(m.table, m.ratio, all));
  }

  method VisitAll<K(==, !new), V>(m: BasicHashMap<K, V>, ghost all: seq<Place>, ghost allKeys: seq<K>) returns (keys: seq<K>)
    requires m.Valid() && all == PlacesFrom(m.table, m.ratio, 0, 0, 0) && |all| == |allKeys| == m.elementsCount
    requires forall i :: 0 <= i < |all| ==> InTable(m.table, m.ratio, all[i]) && allKeys[i] == KeyAt(m.table, m.ratio, all[i])
    ensures keys == allKeys
  {
    hide PlacesFrom, Visiting, BasicHashMap.Valid, KeyAt, InTable, Iterator.IsAt;
    ghost var places: seq<Place> := [];
    keys := [];
    var it := m.Begin();
    var end := m.End();
    StartsVisit(m, it, all);
    while !it.Equals(end)
      invariant it != end && it.owner == end.owner == m && !end.error && end.ref == m.elementsCount
      invariant fresh(it) && Visiting(m, it, places, all)
      invariant |keys| == |places| <= |all| && keys == allKeys[..|keys|]
      decreases |all| - |places|
    {
      var key;
      ghost var p;
      key, p := VisitNext(m, it, places, all);
      keys := keys + [key];
      places := places + [p];
    }
    EndsVisit(m, it, places, all);
  }

  lemma StartsVisit<K(!new), V>(m: BasicHashMap<K, V>, it: Iterator<K, V>, all: seq<Place>)
    requires m.Valid() && it.owner == m && !it.error && it.ref == 0 && |all| == m.elementsCount
    requires all == PlacesFrom(m.table, m.ratio, 0, 0, 0)
    requires m.elementsCount > 0 ==> it.IsAt() && PlacesFrom(m.table, m.ratio, it.entry, it.c, it.i) == all
    ensures Visiting(m, it, [], all)
  {
    assert [] + all == all;
  }

  lemma EndsVisit<K(!new), V>(m: BasicHashMap<K, V>, it: Iterator<K, V>, places: seq<Place>, all: seq<Place>)
    requires Visiting(m, it, places, all) && (it.error || it.ref == m.elementsCount)
    ensures places == all
  {
  }
}
