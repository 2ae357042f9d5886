/** A table of buckets, each a list of chunks of slots: which map it stands for, and the order in
    which its entries are visited. */
module HashTable {
  import opened Common

  /** A chunk of slots; a slot counts only if it is present. */
  datatype Chunk<K, V> = Chunk(keys: seq<K>, values: seq<V>, present: seq<bool>)

  type Table<K, V> = seq<seq<Chunk<K, V>>>

  datatype Place = Place(bucket: nat, chunk: nat, slot: nat)

  predicate Sized<K, V>(t: Table<K, V>, ratio: nat) {
    forall b, c :: 0 <= b < |t| && 0 <= c < |t[b]| ==> ChunkSized(t[b][c], ratio)
  }

  predicate ChunkSized<K, V>(c: Chunk<K, V>, ratio: nat) {
    |c.keys| == ratio && |c.values| == ratio && |c.present| == ratio
  }

  predicate InTable<K, V>(t: Table<K, V>, ratio: nat, p: Place) {
    p.bucket < |t| && p.chunk < |t[p.bucket]| && p.slot < ratio
  }

  predicate Used<K, V>(t: Table<K, V>, ratio: nat, p: Place)
    requires Sized(t, ratio)
  {
    InTable(t, ratio, p) && t[p.bucket][p.chunk].present[p.slot]
  }

  function KeyAt<K, V>(t: Table<K, V>, ratio: nat, p: Place): K
    requires Sized(t, ratio) && InTable(t, ratio, p)
  {
    t[p.bucket][p.chunk].keys[p.slot]
  }

  function ValueAt<K, V>(t: Table<K, V>, ratio: nat, p: Place): V
    requires Sized(t, ratio) && InTable(t, ratio, p)
  {
    t[p.bucket][p.chunk].values[p.slot]
  }

  // ---------- the map of a table ----------

  /** Every used slot is the one place of its key, in the key's bucket. */
  ghost predicate Indexed<K(!new), V>(t: Table<K, V>, ratio: nat, index: map<K, Place>, hash: K -> nat)
    requires Sized(t, ratio)
  {
    && (forall p :: Used(t, ratio, p) ==> KeyPlaced(t, ratio, index, hash, p))
    && (forall k :: k in index ==> Used(t, ratio, index[k]) && KeyAt(t, ratio, index[k]) == k)
  }

  predicate KeyPlaced<K, V>(t: Table<K, V>, ratio: nat, index: map<K, Place>, hash: K -> nat, p: Place)
    requires Sized(t, ratio) && InTable(t, ratio, p)
  {
    var k := KeyAt(t, ratio, p);
    k in index && index[k] == p && p.bucket == hash(k) % |t|
  }

  ghost function MapOf<K(!new), V>(t: Table<K, V>, ratio: nat, index: map<K, Place>, hash: K -> nat): (m: map<K, V>)
    requires Sized(t, ratio) && Indexed(t, ratio, index, hash)
    ensures m.Keys == index.Keys
  {
    map k | k in index :: ValueAt(t, ratio, index[k])
  }

  /** A key that no slot of its bucket holds is not in the table. */
  lemma KeyAbsent<K(!new), V>(t: Table<K, V>, ratio: nat, index: map<K, Place>, hash: K -> nat, key: K)
    requires Sized(t, ratio) && Indexed(t, ratio, index, hash) && |t| > 0
    requires var b := hash(key) % |t|; forall c, i :: 0 <= c < |t[b]| && 0 <= i < ratio && t[b][c].present[i] ==> t[b][c].keys[i] != key
    ensures key !in index
  {
    forall p | Used(t, ratio, p)
      ensures KeyAt(t, ratio, p) != key
    {
      assert KeyPlaced(t, ratio, index, hash, p);
    }
  }

  // ---------- storing ----------

  function Stored<K, V>(c: Chunk<K, V>, ratio: nat, slot: nat, key: K, value: V): (c': Chunk<K, V>)
    requires ChunkSized(c, ratio) && slot < ratio
    ensures ChunkSized(c', ratio)
  {
    Chunk(c.keys[slot := key], c.values[slot := value], c.present[slot := true])
  }

  function WithChunk<K, V>(t: Table<K, V>, bucket: nat, chunk: nat, c: Chunk<K, V>): (t': Table<K, V>)
    requires bucket < |t| && chunk < |t[bucket]|
  {
    t[bucket := t[bucket][chunk := c]]
  }

  function Put<K, V>(t: Table<K, V>, ratio: nat, p: Place, key: K, value: V): (t': Table<K, V>)
    requires Sized(t, ratio) && InTable(t, ratio, p)
  {
    WithChunk(t, p.bucket, p.chunk, Stored(t[p.bucket][p.chunk], ratio, p.slot, key, value))
  }

  lemma PutPlaces<K, V>(t: Table<K, V>, ratio: nat, p: Place, key: K, value: V)
    requires Sized(t, ratio) && InTable(t, ratio, p)
    ensures Sized(Put(t, ratio, p, key, value), ratio)
    ensures var t' := Put(t, ratio, p, key, value);
            forall q :: InTable(t', ratio, q) <==> InTable(t, ratio, q)
    ensures var t' := Put(t, ratio, p, key, value);
            forall q :: InTable(t, ratio, q) ==>
              && Used(t', ratio, q) == (q == p || Used(t, ratio, q))
              && KeyAt(t', ratio, q) == (if q == p then key else KeyAt(t, ratio, q))
              && ValueAt(t', ratio, q) == (if q == p then value else ValueAt(t, ratio, q))
  {
  }

  lemma PutNewIndexed<K(!new), V>(t: Table<K, V>, ratio: nat, index: map<K, Place>, hash: K -> nat, p: Place, key: K, value: V)
    requires Sized(t, ratio) && Indexed(t, ratio, index, hash) && InTable(t, ratio, p) && !Used(t, ratio, p)
    requires key !in index && p.bucket == hash(key) % |t|
    ensures Sized(Put(t, ratio, p, key, value), ratio) && Indexed(Put(t, ratio, p, key, value), ratio, index[key := p], hash)
  {
    PutPlaces(t, ratio, p, key, value);
    hide Put, Used, KeyAt, ValueAt, InTable;
  }

  /** A key that is not there yet goes into a free slot of its bucket. */
  lemma PutNew<K(!new), V>(t: Table<K, V>, ratio: nat, index: map<K, Place>, hash: K -> nat, p: Place, key: K, value: V)
    requires Sized(t, ratio) && Indexed(t, ratio, index, hash) && InTable(t, ratio, p) && !Used(t, ratio, p)
    requires key !in index && p.bucket == hash(key) % |t|
    ensures var t', index' := Put(t, ratio, p, key, value), index[key := p];
            Sized(t', ratio) && Indexed(t', ratio, index', hash)
            && MapOf(t', ratio, index', hash) == MapOf(t, ratio, index, hash)[key := value]
  {
    hide Put, Used, KeyAt, ValueAt, InTable, Indexed;
    PutNewIndexed(t, ratio, index, hash, p, key, value);
    var t', index' := Put(t, ratio, p, key, value), index[key := p];
    forall k | k in index'
      ensures InTable(t', ratio, index'[k]) && (k != key ==> InTable(t, ratio, index[k]))
      ensures ValueAt(t', ratio, index'[k]) == if k == key then value else ValueAt(t, ratio, index[k])
    {
      PutNewValue(t, ratio, index, hash, p, key, value, k);
    }
  }

  lemma PutNewValue<K(!new), V>(t: Table<K, V>, ratio: nat, index: map<K, Place>, hash: K -> nat, p: Place, key: K, value: V, k: K)
    requires Sized(t, ratio) && Indexed(t, ratio, index, hash) && InTable(t, ratio, p) && !Used(t, ratio, p)
    requires k == key || k in index
    ensures var t' := Put(t, ratio, p, key, value); var q := if k == key then p else index[k];
            Sized(t', ratio) && InTable(t, ratio, q) && InTable(t', ratio, q)
            && ValueAt(t', ratio, q) == if k == key then value else ValueAt(t, ratio, q)
  {
    PutPlaces(t, ratio, p, key, value);
    assert k != key ==> Used(t, ratio, index[k]);
    hide Put, KeyAt, ValueAt, InTable;
  }

  /** A key that is there gets a new value. */
  lemma PutOld<K(!new), V>(t: Table<K, V>, ratio: nat, index: map<K, Place>, hash: K -> nat, key: K, value: V)
    requires Sized(t, ratio) && Indexed(t, ratio, index, hash) && key in index
    ensures var t' := Put(t, ratio, index[key], key, value);
            Sized(t', ratio) && Indexed(t', ratio, index, hash)
            && MapOf(t', ratio, index, hash) == MapOf(t, ratio, index, hash)[key := value]
  {
    PutPlaces(t, ratio, index[key], key, value);
    hide Put, Used, KeyAt, ValueAt, InTable;
  }

  function WithNewChunk<K, V>(t: Table<K, V>, bucket: nat, c: Chunk<K, V>): Table<K, V>
    requires bucket < |t|
  {
    t[bucket := t[bucket] + [c]]
  }

  lemma NewChunkIs<K, V>(t: Table<K, V>, bucket: nat, c: Chunk<K, V>)
    requires bucket < |t|
    ensures var t' := WithNewChunk(t, bucket, c); |t'| == |t| && |t'[bucket]| == |t[bucket]| + 1 && t'[bucket][|t[bucket]|] == c
  {
  }

  /** A new chunk without entries changes nothing. */
  lemma AddChunk<K(!new), V>(t: Table<K, V>, ratio: nat, index: map<K, Place>, hash: K -> nat, bucket: nat, c: Chunk<K, V>)
    requires Sized(t, ratio) && Indexed(t, ratio, index, hash) && bucket < |t|
    requires ChunkSized(c, ratio) && forall i :: 0 <= i < ratio ==> !c.present[i]
    ensures var t' := WithNewChunk(t, bucket, c);
            Sized(t', ratio) && Indexed(t', ratio, index, hash) && MapOf(t', ratio, index, hash) == MapOf(t, ratio, index, hash)
  {
    var t' := WithNewChunk(t, bucket, c);
    forall p | InTable(t', ratio, p)
      ensures Used(t', ratio, p) ==> Used(t, ratio, p)
      ensures InTable(t, ratio, p) ==>
                Used(t', ratio, p) == Used(t, ratio, p) && KeyAt(t', ratio, p) == KeyAt(t, ratio, p) && ValueAt(t', ratio, p) == ValueAt(t, ratio, p)
    {
    }
    assert forall p :: InTable(t, ratio, p) ==> InTable(t', ratio, p);
  }

  // ---------- the order of a visit ----------

  /** The used places from a position on: bucket by bucket, chunk by chunk, slot by slot. */
  function PlacesFrom<K, V>(t: Table<K, V>, ratio: nat, b: nat, c: nat, i: nat): seq<Place>
    requires Sized(t, ratio)
    decreases |t| - b, if b < |t| then |t[b]| - c else 0, ratio - i
  {
    if b >= |t| then []
    else if c >= |t[b]| then PlacesFrom(t, ratio, b + 1, 0, 0)
    else if i >= ratio then PlacesFrom(t, ratio, b, c + 1, 0)
    else (if t[b][c].present[i] then [Place(b, c, i)] else []) + PlacesFrom(t, ratio, b, c, i + 1)
  }

  /** One step of the visit. */
  lemma PlacesStep<K, V>(t: Table<K, V>, ratio: nat, b: nat, c: nat, i: nat)
    requires Sized(t, ratio)
    ensures b >= |t| ==> PlacesFrom(t, ratio, b, c, i) == []
    ensures b < |t| && c >= |t[b]| ==> PlacesFrom(t, ratio, b, c, i) == PlacesFrom(t, ratio, b + 1, 0, 0)
    ensures b < |t| && c < |t[b]| && i >= ratio ==> PlacesFrom(t, ratio, b, c, i) == PlacesFrom(t, ratio, b, c + 1, 0)
    ensures b < |t| && c < |t[b]| && i < ratio ==>
              PlacesFrom(t, ratio, b, c, i)
              == if t[b][c].present[i] then [Place(b, c, i)] + PlacesFrom(t, ratio, b, c, i + 1) else PlacesFrom(t, ratio, b, c, i + 1)
  {
  }

  /** Place q comes before the position. */
  predicate Before(q: Place, b: nat, c: nat, i: nat) {
    q.bucket < b || (q.bucket == b && (q.chunk < c || (q.chunk == c && q.slot < i)))
  }

  lemma {:induction false} PlacesAre<K, V>(t: Table<K, V>, ratio: nat, b: nat, c: nat, i: nat, q: Place)
    requires Sized(t, ratio)
    ensures q in PlacesFrom(t, ratio, b, c, i) <==> Used(t, ratio, q) && !Before(q, b, c, i)
    decreases |t| - b, if b < |t| then |t[b]| - c else 0, ratio - i
  {
    hide PlacesFrom;
    PlacesStep(t, ratio, b, c, i);
    if b >= |t| {
    } else if c >= |t[b]| {
      PlacesAre(t, ratio, b + 1, 0, 0, q);
    } else if i >= ratio {
      PlacesAre(t, ratio, b, c + 1, 0, q);
    } else {
      PlacesAre(t, ratio, b, c, i + 1, q);
      assert Before(q, b, c, i + 1) <==> Before(q, b, c, i) || q == Place(b, c, i);
    }
  }

  lemma {:induction false} PlacesDistinct<K, V>(t: Table<K, V>, ratio: nat, b: nat, c: nat, i: nat)
    requires Sized(t, ratio)
    ensures Distinct(PlacesFrom(t, ratio, b, c, i))
    decreases |t| - b, if b < |t| then |t[b]| - c else 0, ratio - i
  {
    hide Distinct, Used, PlacesFrom;
    PlacesStep(t, ratio, b, c, i);
    if b >= |t| {
      NothingRepeats<Place>();
    } else if c >= |t[b]| {
      PlacesDistinct(t, ratio, b + 1, 0, 0);
    } else if i >= ratio {
      PlacesDistinct(t, ratio, b, c + 1, 0);
    } else {
      PlacesDistinct(t, ratio, b, c, i + 1);
      PlacesAre(t, ratio, b, c, i + 1, Place(b, c, i));
      assert Before(Place(b, c, i), b, c, i + 1);
      DistinctPrepended(Place(b, c, i), PlacesFrom(t, ratio, b, c, i + 1));
    }
  }

  lemma NothingRepeats<T>()
    ensures Distinct<T>([])
  {
  }

  lemma DistinctPrepended<T>(x: T, s: seq<T>)
    requires Distinct(s) && x !in s
    ensures Distinct([x] + s)
  {
  }

  function Elements<T>(s: seq<T>): set<T> {
    set x | x in s
  }

  lemma {:induction false} DistinctCount<T>(s: seq<T>)
    requires Distinct(s)
    ensures |Elements(s)| == |s|
    decreases |s|
  {
    if s != [] {
      var n := |s| - 1;
      DistinctCount(s[..n]);
      assert Elements(s) == Elements(s[..n]) + {s[n]};
    }
  }

  function KeysOf<K, V>(t: Table<K, V>, ratio: nat, places: seq<Place>): (keys: seq<K>)
    requires Sized(t, ratio) && forall i :: 0 <= i < |places| ==> InTable(t, ratio, places[i])
    ensures |keys| == |places| && forall i :: 0 <= i < |places| ==> keys[i] == KeyAt(t, ratio, places[i])
  {
    seq(|places|, i requires 0 <= i < |places| => KeyAt(t, ratio, places[i]))
  }

  /** A whole visit meets every entry of the table exactly once. */
  lemma VisitsEveryEntryOnce<K(!new), V>(t: Table<K, V>, ratio: nat, index: map<K, Place>, hash: K -> nat)
    requires Sized(t, ratio) && Indexed(t, ratio, index, hash)
    ensures var places := PlacesFrom(t, ratio, 0, 0, 0);
            && (forall i :: 0 <= i < |places| ==> InTable(t, ratio, places[i]))
            && Distinct(KeysOf(t, ratio, places)) && Elements(KeysOf(t, ratio, places)) == index.Keys && |places| == |index|
  {
    var places := PlacesFrom(t, ratio, 0, 0, 0);
    PlacesDistinct(t, ratio, 0, 0, 0);
    forall q
      ensures q in places <==> Used(t, ratio, q)
    {
      PlacesAre(t, ratio, 0, 0, 0, q);
    }
    assert forall i :: 0 <= i < |places| ==> places[i] in places;
    hide PlacesFrom, KeyAt;
    var keys := KeysOf(t, ratio, places);
    forall i, j | 0 <= i < j < |keys|
      ensures keys[i] != keys[j]
    {
      assert KeyPlaced(t, ratio, index, hash, places[i]) && KeyPlaced(t, ratio, index, hash, places[j]);
    }
    forall k
      ensures k in keys <==> k in index
    {
      if k in index {
        var i :| 0 <= i < |places| && places[i] == index[k];
        assert keys[i] == k;
      }
      if k in keys {
        var i :| 0 <= i < |keys| && keys[i] == k;
        assert KeyPlaced(t, ratio, index, hash, places[i]);
      }
    }
    assert Elements(keys) == index.Keys;
    DistinctCount(keys);
  }
}
