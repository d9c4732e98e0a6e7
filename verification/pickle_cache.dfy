/** The pickle-file cache of src/operations.py and its one-way copy into the table.
    Pickle serialisation and file I/O are abstracted to a file that is missing,
    holds a dictionary, or cannot be read. */
module PickleCache {
  import opened Keys
  import opened Common
  import opened Table

  /** A dictionary key as it can sit in the pickle file. `pickle_embeddings` stores
      `EmbeddingKey` objects; the declared cache type and the copy into the table
      expect `(text, model)` tuples. The two are different dictionary keys even for
      the same fields (see `Keys.KeyIsNotItsTuple`). */
  datatype CacheKey = KeyObject(key: Key) | PairTuple(text: string, model: string)

  type Cache = map<CacheKey, Vec>

  /** The cache file on disk. */
  datatype CacheFile = Missing | Stored(cache: Cache) | Corrupt

  /** The dictionary a readable file holds; a missing file holds none. */
  function Contents(f: CacheFile): Cache
  {
    if f.Stored? then f.cache else map[]
  }

  /** `load_pickle_cache`: the stored dictionary, empty when the file does not exist,
      an error when the file cannot be unpickled. */
  function LoadPickleCache(f: CacheFile): (r: Result<Cache>)
    ensures r.Ok? <==> !f.Corrupt?
    ensures f.Missing? ==> r == Ok(map[])
    ensures r.Ok? ==> r.value == Contents(f)
  {
    match f
    case Missing => Ok(map[])
    case Stored(c) => Ok(c)
    case Corrupt => Err(UnreadableCache)
  }

  /** `save_pickle_cache`: the whole dictionary overwrites the file. */
  function SavePickleCache(c: Cache): (f: CacheFile)
    ensures LoadPickleCache(f) == Ok(c)
  {
    Stored(c)
  }

  /** Saving then loading gives back the same dictionary, key for key and vector for vector
      (at the level of this abstraction, not of bytes). */
  lemma SaveLoadRoundTrip(c: Cache)
    ensures LoadPickleCache(SavePickleCache(c)) == Ok(c)
  {
  }

  /** Because a key never equals the tuple of its fields (`Keys.KeyIsNotItsTuple`), a
      dictionary holding both keeps two entries: writing the tuple's entry leaves the key
      object's entry as it was, although both stand for the same `(text, model)`. */
  lemma KeyAndTupleAreTwoEntries(c: Cache, k: Key, v: Vec, w: Vec)
    ensures KeyOf(KeyObject(k)) == KeyOf(PairTuple(k.text, k.model))
    ensures c[KeyObject(k) := v][PairTuple(k.text, k.model) := w][KeyObject(k)] == v
    ensures c[KeyObject(k) := v][PairTuple(k.text, k.model) := w][PairTuple(k.text, k.model)] == w
  {
  }

  /** The `(text, model)` a dictionary key stands for. */
  function KeyOf(k: CacheKey): Key
  {
    match k
    case KeyObject(key) => key
    case PairTuple(text, model) => Key(text, model)
  }

  /** The row an entry becomes in the table. */
  function EntryRow(k: CacheKey, v: Vec): Row
  {
    Row(KeyOf(k).text, KeyOf(k).model, v)
  }

  /** The rows the entries of `c` listed by `order` become, in that order. */
  function EntryRows(order: seq<CacheKey>, c: Cache): (rows: seq<Row>)
    requires forall k :: k in order ==> k in c
    ensures |rows| == |order|
  {
    if order == [] then []
    else EntryRows(order[..|order| - 1], c) + [EntryRow(order[|order| - 1], c[order[|order| - 1]])]
  }

  lemma EntryRowsAppend(order: seq<CacheKey>, c: Cache, k: CacheKey)
    requires forall k' :: k' in order ==> k' in c
    requires k in c
    ensures EntryRows(order + [k], c) == EntryRows(order, c) + [EntryRow(k, c[k])]
  {
    assert (order + [k])[..|order|] == order;
  }

  /** Writing the next entry to a table holding `base` and the rows of `order` extends
      the rows of `order` by that entry's row. */
  lemma WriteEntryRow(base: seq<Row>, t: Store, order: seq<CacheKey>, c: Cache, k: CacheKey)
    requires forall k' :: k' in order ==> k' in c
    requires k in c
    requires t == Table(base + EntryRows(order, c))
    ensures WriteEmbeddingToTable(t, KeyOf(k), c[k]) == Table(base + EntryRows(order + [k], c))
  {
    EntryRowsAppend(order, c, k);
    assert base + EntryRows(order, c) + [EntryRow(k, c[k])] == base + (EntryRows(order, c) + [EntryRow(k, c[k])]);
  }

  /** Each row of `EntryRows(order, c)` carries the text, model and vector of the entry at
      the same position of `order`. */
  lemma EntryRowsAt(order: seq<CacheKey>, c: Cache, j: int)
    requires forall k :: k in order ==> k in c
    requires 0 <= j < |order|
    ensures EntryRows(order, c)[j] == EntryRow(order[j], c[order[j]])
    decreases |order|
  {
    if j < |order| - 1 {
      EntryRowsAt(order[..|order| - 1], c, j);
    }
  }

  /** `order` lists every key of `keys` exactly once. */
  ghost predicate Enumerates(order: seq<CacheKey>, keys: set<CacheKey>)
  {
    Distinct(order) && forall k :: k in order <==> k in keys
  }

  /** `write_pickle_cache_to_duckdb` as written: the file is loaded, the table ensured,
      and each entry is written after splitting its key with `key[0]` / `key[1]`.
      A tuple key splits; an `EmbeddingKey` object is not subscriptable and raises,
      leaving the rows written so far in place. Entries are visited in an unspecified
      order, returned as `order`. */
  method WritePickleCacheToDuckdbAsWritten(s: Store, f: CacheFile)
    returns (r: Result<()>, s': Store, ghost order: seq<CacheKey>)
    ensures f.Corrupt? ==> r == Err(UnreadableCache) && s' == s
    ensures !f.Corrupt? ==> (r.Ok? <==> forall k :: k in Contents(f) ==> k.PairTuple?)
    ensures r.Err? && !f.Corrupt? ==> r.error == NotSubscriptable
    ensures forall k :: k in order ==> k in Contents(f) && k.PairTuple?
    ensures Distinct(order)
    ensures r.Ok? ==> Enumerates(order, Contents(f).Keys)
    ensures !f.Corrupt? ==> s' == Table(Rows(s) + EntryRows(order, Contents(f)))
  {
    var loaded := LoadPickleCache(f);
    if loaded.Err? {
      return Err(loaded.error), s, [];
    }
    var cache := loaded.value;
    s' := CreateTableIfNotExists(s);
    var todo := cache.Keys;
    order := [];
    while todo != {}
      invariant todo <= cache.Keys
      invariant Distinct(order)
      invariant forall k :: k in order <==> k in cache.Keys - todo
      invariant forall k :: k in order ==> k.PairTuple?
      invariant s' == Table(Rows(s) + EntryRows(order, cache))
      decreases |todo|
    {
      var k :| k in todo;
      if k.KeyObject? {
        return Err(NotSubscriptable), s', order;
      }
      WriteEntryRow(Rows(s), s', order, cache, k);
      DistinctAppend(order, k);
      s' := WriteEmbeddingToTable(s', KeyOf(k), cache[k]);
      order := order + [k];
      todo := todo - {k};
    }
    r := Ok(());
  }

  /** The copy into the table as evidently intended: every entry, whichever form its key
      has, becomes one row with the same text, model and vector, in the visiting order
      `order`. Existing rows are kept and nothing is deduplicated against them. */
  method WritePickleCacheToDuckdb(s: Store, f: CacheFile)
    returns (r: Result<()>, s': Store, ghost order: seq<CacheKey>)
    ensures r.Err? <==> f.Corrupt?
    ensures r.Err? ==> r.error == UnreadableCache && s' == s
    ensures r.Ok? ==> Enumerates(order, Contents(f).Keys)
    ensures r.Ok? ==> s' == Table(Rows(s) + EntryRows(order, Contents(f)))
    ensures r.Ok? ==> |Rows(s')| == |Rows(s)| + |Contents(f)|
    ensures r.Ok? ==> forall k :: k in Contents(f) ==> Present(Rows(s'), KeyOf(k))
  {
    var loaded := LoadPickleCache(f);
    if loaded.Err? {
      return Err(loaded.error), s, [];
    }
    var cache := loaded.value;
    s' := CreateTableIfNotExists(s);
    var todo := cache.Keys;
    order := [];
    while todo != {}
      invariant todo <= cache.Keys
      invariant Distinct(order)
      invariant forall k :: k in order <==> k in cache.Keys - todo
      invariant s' == Table(Rows(s) + EntryRows(order, cache))
      decreases |todo|
    {
      var k :| k in todo;
      WriteEntryRow(Rows(s), s', order, cache, k);
      DistinctAppend(order, k);
      s' := WriteEmbeddingToTable(s', KeyOf(k), cache[k]);
      order := order + [k];
      todo := todo - {k};
    }
    r := Ok(());
    CountOfEnumeration(order, cache.Keys);
    EntriesPresent(Rows(s), order, cache);
  }

  /** Once every entry has its row, every key of the dictionary is present. */
  lemma EntriesPresent(rows: seq<Row>, order: seq<CacheKey>, c: Cache)
    requires Enumerates(order, c.Keys)
    ensures forall k :: k in c ==> Present(rows + EntryRows(order, c), KeyOf(k))
  {
    var all := rows + EntryRows(order, c);
    forall k | k in c
      ensures Present(all, KeyOf(k))
    {
      var j :| 0 <= j < |order| && order[j] == k;
      EntryRowsAt(order, c, j);
      assert Matches(all[|rows| + j], KeyOf(k));
    }
  }

  lemma CountOfEnumeration(order: seq<CacheKey>, keys: set<CacheKey>)
    requires Enumerates(order, keys)
    ensures |order| == |keys|
  {
    DistinctCardinality(order);
    assert (set x | x in order) == keys;
  }
}
