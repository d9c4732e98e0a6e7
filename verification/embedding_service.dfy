/** The batch cache-or-compute operations of `EmbeddingOperations`
    (src/embedding_operations.py). The embedding provider is the parameter `provider`;
    every call made to it is reported, in order, in `calls`. */
module EmbeddingService {
  import opened Keys
  import opened Common
  import opened Table
  import opened PickleCache

  /** The dictionary key `pickle_embeddings` uses for a text: an `EmbeddingKey` object. */
  function Slot(text: string, model: string): CacheKey
  {
    KeyObject(Key(text, model))
  }

  /** The dictionary keys of a batch. */
  ghost function BatchSlots(texts: seq<string>, model: string): set<CacheKey>
  {
    set t | t in texts :: Slot(t, model)
  }

  /** The distinct keys of a batch that the loaded dictionary lacks. */
  ghost function MissingFromCache(c: Cache, texts: seq<string>, model: string): set<Key>
  {
    set t | t in texts && Slot(t, model) !in c :: Key(t, model)
  }

  /** The distinct keys of a batch that no row of the table holds. */
  ghost function MissingKeys(rows: seq<Row>, texts: seq<string>, model: string): set<Key>
  {
    set t | t in texts && !Present(rows, Key(t, model)) :: Key(t, model)
  }

  /** `added` holds one row per provider call, in call order, each carrying the call's
      text and model and the vector the provider returned for it. */
  ghost predicate RowsForCalls(added: seq<Row>, calls: seq<Key>, provider: Provider)
  {
    && |added| == |calls|
    && forall j :: 0 <= j < |added| ==>
         && Matches(added[j], calls[j])
         && provider(calls[j].text, calls[j].model) == Embedded(added[j].embedding)
  }

  /** The keys of a batch that are not in `known`, each once, in order of first occurrence:
      the order in which a loop over the batch meets its missing keys. */
  ghost function FirstOccurrences(texts: seq<string>, model: string, known: iset<Key>): seq<Key>
  {
    if texts == [] then []
    else
      var prev := FirstOccurrences(texts[..|texts| - 1], model, known);
      var k := Key(texts[|texts| - 1], model);
      if k !in known && k !in prev then prev + [k] else prev
  }

  /** The keys a loaded dictionary holds as `EmbeddingKey` objects. */
  ghost function CachedKeys(c: Cache): iset<Key>
  {
    iset k | KeyObject(k) in c
  }

  /** The keys some row of the table is stored under. */
  ghost function StoredKeys(rows: seq<Row>): iset<Key>
  {
    iset k | Present(rows, k)
  }

  /** One more text extends the first occurrences exactly when its key is new. */
  lemma OrderStep(texts: seq<string>, model: string, known: iset<Key>, calls: seq<Key>, i: nat)
    requires i < |texts| && calls == FirstOccurrences(texts[..i], model, known)
    ensures FirstOccurrences(texts[..i + 1], model, known)
         == if Key(texts[i], model) !in known && Key(texts[i], model) !in calls
            then calls + [Key(texts[i], model)] else calls
  {
    assert texts[..i + 1][..i] == texts[..i];
  }

  /** The first occurrences in a prefix of a batch are a prefix of the batch's. */
  lemma {:induction false} FirstOccurrencesPrefix(texts: seq<string>, model: string, known: iset<Key>, n: nat)
    requires n <= |texts|
    ensures FirstOccurrences(texts[..n], model, known) <= FirstOccurrences(texts, model, known)
    decreases |texts|
  {
    if n < |texts| {
      var init := texts[..|texts| - 1];
      assert init[..n] == texts[..n];
      FirstOccurrencesPrefix(init, model, known, n);
    } else {
      assert texts[..n] == texts;
    }
  }

  /** The calls made for the first `n` texts, in first-occurrence order, are a prefix of the
      whole batch's order, and all of it once every text is handled. */
  lemma OrderSoFar(texts: seq<string>, model: string, known: iset<Key>, calls: seq<Key>, n: nat)
    requires n <= |texts| && calls == FirstOccurrences(texts[..n], model, known)
    ensures calls <= FirstOccurrences(texts, model, known)
    ensures n == |texts| ==> |calls| == |FirstOccurrences(texts, model, known)|
  {
    FirstOccurrencesPrefix(texts, model, known, n);
    assert n == |texts| ==> texts[..n] == texts;
  }

  lemma BatchSlotsExtend(texts: seq<string>, model: string, i: nat)
    requires i < |texts|
    ensures BatchSlots(texts[..i + 1], model) == BatchSlots(texts[..i], model) + {Slot(texts[i], model)}
  {
    assert texts[..i + 1] == texts[..i] + [texts[i]];
  }

  /** `pickle_embeddings`: load the dictionary once; for each text, compute and insert the
      vector when `(text, model)` is absent, then take the dictionary's vector; save the
      dictionary once at the end. A provider failure aborts the batch before the save,
      so the file keeps its old contents. */
  method PickleEmbeddings(f: CacheFile, texts: seq<string>, model: string, provider: Provider)
    returns (r: Result<seq<Vec>>, f': CacheFile, calls: seq<Key>)
    ensures f.Corrupt? ==> r == Err(UnreadableCache) && f' == f && calls == []
    // the provider is asked once per distinct key, and only for keys the loaded cache lacks
    ensures Distinct(calls)
    ensures forall c :: c in calls ==> c.model == model && c.text in texts && Slot(c.text, model) !in Contents(f)
    ensures r.Err? && !f.Corrupt? ==>
      && f' == f && calls != []
      && r.error == ProviderError(calls[|calls| - 1])
      && provider(calls[|calls| - 1].text, model) == Failed
    // one vector per text, in input order: the saved dictionary's value for that text
    ensures r.Ok? ==> f'.Stored? && |r.value| == |texts|
    ensures r.Ok? ==> forall i :: 0 <= i < |texts| ==>
      Slot(texts[i], model) in f'.cache && r.value[i] == f'.cache[Slot(texts[i], model)]
    // the saved dictionary is the loaded one plus the new entries, which come from the provider
    ensures r.Ok? ==> forall k :: k in Contents(f) ==> k in f'.cache && f'.cache[k] == Contents(f)[k]
    ensures r.Ok? ==> f'.cache.Keys == Contents(f).Keys + BatchSlots(texts, model)
    ensures r.Ok? ==> forall t :: t in texts && Slot(t, model) !in Contents(f) ==>
      provider(t, model) == Embedded(f'.cache[Slot(t, model)])
    ensures r.Ok? ==> (set c | c in calls) == MissingFromCache(Contents(f), texts, model)
    ensures r.Ok? ==> |calls| == |MissingFromCache(Contents(f), texts, model)|
    // the calls come in order of each missing key's first occurrence in the batch: a prefix
    // of that order, and on success all of it
    ensures calls <= FirstOccurrences(texts, model, CachedKeys(Contents(f)))
    ensures r.Ok? ==> |calls| == |FirstOccurrences(texts, model, CachedKeys(Contents(f)))|
  {
    var loaded := LoadPickleCache(f);
    if loaded.Err? {
      return Err(loaded.error), f, [];
    }
    var cache;
    r, cache, calls := EmbedIntoCache(loaded.value, texts, model, provider);
    if r.Err? {
      return r, f, calls;
    }
    f' := SavePickleCache(cache);
    CacheDone(loaded.value, cache, calls, texts, model, provider, r.value);
  }

  /** The loop of `pickle_embeddings` on the loaded dictionary; `cache` is the dictionary
      it would save. */
  method EmbedIntoCache(loaded: Cache, texts: seq<string>, model: string, provider: Provider)
    returns (r: Result<seq<Vec>>, cache: Cache, calls: seq<Key>)
    ensures r.Ok? ==> |r.value| == |texts|
    ensures r.Ok? ==> CacheFacts(loaded, cache, calls, texts, model, provider, r.value)
    ensures calls <= FirstOccurrences(texts, model, CachedKeys(loaded))
    ensures r.Ok? ==> |calls| == |FirstOccurrences(texts, model, CachedKeys(loaded))|
    ensures r.Err? ==>
      && calls != []
      && r.error == ProviderError(calls[|calls| - 1])
      && provider(calls[|calls| - 1].text, model) == Failed
      && Distinct(calls)
      && (forall c :: c in calls ==> c.model == model && c.text in texts && Slot(c.text, model) !in loaded)
  {
    cache := loaded;
    var vecs: seq<Vec> := [];
    calls := [];
    for i := 0 to |texts|
      invariant |vecs| == i
      invariant CacheFacts(loaded, cache, calls, texts, model, provider, vecs)
      invariant calls == FirstOccurrences(texts[..i], model, CachedKeys(loaded))
    {
      var key := Slot(texts[i], model);
      CacheOrderStep(loaded, cache, calls, texts, model, provider, vecs);
      if key !in cache {
        var reply := provider(texts[i], model);
        if reply.Failed? {
          CacheFailure(loaded, cache, calls, texts, model, provider, vecs);
          return Err(ProviderError(Key(texts[i], model))), cache, calls + [Key(texts[i], model)];
        }
        CacheStepMiss(loaded, cache, calls, texts, model, provider, vecs, reply.vector);
        cache := cache[key := reply.vector];
        calls := calls + [Key(texts[i], model)];
      } else {
        CacheStepHit(loaded, cache, calls, texts, model, provider, vecs);
      }
      vecs := vecs + [cache[key]];
    }
    OrderSoFar(texts, model, CachedKeys(loaded), calls, |texts|);
    assert texts[..|texts|] == texts;
    r := Ok(vecs);
  }

  /** What the finished `pickle_embeddings` loop gives about the whole batch. */
  lemma CacheDone(loaded: Cache, cache: Cache, calls: seq<Key>, texts: seq<string>, model: string,
                  provider: Provider, vecs: seq<Vec>)
    requires CacheFacts(loaded, cache, calls, texts, model, provider, vecs)
    requires |vecs| == |texts|
    ensures cache.Keys == loaded.Keys + BatchSlots(texts, model)
    ensures forall t :: t in texts && Slot(t, model) !in loaded ==>
      Slot(t, model) in cache && provider(t, model) == Embedded(cache[Slot(t, model)])
    ensures (set c | c in calls) == MissingFromCache(loaded, texts, model)
    ensures |calls| == |MissingFromCache(loaded, texts, model)|
  {
    assert texts[..|vecs|] == texts;
    CallsCoverMissing(calls, texts, model, (t: string) => Slot(t, model) !in loaded);
  }

  /** What the `pickle_embeddings` loop keeps: the dictionary is the loaded one plus one
      entry per text handled so far, the new entries hold provider vectors, each vector
      produced is the dictionary's value for its text, and the calls are distinct keys of
      the batch that the loaded dictionary lacks. */
  ghost predicate CacheFacts(loaded: Cache, cache: Cache, calls: seq<Key>, texts: seq<string>, model: string,
                             provider: Provider, vecs: seq<Vec>)
  {
    && |vecs| <= |texts|
    && Distinct(calls)
    && (forall c :: c in calls ==> c.model == model && c.text in texts && Slot(c.text, model) !in loaded)
    && (forall c :: c in calls ==> Slot(c.text, model) in cache)
    && (forall k :: k in loaded ==> k in cache && cache[k] == loaded[k])
    && cache.Keys == loaded.Keys + BatchSlots(texts[..|vecs|], model)
    && (forall j :: 0 <= j < |vecs| ==> Slot(texts[j], model) in cache && vecs[j] == cache[Slot(texts[j], model)])
    && (forall t :: t in texts[..|vecs|] && Slot(t, model) !in loaded ==>
          && Key(t, model) in calls && Slot(t, model) in cache
          && provider(t, model) == Embedded(cache[Slot(t, model)]))
  }

  /** In `pickle_embeddings` a text is new exactly when the dictionary lacks its key. */
  lemma CacheOrderStep(loaded: Cache, cache: Cache, calls: seq<Key>, texts: seq<string>, model: string,
                       provider: Provider, vecs: seq<Vec>)
    requires CacheFacts(loaded, cache, calls, texts, model, provider, vecs)
    requires |vecs| < |texts| && calls == FirstOccurrences(texts[..|vecs|], model, CachedKeys(loaded))
    ensures FirstOccurrences(texts[..|vecs| + 1], model, CachedKeys(loaded))
         == if Slot(texts[|vecs|], model) in cache then calls else calls + [Key(texts[|vecs|], model)]
  {
    var i := |vecs|;
    var t0 := texts[i];
    OrderStep(texts, model, CachedKeys(loaded), calls, i);
    if Slot(t0, model) in cache && Slot(t0, model) !in loaded {
      assert Slot(t0, model) in BatchSlots(texts[..i], model);
      var u :| u in texts[..i] && Slot(u, model) == Slot(t0, model);
      assert u == t0;
      assert Key(t0, model) in calls;
    }
  }

  /** The calls made up to a failing one: distinct missing keys, in first-occurrence order. */
  lemma CacheFailure(loaded: Cache, cache: Cache, calls: seq<Key>, texts: seq<string>, model: string,
                     provider: Provider, vecs: seq<Vec>)
    requires CacheFacts(loaded, cache, calls, texts, model, provider, vecs)
    requires |vecs| < |texts| && Slot(texts[|vecs|], model) !in cache
    requires calls == FirstOccurrences(texts[..|vecs|], model, CachedKeys(loaded))
    ensures Distinct(calls + [Key(texts[|vecs|], model)])
    ensures forall c :: c in calls + [Key(texts[|vecs|], model)] ==>
      c.model == model && c.text in texts && Slot(c.text, model) !in loaded
    ensures calls + [Key(texts[|vecs|], model)] <= FirstOccurrences(texts, model, CachedKeys(loaded))
  {
    var key := Key(texts[|vecs|], model);
    CacheOrderStep(loaded, cache, calls, texts, model, provider, vecs);
    assert key !in calls;
    DistinctAppend(calls, key);
    FirstOccurrencesPrefix(texts, model, CachedKeys(loaded), |vecs| + 1);
  }

  lemma CacheStepHit(loaded: Cache, cache: Cache, calls: seq<Key>, texts: seq<string>, model: string,
                     provider: Provider, vecs: seq<Vec>)
    requires CacheFacts(loaded, cache, calls, texts, model, provider, vecs)
    requires |vecs| < |texts| && Slot(texts[|vecs|], model) in cache
    ensures CacheFacts(loaded, cache, calls, texts, model, provider, vecs + [cache[Slot(texts[|vecs|], model)]])
  {
    BatchSlotsExtend(texts, model, |vecs|);
    HitKeepsVectors(cache, texts, model, vecs);
    HitKeepsProvider(loaded, cache, calls, texts, model, provider, vecs);
  }

  /** The vectors returned so far keep their entries, and the new one is the entry already there. */
  lemma HitKeepsVectors(cache: Cache, texts: seq<string>, model: string, vecs: seq<Vec>)
    requires |vecs| < |texts| && Slot(texts[|vecs|], model) in cache
    requires forall j :: 0 <= j < |vecs| ==> Slot(texts[j], model) in cache && vecs[j] == cache[Slot(texts[j], model)]
    ensures forall j :: 0 <= j < |vecs| + 1 ==>
              && Slot(texts[j], model) in cache
              && (vecs + [cache[Slot(texts[|vecs|], model)]])[j] == cache[Slot(texts[j], model)]
  {
    var vecs' := vecs + [cache[Slot(texts[|vecs|], model)]];
    forall j | 0 <= j < |vecs| + 1
      ensures Slot(texts[j], model) in cache && vecs'[j] == cache[Slot(texts[j], model)]
    {
      if j < |vecs| {
        assert vecs'[j] == vecs[j];
      }
    }
  }

  /** A hit on a text the file lacked is a repeat of an earlier text, which was already called. */
  lemma HitKeepsProvider(loaded: Cache, cache: Cache, calls: seq<Key>, texts: seq<string>, model: string,
                         provider: Provider, vecs: seq<Vec>)
    requires |vecs| < |texts| && Slot(texts[|vecs|], model) in cache
    requires cache.Keys == loaded.Keys + BatchSlots(texts[..|vecs|], model)
    requires forall t :: t in texts[..|vecs|] && Slot(t, model) !in loaded ==>
               && Key(t, model) in calls && Slot(t, model) in cache
               && provider(t, model) == Embedded(cache[Slot(t, model)])
    ensures forall t :: t in texts[..|vecs| + 1] && Slot(t, model) !in loaded ==>
              && Key(t, model) in calls && Slot(t, model) in cache
              && provider(t, model) == Embedded(cache[Slot(t, model)])
  {
    var i := |vecs|;
    var t0 := texts[i];
    assert texts[..i + 1] == texts[..i] + [t0];
    if Slot(t0, model) !in loaded {
      // the dictionary holds a key it did not load only for a text handled earlier
      assert Slot(t0, model) in BatchSlots(texts[..i], model);
      var u :| u in texts[..i] && Slot(u, model) == Slot(t0, model);
      assert u == t0;
    }
    forall t | t in texts[..i + 1] && Slot(t, model) !in loaded
      ensures Key(t, model) in calls && Slot(t, model) in cache
      ensures provider(t, model) == Embedded(cache[Slot(t, model)])
    {
      if t != t0 {
        assert t in texts[..i];
      }
    }
  }

  lemma CacheStepMiss(loaded: Cache, cache: Cache, calls: seq<Key>, texts: seq<string>, model: string,
                      provider: Provider, vecs: seq<Vec>, v: Vec)
    requires CacheFacts(loaded, cache, calls, texts, model, provider, vecs)
    requires |vecs| < |texts| && Slot(texts[|vecs|], model) !in cache
    requires provider(texts[|vecs|], model) == Embedded(v)
    ensures CacheFacts(loaded, cache[Slot(texts[|vecs|], model) := v], calls + [Key(texts[|vecs|], model)],
                       texts, model, provider, vecs + [v])
  {
    BatchSlotsExtend(texts, model, |vecs|);
    MissKeepsCalls(loaded, cache, calls, texts, model, |vecs|, v);
    MissKeepsVectors(cache, texts, model, vecs, v);
    MissKeepsProvider(loaded, cache, calls, texts, model, provider, vecs, v);
  }

  /** The call log and the loaded entries after a miss: the new key was not called before. */
  lemma MissKeepsCalls(loaded: Cache, cache: Cache, calls: seq<Key>, texts: seq<string>, model: string,
                       i: nat, v: Vec)
    requires i < |texts| && Slot(texts[i], model) !in cache
    requires Distinct(calls)
    requires forall c :: c in calls ==> c.model == model && c.text in texts && Slot(c.text, model) !in loaded
    requires forall c :: c in calls ==> Slot(c.text, model) in cache
    requires forall k :: k in loaded ==> k in cache && cache[k] == loaded[k]
    ensures Distinct(calls + [Key(texts[i], model)])
    ensures forall c :: c in calls + [Key(texts[i], model)] ==>
              c.model == model && c.text in texts && Slot(c.text, model) !in loaded
    ensures forall c :: c in calls + [Key(texts[i], model)] ==> Slot(c.text, model) in cache[Slot(texts[i], model) := v]
    ensures forall k :: k in loaded ==>
              k in cache[Slot(texts[i], model) := v] && cache[Slot(texts[i], model) := v][k] == loaded[k]
  {
    var slot := Slot(texts[i], model);
    var key := Key(texts[i], model);
    assert key !in calls;
    DistinctAppend(calls, key);
    assert slot !in loaded;
    forall k | k in loaded
      ensures k in cache[slot := v] && cache[slot := v][k] == loaded[k]
    {
      assert k != slot;
    }
  }

  /** The vectors returned so far keep their entries, and the new one is the stored vector. */
  lemma MissKeepsVectors(cache: Cache, texts: seq<string>, model: string, vecs: seq<Vec>, v: Vec)
    requires |vecs| < |texts| && Slot(texts[|vecs|], model) !in cache
    requires forall j :: 0 <= j < |vecs| ==> Slot(texts[j], model) in cache && vecs[j] == cache[Slot(texts[j], model)]
    ensures forall j :: 0 <= j < |vecs + [v]| ==>
              && Slot(texts[j], model) in cache[Slot(texts[|vecs|], model) := v]
              && (vecs + [v])[j] == cache[Slot(texts[|vecs|], model) := v][Slot(texts[j], model)]
  {
    var slot := Slot(texts[|vecs|], model);
    forall j | 0 <= j < |vecs| + 1
      ensures Slot(texts[j], model) in cache[slot := v] && (vecs + [v])[j] == cache[slot := v][Slot(texts[j], model)]
    {
      if j < |vecs| {
        assert Slot(texts[j], model) != slot;
        assert (vecs + [v])[j] == vecs[j];
      }
    }
  }

  /** Every text seen so far that the file lacked was called, and its entry is the provider's vector. */
  lemma MissKeepsProvider(loaded: Cache, cache: Cache, calls: seq<Key>, texts: seq<string>, model: string,
                          provider: Provider, vecs: seq<Vec>, v: Vec)
    requires |vecs| < |texts| && Slot(texts[|vecs|], model) !in cache
    requires provider(texts[|vecs|], model) == Embedded(v)
    requires forall t :: t in texts[..|vecs|] && Slot(t, model) !in loaded ==>
               && Key(t, model) in calls && Slot(t, model) in cache
               && provider(t, model) == Embedded(cache[Slot(t, model)])
    ensures forall t :: t in texts[..|vecs| + 1] && Slot(t, model) !in loaded ==>
              && Key(t, model) in calls + [Key(texts[|vecs|], model)]
              && Slot(t, model) in cache[Slot(texts[|vecs|], model) := v]
              && provider(t, model) == Embedded(cache[Slot(texts[|vecs|], model) := v][Slot(t, model)])
  {
    var i := |vecs|;
    var t0 := texts[i];
    var slot := Slot(t0, model);
    assert texts[..i + 1] == texts[..i] + [t0];
    forall t | t in texts[..i + 1] && Slot(t, model) !in loaded
      ensures Key(t, model) in calls + [Key(t0, model)] && Slot(t, model) in cache[slot := v]
      ensures provider(t, model) == Embedded(cache[slot := v][Slot(t, model)])
    {
      if t != t0 {
        assert t in texts[..i];
        assert Slot(t, model) != slot;
      }
    }
  }

  /** When every call is for a distinct missing text of the batch and every missing text
      was called, the calls are exactly the missing keys, one call each. */
  lemma CallsCoverMissing(calls: seq<Key>, texts: seq<string>, model: string, missing: string -> bool)
    requires Distinct(calls)
    requires forall c :: c in calls ==> c.model == model && c.text in texts && missing(c.text)
    requires forall t :: t in texts && missing(t) ==> Key(t, model) in calls
    ensures (set c | c in calls) == set t | t in texts && missing(t) :: Key(t, model)
    ensures |calls| == |set t | t in texts && missing(t) :: Key(t, model)|
  {
    var called := set c | c in calls;
    var wanted := set t | t in texts && missing(t) :: Key(t, model);
    forall c | c in called
      ensures c in wanted
    {
      assert c == Key(c.text, model);
    }
    DistinctCardinality(calls);
  }

  /** A stored vector stays stored when rows are appended. */
  lemma StoredUnderAppend(rows: seq<Row>, extra: seq<Row>, key: Key, v: Vec)
    requires StoredUnder(rows, key, v)
    ensures StoredUnder(rows + extra, key, v)
  {
    var i :| 0 <= i < |rows| && Matches(rows[i], key) && rows[i].embedding == v;
    assert (rows + extra)[i] == rows[i];
  }

  /** A key absent from the original rows is stored only in rows added for provider
      calls, so any vector stored under it is the provider's vector for it. */
  lemma NewKeyHoldsProviderVector(rows: seq<Row>, added: seq<Row>, calls: seq<Key>, provider: Provider, key: Key, v: Vec)
    requires RowsForCalls(added, calls, provider)
    requires !Present(rows, key)
    requires StoredUnder(rows + added, key, v)
    ensures provider(key.text, key.model) == Embedded(v)
  {
    var all := rows + added;
    var i :| 0 <= i < |all| && Matches(all[i], key) && all[i].embedding == v;
    assert i >= |rows|;
    var j := i - |rows|;
    assert added[j] == all[i];
    assert calls[j] == key;
  }

  /** The body of the `duckdb_embeddings` loop for one key: a hit fetches the stored vector
      and changes nothing; a miss calls the provider once and, if it answers, appends one
      row. `called` reports whether the provider was asked. */
  method LookupOrEmbed(s: Store, key: Key, provider: Provider) returns (r: Result<Vec>, s': Store, called: bool)
    ensures s'.Table?
    ensures called <==> !Present(Rows(s), key)
    ensures !called ==> Rows(s') == Rows(s) && r.Ok? && StoredUnder(Rows(s), key, r.value)
    ensures called && r.Ok? ==>
      && provider(key.text, key.model) == Embedded(r.value)
      && Rows(s') == Rows(s) + [Row(key.text, key.model, r.value)]
    ensures called && r.Err? ==>
      provider(key.text, key.model) == Failed && r.error == ProviderError(key) && Rows(s') == Rows(s)
  {
    var answer := IsKeyInTable(s, key);
    s' := answer.1;
    called := !answer.0;
    if answer.0 {
      r := Ok(GetEmbeddingFromTable(s', key).value);
    } else {
      var reply := provider(key.text, key.model);
      if reply.Failed? {
        r := Err(ProviderError(key));
      } else {
        s' := WriteEmbeddingToTable(s', key, reply.vector);
        r := Ok(reply.vector);
      }
    }
  }

  /** `duckdb_embeddings`: for each text, ask the table whether `(text, model)` is present;
      on a hit fetch the stored vector, on a miss call the provider and append one row.
      Rows appended before a provider failure stay in the table. */
  method DuckdbEmbeddings(s: Store, texts: seq<string>, model: string, provider: Provider)
    returns (r: Result<seq<Vec>>, s': Store, calls: seq<Key>)
    ensures texts == [] ==> r == Ok([]) && s' == s && calls == []
    ensures texts != [] ==> s'.Table?
    // rows are only ever appended
    ensures |Rows(s)| <= |Rows(s')| && Rows(s')[..|Rows(s)|] == Rows(s)
    // the provider is asked once per distinct key, and only for keys absent from the table
    ensures Distinct(calls)
    ensures forall c :: c in calls ==> c.model == model && c.text in texts && !Present(Rows(s), c)
    ensures r.Ok? ==> RowsForCalls(Rows(s')[|Rows(s)|..], calls, provider)
    ensures r.Err? ==>
      && calls != []
      && r.error == ProviderError(calls[|calls| - 1])
      && provider(calls[|calls| - 1].text, model) == Failed
      && RowsForCalls(Rows(s')[|Rows(s)|..], calls[..|calls| - 1], provider)
    // one vector per text, in input order, each stored in the table under its key
    ensures r.Ok? ==> |r.value| == |texts|
    ensures r.Ok? ==> forall i :: 0 <= i < |texts| ==> StoredUnder(Rows(s'), Key(texts[i], model), r.value[i])
    ensures r.Ok? ==> forall i :: 0 <= i < |texts| && !Present(Rows(s), Key(texts[i], model)) ==>
      provider(texts[i], model) == Embedded(r.value[i])
    // afterwards every key of the batch is present; one row was added per distinct missing key
    ensures r.Ok? ==> forall t :: t in texts ==> Present(Rows(s'), Key(t, model))
    ensures r.Ok? ==> (set c | c in calls) == MissingKeys(Rows(s), texts, model)
    ensures r.Ok? ==> |Rows(s')| == |Rows(s)| + |MissingKeys(Rows(s), texts, model)|
    // the calls, and so the appended rows, come in order of each absent key's first occurrence:
    // a prefix of that order, and on success all of it
    ensures calls <= FirstOccurrences(texts, model, StoredKeys(Rows(s)))
    ensures r.Ok? ==> |calls| == |FirstOccurrences(texts, model, StoredKeys(Rows(s)))|
  {
    ghost var added;
    r, s', calls, added := EmbedEach(s, texts, model, provider);
    if r.Ok? {
      BatchSucceeded(Rows(s), Rows(s'), added, calls, provider, texts, model, r.value);
    } else {
      BatchFailed(Rows(s), Rows(s'), added, calls, provider, texts, model);
    }
  }

  /** What the finished `duckdb_embeddings` loop gives: the old rows followed by one row per
      call, each vector stored under its key, every key of the batch present, and the calls
      exactly the keys that were missing. */
  lemma BatchSucceeded(rows: seq<Row>, current: seq<Row>, added: seq<Row>, calls: seq<Key>,
                       provider: Provider, texts: seq<string>, model: string, vecs: seq<Vec>)
    requires TableFacts(rows, current, added, calls, provider, texts, model)
    requires OutputFacts(rows, current, texts, model, provider, vecs)
    requires |vecs| == |texts|
    ensures |rows| <= |current| && current[..|rows|] == rows
    ensures Distinct(calls)
    ensures forall c :: c in calls ==> c.model == model && c.text in texts && !Present(rows, c)
    ensures RowsForCalls(current[|rows|..], calls, provider)
    ensures forall i :: 0 <= i < |texts| ==> StoredUnder(current, Key(texts[i], model), vecs[i])
    ensures forall i :: 0 <= i < |texts| && !Present(rows, Key(texts[i], model)) ==>
      provider(texts[i], model) == Embedded(vecs[i])
    ensures forall t :: t in texts ==> Present(current, Key(t, model))
    ensures (set c | c in calls) == MissingKeys(rows, texts, model)
    ensures |current| == |rows| + |MissingKeys(rows, texts, model)|
  {
    assert current[..|rows|] == rows && current[|rows|..] == added;
    assert texts[..|vecs|] == texts;
    forall t | t in texts && !Present(rows, Key(t, model))
      ensures Key(t, model) in calls
    {
      assert Present(current, Key(t, model));
    }
    CallsCoverMissing(calls, texts, model, (t: string) => !Present(rows, Key(t, model)));
  }

  /** What the `duckdb_embeddings` loop leaves when the provider fails: the old rows followed
      by one row per answered call, and a last call for a missing key of the batch. */
  lemma BatchFailed(rows: seq<Row>, current: seq<Row>, added: seq<Row>, calls: seq<Key>,
                    provider: Provider, texts: seq<string>, model: string)
    requires calls != []
    requires calls[|calls| - 1].model == model && calls[|calls| - 1].text in texts
    requires !Present(rows, calls[|calls| - 1])
    requires TableFacts(rows, current, added, calls[..|calls| - 1], provider, texts, model)
    ensures |rows| <= |current| && current[..|rows|] == rows
    ensures forall c :: c in calls ==> c.model == model && c.text in texts && !Present(rows, c)
    ensures RowsForCalls(current[|rows|..], calls[..|calls| - 1], provider)
  {
    assert current[..|rows|] == rows && current[|rows|..] == added;
    assert calls == calls[..|calls| - 1] + [calls[|calls| - 1]];
  }

  /** The loop of `duckdb_embeddings`; `added` are the rows it appended. */
  method EmbedEach(s: Store, texts: seq<string>, model: string, provider: Provider)
    returns (r: Result<seq<Vec>>, s': Store, calls: seq<Key>, ghost added: seq<Row>)
    ensures texts == [] ==> r == Ok([]) && s' == s && calls == []
    ensures texts != [] ==> s'.Table?
    ensures r.Ok? ==> |r.value| == |texts|
    ensures r.Ok? ==> TableFacts(Rows(s), Rows(s'), added, calls, provider, texts, model)
    ensures r.Ok? ==> OutputFacts(Rows(s), Rows(s'), texts, model, provider, r.value)
    ensures calls <= FirstOccurrences(texts, model, StoredKeys(Rows(s)))
    ensures r.Ok? ==> |calls| == |FirstOccurrences(texts, model, StoredKeys(Rows(s)))|
    ensures r.Err? ==>
      && calls != []
      && r.error == ProviderError(calls[|calls| - 1])
      && provider(calls[|calls| - 1].text, model) == Failed
      && calls[|calls| - 1].model == model && calls[|calls| - 1].text in texts
      && !Present(Rows(s), calls[|calls| - 1])
      && Distinct(calls)
      && TableFacts(Rows(s), Rows(s'), added, calls[..|calls| - 1], provider, texts, model)
  {
    var rows := Rows(s);
    var vecs: seq<Vec> := [];
    added := [];
    calls := [];
    s' := s;
    for i := 0 to |texts|
      invariant i == 0 ==> s' == s
      invariant i > 0 ==> s'.Table?
      invariant |vecs| == i
      invariant TableFacts(rows, Rows(s'), added, calls, provider, texts, model)
      invariant OutputFacts(rows, Rows(s'), texts, model, provider, vecs)
      invariant calls == FirstOccurrences(texts[..i], model, StoredKeys(rows))
    {
      var got;
      got, s', calls, added := EmbedStep(rows, s', added, calls, vecs, i, texts, model, provider);
      if got.Err? {
        r := Err(got.error);
        return;
      }
      vecs := vecs + [got.value];
    }
    OrderSoFar(texts, model, StoredKeys(rows), calls, |texts|);
    r := Ok(vecs);
  }

  /** One pass of the `duckdb_embeddings` loop, for the text after the `|vecs|` handled
      ones: the loop's facts carry over to one more text, or the provider failed on a key
      that was missing. */
  method EmbedStep(ghost rows: seq<Row>, s: Store, ghost added: seq<Row>, calls: seq<Key>, ghost vecs: seq<Vec>,
                   i: nat, texts: seq<string>, model: string, provider: Provider)
    returns (got: Result<Vec>, s': Store, calls': seq<Key>, ghost added': seq<Row>)
    requires i == |vecs| < |texts|
    requires TableFacts(rows, Rows(s), added, calls, provider, texts, model)
    requires OutputFacts(rows, Rows(s), texts, model, provider, vecs)
    requires calls == FirstOccurrences(texts[..|vecs|], model, StoredKeys(rows))
    ensures s'.Table?
    ensures got.Ok? ==> TableFacts(rows, Rows(s'), added', calls', provider, texts, model)
    ensures got.Ok? ==> OutputFacts(rows, Rows(s'), texts, model, provider, vecs + [got.value])
    ensures got.Ok? ==> calls' == FirstOccurrences(texts[..|vecs| + 1], model, StoredKeys(rows))
    ensures got.Err? ==>
      && calls' != []
      && got.error == ProviderError(calls'[|calls'| - 1])
      && provider(calls'[|calls'| - 1].text, model) == Failed
      && calls'[|calls'| - 1].model == model && calls'[|calls'| - 1].text in texts
      && !Present(rows, calls'[|calls'| - 1])
      && Distinct(calls')
      && TableFacts(rows, Rows(s'), added', calls'[..|calls'| - 1], provider, texts, model)
      && calls' <= FirstOccurrences(texts, model, StoredKeys(rows))
  {
    var key := Key(texts[i], model);
    TableOrderStep(rows, Rows(s), added, calls, provider, texts, model, i);
    var called;
    got, s', called := LookupOrEmbed(s, key, provider);
    added' := added;
    calls' := calls;
    if got.Err? {
      DistinctAppend(calls, key);
      calls' := calls + [key];
      assert calls'[..|calls'| - 1] == calls;
      OrderSoFar(texts, model, StoredKeys(rows), calls', i + 1);
      return;
    }
    if called {
      OutputStepMiss(rows, Rows(s), texts, model, provider, vecs, got.value);
      TableStepMiss(rows, Rows(s), added, calls, provider, texts, model, key, got.value);
      added' := added + [Row(key.text, key.model, got.value)];
      calls' := calls + [key];
    } else {
      if !Present(rows, key) {
        NewKeyHoldsProviderVector(rows, added, calls, provider, key, got.value);
      }
      OutputStepHit(rows, Rows(s), texts, model, provider, vecs, got.value);
    }
  }

  /** What the `duckdb_embeddings` loop keeps about the table: the current rows are the
      original rows plus one row per provider call, calls are distinct keys of the batch
      that were absent, and a key is present exactly when it was before or was called. */
  ghost predicate TableFacts(rows: seq<Row>, current: seq<Row>, added: seq<Row>, calls: seq<Key>,
                             provider: Provider, texts: seq<string>, model: string)
  {
    && current == rows + added
    && RowsForCalls(added, calls, provider)
    && Distinct(calls)
    && (forall c :: c in calls ==> c.model == model && c.text in texts && !Present(rows, c))
    && (forall k :: Present(current, k) <==> Present(rows, k) || k in calls)
  }

  /** What the loop keeps about the vectors produced so far. */
  ghost predicate OutputFacts(rows: seq<Row>, current: seq<Row>, texts: seq<string>, model: string,
                              provider: Provider, vecs: seq<Vec>)
  {
    && |vecs| <= |texts|
    && (forall j :: 0 <= j < |vecs| ==> StoredUnder(current, Key(texts[j], model), vecs[j]))
    && (forall j :: 0 <= j < |vecs| && !Present(rows, Key(texts[j], model)) ==>
          provider(texts[j], model) == Embedded(vecs[j]))
    && (forall t :: t in texts[..|vecs|] ==> Present(current, Key(t, model)))
  }

  /** In `duckdb_embeddings` a text is new exactly when the table lacks its key. */
  lemma TableOrderStep(rows: seq<Row>, current: seq<Row>, added: seq<Row>, calls: seq<Key>,
                       provider: Provider, texts: seq<string>, model: string, i: nat)
    requires TableFacts(rows, current, added, calls, provider, texts, model)
    requires i < |texts| && calls == FirstOccurrences(texts[..i], model, StoredKeys(rows))
    ensures FirstOccurrences(texts[..i + 1], model, StoredKeys(rows))
         == if Present(current, Key(texts[i], model)) then calls else calls + [Key(texts[i], model)]
  {
    OrderStep(texts, model, StoredKeys(rows), calls, i);
    assert Present(current, Key(texts[i], model)) <==> Present(rows, Key(texts[i], model)) || Key(texts[i], model) in calls;
  }

  lemma TableStepMiss(rows: seq<Row>, current: seq<Row>, added: seq<Row>, calls: seq<Key>,
                      provider: Provider, texts: seq<string>, model: string, key: Key, v: Vec)
    requires TableFacts(rows, current, added, calls, provider, texts, model)
    requires key.model == model && key.text in texts
    requires !Present(current, key)
    requires provider(key.text, key.model) == Embedded(v)
    ensures TableFacts(rows, current + [Row(key.text, key.model, v)], added + [Row(key.text, key.model, v)],
                       calls + [key], provider, texts, model)
  {
    var row := Row(key.text, key.model, v);
    DistinctAppend(calls, key);
    WritePresence(Table(current), key, v);
    assert Rows(WriteEmbeddingToTable(Table(current), key, v)) == current + [row];
  }

  lemma OutputStepMiss(rows: seq<Row>, current: seq<Row>, texts: seq<string>, model: string,
                       provider: Provider, vecs: seq<Vec>, v: Vec)
    requires OutputFacts(rows, current, texts, model, provider, vecs)
    requires |vecs| < |texts|
    requires provider(texts[|vecs|], model) == Embedded(v)
    ensures OutputFacts(rows, current + [Row(texts[|vecs|], model, v)], texts, model, provider, vecs + [v])
  {
    var i := |vecs|;
    var row := Row(texts[i], model, v);
    var current' := current + [row];
    assert texts[..i + 1] == texts[..i] + [texts[i]];
    assert Matches(current'[|current|], Key(texts[i], model));
    forall j | 0 <= j < i + 1
      ensures StoredUnder(current', Key(texts[j], model), (vecs + [v])[j])
    {
      if j < i {
        StoredUnderAppend(current, [row], Key(texts[j], model), vecs[j]);
      } else {
        assert current'[|current|] == row;
      }
    }
    forall t | t in texts[..i + 1]
      ensures Present(current', Key(t, model))
    {
      if t != texts[i] {
        var n :| 0 <= n < |current| && Matches(current[n], Key(t, model));
        assert Matches(current'[n], Key(t, model));
      }
    }
  }

  lemma OutputStepHit(rows: seq<Row>, current: seq<Row>, texts: seq<string>, model: string,
                      provider: Provider, vecs: seq<Vec>, v: Vec)
    requires OutputFacts(rows, current, texts, model, provider, vecs)
    requires |vecs| < |texts|
    requires StoredUnder(current, Key(texts[|vecs|], model), v)
    requires !Present(rows, Key(texts[|vecs|], model)) ==> provider(texts[|vecs|], model) == Embedded(v)
    ensures OutputFacts(rows, current, texts, model, provider, vecs + [v])
  {
    var i := |vecs|;
    assert texts[..i + 1] == texts[..i] + [texts[i]];
    assert (vecs + [v])[i] == v;
    forall j | 0 <= j < i
      ensures (vecs + [v])[j] == vecs[j]
    {
    }
  }
}
