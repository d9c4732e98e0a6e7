/** How the two halves of src/operations.py disagree on the key type of the pickle cache:
    `pickle_embeddings` saves `EmbeddingKey` objects as dictionary keys, while
    `write_pickle_cache_to_duckdb` splits every key with `key[0]` / `key[1]`. */
module KeyMismatch {
  import opened Keys
  import opened Common
  import opened Table
  import opened PickleCache
  import opened EmbeddingService

  /** As written: once `pickle_embeddings` has saved a non-empty batch, copying that file
      into the table fails with the TypeError of subscripting an `EmbeddingKey`, whatever
      the file and the table held before. */
  method SavedCacheBreaksCopyAsWritten(f: CacheFile, s: Store, texts: seq<string>, model: string, provider: Provider)
    returns (pickled: Result<seq<Vec>>, copied: Result<()>)
    requires texts != []
    ensures pickled.Ok? ==> copied == Err(NotSubscriptable)
  {
    var saved, calls;
    pickled, saved, calls := PickleEmbeddings(f, texts, model, provider);
    var s';
    ghost var order;
    copied, s', order := WritePickleCacheToDuckdbAsWritten(s, saved);
    if pickled.Ok? {
      assert Slot(texts[0], model) in Contents(saved);
    }
  }

  /** Corrected: the copy accepts both key forms, so after a successful batch every text
      of the batch is present in the table under its `(text, model)` key. */
  method SavedCacheCopies(f: CacheFile, s: Store, texts: seq<string>, model: string, provider: Provider)
    returns (pickled: Result<seq<Vec>>, copied: Result<()>, s': Store)
    ensures pickled.Ok? ==> copied.Ok?
    ensures pickled.Ok? ==> forall t :: t in texts ==> Present(Rows(s'), Key(t, model))
  {
    var saved, calls;
    pickled, saved, calls := PickleEmbeddings(f, texts, model, provider);
    ghost var order;
    copied, s', order := WritePickleCacheToDuckdb(s, saved);
    if pickled.Ok? {
      forall t | t in texts
        ensures Present(Rows(s'), Key(t, model))
      {
        assert Slot(t, model) in Contents(saved);
        assert KeyOf(Slot(t, model)) == Key(t, model);
      }
    }
  }
}
