# Embedding cache: a Dafny model

This project models the embedding-cache layer of a Hacker News comment-search tool. The layer
is a cache-or-compute front for an external text-embedding service. It has four parts:

- **The cache key** (`EmbeddingKey`): a `(text, model)` pair with value equality and hashing.
- **The table store**: the DuckDB table `embeddings(text, model, embedding)`. It can be created
  if absent, appended to, asked whether a key is present, and read. It has no uniqueness
  constraint.
- **The pickle-file store**: a dictionary from key to vector, loaded whole and saved whole.
  There is also a one-way copy of the file's entries into the table.
- **The services**:
  - `pickle_embeddings` and `duckdb_embeddings` return one vector per input text. They call the
    provider only on a cache miss.
  - `get_similarity` ranks the other rows of the table against a query text and keeps the best
    ten.

Everything is sequential and deterministic once three things become parameters:

- the embedding provider, `Provider = (string, string) -> Reply`, where `Reply` is either
  `Embedded(vector)` or `Failed`;
- the similarity score, `Score = (Vec, Vec) -> real`;
- Python's tuple hash.

The services return the new state of the table or file. They also return `calls`, the list of
provider requests they made, so that "a hit never calls the provider" is a checked statement.

Modules (one file each):

- `Keys`
- `Common`: vectors, errors, results, `Distinct`/`Subsequence` and their lemmas
- `Table`
- `PickleCache`
- `EmbeddingService`
- `Similarity`
- `KeyMismatch`: the finding below

Points where the code decides something a prose description might read differently:

- **Duplicates are only prevented by the services.** The table never deduplicates.
  `WriteTwiceDuplicates` proves that writing a key twice leaves two rows under it.
- **The search's `DISTINCT` is over `(text, embedding)` pairs, not over texts.** It also has no
  model filter. So one text can appear twice in the results when it is stored with two
  different vectors, for example under two models. `Similarity.Candidates` models exactly
  this.
- **Results are in non-increasing order of similarity.** Ties are possible, so the order is
  not strictly decreasing.
- **`get_embedding_from_table` does not create the table**, unlike the other table
  operations. On a database without the table it fails (`NoSuchTable`).
- **`fetchone` without `ORDER BY` may return any matching row.** The model takes the earliest
  one, but every contract promises only "the embedding of some row stored under the key"
  (`Table.StoredUnder`).

## Model

| member | source | states |
|---|---|---|
| Keys.KeyEquals | src/operations.py:25-28 | a key equals a value exactly when that value is a key with the same text and the same model; it never equals a tuple or any other object |
| Keys.KeyEqualsIsEquivalence | src/operations.py:25-28 | key equality is reflexive, symmetric and transitive |
| Keys.EqualKeysHashEqually | src/operations.py:30-31 | equal keys have equal hashes, whatever the tuple hash function is |
| Keys.KeyIsNotItsTuple | src/operations.py:25-31 | restates `__eq__` and `__hash__` for a key and the tuple of its own fields: equal hashes, yet unequal (the dictionary consequence is PickleCache.KeyAndTupleAreTwoEntries) |
| Table.CreateTableIfNotExists | src/operations.py:63-65 | afterwards the table exists; its rows are the rows before (none if it was absent); an existing table is left as it is |
| Table.CreateTableIdempotent | src/operations.py:63-65 | creating the table twice is the same as creating it once, and an existing table keeps its rows |
| Table.WriteEmbeddingToTable | src/operations.py:48-49 | the table afterwards is the old rows followed by exactly one row (key text, key model, vector) |
| Table.WritePresence | src/operations.py:48-49 | after a write, the written key is present and every other key is present exactly when it was before |
| Table.WriteTwiceDuplicates | src/operations.py:48-49 | writing the same key twice adds two rows under that key: no duplicate check |
| Table.Matches | src/operations.py:81 | a row matches a key exactly when the key equals the key built from the row's text and model; the same `text=? AND model=?` condition selects rows at src/operations.py:176 |
| Table.Search | src/operations.py:80-83 | the scan answers true exactly when some row matches both text and model |
| Table.IsKeyInTable | src/operations.py:79-86 | the answer is true iff some row matches both text and model; the table is ensured as a side effect |
| Table.ListKeysInTable | src/operations.py:102-107 | the result is a subsequence of the input keys (input order kept), containing each present key as often as the input does and no absent key; the table is ensured unless no key was checked |
| Table.FetchOne | src/operations.py:175-180 | the fetch succeeds iff some row matches, and then returns that row's embedding; otherwise it fails with NotFound for that key |
| Table.GetEmbeddingFromTable | src/operations.py:175-180 | with the table present: the embedding of some matching row, or NotFound when no row matches; without the table: NoSuchTable |
| PickleCache.LoadPickleCache | src/operations.py:121-124 | loading succeeds unless the file is unreadable; a missing file loads as an empty dictionary; a stored file loads as its dictionary |
| PickleCache.SavePickleCache | src/operations.py:146-158 | saving a dictionary leaves a file that loads back as exactly that dictionary |
| PickleCache.SaveLoadRoundTrip | src/operations.py:157-158 | loading a saved dictionary gives the same dictionary back |
| PickleCache.KeyAndTupleAreTwoEntries | src/operations.py:25-31 | a key and the tuple of its fields name the same (text, model), yet a dictionary holding both keeps two separate entries with their own vectors |
| PickleCache.WritePickleCacheToDuckdbAsWritten | src/operations.py:138-142 | the copy succeeds exactly when every dictionary key is a tuple; an EmbeddingKey key fails with NotSubscriptable; the table afterwards is the old rows plus one row per tuple entry visited, never the same entry twice |
| PickleCache.WritePickleCacheToDuckdb | src/operations.py:138-142 | corrected copy: unless the file is unreadable, the table keeps its old rows and gains exactly one row per dictionary entry with the entry's text, model and vector, so every entry's key becomes present |
| PickleCache.EntriesPresent | src/operations.py:138-142 | once the copy has written a row per entry, every dictionary key is present in the table |
| EmbeddingService.PickleEmbeddings | src/embedding_operations.py:11-21 | one vector per text in input order, each the saved dictionary's value for (text, model); the saved dictionary is the loaded one unchanged plus the batch's new keys with provider vectors; the provider is called once per distinct missing key and never on a hit; the calls follow the batch, one per first occurrence of a key the file lacked: a prefix of that order, and all of it on success; on provider failure the file is untouched |
| EmbeddingService.FirstOccurrencesPrefix | src/embedding_operations.py:15-18 | the first misses among the first n texts of a batch are a prefix of the first misses of the whole batch |
| EmbeddingService.EmbedIntoCache | src/embedding_operations.py:15-19 | the loop on the loaded dictionary: on success one vector per text, the dictionary is the loaded one plus the batch's keys, and the calls are the batch's first misses in order; on failure the last call failed and the calls so far are a prefix of that order |
| EmbeddingService.CacheDone | src/embedding_operations.py:15-20 | after the whole batch the saved dictionary's keys are the loaded keys plus the batch's keys, each missing text holds the provider's vector, and the calls are exactly the missing keys, once each |
| EmbeddingService.CacheStepHit | src/embedding_operations.py:17-19 | a text whose key the dictionary holds appends that entry's vector, makes no call and changes no entry |
| EmbeddingService.CacheStepMiss | src/embedding_operations.py:15-19 | computing a missing text inserts its provider vector and one distinct call, and the dictionary stays the loaded one plus the handled texts |
| EmbeddingService.LookupOrEmbed | src/embedding_operations.py:26-34 | a hit returns a stored vector, makes no provider call and changes no row; a miss calls the provider once and appends exactly one row with its vector, or changes nothing if the provider fails |
| EmbeddingService.EmbedStep | src/embedding_operations.py:25-34 | one pass of the table loop keeps the loop's facts and extends the call log exactly when the text's key is a first miss; a provider failure leaves the calls a prefix of the batch's first misses |
| EmbeddingService.EmbedEach | src/embedding_operations.py:24-35 | the loop appends one row per provider call and nothing else; every vector produced is stored under its text's key; a vector for a key missing at the start is the provider's vector |
| EmbeddingService.DuckdbEmbeddings | src/embedding_operations.py:23-35 | one vector per text in input order, each stored under its key; rows are only appended, one per distinct key that was absent; the provider is never called for a key already present; afterwards every key of the batch is present; the calls follow the batch, one per first occurrence of an absent key: a prefix of that order, and all of it on success; rows written before a provider failure stay |
| EmbeddingService.BatchSucceeded | src/embedding_operations.py:24-35 | after the whole batch the table is the old rows plus one row per call, every key is present, and the provider was called exactly for the keys that were absent, once each |
| EmbeddingService.BatchFailed | src/embedding_operations.py:31-33 | when the provider fails, the rows appended for earlier calls stay and the failing call was for a key of the batch that was absent |
| EmbeddingService.NewKeyHoldsProviderVector | src/embedding_operations.py:27-33 | a key absent before the batch is stored only under rows the batch added, so a later hit on it returns the provider's vector |
| Similarity.Candidates | src/embedding_operations.py:48-59 | the candidates are the distinct (text, embedding) pairs of rows whose text differs from the query, each listed once |
| Similarity.ScoreAll | src/embedding_operations.py:55-57 | one scored entry per candidate, in candidate order; a scored pair is listed exactly when its candidate is a candidate and its similarity is that candidate's score against the query |
| Similarity.ToMatches | src/embedding_operations.py:55-57 | each result is the text and similarity of the ranked entry at the same position, so an ordered ranking gives ordered results |
| Similarity.Insert | src/embedding_operations.py:60 | inserting into a ranking keeps it ordered by non-increasing similarity and adds exactly that entry |
| Similarity.SortDesc | src/embedding_operations.py:60 | the ranking is a permutation of its input ordered by non-increasing similarity |
| Similarity.PrefixOfRanking | src/embedding_operations.py:60-61 | the first min(10, n) entries of a ranking are ordered, drawn from the input, and beat or tie every entry beyond them |
| Similarity.Top | src/embedding_operations.py:60-61 | the top list has min(10, n) entries, is ordered, is drawn from the input, and no entry left out scores above its last entry |
| Similarity.RankedCandidates | src/embedding_operations.py:48-61 | the ranking the model builds is a top ranking (`IsTopRanking`): min(10, number of distinct other pairs) entries, each a distinct other pair scored against the query, best first, and every pair left out scores no higher than the tenth |
| Similarity.RankingSound | src/embedding_operations.py:48-61 | entries drawn from the scored distinct candidates are other pairs of the table, carry their own score, and are pairwise distinct |
| Similarity.RankingComplete | src/embedding_operations.py:59-61 | a pair not in the cut-off ranking scores no higher than its tenth entry |
| Similarity.MatchesOfRanking | src/embedding_operations.py:55-61 | any top ranking, whatever order it gives ties, yields min(10, n) results, best first, none with the query text, each the text and score of a table row, and every other row either appears or scores no higher than the tenth result |
| Similarity.TopMatches | src/embedding_operations.py:41-62 | the results are those of some top ranking of the distinct other pairs, so each pair at most once; min(10, number of distinct other pairs) results, best first, none with the query text, each the text and score of a table row, and every other row either appears or scores no higher than the tenth result |
| Similarity.ResolveQuery | src/embedding_operations.py:64 | the query's embedding comes from a batch of one text: no provider call when its key is already stored; otherwise one call, and exactly its own row (carrying the provider's vector) appended; on failure the table is unchanged |
| Similarity.SingleTextBatch | src/embedding_operations.py:23-35 | for a batch of one text, the table path calls the provider at most once and only when the key is absent, and appends at most that key's row |
| Similarity.GetSimilarity | src/embedding_operations.py:40-66 | the query's embedding is resolved through the table path first (adding only the query's own row, and only when it was absent); the result is the text and score of some top ranking of the distinct other pairs against that embedding, whichever order ties take, with min(10, n) entries; a table holding only the query's text gives an empty result |
| KeyMismatch.SavedCacheBreaksCopyAsWritten | src/operations.py:141 | as written, any cache that a successful non-empty pickle_embeddings batch has saved makes the copy into the table fail |
| KeyMismatch.SavedCacheCopies | src/operations.py:138-142 | with the corrected copy, after a successful batch the copy succeeds and every text of the batch is present in the table |

## Left out

- The OpenAI client (`src/openai_client`) is not part of this model. The provider is the
  parameter `provider`. Its failures are the `Failed` reply, which stands for any exception it
  raises.
- `EmbeddingOperations.cosine_similarity` (src/embedding_operations.py:37-38) is left out. It is
  floating point, and it interpolates the vectors into SQL text. The search's score is the
  abstract parameter `score`, which never fails. DuckDB's `list_cosine_similarity` would raise
  on vectors of different lengths. Such vectors can meet in the search because its candidates
  are not filtered by model. That error path is not modelled.
- Floating-point numbers are modelled as reals. NaN and rounding are not modelled.
- SQL text, parameter binding, `ARRAY_TYPE` and DuckDB's own failures are left out. The only
  DuckDB failure modelled is reading a table that was never created.
- The order of rows from `fetchone` without `ORDER BY`, and the order of ties under
  `ORDER BY similarity DESC`, are unspecified. The model's functions fix one choice for each
  (the earliest row; the insertion sort's order). The contracts of `GetEmbeddingFromTable` and
  `GetSimilarity` promise only what every choice has: some row stored under the key, and some
  top ranking (`Similarity.IsTopRanking`).
- Pickle serialisation and file I/O are left out. The file is `Missing`, `Stored(dictionary)` or
  `Corrupt`. A save always succeeds, because write failures (disk full, permissions) are not
  modelled.
- Python dictionaries iterate in insertion order; the model's dictionary is a `map`. The copy
  into the table therefore visits entries in an unspecified order, and reports it as a ghost
  `order`.
- `EmbeddingOperations.__init__` is left out. The connection and the file path become the
  `Store` and `CacheFile` values passed in and returned.
- `Keys.KeyHash`: Python's tuple hash is a parameter, so only consistency with equality is
  stated.
- tests/test_config.py is left out. It checks configuration loading and holds no logic of the
  cache.
- Concurrency is left out. The code is single-threaded, and no interleaving is modelled.

## Findings

| source | as written | input that shows it | evidently intended | confidence | as-written member | corrected member |
|---|---|---|---|---|---|---|
| src/operations.py:141 | `write_pickle_cache_to_duckdb` splits every dictionary key with `key[0]` / `key[1]`, as the declared `(str, str)` key type suggests. But `pickle_embeddings` (src/embedding_operations.py:16-18) stores `EmbeddingKey` objects as keys, and these define no indexing. | `pickle_embeddings(["a"], "m")` with a missing cache file saves `{EmbeddingKey("a", "m"): v}`. Copying that file into the table then raises TypeError, and no row for `("a", "m")` is written. | The copy accepts the keys that `pickle_embeddings` writes, and turns each entry into one row. | high; not executed | PickleCache.WritePickleCacheToDuckdbAsWritten (failure shown by KeyMismatch.SavedCacheBreaksCopyAsWritten) | PickleCache.WritePickleCacheToDuckdb (success shown by KeyMismatch.SavedCacheCopies) |
