/** Types shared by the whole model: vectors, errors, results, the provider's reply,
    and two facts about sequences the contracts are phrased with. */
module Common {
  import opened Keys

  /** An embedding vector. Floating-point numbers are modelled as reals. */
  type Vec = seq<real>

  /** The failures the core can surface to its caller. */
  datatype Error =
    | NotFound(key: Key)          // ValueError from get_embedding_from_table
    | NoSuchTable                 // the `embeddings` table was never created
    | ProviderError(call: Key)    // the embedding provider failed for this key
    | UnreadableCache             // the cache file exists but cannot be unpickled
    | NotSubscriptable            // TypeError: `key[0]` on an `EmbeddingKey`

  datatype Result<T> = Ok(value: T) | Err(error: Error)

  /** What the embedding provider answers for one `(text, model)` request. */
  datatype Reply = Embedded(vector: Vec) | Failed

  /** The embedding provider, an external service, as a function of the request. */
  type Provider = (string, string) -> Reply

  function Min(a: int, b: int): int
  {
    if a <= b then a else b
  }

  /** No element occurs twice. */
  ghost predicate Distinct<T>(s: seq<T>)
  {
    forall i, j :: 0 <= i < j < |s| ==> s[i] != s[j]
  }

  /** `a` is `b` with some elements dropped, the rest kept in order. */
  ghost predicate Subsequence<T>(a: seq<T>, b: seq<T>)
    decreases |b|
  {
    if a == [] then true
    else if b == [] then false
    else (a[|a| - 1] == b[|b| - 1] && Subsequence(a[..|a| - 1], b[..|b| - 1]))
         || Subsequence(a, b[..|b| - 1])
  }

  /** A sequence without repetitions has as many elements as the set of its elements. */
  lemma {:induction false} DistinctCardinality<T>(s: seq<T>)
    requires Distinct(s)
    ensures |set x | x in s| == |s|
  {
    if s != [] {
      var init := s[..|s| - 1];
      var last := s[|s| - 1];
      assert Distinct(init);
      DistinctCardinality(init);
      assert s == init + [last];
      assert (set x | x in s) == (set x | x in init) + {last};
      forall j | 0 <= j < |init|
        ensures init[j] != last
      {
        assert s[j] != s[|s| - 1];
      }
      assert last !in (set x | x in init);
    }
  }

  /** Appending an element not yet present keeps a sequence free of repetitions. */
  lemma DistinctAppend<T>(s: seq<T>, x: T)
    requires Distinct(s) && x !in s
    ensures Distinct(s + [x])
  {
    forall i, j | 0 <= i < j < |s| + 1
      ensures (s + [x])[i] != (s + [x])[j]
    {
      if j == |s| {
        assert s[i] in s;
      }
    }
  }

  /** Extending a subsequence: the next element of `b` is either kept or dropped. */
  lemma SubsequenceExtend<T>(a: seq<T>, b: seq<T>, x: T, keep: bool)
    requires Subsequence(a, b)
    ensures Subsequence(if keep then a + [x] else a, b + [x])
  {
    assert (b + [x])[..|b|] == b;
    if keep {
      assert (a + [x])[..|a|] == a;
    }
  }

  /** In a sequence without repetitions every value occurs at most once. */
  lemma {:induction false} DistinctMultiplicity<T>(s: seq<T>, x: T)
    requires Distinct(s)
    ensures multiset(s)[x] <= 1
  {
    if s != [] {
      var init := s[..|s| - 1];
      var last := s[|s| - 1];
      assert s == init + [last];
      assert Distinct(init);
      DistinctMultiplicity(init, x);
      if last == x {
        forall j | 0 <= j < |init|
          ensures init[j] != x
        {
          assert s[j] != s[|s| - 1];
        }
        assert x !in multiset(init);
      }
    }
  }

  /** A value found at two positions occurs at least twice. */
  lemma RepeatCounts<T>(s: seq<T>, i: int, j: int)
    requires 0 <= i < j < |s|
    ensures s[i] == s[j] ==> multiset(s)[s[i]] >= 2
  {
    assert s == s[..j] + [s[j]] + s[j + 1..];
    assert s[..j][i] == s[i];
    assert s[i] in multiset(s[..j]);
  }

  /** Elements drawn (with multiplicity) from a sequence without repetitions are themselves
      free of repetitions. */
  lemma SubMultisetDistinct<T>(t: seq<T>, s: seq<T>)
    requires Distinct(s) && multiset(t) <= multiset(s)
    ensures Distinct(t)
  {
    forall i, j | 0 <= i < j < |t|
      ensures t[i] != t[j]
    {
      DistinctMultiplicity(s, t[i]);
      RepeatCounts(t, i, j);
    }
  }
}
