/** `EmbeddingOperations.get_similarity` (src/embedding_operations.py): the query's own
    embedding is resolved through the table path, then the distinct `(text, embedding)`
    pairs of the table whose text differs from the query are ranked by similarity and
    the best ten returned. The cosine computation is the parameter `score`. */
module Similarity {
  import opened Keys
  import opened Common
  import opened Table
  import EmbeddingService

  /** `LIMIT 10`. */
  const Limit: nat := 10

  /** The similarity of two vectors (`list_cosine_similarity`), left abstract. */
  type Score = (Vec, Vec) -> real

  /** A row of `SELECT DISTINCT text, embedding FROM embeddings`. Note that the query
      does not filter by model. */
  datatype Candidate = Candidate(text: string, embedding: Vec)

  /** A candidate with its similarity to the query. */
  datatype Scored = Scored(candidate: Candidate, similarity: real)

  /** One result row `(text, similarity)`. */
  datatype Match = Match(text: string, similarity: real)

  function CandidateOf(row: Row): Candidate
  {
    Candidate(row.text, row.embedding)
  }

  /** `m` is the text of some row together with that row's similarity to `q`. */
  ghost predicate FromRow(rows: seq<Row>, m: Match, q: Vec, score: Score)
  {
    exists row :: row in rows && row.text == m.text && score(q, row.embedding) == m.similarity
  }

  /** The distinct candidates of the table that do not carry the query text. */
  ghost function OtherCandidates(rows: seq<Row>, query: string): set<Candidate>
  {
    set row | row in rows && row.text != query :: CandidateOf(row)
  }

  /** The `DISTINCT` pairs joined on `a.text != b.text`, each once, in order of first row. */
  function Candidates(rows: seq<Row>, query: string): (c: seq<Candidate>)
    ensures Distinct(c)
    ensures forall x :: x in c <==> x in OtherCandidates(rows, query)
  {
    if rows == [] then []
    else
      var init := rows[..|rows| - 1];
      var last := rows[|rows| - 1];
      var prev := Candidates(init, query);
      assert rows == init + [last];
      assert OtherCandidates(rows, query)
          == OtherCandidates(init, query) + (if last.text != query then {CandidateOf(last)} else {});
      if last.text == query || CandidateOf(last) in prev then prev
      else
        DistinctAppend(prev, CandidateOf(last));
        prev + [CandidateOf(last)]
  }

  ghost predicate SortedDesc(s: seq<Scored>)
  {
    forall i, j :: 0 <= i < j < |s| ==> s[i].similarity >= s[j].similarity
  }

  /** Putting an entry that scores at least as high as all others in front keeps the order. */
  lemma SortedCons(h: Scored, t: seq<Scored>)
    requires SortedDesc(t)
    requires forall i :: 0 <= i < |t| ==> t[i].similarity <= h.similarity
    ensures SortedDesc([h] + t)
  {
    forall i, j | 0 <= i < j < |[h] + t|
      ensures ([h] + t)[i].similarity >= ([h] + t)[j].similarity
    {
      if i > 0 {
        assert ([h] + t)[i] == t[i - 1] && ([h] + t)[j] == t[j - 1];
      }
    }
  }

  /** The recursive case of `Insert`: the head stays in front of the insertion into the tail. */
  lemma InsertBehindHead(x: Scored, s: seq<Scored>, rest: seq<Scored>)
    requires SortedDesc(s) && s != [] && x.similarity < s[0].similarity
    requires SortedDesc(rest) && multiset(rest) == multiset(s[1..]) + multiset{x}
    ensures SortedDesc([s[0]] + rest)
    ensures multiset([s[0]] + rest) == multiset(s) + multiset{x}
  {
    forall i | 0 <= i < |rest|
      ensures rest[i].similarity <= s[0].similarity
    {
      assert rest[i] in multiset(rest);
      if rest[i] != x {
        assert rest[i] in multiset(s[1..]);
        var p :| 0 <= p < |s[1..]| && s[1..][p] == rest[i];
        assert s[p + 1] == rest[i];
      }
    }
    SortedCons(s[0], rest);
    assert s == [s[0]] + s[1..];
  }

  /** Insertion into a sequence ranked by decreasing similarity. Equal similarities may
      come in any order (the database does not fix the order of ties either). */
  function Insert(x: Scored, s: seq<Scored>): (r: seq<Scored>)
    requires SortedDesc(s)
    ensures |r| == |s| + 1
    ensures SortedDesc(r)
    ensures multiset(r) == multiset(s) + multiset{x}
  {
    if s == [] then [x]
    else if x.similarity >= s[0].similarity then
      SortedCons(x, s);
      [x] + s
    else
      assert SortedDesc(s[1..]) by {
        forall i, j | 0 <= i < j < |s[1..]|
          ensures s[1..][i].similarity >= s[1..][j].similarity
        {
          assert s[1..][i] == s[i + 1] && s[1..][j] == s[j + 1];
        }
      }
      var rest := Insert(x, s[1..]);
      InsertBehindHead(x, s, rest);
      [s[0]] + rest
  }

  /** `ORDER BY similarity DESC`. */
  function SortDesc(s: seq<Scored>): (r: seq<Scored>)
    ensures |r| == |s|
    ensures SortedDesc(r)
    ensures multiset(r) == multiset(s)
  {
    if s == [] then []
    else
      assert s == s[..|s| - 1] + [s[|s| - 1]];
      Insert(s[|s| - 1], SortDesc(s[..|s| - 1]))
  }

  /** `ORDER BY similarity DESC LIMIT 10`: the best `Limit` entries, best first; every
      entry left out scores no higher than the last one kept. */
  function Top(s: seq<Scored>): (t: seq<Scored>)
    ensures |t| == Min(Limit, |s|)
    ensures SortedDesc(t)
    ensures multiset(t) <= multiset(s)
    ensures forall x :: x in s ==> x in t || (|t| == Limit && x.similarity <= t[Limit - 1].similarity)
  {
    var sorted := SortDesc(s);
    var n := Min(Limit, |s|);
    PrefixOfRanking(s, sorted, n);
    sorted[..n]
  }

  /** A prefix of a ranking of `s` holds the best entries of `s`. */
  lemma PrefixOfRanking(s: seq<Scored>, sorted: seq<Scored>, n: nat)
    requires SortedDesc(sorted) && multiset(sorted) == multiset(s)
    requires n == Min(Limit, |s|)
    ensures |sorted| == |s| && n <= |sorted|
    ensures SortedDesc(sorted[..n])
    ensures multiset(sorted[..n]) <= multiset(s)
    ensures forall x :: x in s ==> x in sorted[..n] || (n == Limit && x.similarity <= sorted[..n][Limit - 1].similarity)
  {
    assert |sorted| == |multiset(sorted)| == |multiset(s)| == |s|;
    assert sorted == sorted[..n] + sorted[n..];
    assert multiset(sorted) == multiset(sorted[..n]) + multiset(sorted[n..]);
    forall x | x in s
      ensures x in sorted[..n] || (n == Limit && x.similarity <= sorted[..n][Limit - 1].similarity)
    {
      assert x in multiset(sorted);
      var p :| 0 <= p < |sorted| && sorted[p] == x;
      if p >= n {
        assert sorted[n - 1].similarity >= sorted[p].similarity;
      } else {
        assert sorted[..n][p] == x;
      }
    }
  }

  /** Each candidate paired with its similarity to `q`, in candidate order. */
  function ScoreAll(cands: seq<Candidate>, q: Vec, score: Score): (scored: seq<Scored>)
    ensures |scored| == |cands|
    ensures forall i :: 0 <= i < |cands| ==> scored[i] == Scored(cands[i], score(q, cands[i].embedding))
    ensures forall x: Scored :: x in scored <==> x.candidate in cands && x.similarity == score(q, x.candidate.embedding)
  {
    var scored := seq(|cands|, i requires 0 <= i < |cands| => Scored(cands[i], score(q, cands[i].embedding)));
    assert forall x: Scored :: x.candidate in cands && x.similarity == score(q, x.candidate.embedding) ==> x in scored by {
      forall x: Scored | x.candidate in cands && x.similarity == score(q, x.candidate.embedding)
        ensures x in scored
      {
        var p :| 0 <= p < |cands| && cands[p] == x.candidate;
        assert scored[p] == x;
      }
    }
    scored
  }

  /** The result rows `(text, similarity)` of ranked entries. */
  function ToMatches(top: seq<Scored>): (m: seq<Match>)
    ensures |m| == |top|
    ensures forall i :: 0 <= i < |top| ==> m[i] == Match(top[i].candidate.text, top[i].similarity)
    ensures SortedDesc(top) ==> forall i, j :: 0 <= i < j < |m| ==> m[i].similarity >= m[j].similarity
  {
    seq(|top|, i requires 0 <= i < |top| => Match(top[i].candidate.text, top[i].similarity))
  }

  /** What `SELECT DISTINCT … ORDER BY similarity DESC LIMIT 10` may return, as ranked
      candidates: min(10, n) distinct candidates of the table that do not carry the query
      text, each with its similarity to `q`, best first, and no candidate left out that
      beats the last one kept. Ties make more than one sequence qualify. */
  ghost predicate IsTopRanking(rows: seq<Row>, query: string, q: Vec, score: Score, ranked: seq<Scored>)
  {
    && |ranked| == Min(Limit, |OtherCandidates(rows, query)|)
    && SortedDesc(ranked)
    && (forall i :: 0 <= i < |ranked| ==>
          && ranked[i].candidate in OtherCandidates(rows, query)
          && ranked[i].similarity == score(q, ranked[i].candidate.embedding))
    && (forall i, j :: 0 <= i < j < |ranked| ==> ranked[i].candidate != ranked[j].candidate)
    && (forall c :: c in OtherCandidates(rows, query) ==>
          || Scored(c, score(q, c.embedding)) in ranked
          || (|ranked| == Limit && score(q, c.embedding) <= ranked[Limit - 1].similarity))
  }

  /** The ranking the model computes: the distinct candidates, scored, sorted, cut at ten. */
  function RankedCandidates(rows: seq<Row>, query: string, q: Vec, score: Score): (ranked: seq<Scored>)
    ensures IsTopRanking(rows, query, q, score, ranked)
  {
    var cands := Candidates(rows, query);
    CandidateCount(rows, query, cands);
    var scored := ScoreAll(cands, q, score);
    var top := Top(scored);
    RankingSound(rows, query, q, score, cands, scored, top);
    RankingComplete(rows, query, q, score, cands, scored, top);
    top
  }

  /** The candidate list holds each distinct other pair once. */
  lemma CandidateCount(rows: seq<Row>, query: string, cands: seq<Candidate>)
    requires Distinct(cands)
    requires forall x :: x in cands <==> x in OtherCandidates(rows, query)
    ensures |cands| == |OtherCandidates(rows, query)|
  {
    DistinctCardinality(cands);
    assert (set x | x in cands) == OtherCandidates(rows, query);
  }

  /** Entries drawn from the scored candidates are candidates with their own score, and
      no candidate is drawn twice. */
  lemma RankingSound(rows: seq<Row>, query: string, q: Vec, score: Score,
                     cands: seq<Candidate>, scored: seq<Scored>, top: seq<Scored>)
    requires Distinct(cands)
    requires forall x :: x in cands <==> x in OtherCandidates(rows, query)
    requires scored == ScoreAll(cands, q, score)
    requires multiset(top) <= multiset(scored)
    ensures forall i :: 0 <= i < |top| ==>
      && top[i].candidate in OtherCandidates(rows, query)
      && top[i].similarity == score(q, top[i].candidate.embedding)
    ensures forall i, j :: 0 <= i < j < |top| ==> top[i].candidate != top[j].candidate
  {
    forall i | 0 <= i < |top|
      ensures top[i].candidate in OtherCandidates(rows, query)
      ensures top[i].similarity == score(q, top[i].candidate.embedding)
    {
      assert top[i] in multiset(scored);
      var p :| 0 <= p < |scored| && scored[p] == top[i];
      assert cands[p] in cands;
    }
    forall i, j | 0 <= i < j < |scored|
      ensures scored[i] != scored[j]
    {
      assert scored[i].candidate == cands[i] && scored[j].candidate == cands[j];
    }
    SubMultisetDistinct(top, scored);
    forall i, j | 0 <= i < j < |top|
      ensures top[i].candidate != top[j].candidate
    {
      assert top[i] != top[j];
    }
  }

  /** A candidate missing from the top entries scores no higher than the last of them. */
  lemma RankingComplete(rows: seq<Row>, query: string, q: Vec, score: Score,
                        cands: seq<Candidate>, scored: seq<Scored>, top: seq<Scored>)
    requires forall x :: x in cands <==> x in OtherCandidates(rows, query)
    requires scored == ScoreAll(cands, q, score)
    requires forall x :: x in scored ==> x in top || (|top| == Limit && x.similarity <= top[Limit - 1].similarity)
    ensures forall c :: c in OtherCandidates(rows, query) ==>
      || Scored(c, score(q, c.embedding)) in top
      || (|top| == Limit && score(q, c.embedding) <= top[Limit - 1].similarity)
  {
    forall c | c in OtherCandidates(rows, query)
      ensures || Scored(c, score(q, c.embedding)) in top
              || (|top| == Limit && score(q, c.embedding) <= top[Limit - 1].similarity)
    {
      var p :| 0 <= p < |cands| && cands[p] == c;
      assert scored[p] in scored;
    }
  }

  /** The result rows of any top ranking: at most ten, best first, none carrying the query
      text, each the text and similarity of a row, and every other row either listed or
      scoring no higher than the tenth result. */
  lemma MatchesOfRanking(rows: seq<Row>, query: string, q: Vec, score: Score, ranked: seq<Scored>)
    requires IsTopRanking(rows, query, q, score, ranked)
    ensures |ToMatches(ranked)| == Min(Limit, |OtherCandidates(rows, query)|)
    ensures forall i, j :: 0 <= i < j < |ranked| ==> ToMatches(ranked)[i].similarity >= ToMatches(ranked)[j].similarity
    ensures forall i :: 0 <= i < |ranked| ==> ToMatches(ranked)[i].text != query
    ensures forall i :: 0 <= i < |ranked| ==> FromRow(rows, ToMatches(ranked)[i], q, score)
    ensures forall row :: row in rows && row.text != query ==>
      || Match(row.text, score(q, row.embedding)) in ToMatches(ranked)
      || (|ranked| == Limit && score(q, row.embedding) <= ToMatches(ranked)[Limit - 1].similarity)
  {
    var m := ToMatches(ranked);
    forall i | 0 <= i < |ranked|
      ensures m[i].text != query && FromRow(rows, m[i], q, score)
    {
      var c := ranked[i].candidate;
      assert c in OtherCandidates(rows, query);
      var row :| row in rows && row.text != query && CandidateOf(row) == c;
      assert row.text == m[i].text && score(q, row.embedding) == m[i].similarity;
    }
    forall row | row in rows && row.text != query
      ensures || Match(row.text, score(q, row.embedding)) in m
              || (|ranked| == Limit && score(q, row.embedding) <= m[Limit - 1].similarity)
    {
      var c := CandidateOf(row);
      assert c in OtherCandidates(rows, query);
      if Scored(c, score(q, c.embedding)) in ranked {
        var k :| 0 <= k < |ranked| && ranked[k] == Scored(c, score(q, c.embedding));
        assert m[k] == Match(row.text, score(q, row.embedding));
      }
    }
  }

  /** The result of the search for `query` against `rows`, given the query's embedding `q`:
      the result rows of the model's ranking. */
  function TopMatches(rows: seq<Row>, query: string, q: Vec, score: Score): (m: seq<Match>)
    ensures exists ranked :: IsTopRanking(rows, query, q, score, ranked) && m == ToMatches(ranked)
    ensures |m| == Min(Limit, |OtherCandidates(rows, query)|)
    ensures forall i, j :: 0 <= i < j < |m| ==> m[i].similarity >= m[j].similarity
    ensures forall i :: 0 <= i < |m| ==> m[i].text != query
    ensures forall i :: 0 <= i < |m| ==> FromRow(rows, m[i], q, score)
    ensures forall row :: row in rows && row.text != query ==>
      || Match(row.text, score(q, row.embedding)) in m
      || (|m| == Limit && score(q, row.embedding) <= m[Limit - 1].similarity)
  {
    var ranked := RankedCandidates(rows, query, q, score);
    MatchesOfRanking(rows, query, q, score, ranked);
    ToMatches(ranked)
  }

  /** The first step of `get_similarity`: the query's embedding, through the table path
      with a batch of one text. */
  method ResolveQuery(s: Store, text: string, model: string, provider: Provider)
    returns (r: Result<Vec>, s': Store, calls: seq<Key>)
    ensures s'.Table?
    // the provider is asked only when the query's key is absent
    ensures calls == if Present(Rows(s), Key(text, model)) then [] else [Key(text, model)]
    ensures r.Err? ==> r.error == ProviderError(Key(text, model)) && provider(text, model) == Failed
    ensures r.Err? ==> Rows(s') == Rows(s)
    // on success the query's key holds the vector, and at most the query's own row was added
    ensures r.Ok? ==> StoredUnder(Rows(s'), Key(text, model), r.value)
    ensures r.Ok? ==> Rows(s') == Rows(s) + (if calls == [] then [] else [Row(text, model, r.value)])
    ensures r.Ok? && calls != [] ==> provider(text, model) == Embedded(r.value)
  {
    var resolved;
    resolved, s', calls := EmbeddingService.DuckdbEmbeddings(s, [text], model, provider);
    r := if resolved.Ok? then Ok(resolved.value[0]) else Err(resolved.error);
    SingleTextBatch(Rows(s), Rows(s'), [text], text, model, provider, resolved, calls);
  }

  /** What the table path gives for a batch of one text. */
  lemma SingleTextBatch(before: seq<Row>, after: seq<Row>, texts: seq<string>, text: string, model: string,
                        provider: Provider, r: Result<seq<Vec>>, calls: seq<Key>)
    requires texts == [text]
    requires |before| <= |after| && after[..|before|] == before
    requires Distinct(calls)
    requires forall c :: c in calls ==> c.model == model && c.text in texts && !Present(before, c)
    requires r.Ok? ==> EmbeddingService.RowsForCalls(after[|before|..], calls, provider)
    requires r.Err? ==>
      && calls != []
      && r.error == ProviderError(calls[|calls| - 1])
      && provider(calls[|calls| - 1].text, model) == Failed
      && EmbeddingService.RowsForCalls(after[|before|..], calls[..|calls| - 1], provider)
    requires r.Ok? ==> |r.value| == |texts|
    requires r.Ok? ==> forall i :: 0 <= i < |texts| ==> StoredUnder(after, Key(texts[i], model), r.value[i])
    requires r.Ok? ==> (set c | c in calls) == EmbeddingService.MissingKeys(before, texts, model)
    ensures calls == if Present(before, Key(text, model)) then [] else [Key(text, model)]
    ensures r.Err? ==> r.error == ProviderError(Key(text, model)) && provider(text, model) == Failed
    ensures r.Err? ==> after == before
    ensures r.Ok? ==> StoredUnder(after, Key(text, model), r.value[0])
    ensures r.Ok? ==> after == before + (if calls == [] then [] else [Row(text, model, r.value[0])])
    ensures r.Ok? && calls != [] ==> provider(text, model) == Embedded(r.value[0])
  {
    var key := Key(text, model);
    SingleTextCalls(calls, text, model);
    var added := after[|before|..];
    assert after == before + added;
    if r.Err? {
      assert calls == [key];
      assert |added| == 0;
    } else {
      assert StoredUnder(after, Key(texts[0], model), r.value[0]);
      if calls == [] {
        assert key !in EmbeddingService.MissingKeys(before, texts, model);
        assert |added| == 0;
      } else {
        assert calls == [key];
        assert Matches(added[0], key) && provider(text, model) == Embedded(added[0].embedding);
      }
    }
  }

  /** `get_similarity`: the query's embedding is resolved with `duckdb_embeddings([text], model)`
      (which may call the provider and append the query's row), then the table is searched.
      The ghost result `q` is the embedding the search used. */
  method GetSimilarity(s: Store, text: string, model: string, provider: Provider, score: Score)
    returns (r: Result<seq<Match>>, s': Store, calls: seq<Key>, ghost q: Vec)
    ensures s'.Table?
    // the provider is asked only when the query's key is absent
    ensures calls == if Present(Rows(s), Key(text, model)) then [] else [Key(text, model)]
    ensures r.Err? ==> r.error == ProviderError(Key(text, model)) && provider(text, model) == Failed
    // resolving the query adds at most the query's own row
    ensures Rows(s') == Rows(s) + (if calls == [] || r.Err? then [] else [Row(text, model, q)])
    // on success, the query's key holds the embedding the search used
    ensures r.Ok? ==> StoredUnder(Rows(s'), Key(text, model), q)
    ensures r.Ok? && calls != [] ==> provider(text, model) == Embedded(q)
    // on success, the result is the top ten of the other distinct pairs against that embedding,
    // with ties in any order
    ensures r.Ok? ==> exists ranked :: IsTopRanking(Rows(s'), text, q, score, ranked) && r.value == ToMatches(ranked)
    ensures r.Ok? ==> |r.value| == Min(Limit, |OtherCandidates(Rows(s'), text)|)
    // a table holding only the query's text gives no results
    ensures r.Ok? && (forall row :: row in Rows(s) ==> row.text == text) ==> r.value == []
  {
    var resolved;
    resolved, s', calls := ResolveQuery(s, text, model, provider);
    if resolved.Err? {
      return Err(resolved.error), s', calls, [];
    }
    var embedding := resolved.value;
    q := embedding;
    r := Ok(TopMatches(Rows(s'), text, embedding, score));
    if forall row :: row in Rows(s) ==> row.text == text {
      assert OtherCandidates(Rows(s'), text) == {};
    }
  }

  /** A batch of one text calls the provider at most once, for that text's key. */
  lemma SingleTextCalls(calls: seq<Key>, text: string, model: string)
    requires Distinct(calls)
    requires forall c :: c in calls ==> c.model == model && c.text in [text]
    ensures calls == [] || calls == [Key(text, model)]
  {
    DistinctCardinality(calls);
    var called := set c | c in calls;
    if calls != [] {
      assert called == {Key(text, model)} by {
        assert calls[0] in called;
      }
    }
  }
}
