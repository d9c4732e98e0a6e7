/** The DuckDB `embeddings` table of src/operations.py, as an ordered sequence of rows.
    SQL text, parameter binding and fetch mechanics are abstracted away. */
module Table {
  import opened Keys
  import opened Common

  /** One row `(text, model, embedding)`. */
  datatype Row = Row(text: string, model: string, embedding: Vec)

  /** The database as far as the core sees it: the table is either not created yet,
      or it exists and holds rows. The table has no uniqueness constraint. */
  datatype Store = NoTable | Table(rows: seq<Row>)

  /** The rows a query sees; an absent table is treated as holding none. */
  function Rows(s: Store): seq<Row>
  {
    if s.Table? then s.rows else []
  }

  /** `WHERE text=? AND model=?`: exact match on both columns, which is exactly
      `EmbeddingKey` equality between the key and the key built from the row. */
  function Matches(row: Row, key: Key): (m: bool)
    ensures m <==> KeyEquals(key, KeyValue(Key(row.text, row.model)))
  {
    row.text == key.text && row.model == key.model
  }

  ghost predicate Present(rows: seq<Row>, key: Key)
  {
    exists i :: 0 <= i < |rows| && Matches(rows[i], key)
  }

  /** `v` is the embedding of some row stored under `key`. */
  ghost predicate StoredUnder(rows: seq<Row>, key: Key, v: Vec)
  {
    exists i :: 0 <= i < |rows| && Matches(rows[i], key) && rows[i].embedding == v
  }

  /** Number of rows stored under `key`. */
  function CountMatches(rows: seq<Row>, key: Key): nat
  {
    if rows == [] then 0
    else CountMatches(rows[..|rows| - 1], key) + (if Matches(rows[|rows| - 1], key) then 1 else 0)
  }

  /** `create_table_if_not_exists`: afterwards the table exists, and its rows are the
      rows that were there before (none if it was absent). */
  function CreateTableIfNotExists(s: Store): (r: Store)
    ensures r.Table?
    ensures Rows(r) == Rows(s)
    ensures s.Table? ==> r == s
  {
    if s.Table? then s else Table([])
  }

  /** `write_embedding_to_table`: ensures the table, then appends exactly one row;
      no duplicate check is made. */
  function WriteEmbeddingToTable(s: Store, key: Key, embedding: Vec): (r: Store)
    ensures r.Table?
    ensures Rows(r) == Rows(s) + [Row(key.text, key.model, embedding)]
  {
    var t := CreateTableIfNotExists(s);
    Table(t.rows + [Row(key.text, key.model, embedding)])
  }

  /** After a write, the written key is present, and every other key is present exactly
      when it was before. */
  lemma WritePresence(s: Store, key: Key, embedding: Vec)
    ensures forall k :: Present(Rows(WriteEmbeddingToTable(s, key, embedding)), k) <==> Present(Rows(s), k) || k == key
  {
    var rows := Rows(WriteEmbeddingToTable(s, key, embedding));
    assert Matches(rows[|Rows(s)|], key);
    forall k | Present(rows, k) && k != key
      ensures Present(Rows(s), k)
    {
      var i :| 0 <= i < |rows| && Matches(rows[i], k);
      assert i < |Rows(s)|;
      assert Matches(Rows(s)[i], k);
    }
    forall k | Present(Rows(s), k)
      ensures Present(rows, k)
    {
      var i :| 0 <= i < |Rows(s)| && Matches(Rows(s)[i], k);
      assert Matches(rows[i], k);
    }
  }

  /** The scan behind `SELECT EXISTS(...)`. */
  function Search(rows: seq<Row>, key: Key): (found: bool)
    ensures found <==> Present(rows, key)
  {
    if rows == [] then false
    else if Matches(rows[0], key) then true
    else
      var found := Search(rows[1..], key);
      assert Present(rows, key) ==> Present(rows[1..], key) by {
        if Present(rows, key) {
          var i :| 0 <= i < |rows| && Matches(rows[i], key);
          assert i > 0 && Matches(rows[1..][i - 1], key);
        }
      }
      assert Present(rows[1..], key) ==> Present(rows, key) by {
        if Present(rows[1..], key) {
          var i :| 0 <= i < |rows[1..]| && Matches(rows[1..][i], key);
          assert Matches(rows[i + 1], key);
        }
      }
      found
  }

  /** `is_key_in_table`: ensures the table, then reports whether some row matches both
      `text` and `model`. Returns the answer and the database afterwards. */
  function IsKeyInTable(s: Store, key: Key): (r: (bool, Store))
    ensures r.1 == CreateTableIfNotExists(s)
    ensures r.0 <==> Present(Rows(s), key)
  {
    var t := CreateTableIfNotExists(s);
    (Search(t.rows, key), t)
  }

  /** The row `fetchone` returns for `SELECT embedding ... WHERE text=? AND model=?`.
      Without `ORDER BY` the choice is unspecified; this model takes the earliest row,
      but the contract only promises some matching row. */
  function FetchOne(rows: seq<Row>, key: Key): (r: Result<Vec>)
    ensures r.Ok? <==> Present(rows, key)
    ensures r.Ok? ==> StoredUnder(rows, key, r.value)
    ensures r.Err? ==> r.error == NotFound(key)
  {
    if rows == [] then Err(NotFound(key))
    else if Matches(rows[0], key) then Ok(rows[0].embedding)
    else
      var r := FetchOne(rows[1..], key);
      assert Present(rows, key) ==> Present(rows[1..], key) by {
        if Present(rows, key) {
          var i :| 0 <= i < |rows| && Matches(rows[i], key);
          assert i > 0 && Matches(rows[1..][i - 1], key);
        }
      }
      assert r.Ok? ==> StoredUnder(rows, key, r.value) by {
        if r.Ok? {
          var i :| 0 <= i < |rows[1..]| && Matches(rows[1..][i], key) && rows[1..][i].embedding == r.value;
          assert Matches(rows[i + 1], key) && rows[i + 1].embedding == r.value;
        }
      }
      r
  }

  /** `get_embedding_from_table`: the embedding of a row matching the key, `NotFound`
      (the source's ValueError) when no row matches. It does not create the table, so on
      a database without one the query itself fails. */
  function GetEmbeddingFromTable(s: Store, key: Key): (r: Result<Vec>)
    ensures s.NoTable? ==> r == Err(NoSuchTable)
    ensures s.Table? ==> (r.Ok? <==> Present(s.rows, key))
    ensures s.Table? && r.Err? ==> r.error == NotFound(key)
    ensures r.Ok? ==> StoredUnder(Rows(s), key, r.value)
  {
    if s.NoTable? then Err(NoSuchTable) else FetchOne(s.rows, key)
  }

  /** `list_keys_in_table`: the input keys present in the table, in input order, with
      their repetitions. Each check ensures the table, so the table exists afterwards
      unless no key was checked at all. */
  method ListKeysInTable(s: Store, keys: seq<Key>) returns (present: seq<Key>, s': Store)
    ensures s' == if keys == [] then s else CreateTableIfNotExists(s)
    ensures Subsequence(present, keys)
    ensures forall k :: multiset(present)[k] == if Present(Rows(s), k) then multiset(keys)[k] else 0
    ensures forall k :: k in present <==> k in keys && Present(Rows(s), k)
  {
    present := [];
    s' := s;
    for i := 0 to |keys|
      invariant s' == if i == 0 then s else CreateTableIfNotExists(s)
      invariant Subsequence(present, keys[..i])
      invariant forall k :: multiset(present)[k] == if Present(Rows(s), k) then multiset(keys[..i])[k] else 0
    {
      var answer := IsKeyInTable(s', keys[i]);
      assert Present(Rows(s'), keys[i]) <==> Present(Rows(s), keys[i]);
      assert keys[..i + 1] == keys[..i] + [keys[i]];
      assert multiset(keys[..i + 1]) == multiset(keys[..i]) + multiset{keys[i]};
      SubsequenceExtend(present, keys[..i], keys[i], answer.0);
      ghost var before := present;
      if answer.0 {
        present := present + [keys[i]];
        assert multiset(present) == multiset(before) + multiset{keys[i]};
      }
      s' := answer.1;
    }
    assert keys[..|keys|] == keys;
    MultisetMembership(present, keys, s);
  }

  lemma MultisetMembership(present: seq<Key>, keys: seq<Key>, s: Store)
    requires forall k :: multiset(present)[k] == if Present(Rows(s), k) then multiset(keys)[k] else 0
    ensures forall k :: k in present <==> k in keys && Present(Rows(s), k)
  {
    forall k
      ensures k in present <==> k in keys && Present(Rows(s), k)
    {
      assert k in present <==> multiset(present)[k] > 0;
      assert k in keys <==> multiset(keys)[k] > 0;
    }
  }

  /** Writing the same key twice leaves two more rows under it: the table does not
      deduplicate. */
  lemma {:induction false} WriteTwiceDuplicates(s: Store, key: Key, v: Vec, w: Vec)
    ensures CountMatches(Rows(WriteEmbeddingToTable(WriteEmbeddingToTable(s, key, v), key, w)), key)
            == CountMatches(Rows(s), key) + 2
  {
    var once := WriteEmbeddingToTable(s, key, v);
    var twice := WriteEmbeddingToTable(once, key, w);
    CountAppend(Rows(s), Row(key.text, key.model, v), key);
    CountAppend(Rows(once), Row(key.text, key.model, w), key);
  }

  lemma CountAppend(rows: seq<Row>, row: Row, key: Key)
    ensures CountMatches(rows + [row], key) == CountMatches(rows, key) + (if Matches(row, key) then 1 else 0)
  {
    assert (rows + [row])[..|rows|] == rows;
  }

  /** Ensuring the table is idempotent and never changes the rows of an existing table. */
  lemma CreateTableIdempotent(s: Store)
    ensures CreateTableIfNotExists(CreateTableIfNotExists(s)) == CreateTableIfNotExists(s)
    ensures s.Table? ==> Rows(CreateTableIfNotExists(s)) == s.rows
  {
  }
}
