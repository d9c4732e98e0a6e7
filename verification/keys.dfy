/** The cache key of the embedding layer (`EmbeddingKey` in src/operations.py). */
module Keys {

  /** Identity of one embedding: the text that was embedded and the model that embedded it.
      Both fields are compared exactly, with no normalisation. */
  datatype Key = Key(text: string, model: string)

  /** Any value a key can be compared with: another key, a `(text, model)` tuple,
      or some other object (told apart from the rest only by an opaque tag). */
  datatype Value =
    | KeyValue(key: Key)
    | PairValue(first: string, second: string)
    | OtherValue(tag: nat)

  /** `EmbeddingKey.__eq__`: field-wise comparison against another key, false for
      anything that is not a key (a tuple with the same fields included).
      The contract says this is exactly structural equality, which is what lets
      the rest of the model use keys as `map` keys. */
  function KeyEquals(self: Key, other: Value): (eq: bool)
    ensures eq <==> other == KeyValue(self)
    ensures !other.KeyValue? ==> !eq
  {
    match other
    case KeyValue(k) => self.text == k.text && self.model == k.model
    case _ => false
  }

  /** `EmbeddingKey.__hash__`: the hash of the pair `(text, model)`.
      Python's tuple hash is not modelled; it is the parameter `tupleHash`. */
  function KeyHash(k: Key, tupleHash: (string, string) -> int): int
  {
    tupleHash(k.text, k.model)
  }

  /** Key equality is an equivalence relation. */
  lemma KeyEqualsIsEquivalence(a: Key, b: Key, c: Key)
    ensures KeyEquals(a, KeyValue(a))
    ensures KeyEquals(a, KeyValue(b)) <==> KeyEquals(b, KeyValue(a))
    ensures KeyEquals(a, KeyValue(b)) && KeyEquals(b, KeyValue(c)) ==> KeyEquals(a, KeyValue(c))
  {
  }

  /** Hashing is consistent with equality: equal keys hash equally, whatever the tuple hash is. */
  lemma EqualKeysHashEqually(a: Key, b: Key, tupleHash: (string, string) -> int)
    requires KeyEquals(a, KeyValue(b))
    ensures KeyHash(a, tupleHash) == KeyHash(b, tupleHash)
  {
  }

  /** `__eq__` and `__hash__` restated for the tuple of a key's own fields: the two share
      a hash but are not equal, so a dictionary treats them as different keys (see
      `PickleCache.KeyAndTupleAreTwoEntries`). */
  lemma KeyIsNotItsTuple(k: Key, tupleHash: (string, string) -> int)
    ensures !KeyEquals(k, PairValue(k.text, k.model))
    ensures KeyHash(k, tupleHash) == tupleHash(k.text, k.model)
  {
  }
}
