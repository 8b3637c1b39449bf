/**
 * `setValuesToUri`: the query after a write. Key by key, the query name of a
 * key whose value equals its default is deleted, and any other key's query
 * name is set to the encoded value; pairs with other names pass through.
 */
module Writer {
  import opened Optional
  import opened UrlSearchParams
  import opened KeySpecs
  import opened QueryEdit

  /** What a write does with one managed key: None deletes its query name, Some(text) sets it to `text`. */
  function Decision<T>(k: KeySpec<T>, values: map<string, T>, defaults: map<string, T>): Option<string>
  {
    var value := Lookup(values, k.key);
    if k.equals(value, Lookup(defaults, k.key)) then None else Some(k.toUri(value))
  }

  /**
   * The changes a write makes to the query, one per key, in key order: the
   * key's query name is deleted when its value equals its default by the key's
   * comparator, and set to the encoded value otherwise.
   */
  function PlanOf<T>(keys: seq<KeySpec<T>>, values: map<string, T>, defaults: map<string, T>): (p: Plan)
    ensures |p| == |keys|
    ensures forall i :: 0 <= i < |keys| ==>
              && p[i].0 == keys[i].uriKey
              && (p[i].1.None? <==> keys[i].equals(Lookup(values, keys[i].key), Lookup(defaults, keys[i].key)))
              && (p[i].1.Some? ==> p[i].1.value == keys[i].toUri(Lookup(values, keys[i].key)))
  {
    seq(|keys|, i requires 0 <= i < |keys| => (keys[i].uriKey, Decision(keys[i], values, defaults)))
  }

  /** The query a write commits: the keys' changes made in order to the current pairs. */
  function Write<T>(keys: seq<KeySpec<T>>, values: map<string, T>, defaults: map<string, T>, q: seq<Pair>)
    : seq<Pair>
  {
    Apply(PlanOf(keys, values, defaults), q)
  }

  /** `setValuesToUri(stateKeys, values, defaults)` against the current query `search`; returns the committed query. */
  method SetValuesToUri<T(==)>(stateKeys: KeysInput<T>, c: Coercion<T>, values: map<string, T>,
                               defaults: map<string, T>, search: seq<Pair>)
    returns (committed: seq<Pair>)
    ensures committed == Write(NormalizeKeys(stateKeys, c), values, defaults, search)
  {
    var params := new SearchParams(search);
    var keys := NormalizeKeys(stateKeys, c);
    ghost var plan := PlanOf(keys, values, defaults);
    for i := 0 to |keys|
      invariant Apply(plan[i..], params.pairs) == Apply(plan, search)
    {
      var k := keys[i];
      assert plan[i..][0] == plan[i] && plan[i..][1..] == plan[i + 1..];
      var value := Lookup(values, k.key);
      var defaultValue := Lookup(defaults, k.key);
      if k.equals(value, defaultValue) {
        params.Delete(k.uriKey);
      } else {
        params.Set(k.uriKey, k.toUri(value));
      }
    }
    committed := params.pairs;
  }

  // ---------------------------------------------------------------------------
  // The plan of a write.

  /** The plan changes exactly the managed query names, each once when they are distinct. */
  lemma PlanNames<T>(keys: seq<KeySpec<T>>, values: map<string, T>, defaults: map<string, T>)
    ensures Names(PlanOf(keys, values, defaults)) == UriKeys(keys)
    ensures DistinctUriKeys(keys) ==> DistinctNames(PlanOf(keys, values, defaults))
  {
  }

  /** Values that agree on every managed key make the same plan. */
  lemma PlanIgnoresOtherKeys<T>(keys: seq<KeySpec<T>>, v1: map<string, T>, v2: map<string, T>,
                                defaults: map<string, T>)
    requires forall i :: 0 <= i < |keys| ==> Lookup(v1, keys[i].key) == Lookup(v2, keys[i].key)
    ensures PlanOf(keys, v1, defaults) == PlanOf(keys, v2, defaults)
  {
  }

  // ---------------------------------------------------------------------------
  // What a write guarantees.

  /** A key whose value equals its default (by the key's comparator) leaves no pair under its query name. */
  lemma WriteElides<T>(keys: seq<KeySpec<T>>, values: map<string, T>, defaults: map<string, T>, q: seq<Pair>, i: nat)
    requires DistinctUriKeys(keys) && i < |keys|
    requires keys[i].equals(Lookup(values, keys[i].key), Lookup(defaults, keys[i].key))
    ensures !Has(Write(keys, values, defaults, q), keys[i].uriKey)
  {
    PlanNames(keys, values, defaults);
    ApplyDeletes(PlanOf(keys, values, defaults), q, i);
  }

  /** Any other key leaves exactly one pair under its query name, holding its encoded value. */
  lemma WriteSetsOnce<T>(keys: seq<KeySpec<T>>, values: map<string, T>, defaults: map<string, T>, q: seq<Pair>,
                         i: nat)
    requires DistinctUriKeys(keys) && i < |keys|
    requires !keys[i].equals(Lookup(values, keys[i].key), Lookup(defaults, keys[i].key))
    ensures Count(Write(keys, values, defaults, q), keys[i].uriKey) == 1
    ensures Get(Write(keys, values, defaults, q), keys[i].uriKey)
         == Some(keys[i].toUri(Lookup(values, keys[i].key)))
  {
    PlanNames(keys, values, defaults);
    ApplySetsOnce(PlanOf(keys, values, defaults), q, i, keys[i].toUri(Lookup(values, keys[i].key)));
  }

  /**
   * A key set under a query name the query already had keeps the place of
   * that name's first pair: what precedes it is what the write makes of the
   * pairs that preceded it.
   */
  lemma WriteKeepsPosition<T>(keys: seq<KeySpec<T>>, values: map<string, T>, defaults: map<string, T>,
                              q: seq<Pair>, i: nat)
    requires DistinctUriKeys(keys) && i < |keys|
    requires !keys[i].equals(Lookup(values, keys[i].key), Lookup(defaults, keys[i].key))
    requires Has(q, keys[i].uriKey)
    ensures var r := Write(keys, values, defaults, q);
            var pre := Edit(q[..IndexOf(q, keys[i].uriKey)], Decisions(PlanOf(keys, values, defaults)));
            && |pre| < |r| && IndexOf(r, keys[i].uriKey) == |pre| && r[..|pre|] == pre
            && r[|pre|] == (keys[i].uriKey, keys[i].toUri(Lookup(values, keys[i].key)))
  {
    PlanNames(keys, values, defaults);
    ApplyReplacesInPlace(PlanOf(keys, values, defaults), q, i, keys[i].toUri(Lookup(values, keys[i].key)));
  }

  /**
   * A key set under a query name the query lacked is appended: after every
   * pair the write keeps, and after the pairs appended for earlier keys.
   */
  lemma WriteAppendsInKeyOrder<T>(keys: seq<KeySpec<T>>, values: map<string, T>, defaults: map<string, T>,
                                  q: seq<Pair>, i: nat)
    requires DistinctUriKeys(keys) && i < |keys|
    requires !keys[i].equals(Lookup(values, keys[i].key), Lookup(defaults, keys[i].key))
    requires !Has(q, keys[i].uriKey)
    ensures var p := PlanOf(keys, values, defaults);
            var r := Write(keys, values, defaults, q);
            var pre := Edit(q, Decisions(p)) + Appended(p[..i], q);
            && |pre| < |r| && IndexOf(r, keys[i].uriKey) == |pre| && r[..|pre|] == pre
            && r[|pre|] == (keys[i].uriKey, keys[i].toUri(Lookup(values, keys[i].key)))
  {
    PlanNames(keys, values, defaults);
    ApplyAppendsInOrder(PlanOf(keys, values, defaults), q, i, keys[i].toUri(Lookup(values, keys[i].key)));
  }

  /** Pairs under query names no key manages stay, in their order, duplicates included. */
  lemma WritePassesThrough<T>(keys: seq<KeySpec<T>>, values: map<string, T>, defaults: map<string, T>, q: seq<Pair>)
    ensures Without(Write(keys, values, defaults, q), UriKeys(keys)) == Without(q, UriKeys(keys))
  {
    PlanNames(keys, values, defaults);
    ApplyPassesThrough(PlanOf(keys, values, defaults), q, UriKeys(keys));
  }

  /** Only the values of managed keys matter to a write. */
  lemma WriteIgnoresUnmanagedValues<T>(keys: seq<KeySpec<T>>, v1: map<string, T>, v2: map<string, T>,
                                       defaults: map<string, T>, q: seq<Pair>)
    requires forall i :: 0 <= i < |keys| ==> Lookup(v1, keys[i].key) == Lookup(v2, keys[i].key)
    ensures Write(keys, v1, defaults, q) == Write(keys, v2, defaults, q)
  {
    PlanIgnoresOtherKeys(keys, v1, v2, defaults);
  }

  /** Writing the same values twice commits the same query as writing them once. */
  lemma WriteIdempotent<T>(keys: seq<KeySpec<T>>, values: map<string, T>, defaults: map<string, T>, q: seq<Pair>)
    requires DistinctUriKeys(keys)
    ensures Write(keys, values, defaults, Write(keys, values, defaults, q)) == Write(keys, values, defaults, q)
  {
    PlanNames(keys, values, defaults);
    ApplyIdempotent(PlanOf(keys, values, defaults), q);
  }

  /** Writing the defaults themselves clears every managed name and keeps everything else. */
  lemma WriteDefaultsClears<T>(keys: seq<KeySpec<T>>, defaults: map<string, T>, q: seq<Pair>)
    requires forall i :: 0 <= i < |keys| ==>
               keys[i].equals(Lookup(defaults, keys[i].key), Lookup(defaults, keys[i].key))
    ensures Write(keys, defaults, defaults, q) == Without(q, UriKeys(keys))
  {
    PlanNames(keys, defaults, defaults);
    ApplyOnlyDeletes(PlanOf(keys, defaults, defaults), q);
  }
}
