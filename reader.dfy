/**
 * `getValuesFromUri`: the state read from the query. It starts from a copy of
 * the defaults and, key by key, lets a decoded query value replace the default
 * unless the key's equality says it is the default. A decoder that throws
 * ends the reading: the values gathered so far are the result.
 */
module Reader {
  import opened Optional
  import opened UrlSearchParams
  import opened KeySpecs

  /** What the query holds for one managed key. */
  datatype Found<T> = Missing | Failed | Decoded(value: T)

  /** Looking one managed key up in the query and decoding its first value. */
  function Find<T>(k: KeySpec<T>, q: seq<Pair>): (f: Found<T>)
    ensures f.Missing? <==> !Has(q, k.uriKey)
    ensures f.Failed? <==> Has(q, k.uriKey) && k.fromUri(Get(q, k.uriKey).value).None?
    ensures f.Decoded? ==> Has(q, k.uriKey) && k.fromUri(Get(q, k.uriKey).value) == Some(f.value)
  {
    if !Has(q, k.uriKey) then Missing
    else match k.fromUri(Get(q, k.uriKey).value)
      case None => Failed
      case Some(v) => Decoded(v)
  }

  /** The key takes its decoded query value: one was found and it is not equal to the default. */
  predicate Overrides<T>(k: KeySpec<T>, defaults: map<string, T>, q: seq<Pair>)
  {
    Find(k, q).Decoded? && !k.equals(Some(Find(k, q).value), Lookup(defaults, k.key))
  }

  /** The loop of a read, from `values` onwards over the remaining keys. */
  function ReadFrom<T>(keys: seq<KeySpec<T>>, defaults: map<string, T>, q: seq<Pair>, values: map<string, T>)
    : map<string, T>
  {
    if keys == [] then values
    else
      var k := keys[0];
      match Find(k, q)
      case Missing => ReadFrom(keys[1..], defaults, q, values)
      case Failed => values
      case Decoded(v) =>
        ReadFrom(keys[1..], defaults, q,
                 if k.equals(Some(v), Lookup(defaults, k.key)) then values else values[k.key := v])
  }

  /** The state a read returns. */
  function Read<T>(keys: seq<KeySpec<T>>, defaults: map<string, T>, q: seq<Pair>): map<string, T>
  {
    ReadFrom(keys, defaults, q, defaults)
  }

  /** `getValuesFromUri(stateKeys, defaults)` against the current query `search`. */
  method GetValuesFromUri<T(==)>(stateKeys: KeysInput<T>, c: Coercion<T>, defaults: map<string, T>,
                                 search: seq<Pair>)
    returns (values: map<string, T>)
    ensures values == Read(NormalizeKeys(stateKeys, c), defaults, search)
  {
    values := defaults;
    var params := search;
    var keys := NormalizeKeys(stateKeys, c);
    var i := 0;
    while i < |keys|
      invariant 0 <= i <= |keys|
      invariant ReadFrom(keys[i..], defaults, params, values) == Read(keys, defaults, params)
    {
      var k := keys[i];
      assert keys[i..][0] == k && keys[i..][1..] == keys[i + 1..];
      if Has(params, k.uriKey) {
        var value := k.fromUri(Get(params, k.uriKey).value);
        if value.None? {
          // the decoder threw: the values gathered so far are returned
          return;
        }
        if !k.equals(value, Lookup(defaults, k.key)) {
          values := values[k.key := value.value];
        }
      }
      i := i + 1;
    }
  }

  /** Keys no descriptor names keep what they had: a read leaves them to the defaults. */
  lemma {:induction false} ReadFromUntouched<T>(keys: seq<KeySpec<T>>, defaults: map<string, T>, q: seq<Pair>,
                                               values: map<string, T>, name: string)
    requires forall i :: 0 <= i < |keys| ==> keys[i].key != name
    ensures Lookup(ReadFrom(keys, defaults, q, values), name) == Lookup(values, name)
  {
    if keys != [] {
      var k := keys[0];
      match Find(k, q)
      case Missing => ReadFromUntouched(keys[1..], defaults, q, values, name);
      case Failed =>
      case Decoded(v) =>
        var next := if k.equals(Some(v), Lookup(defaults, k.key)) then values else values[k.key := v];
        ReadFromUntouched(keys[1..], defaults, q, next, name);
    }
  }

  /** A read never drops a key: every key of the values it starts from is still there. */
  lemma {:induction false} ReadFromKeepsKeys<T>(keys: seq<KeySpec<T>>, defaults: map<string, T>, q: seq<Pair>,
                                               values: map<string, T>)
    ensures values.Keys <= ReadFrom(keys, defaults, q, values).Keys
  {
    if keys != [] {
      var k := keys[0];
      match Find(k, q)
      case Missing => ReadFromKeepsKeys(keys[1..], defaults, q, values);
      case Failed =>
      case Decoded(v) =>
        var next := if k.equals(Some(v), Lookup(defaults, k.key)) then values else values[k.key := v];
        ReadFromKeepsKeys(keys[1..], defaults, q, next);
    }
  }

  /** Every key of the defaults is in the result of a read, whatever the query holds. */
  lemma ReadKeepsDefaults<T>(keys: seq<KeySpec<T>>, defaults: map<string, T>, q: seq<Pair>)
    ensures defaults.Keys <= Read(keys, defaults, q).Keys
  {
    ReadFromKeepsKeys(keys, defaults, q, defaults);
  }

  /** A state key that is not managed reads as its default (present or absent alike). */
  lemma ReadPassesThrough<T>(keys: seq<KeySpec<T>>, defaults: map<string, T>, q: seq<Pair>, name: string)
    requires forall i :: 0 <= i < |keys| ==> keys[i].key != name
    ensures Lookup(Read(keys, defaults, q), name) == Lookup(defaults, name)
  {
    ReadFromUntouched(keys, defaults, q, defaults, name);
  }

  /** With no decoder throwing, a managed key ends up overridden exactly when `Overrides` says so. */
  lemma {:induction false} ReadFromAt<T>(keys: seq<KeySpec<T>>, defaults: map<string, T>, q: seq<Pair>,
                                        values: map<string, T>, i: nat)
    requires DistinctKeys(keys)
    requires forall j :: 0 <= j < |keys| ==> !Find(keys[j], q).Failed?
    requires i < |keys|
    ensures Lookup(ReadFrom(keys, defaults, q, values), keys[i].key)
         == if Overrides(keys[i], defaults, q) then Some(Find(keys[i], q).value) else Lookup(values, keys[i].key)
  {
    var k := keys[0];
    var next := if Overrides(k, defaults, q) then values[k.key := Find(k, q).value] else values;
    assert ReadFrom(keys, defaults, q, values) == ReadFrom(keys[1..], defaults, q, next);
    if i == 0 {
      ReadFromUntouched(keys[1..], defaults, q, next, k.key);
    } else {
      ReadFromAt(keys[1..], defaults, q, next, i - 1);
    }
  }

  /**
   * The state a read returns for a managed key (no two keys sharing a name,
   * no decoder throwing): the decoded query value when the query has the key
   * and the value is not equal to the default, otherwise the default.
   */
  lemma ReadManagedKey<T>(keys: seq<KeySpec<T>>, defaults: map<string, T>, q: seq<Pair>, i: nat)
    requires DistinctKeys(keys)
    requires forall j :: 0 <= j < |keys| ==> !Find(keys[j], q).Failed?
    requires i < |keys|
    ensures var k := keys[i];
            && (Overrides(k, defaults, q) ==> Lookup(Read(keys, defaults, q), k.key) == Some(Find(k, q).value))
            && (!Overrides(k, defaults, q) ==> Lookup(Read(keys, defaults, q), k.key) == Lookup(defaults, k.key))
  {
    ReadFromAt(keys, defaults, q, defaults, i);
  }

  /** A read whose query has none of the managed query names returns the defaults. */
  lemma {:induction false} ReadFromBare<T>(keys: seq<KeySpec<T>>, defaults: map<string, T>, q: seq<Pair>,
                                          values: map<string, T>)
    requires forall i :: 0 <= i < |keys| ==> !Has(q, keys[i].uriKey)
    ensures ReadFrom(keys, defaults, q, values) == values
  {
    if keys != [] {
      ReadFromBare(keys[1..], defaults, q, values);
    }
  }

  lemma ReadBareQuery<T>(keys: seq<KeySpec<T>>, defaults: map<string, T>, q: seq<Pair>)
    requires forall i :: 0 <= i < |keys| ==> !Has(q, keys[i].uriKey)
    ensures Read(keys, defaults, q) == defaults
  {
    ReadFromBare(keys, defaults, q, defaults);
  }

  /** A decoder that throws at key `j` ends the read there: the result is the read of the keys before it. */
  lemma {:induction false} ReadFromStops<T>(keys: seq<KeySpec<T>>, defaults: map<string, T>, q: seq<Pair>,
                                           values: map<string, T>, j: nat)
    requires j < |keys| && Find(keys[j], q).Failed?
    requires forall i :: 0 <= i < j ==> !Find(keys[i], q).Failed?
    ensures ReadFrom(keys, defaults, q, values) == ReadFrom(keys[..j], defaults, q, values)
  {
    if j > 0 {
      var k := keys[0];
      var next := if Overrides(k, defaults, q) then values[k.key := Find(k, q).value] else values;
      assert keys[..j][0] == k && keys[..j][1..] == keys[1..][..j - 1];
      ReadFromStops(keys[1..], defaults, q, next, j - 1);
    }
  }

  lemma ReadStopsAtFailure<T>(keys: seq<KeySpec<T>>, defaults: map<string, T>, q: seq<Pair>, j: nat)
    requires j < |keys| && Find(keys[j], q).Failed?
    requires forall i :: 0 <= i < j ==> !Find(keys[i], q).Failed?
    ensures Read(keys, defaults, q) == Read(keys[..j], defaults, q)
  {
    ReadFromStops(keys, defaults, q, defaults, j);
  }
}
