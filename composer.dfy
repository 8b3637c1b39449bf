/**
 * `stateToUri`: a getter and a setter bound to one initial state and one set
 * of managed keys, and what reading after writing gives back.
 */
module Composer {
  import opened Optional
  import opened UrlSearchParams
  import opened KeySpecs
  import opened Reader
  import opened Writer

  /**
   * What `stateToUri` closes over: the managed keys and the initial state
   * (which doubles as the defaults of every read and write).
   */
  datatype Adapter<!T> = Adapter(stateKeys: KeysInput<T>, initialState: map<string, T>, coercion: Coercion<T>)

  /**
   * `stateToUri(initialState, stateKeys)`. A missing `stateKeys` falls back to
   * the names of the initial state, listed in `objectKeys` (`Object.keys`
   * order); any given input, an empty list included, is kept.
   */
  function StateToUri<T>(initialState: map<string, T>, objectKeys: seq<string>, stateKeys: Option<KeysInput<T>>,
                         c: Coercion<T>): (a: Adapter<T>)
    requires stateKeys.None? ==> ListsKeysOf(objectKeys, initialState)
    ensures a.initialState == initialState && a.coercion == c
    ensures stateKeys.Some? ==> a.stateKeys == stateKeys.value
    ensures stateKeys.None? ==> a.stateKeys.KeyList? && a.stateKeys.names == objectKeys
    ensures stateKeys.None? ==> forall name :: name in initialState <==> name in a.stateKeys.names
  {
    Adapter(if stateKeys.Some? then stateKeys.value else KeyList(objectKeys), initialState, c)
  }

  /** `objectKeys` lists the names of `state` once each. */
  predicate ListsKeysOf<T>(objectKeys: seq<string>, state: map<string, T>)
  {
    && (forall i, j :: 0 <= i < j < |objectKeys| ==> objectKeys[i] != objectKeys[j])
    && state.Keys == set i | 0 <= i < |objectKeys| :: objectKeys[i]
  }

  /** The getter: a read with the initial state as defaults. */
  method Get<T(==)>(a: Adapter<T>, search: seq<Pair>) returns (values: map<string, T>)
    ensures values == Read(NormalizeKeys(a.stateKeys, a.coercion), a.initialState, search)
  {
    values := GetValuesFromUri(a.stateKeys, a.coercion, a.initialState, search);
  }

  /** The setter: a write of `state` with the initial state as defaults; returns the committed query. */
  method Set<T(==)>(a: Adapter<T>, state: map<string, T>, search: seq<Pair>) returns (committed: seq<Pair>)
    ensures committed == Write(NormalizeKeys(a.stateKeys, a.coercion), state, a.initialState, search)
  {
    committed := SetValuesToUri(a.stateKeys, a.coercion, state, a.initialState, search);
  }

  // ---------------------------------------------------------------------------
  // Reading back what was written.

  /** A key whose written text decodes back to its (present) value. */
  ghost predicate Recoverable<T>(k: KeySpec<T>, values: map<string, T>, defaults: map<string, T>)
  {
    Decision(k, values, defaults).Some? ==>
      Lookup(values, k.key).Some? && k.fromUri(Decision(k, values, defaults).value) == Lookup(values, k.key)
  }

  /** After a write, no managed key fails to decode, and each one set decodes to its value. */
  lemma FoundAfterWrite<T>(keys: seq<KeySpec<T>>, values: map<string, T>, defaults: map<string, T>, q: seq<Pair>,
                           j: nat)
    requires DistinctUriKeys(keys) && j < |keys| && Recoverable(keys[j], values, defaults)
    ensures var f := Find(keys[j], Write(keys, values, defaults, q));
            && (Decision(keys[j], values, defaults).None? ==> f.Missing?)
            && (Decision(keys[j], values, defaults).Some? ==> f.Decoded? && Some(f.value) == Lookup(values, keys[j].key))
  {
    if Decision(keys[j], values, defaults).None? {
      WriteElides(keys, values, defaults, q, j);
    } else {
      WriteSetsOnce(keys, values, defaults, q, j);
    }
  }

  /**
   * Reading what was just written: a managed key reads back as the value
   * written, unless its comparator found that value equal to the default,
   * in which case it reads back as the default.
   */
  lemma ReadAfterWrite<T>(keys: seq<KeySpec<T>>, values: map<string, T>, defaults: map<string, T>, q: seq<Pair>,
                          i: nat)
    requires DistinctKeys(keys) && DistinctUriKeys(keys) && i < |keys|
    requires forall j :: 0 <= j < |keys| ==> Recoverable(keys[j], values, defaults)
    ensures var k := keys[i];
            Lookup(Read(keys, defaults, Write(keys, values, defaults, q)), k.key)
            == if k.equals(Lookup(values, k.key), Lookup(defaults, k.key)) then Lookup(defaults, k.key)
               else Lookup(values, k.key)
  {
    var r := Write(keys, values, defaults, q);
    forall j | 0 <= j < |keys| ensures !Find(keys[j], r).Failed? {
      FoundAfterWrite(keys, values, defaults, q, j);
    }
    FoundAfterWrite(keys, values, defaults, q, i);
    ReadManagedKey(keys, defaults, r, i);
  }

  // ---------------------------------------------------------------------------
  // The adapter built from the initial state's own names.

  /** The identity codecs lose nothing: writing a value and reading the text back gives the value. */
  ghost predicate Lossless<T(!new)>(c: Coercion<T>)
  {
    forall v: T :: c.ofString(c.show(Some(v))) == v
  }

  lemma StringsLossless()
    ensures Lossless(StringCoercion())
  {
  }

  /** The query names the default adapter manages are the initial state's names. */
  lemma ListUriKeys<T>(initialState: map<string, T>, objectKeys: seq<string>, c: Coercion<T>)
    requires ListsKeysOf(objectKeys, initialState)
    ensures var a := StateToUri(initialState, objectKeys, None, c);
            UriKeys(NormalizeKeys(a.stateKeys, c)) == initialState.Keys
  {
  }

  /** With no query name of the initial state present, the getter returns the initial state. */
  lemma GetBareIsInitial<T>(initialState: map<string, T>, objectKeys: seq<string>, c: Coercion<T>,
                                search: seq<Pair>)
    requires ListsKeysOf(objectKeys, initialState)
    requires forall name :: name in initialState ==> !Has(search, name)
    ensures var a := StateToUri(initialState, objectKeys, None, c);
            Read(NormalizeKeys(a.stateKeys, c), initialState, search) == initialState
  {
    var keys := NormalizeKeys(KeyList(objectKeys), c);
    forall i | 0 <= i < |keys| ensures !Has(search, keys[i].uriKey) {
      assert keys[i].uriKey == objectKeys[i] && objectKeys[i] in initialState;
    }
    ReadBareQuery(keys, initialState, search);
  }

  /** Setting the initial state removes every pair the adapter manages and keeps all others. */
  lemma SetInitialResets<T>(initialState: map<string, T>, objectKeys: seq<string>, c: Coercion<T>,
                                search: seq<Pair>)
    requires ListsKeysOf(objectKeys, initialState)
    ensures var a := StateToUri(initialState, objectKeys, None, c);
            Write(NormalizeKeys(a.stateKeys, c), initialState, initialState, search)
            == Without(search, initialState.Keys)
  {
    var keys := NormalizeKeys(KeyList(objectKeys), c);
    WriteDefaultsClears(keys, initialState, search);
    ListUriKeys(initialState, objectKeys, c);
  }

  /** Setting a state that gives every managed name a value, then getting, returns those values. */
  lemma SetThenGet<T(!new)>(initialState: map<string, T>, objectKeys: seq<string>, c: Coercion<T>,
                          state: map<string, T>, search: seq<Pair>, name: string)
    requires ListsKeysOf(objectKeys, initialState) && Lossless(c)
    requires forall n :: n in objectKeys ==> n in state
    requires name in objectKeys
    ensures var a := StateToUri(initialState, objectKeys, None, c);
            var keys := NormalizeKeys(a.stateKeys, c);
            Lookup(Read(keys, initialState, Write(keys, state, initialState, search)), name) == Some(state[name])
  {
    var keys := NormalizeKeys(KeyList(objectKeys), c);
    ListDistinct(objectKeys, c);
    forall j | 0 <= j < |keys| ensures Recoverable(keys[j], state, initialState) {
      assert keys[j].key == objectKeys[j];
    }
    var i :| 0 <= i < |objectKeys| && objectKeys[i] == name;
    ReadAfterWrite(keys, state, initialState, search, i);
  }

  /** Setting the same state twice commits the same query as setting it once. */
  lemma SetIdempotent<T>(a: Adapter<T>, state: map<string, T>, search: seq<Pair>)
    requires DistinctUriKeys(NormalizeKeys(a.stateKeys, a.coercion))
    ensures var keys := NormalizeKeys(a.stateKeys, a.coercion);
            var once := Write(keys, state, a.initialState, search);
            Write(keys, state, a.initialState, once) == once
  {
    WriteIdempotent(NormalizeKeys(a.stateKeys, a.coercion), state, a.initialState, search);
  }
}
