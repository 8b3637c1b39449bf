/**
 * Managed state keys: the uniform descriptor a read or a write works from, and
 * the normalizer that builds descriptors from either input shape the caller
 * may give (a list of names, or a map from name to per-key options).
 */
module KeySpecs {
  import opened Optional

  /**
   * What JavaScript's own conversions amount to in the value type `T`: a query
   * value taken as it is (the identity `fromUri`) is the string itself, seen as
   * a value through `ofString`; `URLSearchParams.set` turns whatever the
   * identity `toUri` hands it into text through `show` (so an absent value,
   * `undefined`, is written as the text "undefined"). `ofString` is the plain
   * injection of a text into `T` and never parses it: the identity decoder
   * returns the query's string unchanged.
   */
  datatype Coercion<!T> = Coercion(ofString: string -> T, show: Option<T> -> string)

  /** The coercions for string-valued state, where the identity codecs are exact. */
  function StringCoercion(): Coercion<string>
  {
    Coercion(s => s, (o: Option<string>) => match o case Some(s) => s case None => "undefined")
  }

  /**
   * One managed key: its name in the state object, its name in the query, the
   * decoder (None stands for a decoder that throws), the encoder, and the
   * equality that decides whether a value is its default. Values are
   * Option<T> because a state object may lack the key (`undefined`).
   */
  datatype KeySpec<!T> = KeySpec(
    key: string,
    uriKey: string,
    fromUri: string -> Option<T>,
    toUri: Option<T> -> string,
    equals: (Option<T>, Option<T>) -> bool)

  /** The per-key options of the map input shape; every field may be missing. */
  datatype KeyOptions<!T> = KeyOptions(
    uriKey: Option<string>,
    fromUri: Option<string -> Option<T>>,
    toUri: Option<Option<T> -> string>,
    comparator: Option<(Option<T>, Option<T>) -> bool>)

  /** The two input shapes: a list of names, or a map from name to options in enumeration order. */
  datatype KeysInput<!T> =
    | KeyList(names: seq<string>)
    | KeyOptionsMap(entries: seq<(string, KeyOptions<T>)>)

  /** The identity decoder: the query text itself, as a value. */
  function IdentityFromUri<T>(c: Coercion<T>): string -> Option<T>
  {
    s => Some(c.ofString(s))
  }

  /** `Object.is`: two values are the same value. */
  function SameValue<T(==)>(): (Option<T>, Option<T>) -> bool
  {
    (a: Option<T>, b: Option<T>) => a == b
  }

  /** The state-object names an input manages, in order. */
  function KeyNames<T>(input: KeysInput<T>): (names: seq<string>)
    ensures input.KeyList? ==> names == input.names
    ensures input.KeyOptionsMap? ==> |names| == |input.entries|
                                     && forall i :: 0 <= i < |names| ==> names[i] == input.entries[i].0
  {
    match input
    case KeyList(names) => names
    case KeyOptionsMap(entries) => seq(|entries|, i requires 0 <= i < |entries| => entries[i].0)
  }

  /** The descriptor one entry of the map shape gets: each missing (or empty) option falls back to its default. */
  function FromOptions<T(==)>(key: string, o: KeyOptions<T>, c: Coercion<T>): KeySpec<T>
  {
    KeySpec(
      key,
      if o.uriKey.Some? && o.uriKey.value != "" then o.uriKey.value else key,
      if o.fromUri.Some? then o.fromUri.value else IdentityFromUri(c),
      if o.toUri.Some? then o.toUri.value else c.show,
      if o.comparator.Some? then o.comparator.value else SameValue())
  }

  /** `normalizeKeys`: one descriptor per input name, in input order. */
  function NormalizeKeys<T(==)>(input: KeysInput<T>, c: Coercion<T>): (specs: seq<KeySpec<T>>)
    ensures |specs| == |KeyNames(input)|
    ensures forall i :: 0 <= i < |specs| ==> specs[i].key == KeyNames(input)[i]
    ensures input.KeyList? ==>
              forall i :: 0 <= i < |specs| ==>
                && specs[i].uriKey == specs[i].key
                && specs[i].fromUri == IdentityFromUri(c)
                && specs[i].toUri == c.show
                && specs[i].equals == SameValue()
    ensures input.KeyOptionsMap? ==>
              forall i :: 0 <= i < |specs| ==>
                var o := input.entries[i].1;
                && (o.uriKey.Some? && o.uriKey.value != "" ==> specs[i].uriKey == o.uriKey.value)
                && (o.uriKey.None? || o.uriKey.value == "" ==> specs[i].uriKey == specs[i].key)
                && (o.fromUri.Some? ==> specs[i].fromUri == o.fromUri.value)
                && (o.fromUri.None? ==> specs[i].fromUri == IdentityFromUri(c))
                && (o.toUri.Some? ==> specs[i].toUri == o.toUri.value)
                && (o.toUri.None? ==> specs[i].toUri == c.show)
                && (o.comparator.Some? ==> specs[i].equals == o.comparator.value)
                && (o.comparator.None? ==> specs[i].equals == SameValue())
  {
    match input
    case KeyList(names) =>
      seq(|names|, i requires 0 <= i < |names| =>
        KeySpec(names[i], names[i], IdentityFromUri(c), c.show, SameValue()))
    case KeyOptionsMap(entries) =>
      seq(|entries|, i requires 0 <= i < |entries| => FromOptions(entries[i].0, entries[i].1, c))
  }

  /** No two descriptors share a state-object name. */
  predicate DistinctKeys<T>(keys: seq<KeySpec<T>>)
  {
    forall i, j :: 0 <= i < j < |keys| ==> keys[i].key != keys[j].key
  }

  /** No two descriptors share a query name. */
  predicate DistinctUriKeys<T>(keys: seq<KeySpec<T>>)
  {
    forall i, j :: 0 <= i < j < |keys| ==> keys[i].uriKey != keys[j].uriKey
  }

  /** The query names the descriptors manage. */
  function UriKeys<T>(keys: seq<KeySpec<T>>): (names: set<string>)
    ensures forall i :: 0 <= i < |keys| ==> keys[i].uriKey in names
  {
    set i | 0 <= i < |keys| :: keys[i].uriKey
  }

  /** The options record with every field missing. */
  function NoOptions<T>(): KeyOptions<T>
  {
    KeyOptions(None, None, None, None)
  }

  /** A list of names normalizes exactly as a map giving each name no options. */
  lemma ListIsMapWithoutOptions<T>(names: seq<string>, c: Coercion<T>)
    ensures NormalizeKeys(KeyList(names), c)
         == NormalizeKeys(KeyOptionsMap(seq(|names|, i requires 0 <= i < |names| => (names[i], NoOptions()))), c)
  {
    var entries := seq(|names|, i requires 0 <= i < |names| => (names[i], NoOptions<T>()));
    var fromList, fromMap := NormalizeKeys(KeyList(names), c), NormalizeKeys(KeyOptionsMap(entries), c);
    forall i | 0 <= i < |names|
      ensures fromList[i] == fromMap[i]
    {
      assert fromMap[i] == FromOptions(names[i], NoOptions(), c);
    }
  }

  /** Distinct names in a list give descriptors with distinct state and query names. */
  lemma ListDistinct<T>(names: seq<string>, c: Coercion<T>)
    requires forall i, j :: 0 <= i < j < |names| ==> names[i] != names[j]
    ensures DistinctKeys(NormalizeKeys(KeyList(names), c))
    ensures DistinctUriKeys(NormalizeKeys(KeyList(names), c))
  {
  }
}
