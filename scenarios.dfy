/** The behaviours the repository's tests exercise, worked out on their own inputs with string state. */
module Scenarios {
  import opened Optional
  import opened UrlSearchParams
  import opened QueryEdit
  import opened KeySpecs
  import opened Reader
  import opened Writer
  import opened Composer

  /** Keys given as a list of names, with string values. */
  function Keys(names: seq<string>): seq<KeySpec<string>>
  {
    NormalizeKeys(KeyList(names), StringCoercion())
  }

  /** The change the write of the unset-defaults test plans for each key. */
  lemma UnsetsDefaultsPlan()
    ensures PlanOf(Keys(["donk", "jang", "blutz"]),
                   map["donk" := "dink", "jang" := "prung", "blutz" := "qyes", "kloogh" := "erop"],
                   map["donk" := "dink", "jang" := "karoo", "blutz" := "yuam"])
         == [("donk", None), ("jang", Some("prung")), ("blutz", Some("qyes"))]
  {
  }

  /** A key whose value equals its default is deleted; the others are set in place or appended in key order. */
  lemma UnsetsDefaults()
    ensures Write(Keys(["donk", "jang", "blutz"]),
                  map["donk" := "dink", "jang" := "prung", "blutz" := "qyes", "kloogh" := "erop"],
                  map["donk" := "dink", "jang" := "karoo", "blutz" := "yuam"],
                  [("zumg", "borg"), ("donk", "wuut")])
         == [("zumg", "borg"), ("jang", "prung"), ("blutz", "qyes")]
  {
    UnsetsDefaultsPlan();
    var p: Plan := [("donk", None), ("jang", Some("prung")), ("blutz", Some("qyes"))];
    var q1 := [("zumg", "borg")];
    assert DeleteName([("zumg", "borg"), ("donk", "wuut")], "donk") == q1;
    NotHas(q1, "jang");
    SetNameAppends(q1, "jang", "prung");
    var q2 := [("zumg", "borg"), ("jang", "prung")];
    assert q1 + [("jang", "prung")] == q2;
    NotHas(q2, "blutz");
    SetNameAppends(q2, "blutz", "qyes");
    assert Apply(p[2..], q2) == Apply(p[3..], q2 + [("blutz", "qyes")]);
  }

  /** Values present in the query replace the defaults. */
  lemma ReadsPresentValues()
    ensures Read(Keys(["foo", "blerg"]), map["foo" := "kazoo", "blerg" := "grunk"],
                 [("foo", "bar"), ("blerg", "hloom")])
         == map["foo" := "bar", "blerg" := "hloom"]
  {
    var keys, q := Keys(["foo", "blerg"]), [("foo", "bar"), ("blerg", "hloom")];
    var d := map["foo" := "kazoo", "blerg" := "grunk"];
    var d1 := d["foo" := "bar"];
    assert Find(keys[0], q) == Decoded("bar") && !keys[0].equals(Some("bar"), Some("kazoo"));
    assert Find(keys[1], q) == Decoded("hloom") && !keys[1].equals(Some("hloom"), Some("grunk"));
    assert ReadFrom(keys[1..], d, q, d1) == ReadFrom(keys[2..], d, q, d1["blerg" := "hloom"]);
    assert Read(keys, d, q) == ReadFrom(keys[1..], d, q, d1);
  }

  /** Managed names absent from the query leave the defaults. */
  lemma ReadsDefaultsWhenAbsent()
    ensures Read(Keys(["durg", "ghfex"]), map["durg" := "jak", "ghfex" := "throbbe"],
                 [("klutz", "mabble"), ("pom", "qux")])
         == map["durg" := "jak", "ghfex" := "throbbe"]
  {
  }

  /** Without defaults, every key is set. */
  lemma WritesNonDefaultsPlan()
    ensures PlanOf(Keys(["antz", "plugh", "krackle"]),
                   map["antz" := "mumg", "plugh" := "niom", "krackle" := "efik"], map[])
         == [("antz", Some("mumg")), ("plugh", Some("niom")), ("krackle", Some("efik"))]
  {
  }

  /** Without defaults, every key is written, appended in key order. */
  lemma WritesNonDefaults()
    ensures Write(Keys(["antz", "plugh", "krackle"]),
                  map["antz" := "mumg", "plugh" := "niom", "krackle" := "efik"], map[], [])
         == [("antz", "mumg"), ("plugh", "niom"), ("krackle", "efik")]
  {
    WritesNonDefaultsPlan();
    var p: Plan := [("antz", Some("mumg")), ("plugh", Some("niom")), ("krackle", Some("efik"))];
    var q1 := [("antz", "mumg")];
    assert SetName([], "antz", "mumg") == q1;
    NotHas(q1, "plugh");
    SetNameAppends(q1, "plugh", "niom");
    var q2 := [("antz", "mumg"), ("plugh", "niom")];
    assert q1 + [("plugh", "niom")] == q2;
    NotHas(q2, "krackle");
    SetNameAppends(q2, "krackle", "efik");
    assert Apply(p[2..], q2) == Apply(p[3..], q2 + [("krackle", "efik")]);
  }

  /** The initial state of the adapter tests. */
  function Initial(): map<string, string>
  {
    map["groo" := "durk", "froo" := "gurk"]
  }

  /** The descriptors of the adapter the tests build with `stateToUri(initialState)`, with no key input. */
  function AdapterKeys(): seq<KeySpec<string>>
  {
    assert ListsKeysOf(["groo", "froo"], Initial()) by {
      assert (set i | 0 <= i < 2 :: ["groo", "froo"][i]) == {"groo", "froo"} by {
        assert ["groo", "froo"][0] == "groo" && ["groo", "froo"][1] == "froo";
      }
    }
    NormalizeKeys(StateToUri(Initial(), ["groo", "froo"], None, StringCoercion()).stateKeys, StringCoercion())
  }

  /** The adapter falls back to the initial state's names, in `Object.keys` order. */
  lemma AdapterKeysAreNames()
    ensures AdapterKeys() == Keys(["groo", "froo"])
  {
  }

  /** The adapter's getter on an empty query, and on a query holding both names. */
  lemma AdapterReads()
    ensures Read(AdapterKeys(), Initial(), []) == Initial()
    ensures Read(AdapterKeys(), Initial(), [("groo", "fuffle"), ("froo", "mropt")])
         == map["groo" := "fuffle", "froo" := "mropt"]
  {
    AdapterKeysAreNames();
    var keys, q := Keys(["groo", "froo"]), [("groo", "fuffle"), ("froo", "mropt")];
    var d, d1 := Initial(), Initial()["groo" := "fuffle"];
    assert Find(keys[0], q) == Decoded("fuffle") && !keys[0].equals(Some("fuffle"), Some("durk"));
    assert Find(keys[1], q) == Decoded("mropt") && !keys[1].equals(Some("mropt"), Some("gurk"));
    assert ReadFrom(keys[1..], d, q, d1) == ReadFrom(keys[2..], d, q, d1["froo" := "mropt"]);
    assert Read(keys, d, q) == ReadFrom(keys[1..], d, q, d1);
  }

  /** The setter of the adapter tests sets both names. */
  lemma AdapterWritesPlan()
    ensures PlanOf(AdapterKeys(), map["groo" := "pockle", "froo" := "burk"], Initial())
         == [("groo", Some("pockle")), ("froo", Some("burk"))]
  {
    AdapterKeysAreNames();
  }

  /** The adapter's setter replaces both values in place. */
  lemma AdapterWrites()
    ensures Write(AdapterKeys(), map["groo" := "pockle", "froo" := "burk"], Initial(),
                  [("groo", "zond"), ("froo", "uyup")])
         == [("groo", "pockle"), ("froo", "burk")]
  {
    AdapterWritesPlan();
    var p: Plan := [("groo", Some("pockle")), ("froo", Some("burk"))];
    var q1 := [("groo", "pockle"), ("froo", "uyup")];
    assert SetName([("groo", "zond"), ("froo", "uyup")], "groo", "pockle") == q1;
    assert SetName(q1, "froo", "burk") == [("groo", "pockle"), ("froo", "burk")];
    assert Apply(p[1..], q1) == Apply(p[2..], SetName(q1, "froo", "burk"));
  }

  /** Setting the initial state empties a query that held only the adapter's names. */
  lemma AdapterResets()
    ensures Write(AdapterKeys(), Initial(), Initial(), [("groo", "tronk"), ("froo", "engum")]) == []
  {
    AdapterKeysAreNames();
    var keys := Keys(["groo", "froo"]);
    WriteDefaultsClears(keys, Initial(), [("groo", "tronk"), ("froo", "engum")]);
    assert UriKeys(keys) == {"groo", "froo"};
  }

  /**
   * A state lacking a managed key whose default is present does not read back
   * as lacking it: `set` writes the text "undefined", which then reads back as
   * that string.
   */
  lemma UndefinedWrittenAsText()
    ensures Write(AdapterKeys(), map["froo" := "gurk"], Initial(), []) == [("groo", "undefined")]
  {
    AdapterKeysAreNames();
    var keys := Keys(["groo", "froo"]);
    var p := PlanOf(keys, map["froo" := "gurk"], Initial());
    assert p == [("groo", Some("undefined")), ("froo", None)];
    assert Apply(p, []) == Apply(p[1..], [("groo", "undefined")]);
  }

  /** ... and the text "undefined" written that way reads back as the string, not as the default. */
  lemma UndefinedTextReadBack()
    ensures Read(AdapterKeys(), Initial(), [("groo", "undefined")]) == map["groo" := "undefined", "froo" := "gurk"]
  {
    AdapterKeysAreNames();
    var keys, q := Keys(["groo", "froo"]), [("groo", "undefined")];
    var d1 := Initial()["groo" := "undefined"];
    assert Find(keys[0], q) == Decoded("undefined") && !keys[0].equals(Some("undefined"), Some("durk"));
    assert Find(keys[1], q) == Missing;
    assert Read(keys, Initial(), q) == ReadFrom(keys[1..], Initial(), q, d1);
    assert ReadFrom(keys[1..], Initial(), q, d1) == ReadFrom(keys[2..], Initial(), q, d1);
  }
}
