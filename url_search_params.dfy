/**
 * The query of an address as an ordered list of name-value pairs, with the
 * operations of the `URLSearchParams` interface (section 6.2 of the WHATWG URL
 * Standard) that the library uses: `has`, `get`, `delete` and `set`.
 */
module UrlSearchParams {
  import opened Optional

  /** One name-value pair of a query, already percent-decoded. */
  type Pair = (string, string)

  /** `has(name)`: some pair carries `name`. */
  function Has(q: seq<Pair>, name: string): bool
  {
    if q == [] then false
    else q[0].0 == name || Has(q[1..], name)
  }

  /** Any pair named `name` makes `has(name)` true. */
  lemma {:induction false} HasAt(q: seq<Pair>, name: string, j: nat)
    requires j < |q| && q[j].0 == name
    ensures Has(q, name)
  {
    if j > 0 {
      HasAt(q[1..], name, j - 1);
    }
  }

  /** The position of the first pair named `name`, or `|q|` when there is none. */
  function IndexOf(q: seq<Pair>, name: string): (i: nat)
    ensures i <= |q|
    ensures i < |q| <==> Has(q, name)
    ensures i < |q| ==> q[i].0 == name
    ensures forall j :: 0 <= j < i ==> q[j].0 != name
  {
    if q == [] then 0
    else if q[0].0 == name then 0
    else 1 + IndexOf(q[1..], name)
  }

  /** The number of pairs named `name`. */
  function Count(q: seq<Pair>, name: string): (n: nat)
    ensures n <= |q|
    ensures n == 0 <==> !Has(q, name)
  {
    if q == [] then 0
    else (if q[0].0 == name then 1 else 0) + Count(q[1..], name)
  }

  /** `get(name)`: the value of the first pair named `name`, None (`null`) when there is none. */
  function Get(q: seq<Pair>, name: string): (r: Option<string>)
    ensures r.Some? <==> Has(q, name)
    ensures r.Some? ==> r.value == q[IndexOf(q, name)].1
  {
    if q == [] then None
    else if q[0].0 == name then Some(q[0].1)
    else Get(q[1..], name)
  }

  /** The pairs of `q` whose name is not in `names`, in their original order. */
  function Without(q: seq<Pair>, names: set<string>): (r: seq<Pair>)
    ensures |r| <= |q|
  {
    if q == [] then []
    else if q[0].0 in names then Without(q[1..], names)
    else [q[0]] + Without(q[1..], names)
  }

  /** `delete(name)`: every pair named `name` is removed; the others keep their order. */
  function DeleteName(q: seq<Pair>, name: string): (r: seq<Pair>)
    ensures !Has(r, name)
  {
    WithoutCount(q, {name}, name);
    Without(q, {name})
  }

  /**
   * `set(name, value)`: when a pair named `name` exists, the first one takes
   * `value` in place and the later ones are removed; otherwise the pair is
   * appended.
   */
  function SetName(q: seq<Pair>, name: string, value: string): seq<Pair>
  {
    if q == [] then [(name, value)]
    else if q[0].0 == name then [(name, value)] + DeleteName(q[1..], name)
    else [q[0]] + SetName(q[1..], name, value)
  }

  /** After `set`, exactly one pair carries the name, and `get` returns the value set. */
  lemma {:induction false} SetNameOnce(q: seq<Pair>, name: string, value: string)
    ensures Count(SetName(q, name, value), name) == 1
    ensures Get(SetName(q, name, value), name) == Some(value)
  {
    if q != [] && q[0].0 != name {
      SetNameOnce(q[1..], name, value);
    }
    if q != [] && q[0].0 == name {
      var r := SetName(q, name, value);
      assert r[1..] == DeleteName(q[1..], name);
    }
  }

  /** Filtering removes every pair with a name in `names` and keeps every pair with another name. */
  lemma {:induction false} WithoutCount(q: seq<Pair>, names: set<string>, m: string)
    ensures Count(Without(q, names), m) == if m in names then 0 else Count(q, m)
  {
    if q != [] {
      WithoutCount(q[1..], names, m);
    }
  }

  /** `delete` leaves the pairs of every other name as they were. */
  lemma DeleteNameCount(q: seq<Pair>, name: string, m: string)
    requires m != name
    ensures Count(DeleteName(q, name), m) == Count(q, m)
  {
    WithoutCount(q, {name}, m);
  }

  /** `set` leaves the pairs of every other name as they were. */
  lemma {:induction false} SetNameCount(q: seq<Pair>, name: string, value: string, m: string)
    requires m != name
    ensures Count(SetName(q, name, value), m) == Count(q, m)
  {
    if q != [] {
      if q[0].0 == name {
        DeleteNameCount(q[1..], name, m);
      } else {
        SetNameCount(q[1..], name, value, m);
      }
    }
  }

  /**
   * `set` on a name already present, in the words of the standard: the pairs
   * before the first pair named `name` stay, that pair takes `value` in place,
   * and the later pairs named `name` go.
   */
  lemma {:induction false} SetNameReplaces(q: seq<Pair>, name: string, value: string)
    requires Has(q, name)
    ensures var i := IndexOf(q, name);
            SetName(q, name, value) == q[..i] + [(name, value)] + DeleteName(q[i + 1..], name)
  {
    if q[0].0 != name {
      var t := q[1..];
      SetNameReplaces(t, name, value);
      var k := IndexOf(t, name);
      assert IndexOf(q, name) == k + 1;
      assert [q[0]] + t[..k] == q[..k + 1];
      assert t[k + 1..] == q[k + 2..];
    }
  }

  /** `set` on a name not present: the new pair comes after all the others. */
  lemma {:induction false} SetNameAppends(q: seq<Pair>, name: string, value: string)
    requires !Has(q, name)
    ensures SetName(q, name, value) == q + [(name, value)]
  {
    if q != [] {
      SetNameAppends(q[1..], name, value);
      assert [q[0]] + q[1..] == q;
    }
  }

  /** Facts about a query made of two parts. */
  lemma {:induction false} Concat(a: seq<Pair>, b: seq<Pair>, name: string)
    ensures Has(a + b, name) == (Has(a, name) || Has(b, name))
    ensures Count(a + b, name) == Count(a, name) + Count(b, name)
    ensures Get(a + b, name) == if Has(a, name) then Get(a, name) else Get(b, name)
  {
    if a == [] {
      assert a + b == b;
    } else {
      assert (a + b)[1..] == a[1..] + b;
      Concat(a[1..], b, name);
    }
  }

  lemma {:induction false} WithoutNone(q: seq<Pair>)
    ensures Without(q, {}) == q
  {
    if q != [] {
      WithoutNone(q[1..]);
    }
  }

  /** Filtering twice is filtering once by both sets of names. */
  lemma {:induction false} WithoutWithout(q: seq<Pair>, a: set<string>, b: set<string>)
    ensures Without(Without(q, a), b) == Without(q, a + b)
  {
    if q != [] {
      WithoutWithout(q[1..], a, b);
    }
  }

  /** Setting a name inside `names` does not change what lies outside `names`. */
  lemma {:induction false} WithoutSetName(q: seq<Pair>, name: string, value: string, names: set<string>)
    requires name in names
    ensures Without(SetName(q, name, value), names) == Without(q, names)
  {
    if q != [] {
      if q[0].0 == name {
        WithoutWithout(q[1..], {name}, names);
        assert {name} + names == names;
      } else {
        WithoutSetName(q[1..], name, value, names);
      }
    }
  }

  /** In `a + [(name, v)] + b` with `name` absent from `a`, the first pair named `name` is the one after `a`. */
  lemma FirstAtJoin(a: seq<Pair>, name: string, v: string, b: seq<Pair>)
    requires !Has(a, name)
    ensures var r := a + [(name, v)] + b;
            IndexOf(r, name) == |a| && r[..|a|] == a && r[|a|] == (name, v)
  {
  }

  /** A `URLSearchParams` object: the list of pairs that `delete` and `set` edit in place. */
  class SearchParams {
    var pairs: seq<Pair>

    constructor (init: seq<Pair>)
      ensures pairs == init
    {
      pairs := init;
    }

    method Delete(name: string)
      modifies this
      ensures pairs == DeleteName(old(pairs), name)
    {
      pairs := DeleteName(pairs, name);
    }

    method Set(name: string, value: string)
      modifies this
      ensures pairs == SetName(old(pairs), name, value)
    {
      pairs := SetName(pairs, name, value);
    }
  }
}
