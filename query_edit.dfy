/**
 * A write seen from the query's side. Each managed query name gets one
 * change: None deletes it, Some(text) sets it. `Apply` performs the changes
 * one after the other with `delete` and `set`, as the write loop does;
 * `Edit` and `Appended` describe the same outcome in one pass over the prior
 * pairs, which is where the properties of a write can be read off.
 */
module QueryEdit {
  import opened Optional
  import opened UrlSearchParams

  /** One change to a query name: None deletes it, Some(text) sets it to `text`. */
  type Change = (string, Option<string>)

  /** The changes a write makes, one per managed key, in key order. */
  type Plan = seq<Change>

  /** No two changes concern the same name. */
  predicate DistinctNames(p: Plan)
  {
    forall i, j :: 0 <= i < j < |p| ==> p[i].0 != p[j].0
  }

  /** The names a plan changes. */
  function Names(p: Plan): set<string>
  {
    set i | 0 <= i < |p| :: p[i].0
  }

  /** One change made with `delete` or `set`. */
  function ApplyOne(c: Change, q: seq<Pair>): seq<Pair>
  {
    match c.1
    case None => DeleteName(q, c.0)
    case Some(text) => SetName(q, c.0, text)
  }

  /** The changes made one after the other. */
  function Apply(p: Plan, q: seq<Pair>): seq<Pair>
  {
    if p == [] then q else Apply(p[1..], ApplyOne(p[0], q))
  }

  /** The plan as a map from name to change (the first change of a name wins; distinct plans have one each). */
  function Decisions(p: Plan): map<string, Option<string>>
  {
    if p == [] then map[] else Decisions(p[1..])[p[0].0 := p[0].1]
  }

  /**
   * One pass over the prior pairs: a pair whose name the plan does not change
   * stays; the first pair of a name being set takes the new text in place;
   * every other pair of a changed name goes.
   */
  function Edit(q: seq<Pair>, d: map<string, Option<string>>): seq<Pair>
  {
    if q == [] then []
    else
      var name := q[0].0;
      if name !in d then [q[0]] + Edit(q[1..], d)
      else match d[name]
        case None => Edit(q[1..], d)
        case Some(text) => [(name, text)] + Edit(q[1..], d[name := None])
  }

  /** The pairs a change adds at the end: a name being set that the prior query lacks. */
  function Added(c: Change, q: seq<Pair>): seq<Pair>
  {
    match c.1
    case Some(text) => if Has(q, c.0) then [] else [(c.0, text)]
    case None => []
  }

  /** The pairs for names being set that the prior query lacks, in plan order. */
  function Appended(p: Plan, q: seq<Pair>): seq<Pair>
  {
    if p == [] then [] else Added(p[0], q) + Appended(p[1..], q)
  }

  // ---------------------------------------------------------------------------
  // Facts about the pieces.

  lemma {:induction false} DecisionsKeys(p: Plan)
    ensures Decisions(p).Keys == Names(p)
  {
    if p != [] {
      DecisionsKeys(p[1..]);
      assert Names(p) == Names(p[1..]) + {p[0].0};
    }
  }

  lemma {:induction false} DecisionsAt(p: Plan, i: nat)
    requires DistinctNames(p) && i < |p|
    ensures p[i].0 in Decisions(p) && Decisions(p)[p[i].0] == p[i].1
  {
    if i > 0 {
      DecisionsAt(p[1..], i - 1);
    }
  }

  /** The first name of a distinct plan is changed by none of the later changes. */
  lemma FirstNameFresh(p: Plan)
    requires DistinctNames(p) && p != []
    ensures DistinctNames(p[1..])
    ensures p[0].0 !in Decisions(p[1..])
  {
    DecisionsKeys(p[1..]);
  }

  lemma {:induction false} NotHas(q: seq<Pair>, name: string)
    requires forall j :: 0 <= j < |q| ==> q[j].0 != name
    ensures !Has(q, name)
  {
    if q != [] {
      NotHas(q[1..], name);
    }
  }

  lemma {:induction false} EditEmpty(q: seq<Pair>)
    ensures Edit(q, map[]) == q
  {
    if q != [] {
      EditEmpty(q[1..]);
    }
  }

  /** Edit looks at the first pair, then at the rest. */
  lemma EditCons(p: Pair, rest: seq<Pair>, d: map<string, Option<string>>)
    ensures Edit([p] + rest, d)
         == if p.0 !in d then [p] + Edit(rest, d)
            else match d[p.0]
              case None => Edit(rest, d)
              case Some(text) => [(p.0, text)] + Edit(rest, d[p.0 := None])
  {
  }

  /** Edit only emits names the prior query has, and never a name being deleted. */
  lemma {:induction false} EditHas(q: seq<Pair>, d: map<string, Option<string>>, name: string)
    ensures Has(Edit(q, d), name) ==> Has(q, name) && (name in d ==> d[name].Some?)
  {
    if q != [] {
      var m := q[0].0;
      if m !in d {
        EditHas(q[1..], d, name);
      } else if d[m].None? {
        EditHas(q[1..], d, name);
      } else {
        EditHas(q[1..], d[m := None], name);
      }
    }
  }

  /** A name being set appears in the edit once when the prior query has it, and not at all otherwise. */
  lemma {:induction false} EditCountSet(q: seq<Pair>, d: map<string, Option<string>>, name: string)
    requires name in d && d[name].Some?
    ensures Count(Edit(q, d), name) == if Has(q, name) then 1 else 0
  {
    if q != [] {
      var m := q[0].0;
      if m == name {
        EditHas(q[1..], d[name := None], name);
      } else if m !in d || d[m].None? {
        EditCountSet(q[1..], d, name);
      } else {
        EditCountSet(q[1..], d[m := None], name);
      }
    }
  }

  /** Editing a query whose first pair of `name` sits at its end: the pair takes the text being set. */
  lemma {:induction false} EditFirstSet(a: seq<Pair>, d: map<string, Option<string>>, name: string, v: string,
                                       text: string)
    requires !Has(a, name) && name in d && d[name] == Some(text)
    ensures Edit(a + [(name, v)], d) == Edit(a, d) + [(name, text)]
  {
    if a == [] {
      assert a + [(name, v)] == [(name, v)] + [];
      EditCons((name, v), [], d);
    } else {
      assert a + [(name, v)] == [a[0]] + (a[1..] + [(name, v)]);
      assert a == [a[0]] + a[1..];
      var m := a[0].0;
      EditCons(a[0], a[1..] + [(name, v)], d);
      EditCons(a[0], a[1..], d);
      if m in d && d[m].Some? {
        EditFirstSet(a[1..], d[m := None], name, v, text);
      } else {
        EditFirstSet(a[1..], d, name, v, text);
      }
    }
  }

  /** What the edit makes of a prefix is a prefix of what it makes of the whole. */
  lemma {:induction false} EditPrefix(a: seq<Pair>, c: seq<Pair>, d: map<string, Option<string>>)
    ensures Edit(a, d) <= Edit(a + c, d)
  {
    if a != [] {
      assert a + c == [a[0]] + (a[1..] + c);
      assert a == [a[0]] + a[1..];
      EditCons(a[0], a[1..] + c, d);
      EditCons(a[0], a[1..], d);
      var m := a[0].0;
      if m in d && d[m].Some? {
        EditPrefix(a[1..], c, d[m := None]);
      } else {
        EditPrefix(a[1..], c, d);
      }
    }
  }

  /** The edit keeps every pair whose name the plan does not change, in order. */
  lemma {:induction false} EditPassesThrough(q: seq<Pair>, d: map<string, Option<string>>)
    ensures Without(Edit(q, d), d.Keys) == Without(q, d.Keys)
  {
    if q != [] {
      var m := q[0].0;
      if m !in d || d[m].None? {
        EditPassesThrough(q[1..], d);
      } else {
        EditPassesThrough(q[1..], d[m := None]);
        assert d[m := None].Keys == d.Keys;
      }
    }
  }

  /** A query where every changed name is as the plan wants it (deleted, or once with its text) is left alone. */
  ghost predicate Conforms(r: seq<Pair>, d: map<string, Option<string>>)
  {
    forall name :: name in d ==>
      if d[name].None? then !Has(r, name) else Count(r, name) <= 1 && (Has(r, name) ==> Get(r, name) == d[name])
  }

  lemma {:induction false} EditConforming(r: seq<Pair>, d: map<string, Option<string>>)
    requires Conforms(r, d)
    ensures Edit(r, d) == r
  {
    if r != [] {
      var m := r[0].0;
      var t := r[1..];
      assert r == [r[0]] + t;
      forall name | name != m ensures Count(t, name) == Count(r, name) && Has(t, name) == Has(r, name)
                                   && Get(t, name) == Get(r, name) {
      }
      if m !in d {
        EditConforming(t, d);
      } else {
        assert Has(r, m);
        var d' := d[m := None];
        assert Conforms(t, d') by {
          forall name | name in d'
            ensures if d'[name].None? then !Has(t, name)
                    else Count(t, name) <= 1 && (Has(t, name) ==> Get(t, name) == d'[name])
          {
            if name == m {
              assert Count(t, m) == 0;
            }
          }
        }
        EditConforming(t, d');
      }
    }
  }

  lemma {:induction false} EditDelete(q: seq<Pair>, d: map<string, Option<string>>, name: string)
    requires name !in d
    ensures Edit(DeleteName(q, name), d) == Edit(q, d[name := None])
  {
    if q != [] {
      var m := q[0].0;
      if m == name {
        EditDelete(q[1..], d, name);
      } else if m in d && d[m].Some? {
        EditDelete(q[1..], d[m := None], name);
        assert d[m := None][name := None] == d[name := None][m := None];
      } else {
        EditDelete(q[1..], d, name);
      }
    }
  }

  lemma {:induction false} EditSet(q: seq<Pair>, d: map<string, Option<string>>, name: string, text: string)
    requires name !in d
    ensures Edit(SetName(q, name, text), d)
         == Edit(q, d[name := Some(text)]) + (if Has(q, name) then [] else [(name, text)])
  {
    var dn := d[name := Some(text)];
    if q == [] {
      EditCons((name, text), [], d);
    } else {
      var m, t := q[0].0, q[1..];
      assert q == [q[0]] + t;
      if m == name {
        EditCons((name, text), DeleteName(t, name), d);
        EditDelete(t, d, name);
        EditCons(q[0], t, dn);
        assert dn[name := None] == d[name := None];
      } else {
        assert Has(q, name) == Has(t, name);
        EditCons(q[0], SetName(t, name, text), d);
        EditCons(q[0], t, dn);
        if m in d && d[m].Some? {
          EditSet(t, d[m := None], name, text);
          assert d[m := None][name := Some(text)] == dn[m := None];
        } else {
          EditSet(t, d, name, text);
        }
      }
    }
  }

  /** Setting a name no decision covers, then editing, is editing with that name set (and appending it if new). */
  lemma EditAfterSet(q: seq<Pair>, d: map<string, Option<string>>, name: string, text: string, app: seq<Pair>)
    requires name !in d
    ensures Edit(SetName(q, name, text), d) + app
         == Edit(q, d[name := Some(text)]) + ((if Has(q, name) then [] else [(name, text)]) + app)
  {
    EditSet(q, d, name, text);
    var e := Edit(q, d[name := Some(text)]);
    var extra := if Has(q, name) then [] else [(name, text)];
    assert e + extra + app == e + (extra + app);
  }

  lemma {:induction false} AppendedFrame(p: Plan, q: seq<Pair>, q': seq<Pair>)
    requires forall i :: 0 <= i < |p| ==> Has(q, p[i].0) == Has(q', p[i].0)
    ensures Appended(p, q) == Appended(p, q')
  {
    if p != [] {
      AppendedFrame(p[1..], q, q');
    }
  }

  lemma {:induction false} AppendedConcat(a: Plan, b: Plan, q: seq<Pair>)
    ensures Appended(a + b, q) == Appended(a, q) + Appended(b, q)
  {
    if a == [] {
      assert a + b == b;
    } else {
      assert (a + b)[1..] == a[1..] + b;
      AppendedConcat(a[1..], b, q);
    }
  }

  /** A name no change concerns is not appended. */
  lemma {:induction false} AppendedLacks(p: Plan, q: seq<Pair>, name: string)
    requires forall i :: 0 <= i < |p| ==> p[i].0 != name
    ensures !Has(Appended(p, q), name)
  {
    if p != [] {
      AppendedLacks(p[1..], q, name);
      Concat(Added(p[0], q), Appended(p[1..], q), name);
    }
  }

  /** With every name being set already present, nothing is appended. */
  lemma {:induction false} AppendedNone(p: Plan, q: seq<Pair>)
    requires forall i :: 0 <= i < |p| && p[i].1.Some? ==> Has(q, p[i].0)
    ensures Appended(p, q) == []
  {
    if p != [] {
      AppendedNone(p[1..], q);
    }
  }

  /** Around the change at `i`, the appended pairs split into those of the earlier and of the later changes. */
  lemma AppendedAround(p: Plan, q: seq<Pair>, i: nat)
    requires i < |p|
    ensures Appended(p, q) == Appended(p[..i], q) + Added(p[i], q) + Appended(p[i + 1..], q)
  {
    assert p == p[..i] + ([p[i]] + p[i + 1..]);
    AppendedConcat(p[..i], [p[i]] + p[i + 1..], q);
    assert ([p[i]] + p[i + 1..])[1..] == p[i + 1..];
  }

  /** In a distinct plan, the changes before and after position `i` append nothing named `p[i].0`. */
  lemma AppendedOthersLack(p: Plan, q: seq<Pair>, i: nat)
    requires DistinctNames(p) && i < |p|
    ensures !Has(Appended(p[..i], q), p[i].0) && !Has(Appended(p[i + 1..], q), p[i].0)
  {
    var later := p[i + 1..];
    forall j | 0 <= j < |later| ensures later[j].0 != p[i].0 {
      assert later[j] == p[i + 1 + j];
    }
    AppendedLacks(p[..i], q, p[i].0);
    AppendedLacks(later, q, p[i].0);
  }

  /** What a set name makes of the edit: its first pair takes the text, and what stood before that pair is edited alone. */
  lemma EditKeepsPlace(q: seq<Pair>, d: map<string, Option<string>>, name: string, text: string)
    requires name in d && d[name] == Some(text) && Has(q, name)
    ensures var pre := Edit(q[..IndexOf(q, name)], d);
            !Has(pre, name) && pre + [(name, text)] <= Edit(q, d)
  {
    var k := IndexOf(q, name);
    NotHas(q[..k], name);
    EditHas(q[..k], d, name);
    assert q[..k + 1] == q[..k] + [(name, q[k].1)];
    EditFirstSet(q[..k], d, name, q[k].1, text);
    assert q == q[..k + 1] + q[k + 1..];
    EditPrefix(q[..k + 1], q[k + 1..], d);
  }

  // ---------------------------------------------------------------------------
  // The changes made one after the other are the one-pass edit.

  lemma ApplyOneFrame(c: Change, q: seq<Pair>, name: string)
    requires name != c.0
    ensures Has(ApplyOne(c, q), name) == Has(q, name)
  {
    match c.1
    case None => DeleteNameCount(q, c.0, name);
    case Some(text) => SetNameCount(q, c.0, text, name);
  }

  /** Applying a change whose name the later changes do not touch leaves what they append alone. */
  lemma AppendedAfterOne(c: Change, rest: Plan, q: seq<Pair>)
    requires forall i :: 0 <= i < |rest| ==> rest[i].0 != c.0
    ensures Appended(rest, ApplyOne(c, q)) == Appended(rest, q)
  {
    forall i | 0 <= i < |rest| ensures Has(ApplyOne(c, q), rest[i].0) == Has(q, rest[i].0) {
      ApplyOneFrame(c, q, rest[i].0);
    }
    AppendedFrame(rest, ApplyOne(c, q), q);
  }

  /** One change made in place, then an edit by the other decisions, is the edit by all of them. */
  lemma EditOne(c: Change, q: seq<Pair>, d: map<string, Option<string>>, app: seq<Pair>)
    requires c.0 !in d
    ensures Edit(ApplyOne(c, q), d) + app == Edit(q, d[c.0 := c.1]) + (Added(c, q) + app)
  {
    match c.1
    case None =>
      EditDelete(q, d, c.0);
    case Some(text) =>
      EditAfterSet(q, d, c.0, text, app);
  }

  lemma {:induction false} ApplyIsEdit(p: Plan, q: seq<Pair>)
    requires DistinctNames(p)
    ensures Apply(p, q) == Edit(q, Decisions(p)) + Appended(p, q)
  {
    if p == [] {
      EditEmpty(q);
    } else {
      var rest := p[1..];
      FirstNameFresh(p);
      ApplyIsEdit(rest, ApplyOne(p[0], q));
      AppendedAfterOne(p[0], rest, q);
      EditOne(p[0], q, Decisions(rest), Appended(rest, q));
    }
  }

  /** The write split around the change at `i`, whose name none of the other parts carries. */
  lemma ApplyAround(p: Plan, q: seq<Pair>, i: nat)
    requires DistinctNames(p) && i < |p|
    ensures Apply(p, q) == Edit(q, Decisions(p)) + Appended(p[..i], q) + Added(p[i], q) + Appended(p[i + 1..], q)
    ensures p[i].0 in Decisions(p) && Decisions(p)[p[i].0] == p[i].1
    ensures !Has(Appended(p[..i], q), p[i].0) && !Has(Appended(p[i + 1..], q), p[i].0)
  {
    ApplyIsEdit(p, q);
    AppendedAround(p, q, i);
    DecisionsAt(p, i);
    AppendedOthersLack(p, q, i);
  }

  // ---------------------------------------------------------------------------
  // What a write guarantees, read off the one-pass edit.

  /** Has and Count over a write split into four parts. */
  lemma Parts(e: seq<Pair>, a: seq<Pair>, m: seq<Pair>, b: seq<Pair>, name: string)
    ensures Has(e + a + m + b, name) == (Has(e, name) || Has(a, name) || Has(m, name) || Has(b, name))
    ensures Count(e + a + m + b, name) == Count(e, name) + Count(a, name) + Count(m, name) + Count(b, name)
  {
    Concat(e, a, name);
    Concat(e + a, m, name);
    Concat(e + a + m, b, name);
  }

  /** A deleted name is gone: no pair carries it afterwards, even if some did before. */
  lemma ApplyDeletes(p: Plan, q: seq<Pair>, i: nat)
    requires DistinctNames(p) && i < |p| && p[i].1.None?
    ensures !Has(Apply(p, q), p[i].0)
  {
    var n, d := p[i].0, Decisions(p);
    ApplyAround(p, q, i);
    EditHas(q, d, n);
    Parts(Edit(q, d), Appended(p[..i], q), Added(p[i], q), Appended(p[i + 1..], q), n);
  }

  /** A set name's pair at `|pre|`, with `pre` before it, in an edit followed by appended pairs. */
  lemma PlacedAt(e: seq<Pair>, app: seq<Pair>, pre: seq<Pair>, name: string, text: string)
    requires pre + [(name, text)] <= e && !Has(pre, name)
    ensures var r := e + app;
            && |pre| < |r| && r[..|pre|] == pre && r[|pre|] == (name, text)
            && IndexOf(r, name) == |pre|
  {
    var tail := e[|pre| + 1..] + app;
    assert e + app == pre + [(name, text)] + tail;
    FirstAtJoin(pre, name, text, tail);
  }

  /** A name that was present and is set keeps its place: before it stands exactly the edit of what stood before its first occurrence. */
  lemma ApplyReplacesInPlace(p: Plan, q: seq<Pair>, i: nat, text: string)
    requires DistinctNames(p) && i < |p| && p[i].1 == Some(text) && Has(q, p[i].0)
    ensures var r := Apply(p, q);
            var pre := Edit(q[..IndexOf(q, p[i].0)], Decisions(p));
            && |pre| < |r| && r[..|pre|] == pre && r[|pre|] == (p[i].0, text)
            && IndexOf(r, p[i].0) == |pre|
  {
    var n, d := p[i].0, Decisions(p);
    ApplyIsEdit(p, q);
    DecisionsAt(p, i);
    EditKeepsPlace(q, d, n, text);
    PlacedAt(Edit(q, d), Appended(p, q), Edit(q[..IndexOf(q, n)], d), n, text);
  }

  /** A name that was absent and is set comes after all prior pairs and after the pairs appended for earlier changes. */
  lemma ApplyAppendsInOrder(p: Plan, q: seq<Pair>, i: nat, text: string)
    requires DistinctNames(p) && i < |p| && p[i].1 == Some(text) && !Has(q, p[i].0)
    ensures var r := Apply(p, q);
            var pre := Edit(q, Decisions(p)) + Appended(p[..i], q);
            && |pre| < |r| && r[..|pre|] == pre && r[|pre|] == (p[i].0, text)
            && IndexOf(r, p[i].0) == |pre|
  {
    var n, d := p[i].0, Decisions(p);
    var e, a := Edit(q, d), Appended(p[..i], q);
    ApplyAround(p, q, i);
    assert Added(p[i], q) == [(n, text)];
    EditHas(q, d, n);
    Concat(e, a, n);
    FirstAtJoin(e + a, n, text, Appended(p[i + 1..], q));
  }

  /** A name being set is carried by exactly one pair. */
  lemma ApplyCountsOnce(p: Plan, q: seq<Pair>, i: nat, text: string)
    requires DistinctNames(p) && i < |p| && p[i].1 == Some(text)
    ensures Count(Apply(p, q), p[i].0) == 1
  {
    var n, d := p[i].0, Decisions(p);
    ApplyAround(p, q, i);
    EditCountSet(q, d, n);
    Parts(Edit(q, d), Appended(p[..i], q), Added(p[i], q), Appended(p[i + 1..], q), n);
  }

  /** A name being set is carried by exactly one pair, holding the text set. */
  lemma ApplySetsOnce(p: Plan, q: seq<Pair>, i: nat, text: string)
    requires DistinctNames(p) && i < |p| && p[i].1 == Some(text)
    ensures Count(Apply(p, q), p[i].0) == 1
    ensures Get(Apply(p, q), p[i].0) == Some(text)
  {
    ApplyCountsOnce(p, q, i, text);
    if Has(q, p[i].0) {
      ApplyReplacesInPlace(p, q, i, text);
    } else {
      ApplyAppendsInOrder(p, q, i, text);
    }
  }

  /** Pairs whose names the plan does not change pass through, in their order (names may repeat). */
  lemma {:induction false} ApplyPassesThrough(p: Plan, q: seq<Pair>, names: set<string>)
    requires forall i :: 0 <= i < |p| ==> p[i].0 in names
    ensures Without(Apply(p, q), names) == Without(q, names)
  {
    if p != [] {
      var n := p[0].0;
      if p[0].1.None? {
        WithoutWithout(q, {n}, names);
        assert {n} + names == names;
      } else {
        WithoutSetName(q, n, p[0].1.value, names);
      }
      ApplyPassesThrough(p[1..], ApplyOne(p[0], q), names);
    }
  }

  /** A plan that only deletes leaves exactly the pairs of the other names. */
  lemma {:induction false} ApplyOnlyDeletes(p: Plan, q: seq<Pair>)
    requires forall i :: 0 <= i < |p| ==> p[i].1.None?
    ensures Apply(p, q) == Without(q, Names(p))
  {
    if p != [] {
      var n := p[0].0;
      assert p[0].1.None?;
      assert ApplyOne(p[0], q) == Without(q, {n});
      ApplyOnlyDeletes(p[1..], Without(q, {n}));
      WithoutWithout(q, {n}, Names(p[1..]));
      assert Names(p) == {n} + Names(p[1..]);
    } else {
      assert Names(p) == {};
      WithoutNone(q);
    }
  }

  /** Making the same changes twice gives what making them once gives. */
  lemma ApplyIdempotent(p: Plan, q: seq<Pair>)
    requires DistinctNames(p)
    ensures Apply(p, Apply(p, q)) == Apply(p, q)
  {
    var r, d := Apply(p, q), Decisions(p);
    DecisionsKeys(p);
    forall name | name in d
      ensures if d[name].None? then !Has(r, name) else Count(r, name) <= 1 && (Has(r, name) ==> Get(r, name) == d[name])
    {
      var i :| 0 <= i < |p| && p[i].0 == name;
      DecisionsAt(p, i);
      if p[i].1.None? {
        ApplyDeletes(p, q, i);
      } else {
        ApplySetsOnce(p, q, i, p[i].1.value);
      }
    }
    EditConforming(r, d);
    forall i | 0 <= i < |p| && p[i].1.Some? ensures Has(r, p[i].0) {
      ApplySetsOnce(p, q, i, p[i].1.value);
    }
    AppendedNone(p, r);
    ApplyIsEdit(p, r);
  }
}
