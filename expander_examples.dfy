/** Expansions of particular shapes of input: the input hard-wired in test.go, and
    small inputs on which the walk's quirks show (the last segment nested twice, a leaf
    beside a map, text after a second `=` dropped, a walk through a string). */
module ExpanderExamples {
  import opened Results
  import opened GoStrings
  import opened Expander

  /** A key segment with none of the three separators in it. */
  predicate Plain(s: string)
  {
    ',' !in s && '=' !in s && '.' !in s
  }

  /** A value with neither `,` nor `=` in it; dots are allowed, as in host names. */
  predicate PlainValue(s: string)
  {
    ',' !in s && '=' !in s
  }

  /** The entry `s1.s2...sn=v`. */
  function Entry(segs: seq<string>, v: string): string
  {
    Join(segs, '.') + "=" + v
  }

  /** An entry built from plain segments and a plain value (dots allowed) has no comma, and inserting it
      is the walk of `Put` down exactly those segments. */
  lemma InsertPlainEntry(m: Tree, segs: seq<string>, v: string)
    requires |segs| >= 1 && forall i :: 0 <= i < |segs| ==> Plain(segs[i])
    requires PlainValue(v)
    ensures ',' !in Entry(segs, v)
    ensures InsertEntry(m, Entry(segs, v)) ==
      if Blocked(m, segs) then Failure(Conflict) else Success(Put(m, segs, segs[|segs| - 1], v))
  {
    var key := Join(segs, '.');
    JoinAvoids(segs, '.', '=');
    JoinAvoids(segs, '.', ',');
    assert key + "=" + v == key + ['='] + v;
    SplitConcat(key, '=', v);
    SplitNoSeparator(key, '=');
    SplitNoSeparator(v, '=');
    SplitJoin(segs, '.');
  }

  /** An entry without a comma is expanded on its own. */
  lemma ExpandOneEntry(e: string)
    requires ',' !in e
    ensures Expand(e) == InsertEntry(map[], e)
  {
    SplitNoSeparator(e, ',');
    assert ExpandFrom(map[], [e]) == match InsertEntry(map[], e)
      case Failure(err) => Failure(err)
      case Success(t) => ExpandFrom(t, []);
  }

  /** Two entries without commas, joined by one, are inserted one after the other. */
  lemma ExpandTwoEntries(e1: string, e2: string)
    requires ',' !in e1 && ',' !in e2
    ensures Expand(e1 + "," + e2) ==
      match InsertEntry(map[], e1)
      case Failure(err) => Failure(err)
      case Success(t) => InsertEntry(t, e2)
  {
    assert e1 + "," + e2 == Join([e1, e2], ',');
    ExpandEntries(e1 + "," + e2, [e1, e2]);
    assert [e1, e2][1..] == [e2];
    if InsertEntry(map[], e1).Success? {
      var t := InsertEntry(map[], e1).value;
      assert ExpandFrom(t, [e2]) == match InsertEntry(t, e2)
        case Failure(err) => Failure(err)
        case Success(t') => ExpandFrom(t', []);
    }
  }

  /** `a.b=v` puts the leaf under `b` inside `b`'s own map. */
  lemma LastSegmentNestedTwice(a: string, b: string, v: string)
    requires Plain(a) && Plain(b) && PlainValue(v)
    ensures Expand(Entry([a, b], v)) ==
      Success(map[a := Internal(map[b := Internal(map[b := Leaf(v)])])])
  {
    InsertPlainEntry(map[], [a, b], v);
    ExpandOneEntry(Entry([a, b], v));
    assert [a, b][1..] == [b] && [b][1..] == [];
    assert Put(map[], [b], b, v) == map[b := Internal(map[b := Leaf(v)])];
  }

  /** `a=x,a.b=y` is no conflict: `a=x` stores its leaf inside a map `a`, which `a.b=y`
      then walks through. */
  lemma LeafBesideMap(a: string, b: string, x: string, y: string)
    requires Plain(a) && Plain(b) && PlainValue(x) && PlainValue(y) && a != b
    ensures Expand(Entry([a], x) + "," + Entry([a, b], y)) ==
      Success(map[a := Internal(map[a := Leaf(x), b := Internal(map[b := Leaf(y)])])])
  {
    var t1 := map[a := Internal(map[a := Leaf(x)])];
    InsertPlainEntry(map[], [a], x);
    InsertPlainEntry(t1, [a, b], y);
    ExpandTwoEntries(Entry([a], x), Entry([a, b], y));
    assert [a][1..] == [];
    assert Put(map[], [a], a, x) == t1;
    PutBesideLeaf(a, b, x, y);
  }

  /** The walk of `a.b=y` through the map that `a=x` left under `a`. */
  lemma PutBesideLeaf(a: string, b: string, x: string, y: string)
    requires a != b
    ensures !Blocked(map[a := Internal(map[a := Leaf(x)])], [a, b])
    ensures Put(map[a := Internal(map[a := Leaf(x)])], [a, b], b, y) ==
      map[a := Internal(map[a := Leaf(x), b := Internal(map[b := Leaf(y)])])]
  {
    var t1 := map[a := Internal(map[a := Leaf(x)])];
    assert [a, b][1..] == [b] && [b][1..] == [];
    assert !Blocked(map[a := Leaf(x)], [b]);
    assert Put(map[a := Leaf(x)], [b], b, y) == map[a := Leaf(x), b := Internal(map[b := Leaf(y)])];
    var both := map[a := Leaf(x), b := Internal(map[b := Leaf(y)])];
    assert t1[a := Internal(both)] == map[a := Internal(both)];
  }

  /** `k==w` keeps only the empty text between the two `=`. */
  lemma SecondEqualsDropsRest(k: string, w: string)
    requires Plain(k) && PlainValue(w)
    ensures Expand(k + "==" + w) == Success(map[k := Internal(map[k := Leaf("")])])
  {
    var e := k + "==" + w;
    assert e == k + ['='] + ("" + ['='] + w);
    SplitConcat(k, '=', "" + ['='] + w);
    SplitConcat("", '=', w);
    SplitNoSeparator(k, '=');
    SplitNoSeparator(w, '=');
    SplitNoSeparator(k, '.');
    assert ',' !in e;
    ExpandOneEntry(e);
    assert Split("", '=') == [""];
    assert Split(e, '=') == [k, "", w];
    assert [k][1..] == [];
    assert Put(map[], [k], k, "") == map[k := Internal(map[k := Leaf("")])];
  }

  /** `a.b=x,a.b.b.c=y` walks into the string that `a.b=x` stored and panics. */
  lemma WalkThroughLeafConflicts(a: string, b: string, c: string, x: string, y: string)
    requires Plain(a) && Plain(b) && Plain(c) && PlainValue(x) && PlainValue(y)
    ensures Expand(Entry([a, b], x) + "," + Entry([a, b, b, c], y)) == Failure(Conflict)
  {
    var t1 := map[a := Internal(map[b := Internal(map[b := Leaf(x)])])];
    InsertPlainEntry(map[], [a, b], x);
    InsertPlainEntry(t1, [a, b, b, c], y);
    ExpandTwoEntries(Entry([a, b], x), Entry([a, b, b, c], y));
    assert [a, b][1..] == [b] && [b][1..] == [];
    assert Put(map[], [b], b, x) == map[b := Internal(map[b := Leaf(x)])];
    assert [a, b, b, c][1..] == [b, b, c] && [b, b, c][1..] == [b, c];
    assert Blocked(t1, [a, b, b, c]);
  }

  /** Two entries whose keys share a first segment meet in one map for that segment.
      test.go's own input, `mysql.ro.password=fake-password,mysql.rw.password=fake-password`,
      has this shape (p = "mysql", q1 = "ro", q2 = "rw", s = "password"). */
  lemma SharedPrefix(p: string, q1: string, q2: string, s: string, v1: string, v2: string)
    requires Plain(p) && Plain(q1) && Plain(q2) && Plain(s) && PlainValue(v1) && PlainValue(v2)
    requires q1 != q2
    ensures Expand(Entry([p, q1, s], v1) + "," + Entry([p, q2, s], v2)) ==
      Success(map[p := Internal(map[q1 := Internal(map[s := Internal(map[s := Leaf(v1)])]),
                                    q2 := Internal(map[s := Internal(map[s := Leaf(v2)])])])])
  {
    var t1 := map[p := Internal(map[q1 := Internal(map[s := Internal(map[s := Leaf(v1)])])])];
    InsertPlainEntry(map[], [p, q1, s], v1);
    InsertPlainEntry(t1, [p, q2, s], v2);
    ExpandTwoEntries(Entry([p, q1, s], v1), Entry([p, q2, s], v2));
    assert [p, q1, s][1..] == [q1, s] && [p, q2, s][1..] == [q2, s] && [q1, s][1..] == [s];
    assert [q2, s][1..] == [s] && [s][1..] == [];
    var leaf1 := Internal(map[s := Internal(map[s := Leaf(v1)])]);
    assert Put(map[], [s], s, v1) == map[s := Internal(map[s := Leaf(v1)])];
    assert Put(map[], [p, q1, s], s, v1) == t1;
    var leaf2 := Internal(map[s := Internal(map[s := Leaf(v2)])]);
    assert Put(map[], [s], s, v2) == map[s := Internal(map[s := Leaf(v2)])];
    assert Put(map[q1 := leaf1], [q2, s], s, v2) == map[q1 := leaf1][q2 := leaf2];
    assert !Blocked(t1, [p, q2, s]);
    assert Put(t1, [p, q2, s], s, v2) == t1[p := Internal(map[q1 := leaf1][q2 := leaf2])];
    assert t1[p := Internal(map[q1 := leaf1][q2 := leaf2])] ==
      map[p := Internal(map[q1 := leaf1, q2 := leaf2])];
  }

  /** The empty string is one empty entry with no `=`: `splitty[1]` panics. */
  lemma EmptyInputFails()
    ensures Expand("") == Failure(MissingValue)
  {
  }
}
