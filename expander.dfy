/** The dotted-key expander of test.go: a flat `key=value,key=value` string whose keys
    are `.`-separated paths becomes a tree of nested maps with string leaves.

    The Go program keeps the tree in a `map[string]interface{}` whose values are strings
    or further maps, and walks it with a map reference `ptr`.  Here the tree is a value
    (`Tree`) and `ptr` is the path from the root to the map it refers to; writing through
    `ptr` writes into the tree at that path (`Store`).  The Go tree never shares a map
    between two parents (every child map is made fresh), so nothing is lost by this. */
module Expander {
  import opened Results
  import opened GoStrings

  /** A value held in one of the Go maps: a string, or a nested map. */
  datatype Node = Leaf(value: string) | Internal(children: map<string, Node>)

  /** A `map[string]interface{}` of the program. */
  type Tree = map<string, Node>

  /** The two panics of the expansion loop: the type assertion `ptr[val].(map...)` that
      meets a string (test.go line 23), and `splitty[1]` on an entry with no `=`
      (test.go line 27). */
  datatype ExpandError = Conflict | MissingValue

  // ---------------------------------------------------------------------------
  // Reading the tree

  /** The node reached from the root map `m` by following `path` (the root itself for
      the empty path); None when the path leaves the tree or runs through a leaf. */
  function Lookup(m: Tree, path: seq<string>): Option<Node>
    decreases |path|
  {
    if path == [] then Some(Internal(m))
    else if path[0] !in m then None
    else match m[path[0]]
      case Leaf(v) => if |path| == 1 then Some(Leaf(v)) else None
      case Internal(c) => Lookup(c, path[1..])
  }

  predicate IsLeaf(n: Option<Node>)
  {
    n.Some? && n.value.Leaf?
  }

  /** The walk down `segs` meets a string: one of the segments names a leaf in the map
      reached by the segments before it. */
  predicate Blocked(m: Tree, segs: seq<string>)
    decreases |segs|
  {
    segs != [] && segs[0] in m && (m[segs[0]].Leaf? || Blocked(m[segs[0]].children, segs[1..]))
  }

  /** Reference definition of a blocked walk: some non-empty prefix of `segs` leads to a leaf. */
  ghost predicate LeafOnPath(m: Tree, segs: seq<string>)
  {
    exists k :: 1 <= k <= |segs| && IsLeaf(Lookup(m, segs[..k]))
  }

  lemma {:induction false} BlockedIsLeafOnPath(m: Tree, segs: seq<string>)
    ensures Blocked(m, segs) <==> LeafOnPath(m, segs)
    decreases |segs|
  {
    if segs != [] {
      var s := segs[0];
      assert segs[..1] == [s];
      if s !in m {
        forall k | 1 <= k <= |segs|
          ensures Lookup(m, segs[..k]) == None
        {
          assert segs[..k][0] == s;
        }
      } else if m[s].Internal? {
        var c := m[s].children;
        BlockedIsLeafOnPath(c, segs[1..]);
        forall k | 2 <= k <= |segs|
          ensures Lookup(m, segs[..k]) == Lookup(c, segs[1..][..k - 1])
        {
          assert segs[..k][0] == s && segs[..k][1..] == segs[1..][..k - 1];
        }
        if LeafOnPath(c, segs[1..]) {
          var k :| 1 <= k <= |segs| - 1 && IsLeaf(Lookup(c, segs[1..][..k]));
          assert IsLeaf(Lookup(m, segs[..k + 1]));
        }
        if LeafOnPath(m, segs) {
          assert Lookup(m, segs[..1]) == Some(Internal(c));
          var k :| 1 <= k <= |segs| && IsLeaf(Lookup(m, segs[..k]));
          assert IsLeaf(Lookup(c, segs[1..][..k - 1]));
        }
      } else {
        assert IsLeaf(Lookup(m, segs[..1]));
      }
    }
  }

  // ---------------------------------------------------------------------------
  // The insertion the walk performs, as a recursive function

  /** The tree after the walk down `segs` (making an empty map for every missing segment
      and descending into it, the last segment included) and the store of `Leaf(v)` under
      `last` in the map the walk ends in.  The program calls it with `last` the final
      segment, so that final segment is nested twice. */
  function Put(m: Tree, segs: seq<string>, last: string, v: string): (r: Tree)
    requires !Blocked(m, segs)
    ensures !Blocked(r, segs)
    decreases |segs|
  {
    if segs == [] then m[last := Leaf(v)]
    else
      var s := segs[0];
      var child := if s in m then m[s].children else map[];
      m[s := Internal(Put(child, segs[1..], last, v))]
  }

  /** The leaf lands at the end of `segs + [last]`: for a key of n segments, at depth n + 1. */
  lemma {:induction false} PutStoresLeaf(m: Tree, segs: seq<string>, last: string, v: string)
    requires !Blocked(m, segs)
    ensures Lookup(Put(m, segs, last, v), segs + [last]) == Some(Leaf(v))
    decreases |segs|
  {
    if segs != [] {
      var s := segs[0];
      var child := if s in m then m[s].children else map[];
      PutStoresLeaf(child, segs[1..], last, v);
      assert (segs + [last])[0] == s && (segs + [last])[1..] == segs[1..] + [last];
    }
  }

  /** Path `p` leaves path `q` at some position where both have a segment. */
  predicate Diverges(p: seq<string>, q: seq<string>)
    decreases |p|
  {
    p != [] && q != [] && (p[0] != q[0] || Diverges(p[1..], q[1..]))
  }

  /** Nothing off the inserted path changes. */
  lemma {:induction false} PutFrame(m: Tree, segs: seq<string>, last: string, v: string, q: seq<string>)
    requires !Blocked(m, segs)
    requires Diverges(q, segs + [last])
    ensures Lookup(Put(m, segs, last, v), q) == Lookup(m, q)
    decreases |segs|
  {
    var path := segs + [last];
    if segs != [] && q[0] == segs[0] {
      var s := segs[0];
      var child := if s in m then m[s].children else map[];
      assert path[1..] == segs[1..] + [last];
      PutFrame(child, segs[1..], last, v, q[1..]);
    }
  }

  /** Existing maps along the path are reused, not replaced: every map on the path is
      still a map afterwards, and keeps all its entries except the one the path
      continues through. */
  lemma {:induction false} PutReusesMaps(m: Tree, segs: seq<string>, last: string, v: string, k: nat)
    requires !Blocked(m, segs)
    requires k <= |segs|
    ensures var r := Put(m, segs, last, v);
      && IsMapAt(r, segs[..k])
      && (IsMapAt(m, segs[..k]) ==>
            forall x :: x in MapAt(m, segs[..k]) && x != (segs + [last])[k] ==>
              x in MapAt(r, segs[..k]) && MapAt(r, segs[..k])[x] == MapAt(m, segs[..k])[x])
    decreases |segs|
  {
    if k > 0 {
      var s := segs[0];
      var child := if s in m then m[s].children else map[];
      PutReusesMaps(child, segs[1..], last, v, k - 1);
      assert segs[..k][0] == s && segs[..k][1..] == segs[1..][..k - 1];
      assert (segs + [last])[k] == (segs[1..] + [last])[k - 1];
    }
  }

  /** Storing under the same key twice keeps the second value: last write wins. */
  lemma {:induction false} PutLastWins(m: Tree, segs: seq<string>, last: string, v1: string, v2: string)
    requires !Blocked(m, segs)
    ensures Put(Put(m, segs, last, v1), segs, last, v2) == Put(m, segs, last, v2)
    decreases |segs|
  {
    if segs != [] {
      var s := segs[0];
      var child := if s in m then m[s].children else map[];
      PutLastWins(child, segs[1..], last, v1, v2);
    }
  }

  // ---------------------------------------------------------------------------
  // One entry, and the whole string

  /** The key of an entry (the text before its first `=`) split into its segments. */
  function KeySegments(entry: string): (segs: seq<string>)
    ensures |segs| == Count(Before(entry, '='), '.') + 1
  {
    SplitHead(entry, '=');
    SplitCount(Before(entry, '='), '.');
    Split(Split(entry, '=')[0], '.')
  }

  /** The body of test.go's outer loop for one entry, panics included. */
  function InsertEntry(m: Tree, entry: string): (r: Result<Tree, ExpandError>)
    ensures '=' !in entry ==> r.Failure?
    ensures r.Success? ==> r.value.Keys == m.Keys + {KeySegments(entry)[0]}
    ensures r.Success? ==> r.value[KeySegments(entry)[0]].Internal?
  {
    SplitFields(entry, '=');
    var splitty := Split(entry, '=');
    var segs := KeySegments(entry);
    if Blocked(m, segs) then Failure(Conflict)
    else if |splitty| < 2 then Failure(MissingValue)
    else Success(Put(m, segs, segs[|segs| - 1], splitty[1]))
  }

  /** What one entry does: it fails with a conflict exactly when a leaf lies on its key's
      path, otherwise it fails exactly when it has no `=`; when it succeeds the text
      between its first and second `=` is stored at depth (segments + 1), under the last
      segment inside the last segment's own map, and nothing off that path changes. */
  lemma InsertEntryOutcome(m: Tree, entry: string)
    ensures var segs := KeySegments(entry);
      && (InsertEntry(m, entry) == Failure(Conflict) <==> LeafOnPath(m, segs))
      && (InsertEntry(m, entry) == Failure(MissingValue) <==> !LeafOnPath(m, segs) && '=' !in entry)
      && (InsertEntry(m, entry).Success? ==>
            var r := InsertEntry(m, entry).value;
            var path := segs + [segs[|segs| - 1]];
            && Lookup(r, path) == Some(Leaf(Before(After(entry, '='), '=')))
            && |path| == Count(Before(entry, '='), '.') + 2
            && forall q :: Diverges(q, path) ==> Lookup(r, q) == Lookup(m, q))
  {
    var segs := KeySegments(entry);
    var last := segs[|segs| - 1];
    BlockedIsLeafOnPath(m, segs);
    SplitFields(entry, '=');
    if InsertEntry(m, entry).Success? {
      var v := Split(entry, '=')[1];
      PutStoresLeaf(m, segs, last, v);
      forall q | Diverges(q, segs + [last])
        ensures Lookup(Put(m, segs, last, v), q) == Lookup(m, q)
      {
        PutFrame(m, segs, last, v, q);
      }
    }
  }

  /** The first segments of the entries' keys: the names the entries add to the top map. */
  function TopKeys(entries: seq<string>): set<string>
    decreases |entries|
  {
    if entries == [] then {} else {KeySegments(entries[0])[0]} + TopKeys(entries[1..])
  }

  /** test.go's outer loop from tree `m` over `entries`, left to right, stopping at the
      first panic. */
  function ExpandFrom(m: Tree, entries: seq<string>): (r: Result<Tree, ExpandError>)
    ensures (exists i :: 0 <= i < |entries| && '=' !in entries[i]) ==> r.Failure?
    ensures r.Success? ==>
      r.value.Keys == m.Keys + TopKeys(entries)
    ensures r.Success? && (forall k :: k in m ==> m[k].Internal?) ==>
      forall k :: k in r.value ==> r.value[k].Internal?
    decreases |entries|
  {
    if entries == [] then Success(m)
    else match InsertEntry(m, entries[0])
      case Failure(e) => Failure(e)
      case Success(m') =>
        assert (exists i :: 0 <= i < |entries| && '=' !in entries[i]) ==>
                 exists i :: 0 <= i < |entries[1..]| && '=' !in entries[1..][i] by {
          if exists i :: 0 <= i < |entries| && '=' !in entries[i] {
            var i :| 0 <= i < |entries| && '=' !in entries[i];
            assert i > 0 && '=' !in entries[1..][i - 1];
          }
        }
        ExpandFrom(m', entries[1..])
  }

  /** The whole expansion of a secret string, starting from an empty map. */
  function Expand(input: string): (r: Result<Tree, ExpandError>)
    ensures (exists i :: 0 <= i < |Split(input, ',')| && '=' !in Split(input, ',')[i]) ==> r.Failure?
    ensures r.Success? ==>
      r.value.Keys == TopKeys(Split(input, ','))
    ensures r.Success? ==> forall k :: k in r.value ==> r.value[k].Internal?
  {
    ExpandFrom(map[], Split(input, ','))
  }

  /** Entries are processed left to right: expanding `a + b` expands `a`, then `b` from
      where `a` left off. */
  lemma {:induction false} ExpandFromAppend(m: Tree, a: seq<string>, b: seq<string>)
    ensures ExpandFrom(m, a + b) ==
            match ExpandFrom(m, a)
            case Failure(e) => Failure(e)
            case Success(m') => ExpandFrom(m', b)
    decreases |a|
  {
    if a != [] {
      assert (a + b)[0] == a[0] && (a + b)[1..] == a[1..] + b;
      if InsertEntry(m, a[0]).Success? {
        ExpandFromAppend(InsertEntry(m, a[0]).value, a[1..], b);
      }
    } else {
      assert a + b == b;
    }
  }

  /** The input is split into exactly one entry more than it has commas, and comma-free
      entries joined by commas are expanded one by one in order. */
  lemma ExpandEntries(input: string, entries: seq<string>)
    requires |entries| >= 1
    requires forall i :: 0 <= i < |entries| ==> ',' !in entries[i]
    requires input == Join(entries, ',')
    ensures Expand(input) == ExpandFrom(map[], entries)
    ensures |entries| == Count(input, ',') + 1
  {
    SplitJoin(entries, ',');
    SplitCount(input, ',');
  }

  // ---------------------------------------------------------------------------
  // The walk itself: a mutable map reference, modelled as a path into the tree

  /** The path `p` leads from the root map `m` through maps only. */
  predicate IsMapAt(m: Tree, p: seq<string>)
    decreases |p|
  {
    p == [] || (p[0] in m && m[p[0]].Internal? && IsMapAt(m[p[0]].children, p[1..]))
  }

  /** The map that path `p` refers to: what `ptr` points at. */
  function MapAt(m: Tree, p: seq<string>): Tree
    requires IsMapAt(m, p)
    decreases |p|
  {
    if p == [] then m else MapAt(m[p[0]].children, p[1..])
  }

  /** The root map after the map at `p` is replaced by `sub`. */
  function Graft(m: Tree, p: seq<string>, sub: Tree): Tree
    requires IsMapAt(m, p)
    decreases |p|
  {
    if p == [] then sub else m[p[0] := Internal(Graft(m[p[0]].children, p[1..], sub))]
  }

  /** `ptr[key] = n` where `ptr` refers to the map at `p`: the write is seen from the root. */
  function Store(m: Tree, p: seq<string>, key: string, n: Node): Tree
    requires IsMapAt(m, p)
  {
    Graft(m, p, MapAt(m, p)[key := n])
  }

  lemma {:induction false} GraftMapAt(m: Tree, p: seq<string>, sub: Tree)
    requires IsMapAt(m, p)
    ensures IsMapAt(Graft(m, p, sub), p) && MapAt(Graft(m, p, sub), p) == sub
    decreases |p|
  {
    if p != [] {
      GraftMapAt(m[p[0]].children, p[1..], sub);
    }
  }

  lemma {:induction false} GraftTwice(m: Tree, p: seq<string>, sub1: Tree, sub2: Tree)
    requires IsMapAt(m, p)
    ensures IsMapAt(Graft(m, p, sub1), p)
    ensures Graft(Graft(m, p, sub1), p, sub2) == Graft(m, p, sub2)
    decreases |p|
  {
    GraftMapAt(m, p, sub1);
    if p != [] {
      GraftTwice(m[p[0]].children, p[1..], sub1, sub2);
    }
  }

  lemma {:induction false} GraftDescend(m: Tree, p: seq<string>, k: string, sub: Tree)
    requires IsMapAt(m, p) && k in MapAt(m, p) && MapAt(m, p)[k].Internal?
    ensures IsMapAt(m, p + [k]) && MapAt(m, p + [k]) == MapAt(m, p)[k].children
    ensures Graft(m, p + [k], sub) == Graft(m, p, MapAt(m, p)[k := Internal(sub)])
    decreases |p|
  {
    if p == [] {
      assert [k][1..] == [];
    } else {
      assert (p + [k])[0] == p[0] && (p + [k])[1..] == p[1..] + [k];
      GraftDescend(m[p[0]].children, p[1..], k, sub);
    }
  }

  /** `ptr[val] = map[string]interface{}{}` for a missing `val` changes neither whether the
      rest of the walk is blocked nor the tree the walk ends in. */
  lemma CreateStep(output: Tree, ptr: seq<string>, val: string, rest: seq<string>, last: string, value: string)
    requires IsMapAt(output, ptr) && val !in MapAt(output, ptr)
    ensures var output' := Store(output, ptr, val, Internal(map[]));
      && IsMapAt(output', ptr)
      && MapAt(output', ptr) == MapAt(output, ptr)[val := Internal(map[])]
      && !Blocked(MapAt(output, ptr), [val] + rest)
      && !Blocked(MapAt(output', ptr), [val] + rest)
      && Graft(output', ptr, Put(MapAt(output', ptr), [val] + rest, last, value)) ==
         Graft(output, ptr, Put(MapAt(output, ptr), [val] + rest, last, value))
  {
    var cur := MapAt(output, ptr);
    var cur' := cur[val := Internal(map[])];
    GraftTwice(output, ptr, cur', Put(cur', [val] + rest, last, value));
    GraftMapAt(output, ptr, cur');
    assert ([val] + rest)[0] == val && ([val] + rest)[1..] == rest;
    var below := Put(map[], rest, last, value);
    assert Put(cur', [val] + rest, last, value) == cur'[val := Internal(below)];
    assert Put(cur, [val] + rest, last, value) == cur[val := Internal(below)];
    assert cur'[val := Internal(below)] == cur[val := Internal(below)];
  }

  /** `ptr = ptr[val].(map[string]interface{})` when `val` holds a map: the reference moves
      one segment down, and the rest of the walk is seen from there. */
  lemma DescendStep(output: Tree, ptr: seq<string>, val: string, rest: seq<string>, last: string, value: string)
    requires IsMapAt(output, ptr) && val in MapAt(output, ptr) && MapAt(output, ptr)[val].Internal?
    ensures var cur := MapAt(output, ptr);
      && IsMapAt(output, ptr + [val])
      && MapAt(output, ptr + [val]) == cur[val].children
      && Blocked(cur, [val] + rest) == Blocked(cur[val].children, rest)
      && (!Blocked(cur, [val] + rest) ==>
            Graft(output, ptr, Put(cur, [val] + rest, last, value)) ==
            Graft(output, ptr + [val], Put(cur[val].children, rest, last, value)))
  {
    var cur := MapAt(output, ptr);
    assert ([val] + rest)[0] == val && ([val] + rest)[1..] == rest;
    if !Blocked(cur, [val] + rest) {
      GraftDescend(output, ptr, val, Put(cur[val].children, rest, last, value));
    } else {
      GraftDescend(output, ptr, val, map[]);
    }
  }

  /** What holds each time the walk of `segs` from the root `output0` has descended `i`
      segments: `ptr` refers to the map at `segs[..i]`, the rest of the walk is blocked
      exactly when the whole walk is, and finishing the walk from here gives the tree the
      recursive insertion gives. */
  ghost predicate Walking(output0: Tree, segs: seq<string>, last: string, value: string,
                          output: Tree, ptr: seq<string>, i: int)
  {
    && 0 <= i <= |segs|
    && ptr == segs[..i]
    && IsMapAt(output, ptr)
    && Blocked(output0, segs) == Blocked(MapAt(output, ptr), segs[i..])
    && (!Blocked(output0, segs) ==>
          Graft(output, ptr, Put(MapAt(output, ptr), segs[i..], last, value)) ==
          Put(output0, segs, last, value))
  }

  /** One turn of the inner loop: make the segment's map if it is missing, then either
      meet a string (the whole walk is blocked) or descend one segment. */
  lemma WalkStep(output0: Tree, segs: seq<string>, last: string, value: string,
                 output: Tree, ptr: seq<string>, i: int)
    requires Walking(output0, segs, last, value, output, ptr, i) && i < |segs|
    ensures var val := segs[i];
      var output' := if val !in MapAt(output, ptr) then Store(output, ptr, val, Internal(map[])) else output;
      && IsMapAt(output', ptr)
      && val in MapAt(output', ptr)
      && (MapAt(output', ptr)[val].Leaf? ==> Blocked(output0, segs))
      && (MapAt(output', ptr)[val].Internal? ==>
            Walking(output0, segs, last, value, output', ptr + [val], i + 1))
  {
    var val, rest := segs[i], segs[i + 1..];
    assert segs[i..] == [val] + rest;
    assert segs[..i + 1] == ptr + [val];
    var output' := output;
    if val !in MapAt(output, ptr) {
      CreateStep(output, ptr, val, rest, last, value);
      output' := Store(output, ptr, val, Internal(map[]));
    }
    if MapAt(output', ptr)[val].Internal? {
      DescendStep(output', ptr, val, rest, last, value);
    }
  }

  /** The end of the walk: storing the value under the last segment in the map `ptr`
      refers to gives the recursive insertion. */
  lemma WalkDone(output0: Tree, segs: seq<string>, last: string, value: string,
                 output: Tree, ptr: seq<string>)
    requires Walking(output0, segs, last, value, output, ptr, |segs|)
    ensures !Blocked(output0, segs)
    ensures Store(output, ptr, last, Leaf(value)) == Put(output0, segs, last, value)
  {
  }

  /** test.go lines 14-27 for one entry: the walk down the key's segments with the map
      reference `ptr`, then the store of `splitty[1]`. */
  method InsertEntryWalk(output0: Tree, entry: string) returns (r: Result<Tree, ExpandError>)
    ensures r == InsertEntry(output0, entry)
  {
    var splitty := Split(entry, '=');
    var splittwo := Split(splitty[0], '.');
    ghost var last := splittwo[|splittwo| - 1];
    ghost var value := if |splitty| >= 2 then splitty[1] else "";
    var output := output0;
    var myvalue := "";
    var ptr: seq<string> := [];
    var i := 0;
    while i < |splittwo|
      invariant Walking(output0, splittwo, last, value, output, ptr, i)
      invariant i > 0 ==> myvalue == splittwo[i - 1]
    {
      WalkStep(output0, splittwo, last, value, output, ptr, i);
      var val := splittwo[i];
      if val !in MapAt(output, ptr) {
        output := Store(output, ptr, val, Internal(map[]));
      }
      if MapAt(output, ptr)[val].Leaf? {
        return Failure(Conflict);
      }
      ptr := ptr + [val];
      myvalue := val;
      i := i + 1;
    }
    WalkDone(output0, splittwo, last, value, output, ptr);
    if |splitty| < 2 {
      return Failure(MissingValue);
    }
    output := Store(output, ptr, myvalue, Leaf(splitty[1]));
    return Success(output);
  }

  /** test.go lines 12-28: expand every `,`-separated entry into one tree. */
  method ExpandSecrets(mystrings: string) returns (r: Result<Tree, ExpandError>)
    ensures r == Expand(mystrings)
  {
    var entries := Split(mystrings, ',');
    var myoutput: Tree := map[];
    var j := 0;
    while j < |entries|
      invariant 0 <= j <= |entries|
      invariant ExpandFrom(myoutput, entries[j..]) == Expand(mystrings)
    {
      assert entries[j..][0] == entries[j] && entries[j..][1..] == entries[j + 1..];
      var step := InsertEntryWalk(myoutput, entries[j]);
      if step.Failure? {
        return Failure(step.error);
      }
      myoutput := step.value;
      j := j + 1;
    }
    return Success(myoutput);
  }
}
