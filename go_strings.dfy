/** The parts of Go's `strings` package that the program uses, for a separator of one
    character (every separator in the program is one: ",", "=", ".", "/" and "-"). */
module GoStrings {

  /** Number of occurrences of `c` in `s`. */
  function Count(s: string, c: char): nat
  {
    if s == [] then 0 else (if s[0] == c then 1 else 0) + Count(s[1..], c)
  }

  /** `strings.Split(s, sep)`: the pieces of `s` between the occurrences of `sep`.
      There is always at least one piece; the empty string gives one empty piece. */
  function Split(s: string, sep: char): (r: seq<string>)
    ensures |r| >= 1
    ensures forall i :: 0 <= i < |r| ==> sep !in r[i]
    decreases |s|
  {
    if s == [] then [""]
    else
      var rest := Split(s[1..], sep);
      if s[0] == sep then [""] + rest
      else [[s[0]] + rest[0]] + rest[1..]
  }

  /** `strings.Join(parts, sep)`, the inverse of Split. */
  function Join(parts: seq<string>, sep: char): string
    decreases |parts|
  {
    if parts == [] then ""
    else if |parts| == 1 then parts[0]
    else parts[0] + [sep] + Join(parts[1..], sep)
  }

  /** The text of `s` before the first `c` (all of `s` when there is none). */
  function Before(s: string, c: char): (r: string)
    ensures r <= s && c !in r
    ensures |r| < |s| ==> s[|r|] == c
    decreases |s|
  {
    if s == [] || s[0] == c then "" else [s[0]] + Before(s[1..], c)
  }

  /** The text of `s` after its first `c`. */
  function After(s: string, c: char): (r: string)
    requires c in s
    ensures s == Before(s, c) + [c] + r
    decreases |s|
  {
    if s[0] == c then s[1..] else After(s[1..], c)
  }

  /** The text between the first and the second `c` of `s` (up to the end when there is
      no second one), or "" when `c` does not occur. */
  function SecondField(s: string, c: char): string
  {
    if c in s then Before(After(s, c), c) else ""
  }

  /** Split yields exactly one more piece than there are separators. */
  lemma {:induction false} SplitCount(s: string, sep: char)
    ensures |Split(s, sep)| == Count(s, sep) + 1
    decreases |s|
  {
    if s != [] {
      SplitCount(s[1..], sep);
    }
  }

  /** Without a separator, Split gives the whole string back as its only piece. */
  lemma {:induction false} SplitNoSeparator(s: string, sep: char)
    requires sep !in s
    ensures Split(s, sep) == [s]
    decreases |s|
  {
    if s != [] {
      SplitNoSeparator(s[1..], sep);
      assert s == [s[0]] + s[1..];
    }
  }

  /** Splitting across a separator splits each side on its own. */
  lemma {:induction false} SplitConcat(a: string, sep: char, b: string)
    ensures Split(a + [sep] + b, sep) == Split(a, sep) + Split(b, sep)
    decreases |a|
  {
    var s := a + [sep] + b;
    if a == [] {
      assert s[0] == sep && s[1..] == b;
    } else {
      assert s[0] == a[0] && s[1..] == a[1..] + [sep] + b;
      SplitConcat(a[1..], sep, b);
    }
  }

  /** Joining the pieces of a split gives back the original string. */
  lemma {:induction false} JoinSplit(s: string, sep: char)
    ensures Join(Split(s, sep), sep) == s
    decreases |s|
  {
    if s != [] {
      var rest := Split(s[1..], sep);
      JoinSplit(s[1..], sep);
      if s[0] == sep {
        assert Join([""] + rest, sep) == "" + [sep] + Join(rest, sep);
      } else if |rest| == 1 {
        assert Split(s, sep) == [[s[0]] + rest[0]];
      } else {
        var parts := Split(s, sep);
        assert parts[1..] == rest[1..];
        calc {
          Join(parts, sep);
          ([s[0]] + rest[0]) + [sep] + Join(rest[1..], sep);
          [s[0]] + (rest[0] + [sep] + Join(rest[1..], sep));
          [s[0]] + Join(rest, sep);
        }
      }
    }
  }

  /** Splitting a join of separator-free pieces gives back the pieces. */
  lemma {:induction false} SplitJoin(parts: seq<string>, sep: char)
    requires |parts| >= 1
    requires forall i :: 0 <= i < |parts| ==> sep !in parts[i]
    ensures Split(Join(parts, sep), sep) == parts
    decreases |parts|
  {
    SplitNoSeparator(parts[0], sep);
    if |parts| > 1 {
      SplitJoin(parts[1..], sep);
      SplitConcat(parts[0], sep, Join(parts[1..], sep));
    }
  }

  /** A character absent from a string is absent from each of its pieces. */
  lemma {:induction false} SplitAvoids(s: string, sep: char, c: char)
    requires c !in s
    ensures forall i :: 0 <= i < |Split(s, sep)| ==> c !in Split(s, sep)[i]
    decreases |s|
  {
    if s != [] {
      SplitAvoids(s[1..], sep, c);
    }
  }

  /** A character that is not the separator and occurs in no piece does not occur in
      their join. */
  lemma {:induction false} JoinAvoids(parts: seq<string>, sep: char, c: char)
    requires c != sep
    requires forall i :: 0 <= i < |parts| ==> c !in parts[i]
    ensures c !in Join(parts, sep)
    decreases |parts|
  {
    if |parts| > 1 {
      JoinAvoids(parts[1..], sep, c);
    }
  }

  /** The first piece of a split is the text before the first separator. */
  lemma {:induction false} SplitHead(s: string, sep: char)
    ensures Split(s, sep)[0] == Before(s, sep)
    decreases |s|
  {
    if s != [] && s[0] != sep {
      SplitHead(s[1..], sep);
    }
  }

  /** There is a second piece exactly when the separator occurs; the pieces after the
      first are then the split of the text after the first separator, so the second
      piece is the text between the first and the second separator. */
  lemma {:induction false} SplitFields(s: string, sep: char)
    ensures |Split(s, sep)| >= 2 <==> sep in s
    ensures sep in s ==> Split(s, sep)[1..] == Split(After(s, sep), sep)
    ensures sep in s ==> Split(s, sep)[1] == SecondField(s, sep)
  {
    if sep in s {
      var b, a := Before(s, sep), After(s, sep);
      SplitConcat(b, sep, a);
      SplitNoSeparator(b, sep);
      SplitHead(a, sep);
    } else {
      SplitNoSeparator(s, sep);
    }
  }

  /** `strings.Contains(s, substr)`. */
  predicate Contains(s: string, substr: string)
    ensures Contains(s, substr) ==> |substr| <= |s|
    decreases |s|
  {
    substr <= s || (s != [] && Contains(s[1..], substr))
  }

  /** `substr` occurs in `s` starting at position `i`. */
  predicate OccursAt(s: string, substr: string, i: int)
  {
    0 <= i <= |s| - |substr| && s[i..i + |substr|] == substr
  }

  /** Contains holds exactly when `substr` occurs at some position of `s`. */
  lemma {:induction false} ContainsOccurs(s: string, substr: string)
    ensures Contains(s, substr) <==> exists i :: OccursAt(s, substr, i)
    decreases |s|
  {
    if s == [] {
      if substr == [] {
        assert OccursAt(s, substr, 0);
      }
    } else {
      ContainsOccurs(s[1..], substr);
      if substr <= s {
        assert OccursAt(s, substr, 0);
      } else if Contains(s[1..], substr) {
        var i :| OccursAt(s[1..], substr, i);
        assert s[i + 1..i + 1 + |substr|] == s[1..][i..i + |substr|];
        assert OccursAt(s, substr, i + 1);
      }
      if exists i :: OccursAt(s, substr, i) {
        var i :| OccursAt(s, substr, i);
        if i > 0 {
          assert s[1..][i - 1..i - 1 + |substr|] == s[i..i + |substr|];
          assert OccursAt(s[1..], substr, i - 1);
        } else {
          assert s[..|substr|] == substr;
        }
      }
    }
  }

  /** ASCII case folding of one character. */
  function LowerChar(c: char): char
  {
    if 'A' <= c <= 'Z' then (c as int - 'A' as int + 'a' as int) as char else c
  }

  /** `strings.ToLower`, restricted to ASCII letters. */
  function ToLower(s: string): (r: string)
    ensures |r| == |s|
    ensures forall i :: 0 <= i < |s| ==> r[i] == LowerChar(s[i])
    decreases |s|
  {
    if s == [] then "" else [LowerChar(s[0])] + ToLower(s[1..])
  }

  /** Lowering leaves no upper-case ASCII letter, and lowering twice changes nothing. */
  lemma ToLowerIsLower(s: string)
    ensures forall i :: 0 <= i < |s| ==> !('A' <= ToLower(s)[i] <= 'Z')
    ensures ToLower(ToLower(s)) == ToLower(s)
  {
  }

  /** Lowering neither adds nor removes a character that is not an ASCII letter. */
  lemma ToLowerKeeps(s: string, c: char)
    requires !('A' <= c <= 'Z') && !('a' <= c <= 'z')
    ensures c in ToLower(s) <==> c in s
  {
  }
}
