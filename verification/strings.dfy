/** Python string helpers the loader relies on: `startswith`, `str.split(sep)` and `sep.join`. */
module Strings {

  /** `s.startswith(prefix)` */
  predicate StartsWith(s: string, prefix: string) {
    |prefix| <= |s| && s[..|prefix|] == prefix
  }

  /** Number of occurrences of `c` in `s`. */
  function CountChar(s: string, c: char): nat
    decreases |s|
  {
    if |s| == 0 then 0 else (if s[0] == c then 1 else 0) + CountChar(s[1..], c)
  }

  lemma {:induction false} CountCharZero(s: string, c: char)
    ensures CountChar(s, c) == 0 <==> c !in s
    decreases |s|
  {
    if |s| > 0 {
      CountCharZero(s[1..], c);
      assert s == [s[0]] + s[1..];
    }
  }

  lemma {:induction false} CountCharConcat(a: string, b: string, c: char)
    ensures CountChar(a + b, c) == CountChar(a, c) + CountChar(b, c)
    decreases |a|
  {
    if |a| > 0 {
      assert (a + b)[1..] == a[1..] + b;
      CountCharConcat(a[1..], b, c);
    } else {
      assert a + b == b;
    }
  }

  /** Python's `s.split(sep)` for a one-character separator: always at least one
      piece, no piece contains the separator, and there is one more piece than
      there are separators. */
  function Split(s: string, sep: char): (parts: seq<string>)
    ensures |parts| == CountChar(s, sep) + 1
    ensures forall i :: 0 <= i < |parts| ==> sep !in parts[i]
    ensures sep !in s ==> parts == [s]
    decreases |s|
  {
    if |s| == 0 then [""]
    else
      var rest := Split(s[1..], sep);
      if s[0] == sep then [""] + rest
      else
        assert sep !in [s[0]] + rest[0];
        assert sep !in s ==> sep !in s[1..] && [s[0]] + s[1..] == s;
        [[s[0]] + rest[0]] + rest[1..]
  }

  /** Python's `sep.join(parts)` for a one-character separator. */
  function Join(parts: seq<string>, sep: char): string
    decreases |parts|
  {
    if |parts| == 0 then ""
    else if |parts| == 1 then parts[0]
    else parts[0] + [sep] + Join(parts[1..], sep)
  }

  /** Joining the pieces of a split gives back the original string. */
  lemma {:induction false} JoinSplit(s: string, sep: char)
    ensures Join(Split(s, sep), sep) == s
    decreases |s|
  {
    if |s| > 0 {
      var rest := Split(s[1..], sep);
      JoinSplit(s[1..], sep);
      if s[0] == sep {
        assert Join([""] + rest, sep) == "" + [sep] + Join(rest, sep);
        assert s == [sep] + s[1..];
      } else {
        JoinPrepend([s[0]], rest, sep);
        assert s == [s[0]] + s[1..];
      }
    }
  }

  /** Prepending text to the first piece prepends it to the join. */
  lemma JoinPrepend(prefix: string, parts: seq<string>, sep: char)
    requires |parts| >= 1
    ensures Join([prefix + parts[0]] + parts[1..], sep) == prefix + Join(parts, sep)
  {
    var moved := [prefix + parts[0]] + parts[1..];
    if |parts| > 1 {
      assert moved[1..] == parts[1..];
    }
  }

  /** Splitting `a + sep + b` where `a` has no separator peels `a` off first. */
  lemma {:induction false} SplitAfterPiece(a: string, b: string, sep: char)
    requires sep !in a
    ensures Split(a + [sep] + b, sep) == [a] + Split(b, sep)
    decreases |a|
  {
    if |a| == 0 {
      assert a + [sep] + b == [sep] + b;
      assert ([sep] + b)[1..] == b;
    } else {
      assert (a + [sep] + b)[1..] == a[1..] + [sep] + b;
      SplitAfterPiece(a[1..], b, sep);
      assert [a[0]] + a[1..] == a;
    }
  }

  /** Splitting a join of separator-free pieces gives back the pieces. */
  lemma {:induction false} SplitJoin(parts: seq<string>, sep: char)
    requires |parts| >= 1
    requires forall i :: 0 <= i < |parts| ==> sep !in parts[i]
    ensures Split(Join(parts, sep), sep) == parts
    decreases |parts|
  {
    if |parts| > 1 {
      SplitJoin(parts[1..], sep);
      SplitAfterPiece(parts[0], Join(parts[1..], sep), sep);
      assert [parts[0]] + parts[1..] == parts;
    }
  }

  /** A character that occurs in no piece and is not the separator does not occur in the join. */
  lemma {:induction false} JoinExcludes(parts: seq<string>, sep: char, c: char)
    requires c != sep
    requires forall i :: 0 <= i < |parts| ==> c !in parts[i]
    ensures c !in Join(parts, sep)
    decreases |parts|
  {
    if |parts| > 1 {
      JoinExcludes(parts[1..], sep, c);
    }
  }

  /** The join of two or more pieces is the first piece, the separator, and the join of the rest. */
  /** Every character of a piece occurs in the join. */
  lemma {:induction false} JoinContains(parts: seq<string>, sep: char, k: int, c: char)
    requires 0 <= k < |parts| && c in parts[k]
    ensures c in Join(parts, sep)
    decreases |parts|
  {
    if |parts| >= 2 {
      JoinHead(parts, sep);
      if k > 0 {
        JoinContains(parts[1..], sep, k - 1, c);
      }
    }
  }

  lemma JoinHead(parts: seq<string>, sep: char)
    requires |parts| >= 2
    ensures Join(parts, sep) == parts[0] + [sep] + Join(parts[1..], sep)
  {
  }

  /** The join of two or more pieces starts with the first two pieces and their separator. */
  lemma JoinFirstTwo(parts: seq<string>, sep: char)
    requires |parts| >= 2
    ensures StartsWith(Join(parts, sep), parts[0] + [sep] + parts[1])
    ensures |parts| == 2 ==> Join(parts, sep) == parts[0] + [sep] + parts[1]
    ensures |parts| > 2 ==> StartsWith(Join(parts, sep), parts[0] + [sep] + parts[1] + [sep])
  {
    var tail := Join(parts[1..], sep);
    assert Join(parts, sep) == parts[0] + [sep] + tail;
    if |parts| == 2 {
      assert tail == parts[1];
    } else {
      assert tail == parts[1] + [sep] + Join(parts[2..], sep);
      assert Join(parts, sep) == (parts[0] + [sep] + parts[1] + [sep]) + Join(parts[2..], sep);
    }
  }
}
