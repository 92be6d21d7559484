/**
 * The few pieces of Python string semantics the tool relies on, over
 * `seq<char>`: `str.replace`, `str.join`, `str.split(sep, 1)`, the regex
 * class `\w` and `str.lower`. `Split` (`str.split(sep)`) is not called by
 * the tool; it is a reference definition that characterises `replace` and
 * the line `print_vars` joins.
 */
module Text {

  /** ASCII reading of the regex class `\w`: `[A-Za-z0-9_]`. */
  predicate IsWordChar(c: char)
  {
    ('a' <= c <= 'z') || ('A' <= c <= 'Z') || ('0' <= c <= '9') || c == '_'
  }

  /** A string of `n` blanks, Python's `' ' * n`. */
  function Spaces(n: nat): (r: string)
    ensures |r| == n
    ensures forall i :: 0 <= i < n ==> r[i] == ' '
  {
    if n == 0 then "" else Spaces(n - 1) + " "
  }

  /** `'  ' * level`: the indentation of one tree level is two blanks. */
  function Indent(level: nat): string
  {
    Spaces(2 * level)
  }

  /** Python's `str.lower` restricted to ASCII letters. */
  function LowerChar(c: char): (r: char)
    ensures 'A' <= c <= 'Z' ==> r as int == c as int + 32
    ensures !('A' <= c <= 'Z') ==> r == c
  {
    if 'A' <= c <= 'Z' then (c as int + 32) as char else c
  }

  function Lower(s: string): (r: string)
    ensures |r| == |s|
    ensures forall i :: 0 <= i < |s| ==> r[i] == LowerChar(s[i])
  {
    seq(|s|, i requires 0 <= i < |s| => LowerChar(s[i]))
  }

  /**
   * `s.replace(p, r)` for a non-empty pattern: scan from the left, replace
   * the leftmost occurrence and continue after it, so occurrences never overlap.
   */
  function ReplaceAll(s: string, p: string, r: string): string
    requires |p| > 0
    decreases |s|
  {
    if |s| < |p| then s
    else if s[..|p|] == p then r + ReplaceAll(s[|p|..], p, r)
    else [s[0]] + ReplaceAll(s[1..], p, r)
  }

  /** `s.split(p)` for a non-empty separator: the pieces between the occurrences of `p`. */
  function Split(s: string, p: string): (pieces: seq<string>)
    requires |p| > 0
    ensures |pieces| >= 1
    decreases |s|
  {
    if |s| < |p| then [s]
    else if s[..|p|] == p then [""] + Split(s[|p|..], p)
    else
      var rest := Split(s[1..], p);
      [[s[0]] + rest[0]] + rest[1..]
  }

  /** `sep.join(xs)`. */
  function Join(xs: seq<string>, sep: string): string
  {
    if |xs| == 0 then ""
    else if |xs| == 1 then xs[0]
    else xs[0] + sep + Join(xs[1..], sep)
  }

  lemma {:induction false} JoinConsChar(c: char, t: string, rest: seq<string>, sep: string)
    ensures Join([[c] + t] + rest, sep) == [c] + Join([t] + rest, sep)
  {
    if |rest| > 0 {
      assert ([[c] + t] + rest)[1..] == rest;
      assert ([t] + rest)[1..] == rest;
    }
  }

  /**
   * `s.replace(p, r)` equals `r.join(s.split(p))`: the replacement is the
   * join of the pieces between the occurrences.
   */
  lemma {:induction false} ReplaceIsJoinOfSplit(s: string, p: string, r: string)
    requires |p| > 0
    ensures ReplaceAll(s, p, r) == Join(Split(s, p), r)
    decreases |s|
  {
    if |s| < |p| {
    } else if s[..|p|] == p {
      ReplaceIsJoinOfSplit(s[|p|..], p, r);
      var rest := Split(s[|p|..], p);
      assert ([""] + rest)[1..] == rest;
    } else {
      ReplaceIsJoinOfSplit(s[1..], p, r);
      var rest := Split(s[1..], p);
      JoinConsChar(s[0], rest[0], rest[1..], r);
      assert [rest[0]] + rest[1..] == rest;
    }
  }

  /** A pattern whose first character does not occur in `s` leaves `s` unchanged. */
  lemma {:induction false} ReplaceAbsent(s: string, p: string, r: string)
    requires |p| > 0 && p[0] !in s
    ensures ReplaceAll(s, p, r) == s
    decreases |s|
  {
    if |s| >= |p| {
      assert s[..|p|][0] == s[0];
      assert s[0] in s;
      assert s[1..] + [] == s[1..];
      forall c | c in s[1..] ensures c in s { }
      ReplaceAbsent(s[1..], p, r);
      assert [s[0]] + s[1..] == s;
    }
  }

  /** An occurrence of `p` at the front is replaced, and the scan resumes after it. */
  lemma ReplaceHit(s: string, p: string, r: string)
    requires 0 < |p| <= |s| && s[..|p|] == p
    ensures ReplaceAll(s, p, r) == r + ReplaceAll(s[|p|..], p, r)
  {
  }

  /** No occurrence at the front: the first character is kept, and the scan moves one step. */
  lemma ReplaceMiss(s: string, p: string, r: string)
    requires 0 < |p| <= |s| && s[..|p|] != p
    ensures ReplaceAll(s, p, r) == [s[0]] + ReplaceAll(s[1..], p, r)
  {
  }

  /** A prefix that cannot start an occurrence passes through unchanged. */
  lemma {:induction false} ReplaceAfter(u: string, v: string, p: string, r: string)
    requires |p| > 0 && p[0] !in u
    ensures ReplaceAll(u + v, p, r) == u + ReplaceAll(v, p, r)
    decreases |u|
  {
    if u != [] {
      var s := u + v;
      assert u[0] in u;
      if |s| >= |p| {
        assert s[..|p|][0] == u[0];
        assert s[1..] == u[1..] + v;
        assert forall c :: c in u[1..] ==> c in u;
        ReplaceAfter(u[1..], v, p, r);
        assert [u[0]] + u[1..] == u;
      } else {
        ReplaceShortText(s, p, r);
        ReplaceShortText(v, p, r);
      }
    } else {
      assert u + v == v;
    }
  }

  /** A text shorter than the pattern is left as it is. */
  lemma ReplaceShortText(s: string, p: string, r: string)
    requires 0 < |p| && |s| < |p|
    ensures ReplaceAll(s, p, r) == s
  {
  }

  /** Splitting a string in which the separator's first character never occurs gives one piece. */
  lemma {:induction false} SplitWithout(s: string, p: string)
    requires |p| > 0 && p[0] !in s
    ensures Split(s, p) == [s]
    decreases |s|
  {
    if |s| >= |p| {
      assert s[..|p|][0] == s[0];
      assert s[0] in s;
      forall c | c in s[1..] ensures c in s { }
      SplitWithout(s[1..], p);
      assert [s[0]] + s[1..] == s;
    }
  }

  lemma {:induction false} SplitAfterPiece(x: string, p: string, rest: string)
    requires |p| > 0 && p[0] !in x
    ensures Split(x + p + rest, p) == [x] + Split(rest, p)
    decreases |x|
  {
    var s := x + p + rest;
    if |x| == 0 {
      assert s == p + rest;
      assert s[..|p|] == p;
      assert s[|p|..] == rest;
    } else {
      assert s[..|p|][0] == x[0];
      assert x[0] in x;
      forall c | c in x[1..] ensures c in x { }
      SplitAfterPiece(x[1..], p, rest);
      assert s[1..] == x[1..] + p + rest;
      assert [x[0]] + x[1..] == x;
    }
  }

  /**
   * `sep.join` followed by `split(sep)` gives the pieces back, provided the
   * separator's first character occurs in no piece.
   */
  lemma {:induction false} SplitJoin(xs: seq<string>, p: string)
    requires |p| > 0 && |xs| > 0
    requires forall i :: 0 <= i < |xs| ==> p[0] !in xs[i]
    ensures Split(Join(xs, p), p) == xs
    decreases |xs|
  {
    if |xs| == 1 {
      SplitWithout(xs[0], p);
    } else {
      SplitJoin(xs[1..], p);
      SplitAfterPiece(xs[0], p, Join(xs[1..], p));
      assert [xs[0]] + xs[1..] == xs;
    }
  }

  /**
   * `s.split(c, 1)`: one piece when `c` does not occur, otherwise the text
   * before the first `c` and everything after it.
   */
  function SplitOnce(s: string, c: char): (r: seq<string>)
    ensures |r| == 1 <==> c !in s
    ensures |r| == 1 ==> r[0] == s
    ensures |r| == 2 ==> r[0] + [c] + r[1] == s && c !in r[0]
    ensures |r| == 1 || |r| == 2
  {
    if |s| == 0 then [s]
    else if s[0] == c then ["", s[1..]]
    else
      var rest := SplitOnce(s[1..], c);
      assert [s[0]] + s[1..] == s;
      if |rest| == 1 then [s] else [[s[0]] + rest[0], rest[1]]
  }
}
