/**
 * `read_to_template`: the reverse direction, writing an existing directory
 * tree out as template text. A directory becomes `name:` followed by its
 * children one level deeper; a file becomes `name: |-` followed by its lines,
 * each pushed right by one more level, and a closing blank line; anything
 * else is skipped.
 */
module Serializer {
  import opened Text

  /** A path on disk as `read_to_template` sees it; a directory's children come in `iterdir` order. */
  datatype DiskNode =
    | DirNode(name: string, children: seq<DiskNode>)
    | FileNode(name: string, content: string)
    | OtherNode(name: string)

  function Concat(ls: seq<string>): string
  {
    if ls == [] then "" else ls[0] + Concat(ls[1..])
  }

  /** A line as a text file yields it: non-empty, with no line break before its last character. */
  predicate IsLine(l: string)
  {
    |l| > 0 && forall k :: 0 <= k < |l| - 1 ==> l[k] != '\n'
  }

  predicate EndsLine(l: string)
  {
    |l| > 0 && l[|l| - 1] == '\n'
  }

  /** Length of the first line of `s`: up to and including the first line break, or all of `s`. */
  function LineLength(s: string): (n: nat)
    requires s != []
    ensures 1 <= n <= |s|
    ensures forall k :: 0 <= k < n - 1 ==> s[k] != '\n'
    ensures n < |s| ==> s[n - 1] == '\n'
  {
    if s[0] == '\n' || |s| == 1 then 1 else 1 + LineLength(s[1..])
  }

  /**
   * `for line in f`: the lines of a text, each keeping its line break; only
   * the last may lack one. Together they make up the text exactly.
   */
  function Lines(s: string): (ls: seq<string>)
    ensures Concat(ls) == s
    ensures forall i :: 0 <= i < |ls| ==> IsLine(ls[i])
    ensures forall i :: 0 <= i < |ls| - 1 ==> EndsLine(ls[i])
    decreases |s|
  {
    if s == [] then []
    else
      var n := LineLength(s);
      assert s[..n] + s[n..] == s;
      [s[..n]] + Lines(s[n..])
  }

  /** Every line pushed right by `margin`. */
  function Block(ls: seq<string>, margin: string): string
  {
    if ls == [] then "" else margin + ls[0] + Block(ls[1..], margin)
  }

  /** A file's lines as they appear under its entry: one level deeper than the entry itself. */
  function FileBody(content: string, indent: nat): string
  {
    Block(Lines(content), "  " + Indent(indent))
  }

  /** What a node at depth `indent` adds to the template file. */
  function Serialize(t: DiskNode, indent: nat): string
    decreases t
  {
    match t
    case DirNode(name, children) => Indent(indent) + name + ":\n" + SerializeAll(children, indent + 1)
    case FileNode(name, content) =>
      Indent(indent) + name + ": |-\n" + FileBody(content, indent) + "\n"
    case OtherNode(_) => ""
  }

  function SerializeAll(ts: seq<DiskNode>, indent: nat): string
    decreases ts
  {
    if ts == [] then "" else Serialize(ts[0], indent) + SerializeAll(ts[1..], indent)
  }

  /** The open template file: the text written to it so far. */
  class TemplateFile {
    var text: string

    constructor ()
      ensures text == ""
    {
      text := "";
    }

    method Write(s: string)
      modifies this
      ensures text == old(text) + s
    {
      text := text + s;
    }

    method ReadToTemplate(t: DiskNode, indent: nat)
      modifies this
      ensures text == old(text) + Serialize(t, indent)
      decreases t
    {
      ghost var goal := text + Serialize(t, indent);
      var indentStr := Indent(indent);
      match t
      case DirNode(name, children) =>
        Append(old(text), indentStr + name + ":\n", SerializeAll(children, indent + 1));
        Write(indentStr + name + ":\n");
        assert children[0..] == children;
        for i := 0 to |children|
          invariant goal == text + SerializeAll(children[i..], indent + 1)
        {
          SerializeAllAt(children, i, indent + 1);
          Append(text, Serialize(children[i], indent + 1), SerializeAll(children[i + 1..], indent + 1));
          ReadToTemplate(children[i], indent + 1);
        }
        assert children[|children|..] == [];
      case FileNode(name, content) =>
        var lines := Lines(content);
        Append(old(text), indentStr + name + ": |-\n", Block(lines, "  " + indentStr) + "\n");
        Write(indentStr + name + ": |-\n");
        assert lines[0..] == lines;
        for i := 0 to |lines|
          invariant goal == text + (Block(lines[i..], "  " + indentStr) + "\n")
        {
          BlockAt(lines, i, "  " + indentStr);
          Append(text, "  " + indentStr + lines[i], Block(lines[i + 1..], "  " + indentStr) + "\n");
          Write("  " + indentStr + lines[i]);
        }
        assert lines[|lines|..] == [];
        Write("\n");
      case OtherNode(_) =>
    }
  }

  lemma Append(a: string, b: string, c: string)
    ensures a + (b + c) == (a + b) + c
  {
  }

  lemma SerializeAllAt(ts: seq<DiskNode>, i: nat, indent: nat)
    requires i < |ts|
    ensures SerializeAll(ts[i..], indent) == Serialize(ts[i], indent) + SerializeAll(ts[i + 1..], indent)
  {
    assert ts[i..][0] == ts[i];
    assert ts[i..][1..] == ts[i + 1..];
  }

  lemma BlockAt(ls: seq<string>, i: nat, margin: string)
    requires i < |ls|
    ensures Block(ls[i..], margin) == margin + ls[i] + Block(ls[i + 1..], margin)
  {
    assert ls[i..][0] == ls[i];
    assert ls[i..][1..] == ls[i + 1..];
  }

  // The lines of a text.

  /** A line followed by more text is still read as that line first. */
  lemma {:induction false} FirstLine(x: string, rest: string)
    requires IsLine(x) && (EndsLine(x) || rest == [])
    ensures LineLength(x + rest) == |x|
    decreases |x|
  {
    var s := x + rest;
    if |x| > 1 {
      assert s[0] == x[0] != '\n';
      assert s[1..] == x[1..] + rest;
      FirstLine(x[1..], rest);
    }
  }

  /** `Lines` is the only way to cut a text into lines: any such cutting is the one `Lines` finds. */
  lemma {:induction false} LinesUnique(ls: seq<string>)
    requires forall i :: 0 <= i < |ls| ==> IsLine(ls[i])
    requires forall i :: 0 <= i < |ls| - 1 ==> EndsLine(ls[i])
    ensures Lines(Concat(ls)) == ls
    decreases |ls|
  {
    if ls != [] {
      var rest := Concat(ls[1..]);
      if |ls| == 1 {
        assert ls[1..] == [];
      }
      FirstLine(ls[0], rest);
      assert (ls[0] + rest)[|ls[0]|..] == rest;
      assert (ls[0] + rest)[..|ls[0]|] == ls[0];
      LinesUnique(ls[1..]);
    }
  }

  // Reading a file's lines back from under its entry.

  /** `l` with up to `width` leading characters removed. */
  function Unindent(l: string, width: nat): string
  {
    if |l| <= width then "" else l[width..]
  }

  function UnindentLines(ls: seq<string>, width: nat): string
  {
    if ls == [] then "" else Unindent(ls[0], width) + UnindentLines(ls[1..], width)
  }

  /** The text under an entry, each of its lines moved `width` columns left. */
  function Dedent(body: string, width: nat): string
  {
    UnindentLines(Lines(body), width)
  }

  function Prefixed(ls: seq<string>, margin: string): (r: seq<string>)
    ensures |r| == |ls|
    ensures forall i :: 0 <= i < |ls| ==> r[i] == margin + ls[i]
  {
    seq(|ls|, i requires 0 <= i < |ls| => margin + ls[i])
  }

  lemma {:induction false} BlockLines(ls: seq<string>, margin: string)
    requires '\n' !in margin
    requires forall i :: 0 <= i < |ls| ==> IsLine(ls[i])
    requires forall i :: 0 <= i < |ls| - 1 ==> EndsLine(ls[i])
    ensures Lines(Block(ls, margin)) == Prefixed(ls, margin)
  {
    var ps := Prefixed(ls, margin);
    BlockConcat(ls, margin);
    forall i | 0 <= i < |ps| ensures IsLine(ps[i]) {
      forall k | 0 <= k < |ps[i]| - 1 ensures ps[i][k] != '\n' {
        if k < |margin| {
          assert ps[i][k] == margin[k];
        } else {
          assert ps[i][k] == ls[i][k - |margin|];
        }
      }
    }
    forall i | 0 <= i < |ps| - 1 ensures EndsLine(ps[i]) {
      assert ps[i][|ps[i]| - 1] == ls[i][|ls[i]| - 1];
    }
    LinesUnique(ps);
  }

  lemma {:induction false} BlockConcat(ls: seq<string>, margin: string)
    ensures Concat(Prefixed(ls, margin)) == Block(ls, margin)
    decreases |ls|
  {
    if ls != [] {
      assert Prefixed(ls, margin)[1..] == Prefixed(ls[1..], margin);
      BlockConcat(ls[1..], margin);
    }
  }

  lemma {:induction false} UnindentPrefixed(ls: seq<string>, margin: string)
    requires forall i :: 0 <= i < |ls| ==> IsLine(ls[i])
    ensures UnindentLines(Prefixed(ls, margin), |margin|) == Concat(ls)
    decreases |ls|
  {
    if ls != [] {
      assert (margin + ls[0])[|margin|..] == ls[0];
      assert Prefixed(ls, margin)[1..] == Prefixed(ls[1..], margin);
      UnindentPrefixed(ls[1..], margin);
    }
  }

  /**
   * A file's content survives the trip into the template: moving every line
   * of its body back by the body's margin gives the content exactly.
   */
  lemma FileBodyRoundTrip(content: string, indent: nat)
    ensures Dedent(FileBody(content, indent), 2 * indent + 2) == content
  {
    var margin := "  " + Indent(indent);
    assert '\n' !in margin by {
      assert forall k :: 0 <= k < |margin| ==> margin[k] == ' ';
    }
    BlockLines(Lines(content), margin);
    UnindentPrefixed(Lines(content), margin);
  }

  // Indentation by depth.

  /** Position `k` of `s` begins a line: it is the first character or follows a line break. */
  predicate LineStart(s: string, k: int)
  {
    0 <= k < |s| && (k == 0 || s[k - 1] == '\n')
  }

  /** Every line of `s` that is not blank begins with `width` blanks. */
  ghost predicate Indented(s: string, width: nat)
  {
    forall k :: LineStart(s, k) && s[k] != '\n' ==> k + width <= |s| && s[k..k + width] == Spaces(width)
  }

  /** No name in the tree holds a line break. */
  predicate PlainNames(t: DiskNode)
    decreases t
  {
    '\n' !in t.name &&
    match t
    case DirNode(_, children) => forall i :: 0 <= i < |children| ==> PlainNames(children[i])
    case _ => true
  }

  lemma IndentedConcat(a: string, b: string, width: nat)
    requires Indented(a, width) && Indented(b, width)
    ensures Indented(a + b, width)
  {
    var s := a + b;
    forall k | LineStart(s, k) && s[k] != '\n'
      ensures k + width <= |s| && s[k..k + width] == Spaces(width)
    {
      if k < |a| {
        assert LineStart(a, k);
        assert s[k..k + width] == a[k..k + width];
      } else {
        var j := k - |a|;
        assert LineStart(b, j);
        assert s[k..k + width] == b[j..j + width];
      }
    }
  }

  lemma IndentedWeaken(s: string, width: nat, narrower: nat)
    requires narrower <= width && Indented(s, width)
    ensures Indented(s, narrower)
  {
    forall k | LineStart(s, k) && s[k] != '\n'
      ensures k + narrower <= |s| && s[k..k + narrower] == Spaces(narrower)
    {
      assert s[k..k + narrower] == s[k..k + width][..narrower];
    }
  }

  /** A single line that starts with `width` blanks. */
  lemma IndentedLine(margin: string, x: string, width: nat)
    requires margin == Spaces(width) && IsLine(margin + x)
    ensures Indented(margin + x, width)
  {
    var s := margin + x;
    forall k | LineStart(s, k) && s[k] != '\n'
      ensures k + width <= |s| && s[k..k + width] == Spaces(width)
    {
      assert k == 0;
      assert s[..width] == margin;
    }
  }

  lemma {:induction false} BlockIndented(ls: seq<string>, width: nat)
    requires forall i :: 0 <= i < |ls| ==> IsLine(ls[i])
    ensures Indented(Block(ls, Spaces(width)), width)
    decreases |ls|
  {
    if ls != [] {
      var m := Spaces(width);
      assert IsLine(m + ls[0]) by {
        forall k | 0 <= k < |m + ls[0]| - 1 ensures (m + ls[0])[k] != '\n' {
          if k >= |m| {
            assert (m + ls[0])[k] == ls[0][k - |m|];
          }
        }
      }
      IndentedLine(m, ls[0], width);
      BlockIndented(ls[1..], width);
      IndentedConcat(m + ls[0], Block(ls[1..], m), width);
    }
  }

  /** The header line of an entry: the indentation, the name, then `tail`. */
  lemma HeaderIndented(indent: nat, name: string, tail: string)
    requires '\n' !in name && (tail == ":\n" || tail == ": |-\n")
    ensures Indented(Indent(indent) + name + tail, 2 * indent)
  {
    var m := Indent(indent);
    assert m + name + tail == m + (name + tail);
    assert IsLine(m + (name + tail)) by {
      var s := m + (name + tail);
      forall k | 0 <= k < |s| - 1 ensures s[k] != '\n' {
        if k < |m| {
          assert s[k] == m[k];
        } else if k < |m| + |name| {
          assert s[k] == name[k - |m|];
        } else {
          assert s[k] == tail[k - |m| - |name|];
        }
      }
    }
    IndentedLine(m, name + tail, 2 * indent);
  }

  /**
   * Everything a node at depth `d` writes is indented by at least `2d`
   * blanks, except the blank line closing a file; its own entry line is at
   * exactly that depth and its children's lines one level deeper.
   */
  lemma {:induction false} SerializeIndented(t: DiskNode, indent: nat)
    requires PlainNames(t)
    ensures Indented(Serialize(t, indent), 2 * indent)
    decreases t
  {
    match t
    case DirNode(name, children) =>
      HeaderIndented(indent, name, ":\n");
      SerializeAllIndented(children, indent + 1);
      IndentedWeaken(SerializeAll(children, indent + 1), 2 * indent + 2, 2 * indent);
      IndentedConcat(Indent(indent) + name + ":\n", SerializeAll(children, indent + 1), 2 * indent);
    case FileNode(name, content) =>
      HeaderIndented(indent, name, ": |-\n");
      assert "  " + Indent(indent) == Spaces(2 * indent + 2);
      BlockIndented(Lines(content), 2 * indent + 2);
      IndentedWeaken(FileBody(content, indent), 2 * indent + 2, 2 * indent);
      IndentedConcat(Indent(indent) + name + ": |-\n", FileBody(content, indent), 2 * indent);
      assert Indented("\n", 2 * indent) by {
        assert forall k :: LineStart("\n", k) ==> k == 0;
      }
      IndentedConcat(Indent(indent) + name + ": |-\n" + FileBody(content, indent), "\n", 2 * indent);
    case OtherNode(_) =>
  }

  lemma {:induction false} SerializeAllIndented(ts: seq<DiskNode>, indent: nat)
    requires forall i :: 0 <= i < |ts| ==> PlainNames(ts[i])
    ensures Indented(SerializeAll(ts, indent), 2 * indent)
    decreases ts
  {
    if ts != [] {
      SerializeIndented(ts[0], indent);
      SerializeAllIndented(ts[1..], indent);
      IndentedConcat(Serialize(ts[0], indent), SerializeAll(ts[1..], indent), 2 * indent);
    }
  }

  /** Only a path that is neither a directory nor a file writes nothing. */
  lemma EmptyIffOther(t: DiskNode, indent: nat)
    ensures Serialize(t, indent) == "" <==> t.OtherNode?
  {
    match t
    case DirNode(name, children) =>
      assert |Serialize(t, indent)| >= |":\n"|;
    case FileNode(name, content) =>
      assert |Serialize(t, indent)| >= 1;
    case OtherNode(_) =>
  }
}
