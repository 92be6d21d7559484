/**
 * `write_template`: the recursive, pre-order walk that turns a decoded
 * template tree into directories and files, printing one line per node when
 * verbose or dry-run is set, and touching nothing in dry-run mode.
 *
 * The file system is an abstract map from paths (sequences of segments) to
 * entries. The root path `[]` counts as a directory (`IsDir`) without an
 * entry, and is stored only when a string is written at it.
 */
module Materializer {
  import opened Wrappers
  import opened Text

  type Path = seq<string>

  datatype Entry = Dir | File(content: string)

  type FileSystem = map<Path, Entry>

  /**
   * A value decoded from the YAML template: `None`, a string, a dict (its
   * items in dict order) or any other value, kept as the text Python shows for it.
   */
  datatype Node = Null | Str(text: string) | Mapping(items: seq<Item>) | Other(shown: string)

  datatype Item = Item(key: string, value: Node)

  /** `Path.name`: the last segment. */
  function Name(p: Path): string
  {
    if |p| == 0 then "" else p[|p| - 1]
  }

  /** `Path.parent`. */
  function Parent(p: Path): Path
  {
    if |p| == 0 then p else p[..|p| - 1]
  }

  /** `q` lies in the subtree rooted at `p` (or is `p`). */
  predicate Within(q: Path, p: Path)
  {
    |p| <= |q| && q[..|p|] == p
  }

  /** `q` is a directory on the way to `p`: a non-empty proper prefix of it. */
  predicate Above(q: Path, p: Path)
  {
    1 <= |q| < |p| && q == p[..|q|]
  }

  /** The non-empty prefixes of `p`, `p` included. */
  function Ancestry(p: Path): (s: set<Path>)
    ensures forall q :: q in s <==> 1 <= |q| <= |p| && q == p[..|q|]
  {
    set k | 1 <= k <= |p| :: p[..k]
  }

  /** `os.makedirs(p, exist_ok=True)`: the parent first, then `p` itself. */
  function MakeDirs(fs: FileSystem, p: Path): FileSystem
  {
    if |p| == 0 then fs else MakeDirs(fs, p[..|p| - 1])[p := Dir]
  }

  /** After `makedirs`, every non-empty prefix of `p` is a directory and nothing else has changed. */
  lemma {:induction false} MakeDirsEffect(fs: FileSystem, p: Path)
    ensures forall q :: q in MakeDirs(fs, p) <==> q in fs || q in Ancestry(p)
    ensures forall q :: q in Ancestry(p) ==> MakeDirs(fs, p)[q] == Dir
    ensures forall q :: q in fs && q !in Ancestry(p) ==> MakeDirs(fs, p)[q] == fs[q]
  {
    if |p| > 0 {
      var up := p[..|p| - 1];
      MakeDirsEffect(fs, up);
      forall q ensures q in Ancestry(p) <==> q in Ancestry(up) || q == p {
        if q in Ancestry(p) && q != p {
          assert |q| < |p|;
          assert q == up[..|q|];
        }
        if q in Ancestry(up) {
          assert q == up[..|q|];
          assert up[..|q|] == p[..|q|];
        }
      }
    }
  }

  /** The path is a directory: the root, or an entry marked `Dir`. */
  predicate IsDir(fs: FileSystem, p: Path)
  {
    |p| == 0 || (p in fs && fs[p] == Dir)
  }

  function MalformedMessage(shown: string): string
  {
    "Malformed template element: " + shown
  }

  /** The line printed for a node: two blanks per level, then the last path segment. */
  function LogLine(p: Path, level: nat): string
  {
    Indent(level) + Name(p)
  }

  /** The file system after the walk, the lines printed, and the `ValueError` raised if any. */
  datatype Outcome = Outcome(fs: FileSystem, log: seq<string>, error: Option<string>)

  function Walk(fs: FileSystem, p: Path, node: Node, level: nat, verbose: bool, dryrun: bool): Outcome
    decreases node
  {
    var log := if verbose || dryrun then [LogLine(p, level)] else [];
    match node
    case Null => Outcome(if dryrun then fs else MakeDirs(fs, p), log, None)
    case Str(s) => Outcome(if dryrun then fs else MakeDirs(fs, Parent(p))[p := File(s)], log, None)
    case Mapping(items) =>
      var rest := WalkItems(if dryrun then fs else MakeDirs(fs, p), p, items, level + 1, verbose, dryrun);
      Outcome(rest.fs, log + rest.log, rest.error)
    case Other(shown) => Outcome(fs, log, Some(MalformedMessage(shown)))
  }

  /** The children of a dict, in order, each at `p / key`; the first error stops the walk. */
  function WalkItems(fs: FileSystem, p: Path, items: seq<Item>, level: nat, verbose: bool, dryrun: bool): Outcome
    decreases items
  {
    if items == [] then Outcome(fs, [], None)
    else
      var first := Walk(fs, p + [items[0].key], items[0].value, level, verbose, dryrun);
      if first.error.Some? then first
      else
        var rest := WalkItems(first.fs, p, items[1..], level, verbose, dryrun);
        Outcome(rest.fs, first.log + rest.log, rest.error)
  }

  /** An outcome preceded by lines already printed. */
  function After(printed: seq<string>, o: Outcome): Outcome
  {
    Outcome(o.fs, printed + o.log, o.error)
  }

  /**
   * One step of the loop over a dict's items: if `goal` is what the items
   * from `i` on still have to produce after `printed`, then it is item `i`'s
   * own outcome when that fails, and otherwise what the items after it
   * produce once item `i`'s lines are printed too.
   */
  lemma WalkItemsAt(goal: Outcome, printed: seq<string>, fs: FileSystem, p: Path, items: seq<Item>, i: nat, level: nat, verbose: bool, dryrun: bool)
    requires i < |items|
    requires goal == After(printed, WalkItems(fs, p, items[i..], level, verbose, dryrun))
    ensures var first := Walk(fs, p + [items[i].key], items[i].value, level, verbose, dryrun);
      if first.error.Some? then goal == After(printed, first)
      else goal == After(printed + first.log, WalkItems(first.fs, p, items[i + 1..], level, verbose, dryrun))
  {
    assert items[i..][0] == items[i];
    assert items[i..][1..] == items[i + 1..];
  }

  /** The host the walk runs against: its file system and its standard output. */
  class Host {
    var fs: FileSystem
    var stdout: seq<string>

    constructor (initial: FileSystem)
      ensures fs == initial && stdout == []
    {
      fs := initial;
      stdout := [];
    }

    method Print(line: string)
      modifies this
      ensures stdout == old(stdout) + [line] && fs == old(fs)
    {
      stdout := stdout + [line];
    }

    /** `os.makedirs(p, exist_ok=True)`. */
    method MakeDirectories(p: Path)
      modifies this
      ensures fs == MakeDirs(old(fs), p) && stdout == old(stdout)
    {
      fs := MakeDirs(fs, p);
    }

    /** `open(p, 'w').write(content)`: the file holds exactly `content`, whatever it held before. */
    method WriteFile(p: Path, content: string)
      modifies this
      ensures fs == old(fs)[p := File(content)] && stdout == old(stdout)
    {
      fs := fs[p := File(content)];
    }

    method WriteTemplate(p: Path, node: Node, level: nat, verbose: bool, dryrun: bool) returns (error: Option<string>)
      modifies this
      ensures var o := Walk(old(fs), p, node, level, verbose, dryrun);
        fs == o.fs && stdout == old(stdout) + o.log && error == o.error
      decreases node
    {
      if verbose || dryrun {
        Print(LogLine(p, level));
      }
      match node
      case Null =>
        if !dryrun {
          MakeDirectories(p);
        }
        error := None;
      case Str(s) =>
        if !dryrun {
          MakeDirectories(Parent(p));
          WriteFile(p, s);
        }
        error := None;
      case Mapping(items) =>
        if !dryrun {
          MakeDirectories(p);
        }
        error := WriteItems(p, items, level + 1, verbose, dryrun);
      case Other(shown) =>
        error := Some(MalformedMessage(shown));
    }

    /** The loop over a dict's items: each child at `p / key`, stopping at the first error. */
    method WriteItems(p: Path, items: seq<Item>, level: nat, verbose: bool, dryrun: bool) returns (error: Option<string>)
      modifies this
      ensures var o := WalkItems(old(fs), p, items, level, verbose, dryrun);
        fs == o.fs && stdout == old(stdout) + o.log && error == o.error
      decreases items
    {
      ghost var goal := After(stdout, WalkItems(fs, p, items, level, verbose, dryrun));
      assert items[0..] == items;
      for i := 0 to |items|
        invariant goal == After(stdout, WalkItems(fs, p, items[i..], level, verbose, dryrun))
      {
        WalkItemsAt(goal, stdout, fs, p, items, i, level, verbose, dryrun);
        var e := WriteTemplate(p + [items[i].key], items[i].value, level, verbose, dryrun);
        if e.Some? {
          error := e;
          return;
        }
      }
      assert items[|items|..] == [];
      error := None;
    }
  }

  // What the walk prints and raises, independently of the file system.

  /** The error a tree raises, if any: the first malformed node in pre-order. */
  function Fault(node: Node): Option<string>
    decreases node
  {
    match node
    case Mapping(items) => FaultItems(items)
    case Other(shown) => Some(MalformedMessage(shown))
    case _ => None
  }

  function FaultItems(items: seq<Item>): Option<string>
    decreases items
  {
    if items == [] then None
    else if Fault(items[0].value).Some? then Fault(items[0].value)
    else FaultItems(items[1..])
  }

  /**
   * The pre-order listing of a tree: the node's own line, then its
   * children's listings one level deeper, ending with the first malformed node.
   */
  function Listing(p: Path, node: Node, level: nat): seq<string>
    decreases node
  {
    match node
    case Mapping(items) => [LogLine(p, level)] + ListingItems(p, items, level + 1)
    case _ => [LogLine(p, level)]
  }

  function ListingItems(p: Path, items: seq<Item>, level: nat): seq<string>
    decreases items
  {
    if items == [] then []
    else if Fault(items[0].value).Some? then Listing(p + [items[0].key], items[0].value, level)
    else Listing(p + [items[0].key], items[0].value, level) + ListingItems(p, items[1..], level)
  }

  /** The walk prints the listing when verbose or dry-run is set, and nothing otherwise; it raises the tree's fault. */
  lemma {:induction false} WalkTrace(fs: FileSystem, p: Path, node: Node, level: nat, verbose: bool, dryrun: bool)
    ensures var o := Walk(fs, p, node, level, verbose, dryrun);
      o.log == (if verbose || dryrun then Listing(p, node, level) else []) && o.error == Fault(node)
    decreases node
  {
    match node
    case Mapping(items) =>
      WalkItemsTrace(if dryrun then fs else MakeDirs(fs, p), p, items, level + 1, verbose, dryrun);
    case _ =>
  }

  lemma {:induction false} WalkItemsTrace(fs: FileSystem, p: Path, items: seq<Item>, level: nat, verbose: bool, dryrun: bool)
    ensures var o := WalkItems(fs, p, items, level, verbose, dryrun);
      o.log == (if verbose || dryrun then ListingItems(p, items, level) else []) && o.error == FaultItems(items)
    decreases items
  {
    if items != [] {
      var first := Walk(fs, p + [items[0].key], items[0].value, level, verbose, dryrun);
      WalkTrace(fs, p + [items[0].key], items[0].value, level, verbose, dryrun);
      if first.error.None? {
        WalkItemsTrace(first.fs, p, items[1..], level, verbose, dryrun);
      }
    }
  }

  /** A verbose run and a dry run print the same lines and raise the same error, whatever the file systems they start from. */
  lemma SameLogBothModes(fs: FileSystem, fs': FileSystem, p: Path, node: Node, level: nat, verbose: bool)
    ensures Walk(fs, p, node, level, true, false).log == Walk(fs', p, node, level, verbose, true).log
    ensures Walk(fs, p, node, level, true, false).error == Walk(fs', p, node, level, verbose, true).error
  {
    WalkTrace(fs, p, node, level, true, false);
    WalkTrace(fs', p, node, level, verbose, true);
  }

  // Dry run.

  /** In dry-run mode the file system is left exactly as it was. */
  lemma {:induction false} DryRunKeepsState(fs: FileSystem, p: Path, node: Node, level: nat, verbose: bool)
    ensures Walk(fs, p, node, level, verbose, true).fs == fs
    decreases node
  {
    match node
    case Mapping(items) => DryRunItemsKeepState(fs, p, items, level + 1, verbose);
    case _ =>
  }

  lemma {:induction false} DryRunItemsKeepState(fs: FileSystem, p: Path, items: seq<Item>, level: nat, verbose: bool)
    ensures WalkItems(fs, p, items, level, verbose, true).fs == fs
    decreases items
  {
    if items != [] {
      DryRunKeepsState(fs, p + [items[0].key], items[0].value, level, verbose);
      DryRunItemsKeepState(fs, p, items[1..], level, verbose);
    }
  }

  // What a real run adds to the file system.

  /** `makedirs` over a file system laid on top of another only changes the top one. */
  lemma {:induction false} MakeDirsOnTop(fs: FileSystem, top: FileSystem, p: Path)
    ensures MakeDirs(fs + top, p) == fs + MakeDirs(top, p)
  {
    if |p| > 0 {
      MakeDirsOnTop(fs, top, p[..|p| - 1]);
    }
  }

  /**
   * The walk's changes do not depend on what lies underneath: starting from
   * `fs + top`, it ends in `fs` overlaid with what it makes of `top` alone.
   */
  lemma {:induction false} WalkOnTop(fs: FileSystem, top: FileSystem, p: Path, node: Node, level: nat, verbose: bool, dryrun: bool)
    ensures Walk(fs + top, p, node, level, verbose, dryrun).fs == fs + Walk(top, p, node, level, verbose, dryrun).fs
    decreases node
  {
    match node
    case Null =>
      MakeDirsOnTop(fs, top, p);
    case Str(s) =>
      MakeDirsOnTop(fs, top, Parent(p));
    case Mapping(items) =>
      MakeDirsOnTop(fs, top, p);
      WalkItemsOnTop(fs, if dryrun then top else MakeDirs(top, p), p, items, level + 1, verbose, dryrun);
    case Other(_) =>
  }

  lemma {:induction false} WalkItemsOnTop(fs: FileSystem, top: FileSystem, p: Path, items: seq<Item>, level: nat, verbose: bool, dryrun: bool)
    ensures WalkItems(fs + top, p, items, level, verbose, dryrun).fs == fs + WalkItems(top, p, items, level, verbose, dryrun).fs
    decreases items
  {
    if items != [] {
      var q := p + [items[0].key];
      WalkOnTop(fs, top, q, items[0].value, level, verbose, dryrun);
      WalkTrace(fs + top, q, items[0].value, level, verbose, dryrun);
      WalkTrace(top, q, items[0].value, level, verbose, dryrun);
      var first := Walk(top, q, items[0].value, level, verbose, dryrun);
      if first.error.None? {
        WalkItemsOnTop(fs, first.fs, p, items[1..], level, verbose, dryrun);
      }
    }
  }

  /** What a run leaves is the starting file system overlaid with what the same run makes of an empty one. */
  lemma OverlaysFreshRun(fs: FileSystem, p: Path, node: Node, level: nat, verbose: bool, dryrun: bool)
    ensures Walk(fs, p, node, level, verbose, dryrun).fs == fs + Walk(map[], p, node, level, verbose, dryrun).fs
  {
    WalkOnTop(fs, map[], p, node, level, verbose, dryrun);
    assert fs + map[] == fs;
  }

  /** Applying the same tree twice gives the same file system, output and error as applying it once. */
  lemma Idempotent(fs: FileSystem, p: Path, node: Node, level: nat, verbose: bool, dryrun: bool)
    ensures var once := Walk(fs, p, node, level, verbose, dryrun);
      Walk(once.fs, p, node, level, verbose, dryrun) == once
  {
    var once := Walk(fs, p, node, level, verbose, dryrun);
    var made := Walk(map[], p, node, level, verbose, dryrun).fs;
    OverlaysFreshRun(fs, p, node, level, verbose, dryrun);
    OverlaysFreshRun(once.fs, p, node, level, verbose, dryrun);
    assert (fs + made) + made == fs + made;
    WalkTrace(fs, p, node, level, verbose, dryrun);
    WalkTrace(once.fs, p, node, level, verbose, dryrun);
  }

  // Where a real run writes, and what it leaves there.

  function Keys(items: seq<Item>): set<string>
  {
    set i | 0 <= i < |items| :: items[i].key
  }

  /**
   * Nothing is removed, and every entry of `after` is as in `before`, or lies
   * in the subtree at `p`, or is a directory on the way to `p`.
   */
  predicate ConfinedTo(before: FileSystem, after: FileSystem, p: Path)
  {
    (forall r :: r in before ==> r in after) &&
    forall r :: r in after ==>
      (r in before && after[r] == before[r]) || Within(r, p) || (Above(r, p) && after[r] == Dir)
  }

  /** As `ConfinedTo`, for the children of `p` named in `keys`, with `p` itself counted among the directories. */
  predicate ConfinedBelow(before: FileSystem, after: FileSystem, p: Path, keys: set<string>)
  {
    (forall r :: r in before ==> r in after) &&
    forall r :: r in after ==>
      (r in before && after[r] == before[r]) ||
      (|p| < |r| && r[..|p|] == p && r[|p|] in keys) ||
      (1 <= |r| <= |p| && r == p[..|r|] && after[r] == Dir)
  }

  lemma MakeDirsConfined(fs: FileSystem, p: Path)
    ensures ConfinedTo(fs, MakeDirs(fs, p), p)
  {
    MakeDirsEffect(fs, p);
  }

  /** A run at `p` only writes inside the subtree at `p` and the directories leading to it. */
  lemma {:induction false} WalkConfined(fs: FileSystem, p: Path, node: Node, level: nat, verbose: bool)
    ensures ConfinedTo(fs, Walk(fs, p, node, level, verbose, false).fs, p)
    decreases node
  {
    match node
    case Null =>
      MakeDirsConfined(fs, p);
    case Str(s) =>
      MakeDirsEffect(fs, Parent(p));
    case Mapping(items) =>
      var made := MakeDirs(fs, p);
      MakeDirsConfined(fs, p);
      WalkItemsConfined(made, p, items, level + 1, verbose);
      var after := WalkItems(made, p, items, level + 1, verbose, false).fs;
      forall r | r in after
        ensures (r in fs && after[r] == fs[r]) || Within(r, p) || (Above(r, p) && after[r] == Dir)
      {
        if |p| < |r| && r[..|p|] == p {
          assert Within(r, p);
        }
      }
    case Other(_) =>
  }

  lemma {:induction false} WalkItemsConfined(fs: FileSystem, p: Path, items: seq<Item>, level: nat, verbose: bool)
    ensures ConfinedBelow(fs, WalkItems(fs, p, items, level, verbose, false).fs, p, Keys(items))
    decreases items
  {
    if items != [] {
      var q := p + [items[0].key];
      var first := Walk(fs, q, items[0].value, level, verbose, false);
      WalkConfined(fs, q, items[0].value, level, verbose);
      if first.error.None? {
        WalkItemsConfined(first.fs, p, items[1..], level, verbose);
        var after := WalkItems(fs, p, items, level, verbose, false).fs;
        assert Keys(items[1..]) <= Keys(items) by {
          forall i | 0 <= i < |items[1..]| ensures items[1..][i].key in Keys(items) {
            assert items[1..][i] == items[i + 1];
          }
        }
        forall r | r in after
          ensures (r in fs && after[r] == fs[r]) ||
            (|p| < |r| && r[..|p|] == p && r[|p|] in Keys(items)) ||
            (1 <= |r| <= |p| && r == p[..|r|] && after[r] == Dir)
        {
          BelowChild(r, p, items[0].key);
          assert items[0].key in Keys(items);
        }
      } else {
        var after := first.fs;
        forall r | r in after
          ensures (r in fs && after[r] == fs[r]) ||
            (|p| < |r| && r[..|p|] == p && r[|p|] in Keys(items)) ||
            (1 <= |r| <= |p| && r == p[..|r|] && after[r] == Dir)
        {
          BelowChild(r, p, items[0].key);
          assert items[0].key in Keys(items);
        }
      }
    }
  }

  /** The subtree at `p / k` and the directories leading to it, seen from `p`. */
  lemma BelowChild(r: Path, p: Path, k: string)
    ensures Within(r, p + [k]) ==> |p| < |r| && r[..|p|] == p && r[|p|] == k
    ensures Above(r, p + [k]) ==> 1 <= |r| <= |p| && r == p[..|r|]
  {
    if Within(r, p + [k]) {
      assert r[..|p|] == r[..|p| + 1][..|p|];
      assert r[|p|] == r[..|p| + 1][|p|];
    }
    if Above(r, p + [k]) {
      assert (p + [k])[..|r|] == p[..|r|];
    }
  }

  /** Every dict in the tree has distinct keys, as a decoded YAML mapping does. */
  predicate DistinctKeys(node: Node)
    decreases node
  {
    match node
    case Mapping(items) =>
      (forall i, j :: 0 <= i < j < |items| ==> items[i].key != items[j].key) &&
      forall i :: 0 <= i < |items| ==> DistinctKeys(items[i].value)
    case _ => true
  }

  /**
   * The file system holds the tree at `p`: a directory for `None`, a file
   * with exactly the string (in an existing directory) for a string, and a
   * directory holding every child at `p / key` for a dict.
   */
  predicate Materialized(fs: FileSystem, p: Path, node: Node)
    decreases node
  {
    match node
    case Null => IsDir(fs, p)
    case Str(s) => IsDir(fs, Parent(p)) && p in fs && fs[p] == File(s)
    case Mapping(items) =>
      IsDir(fs, p) && forall i :: 0 <= i < |items| ==> Materialized(fs, p + [items[i].key], items[i].value)
    case Other(_) => false
  }

  /** `after` agrees with `before` on the subtree at `p`, and the directory holding `p` stays one. */
  predicate Kept(before: FileSystem, after: FileSystem, p: Path)
  {
    (forall r :: r in before && Within(r, p) ==> r in after && after[r] == before[r]) &&
    (IsDir(before, Parent(p)) ==> IsDir(after, Parent(p)))
  }

  /** A materialized tree stays materialized while its subtree and its directory are kept. */
  lemma {:induction false} MaterializedKept(before: FileSystem, after: FileSystem, p: Path, node: Node)
    requires Materialized(before, p, node) && Kept(before, after, p)
    ensures Materialized(after, p, node)
    decreases node
  {
    match node
    case Null =>
      assert |p| == 0 || Within(p, p);
    case Str(s) =>
      assert Within(p, p);
    case Mapping(items) =>
      assert |p| == 0 || Within(p, p);
      forall i | 0 <= i < |items|
        ensures Materialized(after, p + [items[i].key], items[i].value)
      {
        var q := p + [items[i].key];
        assert Parent(q) == p;
        forall r | r in before && Within(r, q) ensures Within(r, p) {
          assert r[..|p|] == r[..|q|][..|p|];
        }
        MaterializedKept(before, after, q, items[i].value);
      }
  }

  /** A real run of a well-formed tree with distinct keys leaves it materialized at `p`. */
  lemma {:induction false} WalkMaterializes(fs: FileSystem, p: Path, node: Node, level: nat, verbose: bool)
    requires Fault(node).None? && DistinctKeys(node)
    ensures Materialized(Walk(fs, p, node, level, verbose, false).fs, p, node)
    decreases node
  {
    match node
    case Null =>
      MakeDirsEffect(fs, p);
      assert |p| == 0 || p in Ancestry(p);
    case Str(s) =>
      MakeDirsEffect(fs, Parent(p));
      assert |Parent(p)| == 0 || Parent(p) in Ancestry(Parent(p));
    case Mapping(items) =>
      MakeDirsEffect(fs, p);
      assert |p| == 0 || p in Ancestry(p);
      ItemsMaterialize(MakeDirs(fs, p), p, items, level + 1, verbose);
  }

  lemma {:induction false} ItemsMaterialize(fs: FileSystem, p: Path, items: seq<Item>, level: nat, verbose: bool)
    requires IsDir(fs, p) && FaultItems(items).None?
    requires forall i, j :: 0 <= i < j < |items| ==> items[i].key != items[j].key
    requires forall i :: 0 <= i < |items| ==> DistinctKeys(items[i].value)
    ensures var after := WalkItems(fs, p, items, level, verbose, false).fs;
      IsDir(after, p) && forall i :: 0 <= i < |items| ==> Materialized(after, p + [items[i].key], items[i].value)
    decreases items
  {
    if items != [] {
      var q := p + [items[0].key];
      var first := Walk(fs, q, items[0].value, level, verbose, false);
      WalkTrace(fs, q, items[0].value, level, verbose, false);
      WalkMaterializes(fs, q, items[0].value, level, verbose);
      WalkConfined(fs, q, items[0].value, level, verbose);
      assert IsDir(first.fs, p) by {
        if |p| > 0 {
          assert Above(p, q);
        }
      }
      var rest := items[1..];
      assert forall i :: 0 <= i < |rest| ==> rest[i] == items[i + 1];
      ItemsMaterialize(first.fs, p, rest, level, verbose);
      WalkItemsConfined(first.fs, p, rest, level, verbose);
      var after := WalkItems(first.fs, p, rest, level, verbose, false).fs;
      assert items[0].key !in Keys(rest);
      forall r | r in first.fs && Within(r, q)
        ensures r in after && after[r] == first.fs[r]
      {
        BelowChild(r, p, items[0].key);
      }
      assert Parent(q) == p;
      MaterializedKept(first.fs, after, q, items[0].value);
    }
  }

  /**
   * A malformed child stops the loop: the siblings before it keep what they
   * wrote, its own line is printed, the siblings after it are never reached,
   * and the error names the value.
   */
  lemma {:induction false} StopsAtMalformed(fs: FileSystem, p: Path, before: seq<Item>, key: string, shown: string, later: seq<Item>, level: nat, verbose: bool, dryrun: bool)
    requires FaultItems(before).None?
    ensures var o := WalkItems(fs, p, before + [Item(key, Other(shown))] + later, level, verbose, dryrun);
      var b := WalkItems(fs, p, before, level, verbose, dryrun);
      o.fs == b.fs &&
      o.log == b.log + (if verbose || dryrun then [LogLine(p + [key], level)] else []) &&
      o.error == Some(MalformedMessage(shown))
    decreases before
  {
    var items := before + [Item(key, Other(shown))] + later;
    if before == [] {
      assert items[0] == Item(key, Other(shown));
    } else {
      assert items[0] == before[0];
      assert items[1..] == before[1..] + [Item(key, Other(shown))] + later;
      var first := Walk(fs, p + [before[0].key], before[0].value, level, verbose, dryrun);
      WalkTrace(fs, p + [before[0].key], before[0].value, level, verbose, dryrun);
      StopsAtMalformed(first.fs, p, before[1..], key, shown, later, level, verbose, dryrun);
    }
  }
}
