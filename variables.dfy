/**
 * The variable engine of platelet: discovery of `$name` references in a
 * template, parsing of `name=value` command-line assignments, and literal
 * substitution of the resolved values.
 */
module Variables {
  import opened Wrappers
  import opened Text

  // ---------------------------------------------------------------------
  // Discovery: re.findall(r'\$\w+', content), first occurrences only
  // ---------------------------------------------------------------------

  /** Length of the longest prefix of `s` made of word characters. */
  function WordRun(s: string): (n: nat)
    ensures n <= |s|
    ensures forall i :: 0 <= i < n ==> IsWordChar(s[i])
    ensures n == |s| || !IsWordChar(s[n])
  {
    if |s| > 0 && IsWordChar(s[0]) then 1 + WordRun(s[1..]) else 0
  }

  /**
   * The matches of `\$\w+` in `s`, left to right and without overlap, each
   * with its leading `$` removed (the `name[1:]` of the source).
   */
  function References(s: string): seq<string>
    decreases |s|
  {
    if |s| == 0 then []
    else if s[0] == '$' && |s| > 1 && IsWordChar(s[1]) then
      var n := WordRun(s[1..]);
      [s[1..1 + n]] + References(s[1 + n..])
    else References(s[1..])
  }

  /**
   * `name` is referenced at index `k` of `s`: a `$` at `k` followed by
   * `name`, a non-empty run of word characters that cannot be extended.
   */
  predicate ReferenceAt(s: string, k: int, name: string)
  {
    && 0 <= k
    && k + 1 + |name| <= |s|
    && s[k] == '$'
    && |name| > 0
    && s[k + 1..k + 1 + |name|] == name
    && WordRun(s[k + 1..]) == |name|
  }

  lemma ReferenceAtSuffix(s: string, j: nat, k: nat, name: string)
    requires j <= k <= |s|
    ensures ReferenceAt(s, k, name) <==> ReferenceAt(s[j..], k - j, name)
  {
    var t := s[j..];
    assert t[k - j..] == s[k..];
    if k + 1 + |name| <= |s| {
      assert t[k - j + 1..k - j + 1 + |name|] == s[k + 1..k + 1 + |name|];
      assert t[k - j + 1..] == s[k + 1..];
    }
  }

  lemma ReferenceAtShift(s: string, j: nat, k': nat, k: int, name: string)
    requires j <= |s| && k == j + k'
    ensures ReferenceAt(s, k, name) <==> ReferenceAt(s[j..], k', name)
  {
    if k <= |s| {
      ReferenceAtSuffix(s, j, k, name);
    }
  }

  /** Where the scan found `name`: an index at which the text references it. */
  lemma {:induction false} FoundAt(s: string, name: string) returns (k: int)
    requires name in References(s)
    ensures ReferenceAt(s, k, name)
    decreases |s|
  {
    if s[0] == '$' && |s| > 1 && IsWordChar(s[1]) {
      var n := WordRun(s[1..]);
      var rest := s[1 + n..];
      if name == s[1..1 + n] {
        k := 0;
      } else {
        var k' := FoundAt(rest, name);
        k := 1 + n + k';
        ReferenceAtShift(s, 1 + n, k', k, name);
      }
    } else {
      var k' := FoundAt(s[1..], name);
      k := 1 + k';
      ReferenceAtShift(s, 1, k', k, name);
    }
  }

  /** A reference at index `k` is among the names the scan finds. */
  lemma {:induction false} Found(s: string, k: int, name: string)
    requires ReferenceAt(s, k, name)
    ensures name in References(s)
    decreases |s|
  {
    if s[0] == '$' && |s| > 1 && IsWordChar(s[1]) {
      var n := WordRun(s[1..]);
      if k == 0 {
        assert |name| == n;
      } else {
        assert 1 + n <= k;
        ReferenceAtSuffix(s, 1 + n, k, name);
        Found(s[1 + n..], k - (1 + n), name);
      }
    } else {
      if k == 0 {
        assert false;
      }
      ReferenceAtSuffix(s, 1, k, name);
      Found(s[1..], k - 1, name);
    }
  }

  /** Every name the scan finds is referenced somewhere in the text. */
  lemma ReferencesSound(s: string)
    ensures forall name :: name in References(s) ==> exists k :: ReferenceAt(s, k, name)
  {
    forall name | name in References(s) ensures exists k :: ReferenceAt(s, k, name) {
      var k := FoundAt(s, name);
    }
  }

  /** Every reference in the text is found by the scan. */
  lemma ReferencesComplete(s: string)
    ensures forall k, name :: ReferenceAt(s, k, name) ==> name in References(s)
  {
    forall k, name | ReferenceAt(s, k, name) ensures name in References(s) {
      Found(s, k, name);
    }
  }

  /** A name is found by the scan exactly when it is referenced somewhere in the text. */
  lemma ReferencesExact(s: string)
    ensures forall name :: name in References(s) <==> exists k :: ReferenceAt(s, k, name)
  {
    ReferencesSound(s);
    ReferencesComplete(s);
  }

  /** Every discovered name is made of word characters only. */
  lemma ReferencedNamesAreWords(s: string, name: string)
    requires name in References(s)
    ensures |name| > 0 && forall i :: 0 <= i < |name| ==> IsWordChar(name[i])
  {
    ReferencesExact(s);
    var k :| ReferenceAt(s, k, name);
    forall i | 0 <= i < |name| ensures IsWordChar(name[i]) {
      assert name[i] == s[k + 1..][i];
    }
  }

  /** The distinct elements of `xs`, in the order of their first occurrence. */
  function Dedup(xs: seq<string>): (d: seq<string>)
    ensures forall i, j :: 0 <= i < j < |d| ==> d[i] != d[j]
    ensures forall x :: x in d <==> x in xs
  {
    if xs == [] then []
    else
      var prefix := Dedup(xs[..|xs| - 1]);
      var x := xs[|xs| - 1];
      assert xs == xs[..|xs| - 1] + [x];
      if x in prefix then prefix else prefix + [x]
  }

  /** Some occurrence of `y` in `xs` comes before index `q`. */
  predicate OccursBefore(xs: seq<string>, q: int, y: string)
  {
    exists p :: 0 <= p < q && p < |xs| && xs[p] == y
  }

  /**
   * First-occurrence order: wherever a later name occurs in `xs`, an
   * earlier name has already occurred before it.
   */
  lemma {:induction false} DedupOrder(xs: seq<string>)
    ensures forall i, j, q :: 0 <= i < j < |Dedup(xs)| && 0 <= q < |xs| && xs[q] == Dedup(xs)[j] ==>
      OccursBefore(xs, q, Dedup(xs)[i])
  {
    if xs != [] {
      var n := |xs|;
      var front := xs[..n - 1];
      var x := xs[n - 1];
      DedupOrder(front);
      var d' := Dedup(front);
      var d := Dedup(xs);
      forall i, j, q | 0 <= i < j < |d| && 0 <= q < n && xs[q] == d[j]
        ensures OccursBefore(xs, q, d[i])
      {
        assert d[i] == d'[i];
        if q < n - 1 {
          assert front[q] == xs[q];
          if j < |d'| {
            assert d[j] == d'[j];
            assert OccursBefore(front, q, d'[i]);
            var p :| 0 <= p < q && p < |front| && front[p] == d'[i];
            assert xs[p] == d[i];
          } else {
            assert false;
          }
        } else {
          assert d[i] in front;
          var p :| 0 <= p < n - 1 && front[p] == d[i];
          assert xs[p] == d[i];
        }
      }
    }
  }

  /** One entry of the OrderedDict of variables: a name and its value, `None` while unknown. */
  datatype Var = Var(name: string, value: Option<string>)

  type VarSet = seq<Var>

  function Names(vs: VarSet): (names: seq<string>)
    ensures |names| == |vs|
    ensures forall i :: 0 <= i < |vs| ==> names[i] == vs[i].name
  {
    seq(|vs|, i requires 0 <= i < |vs| => vs[i].name)
  }

  /** No value is `None`: every variable can be substituted. */
  predicate Resolved(vs: VarSet)
  {
    forall i :: 0 <= i < |vs| ==> vs[i].value.Some?
  }

  /**
   * The variables `get_vars_from_template` finds: the distinct referenced
   * names, in first-occurrence order, each without a value.
   */
  function Discovered(content: string): (vs: VarSet)
    ensures Names(vs) == Dedup(References(content))
    ensures forall i, j :: 0 <= i < j < |vs| ==> vs[i].name != vs[j].name
    ensures forall name :: name in Names(vs) <==> exists k :: ReferenceAt(content, k, name)
    ensures forall i :: 0 <= i < |vs| ==> vs[i].value == None
  {
    var names := Dedup(References(content));
    ReferencesExact(content);
    var vs := seq(|names|, i requires 0 <= i < |names| => Var(names[i], None));
    assert Names(vs) == names;
    vs
  }

  /** get_vars_from_template: the scan's names, each appended the first time it is seen. */
  method GetVarsFromTemplate(content: string) returns (vs: VarSet)
    ensures vs == Discovered(content)
  {
    var refs := References(content);
    var names: seq<string> := [];
    for i := 0 to |refs|
      invariant names == Dedup(refs[..i])
    {
      assert refs[..i + 1][..i] == refs[..i];
      if refs[i] !in names {
        names := names + [refs[i]];
      }
    }
    assert refs[..|refs|] == refs;
    vs := seq(|names|, i requires 0 <= i < |names| => Var(names[i], None));
  }

  /** A one-letter reference at the front is found, and the scan goes on after it. */
  lemma ReferencesTakeOne(s: string)
    requires |s| >= 2 && s[0] == '$' && IsWordChar(s[1]) && (|s| == 2 || !IsWordChar(s[2]))
    ensures References(s) == [[s[1]]] + References(s[2..])
  {
    assert s[1..][1..] == s[2..];
    assert s[1..1 + 1] == [s[1]];
  }

  /** A character other than `$` at the front is passed over. */
  lemma ReferencesSkipOne(s: string)
    requires |s| >= 1 && s[0] != '$'
    ensures References(s) == References(s[1..])
  {
  }

  /** `$a/$b/$a` is scanned as the references `a`, `b`, `a`, for any two word characters. */
  lemma ReferencesExample(a: char, b: char)
    requires IsWordChar(a) && IsWordChar(b)
    ensures References(['$', a, '/', '$', b, '/', '$', a]) == [[a], [b], [a]]
  {
    var s := ['$', a, '/', '$', b, '/', '$', a];
    ReferencesTakeOne(s);
    ReferencesSkipOne(s[2..]);
    assert s[2..][1..] == s[3..];
    ReferencesTakeOne(s[3..]);
    assert s[3..][2..] == s[5..];
    ReferencesSkipOne(s[5..]);
    assert s[5..][1..] == s[6..];
    ReferencesTakeOne(s[6..]);
    assert s[6..][2..] == [];
  }

  /** `$a/$b/$a` yields `[a, b]`, not `[a, b, a]`: a repeated name is kept once, where it first occurs. */
  lemma DiscoveryExample(a: char, b: char)
    requires IsWordChar(a) && IsWordChar(b) && a != b
    ensures Dedup(References(['$', a, '/', '$', b, '/', '$', a])) == [[a], [b]]
  {
    ReferencesExample(a, b);
    var xs := [[a], [b], [a]];
    assert xs[..2] == [[a], [b]];
    assert xs[..2][..1] == [[a]];
    assert xs[..2][..1][..0] == [];
    assert [a] != [b];
    assert Dedup(xs[..2][..1]) == [[a]];
    assert Dedup(xs[..2]) == [[a], [b]];
  }

  // ---------------------------------------------------------------------
  // Substitution: replace_variables
  // ---------------------------------------------------------------------

  /** The left fold, in dictionary order, of `content.replace('$' + name, value)`. */
  function Substitute(content: string, vs: VarSet): string
    requires Resolved(vs)
    decreases |vs|
  {
    if vs == [] then content
    else Substitute(ReplaceAll(content, "$" + vs[0].name, vs[0].value.value), vs[1..])
  }

  method ReplaceVariables(content: string, vs: VarSet) returns (r: string)
    requires Resolved(vs)
    ensures r == Substitute(content, vs)
    ensures vs == [] ==> r == content
  {
    r := content;
    for i := 0 to |vs|
      invariant Substitute(r, vs[i..]) == Substitute(content, vs)
    {
      assert vs[i..][1..] == vs[i + 1..];
      r := ReplaceAll(r, "$" + vs[i].name, vs[i].value.value);
    }
    assert vs[|vs|..] == [];
  }

  /** Text without a `$` passes through substitution unchanged. */
  lemma {:induction false} SubstituteWithoutSigil(content: string, vs: VarSet)
    requires Resolved(vs) && '$' !in content
    ensures Substitute(content, vs) == content
  {
    if vs != [] {
      ReplaceAbsent(content, "$" + vs[0].name, vs[0].value.value);
      SubstituteWithoutSigil(content, vs[1..]);
    }
  }

  /**
   * `{a: x, b: y}` on `$a-$b` gives `x-y`, for any two distinct one-letter
   * names and any values, provided the first value brings in no `$` of its own.
   */
  lemma SubstituteExample(a: char, b: char, x: string, y: string)
    requires a != b && '$' !in x
    ensures Substitute(['$', a, '-', '$', b], [Var([a], Some(x)), Var([b], Some(y))]) == x + "-" + y
  {
    var s := ['$', a, '-', '$', b];
    var vs := [Var([a], Some(x)), Var([b], Some(y))];
    var pa := "$" + [a];
    var pb := "$" + [b];
    assert pa == ['$', a] && pb == ['$', b];
    ReplaceHit(s, pa, x);
    assert s[2..] == ['-', '$', b];
    assert s[2..][..2][0] != pa[0];
    ReplaceMiss(s[2..], pa, x);
    assert s[2..][1..] == ['$', b];
    assert ['$', b][..2][1] != pa[1];
    ReplaceMiss(['$', b], pa, x);
    assert ['$', b][1..] == [b];
    ReplaceShortText([b], pa, x);
    var first := x + ['-', '$', b];
    assert ReplaceAll(s, pa, x) == first;
    ReplaceAfter(x, ['-', '$', b], pb, y);
    assert ['-', '$', b][..2][0] != pb[0];
    ReplaceMiss(['-', '$', b], pb, y);
    ReplaceHit(['$', b], pb, y);
    ReplaceShortText([], pb, y);
    assert ['$', b][2..] == [];
    assert ReplaceAll(first, pb, y) == x + "-" + y;
    assert vs[1..] == [Var([b], Some(y))];
    assert vs[1..][1..] == [];
    assert Substitute(s, vs) == Substitute(first, vs[1..]);
    assert Substitute(first, vs[1..]) == Substitute(x + "-" + y, vs[1..][1..]);
  }

  /**
   * Replacement is literal and in dictionary order, so a name that is a prefix
   * of another corrupts the longer reference when it comes first.
   */
  lemma PrefixCollision()
    ensures Substitute("$ab", [Var("a", Some("X")), Var("ab", Some("Y"))]) == "Xb"
  {
    var vs := [Var("a", Some("X")), Var("ab", Some("Y"))];
    assert ReplaceAll("b", "$a", "X") == "b";
    assert "$ab"[..2] == "$a" && "$ab"[2..] == "b";
    assert ReplaceAll("$ab", "$a", "X") == "Xb";
    ReplaceAbsent("Xb", "$ab", "Y");
    assert vs[1..][1..] == [];
  }

  // ---------------------------------------------------------------------
  // Command-line assignments: get_variables_from_args
  // ---------------------------------------------------------------------

  /** The `ValueError` raised for an argument that is not `name=value`. */
  datatype ArgError = InvalidAssignment(arg: string)

  function ArgErrorMessage(e: ArgError): string
  {
    "Invalid assignment: \"" + e.arg + "\" must take form var=value"
  }

  /** `arg.split('=', 1)` has two parts and the first is non-empty. */
  predicate IsAssignment(arg: string)
  {
    var parts := SplitOnce(arg, '=');
    |parts| > 1 && |parts[0]| > 0
  }

  /** The name of an assignment: everything before the first `=`. */
  function Lhs(arg: string): string
  {
    SplitOnce(arg, '=')[0]
  }

  /** The value of an assignment: everything after the first `=`. */
  function Rhs(arg: string): string
  {
    var parts := SplitOnce(arg, '=');
    if |parts| > 1 then parts[1] else ""
  }

  /** The dictionary built from `args`, or the error for the first argument that is not an assignment. */
  function ArgsToVars(args: seq<string>): Result<map<string, string>, ArgError>
  {
    if args == [] then Success(map[])
    else
      match ArgsToVars(args[..|args| - 1])
      case Failure(e) => Failure(e)
      case Success(m) =>
        var arg := args[|args| - 1];
        var parts := SplitOnce(arg, '=');
        if |parts| > 1 && |parts[0]| > 0 then Success(m[parts[0] := parts[1]])
        else Failure(InvalidAssignment(arg))
  }

  method GetVariablesFromArgs(args: seq<string>) returns (r: Result<map<string, string>, ArgError>)
    ensures r == ArgsToVars(args)
  {
    var variables: map<string, string> := map[];
    for i := 0 to |args|
      invariant ArgsToVars(args[..i]) == Success(variables)
    {
      var arg := args[i];
      var split := SplitOnce(arg, '=');
      assert args[..i + 1][..i] == args[..i];
      if |split| > 1 && |split[0]| > 0 {
        variables := variables[split[0] := split[1]];
      } else {
        r := Failure(InvalidAssignment(arg));
        ArgsFailureSticks(args, i + 1);
        return;
      }
    }
    assert args[..|args|] == args;
    r := Success(variables);
  }

  /** Once a prefix has failed, every longer prefix fails with the same error. */
  lemma {:induction false} ArgsFailureSticks(args: seq<string>, i: nat)
    requires i <= |args| && ArgsToVars(args[..i]).Failure?
    ensures ArgsToVars(args) == ArgsToVars(args[..i])
    decreases |args| - i
  {
    if i < |args| {
      assert args[..i + 1][..i] == args[..i];
      ArgsFailureSticks(args, i + 1);
    } else {
      assert args[..i] == args;
    }
  }

  /** Parsing succeeds exactly when every argument is an assignment; otherwise it names the first that is not. */
  lemma {:induction false} ArgsErrors(args: seq<string>)
    ensures ArgsToVars(args).Success? <==> forall i :: 0 <= i < |args| ==> IsAssignment(args[i])
    ensures ArgsToVars(args).Failure? ==>
      exists i :: 0 <= i < |args| && !IsAssignment(args[i]) && ArgsToVars(args).error == InvalidAssignment(args[i])
        && forall j :: 0 <= j < i ==> IsAssignment(args[j])
  {
    if args != [] {
      var front := args[..|args| - 1];
      ArgsErrors(front);
      forall j | 0 <= j < |front| ensures front[j] == args[j] { }
    }
  }

  /** One argument more: its name is bound to its value on top of what the arguments before it gave. */
  lemma ArgsStep(args: seq<string>)
    requires args != [] && ArgsToVars(args).Success?
    ensures ArgsToVars(args[..|args| - 1]).Success?
    ensures ArgsToVars(args).value ==
      ArgsToVars(args[..|args| - 1]).value[Lhs(args[|args| - 1]) := Rhs(args[|args| - 1])]
  {
  }

  /** On success the keys are exactly the names on the left of the first `=`. */
  lemma {:induction false} ArgsKeys(args: seq<string>)
    requires ArgsToVars(args).Success?
    ensures forall k :: k in ArgsToVars(args).value <==> exists i :: 0 <= i < |args| && Lhs(args[i]) == k
  {
    if args != [] {
      var n := |args|;
      var front := args[..n - 1];
      ArgsStep(args);
      ArgsKeys(front);
      var m := ArgsToVars(args).value;
      forall k ensures k in m <==> exists i :: 0 <= i < n && Lhs(args[i]) == k {
        if k in m && k != Lhs(args[n - 1]) {
          var i :| 0 <= i < |front| && Lhs(front[i]) == k;
          assert args[i] == front[i];
        }
        if exists i :: 0 <= i < n && Lhs(args[i]) == k {
          var i :| 0 <= i < n && Lhs(args[i]) == k;
          if i < n - 1 {
            assert front[i] == args[i];
          }
        }
      }
    }
  }

  /** No argument after the `i`-th assigns the same name. */
  predicate LastFor(args: seq<string>, i: int)
    requires 0 <= i < |args|
  {
    forall j :: i < j < |args| ==> Lhs(args[j]) != Lhs(args[i])
  }

  /** On success each name carries the value of its last assignment. */
  lemma {:induction false} ArgsLastWins(args: seq<string>)
    requires ArgsToVars(args).Success?
    ensures forall i :: 0 <= i < |args| && LastFor(args, i) ==>
      Lhs(args[i]) in ArgsToVars(args).value && ArgsToVars(args).value[Lhs(args[i])] == Rhs(args[i])
  {
    if args != [] {
      var n := |args|;
      var front := args[..n - 1];
      ArgsStep(args);
      ArgsLastWins(front);
      var m := ArgsToVars(args).value;
      forall i | 0 <= i < n && LastFor(args, i)
        ensures Lhs(args[i]) in m && m[Lhs(args[i])] == Rhs(args[i])
      {
        if i < n - 1 {
          assert Lhs(args[n - 1]) != Lhs(args[i]);
          assert front[i] == args[i];
          forall j | i < j < |front| ensures Lhs(front[j]) != Lhs(front[i]) {
            assert front[j] == args[j];
          }
          assert LastFor(front, i);
        }
      }
    }
  }

  /** An argument whose first `=` is at index `i`. */
  lemma {:induction false} SplitAt(arg: string, i: nat)
    requires i < |arg| && arg[i] == '=' && forall j :: 0 <= j < i ==> arg[j] != '='
    ensures SplitOnce(arg, '=') == [arg[..i], arg[i + 1..]]
  {
    if i > 0 {
      SplitAt(arg[1..], i - 1);
      assert [arg[0]] + arg[1..][..i - 1] == arg[..i];
      assert arg[1..][i..] == arg[i + 1..];
    }
  }

  /** One more argument after `front`. */
  lemma ArgsSnoc(front: seq<string>, arg: string)
    ensures ArgsToVars(front + [arg]) ==
      if ArgsToVars(front).Failure? then ArgsToVars(front)
      else if IsAssignment(arg) then Success(ArgsToVars(front).value[Lhs(arg) := Rhs(arg)])
      else Failure(InvalidAssignment(arg))
  {
    assert (front + [arg])[..|front|] == front;
  }

  /** `name=value` with a non-empty name free of `=` is an assignment of `value` to `name`. */
  lemma Assignment(name: string, value: string)
    requires |name| > 0 && '=' !in name
    ensures var arg := name + "=" + value;
      IsAssignment(arg) && Lhs(arg) == name && Rhs(arg) == value
  {
    var arg := name + "=" + value;
    forall j | 0 <= j < |name| ensures arg[j] != '=' {
      assert arg[j] == name[j];
    }
    SplitAt(arg, |name|);
    assert arg[..|name|] == name;
    assert arg[|name| + 1..] == value;
  }

  /**
   * The value may itself contain `=` or be empty, and a later assignment
   * overrides an earlier one: `a=b=c x= x=v` gives `{a: "b=c", x: v}`.
   */
  lemma ArgsExampleSuccess(a: string, b: string, c: string, x: string, v: string)
    requires |a| > 0 && '=' !in a && |x| > 0 && '=' !in x && a != x
    ensures ArgsToVars([a + "=" + b + "=" + c, x + "=", x + "=" + v]) == Success(map[a := b + "=" + c, x := v])
  {
    var first := a + "=" + b + "=" + c;
    assert first == a + "=" + (b + "=" + c);
    Assignment(a, b + "=" + c);
    Assignment(x, "");
    assert x + "=" + "" == x + "=";
    Assignment(x, v);
    ArgsSnoc([], first);
    assert [] + [first] == [first];
    ArgsSnoc([first], x + "=");
    assert [first] + [x + "="] == [first, x + "="];
    ArgsSnoc([first, x + "="], x + "=" + v);
    assert [first, x + "="] + [x + "=" + v] == [first, x + "=", x + "=" + v];
    assert map[a := b + "=" + c][x := ""][x := v] == map[a := b + "=" + c, x := v];
  }

  /** An empty name is refused: `=v` is invalid whatever `v` is. */
  lemma ArgsExampleEmptyName(v: string)
    ensures ArgsToVars(["=" + v]) == Failure(InvalidAssignment("=" + v))
  {
    SplitAt("=" + v, 0);
    ArgsSnoc([], "=" + v);
    assert [] + ["=" + v] == ["=" + v];
  }

  /** An argument without `=` is refused, after the valid ones before it. */
  lemma ArgsExampleNoEquals(name: string, value: string, word: string)
    requires |name| > 0 && '=' !in name && '=' !in word
    ensures ArgsToVars([name + "=" + value, word]) == Failure(InvalidAssignment(word))
  {
    Assignment(name, value);
    ArgsSnoc([], name + "=" + value);
    assert [] + [name + "=" + value] == [name + "=" + value];
    ArgsSnoc([name + "=" + value], word);
    assert [name + "=" + value] + [word] == [name + "=" + value, word];
  }
}
