/**
 * The resolution step of `run`: user-supplied values are laid over the names
 * discovered in the template, and when some name is still without a value
 * every variable is asked for interactively, in order. Prompt answers are
 * given as a sequence of input lines.
 */
module Overlay {
  import opened Wrappers
  import opened Variables

  /** `input()` found no line left to read (Python's `EOFError`), after showing `prompt`. */
  datatype InputError = EndOfInput(prompt: string)

  const EnterValuesHeader: string := "Enter values for the following variables:"

  /** The prompt shown by `input()` for one variable. */
  function Prompt(name: string): string
  {
    name + "="
  }

  /** Every value is still `None`, as `get_vars_from_template` leaves them. */
  predicate Unresolved(vs: VarSet)
  {
    forall i :: 0 <= i < |vs| ==> vs[i].value == None
  }

  /** `None in variables.values()`. */
  predicate HasMissing(vs: VarSet)
  {
    exists i :: 0 <= i < |vs| && vs[i].value == None
  }

  /** The overlay loop: each discovered name that the user supplied takes the user's value. */
  function TakeSupplied(vs: VarSet, user: map<string, string>): VarSet
  {
    seq(|vs|, i requires 0 <= i < |vs| =>
      if vs[i].name in user then Var(vs[i].name, Some(user[vs[i].name])) else vs[i])
  }

  /** `interactive_set_vars`: every variable, in order, takes the next input line. */
  function AskAll(vs: VarSet, answers: seq<string>): Result<VarSet, InputError>
  {
    if |answers| < |vs| then Failure(EndOfInput(Prompt(vs[|answers|].name)))
    else Success(seq(|vs|, i requires 0 <= i < |vs| => Var(vs[i].name, Some(answers[i]))))
  }

  /** The resolved variables and the lines shown to the user while resolving them. */
  datatype Resolution = Resolution(vars: VarSet, shown: seq<string>)

  function Resolve(discovered: VarSet, user: map<string, string>, answers: seq<string>): Result<Resolution, InputError>
  {
    var merged := TakeSupplied(discovered, user);
    if !HasMissing(merged) then Success(Resolution(merged, []))
    else
      match AskAll(merged, answers)
      case Failure(e) => Failure(e)
      case Success(filled) =>
        Success(Resolution(filled, [EnterValuesHeader] + seq(|merged|, i requires 0 <= i < |merged| => Prompt(merged[i].name))))
  }

  method InteractiveSetVars(vs: VarSet, answers: seq<string>) returns (r: Result<VarSet, InputError>)
    ensures r == AskAll(vs, answers)
  {
    var variables := vs;
    for i := 0 to |vs|
      invariant i <= |answers|
      invariant |variables| == |vs|
      invariant forall j :: 0 <= j < |vs| ==> variables[j].name == vs[j].name
      invariant forall j :: 0 <= j < i ==> variables[j].value == Some(answers[j])
    {
      if |answers| <= i {
        r := Failure(EndOfInput(Prompt(variables[i].name)));
        return;
      }
      variables := variables[i := Var(variables[i].name, Some(answers[i]))];
    }
    assert variables == seq(|vs|, i requires 0 <= i < |vs| => Var(vs[i].name, Some(answers[i])));
    r := Success(variables);
  }

  /** The overlay block of `run` followed, when a value is missing, by the prompts. */
  method ResolveVariables(discovered: VarSet, user: map<string, string>, answers: seq<string>)
    returns (r: Result<Resolution, InputError>)
    ensures r == Resolve(discovered, user, answers)
  {
    var variables := discovered;
    for i := 0 to |variables|
      invariant |variables| == |discovered|
      invariant forall j :: 0 <= j < i ==> variables[j] == TakeSupplied(discovered, user)[j]
      invariant forall j :: i <= j < |discovered| ==> variables[j] == discovered[j]
    {
      var name := variables[i].name;
      if name in user {
        variables := variables[i := Var(name, Some(user[name]))];
      }
    }
    assert variables == TakeSupplied(discovered, user);
    if !HasMissing(variables) {
      r := Success(Resolution(variables, []));
    } else {
      var asked := InteractiveSetVars(variables, answers);
      match asked
      case Failure(e) =>
        r := Failure(e);
      case Success(filled) =>
        var shown := seq(|variables|, i requires 0 <= i < |variables| => Prompt(variables[i].name));
        r := Success(Resolution(filled, [EnterValuesHeader] + shown));
    }
  }

  /**
   * Before prompting, a discovered name holds the user's value exactly when
   * the user supplied it, and `None` otherwise; supplied names that the
   * template does not use are dropped.
   */
  lemma TakeSuppliedValues(discovered: VarSet, user: map<string, string>)
    requires Unresolved(discovered)
    ensures var merged := TakeSupplied(discovered, user);
      && Names(merged) == Names(discovered)
      && forall i :: 0 <= i < |merged| ==>
           (merged[i].value.Some? <==> discovered[i].name in user)
           && (discovered[i].name in user ==> merged[i].value == Some(user[discovered[i].name]))
  {
  }

  /** Prompting happens exactly when some discovered name was not supplied. */
  lemma {:induction false} ResolvePromptsIffUnsupplied(discovered: VarSet, user: map<string, string>, answers: seq<string>)
    requires Unresolved(discovered)
    ensures var r := Resolve(discovered, user, answers);
      var unsupplied := exists i :: 0 <= i < |discovered| && discovered[i].name !in user;
      && (r.Failure? <==> unsupplied && |answers| < |discovered|)
      && (r.Success? ==> (r.value.shown != [] <==> unsupplied))
  {
    var merged := TakeSupplied(discovered, user);
    if exists i :: 0 <= i < |discovered| && discovered[i].name !in user {
      var i :| 0 <= i < |discovered| && discovered[i].name !in user;
      assert merged[i].value == None;
    }
  }

  /**
   * After resolution the variables are exactly the discovered names, in
   * order, all with a value: the user's when nothing was asked, otherwise
   * the answers, which overwrite every variable and not just the missing ones.
   */
  lemma {:induction false} ResolveValues(discovered: VarSet, user: map<string, string>, answers: seq<string>)
    requires Unresolved(discovered)
    requires Resolve(discovered, user, answers).Success?
    ensures var res := Resolve(discovered, user, answers).value;
      && Names(res.vars) == Names(discovered)
      && Resolved(res.vars)
      && (res.shown == [] ==> forall i :: 0 <= i < |discovered| ==>
            discovered[i].name in user && res.vars[i].value == Some(user[discovered[i].name]))
      && (res.shown != [] ==> forall i :: 0 <= i < |discovered| ==> res.vars[i].value == Some(answers[i]))
  {
    var merged := TakeSupplied(discovered, user);
    if !HasMissing(merged) {
      forall i | 0 <= i < |discovered| ensures discovered[i].name in user {
        assert merged[i].value != None;
      }
    }
  }
}
