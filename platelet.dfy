/**
 * The generating branch of `run`: discover the template's variables, lay
 * the user's values over them and prompt for the rest, substitute, decode
 * the text into a tree and write it out. The YAML decoder is a parameter.
 */
module Platelet {
  import opened Wrappers
  import opened Variables
  import opened Overlay
  import opened Materializer
  import opened Messages

  /**
   * Why a run stopped: the prompts ran out of input, the decoded tree was
   * malformed, or a value that is not a function was called.
   */
  datatype RunError = Input(input: InputError) | Template(message: string) | NotCallable(name: string)

  /** What a run does to a file system, or the input error that stops it before anything is written. */
  datatype Report = Report(shown: seq<string>, walk: Outcome)

  function Run(fs: FileSystem, content: string, user: map<string, string>, answers: seq<string>,
               decode: string -> Node, root: Path, verbose: bool, dryrun: bool): Result<Report, InputError>
  {
    match Resolve(Discovered(content), user, answers)
    case Failure(e) => Failure(e)
    case Success(res) =>
      ResolveValues(Discovered(content), user, answers);
      var tree := decode(Substitute(content, res.vars));
      Success(Report(res.shown, Walk(fs, root, tree, 0, verbose, dryrun)))
  }

  method Generate(host: Host, content: string, user: map<string, string>, answers: seq<string>,
                  decode: string -> Node, root: Path, verbose: bool, dryrun: bool) returns (r: Option<RunError>)
    modifies host
    ensures match Run(old(host.fs), content, user, answers, decode, root, verbose, dryrun)
      case Failure(e) => r == Some(Input(e)) && host.fs == old(host.fs) && host.stdout == old(host.stdout)
      case Success(rep) =>
        && host.fs == rep.walk.fs
        && host.stdout == old(host.stdout) + rep.shown + rep.walk.log
        && r == (if rep.walk.error.Some? then Some(Template(rep.walk.error.value)) else None)
  {
    var vars := GetVarsFromTemplate(content);
    var resolved := ResolveVariables(vars, user, answers);
    match resolved
    case Failure(e) =>
      r := Some(Input(e));
    case Success(res) =>
      ResolveValues(vars, user, answers);
      for i := 0 to |res.shown|
        invariant host.fs == old(host.fs)
        invariant host.stdout == old(host.stdout) + res.shown[..i]
      {
        host.Print(res.shown[i]);
        assert res.shown[..i + 1] == res.shown[..i] + [res.shown[i]];
      }
      assert res.shown[..|res.shown|] == res.shown;
      var contents := ReplaceVariables(content, res.vars);
      var tree := decode(contents);
      var e := host.WriteTemplate(root, tree, 0, verbose, dryrun);
      r := if e.Some? then Some(Template(e.value)) else None;
  }

  /** A dry run never changes the file system, whatever the template and the answers. */
  lemma DryRunTouchesNothing(fs: FileSystem, content: string, user: map<string, string>, answers: seq<string>,
                             decode: string -> Node, root: Path, verbose: bool)
    ensures var r := Run(fs, content, user, answers, decode, root, verbose, true);
      r.Success? ==> r.value.walk.fs == fs
  {
    var r := Run(fs, content, user, answers, decode, root, verbose, true);
    if r.Success? {
      var res := Resolve(Discovered(content), user, answers).value;
      ResolveValues(Discovered(content), user, answers);
      DryRunKeepsState(fs, root, decode(Substitute(content, res.vars)), 0, verbose);
    }
  }

  /**
   * The prompts are shown, and a run can stop for lack of input, exactly
   * when some name in the template was not given on the command line.
   */
  lemma PromptsOnlyForUnsupplied(fs: FileSystem, content: string, user: map<string, string>, answers: seq<string>,
                                 decode: string -> Node, root: Path, verbose: bool, dryrun: bool)
    ensures var r := Run(fs, content, user, answers, decode, root, verbose, dryrun);
      var unsupplied := exists k, name :: ReferenceAt(content, k, name) && name !in user;
      && (r.Failure? ==> unsupplied)
      && (r.Success? ==> (r.value.shown != [] <==> unsupplied))
  {
    var d := Discovered(content);
    ResolvePromptsIffUnsupplied(d, user, answers);
    ReferencesExact(content);
    var unsupplied := exists k, name :: ReferenceAt(content, k, name) && name !in user;
    if exists i :: 0 <= i < |d| && d[i].name !in user {
      var i :| 0 <= i < |d| && d[i].name !in user;
      assert d[i].name in Names(d);
      assert d[i].name in References(content);
    }
    if unsupplied {
      var k, name :| ReferenceAt(content, k, name) && name !in user;
      assert name in References(content);
      assert name in Names(d);
      var i :| 0 <= i < |d| && Names(d)[i] == name;
      assert d[i].name !in user;
    }
  }

  /** Running the same template twice with the same answers leaves what running it once leaves. */
  lemma RunTwice(fs: FileSystem, content: string, user: map<string, string>, answers: seq<string>,
                 decode: string -> Node, root: Path, verbose: bool, dryrun: bool)
    requires Run(fs, content, user, answers, decode, root, verbose, dryrun).Success?
    ensures var once := Run(fs, content, user, answers, decode, root, verbose, dryrun).value;
      Run(once.walk.fs, content, user, answers, decode, root, verbose, dryrun) == Success(once)
  {
    var res := Resolve(Discovered(content), user, answers).value;
    ResolveValues(Discovered(content), user, answers);
    Idempotent(fs, root, decode(Substitute(content, res.vars)), 0, verbose, dryrun);
  }

  // The `--vars` branch of `run`.

  /**
   * The listing branch as written: the values are resolved (with prompts)
   * first, then `print_vars(file_content)` calls the boolean parameter that
   * shadows the function of that name, which raises `TypeError`.
   */
  function ListVarsAsWritten(content: string, user: map<string, string>, answers: seq<string>): Result<seq<string>, RunError>
  {
    match Resolve(Discovered(content), user, answers)
    case Failure(e) => Failure(Input(e))
    case Success(_) => Failure(NotCallable("print_vars"))
  }

  /** The listing branch as intended: the lines shown while resolving, then the report of `print_vars`. */
  function ListVars(content: string, user: map<string, string>, answers: seq<string>): Result<seq<string>, RunError>
  {
    match Resolve(Discovered(content), user, answers)
    case Failure(e) => Failure(Input(e))
    case Success(res) => Success(res.shown + VarsReport(content))
  }

  /** As written, the listing branch never prints a report, whatever the template and the answers. */
  lemma ListVarsAsWrittenNeverReports(content: string, user: map<string, string>, answers: seq<string>)
    ensures ListVarsAsWritten(content, user, answers).Failure?
    ensures Resolve(Discovered(content), user, answers).Success? ==>
      ListVarsAsWritten(content, user, answers) == Failure(NotCallable("print_vars"))
  {
  }

  /** An empty template: as written the run fails, as intended it prints "No variables". */
  lemma ListVarsEmptyTemplate()
    ensures ListVarsAsWritten("", map[], []) == Failure(NotCallable("print_vars"))
    ensures ListVars("", map[], []) == Success(["No variables"])
  {
    assert References("") == [];
    assert Discovered("") == [];
    assert TakeSupplied([], map[]) == [];
    assert Resolve([], map[], []) == Success(Resolution([], []));
    assert VarsReport("") == ["No variables"];
    assert [] + ["No variables"] == ["No variables"];
  }

  /**
   * As intended, the listing ends with the report of the template's names,
   * and when every name was given on the command line nothing else is shown.
   */
  lemma ListVarsReports(content: string, user: map<string, string>, answers: seq<string>)
    requires ListVars(content, user, answers).Success?
    ensures var out := ListVars(content, user, answers).value;
      && |out| >= |VarsReport(content)|
      && out[|out| - |VarsReport(content)|..] == VarsReport(content)
      && ((forall k, name :: ReferenceAt(content, k, name) ==> name in user) ==> out == VarsReport(content))
  {
    var res := Resolve(Discovered(content), user, answers).value;
    var out := res.shown + VarsReport(content);
    assert out[|out| - |VarsReport(content)|..] == VarsReport(content);
    var decode: string -> Node := s => Null;
    PromptsOnlyForUnsupplied(map[], content, user, answers, decode, [], false, true);
    var r := Run(map[], content, user, answers, decode, [], false, true);
    assert r.Success? && r.value.shown == res.shown;
  }
}
