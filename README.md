# platelet in Dafny

platelet turns a YAML template into a tree of directories and files. It can
also turn a directory back into such a template. This project models the
core of `platelet.py` and proves properties of that model:

- **Text** (`text.dfy`): the Python string operations the tool relies on.
  These are `str.replace` (leftmost, non-overlapping), `str.join`,
  `str.split('=', 1)`, `str.lower` and the regex class `\w`. Plain
  `str.split` is not called by the tool. `Split` is a reference definition
  that characterises `replace` and the line `print_vars` joins.
- **Variables** (`variables.dfy`): the variable engine.
  - Discovery of `$name` references is `get_vars_from_template`. It is a
    scan for `\$\w+` that keeps the first occurrence of each name.
  - Literal substitution is `replace_variables`.
  - Parsing `name=value` command-line words is `get_variables_from_args`,
    which fails with `Invalid assignment: ...`.
- **Overlay** (`overlay.dfy`): the part of `run` that lays user values over
  the discovered names. When a value is still missing it asks for every
  variable in turn (`interactive_set_vars`). Input lines are a sequence.
  Running out of them is Python's `EOFError`.
- **Messages** (`messages.dfy`): the `yes_no` confirmation and the text
  printed by `print_vars`.
- **Materializer** (`materializer.dfy`): `write_template`.
  - It runs over a file system modelled as a map from paths (sequences of
    segments) to directories and files, plus a log of printed lines.
  - A `Host` class holds both. Its methods are proved against the
    functional `Walk`.
- **Serializer** (`serializer.dfy`): `read_to_template`. A `TemplateFile`
  class appends text and is proved against the functional `Serialize`.
  The directory being read is an ordered tree.
- **Platelet** (`platelet.dfy`): the generating branch of `run`. It
  discovers, resolves, substitutes, decodes (the YAML decoder is a function
  parameter) and writes. It also holds the `--vars` branch (see Findings).

## Model

| member | source | states |
|---|---|---|
| Text.ReplaceAll | platelet.py:16 | Definition of `str.replace`: leftmost, non-overlapping. Properties in ReplaceIsJoinOfSplit, ReplaceAbsent and ReplaceAfter. |
| Text.Join | platelet.py:76 | Definition of `sep.join`. Properties in SplitJoin. |
| Text.Lower | platelet.py:94 | `str.lower` over ASCII: same length, each upper-case letter mapped to its lower-case one and every other character kept. |
| Text.SplitOnce | platelet.py:24 | `s.split('=', 1)` gives one piece exactly when `=` is absent (the piece is `s`). Otherwise it gives two pieces around the first `=`, and the first holds no `=`. |
| Text.ReplaceIsJoinOfSplit | platelet.py:16 | `s.replace(p, r)` equals `r.join(s.split(p))` for every text and non-empty pattern. |
| Text.ReplaceAbsent | platelet.py:16 | A pattern whose first character does not occur in the text leaves it unchanged. |
| Text.ReplaceAfter | platelet.py:16 | A prefix that cannot start an occurrence passes through replacement untouched. |
| Text.SplitJoin | platelet.py:76 | Splitting `sep.join(xs)` at `sep` gives `xs` back, when no piece holds the separator's first character. |
| Variables.WordRun | platelet.py:62 | The run of word characters at the front is maximal: every character in it is `\w` and the next one is not. |
| Variables.References | platelet.py:62 | Definition of the `\$\w+` scan with the `$` dropped. Properties in ReferencesExact, ReferencesSound, ReferencesComplete and ReferencesExample. |
| Variables.ReferencesExact | platelet.py:62 | A name is among the `\$\w+` matches exactly when the text has a `$` followed by that maximal run of word characters somewhere. |
| Variables.ReferencesSound | platelet.py:62 | Every matched name occurs in the text as a reference. |
| Variables.ReferencesComplete | platelet.py:62 | Every reference in the text is matched. |
| Variables.ReferencedNamesAreWords | platelet.py:62-64 | Every discovered name is non-empty and made of word characters only. |
| Variables.Dedup | platelet.py:63-64 | The kept names are pairwise distinct and are exactly the names that occur. |
| Variables.DedupOrder | platelet.py:63-64 | The kept names are in first-occurrence order. |
| Variables.Discovered | platelet.py:60-65 | The variables are the distinct referenced names in first-occurrence order, each with no value. A name is present exactly when the text references it. |
| Variables.GetVarsFromTemplate | platelet.py:60-65 | The appending loop gives exactly `Discovered`: the distinct referenced names in first-occurrence order, each with no value. |
| Variables.ReferencesExample | platelet.py:62 | `$a/$b/$a` is matched as `a`, `b`, `a` for any word characters `a`, `b`. |
| Variables.DiscoveryExample | platelet.py:60-65 | `$a/$b/$a` gives the variables `[a, b]`. |
| Variables.Substitute | platelet.py:13-17 | Definition of the dictionary-order fold of `replace('$' + name, value)`. Properties in SubstituteWithoutSigil, SubstituteExample and PrefixCollision. |
| Variables.ReplaceVariables | platelet.py:13-17 | The loop computes the left fold of `replace('$' + name, value)` in dictionary order. With no variables the text is unchanged. |
| Variables.SubstituteWithoutSigil | platelet.py:13-17 | A text without `$` is unchanged by substitution. |
| Variables.SubstituteExample | platelet.py:13-17 | `{a: x, b: y}` on `$a-$b` gives `x-y` for distinct names, when `x` holds no `$`. |
| Variables.PrefixCollision | platelet.py:15-16 | With `a` before `ab` in dictionary order, `$ab` becomes `Xb`: replacement is literal and ordered. |
| Variables.ArgsToVars | platelet.py:20-29 | Definition of the dictionary built from the arguments, or the error for the first bad one. Properties in ArgsErrors, ArgsKeys, ArgsLastWins, ArgsFailureSticks and the examples. |
| Variables.ArgErrorMessage | platelet.py:28 | Definition of the text of the `ValueError` for an invalid argument. |
| Variables.GetVariablesFromArgs | platelet.py:20-29 | The loop builds the dictionary of the arguments, or stops with the error for the first argument that is not an assignment. |
| Variables.ArgsFailureSticks | platelet.py:27-28 | Once an argument is rejected, later arguments do not change the outcome. |
| Variables.ArgsErrors | platelet.py:23-28 | Parsing succeeds exactly when every argument is an assignment. Otherwise the error names the first argument that is not one, and every earlier one is an assignment. |
| Variables.ArgsStep | platelet.py:24-26 | One more valid argument binds its name to its value on top of the earlier dictionary. |
| Variables.ArgsKeys | platelet.py:24-26 | On success, the keys are exactly the names left of the first `=` in the arguments. |
| Variables.ArgsLastWins | platelet.py:23-26 | On success, each name holds the value of its last assignment. |
| Variables.SplitAt | platelet.py:24 | An argument whose first `=` is at index `i` splits into the text before it and the text after it. |
| Variables.Assignment | platelet.py:24-26 | `name=value`, with a non-empty name free of `=`, is an assignment of `value` to `name`. |
| Variables.ArgsSnoc | platelet.py:23-28 | Appending an argument keeps an earlier failure, binds an assignment, or fails naming the argument. |
| Variables.ArgsExampleSuccess | platelet.py:20-29 | `a=b=c x= x=v` gives `{a: "b=c", x: v}`. The value may contain `=` or be empty, and a later value overrides an earlier one. |
| Variables.ArgsExampleEmptyName | platelet.py:25-28 | `=v` is rejected, naming `=v`. |
| Variables.ArgsExampleNoEquals | platelet.py:25-28 | A word without `=` after a valid assignment is rejected, naming that word. |
| Overlay.AskAll | platelet.py:68-70 | Definition of `interactive_set_vars`: every variable takes the next line, or input runs out. Realised by InteractiveSetVars. |
| Overlay.TakeSupplied | platelet.py:115-117 | Definition of the overlay loop. Properties in TakeSuppliedValues. |
| Overlay.Resolve | platelet.py:114-122 | Definition of overlay then conditional prompting. Properties in ResolvePromptsIffUnsupplied and ResolveValues. |
| Overlay.InteractiveSetVars | platelet.py:68-70 | Every variable, in order, takes the next input line. With too few lines, the error carries the prompt of the first variable left without one. |
| Overlay.ResolveVariables | platelet.py:114-122 | The loop lays the user's values over the names. The header and the prompts are shown and every variable is asked for only when a value is missing. |
| Overlay.TakeSuppliedValues | platelet.py:115-117 | After the overlay a name holds the user's value exactly when the user supplied it, and otherwise none. The names and their order are unchanged. |
| Overlay.ResolvePromptsIffUnsupplied | platelet.py:119-122 | Prompts are shown exactly when some name was not supplied. Resolution fails exactly when a name was not supplied and there are fewer input lines than variables. |
| Overlay.ResolveValues | platelet.py:114-122 | After resolution every name has a value: all the user's when nothing was asked, otherwise all the answers, which overwrite supplied values too. |
| Messages.Confirmed | platelet.py:93-95 | Definition of `yes_no`'s test on the answer. Properties in ConfirmedAnswers. |
| Messages.VarsReport | platelet.py:72-78 | Definition of the lines `print_vars` prints. Properties in VarsReportLists. |
| Messages.ConfirmedAnswers | platelet.py:93-95 | `yes_no` accepts exactly `y` and `yes` in any letter case. |
| Messages.VarsReportLists | platelet.py:72-78 | The report is "No variables" exactly when the text references no name. Otherwise it is "Variables:" followed by a line that splits at `, ` into the discovered names. |
| Materializer.MakeDirs | platelet.py:46 | Definition of `os.makedirs(p, exist_ok=True)`. Properties in MakeDirsEffect and MakeDirsConfined. |
| Materializer.Walk | platelet.py:39-58 | Definition of `write_template`'s effect: new file system, printed lines, error. Properties in WalkTrace, DryRunKeepsState, Idempotent, WalkConfined, WalkMaterializes and the rest below. |
| Materializer.WalkItems | platelet.py:55-56 | Definition of the loop over a dict's items. Properties in StopsAtMalformed and the lemmas about Walk. |
| Materializer.Fault | platelet.py:57-58 | Definition of the error a tree raises: its first malformed value in pre-order. Used by WalkTrace. |
| Materializer.Listing | platelet.py:42-43 | Definition of the lines a verbose or dry run prints: the pre-order listing, indented by depth, up to the first malformed value. Used by WalkTrace. |
| Materializer.MakeDirsEffect | platelet.py:46 | `makedirs(p)` adds `p` and all its ancestors as directories and keeps every other entry. |
| Materializer.Host.MakeDirectories | platelet.py:46 | The file system becomes `makedirs` of the old one, and the output is unchanged. |
| Materializer.Host.WriteFile | platelet.py:50-51 | The file holds exactly the written text, whatever was there before, and nothing else changes. |
| Materializer.Host.WriteTemplate | platelet.py:39-58 | The recursive write leaves the file system and the printed lines of `Walk`, and returns its error. |
| Materializer.Host.WriteItems | platelet.py:55-56 | The loop over a dict's items does what `WalkItems` does, stopping at the first error. |
| Materializer.WalkTrace | platelet.py:42-58 | The printed lines are the pre-order listing (indented by depth) up to the first malformed value, and only when verbose or dry-run. The error is the first malformed value in pre-order. |
| Materializer.SameLogBothModes | platelet.py:42-43 | A dry run prints the same lines and raises the same error as a verbose real run, from any file system. |
| Materializer.DryRunKeepsState | platelet.py:45-56 | A dry run leaves the file system unchanged. |
| Materializer.OverlaysFreshRun | platelet.py:45-56 | A run writes on top of the existing file system what it would write into an empty one. |
| Materializer.Idempotent | platelet.py:39-58 | Running the same tree again on the result changes nothing and prints and raises the same. |
| Materializer.MakeDirsConfined | platelet.py:46 | `makedirs(p)` changes nothing outside `p` except turning its ancestors into directories. |
| Materializer.WalkConfined | platelet.py:39-58 | A real run removes nothing. It changes only paths under the output path, plus directories above it. |
| Materializer.WalkMaterializes | platelet.py:45-56 | A real run of a well-formed tree with distinct keys leaves every value in place: `None` and dicts as directories, strings as files with exactly that text. |
| Materializer.StopsAtMalformed | platelet.py:55-58 | A malformed child stops the loop. Earlier siblings keep their effect, the child's line is printed, later siblings are not visited, and the error names the value. |
| Serializer.Serialize | platelet.py:80-91 | Definition of the text `read_to_template` writes for one path. Properties in FileBodyRoundTrip, SerializeIndented and EmptyIffOther. |
| Serializer.SerializeAll | platelet.py:84-85 | Definition of the text written for a directory's children, in order. |
| Serializer.Lines | platelet.py:89 | The lines of a text concatenate back to it. Each is non-empty and has no line break except at its end, and every line but the last ends in one. |
| Serializer.LinesUnique | platelet.py:89 | Any cutting of a text into such lines is the one `Lines` returns. |
| Serializer.TemplateFile.Write | platelet.py:83 | Writing appends the text to the file. |
| Serializer.TemplateFile.ReadToTemplate | platelet.py:80-91 | The recursive read appends exactly `Serialize` of the tree at that depth. |
| Serializer.FileBodyRoundTrip | platelet.py:86-91 | Un-indenting a file's block by its margin gives back its content exactly. |
| Serializer.SerializeIndented | platelet.py:80-91 | Every non-blank line written for a node at depth `d` starts with at least `2d` blanks. |
| Serializer.EmptyIffOther | platelet.py:82-91 | Only a path that is neither a directory nor a file writes nothing. |
| Platelet.Run | platelet.py:111-129 | Definition of the generating branch as a value: resolve, substitute, decode, walk. Properties in DryRunTouchesNothing, PromptsOnlyForUnsupplied and RunTwice. |
| Platelet.Generate | platelet.py:111-129 | The generating branch either stops on missing input before writing anything, or prints the resolution lines and then does exactly what `Walk` does on the decoded, substituted text. |
| Platelet.DryRunTouchesNothing | platelet.py:127-129 | A dry run never changes the file system. |
| Platelet.PromptsOnlyForUnsupplied | platelet.py:112-122 | Prompts are shown, and a run can stop for lack of input, only when some referenced name was not given on the command line (prompts exactly then). |
| Platelet.RunTwice | platelet.py:126-129 | A second run with the same template and answers changes nothing further. |
| Platelet.ListVarsAsWritten | platelet.py:124-125 | The `--vars` branch as written: resolution, then the `TypeError` from calling the boolean `print_vars`. |
| Platelet.ListVars | platelet.py:72-78 | The `--vars` branch as intended: resolution, then the `print_vars` report. |
| Platelet.ListVarsAsWrittenNeverReports | platelet.py:124-125 | As written, the `--vars` branch never prints a report: it always fails. |
| Platelet.ListVarsEmptyTemplate | platelet.py:124-125 | For an empty template the written code raises `TypeError`, while the intended code prints "No variables". |
| Platelet.ListVarsReports | platelet.py:72-78 | As intended, the output ends with the `print_vars` report. It is only that report when every name was supplied. |

## Left out

- `get_args` and `extant_file` (argparse, checking that a path is a file): command-line plumbing, not modelled. The extra words are taken as given.
- `yaml.safe_load` is a function parameter `decode`. YAML syntax errors and what the decoder produces are not modelled. The decoded value is a `Node`: `None`, a string, a dict in its item order, or any other value (kept as its printed form).
- The confirmation and abort steps of `run` (lines 98-109): only the accepted answers of `yes_no` are modelled, not the prompt text or `exit(0)`.
- The `--read` branch's opening of the template file: `ReadToTemplate` writes into a `TemplateFile` that starts empty.
- Standard input and output: prompts and printed lines form a log of strings, and answers are a sequence of lines.
- `Platelet.Generate`: when input runs out, the contract says that nothing is printed (`host.stdout` is unchanged) and the file system is unchanged. The source has already printed the header (line 121) and the prompts up to the one that hit `EOFError` (line 70), so the model does not capture those lines.
- `\w` and `str.lower` cover ASCII only. Python's Unicode word characters and case mapping are not modelled.
- `Path.iterdir` order is given as the order of a directory's children in the tree being read.
- OS errors from `makedirs` and `open` are not modelled: a file in the way of a directory, permissions, a missing parent. `makedirs` overwrites a file prefix with a directory in this model.
- Dict keys are each one path segment in this model. pathlib and the OS treat some differently, and those cases are not modelled:
  - keys holding `/`, absolute keys and non-string keys;
  - the empty key `''` and the key `.`, which pathlib folds into the parent (`Path('out') / ''` is `out`). The model prints the key itself (an empty name for `''`, `.` for `.`) where the source prints the parent's name. It also adds an entry one level down, where the source creates nothing new.
  - the key `..`, which the OS resolves to the parent directory. It escapes the output path, which `Materializer.WalkConfined` (stated over segments) does not see.
- `Serializer.Serialize` treats every file as readable text. In the source, a file that is not valid text in the locale's encoding (a `.png`, a `.pyc`) raises `UnicodeDecodeError` while its lines are read. That happens after its header `name: |-` has been written, so the run stops with a truncated template. The model has no read error for a file.
- Universal-newline translation when reading a file is not modelled: `\r\n` stays as it is.
- The user dictionary is a map. Its insertion order is never read by the source.
- `Serializer.SerializeIndented` assumes names without line breaks.
- Writing a string at the root path (an empty path) is modelled as a file entry at the empty path. The OS would refuse it.
- Concurrency and files changing on disk during a run are out of scope.

## Findings

| source | as written | input that shows it | evidently intended | confidence | as-written member | corrected member |
|---|---|---|---|---|---|---|
| platelet.py:124-125 | `run` takes a bool parameter `print_vars` that shadows the function `print_vars`. The call `print_vars(file_content)` then calls a bool and raises `TypeError`. | `--vars` with an empty template: it raises instead of printing "No variables" | After resolving the variables, print the `print_vars` report of the template | high, not executed | Platelet.ListVarsAsWritten (Platelet.ListVarsAsWrittenNeverReports, Platelet.ListVarsEmptyTemplate) | Platelet.ListVars (Platelet.ListVarsReports, Messages.VarsReportLists) |
