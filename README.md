# IMPROVER command-line composition, modelled in Dafny

IMPROVER is a post-processing toolbox for weather forecasts. It is run as one
program, `improver <command> <args...>`. Its command line can be composed: a
run of tokens between `[` and `]` is a nested command. That command is run
first, and its result is put in the enclosing command's argument list in
place of the brackets. This project models the engine that does this:

- `unbracket` turns the flat token list into nested lists (`brackets.dfy`,
  module `Brackets`).
- `execute_command` evaluates nested lists innermost first and siblings left
  to right. It wraps every result that is not a `str` in an `ObjectAsStr`
  carrier, then calls the dispatcher. In a dry run it returns the resolved
  argument list instead (`evaluator.dfy`, module `Evaluator`, which also
  holds `main`).
- The carrier `ObjectAsStr` and the rule `maybe_coerce_with` (`carrier.dfy`,
  module `Carrier`). A carrier is a `str` whose text is a display name and
  which keeps the wrapped object. `maybe_coerce_with` lets a command take the
  object back out.
- The output decorators `with_output` and `with_intermediate_output`
  (`finalizer.dfy`, module `Finalizer`).
- The `help` command and its `--usage` line filter (`help.dfy`, module `Help`).
- The generic `--output` pre- and postprocessing of the clize front end, and
  its `main` with default hooks (`clize_framework.dfy`, module
  `ClizeFramework`).

Python objects are the datatype `Values.PyValue`. A carrier is
`Carrier(name, original)`, and `IsStr` holds for it as it does for a plain
`Str`, since `ObjectAsStr` subclasses `str`. Everything the engine calls but
does not define is a parameter:

- the dispatcher (clize with the table of commands) is a function from the
  program name and argument list to an `Outcome`;
- `hash`/`id` is an `Identity` function;
- the default command processor is a `Processor` value.

The calls made to the dispatcher are returned as a trace of `Call`s. The saves
made by the output decorators are returned as a list of `Saved` records.

Each imperative routine is a method with a loop, proved equal to a
specification function:

| method | specification |
|---|---|
| `Brackets.Unbracket` | `Brackets.Parse` |
| `Evaluator.ExecuteCommand` | `Evaluator.Execute` |
| `ClizeFramework.PreprocessCommand` | `ClizeFramework.PostArgs` |

The properties of the routines are proved as lemmas about those functions.

Two behaviours of the code are worth stating plainly:

- Dry run. A nested list is dry-run in its turn, like the enclosing command,
  so no dispatcher call is made at any depth
  (lib/improver/cli/__init__.py:331-337). The list that comes back is not a
  `str`, so it is wrapped in an `ObjectAsStr` in the place of the brackets.
  `Evaluator.DryRun` and `Evaluator.DryRunPositions` state this.
- `--output` without `=`. `preprocess_command` counts positions from 1 and
  then reads `args[i + 1]`, which is the argument two places after a bare
  flag, not the one after it (lib/improver/cli/clize_framework.py:17,
  20-22). `ClizeFramework.OutputValue` models this reading as written.
  The only use of `post_args` is to decide whether a result was saved
  already (the comment at lib/improver/cli/clize_framework.py:4).
  `ClizeFramework.DefaultHooksSuppress` proves that the recorded value is
  never used by the default postprocessor, so this reading does not change
  what `main` returns.

## Model

| member | source | states |
|---|---|---|
| `Carrier.ObjectToName` | lib/improver/cli/__init__.py:114-122 | the name is `<module.Type@id>`: at least five characters, between `<` and `>`; it contains no white space or bracket when the class's module and name contain none, so it always stays one token |
| `Carrier.ObjectAsStr` | lib/improver/cli/__init__.py:105-112 | the result is always a carrier; a carrier is passed through as the same object (no double wrapping); otherwise the result carries `obj`, under the given name or else under a `<...>` default name; wrapping keeps "a carrier never holds a carrier" |
| `Carrier.DefaultCarrierName` | lib/improver/cli/__init__.py:105-112 | a carrier made without a name is named by `object2name`, so its text is one bare token whenever the object's module and class names are |
| `Carrier.MaybeCoerceWith` | lib/improver/cli/__init__.py:125-128 | the carried object is taken out of a carrier; `convert` is applied exactly when the unwrapped value is a `str`, and any other value is returned untouched |
| `Carrier.CoercionSeesThroughCarrier` | lib/improver/cli/__init__.py:105-107 | coercing a wrapped object gives the same value as coercing the object itself, and a non-`str` result of a nested command reaches the receiving command unchanged |
| `Carrier.DefaultNameIsNotSyntax` | lib/improver/cli/__init__.py:108-109 | a default-named carrier's text is never `[`, never `]`, and never starts with `--output` |
| `Brackets.Unbracket` | lib/improver/cli/__init__.py:300-322 | the stack loop computes `Parse(args)`; it succeeds exactly when the brackets are balanced; on success the nested list renders back to `args` and has no bracket leaves; on failure the position is the first `]` with no open `[`, or `len(args)` when a `[` is still open at the end |
| `Brackets.ParseOutcome` | lib/improver/cli/__init__.py:306-322 | the success/failure dichotomy of `unbracket` in terms of bracket depth, in both directions |
| `Brackets.MismatchPosition` | lib/improver/cli/__init__.py:313-315 | a first `]` met with an empty stack at index `p` makes `unbracket` fail with position `p`; brackets left open make it fail with position `len(args)` (lines 320-321) |
| `Brackets.UnderflowUnique` | lib/improver/cli/__init__.py:313-315 | the reported position of an unmatched `]` is unique |
| `Brackets.RoundTrip` | lib/improver/cli/__init__.py:306-322 | parsing the rendering of any nested list without bracket tokens gives that list back, so rendering and `unbracket` are inverse |
| `Brackets.ParsePreservesTokens` | lib/improver/cli/__init__.py:306-322 | after a successful `unbracket`, flattening the nested output gives the input tokens in order without the brackets, and there is one nested list per `[` |
| `Brackets.Doctest` | lib/improver/cli/__init__.py:303-304 | `foo [ bar a b ] [ baz c ] -o z` gives `['foo', ['bar','a','b'], ['baz','c'], '-o', 'z']` |
| `Brackets.MismatchExamples` | lib/improver/cli/__init__.py:310-321 | `a ]` fails at position 1; `a [` fails at position 2 |
| `Evaluator.ExecuteCommand` | lib/improver/cli/__init__.py:325-342 | the in-place loop with recursion on nested lists computes `Execute`; a dry run makes no dispatcher call and returns the dry-run list; otherwise it makes at least one call, the result is the dispatcher's answer to the last call, and every argument handed to the dispatcher is a `str` or a carrier |
| `Evaluator.ExecuteFacts` | lib/improver/cli/__init__.py:327-339 | for any dispatcher: every call gets all-`str` arguments under the same program name; a dry run is the dry-run list with no call; otherwise every call before the last returned normally, so the first error propagates unchanged, and on success there is exactly one call per nested list plus the final one |
| `Evaluator.LastCallArguments` | lib/improver/cli/__init__.py:328-339 | for any argument list whose nested commands all return, without a dry run: the last call is the command under the same program name, its outcome is the dispatcher's answer, and position `k` of its arguments holds `args[k]` made a `str`, or, for a nested list, that list's own returned result made a `str` |
| `Evaluator.ResolvedPositions` | lib/improver/cli/__init__.py:328-335 | the in-place replacement: each position of the resolved list holds its own argument made a `str`, or the wrapped result of its own nested list, which returned |
| `Evaluator.ResolveAppend` | lib/improver/cli/__init__.py:328-335 | the arguments are resolved left to right: resolving `a + b` resolves `a` first, stops at its first failure, and otherwise resolves `b` after it |
| `Evaluator.NestedCallsInOrder` | lib/improver/cli/__init__.py:328-332 | the calls of nested list `args[k]` come straight after the calls made for the arguments before it |
| `Evaluator.AsText` | lib/improver/cli/__init__.py:333-334 | the result is always a `str`; a `str` (or carrier) is kept as it is, anything else is carried in a new carrier |
| `Evaluator.DryRun` | lib/improver/cli/__init__.py:336-337 | the dry-run list has one element per argument |
| `Evaluator.DryRunPositions` | lib/improver/cli/__init__.py:329-337 | every element of a dry-run list is a `str`: a non-list argument made a `str`, and a nested list replaced by a carrier of its own dry-run list, at every depth |
| `Values.NatDigitsValue` | lib/improver/cli/__init__.py:308 | the decimal digits that `'%i'` writes for a non-negative number read back as that number |
| `Evaluator.MismatchMessage` | lib/improver/cli/__init__.py:308 | the message is `Mismatched bracket at position ` followed by decimal digits that denote the position, and a full stop (used at lines 315 and 321) |
| `Evaluator.MismatchMessageInjective` | lib/improver/cli/__init__.py:308 | different positions give different messages, so the message identifies the position |
| `Evaluator.NestedExample` | lib/improver/cli/__init__.py:327-339 | `outer [ inner a b ] c` calls `inner a b` first, then `outer` with inner's result wrapped in the bracket's place, followed by `c` |
| `Evaluator.PlainCommand` | lib/improver/cli/__init__.py:327-339 | an argument list of `str`s only is dispatched once, exactly as given |
| `Evaluator.ImproverMain` | lib/improver/cli/__init__.py:373-377 | a bracket mismatch raises `Mismatched bracket at position i.` before any command runs; otherwise `main` is `execute_command` on the command and the unbracketed arguments; on success without a dry run there is one dispatcher call per `[` plus one |
| `Finalizer.WithOutput` | lib/improver/cli/__init__.py:169-179 | with a non-empty output name, the result is saved to it and `None` is returned; with `None` or `''` the result is returned unchanged with no save; an error propagates with no save |
| `Finalizer.WithIntermediateOutput` | lib/improver/cli/__init__.py:182-193 | only the first component of the pair is returned; the second is saved when an intermediate output name is given, and nothing is saved otherwise |
| `Finalizer.BothOutputs` | lib/improver/cli/__init__.py:169-193 | with both decorators and both names given, the intermediate result is saved first, then the result, and `None` is returned |
| `Finalizer.SavedOrPassedOn` | lib/improver/cli/__init__.py:175-179 | a result is either saved or passed on, never both |
| `Help.SplitLines` | lib/improver/cli/__init__.py:254 | `str.splitlines()`: no line it produces contains a line boundary, and it is empty exactly for the empty text |
| `Help.SplitJoin` | lib/improver/cli/__init__.py:254-255 | splitting undoes `'\n'.join` for lines without boundaries, except that an empty last line is not seen again |
| `Help.KeptLines` | lib/improver/cli/__init__.py:254-255 | no kept line ends with `--help [--usage]`, and no more lines are kept than given |
| `Help.KeptLinesMembers` | lib/improver/cli/__init__.py:254-255 | the kept lines all come from the input, every other input line is kept, and the list is unchanged when no line ends with `--help [--usage]` |
| `Help.FilterHelp` | lib/improver/cli/__init__.py:254-255 | the lines of the filtered overview are the kept lines of the original in order (less an empty last one), so none advertises `--help [--usage]` |
| `Help.KeptLinesOrder` | lib/improver/cli/__init__.py:254-255 | keeping distributes over concatenation and keeps a single line exactly when it does not end with `--help [--usage]`, so order and multiplicity are kept |
| `Help.FilterKeepsPlainHelp` | lib/improver/cli/__init__.py:253-255 | help text with no usage line comes through the filter line for line, except that an empty last line is dropped (as `'\n'.join` of `splitlines()` drops it) |
| `Help.FirstWord` | lib/improver/cli/__init__.py:250 | `progname.split()[0]`: absent exactly when the name is all white space; otherwise the first maximal run of non-white-space characters |
| `Help.HelpArgs` | lib/improver/cli/__init__.py:251 | `filter(None, ...)`: a missing or empty command is dropped and otherwise first; `--help` is always there, last without usage and just before a final `--usage` with it |
| `Help.ImproverHelp` | lib/improver/cli/__init__.py:246-256 | an all-white-space program name raises `IndexError` with no call; otherwise exactly one dispatcher call under the first word; the answer is returned as is unless the overview with usage was asked for, in which case it is filtered (an error propagates, and an answer that is not a `str` raises `AttributeError`) |
| `ClizeFramework.OutputFlagPrefix` | lib/improver/cli/clize_framework.py:18 | `IsOutputFlag`: a flag is a `str` (plain or carrier) whose first eight characters are `--output`; `--output=name` and `--outputs` are flags, `-o` is not |
| `ClizeFramework.Partition` | lib/improver/cli/clize_framework.py:19 | `str.partition('=')`: split at the first `=`, or the whole text with an empty remainder when there is none |
| `ClizeFramework.FirstOutputFlag` | lib/improver/cli/clize_framework.py:17-18 | the index of the first `str` argument starting with `--output`, absent exactly when there is none |
| `ClizeFramework.FlagFound` | lib/improver/cli/clize_framework.py:17-25 | when the loop reaches the first flag, `post_args` is `['--output', v]` with `v` the text after its first `=`, or else the argument two places after it, or `''` |
| `ClizeFramework.OutputValue` | lib/improver/cli/clize_framework.py:19-25 | the recorded value is the text after the first `=`; without `=` it is the argument two places after the flag, or `''` when there is none |
| `ClizeFramework.PreprocessCommand` | lib/improver/cli/clize_framework.py:13-27 | the loop with early `break` returns `command` and `args` unchanged; `post_args` is empty exactly when no `str` argument starts with `--output`, and otherwise it is `['--output', value]` for the first such argument only |
| `ClizeFramework.PostArgs` | lib/improver/cli/clize_framework.py:15-27 | `post_args` is empty exactly when no flag is present, and otherwise has two elements, `'--output'` first |
| `ClizeFramework.SkippedValueExample` | lib/improver/cli/clize_framework.py:20-22 | `--output out.nc x` records `x`, not `out.nc` |
| `ClizeFramework.MissingValueExample` | lib/improver/cli/clize_framework.py:21-24 | `--output out.nc` alone records `''` |
| `ClizeFramework.FirstFlagExample` | lib/improver/cli/clize_framework.py:18-26 | with two `--output=` flags, only the first counts, and it records the text after `=` |
| `ClizeFramework.IndexOf` | lib/improver/cli/clize_framework.py:50 | `list.index`: the first element equal to the text, absent exactly when there is none |
| `ClizeFramework.PostprocessCommand` | lib/improver/cli/clize_framework.py:47-53 | `None` when `'--output'` occurs with some element after it; the result unchanged when no `'--output'` has a successor |
| `ClizeFramework.PostprocessIgnoresValue` | lib/improver/cli/clize_framework.py:49-53 | the value after `'--output'` is never looked at, even when it is `''`; a trailing `'--output'` suppresses nothing |
| `ClizeFramework.FrameworkMain` | lib/improver/cli/clize_framework.py:58-85 | each missing hook is replaced by its default, and the three hooks are composed in order, with an error of any stage ending the run; with the default pre- and postprocessor the result is `None` exactly when a `str` argument starts with `--output`, and the processor's result otherwise |
| `ClizeFramework.Suppressed` | lib/improver/cli/clize_framework.py:79-85 | a result is replaced by `None` when a flag is present and kept when none is |
| `ClizeFramework.DefaultHooksSuppress` | lib/improver/cli/clize_framework.py:47-53 | postprocessing what `preprocess_command` built suppresses the result exactly when a flag is present, whatever value was recorded |

## Left out

- The help rendering classes `docutilize`, `HelpForNapoleonDocstring` and
  `DocutilizeClizeHelp` are left out. They render docstrings through
  Sphinx/napoleon, which are foreign libraries.
- `_clizefy`/`clizefy` are left out. They are framework glue: they build clize
  objects, read the environment, mutate `sys.modules`/`sys.argv` and call
  `literal_eval`.
- The table of commands is left out: `_cli_items`, `SUBCOMMANDS_TABLE`,
  `SUBCOMMANDS_DISPATCHER`, clize's argument binding and the handling of
  unknown commands. All of these are the `Dispatcher` parameter.
- `run_main` is left out. It is process entry only.
- The value converters `inputcube` and `inputjson` are left out. So are
  `load_cube`, `load_json_or_none` and `save_netcdf`, which are file I/O. The
  converters are `MaybeCoerceWith` with the loader as its `convert` parameter,
  and a save is a recorded `Saved` entry.
- The `print` of the verbose and dry-run modes is left out, because it is
  output only. The `verbose` flag is still passed to the command processor.
- `Finalizer.WithOutput`: `save_netcdf` is taken never to raise. A failing
  save, which would propagate its error instead of returning `None`, is not
  modelled.
- `Finalizer.WithIntermediateOutput`: the save of the intermediate result is
  taken never to raise, so its error cannot end the command; for the same
  reason `Finalizer.BothOutputs` does not cover a second save failing after
  the first has written.
- `Carrier.MaybeCoerceWith`: `convert` is a total function. A converter that
  raises (a loader failing on a missing file) is not modelled; the result of
  coercion is the converter's own either way.
- `Carrier.ObjectToName`: the value of `hash(obj)` or `id(obj)` is the
  `identity` parameter. Which of the two is used, and which number it gives,
  is not modelled.
- Python lists are modelled as values. No aliasing between the list
  `execute_command` copies and the caller's can be observed, because the copy
  is made first.
- `Values.EqualsText`: equality with a `str` literal is true only for `str`
  instances. A foreign object with its own `__eq__` is assumed never to equal
  a string.
- `Help.ImproverHelp`: an answer that is not a `str` is taken to lack
  `splitlines`, so it raises `AttributeError`. A foreign object that defines
  `splitlines` is not modelled.
- `Finalizer.WithIntermediateOutput`: the wrapped command is taken to return
  a pair. The `TypeError`/`ValueError` of unpacking anything else is not
  modelled.
- `process_command`, `CLI`, `improver_help` and `cli_table` of
  lib/improver/cli/clize_framework.py are left out. They are clize objects
  built from modules that are not part of this model. `process_command` is
  the `defaultProcessor` parameter of `ClizeFramework.FrameworkMain`.
- lib/improver/cli/nowcast_extrapolate.py is left out. It is argparse
  plumbing, file I/O and numerical library calls. Its divisibility check uses
  floating point.
- Error messages other than the mismatch message are fixed strings naming the
  Python exception. Python's exact wording is not modelled.
