/** The generic `--output` handling of the clize front end
    (lib/improver/cli/clize_framework.py): before a command runs, its
    arguments are scanned for an `--output` option, which is copied into
    `post_args`; after it has run, its result is suppressed when such an
    option was found, since the command has then saved it already. */
module ClizeFramework {
  import opened Values

  const OutOpt := "--output"

  /** `isinstance(arg, str) and arg.startswith('--output')` */
  predicate IsOutputFlag(v: PyValue) {
    IsStr(v) && OutOpt <= Text(v)
  }

  /** A flag is a `str`, plain or a carrier, whose first eight characters
      are `--output`; `--output=name` and `--outputs` are flags as well. */
  lemma OutputFlagPrefix(v: PyValue)
    ensures IsOutputFlag(v) <==> IsStr(v) && 8 <= |Text(v)| && Text(v)[..8] == OutOpt
    ensures IsOutputFlag(Str("--output=name")) && IsOutputFlag(Str("--outputs")) && !IsOutputFlag(Str("-o"))
  {
    assert |OutOpt| == 8;
    assert "--output=name"[..8] == OutOpt;
    assert "--outputs"[..8] == OutOpt;
  }

  /** The three parts of `text.partition(sep)`. */
  datatype Partitioned = Partitioned(before: string, found: bool, after: string)

  /** `text.partition(sep)`: split at the first `sep`, if there is one. */
  function Partition(text: string, sep: char): (r: Partitioned)
    ensures r.found ==> text == r.before + [sep] + r.after && sep !in r.before
    ensures !r.found ==> r.before == text && r.after == "" && sep !in text
    decreases text
  {
    if text == [] then Partitioned("", false, "")
    else if text[0] == sep then Partitioned("", true, text[1..])
    else
      var rest := Partition(text[1..], sep);
      assert text == [text[0]] + text[1..];
      Partitioned([text[0]] + rest.before, rest.found, rest.after)
  }

  /** The index of the first `--output` flag among `args`, if any. */
  function FirstOutputFlag(args: seq<PyValue>): (r: Option<nat>)
    ensures r.None? <==> forall k :: 0 <= k < |args| ==> !IsOutputFlag(args[k])
    ensures r.Some? ==> r.value < |args| && IsOutputFlag(args[r.value]) &&
                        forall k :: 0 <= k < r.value ==> !IsOutputFlag(args[k])
    decreases args
  {
    if args == [] then None
    else if IsOutputFlag(args[0]) then Some(0)
    else
      var rest := FirstOutputFlag(args[1..]);
      assert forall k :: 1 <= k < |args| ==> args[k] == args[1..][k - 1];
      if rest.None? then None else Some(rest.value + 1)
  }

  /** The value recorded for the flag at `args[k]`: the text after its first
      `=`; without `=`, the argument two places after the flag (the loop
      counts from 1 and then reads `args[i + 1]`), or `''` if there is none. */
  function OutputValue(args: seq<PyValue>, k: nat): (r: PyValue)
    requires k < |args| && IsOutputFlag(args[k])
    ensures '=' in Text(args[k]) ==>
              var text := Text(args[k]);
              exists j :: 0 <= j < |text| && text[j] == '=' && '=' !in text[..j] && r == Str(text[j + 1..])
    ensures '=' !in Text(args[k]) && k + 2 < |args| ==> r == args[k + 2]
    ensures '=' !in Text(args[k]) && |args| <= k + 2 ==> r == Str("")
  {
    var text := Text(args[k]);
    var p := Partition(text, '=');
    if p.found then
      assert text[|p.before|] == '=' && text[..|p.before|] == p.before && text[|p.before| + 1..] == p.after;
      Str(p.after)
    else
      var i := k + 1;  // the 1-based position of the flag
      if i + 1 < |args| then args[i + 1] else Str("")
  }

  /** The `post_args` that `preprocess_command` builds for `args`. */
  function PostArgs(args: seq<PyValue>): (r: seq<PyValue>)
    ensures r == [] <==> forall k :: 0 <= k < |args| ==> !IsOutputFlag(args[k])
    ensures r != [] ==> |r| == 2 && r[0] == Str(OutOpt)
  {
    match FirstOutputFlag(args)
    case None => []
    case Some(k) => [Str(OutOpt), OutputValue(args, k)]
  }

  /** `preprocess_command(progname, command, *args)`: the command and its
      arguments are passed on unchanged, and only the first `--output` flag
      is looked at. */
  method PreprocessCommand(progname: string, command: PyValue, args: seq<PyValue>)
    returns (command': PyValue, args': seq<PyValue>, postArgs: seq<PyValue>)
    ensures command' == command && args' == args
    ensures postArgs == PostArgs(args)
  {
    postArgs := [];
    var i := 1;
    while i <= |args|
      invariant 1 <= i <= |args| + 1
      invariant postArgs == []
      invariant forall k :: 0 <= k < i - 1 ==> !IsOutputFlag(args[k])
    {
      var arg := args[i - 1];
      if IsStr(arg) && OutOpt <= Text(arg) {
        var parts := Partition(Text(arg), '=');
        var output: PyValue := Str(parts.after);
        if !parts.found {
          if i + 1 < |args| {
            output := args[i + 1];
          } else {
            output := Str("");
          }
        }
        FlagFound(args, i - 1);
        postArgs := postArgs + [Str(OutOpt), output];
        break;
      }
      i := i + 1;
    }
    return command, args, postArgs;
  }

  /** Once the loop of `preprocess_command` meets the first flag at `args[k]`,
      the recorded value is read from that flag's own text or from `args[k + 2]`. */
  lemma FlagFound(args: seq<PyValue>, k: nat)
    requires k < |args| && IsOutputFlag(args[k])
    requires forall j :: 0 <= j < k ==> !IsOutputFlag(args[j])
    ensures var p := Partition(Text(args[k]), '=');
            PostArgs(args) == [Str(OutOpt), if p.found then Str(p.after) else if k + 2 < |args| then args[k + 2] else Str("")]
  {
    assert FirstOutputFlag(args) == Some(k);
  }

  /** The value is read two places after a bare flag, not from the argument
      that follows it: `--output out.nc x` records `x`. */
  lemma SkippedValueExample()
    ensures PostArgs([Str("--output"), Str("out.nc"), Str("x")]) == [Str(OutOpt), Str("x")]
  {
    var a := [Str("--output"), Str("out.nc"), Str("x")];
    NoSeparator();
    assert FirstOutputFlag(a) == Some(0);
  }

  /** `--output out.nc` alone records `''`. */
  lemma MissingValueExample()
    ensures PostArgs([Str("--output"), Str("out.nc")]) == [Str(OutOpt), Str("")]
  {
    var b := [Str("--output"), Str("out.nc")];
    NoSeparator();
    assert FirstOutputFlag(b) == Some(0);
  }

  /** Only the first flag counts, and `--output=name` records `name`. */
  lemma FirstFlagExample()
    ensures PostArgs([Str("x"), Str("--output=out.nc"), Str("--output=y.nc")]) == [Str(OutOpt), Str("out.nc")]
  {
    var c := [Str("x"), Str("--output=out.nc"), Str("--output=y.nc")];
    assert !IsOutputFlag(c[0]) && IsOutputFlag(c[1]);
    assert FirstOutputFlag(c) == Some(1);
    var text := "--output=out.nc";
    assert text == OutOpt + "=" + "out.nc";
    PartitionAfter(OutOpt, "out.nc");
  }

  lemma NoSeparator()
    ensures Partition(OutOpt, '=') == Partitioned(OutOpt, false, "")
  {
    assert '=' !in OutOpt;
    PartitionAbsent(OutOpt);
  }

  lemma {:induction false} PartitionAbsent(text: string)
    requires '=' !in text
    ensures Partition(text, '=') == Partitioned(text, false, "")
    decreases text
  {
    if text != [] {
      PartitionAbsent(text[1..]);
      assert text == [text[0]] + text[1..];
    }
  }

  lemma {:induction false} PartitionAfter(before: string, after: string)
    requires '=' !in before
    ensures Partition(before + "=" + after, '=') == Partitioned(before, true, after)
    decreases before
  {
    if before != [] {
      assert (before + "=" + after)[1..] == before[1..] + "=" + after;
      PartitionAfter(before[1..], after);
      assert before == [before[0]] + before[1..];
    } else {
      assert before + "=" + after == ['='] + after;
    }
  }

  /** `xs.index(text)`, or `None` where that raises `ValueError`. */
  function IndexOf(xs: seq<PyValue>, text: string): (r: Option<nat>)
    ensures r.None? <==> forall k :: 0 <= k < |xs| ==> !EqualsText(xs[k], text)
    ensures r.Some? ==> r.value < |xs| && EqualsText(xs[r.value], text) &&
                        forall k :: 0 <= k < r.value ==> !EqualsText(xs[k], text)
    decreases xs
  {
    if xs == [] then None
    else if EqualsText(xs[0], text) then Some(0)
    else
      var rest := IndexOf(xs[1..], text);
      assert forall k :: 1 <= k < |xs| ==> xs[k] == xs[1..][k - 1];
      if rest.None? then None else Some(rest.value + 1)
  }

  /** `postprocess_command(progname, result, *post_args)`: `None` exactly when
      `'--output'` occurs in `post_args` with some element after it, whatever
      that element is; the result unchanged otherwise. */
  function PostprocessCommand(progname: string, result: PyValue, postArgs: seq<PyValue>): (r: PyValue)
    ensures (exists k :: 0 <= k < |postArgs| - 1 && EqualsText(postArgs[k], OutOpt)) ==> r == NoneValue
    ensures (forall k :: 0 <= k < |postArgs| - 1 ==> !EqualsText(postArgs[k], OutOpt)) ==> r == result
  {
    match IndexOf(postArgs, OutOpt)
    case None => result
    case Some(k) => if k + 1 < |postArgs| then NoneValue else result
  }

  /** The value after `'--output'` is never looked at, even when it is `''`;
      a trailing `'--output'` with nothing after it suppresses nothing. */
  lemma PostprocessIgnoresValue(progname: string, result: PyValue, value: PyValue)
    ensures PostprocessCommand(progname, result, [Str(OutOpt), value]) == NoneValue
    ensures PostprocessCommand(progname, result, [Str(OutOpt)]) == result
  {
    assert EqualsText([Str(OutOpt), value][0], OutOpt);
  }

  // ---------------------------------------------------------------------------
  // `main`

  /** What a command preprocessor gives back: the command, its arguments and
      the arguments for the postprocessor, or an error it raises. */
  datatype Prepared = Prepared(command: PyValue, args: seq<PyValue>, postArgs: seq<PyValue>) | PrepareRaised(error: string)

  type Preprocessor = (string, PyValue, seq<PyValue>) -> Prepared
  /** A command processor, given the `verbose` flag last. */
  type Processor = (string, PyValue, seq<PyValue>, bool) -> Outcome
  type Postprocessor = (string, PyValue, seq<PyValue>) -> Outcome

  /** `main(progname, command, *args, ...)`: each missing hook is replaced by
      its default (`defaultProcessor` stands for `process_command`); the
      command is preprocessed, processed, and its result postprocessed, and
      an error of any stage ends the run. */
  method FrameworkMain(progname: string, command: PyValue, args: seq<PyValue>, verbose: bool,
                       preprocessor: Option<Preprocessor>, processor: Option<Processor>,
                       postprocessor: Option<Postprocessor>, defaultProcessor: Processor)
    returns (result: Outcome)
    ensures preprocessor.None? && processor.None? && postprocessor.None? ==>
              var answer := defaultProcessor(progname, command, args, verbose);
              result == if answer.Raised? then answer else Returned(Suppressed(args, answer.value))
    ensures preprocessor.Some? && preprocessor.value(progname, command, args).PrepareRaised? ==>
              result == Raised(preprocessor.value(progname, command, args).error)
    ensures preprocessor.None? && processor.Some? && postprocessor.None? ==>
              var answer := processor.value(progname, command, args, verbose);
              result == if answer.Raised? then answer else Returned(Suppressed(args, answer.value))
    ensures var prepared := if preprocessor.Some? then preprocessor.value(progname, command, args)
                            else Prepared(command, args, PostArgs(args));
            prepared.Prepared? ==>
              var answer := if processor.Some? then processor.value(progname, prepared.command, prepared.args, verbose)
                            else defaultProcessor(progname, prepared.command, prepared.args, verbose);
              result == if answer.Raised? then answer
                        else if postprocessor.Some? then postprocessor.value(progname, answer.value, prepared.postArgs)
                        else Returned(PostprocessCommand(progname, answer.value, prepared.postArgs))
  {
    var prepared: Prepared;
    if preprocessor.Some? {
      prepared := preprocessor.value(progname, command, args);
      if prepared.PrepareRaised? {
        return Raised(prepared.error);
      }
    } else {
      var c, a, p := PreprocessCommand(progname, command, args);
      prepared := Prepared(c, a, p);
      assert prepared.command == command && prepared.args == args && prepared.postArgs == PostArgs(args);
    }
    var answer: Outcome;
    if processor.Some? {
      answer := processor.value(progname, prepared.command, prepared.args, verbose);
    } else {
      answer := defaultProcessor(progname, prepared.command, prepared.args, verbose);
    }
    if answer.Raised? {
      return answer;
    }
    if postprocessor.Some? {
      result := postprocessor.value(progname, answer.value, prepared.postArgs);
    } else {
      result := Returned(PostprocessCommand(progname, answer.value, prepared.postArgs));
      if preprocessor.None? {
        DefaultHooksSuppress(progname, args, answer.value);
      }
    }
  }

  /** With the default hooks, a result is suppressed (replaced by `None`)
      exactly when some `str` argument starts with `--output`. */
  function Suppressed(args: seq<PyValue>, value: PyValue): (r: PyValue)
    ensures (exists k :: 0 <= k < |args| && IsOutputFlag(args[k])) ==> r == NoneValue
    ensures (forall k :: 0 <= k < |args| ==> !IsOutputFlag(args[k])) ==> r == value
  {
    if FirstOutputFlag(args).Some? then NoneValue else value
  }

  /** The default pre- and postprocessors together suppress the result
      exactly when an `--output` flag is present; the recorded value (and so
      the place it is read from) never matters. */
  lemma DefaultHooksSuppress(progname: string, args: seq<PyValue>, value: PyValue)
    ensures PostprocessCommand(progname, value, PostArgs(args)) == Suppressed(args, value)
  {
    var post := PostArgs(args);
    if post != [] {
      assert EqualsText(post[0], OutOpt);
    }
  }
}
