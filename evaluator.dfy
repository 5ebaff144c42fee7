/** The composition engine `execute_command` and the top-level `main`
    (lib/improver/cli/__init__.py): nested commands are evaluated innermost
    first and left to right, each result is wrapped in a carrier and put in
    the place of its bracketed list, and the command is then handed to the
    dispatcher, or, in a dry run, its resolved argument list is returned. */
module Evaluator {
  import opened Values
  import opened Carrier
  import Brackets

  /** The subcommand dispatcher: given the program name and the argument list
      (command name first), it binds the arguments and runs the command, or
      raises. It stands for clize and the table of commands. */
  type Dispatcher = (string, seq<PyValue>) -> Outcome

  /** One call of the dispatcher. */
  datatype Call = Call(progname: string, args: seq<PyValue>)

  /** The outcome of a command line, with the dispatcher calls it made in order. */
  datatype Evaluation = Evaluation(outcome: Outcome, calls: seq<Call>)

  /** An argument list with every nested command replaced by its result, or
      the error that stopped the replacement; with the calls made meanwhile. */
  datatype Resolution =
    | Resolved(values: seq<PyValue>, calls: seq<Call>)
    | Aborted(error: string, calls: seq<Call>)

  function Respond(dispatch: Dispatcher, c: Call): Outcome {
    dispatch(c.progname, c.args)
  }

  /** `if not isinstance(arg, str): arg = ObjectAsStr(arg)` */
  function AsText(v: PyValue, identity: Identity): (r: PyValue)
    ensures IsStr(r)
    ensures IsStr(v) ==> r == v
    ensures !IsStr(v) ==> r.Carrier? && r.original == v
  {
    if IsStr(v) then v else ObjectAsStr(v, None, identity)
  }

  // ---------------------------------------------------------------------------
  // What `execute_command` computes

  /** `execute_command(dispatcher, progname, *args, dry_run=dryRun)` */
  function Execute(dispatch: Dispatcher, progname: string, args: seq<PyValue>, dryRun: bool, identity: Identity): Evaluation
    decreases args, 1
  {
    match ResolveArgs(dispatch, progname, args, dryRun, identity)
    case Aborted(e, calls) => Evaluation(Raised(e), calls)
    case Resolved(values, calls) =>
      if dryRun then Evaluation(Returned(List(values)), calls)
      else Evaluation(dispatch(progname, values), calls + [Call(progname, values)])
  }

  /** The loop of `execute_command` over `args`, from left to right. */
  function ResolveArgs(dispatch: Dispatcher, progname: string, args: seq<PyValue>, dryRun: bool, identity: Identity): Resolution
    decreases args, 0
  {
    if args == [] then Resolved([], [])
    else if args[0].List? then
      var nested := Execute(dispatch, progname, args[0].items, dryRun, identity);
      match nested.outcome
      case Raised(e) => Aborted(e, nested.calls)
      case Returned(v) => Prepend(AsText(v, identity), nested.calls, ResolveArgs(dispatch, progname, args[1..], dryRun, identity))
    else
      Prepend(AsText(args[0], identity), [], ResolveArgs(dispatch, progname, args[1..], dryRun, identity))
  }

  /** The resolution of `done + rest` where `done` is already resolved, with
      the calls `made` for it, and `rest` resolves to `tail`. */
  function Prefixed(done: seq<PyValue>, made: seq<Call>, tail: Resolution): Resolution {
    match tail
    case Resolved(values, calls) => Resolved(done + values, made + calls)
    case Aborted(e, calls) => Aborted(e, made + calls)
  }

  function Prepend(v: PyValue, made: seq<Call>, tail: Resolution): Resolution {
    Prefixed([v], made, tail)
  }

  // ---------------------------------------------------------------------------
  // The method

  /** `execute_command`: copy the arguments, replace each nested list by its
      wrapped result in place, then dispatch (or, in a dry run, return the
      list). The calls of the dispatcher are returned as a trace. */
  method ExecuteCommand(dispatch: Dispatcher, progname: string, args0: seq<PyValue>, dryRun: bool, identity: Identity)
    returns (result: Outcome, calls: seq<Call>)
    ensures Evaluation(result, calls) == Execute(dispatch, progname, args0, dryRun, identity)
    ensures dryRun ==> calls == [] && result == Returned(List(DryRun(args0, identity)))
    ensures !dryRun ==> calls != [] && result == Respond(dispatch, calls[|calls| - 1])
    ensures forall k :: 0 <= k < |calls| ==> AllText(calls[k].args)
    decreases args0, 2
  {
    var args := args0;
    calls := [];
    var i := 0;
    while i < |args|
      invariant 0 <= i <= |args| == |args0|
      invariant args[i..] == args0[i..]
      invariant ResolveArgs(dispatch, progname, args0, dryRun, identity) ==
                Prefixed(args[..i], calls, ResolveArgs(dispatch, progname, args0[i..], dryRun, identity))
    {
      var arg := args[i];
      ghost var before := calls;
      ghost var made: seq<Call> := [];
      ResolveStep(dispatch, progname, args0, i, dryRun, identity);
      if arg.List? {
        var nested, nestedCalls := ExecuteCommand(dispatch, progname, arg.items, dryRun, identity);
        calls := calls + nestedCalls;
        if nested.Raised? {
          assert ResolveArgs(dispatch, progname, args0, dryRun, identity) == Aborted(nested.error, calls);
          ExecuteEnds(dispatch, progname, args0, dryRun, identity, nested, calls);
          return nested, calls;
        }
        made := nestedCalls;
        arg := nested.value;
      }
      if !IsStr(arg) {
        arg := ObjectAsStr(arg, None, identity);
      }
      Advance(dispatch, progname, args0, args, i, before, made, arg, dryRun, identity);
      assert calls == before + made;
      args := args[i := arg];
      i := i + 1;
    }
    assert args[..i] == args && args0[i..] == [];
    assert ResolveArgs(dispatch, progname, args0, dryRun, identity) == Resolved(args, calls) by {
      assert args + [] == args && calls + [] == calls;
    }
    if dryRun {
      result := Returned(List(args));
    } else {
      result := dispatch(progname, args);
      calls := calls + [Call(progname, args)];
    }
    ExecuteEnds(dispatch, progname, args0, dryRun, identity, result, calls);
  }

  /** What `ExecuteFacts` gives, stated of the method's own results. */
  lemma ExecuteEnds(dispatch: Dispatcher, progname: string, args0: seq<PyValue>, dryRun: bool, identity: Identity,
                    result: Outcome, calls: seq<Call>)
    requires Evaluation(result, calls) == Execute(dispatch, progname, args0, dryRun, identity)
    ensures dryRun ==> calls == [] && result == Returned(List(DryRun(args0, identity)))
    ensures !dryRun ==> calls != [] && result == Respond(dispatch, calls[|calls| - 1])
    ensures forall k :: 0 <= k < |calls| ==> AllText(calls[k].args)
  {
    ExecuteFacts(dispatch, progname, args0, dryRun, identity);
  }

  /** One step of the loop: how the arguments from `i` on resolve. */
  lemma ResolveStep(dispatch: Dispatcher, progname: string, args0: seq<PyValue>, i: nat, dryRun: bool, identity: Identity)
    requires i < |args0|
    ensures var rest := ResolveArgs(dispatch, progname, args0[i + 1..], dryRun, identity);
            var here := ResolveArgs(dispatch, progname, args0[i..], dryRun, identity);
            if args0[i].List? then
              var nested := Execute(dispatch, progname, args0[i].items, dryRun, identity);
              if nested.outcome.Raised? then here == Aborted(nested.outcome.error, nested.calls)
              else here == Prepend(AsText(nested.outcome.value, identity), nested.calls, rest)
            else here == Prepend(AsText(args0[i], identity), [], rest)
  {
    assert args0[i..][0] == args0[i] && args0[i..][1..] == args0[i + 1..];
  }

  /** The loop invariant is kept when `args[i]` is replaced by `v`. */
  lemma Advance(dispatch: Dispatcher, progname: string, args0: seq<PyValue>, args: seq<PyValue>, i: nat,
                before: seq<Call>, made: seq<Call>, v: PyValue, dryRun: bool, identity: Identity)
    requires i < |args| == |args0| && args[i..] == args0[i..]
    requires ResolveArgs(dispatch, progname, args0, dryRun, identity) ==
             Prefixed(args[..i], before, ResolveArgs(dispatch, progname, args0[i..], dryRun, identity))
    requires ResolveArgs(dispatch, progname, args0[i..], dryRun, identity) ==
             Prepend(v, made, ResolveArgs(dispatch, progname, args0[i + 1..], dryRun, identity))
    ensures args[i := v][i + 1..] == args0[i + 1..]
    ensures ResolveArgs(dispatch, progname, args0, dryRun, identity) ==
            Prefixed(args[i := v][..i + 1], before + made, ResolveArgs(dispatch, progname, args0[i + 1..], dryRun, identity))
  {
    assert args[i + 1..] == args[i..][1..];
    PrefixedTwice(args[..i], before, v, made, ResolveArgs(dispatch, progname, args0[i + 1..], dryRun, identity));
    assert args[..i] + [v] == args[i := v][..i + 1];
  }

  lemma PrefixedTwice(done: seq<PyValue>, made: seq<Call>, v: PyValue, made2: seq<Call>, tail: Resolution)
    ensures Prefixed(done, made, Prepend(v, made2, tail)) == Prefixed(done + [v], made + made2, tail)
  {
    match tail
    case Resolved(values, calls) =>
      assert done + ([v] + values) == done + [v] + values;
      assert made + (made2 + calls) == made + made2 + calls;
    case Aborted(e, calls) =>
      assert made + (made2 + calls) == made + made2 + calls;
  }

  // ---------------------------------------------------------------------------
  // Properties of the evaluation

  /** Every element of the list is a `str` (plain or a carrier). */
  predicate AllText(values: seq<PyValue>) {
    forall k :: 0 <= k < |values| ==> IsStr(values[k])
  }

  /** The number of nested lists, at any depth. */
  function NestedCount(args: seq<PyValue>): nat
    decreases args
  {
    if args == [] then 0
    else (if args[0].List? then 1 + NestedCount(args[0].items) else 0) + NestedCount(args[1..])
  }

  /** What a dry run returns: every nested list dry-run in its turn and its
      resolved list wrapped, every other non-`str` wrapped. */
  function DryRun(args: seq<PyValue>, identity: Identity): (r: seq<PyValue>)
    ensures |r| == |args|
    decreases args
  {
    if args == [] then []
    else
      var head := if args[0].List? then ObjectAsStr(List(DryRun(args[0].items, identity)), None, identity)
                  else AsText(args[0], identity);
      [head] + DryRun(args[1..], identity)
  }

  /** What each position of a dry-run list holds: a `str` argument as it is,
      any other non-list wrapped, and a nested list replaced by a carrier of
      its own dry-run list, which has one `str` per element of the nested list. */
  lemma {:induction false} DryRunPositions(args: seq<PyValue>, identity: Identity)
    ensures var r := DryRun(args, identity);
            AllText(r) &&
            (forall k :: 0 <= k < |args| && !args[k].List? ==> r[k] == AsText(args[k], identity)) &&
            (forall k :: 0 <= k < |args| && args[k].List? ==>
               r[k].Carrier? && r[k].original == List(DryRun(args[k].items, identity)) &&
               |r[k].original.items| == |args[k].items| && AllText(r[k].original.items))
    decreases args
  {
    if args != [] {
      var r := DryRun(args, identity);
      var tail := DryRun(args[1..], identity);
      assert r[1..] == tail;
      DryRunPositions(args[1..], identity);
      if args[0].List? {
        DryRunPositions(args[0].items, identity);
        assert r[0] == ObjectAsStr(List(DryRun(args[0].items, identity)), None, identity);
      } else {
        assert r[0] == AsText(args[0], identity);
      }
      assert forall k :: 1 <= k < |args| ==> args[k] == args[1..][k - 1] && r[k] == tail[k - 1];
    }
  }

  /** The facts a resolution keeps: the values passed on are all `str`; a
      dry run makes no call and cannot fail; otherwise every call but the
      last returned normally, a failure is the answer to the last call, and
      without failure there is one call per nested list. */
  ghost predicate GoodResolution(dispatch: Dispatcher, progname: string, args: seq<PyValue>, dryRun: bool, identity: Identity, r: Resolution) {
    (forall k :: 0 <= k < |r.calls| ==> AllText(r.calls[k].args) && r.calls[k].progname == progname) &&
    (forall k :: 0 <= k < |r.calls| ==> Respond(dispatch, r.calls[k]).Returned?) &&
    (dryRun ==> r == Resolved(DryRun(args, identity), [])) &&
    (r.Resolved? ==> |r.values| == |args| && AllText(r.values)) &&
    (r.Resolved? && !dryRun ==> |r.calls| == NestedCount(args))
  }

  ghost predicate GoodAbort(dispatch: Dispatcher, progname: string, r: Resolution) {
    r.Aborted? ==>
      r.calls != [] &&
      (forall k :: 0 <= k < |r.calls| ==> r.calls[k].progname == progname) &&
      Respond(dispatch, r.calls[|r.calls| - 1]) == Raised(r.error) &&
      (forall k :: 0 <= k < |r.calls| - 1 ==> AllText(r.calls[k].args) && Respond(dispatch, r.calls[k]).Returned?) &&
      AllText(r.calls[|r.calls| - 1].args)
  }

  /** What `execute_command` guarantees, for any dispatcher:
      every argument handed on is a `str`; a dry run never calls the
      dispatcher and returns the resolved list; otherwise the outcome is the
      dispatcher's answer to the last call, every earlier call returned
      normally (evaluation stops at the first error, which propagates
      unchanged), and when nothing fails each nested list is dispatched
      exactly once, before the enclosing command. */
  lemma {:induction false} ExecuteFacts(dispatch: Dispatcher, progname: string, args: seq<PyValue>, dryRun: bool, identity: Identity)
    ensures var e := Execute(dispatch, progname, args, dryRun, identity);
            (forall k :: 0 <= k < |e.calls| ==> AllText(e.calls[k].args) && e.calls[k].progname == progname) &&
            (dryRun ==> e == Evaluation(Returned(List(DryRun(args, identity))), [])) &&
            (!dryRun ==> e.calls != [] && e.outcome == Respond(dispatch, e.calls[|e.calls| - 1]) &&
                         (forall k :: 0 <= k < |e.calls| - 1 ==> Respond(dispatch, e.calls[k]).Returned?)) &&
            (!dryRun && e.outcome.Returned? ==> |e.calls| == NestedCount(args) + 1)
    decreases args, 1
  {
    var r := ResolveArgs(dispatch, progname, args, dryRun, identity);
    ResolveFacts(dispatch, progname, args, dryRun, identity);
  }

  lemma {:induction false} ResolveFacts(dispatch: Dispatcher, progname: string, args: seq<PyValue>, dryRun: bool, identity: Identity)
    ensures var r := ResolveArgs(dispatch, progname, args, dryRun, identity);
            (r.Resolved? ==> GoodResolution(dispatch, progname, args, dryRun, identity, r)) &&
            (dryRun ==> r.Resolved?) &&
            GoodAbort(dispatch, progname, r)
    decreases args, 0
  {
    if args != [] {
      var tail := ResolveArgs(dispatch, progname, args[1..], dryRun, identity);
      ResolveFacts(dispatch, progname, args[1..], dryRun, identity);
      if args[0].List? {
        ExecuteFacts(dispatch, progname, args[0].items, dryRun, identity);
        var nested := Execute(dispatch, progname, args[0].items, dryRun, identity);
        if nested.outcome.Returned? {
          PrependFacts(dispatch, progname, args, dryRun, identity, AsText(nested.outcome.value, identity), nested.calls, tail);
        }
      } else {
        PrependFacts(dispatch, progname, args, dryRun, identity, AsText(args[0], identity), [], tail);
      }
    }
  }

  lemma PrependFacts(dispatch: Dispatcher, progname: string, args: seq<PyValue>, dryRun: bool, identity: Identity,
                     v: PyValue, made: seq<Call>, tail: Resolution)
    requires args != [] && IsStr(v)
    requires forall k :: 0 <= k < |made| ==> AllText(made[k].args) && Respond(dispatch, made[k]).Returned? && made[k].progname == progname
    requires tail.Resolved? ==> GoodResolution(dispatch, progname, args[1..], dryRun, identity, tail)
    requires GoodAbort(dispatch, progname, tail)
    requires dryRun ==> tail.Resolved? && made == [] &&
                        v == (if args[0].List? then ObjectAsStr(List(DryRun(args[0].items, identity)), None, identity)
                              else AsText(args[0], identity))
    requires !dryRun ==> |made| == (if args[0].List? then 1 + NestedCount(args[0].items) else 0)
    ensures var r := Prepend(v, made, tail);
            (r.Resolved? ==> GoodResolution(dispatch, progname, args, dryRun, identity, r)) &&
            (dryRun ==> r.Resolved?) &&
            GoodAbort(dispatch, progname, r)
  {
    var r := Prepend(v, made, tail);
    if r.Resolved? {
      assert forall k :: 0 <= k < |r.values| ==> r.values[k] == if k == 0 then v else tail.values[k - 1];
      assert forall k :: 0 <= k < |r.calls| ==> r.calls[k] == if k < |made| then made[k] else tail.calls[k - |made|];
    } else {
      assert forall k :: 0 <= k < |r.calls| ==> r.calls[k] == if k < |made| then made[k] else tail.calls[k - |made|];
    }
  }

  /** The example of a composed command line: `outer [ inner a b ] c` calls
      `inner a b` once, then `outer` with the wrapped result of `inner` in the
      place of the brackets, followed by `c`. */
  lemma NestedExample(dispatch: Dispatcher, progname: string, identity: Identity, inner: PyValue)
    requires dispatch(progname, [Str("inner"), Str("a"), Str("b")]) == Returned(inner)
    ensures var outerArgs := [Str("outer"), AsText(inner, identity), Str("c")];
            Execute(dispatch, progname, [Str("outer"), List([Str("inner"), Str("a"), Str("b")]), Str("c")], false, identity) ==
            Evaluation(dispatch(progname, outerArgs),
                       [Call(progname, [Str("inner"), Str("a"), Str("b")]), Call(progname, outerArgs)])
  {
    var innerArgs := [Str("inner"), Str("a"), Str("b")];
    var args := [Str("outer"), List(innerArgs), Str("c")];
    NestedExampleResolves(dispatch, progname, identity, inner, innerArgs, args);
  }

  /** The argument list of `NestedExample` after its nested command has run. */
  lemma NestedExampleResolves(dispatch: Dispatcher, progname: string, identity: Identity, inner: PyValue,
                              innerArgs: seq<PyValue>, args: seq<PyValue>)
    requires innerArgs == [Str("inner"), Str("a"), Str("b")] && args == [Str("outer"), List(innerArgs), Str("c")]
    requires dispatch(progname, innerArgs) == Returned(inner)
    ensures ResolveArgs(dispatch, progname, args, false, identity) ==
            Resolved([Str("outer"), AsText(inner, identity), Str("c")], [Call(progname, innerArgs)])
  {
    PlainCommand(dispatch, progname, innerArgs, identity);
    assert args[2..] == [Str("c")] && AllText(args[2..]);
    PlainArguments(dispatch, progname, args[2..], identity);
    ResolveStep(dispatch, progname, args, 1, false, identity);
    assert ResolveArgs(dispatch, progname, args[1..], false, identity) ==
           Resolved([AsText(inner, identity), Str("c")], [Call(progname, innerArgs)]);
    ResolveStep(dispatch, progname, args, 0, false, identity);
    assert args[0..] == args;
  }

  /** A command line whose arguments are all `str` (no nested command) is
      handed to the dispatcher once, exactly as it is. */
  lemma PlainCommand(dispatch: Dispatcher, progname: string, args: seq<PyValue>, identity: Identity)
    requires AllText(args)
    ensures Execute(dispatch, progname, args, false, identity) ==
            Evaluation(dispatch(progname, args), [Call(progname, args)])
  {
    PlainArguments(dispatch, progname, args, identity);
  }

  lemma {:induction false} PlainArguments(dispatch: Dispatcher, progname: string, args: seq<PyValue>, identity: Identity)
    requires AllText(args)
    ensures ResolveArgs(dispatch, progname, args, false, identity) == Resolved(args, [])
    decreases args
  {
    if args != [] {
      PlainArguments(dispatch, progname, args[1..], identity);
      assert [args[0]] + args[1..] == args;
    }
  }

  /** What each position of the final argument list holds, for a command
      that is not a dry run and whose nested commands all returned: the last
      call is the command itself, under the same program name, and each of
      its arguments is the original argument made a `str`, or, in the place
      of a nested list, the wrapped result of that list's own evaluation. */
  lemma LastCallArguments(dispatch: Dispatcher, progname: string, args: seq<PyValue>, identity: Identity)
    requires ResolveArgs(dispatch, progname, args, false, identity).Resolved?
    ensures var e := Execute(dispatch, progname, args, false, identity);
            var last := e.calls[|e.calls| - 1];
            e.calls != [] && last.progname == progname && e.outcome == dispatch(progname, last.args) &&
            |last.args| == |args| &&
            (forall k :: 0 <= k < |args| && !args[k].List? ==> last.args[k] == AsText(args[k], identity)) &&
            (forall k :: 0 <= k < |args| && args[k].List? ==>
               var nested := Execute(dispatch, progname, args[k].items, false, identity);
               nested.outcome.Returned? && last.args[k] == AsText(nested.outcome.value, identity))
  {
    ResolvedPositions(dispatch, progname, args, identity);
  }

  /** The position-wise content of a resolved argument list. */
  lemma {:induction false} ResolvedPositions(dispatch: Dispatcher, progname: string, args: seq<PyValue>, identity: Identity)
    requires ResolveArgs(dispatch, progname, args, false, identity).Resolved?
    ensures var r := ResolveArgs(dispatch, progname, args, false, identity);
            |r.values| == |args| &&
            (forall k :: 0 <= k < |args| && !args[k].List? ==> r.values[k] == AsText(args[k], identity)) &&
            (forall k :: 0 <= k < |args| && args[k].List? ==>
               var nested := Execute(dispatch, progname, args[k].items, false, identity);
               nested.outcome.Returned? && r.values[k] == AsText(nested.outcome.value, identity))
    decreases args
  {
    if args != [] {
      var r := ResolveArgs(dispatch, progname, args, false, identity);
      var tail := ResolveArgs(dispatch, progname, args[1..], false, identity);
      assert tail.Resolved?;
      ResolvedPositions(dispatch, progname, args[1..], identity);
      assert r.values == [r.values[0]] + tail.values;
      assert forall k :: 1 <= k < |args| ==> args[k] == args[1..][k - 1] && r.values[k] == tail.values[k - 1];
    }
  }

  /** Resolving `a + b` resolves `a` first, then `b` after it, and stops at
      the first failure in `a`. */
  function Then(first: Resolution, second: Resolution): Resolution {
    match first
    case Aborted(e, calls) => Aborted(e, calls)
    case Resolved(values, calls) => Prefixed(values, calls, second)
  }

  lemma {:induction false} ResolveAppend(dispatch: Dispatcher, progname: string, a: seq<PyValue>, b: seq<PyValue>,
                                         dryRun: bool, identity: Identity)
    ensures ResolveArgs(dispatch, progname, a + b, dryRun, identity) ==
            Then(ResolveArgs(dispatch, progname, a, dryRun, identity), ResolveArgs(dispatch, progname, b, dryRun, identity))
    decreases a
  {
    var rb := ResolveArgs(dispatch, progname, b, dryRun, identity);
    if a == [] {
      assert a + b == b;
      match rb
      case Resolved(values, calls) => assert [] + values == values && [] + calls == calls;
      case Aborted(e, calls) => assert [] + calls == calls;
    } else {
      assert (a + b)[0] == a[0] && (a + b)[1..] == a[1..] + b;
      ResolveAppend(dispatch, progname, a[1..], b, dryRun, identity);
      var rest := ResolveArgs(dispatch, progname, a[1..], dryRun, identity);
      if a[0].List? {
        var nested := Execute(dispatch, progname, a[0].items, dryRun, identity);
        if nested.outcome.Returned? {
          PrependThen(AsText(nested.outcome.value, identity), nested.calls, rest, rb);
        }
      } else {
        PrependThen(AsText(a[0], identity), [], rest, rb);
      }
    }
  }

  lemma PrependThen(v: PyValue, made: seq<Call>, first: Resolution, second: Resolution)
    ensures Prepend(v, made, Then(first, second)) == Then(Prepend(v, made, first), second)
  {
    match first
    case Aborted(e, calls) =>
    case Resolved(values, calls) =>
      match second
      case Resolved(values2, calls2) =>
        assert [v] + (values + values2) == [v] + values + values2;
        assert made + (calls + calls2) == made + calls + calls2;
      case Aborted(e, calls2) =>
        assert made + (calls + calls2) == made + calls + calls2;
  }

  /** Sibling order: the calls of the nested list `args[k]` come straight
      after the calls made for the arguments before it. */
  lemma NestedCallsInOrder(dispatch: Dispatcher, progname: string, args: seq<PyValue>, k: nat,
                           dryRun: bool, identity: Identity)
    requires k < |args| && args[k].List?
    requires ResolveArgs(dispatch, progname, args[..k], dryRun, identity).Resolved?
    ensures var before := ResolveArgs(dispatch, progname, args[..k], dryRun, identity).calls;
            var nested := Execute(dispatch, progname, args[k].items, dryRun, identity).calls;
            var all := ResolveArgs(dispatch, progname, args, dryRun, identity).calls;
            |before| + |nested| <= |all| && all[..|before| + |nested|] == before + nested
  {
    var before := ResolveArgs(dispatch, progname, args[..k], dryRun, identity);
    var suffix := args[k..];
    assert args == args[..k] + suffix;
    ResolveAppend(dispatch, progname, args[..k], suffix, dryRun, identity);
    assert suffix[0] == args[k];
    var nested := Execute(dispatch, progname, args[k].items, dryRun, identity);
    var rs := ResolveArgs(dispatch, progname, suffix, dryRun, identity);
    var tail := ResolveArgs(dispatch, progname, suffix[1..], dryRun, identity);
    if nested.outcome.Returned? {
      assert rs.calls == nested.calls + tail.calls;
    } else {
      assert rs.calls == nested.calls;
    }
    var all := ResolveArgs(dispatch, progname, args, dryRun, identity).calls;
    assert all == before.calls + rs.calls;
    assert all[..|before.calls| + |nested.calls|] == before.calls + nested.calls;
  }

  // ---------------------------------------------------------------------------
  // The top-level `main`

  /** A nested list of tokens as the Python lists `unbracket` builds. */
  function ToValues(nodes: seq<Brackets.Node>): (r: seq<PyValue>)
    ensures |r| == |nodes|
    ensures NestedCount(r) == Brackets.CountNested(nodes)
    decreases nodes, 0
  {
    if nodes == [] then [] else [ToValue(nodes[0])] + ToValues(nodes[1..])
  }

  function ToValue(n: Brackets.Node): (r: PyValue)
    ensures r.List? == n.Nested?
    ensures n.Nested? ==> NestedCount(r.items) == Brackets.CountNested(n.children)
    decreases n, 1
  {
    match n
    case Leaf(t) => Str(t)
    case Nested(c) => List(ToValues(c))
  }

  /** `'Mismatched bracket at position %i.' % position` */
  function MismatchMessage(position: nat): (r: string)
    ensures |r| > 32 && r[..31] == "Mismatched bracket at position " && r[|r| - 1] == '.'
    ensures forall k :: 31 <= k < |r| - 1 ==> '0' <= r[k] <= '9'
    ensures DigitsValue(r[31..|r| - 1]) == position
  {
    var digits := Decimal(position);
    assert digits == NatDigits(position);
    var r := "Mismatched bracket at position " + digits + ".";
    assert r[31..|r| - 1] == digits;
    NatDigitsValue(position);
    r
  }

  /** Different positions give different messages. */
  lemma MismatchMessageInjective(p: nat, q: nat)
    requires MismatchMessage(p) == MismatchMessage(q)
    ensures p == q
  {
    var r := MismatchMessage(p);
    assert r[31..|r| - 1] == MismatchMessage(q)[31..|r| - 1];
  }

  /** `main(progname, command, *args, dry_run=dryRun)`: unbracket the
      arguments, then execute the command with them. A bracket mismatch is
      raised before any command runs; otherwise, with no failure and no dry
      run, the dispatcher is called once per `[` and once for the command. */
  method ImproverMain(dispatch: Dispatcher, progname: string, command: string, args: seq<string>,
                      dryRun: bool, identity: Identity)
    returns (result: Outcome, calls: seq<Call>)
    ensures Brackets.Parse(args).MismatchedBracket? ==>
              result == Raised(MismatchMessage(Brackets.Parse(args).position)) && calls == []
    ensures Brackets.Parse(args).Parsed? ==>
              Evaluation(result, calls) ==
              Execute(dispatch, progname, [Str(command)] + ToValues(Brackets.Parse(args).nodes), dryRun, identity)
    ensures !dryRun && result.Returned? ==> |calls| == multiset(args)[Brackets.Open] + 1
    ensures !dryRun && calls != [] ==> calls[|calls| - 1].progname == progname
  {
    var parsed := Brackets.Unbracket(args);
    if parsed.MismatchedBracket? {
      return Raised(MismatchMessage(parsed.position)), [];
    }
    var values := [Str(command)] + ToValues(parsed.nodes);
    assert values[1..] == ToValues(parsed.nodes);
    Brackets.ParsePreservesTokens(args);
    result, calls := ExecuteCommand(dispatch, progname, values, dryRun, identity);
    ExecuteFacts(dispatch, progname, values, dryRun, identity);
  }
}
