/** The output decorators `with_output` and `with_intermediate_output`
    (lib/improver/cli/__init__.py): after the wrapped command returns, a
    result whose destination was given is saved instead of being passed on. */
module Finalizer {
  import opened Values

  /** One call of `save_netcdf(obj, path)`; the writing itself is not modelled. */
  datatype Saved = Saved(obj: PyValue, path: string)

  /** What a decorated command returns (or raises), with the saves it made. */
  datatype Finalised = Finalised(outcome: Outcome, saved: seq<Saved>)

  /** A command that returns a pair `(result, intermediate_result)`, or raises. */
  datatype PairOutcome = ReturnedPair(result: PyValue, intermediate: PyValue) | RaisedPair(error: string)

  /** The truth value of an optional file name: `None` and `''` are false. */
  predicate Requested(path: Option<string>) {
    path.Some? && path.value != ""
  }

  /** `with_output`: `wrapped` is what the decorated command gave. */
  function WithOutput(wrapped: Outcome, output: Option<string>): (r: Finalised)
    ensures wrapped.Raised? ==> r == Finalised(wrapped, [])
    ensures wrapped.Returned? && Requested(output) ==>
              r.outcome == Returned(NoneValue) && r.saved == [Saved(wrapped.value, output.value)]
    ensures wrapped.Returned? && !Requested(output) ==> r == Finalised(wrapped, [])
  {
    match wrapped
    case Raised(_) => Finalised(wrapped, [])
    case Returned(result) =>
      if Requested(output) then Finalised(Returned(NoneValue), [Saved(result, output.value)])
      else Finalised(wrapped, [])
  }

  /** `with_intermediate_output`: only the first component is passed on. */
  function WithIntermediateOutput(wrapped: PairOutcome, intermediateOutput: Option<string>): (r: Finalised)
    ensures wrapped.RaisedPair? ==> r == Finalised(Raised(wrapped.error), [])
    ensures wrapped.ReturnedPair? ==> r.outcome == Returned(wrapped.result)
    ensures wrapped.ReturnedPair? ==>
              r.saved == if Requested(intermediateOutput) then [Saved(wrapped.intermediate, intermediateOutput.value)] else []
  {
    match wrapped
    case RaisedPair(e) => Finalised(Raised(e), [])
    case ReturnedPair(result, intermediate) =>
      var saved := if Requested(intermediateOutput) then [Saved(intermediate, intermediateOutput.value)] else [];
      Finalised(Returned(result), saved)
  }

  /** A command decorated with both: the intermediate result is saved first,
      then the result; a result that was saved is never passed on. */
  function WithBothOutputs(wrapped: PairOutcome, output: Option<string>, intermediateOutput: Option<string>): Finalised {
    var inner := WithIntermediateOutput(wrapped, intermediateOutput);
    var outer := WithOutput(inner.outcome, output);
    Finalised(outer.outcome, inner.saved + outer.saved)
  }

  lemma BothOutputs(wrapped: PairOutcome, output: Option<string>, intermediateOutput: Option<string>)
    requires wrapped.ReturnedPair? && Requested(output) && Requested(intermediateOutput)
    ensures WithBothOutputs(wrapped, output, intermediateOutput) ==
            Finalised(Returned(NoneValue), [Saved(wrapped.intermediate, intermediateOutput.value),
                                            Saved(wrapped.result, output.value)])
  {
  }

  /** Whatever the wrapped command gives, a result is either saved or passed
      on, never both, and nothing is saved when the command raises. */
  lemma SavedOrPassedOn(wrapped: Outcome, output: Option<string>)
    ensures var r := WithOutput(wrapped, output);
            (r.saved != [] ==> r.outcome == Returned(NoneValue) && r.saved[0].obj == wrapped.value) &&
            (r.saved == [] ==> r.outcome == wrapped) &&
            (wrapped.Raised? ==> r.saved == [])
  {
  }
}
