/** What the outcome matchers promise, stated over the step functions of `Evm`. */
module EvmProperties {
  import opened Wrappers
  import opened Text
  import opened JsValues
  import opened Host
  import opened Matchers
  import opened Evm

  /** What the promise probe accepts: a value other than null/undefined with a `then`. */
  predicate PromiseLike(v: JsValue)
  {
    !IsNil(v) && Get(v, "then") != Undefined
  }

  ghost predicate Contains(s: string, sub: string)
  {
    exists i :: OccursAt(s, sub, i)
  }

  /** The probe passes exactly on promise-like values; a non-nil value without `then` fails
      with the fixed "to be a Promise" message and its `typeof`. */
  lemma PromiseProbe(value: JsValue, message: Option<string>)
    ensures AssertIsPromiseLike(value, message).Pass? <==> PromiseLike(value)
    ensures IsNil(value) ==> AssertIsPromiseLike(value, message) == TypeError("then")
    ensures !IsNil(value) && !PromiseLike(value) ==>
              AssertIsPromiseLike(value, message)
              == AssertionFailed(Prefixed(message, "expected #{this} to be a Promise"), Str("Promise"), Str(TypeOf(value)))
  {
  }

  /** A subject that is not promise-like fails before anything settles: the outcome is the
      probe's, the same for every settled value. `evmFail` gives the probe no message,
      `evmSuccess` gives it its own. */
  lemma NotPromiseFailsFirst(c: Chain, settled: Settled, other: Settled, reason: Option<string>,
                             message: Option<string>)
    requires !PromiseLike(c.subject.value)
    ensures EvmFail(c, settled, reason, message).outcome == AssertIsPromiseLike(c.subject.value, None)
    ensures EvmSuccess(c, settled, message).outcome == AssertIsPromiseLike(c.subject.value, message)
    ensures EvmFail(c, settled, reason, message) == EvmFail(c, other, reason, message)
    ensures EvmSuccess(c, settled, message) == EvmSuccess(c, other, message)
  {
  }

  /** `evmFail` when the call resolves: un-negated it fails with "but it succeeded" and reports
      the result; negated it passes exactly when the result is a transaction response. */
  lemma EvmFailResolved(c: Chain, result: JsValue, reason: Option<string>, message: Option<string>)
    requires PromiseLike(c.subject.value)
    ensures !c.negate ==>
              EvmFail(c, Resolved(result), reason, message).outcome
              == AssertionFailed(Prefixed(SetMessageIfProvided(c, message).message, FailedMessage(reason)), Undefined, result)
    ensures c.negate ==>
              EvmFail(c, Resolved(result), reason, message).outcome == AssertIsTransactionResponse(result, message)
    ensures c.negate ==>
              (EvmFail(c, Resolved(result), reason, message).outcome.Pass? <==> IsTransactionResponse(result))
  {
  }

  /** `evmFail()` with no reason when the call rejects: it passes un-negated; negated it fails
      with "but it failed" and reports the error. */
  lemma EvmFailRejectedAnyReason(c: Chain, errorMessage: string, message: Option<string>)
    requires PromiseLike(c.subject.value)
    ensures EvmFail(c, Rejected(errorMessage), None, message).outcome.Pass? <==> !c.negate
    ensures c.negate ==>
              EvmFail(c, Rejected(errorMessage), None, message).outcome
              == AssertionFailed(Prefixed(SetMessageIfProvided(c, message).message, SucceedButFailedMessage),
                                 Undefined, ErrorValue(errorMessage))
  {
  }

  /** `evmFail(reason)` when the call rejects: it passes un-negated exactly when the reason
      occurs in the error message (a substring test, not equality), and otherwise quotes the
      error. */
  lemma {:induction false} EvmFailRejectedWithReason(c: Chain, errorMessage: string, reason: string,
                                                     message: Option<string>)
    requires PromiseLike(c.subject.value)
    ensures EvmFail(c, Rejected(errorMessage), Some(reason), message).outcome.Pass?
        <==> Contains(errorMessage, reason) != c.negate
    ensures !c.negate && !Contains(errorMessage, reason) ==>
              EvmFail(c, Rejected(errorMessage), Some(reason), message).outcome
              == AssertionFailed(Prefixed(SetMessageIfProvided(c, message).message,
                                          OtherReasonMessage(reason, errorMessage)),
                                 Str(reason), Str(errorMessage))
    ensures c.negate && Contains(errorMessage, reason) ==>
              EvmFail(c, Rejected(errorMessage), Some(reason), message).outcome
              == AssertionFailed(Prefixed(SetMessageIfProvided(c, message).message, ReasonNegatedMessage(reason)),
                                 Str(reason), Str(errorMessage))
  {
    IndexOfFindsOccurrence(errorMessage, reason);
  }

  /** The three specialisations pass un-negated exactly when the call rejects with an error
      whose message contains "revert", "out of gas" or "invalid opcode". */
  lemma {:induction false} EvmSpecialisations(c: Chain, settled: Settled, message: Option<string>)
    requires PromiseLike(c.subject.value) && !c.negate
    ensures EvmRevert(c, settled, message).outcome.Pass?
        <==> settled.Rejected? && Contains(settled.message, "revert")
    ensures EvmOutOfGas(c, settled, message).outcome.Pass?
        <==> settled.Rejected? && Contains(settled.message, "out of gas")
    ensures EvmInvalidOpcode(c, settled, message).outcome.Pass?
        <==> settled.Rejected? && Contains(settled.message, "invalid opcode")
  {
    if settled.Rejected? {
      EvmFailRejectedWithReason(c, settled.message, "revert", message);
      EvmFailRejectedWithReason(c, settled.message, "out of gas", message);
      EvmFailRejectedWithReason(c, settled.message, "invalid opcode", message);
    }
  }

  /** `evmSuccess` on a resolved call passes un-negated exactly when the result is a
      transaction response; on a rejected call it passes only negated. */
  lemma EvmSuccessOutcomes(c: Chain, settled: Settled, message: Option<string>)
    requires PromiseLike(c.subject.value)
    ensures !c.negate && settled.Resolved? ==>
              EvmSuccess(c, settled, message).outcome == AssertIsTransactionResponse(settled.value, message)
    ensures c.negate && settled.Resolved? ==>
              EvmSuccess(c, settled, message).outcome
              == AssertionFailed(Prefixed(SetMessageIfProvided(c, message).message, FailedMessage(None)),
                                 Undefined, Undefined)
    ensures settled.Rejected? ==> (EvmSuccess(c, settled, message).outcome.Pass? <==> c.negate)
    ensures settled.Rejected? && !c.negate ==>
              EvmSuccess(c, settled, message).outcome
              == AssertionFailed(Prefixed(SetMessageIfProvided(c, message).message, SucceedButFailedMessage),
                                 Undefined, ErrorValue(settled.message))
  {
  }

  /** `evmSuccess` is `evmFail()` with the negation flipped: the same verdict and, on failure,
      the same message, for every promise-like subject and settled value. */
  lemma EvmSuccessMirrorsEvmFail(c: Chain, settled: Settled, message: Option<string>)
    requires PromiseLike(c.subject.value)
    ensures var success := EvmSuccess(c, settled, message).outcome;
            var fail := EvmFail(c.(negate := !c.negate), settled, None, message).outcome;
      && (success.Pass? <==> fail.Pass?)
      && (!success.Pass? ==> success.AssertionFailed? && fail.AssertionFailed? && success.message == fail.message)
  {
  }

  /** Neither matcher changes any flag but the message. */
  lemma EvmKeepsFlags(c: Chain, settled: Settled, reason: Option<string>, message: Option<string>)
    ensures EvmFail(c, settled, reason, message).chain == SetMessageIfProvided(c, message)
    ensures EvmSuccess(c, settled, message).chain == SetMessageIfProvided(c, message)
  {
  }

  /** So both keep the chain invariant. */
  lemma EvmPreservesValid(c: Chain, settled: Settled, reason: Option<string>, message: Option<string>)
    requires ChainValid(c)
    ensures ChainValid(EvmFail(c, settled, reason, message).chain)
    ensures ChainValid(EvmSuccess(c, settled, message).chain)
  {
    EvmKeepsFlags(c, settled, reason, message);
  }
}
