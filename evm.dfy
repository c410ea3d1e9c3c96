/** The outcome matchers over a pending call: `evmFail` and its three specialisations, and
    `evmSuccess`. The promise is represented by the value it settles to. */
module Evm {
  import opened Wrappers
  import opened Text
  import opened JsValues
  import opened Host
  import opened Matchers

  /** How the subject promise settles: resolved to a value, or rejected with an error
      whose `message` is given. */
  datatype Settled = Resolved(value: JsValue) | Rejected(message: string)

  /** The rejection error as chai reports it in `actual`. */
  function ErrorValue(message: string): JsValue
  {
    Object(map["message" := Str(message)])
  }

  /** `assertIsPromiseLike(value, message?)`: a fresh, un-negated assertion that
      `value.then` is not `undefined`; reading `.then` of null or undefined throws. */
  function AssertIsPromiseLike(value: JsValue, message: Option<string>): Outcome
  {
    if IsNil(value) then TypeError("then")
    else
      Host.Assert(false, message, Get(value, "then") != Undefined,
                  "expected #{this} to be a Promise", "expected #{this} not to be a Promise",
                  Str("Promise"), Str(TypeOf(value)))
  }

  function FailedMessage(reason: Option<string>): string
  {
    if reason.None? then "expected transaction to fail in EVM, but it succeeded"
    else "expected transaction to fail in EVM because of '" + reason.value + "', but it succeeded"
  }

  const SucceedButFailedMessage: string := "expected transaction to succeed in EVM, but it failed"

  function OtherReasonMessage(reason: string, errorMessage: string): string
  {
    "expected transaction to fail in EVM because of '" + reason + "', but it failed of another reason: "
      + errorMessage
  }

  function ReasonNegatedMessage(reason: string): string
  {
    "expected transaction not to fail in EVM because of '" + reason + "', but it was"
  }

  /** The continuations `evmFail` attaches, run on the settled value. */
  function EvmFailSettled(c: Chain, settled: Settled, reason: Option<string>, message: Option<string>): Outcome
  {
    match settled
    case Resolved(result) =>
      var failed := Host.FailAssertion(c.negate, c.message, FailedMessage(reason), Undefined, result);
      if !failed.Pass? then failed else AssertIsTransactionResponse(result, message)
    case Rejected(errorMessage) =>
      if reason.None? then
        Host.FailNegatedAssertion(c.negate, c.message, SucceedButFailedMessage, Undefined, ErrorValue(errorMessage))
      else
        ChainAssert(c, IndexOf(errorMessage, reason.value) != -1,
                    OtherReasonMessage(reason.value, errorMessage), ReasonNegatedMessage(reason.value),
                    Str(reason.value), Str(errorMessage))
  }

  /** `evmFail(expectedErrorMessage?, message?)`. The promise probe is given no message. */
  function EvmFail(c: Chain, settled: Settled, reason: Option<string>, message: Option<string>): Step
  {
    var c1 := SetMessageIfProvided(c, message);
    var probe := AssertIsPromiseLike(c1.subject.value, None);
    if !probe.Pass? then Step(c1, probe)
    else Step(c1, EvmFailSettled(c1, settled, reason, message))
  }

  /** `evmRevert`, `evmOutOfGas`, `evmInvalidOpcode`: `this.to.evmFail(reason, message)`. */
  function EvmRevert(c: Chain, settled: Settled, message: Option<string>): Step
  {
    EvmFail(c, settled, Some("revert"), message)
  }

  function EvmOutOfGas(c: Chain, settled: Settled, message: Option<string>): Step
  {
    EvmFail(c, settled, Some("out of gas"), message)
  }

  function EvmInvalidOpcode(c: Chain, settled: Settled, message: Option<string>): Step
  {
    EvmFail(c, settled, Some("invalid opcode"), message)
  }

  /** The continuations `evmSuccess` attaches. */
  function EvmSuccessSettled(c: Chain, settled: Settled, message: Option<string>): Outcome
  {
    match settled
    case Resolved(result) =>
      var failed := Host.FailNegatedAssertion(c.negate, c.message, FailedMessage(None), Undefined, Undefined);
      if !failed.Pass? then failed else AssertIsTransactionResponse(result, message)
    case Rejected(errorMessage) =>
      Host.FailAssertion(c.negate, c.message, SucceedButFailedMessage, Undefined, ErrorValue(errorMessage))
  }

  /** `evmSuccess(message?)`. Unlike `evmFail`, it hands its message to the promise probe. */
  function EvmSuccess(c: Chain, settled: Settled, message: Option<string>): Step
  {
    var c1 := SetMessageIfProvided(c, message);
    var probe := AssertIsPromiseLike(c1.subject.value, message);
    if !probe.Pass? then Step(c1, probe)
    else Step(c1, EvmSuccessSettled(c1, settled, message))
  }
}
