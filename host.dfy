/** The host assertion primitive: chai's `assert(expr, msg, negMsg, expected, actual)` as
    the matchers use it, with the chain's `negate` and `message` flags passed explicitly. */
module Host {
  import opened Wrappers
  import opened JsValues

  /** What one matcher call ends in: it passes; it fails an assertion (an AssertionError
      carrying a message and the expected/actual diagnostics); it throws a plain Error
      signalling misuse of the API; or it throws a TypeError from reading the named
      property of `undefined`. */
  datatype Outcome =
    | Pass
    | AssertionFailed(message: string, expected: JsValue, actual: JsValue)
    | UsageError(message: string)
    | TypeError(reading: string)

  /** The custom message, when it is a non-empty string, comes first, followed by ": ". */
  function Prefixed(custom: Option<string>, msg: string): string
  {
    if custom.Some? && custom.value != "" then custom.value + ": " + msg else msg
  }

  /** chai's `assert`. Un-negated it fails with `msg` exactly when `expr` is false; negated
      it fails with `negMsg` exactly when `expr` is true. */
  function Assert(negate: bool, custom: Option<string>, expr: bool, msg: string, negMsg: string,
                  expected: JsValue, actual: JsValue): (r: Outcome)
    ensures r.Pass? || r.AssertionFailed?
    ensures r.Pass? <==> expr != negate
    ensures !negate && !expr ==> r == AssertionFailed(Prefixed(custom, msg), expected, actual)
    ensures negate && expr ==> r == AssertionFailed(Prefixed(custom, negMsg), expected, actual)
  {
    if expr == negate then
      AssertionFailed(Prefixed(custom, if negate then negMsg else msg), expected, actual)
    else
      Pass
  }

  /** `failAssertion`: fails with `msg` unless the chain is negated, then passes. */
  function FailAssertion(negate: bool, custom: Option<string>, msg: string,
                         expected: JsValue, actual: JsValue): (r: Outcome)
    ensures r.Pass? <==> negate
    ensures !negate ==> r == AssertionFailed(Prefixed(custom, msg), expected, actual)
  {
    Assert(negate, custom, false, msg, "", expected, actual)
  }

  /** `failNegatedAssertion`: fails with `msg` when the chain is negated, otherwise passes. */
  function FailNegatedAssertion(negate: bool, custom: Option<string>, msg: string,
                                expected: JsValue, actual: JsValue): (r: Outcome)
    ensures r.Pass? <==> !negate
    ensures negate ==> r == AssertionFailed(Prefixed(custom, msg), expected, actual)
  {
    Assert(negate, custom, true, "", msg, expected, actual)
  }

  /** Negation flips the verdict of every assertion, whatever the messages. */
  lemma NegationFlipsVerdict(custom: Option<string>, expr: bool, msg: string, negMsg: string,
                             expected: JsValue, actual: JsValue)
    ensures Assert(true, custom, expr, msg, negMsg, expected, actual).Pass?
        <==> !Assert(false, custom, expr, msg, negMsg, expected, actual).Pass?
  {
  }
}
