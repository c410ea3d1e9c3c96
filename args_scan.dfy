/** The argument scan behind `emitEventWithArgs`, `emitEventWithArgsAt` and `withEventArgs`
    (`assertEventArgsFromMatchedEventLogsWithAssertion`): run a user predicate over matched
    log entries, stop at the first that it accepts, and remember the last error it threw. */
module ArgsScan {
  import opened Wrappers
  import opened JsValues
  import opened Logs
  import Host

  /** A value the predicate threw: its `message`, whether it is a chai AssertionError, and
      the `expected`/`actual` fields such an error carries. */
  datatype ThrownError = ThrownError(message: string, isAssertionError: bool,
                                      expected: JsValue, actual: JsValue)

  /** One call of the predicate: a truthy or falsy return, a thrown error, or `throw undefined`. */
  datatype PredResult = Truthy | Falsy | Throws(error: ThrownError) | ThrowsUndefined

  type ArgsPredicate = Args -> PredResult

  /** Reading `.args` of a missing entry throws inside the scan's `try` block; the engine's
      TypeError is caught like any other error (its wording is the V8 engine's). */
  const ReadArgsOfUndefined: ThrownError :=
    ThrownError("Cannot read properties of undefined (reading 'args')", false, Undefined, Undefined)

  /** Calling the predicate on one matched entry; `None` is an `undefined` hole. */
  function Eval(pred: ArgsPredicate, entry: Option<EventLog>): PredResult
  {
    match entry
    case None => Throws(ReadArgsOfUndefined)
    case Some(log) => pred(log.args)
  }

  predicate IsThrow(r: PredResult)
  {
    r.Throws? || r.ThrowsUndefined?
  }

  /** The index of the first entry the predicate accepts, or `|entries|` if it accepts none. */
  function FirstTruthy(entries: seq<Option<EventLog>>, pred: ArgsPredicate): (k: nat)
    ensures k <= |entries|
    ensures forall j :: 0 <= j < k ==> !Eval(pred, entries[j]).Truthy?
    ensures k < |entries| ==> Eval(pred, entries[k]).Truthy?
  {
    if |entries| == 0 then 0
    else if Eval(pred, entries[0]).Truthy? then 0
    else
      var k := FirstTruthy(entries[1..], pred);
      assert forall j :: 1 <= j < k + 1 ==> entries[j] == entries[1..][j - 1];
      1 + k
  }

  /** The value of `lastError` after running the predicate over all of `entries`. */
  function LastError(entries: seq<Option<EventLog>>, pred: ArgsPredicate): Option<ThrownError>
  {
    if |entries| == 0 then None
    else
      match Eval(pred, entries[|entries| - 1])
      case Throws(err) => Some(err)
      case ThrowsUndefined => None
      case _ => LastError(entries[..|entries| - 1], pred)
  }

  /** The latest throw wins: an error is recorded exactly when some call threw it and no
      later call threw anything. */
  lemma {:induction false} LastErrorIsLatestThrow(entries: seq<Option<EventLog>>, pred: ArgsPredicate,
                                                  err: ThrownError)
    ensures LastError(entries, pred) == Some(err)
        <==> exists j :: 0 <= j < |entries| && Eval(pred, entries[j]) == Throws(err)
                         && forall k :: j < k < |entries| ==> !IsThrow(Eval(pred, entries[k]))
  {
    if |entries| > 0 {
      var n := |entries| - 1;
      var init := entries[..n];
      LastErrorIsLatestThrow(init, pred, err);
      assert forall j :: 0 <= j < n ==> init[j] == entries[j];
      if !IsThrow(Eval(pred, entries[n])) {
        if exists j :: 0 <= j < |entries| && Eval(pred, entries[j]) == Throws(err)
                       && forall k :: j < k < |entries| ==> !IsThrow(Eval(pred, entries[k])) {
          var j :| 0 <= j < |entries| && Eval(pred, entries[j]) == Throws(err)
                   && forall k :: j < k < |entries| ==> !IsThrow(Eval(pred, entries[k]));
          assert j < n;
          assert Eval(pred, init[j]) == Throws(err);
        }
      }
    }
  }

  /** A scan in which nothing throws records no error. */
  lemma {:induction false} NoThrowNoError(entries: seq<Option<EventLog>>, pred: ArgsPredicate)
    requires forall j :: 0 <= j < |entries| ==> !IsThrow(Eval(pred, entries[j]))
    ensures LastError(entries, pred) == None
  {
    if |entries| > 0 {
      var init := entries[..|entries| - 1];
      assert forall j :: 0 <= j < |init| ==> init[j] == entries[j];
      NoThrowNoError(init, pred);
    }
  }

  /** The state the scan leaves: `hasMatchedEvent` and `lastError`. */
  datatype ScanResult = ScanResult(hasMatchedEvent: bool, lastError: Option<ThrownError>)

  /** The scan: it matches when some entry is accepted, and only the entries before the first
      accepted one can have thrown. */
  function Scan(entries: seq<Option<EventLog>>, pred: ArgsPredicate): ScanResult
  {
    var k := FirstTruthy(entries, pred);
    ScanResult(k < |entries|, LastError(entries[..k], pred))
  }

  /** How many predicate calls the scan makes: up to and including the first accepted entry. */
  function EvaluatedCount(entries: seq<Option<EventLog>>, pred: ArgsPredicate): nat
  {
    var k := FirstTruthy(entries, pred);
    if k < |entries| then k + 1 else |entries|
  }

  /** The scan matches exactly when the predicate accepts some entry; a throw never stops it. */
  lemma ScanMatchesIff(entries: seq<Option<EventLog>>, pred: ArgsPredicate)
    ensures Scan(entries, pred).hasMatchedEvent
        <==> exists i :: 0 <= i < |entries| && Eval(pred, entries[i]).Truthy?
  {
  }

  /** The loop of the source: a `for ... of` over the entries with `try`/`catch` and an early
      `break`. The ghost `calls` lists the entry each predicate call was made on, in order. */
  method ScanMatchedEventLogs(entries: seq<Option<EventLog>>, pred: ArgsPredicate)
    returns (hasMatchedEvent: bool, lastError: Option<ThrownError>, ghost calls: seq<int>)
    ensures ScanResult(hasMatchedEvent, lastError) == Scan(entries, pred)
    ensures |calls| == EvaluatedCount(entries, pred)
    ensures forall k :: 0 <= k < |calls| ==> calls[k] == k
  {
    hasMatchedEvent := false;
    lastError := None;
    calls := [];
    var i := 0;
    while i < |entries|
      invariant 0 <= i <= |entries|
      invariant !hasMatchedEvent
      invariant forall j :: 0 <= j < i ==> !Eval(pred, entries[j]).Truthy?
      invariant lastError == LastError(entries[..i], pred)
      invariant |calls| == i && forall k :: 0 <= k < i ==> calls[k] == k
    {
      calls := calls + [i];
      var result := Eval(pred, entries[i]);
      if result.Truthy? {
        hasMatchedEvent := true;
        break;
      }
      assert entries[..i + 1][..i] == entries[..i];
      match result {
        case Throws(err) =>
          lastError := Some(err);
        case ThrowsUndefined =>
          lastError := None;
        case Falsy =>
      }
      i := i + 1;
    }
    assert !hasMatchedEvent ==> entries[..i] == entries;
  }

  /** The text appended to the failure message: "do not match" when no error was recorded,
      otherwise the recorded error's message in quotes. */
  function ArgsErrorMessage(prefix: string, lastError: Option<ThrownError>): string
  {
    match lastError
    case None => prefix + ", but argument(s) do not match"
    case Some(err) => prefix + ", but argument(s) assert function got: '" + err.message + "'"
  }

  /** The `expected`/`actual` diagnostics: copied from the recorded error only when it is an
      AssertionError. */
  function ArgsExpected(lastError: Option<ThrownError>): JsValue
  {
    if lastError.Some? && lastError.value.isAssertionError then lastError.value.expected else Undefined
  }

  function ArgsActual(lastError: Option<ThrownError>): JsValue
  {
    if lastError.Some? && lastError.value.isAssertionError then lastError.value.actual else Undefined
  }

  /** The final assertion of the scan, under the chain's negation and custom message. */
  function ArgsAssert(negate: bool, custom: Option<string>, scan: ScanResult,
                      prefix: string, negMsg: string): (r: Host.Outcome)
    ensures r.Pass? <==> scan.hasMatchedEvent != negate
    ensures !negate && !r.Pass? ==>
              r == Host.AssertionFailed(Host.Prefixed(custom, ArgsErrorMessage(prefix, scan.lastError)),
                                        ArgsExpected(scan.lastError), ArgsActual(scan.lastError))
    ensures negate && !r.Pass? ==>
              r == Host.AssertionFailed(Host.Prefixed(custom, negMsg),
                                        ArgsExpected(scan.lastError), ArgsActual(scan.lastError))
  {
    Host.Assert(negate, custom, scan.hasMatchedEvent, ArgsErrorMessage(prefix, scan.lastError), negMsg,
                ArgsExpected(scan.lastError), ArgsActual(scan.lastError))
  }

  /** The suffix says "do not match" exactly when no error was recorded. */
  lemma DoNotMatchIffNoError(prefix: string, lastError: Option<ThrownError>)
    ensures ArgsErrorMessage(prefix, lastError) == prefix + ", but argument(s) do not match"
        <==> lastError.None?
  {
    if lastError.Some? {
      var m := ArgsErrorMessage(prefix, lastError);
      var n := |prefix + ", but argument(s) "|;
      assert m[n] == 'a';
      assert (prefix + ", but argument(s) do not match")[n] == 'd';
    }
  }
}
