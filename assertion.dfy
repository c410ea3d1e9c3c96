/** The plugin as the host runs it: one `Assertion` object per `expect(...)` chain, whose
    flags the matchers read and update in place. Every method is proved to do what the
    step function of the same name in `Matchers` or `Evm` describes, and to keep the chain
    invariant `Matchers.ChainValid`. */
module ChaiTruffle {
  import opened Wrappers
  import Text
  import opened JsValues
  import opened Host
  import opened Logs
  import opened ArgsScan
  import Matchers
  import Evm
  import MatcherProperties
  import EvmProperties

  class Assertion {
    /** `_obj`: the subject of the chain. */
    const obj: Subject
    /** The flags `message`, `truffleEmitEventLogPositionList`,
        `truffleNegatedBeforeAssertEmitEvent` and `negate`. */
    var message: Option<string>
    var positions: Option<seq<int>>
    var negatedBefore: bool
    var negate: bool

    function State(): Matchers.Chain
      reads this
    {
      Matchers.Chain(obj, message, positions, negatedBefore, negate)
    }

    ghost predicate Valid()
      reads this
    {
      Matchers.ChainValid(State())
    }

    /** `expect(subject, message)`. */
    constructor (subject: Subject, initial: Option<string>)
      ensures State() == Matchers.Expect(subject, initial)
      ensures Valid()
    {
      obj := subject;
      message := initial;
      positions := None;
      negatedBefore := false;
      negate := false;
      MatcherProperties.ExpectAndNotValid(subject, initial, Matchers.Expect(subject, initial));
    }

    /** The host's `.not`. */
    method Not()
      modifies this
      ensures State() == Matchers.Not(old(State()))
      ensures old(Valid()) ==> Valid()
    {
      MatcherProperties.ExpectAndNotValid(obj, message, State());
      negate := true;
    }

    method SetMessageIfProvided(msg: Option<string>)
      modifies this
      ensures State() == Matchers.SetMessageIfProvided(old(State()), msg)
      ensures old(Valid()) ==> Valid()
    {
      if old(Valid()) {
        MatcherProperties.MessageKeepsValid(State(), msg);
      }
      if msg.Some? {
        message := msg;
      }
    }

    /** Used only inside EmitEvent and EmitEventAt, after a passing assertion; Valid is
        kept there through MatcherProperties.StoreKeepsValid, not by this step alone. */
    method SetEmitEventLogPositionList(positionList: seq<int>)
      modifies this
      ensures State() == Matchers.SetEmitEventLogPositionList(old(State()), positionList)
    {
      positions := Some(positionList);
    }

    /** Used only right after SetEmitEventLogPositionList, as the source does; Valid is
        kept by the pair, through MatcherProperties.StoreKeepsValid. */
    method UpdateNegatedBeforeAssertEmitEvent()
      modifies this
      ensures State() == Matchers.UpdateNegatedBeforeAssertEmitEvent(old(State()))
    {
      if negate {
        negatedBefore := true;
      }
    }

    /** The `transactionResponse` property. */
    method TransactionResponse() returns (outcome: Outcome)
      ensures outcome == Matchers.TransactionResponseProperty(State())
      ensures outcome.Pass? <==> IsTransactionResponse(obj.value) != negate
    {
      var isResponse := CheckTransactionResponse(obj.value);
      outcome := Host.Assert(negate, message, isResponse, Matchers.NotResponseMessage,
                             Matchers.NotResponseNegatedMessage, Undefined, obj.value);
    }

    /** `assertHasEventEmittedWithAssertion`. */
    method AssertHasEventEmitted(msg: Option<string>) returns (outcome: Outcome)
      ensures outcome == Matchers.AssertHasEventEmitted(State(), msg)
    {
      outcome := AssertIsTransactionResponse(obj.value, msg);
      if !outcome.Pass? {
        return;
      }
      var found := FirstEmittedEvent(obj.logs);
      outcome := Matchers.ChainAssert(State(), found.Some?, Matchers.NoEventMessage,
                                      Matchers.SomeEventNegatedMessage(found), Undefined, obj.value);
    }

    /** `emitEvent(name?, message?)`. */
    method EmitEvent(expectedEventName: Option<string>, msg: Option<string>) returns (outcome: Outcome)
      modifies this
      ensures State() == Matchers.EmitEvent(old(State()), expectedEventName, msg).chain
      ensures outcome == Matchers.EmitEvent(old(State()), expectedEventName, msg).outcome
      ensures old(Valid()) ==> Valid()
    {
      if Valid() {
        MatcherProperties.EmitEventPreservesValid(State(), expectedEventName, msg);
      }
      SetMessageIfProvided(msg);
      if expectedEventName.None? {
        outcome := AssertHasEventEmitted(msg);
        return;
      }
      outcome := AssertIsTransactionResponse(obj.value, msg);
      if !outcome.Pass? {
        return;
      }
      var name := expectedEventName.value;
      var matched := MatchedLogIndexList(obj.logs, name);
      outcome := Matchers.ChainAssert(State(), |matched| != 0, Matchers.EmitEventMessage(name),
                                      Matchers.EmitEventNegatedMessage(name), Undefined, obj.value);
      if !outcome.Pass? {
        return;
      }
      SetEmitEventLogPositionList(matched);
      UpdateNegatedBeforeAssertEmitEvent();
    }

    /** `emitEventAt(name, position, message?)`. */
    method EmitEventAt(expectedEventName: string, position: int, msg: Option<string>) returns (outcome: Outcome)
      modifies this
      ensures State() == Matchers.EmitEventAt(old(State()), expectedEventName, position, msg).chain
      ensures outcome == Matchers.EmitEventAt(old(State()), expectedEventName, position, msg).outcome
      ensures old(Valid()) ==> Valid()
    {
      if Valid() {
        MatcherProperties.EmitEventAtPreservesValid(State(), expectedEventName, position, msg);
      }
      SetMessageIfProvided(msg);
      outcome := AssertIsTransactionResponse(obj.value, msg);
      if !outcome.Pass? {
        return;
      }
      var objLogSize := |obj.logs|;
      if position > objLogSize - 1 {
        outcome := Matchers.ChainFail(State(), Matchers.OutOfRangeMessage(expectedEventName, position, objLogSize));
        return;
      }
      if position < 0 {
        outcome := TypeError("event");
        return;
      }
      var eventAtTargetPosition := obj.logs[position].event;
      outcome := Matchers.ChainAssert(State(), eventAtTargetPosition == Some(expectedEventName),
                                      Matchers.WrongEventAtMessage(expectedEventName, position, eventAtTargetPosition),
                                      Matchers.EventAtNegatedMessage(expectedEventName, position),
                                      Str(expectedEventName), Matchers.EventValue(eventAtTargetPosition));
      if !outcome.Pass? {
        return;
      }
      SetEmitEventLogPositionList([position]);
      UpdateNegatedBeforeAssertEmitEvent();
    }

    /** `assertEventArgsFromMatchedEventLogsWithAssertion`: the scan loop, then the assertion. */
    method AssertEventArgs(matchedEventLogs: seq<Option<EventLog>>, pred: ArgsPredicate,
                           errorMessagePrefix: string, negatedErrorMessage: string) returns (outcome: Outcome)
      ensures outcome == Matchers.ArgsAssertion(State(), matchedEventLogs, pred, errorMessagePrefix, negatedErrorMessage)
      ensures outcome.Pass? <==> (exists i :: 0 <= i < |matchedEventLogs| && Eval(pred, matchedEventLogs[i]).Truthy?) != negate
    {
      var hasMatchedEvent, lastError, calls := ScanMatchedEventLogs(matchedEventLogs, pred);
      outcome := ArgsAssert(negate, message, ScanResult(hasMatchedEvent, lastError),
                            errorMessagePrefix, negatedErrorMessage);
      ScanMatchesIff(matchedEventLogs, pred);
    }

    /** `emitEventWithArgs(name, assertArgsFn, message?)`. */
    method EmitEventWithArgs(expectedEventName: string, pred: ArgsPredicate, msg: Option<string>)
      returns (outcome: Outcome)
      modifies this
      ensures State() == Matchers.EmitEventWithArgs(old(State()), expectedEventName, pred, msg).chain
      ensures outcome == Matchers.EmitEventWithArgs(old(State()), expectedEventName, pred, msg).outcome
      ensures old(Valid()) ==> Valid()
    {
      if Valid() {
        MatcherProperties.MessageKeepsValid(State(), msg);
      }
      SetMessageIfProvided(msg);
      outcome := AssertIsTransactionResponse(obj.value, msg);
      if !outcome.Pass? {
        return;
      }
      var matchedEventLogs := MatchingLogs(obj.logs, expectedEventName);
      if |matchedEventLogs| == 0 {
        outcome := Matchers.ChainFail(State(), Matchers.WithArgsNotEmittedMessage(expectedEventName));
        return;
      }
      outcome := AssertEventArgs(Matchers.Present(matchedEventLogs), pred,
                                 Matchers.WithArgsPrefix(expectedEventName),
                                 Matchers.WithArgsNegatedMessage(expectedEventName));
    }

    /** `emitEventWithArgsAt(name, assertArgsFn, position, message?)`. */
    method EmitEventWithArgsAt(expectedEventName: string, pred: ArgsPredicate, position: int, msg: Option<string>)
      returns (outcome: Outcome)
      modifies this
      ensures State() == Matchers.EmitEventWithArgsAt(old(State()), expectedEventName, pred, position, msg).chain
      ensures outcome == Matchers.EmitEventWithArgsAt(old(State()), expectedEventName, pred, position, msg).outcome
      ensures old(Valid()) ==> Valid()
    {
      if Valid() {
        MatcherProperties.MessageKeepsValid(State(), msg);
      }
      SetMessageIfProvided(msg);
      outcome := AssertIsTransactionResponse(obj.value, msg);
      if !outcome.Pass? {
        return;
      }
      var objLogSize := |obj.logs|;
      if position > objLogSize - 1 {
        outcome := Matchers.ChainFail(State(), Matchers.OutOfRangeAreMessage(expectedEventName, position, objLogSize));
        return;
      }
      if position < 0 {
        outcome := TypeError("event");
        return;
      }
      var targetEventLog := obj.logs[position];
      if targetEventLog.event != Some(expectedEventName) {
        outcome := Matchers.ChainFail(State(), Matchers.WithArgsAtNotEmittedMessage(expectedEventName, position));
        return;
      }
      outcome := AssertEventArgs([Some(targetEventLog)], pred,
                                 Matchers.WithArgsAtPrefix(expectedEventName, position),
                                 Matchers.WithArgsAtNegatedMessage(expectedEventName, position));
    }

    /** `eventLengthAssertFn`, registered as `eventLength`. */
    method EventLength(expectedLength: int, msg: Option<string>) returns (outcome: Outcome)
      modifies this
      ensures State() == Matchers.EventLength(old(State()), expectedLength, msg).chain
      ensures outcome == Matchers.EventLength(old(State()), expectedLength, msg).outcome
      ensures old(Valid()) ==> Valid()
    {
      if Valid() {
        MatcherProperties.MessageKeepsValid(State(), msg);
      }
      SetMessageIfProvided(msg);
      outcome := AssertIsTransactionResponse(obj.value, msg);
      if !outcome.Pass? {
        return;
      }
      var actualEventLogLength := |obj.logs|;
      outcome := Matchers.ChainAssert(State(), actualEventLogLength == expectedLength,
                                      Matchers.EventLengthMessage(expectedLength, actualEventLogLength),
                                      Matchers.EventLengthNegatedMessage(expectedLength),
                                      Num(expectedLength), Num(actualEventLogLength));
    }

    /** `eventLengthOf`: the same function under a second name. */
    method EventLengthOf(expectedLength: int, msg: Option<string>) returns (outcome: Outcome)
      modifies this
      ensures State() == Matchers.EventLength(old(State()), expectedLength, msg).chain
      ensures outcome == Matchers.EventLength(old(State()), expectedLength, msg).outcome
      ensures old(Valid()) ==> Valid()
    {
      outcome := EventLength(expectedLength, msg);
    }

    /** `withEventArgs(assertArgsFn)`: it changes no flag. */
    method WithEventArgs(pred: ArgsPredicate) returns (outcome: Outcome)
      ensures outcome == Matchers.WithEventArgs(State(), pred)
    {
      if positions.None? {
        outcome := UsageError(Matchers.NotAssertedMessage);
        return;
      }
      if negatedBefore {
        outcome := UsageError(Matchers.NegatedBeforeMessage);
        return;
      }
      var eventLogPositionList := positions.value;
      if |eventLogPositionList| == 0 || !(0 <= eventLogPositionList[0] < |obj.logs|) {
        outcome := TypeError("event");
        return;
      }
      var eventName := Matchers.EventText(obj.logs[eventLogPositionList[0]].event);
      var matchedEventLogs := Matchers.EntriesAt(obj.logs, eventLogPositionList);
      outcome := AssertEventArgs(matchedEventLogs, pred, Matchers.WithArgsPrefix(eventName),
                                 Matchers.WithEventArgsNegatedMessage(eventName));
    }

    /** `evmFail(expectedErrorMessage?, message?)`, run to the point where the subject has
        settled as `settled`. */
    method EvmFail(expectedErrorMessage: Option<string>, msg: Option<string>, settled: Evm.Settled)
      returns (outcome: Outcome)
      modifies this
      ensures State() == Evm.EvmFail(old(State()), settled, expectedErrorMessage, msg).chain
      ensures outcome == Evm.EvmFail(old(State()), settled, expectedErrorMessage, msg).outcome
      ensures old(Valid()) ==> Valid()
    {
      if Valid() {
        MatcherProperties.MessageKeepsValid(State(), msg);
      }
      SetMessageIfProvided(msg);
      outcome := AssertIsPromiseLike(obj.value, None);
      if !outcome.Pass? {
        return;
      }
      match settled {
        case Resolved(result) =>
          outcome := Host.FailAssertion(negate, message, Evm.FailedMessage(expectedErrorMessage), Undefined, result);
          if !outcome.Pass? {
            return;
          }
          outcome := AssertIsTransactionResponse(result, msg);
        case Rejected(errorMessage) =>
          if expectedErrorMessage.None? {
            outcome := Host.FailNegatedAssertion(negate, message, Evm.SucceedButFailedMessage,
                                                 Undefined, Evm.ErrorValue(errorMessage));
          } else {
            var reason := expectedErrorMessage.value;
            var isErrorMessageMatch := Text.IndexOf(errorMessage, reason) != -1;
            outcome := Matchers.ChainAssert(State(), isErrorMessageMatch,
                                            Evm.OtherReasonMessage(reason, errorMessage),
                                            Evm.ReasonNegatedMessage(reason), Str(reason), Str(errorMessage));
          }
      }
    }

    method EvmInvalidOpcode(msg: Option<string>, settled: Evm.Settled) returns (outcome: Outcome)
      modifies this
      ensures State() == Evm.EvmInvalidOpcode(old(State()), settled, msg).chain
      ensures outcome == Evm.EvmInvalidOpcode(old(State()), settled, msg).outcome
      ensures old(Valid()) ==> Valid()
    {
      outcome := EvmFail(Some("invalid opcode"), msg, settled);
    }

    method EvmOutOfGas(msg: Option<string>, settled: Evm.Settled) returns (outcome: Outcome)
      modifies this
      ensures State() == Evm.EvmOutOfGas(old(State()), settled, msg).chain
      ensures outcome == Evm.EvmOutOfGas(old(State()), settled, msg).outcome
      ensures old(Valid()) ==> Valid()
    {
      outcome := EvmFail(Some("out of gas"), msg, settled);
    }

    method EvmRevert(msg: Option<string>, settled: Evm.Settled) returns (outcome: Outcome)
      modifies this
      ensures State() == Evm.EvmRevert(old(State()), settled, msg).chain
      ensures outcome == Evm.EvmRevert(old(State()), settled, msg).outcome
      ensures old(Valid()) ==> Valid()
    {
      outcome := EvmFail(Some("revert"), msg, settled);
    }

    /** `evmSuccess(message?)`, run to the point where the subject has settled. */
    method EvmSuccess(msg: Option<string>, settled: Evm.Settled) returns (outcome: Outcome)
      modifies this
      ensures State() == Evm.EvmSuccess(old(State()), settled, msg).chain
      ensures outcome == Evm.EvmSuccess(old(State()), settled, msg).outcome
      ensures old(Valid()) ==> Valid()
    {
      if Valid() {
        MatcherProperties.MessageKeepsValid(State(), msg);
      }
      SetMessageIfProvided(msg);
      outcome := AssertIsPromiseLike(obj.value, msg);
      if !outcome.Pass? {
        return;
      }
      match settled {
        case Resolved(result) =>
          outcome := Host.FailNegatedAssertion(negate, message, Evm.FailedMessage(None), Undefined, Undefined);
          if !outcome.Pass? {
            return;
          }
          outcome := AssertIsTransactionResponse(result, msg);
        case Rejected(errorMessage) =>
          outcome := Host.FailAssertion(negate, message, Evm.SucceedButFailedMessage,
                                        Undefined, Evm.ErrorValue(errorMessage));
      }
    }
  }

  /** `assertIsTransactionResponse(value, message)`: a fresh assertion on `value`, given only
      `message`, evaluating the `transactionResponse` property. The property reads nothing
      but the value, so the fresh subject carries no log entries. */
  method AssertIsTransactionResponse(value: JsValue, msg: Option<string>) returns (outcome: Outcome)
    ensures outcome == Matchers.AssertIsTransactionResponse(value, msg)
    ensures outcome.Pass? <==> IsTransactionResponse(value)
  {
    var assertion := new Assertion(Subject(value, []), None);
    assertion.SetMessageIfProvided(msg);
    outcome := assertion.TransactionResponse();
  }

  /** `assertIsPromiseLike(value, message?)`: a fresh assertion that `value.then` is defined. */
  method AssertIsPromiseLike(value: JsValue, msg: Option<string>) returns (outcome: Outcome)
    ensures outcome == Evm.AssertIsPromiseLike(value, msg)
    ensures outcome.Pass? <==> EvmProperties.PromiseLike(value)
  {
    var assertion := new Assertion(Subject(value, []), None);
    assertion.SetMessageIfProvided(msg);
    if IsNil(value) {
      outcome := TypeError("then");
      return;
    }
    outcome := Matchers.ChainAssert(assertion.State(), Get(value, "then") != Undefined,
                                    "expected #{this} to be a Promise", "expected #{this} not to be a Promise",
                                    Str("Promise"), Str(TypeOf(value)));
  }
}
