/** The matchers of the plugin as step functions over an explicit per-chain state record:
    each takes the chain's flags and the call's arguments and gives the new flags and the
    outcome. The class `ChaiTruffle.Assertion` runs the same steps in place. */
module Matchers {
  import opened Wrappers
  import opened Text
  import opened JsValues
  import opened Host
  import opened Logs
  import opened ArgsScan

  /** The flags of one assertion chain: its subject (`_obj`), the custom `message`, the
      stored `truffleEmitEventLogPositionList`, `truffleNegatedBeforeAssertEmitEvent`, and
      the host's `negate`. */
  datatype Chain = Chain(subject: Subject, message: Option<string>, positions: Option<seq<int>>,
                         negatedBefore: bool, negate: bool)

  datatype Step = Step(chain: Chain, outcome: Outcome)

  /** `expect(subject, message)`: a fresh chain. */
  function Expect(subject: Subject, message: Option<string>): Chain
  {
    Chain(subject, message, None, false, false)
  }

  /** The host's `.not`. */
  function Not(c: Chain): Chain
  {
    c.(negate := true)
  }

  /** `setMessageIfProvided`. */
  function SetMessageIfProvided(c: Chain, message: Option<string>): Chain
  {
    if message.Some? then c.(message := message) else c
  }

  /** `setEmitEventLogPositionList`. */
  function SetEmitEventLogPositionList(c: Chain, positionList: seq<int>): Chain
  {
    c.(positions := Some(positionList))
  }

  /** `updateNegatedBeforeAssertEmitEvent`: records that the event matcher ran negated. */
  function UpdateNegatedBeforeAssertEmitEvent(c: Chain): Chain
  {
    if c.negate then c.(negatedBefore := true) else c
  }

  /** `this.assert(...)` on the chain's flags. */
  function ChainAssert(c: Chain, expr: bool, msg: string, negMsg: string,
                       expected: JsValue, actual: JsValue): Outcome
  {
    Host.Assert(c.negate, c.message, expr, msg, negMsg, expected, actual)
  }

  /** `failAssertion(this, msg)`. */
  function ChainFail(c: Chain, msg: string): Outcome
  {
    Host.FailAssertion(c.negate, c.message, msg, Undefined, Undefined)
  }

  /** How a template literal renders an entry's event name; a missing one reads "null". */
  function EventText(event: Option<string>): string
  {
    if event.Some? then event.value else "null"
  }

  function EventValue(event: Option<string>): JsValue
  {
    if event.Some? then Str(event.value) else Null
  }

  const NotResponseMessage: string := "expected #{this} to be a Truffle TransactionResponse"
  const NotResponseNegatedMessage: string := "expected #{this} not to be a Truffle TransactionResponse"

  /** The `transactionResponse` property: the guard as an assertion under the chain's flags.
      chai receives no `actual`, so it reports the subject. */
  function TransactionResponseAssertion(negate: bool, custom: Option<string>, value: JsValue): Outcome
  {
    Host.Assert(negate, custom, IsTransactionResponse(value), NotResponseMessage,
                NotResponseNegatedMessage, Undefined, value)
  }

  function TransactionResponseProperty(c: Chain): Outcome
  {
    TransactionResponseAssertion(c.negate, c.message, c.subject.value)
  }

  /** `assertIsTransactionResponse(value, message)`: the property on a fresh assertion that
      carries only the matcher's own `message` argument, never negated. */
  function AssertIsTransactionResponse(value: JsValue, message: Option<string>): Outcome
  {
    TransactionResponseAssertion(false, message, value)
  }

  /** The failure every matcher reports first when its subject is not a response. */
  function NotResponseFailure(message: Option<string>, value: JsValue): Outcome
  {
    AssertionFailed(Prefixed(message, NotResponseMessage), Undefined, value)
  }

  const NoEventMessage: string := "expected transaction to emit event, but none was emitted"

  function SomeEventNegatedMessage(found: Option<string>): string
  {
    "expected transaction not to emit event, but event '" + (if found.Some? then found.value else "false") + "' was emitted"
  }

  /** `assertHasEventEmittedWithAssertion`: the zero-argument form of `emitEvent`. */
  function AssertHasEventEmitted(c: Chain, message: Option<string>): Outcome
  {
    var guard := AssertIsTransactionResponse(c.subject.value, message);
    if !guard.Pass? then guard
    else
      var found := FirstEmittedEvent(c.subject.logs);
      ChainAssert(c, found.Some?, NoEventMessage, SomeEventNegatedMessage(found), Undefined, c.subject.value)
  }

  function EmitEventMessage(name: string): string
  {
    "expected transaction to emit event '" + name + "', but was not emitted"
  }

  function EmitEventNegatedMessage(name: string): string
  {
    "expected transaction not to emit event '" + name + "', but was emitted"
  }

  /** `emitEvent(name?, message?)`. */
  function EmitEvent(c: Chain, name: Option<string>, message: Option<string>): Step
  {
    var c1 := SetMessageIfProvided(c, message);
    if name.None? then Step(c1, AssertHasEventEmitted(c1, message))
    else
      var guard := AssertIsTransactionResponse(c1.subject.value, message);
      if !guard.Pass? then Step(c1, guard)
      else
        var matched := MatchedLogIndexList(c1.subject.logs, name.value);
        var outcome := ChainAssert(c1, |matched| != 0, EmitEventMessage(name.value),
                                   EmitEventNegatedMessage(name.value), Undefined, c1.subject.value);
        if !outcome.Pass? then Step(c1, outcome)
        else Step(UpdateNegatedBeforeAssertEmitEvent(SetEmitEventLogPositionList(c1, matched)), Pass)
  }

  function OutOfRangeMessage(name: string, position: int, size: int): string
  {
    "expected transaction to emit event '" + name + "' at position " + IntToString(position)
      + ", but only " + IntToString(size) + " event(s) was emitted"
  }

  function WrongEventAtMessage(name: string, position: int, event: Option<string>): string
  {
    "expected transaction to emit event '" + name + "' at position " + IntToString(position)
      + ", but '" + EventText(event) + "' was emitted"
  }

  function EventAtNegatedMessage(name: string, position: int): string
  {
    "expected transaction not to emit event '" + name + "' at position " + IntToString(position)
      + ", but was emitted"
  }

  /** `emitEventAt(name, position, message?)`. A position past the end fails through
      `failAssertion` without looking at names; a negative one reads `.event` of `undefined`. */
  function EmitEventAt(c: Chain, name: string, position: int, message: Option<string>): Step
  {
    var c1 := SetMessageIfProvided(c, message);
    var guard := AssertIsTransactionResponse(c1.subject.value, message);
    if !guard.Pass? then Step(c1, guard)
    else
      var logs := c1.subject.logs;
      if position > |logs| - 1 then Step(c1, ChainFail(c1, OutOfRangeMessage(name, position, |logs|)))
      else if position < 0 then Step(c1, TypeError("event"))
      else
        var event := logs[position].event;
        var outcome := ChainAssert(c1, event == Some(name), WrongEventAtMessage(name, position, event),
                                   EventAtNegatedMessage(name, position), Str(name), EventValue(event));
        if !outcome.Pass? then Step(c1, outcome)
        else Step(UpdateNegatedBeforeAssertEmitEvent(SetEmitEventLogPositionList(c1, [position])), Pass)
  }

  /** The entries of `logs`, each present. */
  function Present(logs: seq<EventLog>): (r: seq<Option<EventLog>>)
    ensures |r| == |logs| && forall k :: 0 <= k < |logs| ==> r[k] == Some(logs[k])
  {
    seq(|logs|, k requires 0 <= k < |logs| => Some(logs[k]))
  }

  /** `positionList.map(position => logs[position])`: an index outside the array gives a hole. */
  function EntriesAt(logs: seq<EventLog>, positionList: seq<int>): (r: seq<Option<EventLog>>)
    ensures |r| == |positionList|
    ensures forall k :: 0 <= k < |r| ==>
              r[k] == if 0 <= positionList[k] < |logs| then Some(logs[positionList[k]]) else None
  {
    seq(|positionList|, k requires 0 <= k < |positionList| =>
      if 0 <= positionList[k] < |logs| then Some(logs[positionList[k]]) else None)
  }

  /** `assertEventArgsFromMatchedEventLogsWithAssertion` on the chain's flags. */
  function ArgsAssertion(c: Chain, entries: seq<Option<EventLog>>, pred: ArgsPredicate,
                         prefix: string, negMsg: string): Outcome
  {
    ArgsAssert(c.negate, c.message, Scan(entries, pred), prefix, negMsg)
  }

  function WithArgsPrefix(name: string): string
  {
    "expected transaction to emit event '" + name + "' with matching argument(s)"
  }

  function WithArgsNotEmittedMessage(name: string): string
  {
    WithArgsPrefix(name) + ", but was not emitted"
  }

  function WithArgsNegatedMessage(name: string): string
  {
    "expected transaction not to emit event '" + name + "' with matching argument(s), but was emitted"
  }

  /** `emitEventWithArgs(name, assertArgsFn, message?)`. */
  function EmitEventWithArgs(c: Chain, name: string, pred: ArgsPredicate, message: Option<string>): Step
  {
    var c1 := SetMessageIfProvided(c, message);
    var guard := AssertIsTransactionResponse(c1.subject.value, message);
    if !guard.Pass? then Step(c1, guard)
    else
      var matched := MatchingLogs(c1.subject.logs, name);
      if |matched| == 0 then Step(c1, ChainFail(c1, WithArgsNotEmittedMessage(name)))
      else Step(c1, ArgsAssertion(c1, Present(matched), pred, WithArgsPrefix(name), WithArgsNegatedMessage(name)))
  }

  function OutOfRangeAreMessage(name: string, position: int, size: int): string
  {
    "expected transaction to emit event '" + name + "' at position " + IntToString(position)
      + ", but only " + IntToString(size) + " event(s) are emitted"
  }

  function WithArgsAtPrefix(name: string, position: int): string
  {
    "expected transaction to emit event '" + name + "' at position " + IntToString(position)
      + " with matching argument(s)"
  }

  function WithArgsAtNotEmittedMessage(name: string, position: int): string
  {
    WithArgsAtPrefix(name, position) + ", but was not emitted"
  }

  function WithArgsAtNegatedMessage(name: string, position: int): string
  {
    "expected transaction not to emit event '" + name + "' at position " + IntToString(position)
      + " with matching argument(s), but was emitted"
  }

  /** `emitEventWithArgsAt(name, assertArgsFn, position, message?)`. */
  function EmitEventWithArgsAt(c: Chain, name: string, pred: ArgsPredicate, position: int,
                               message: Option<string>): Step
  {
    var c1 := SetMessageIfProvided(c, message);
    var guard := AssertIsTransactionResponse(c1.subject.value, message);
    if !guard.Pass? then Step(c1, guard)
    else
      var logs := c1.subject.logs;
      if position > |logs| - 1 then Step(c1, ChainFail(c1, OutOfRangeAreMessage(name, position, |logs|)))
      else if position < 0 then Step(c1, TypeError("event"))
      else if logs[position].event != Some(name) then
        Step(c1, ChainFail(c1, WithArgsAtNotEmittedMessage(name, position)))
      else
        Step(c1, ArgsAssertion(c1, [Some(logs[position])], pred, WithArgsAtPrefix(name, position),
                               WithArgsAtNegatedMessage(name, position)))
  }

  function EventLengthMessage(expectedLength: int, actualLength: int): string
  {
    "expected transaction to emit " + IntToString(expectedLength) + " event log(s), but "
      + IntToString(actualLength) + " was emitted"
  }

  function EventLengthNegatedMessage(expectedLength: int): string
  {
    "expected transaction not to emit " + IntToString(expectedLength) + " event log(s)"
  }

  /** `eventLengthAssertFn`, registered as both `eventLength` and `eventLengthOf`. */
  function EventLength(c: Chain, expectedLength: int, message: Option<string>): Step
  {
    var c1 := SetMessageIfProvided(c, message);
    var guard := AssertIsTransactionResponse(c1.subject.value, message);
    if !guard.Pass? then Step(c1, guard)
    else
      var actualLength := |c1.subject.logs|;
      Step(c1, ChainAssert(c1, actualLength == expectedLength,
                           EventLengthMessage(expectedLength, actualLength),
                           EventLengthNegatedMessage(expectedLength),
                           Num(expectedLength), Num(actualLength)))
  }

  const NotAssertedMessage: string :=
    "to assert event arguments the assertion must be asserted with emitEvent() or emitEventAt() first. i.e. expect(...).to.emitEvent(...).withEventArgs(...)"

  const NegatedBeforeMessage: string :=
    "expect(...).not.to.emitEvent(...).withEventArgs(...) pattern is not support. If you are asserting a transaction has emitted an event but not with the certain argument format, consider using expect(...).to.emitEvent(...).not.withEventArgs(...) instead"

  function WithEventArgsNegatedMessage(name: string): string
  {
    "expected transaction to emit event '" + name + "' but not with matching argument(s), but argument(s) match"
  }

  /** `withEventArgs(assertArgsFn)`: reads the stored list, and uses its values as array
      indices; it changes no flag. */
  function WithEventArgs(c: Chain, pred: ArgsPredicate): Outcome
  {
    if c.positions.None? then UsageError(NotAssertedMessage)
    else if c.negatedBefore then UsageError(NegatedBeforeMessage)
    else
      var positionList := c.positions.value;
      var logs := c.subject.logs;
      if |positionList| == 0 || !(0 <= positionList[0] < |logs|) then TypeError("event")
      else
        var eventName := EventText(logs[positionList[0]].event);
        ArgsAssertion(c, EntriesAt(logs, positionList), pred, WithArgsPrefix(eventName),
                      WithEventArgsNegatedMessage(eventName))
  }

  /** The invariant every chain keeps:
      - the negated-before flag is only ever set while the chain is negated, and `.not` is never undone;
      - un-negated, the stored list is never empty;
      - when `logIndex` values are positions, every stored index is in range, and un-negated
        all stored indices point at entries with one and the same name. */
  predicate ChainValid(c: Chain)
  {
    && (c.negatedBefore ==> c.negate)
    && (c.positions.Some? && !c.negatedBefore ==> |c.positions.value| > 0)
    && (c.positions.Some? && LogIndicesArePositions(c.subject.logs) ==>
          forall k :: 0 <= k < |c.positions.value| ==> 0 <= c.positions.value[k] < |c.subject.logs|)
    && (c.positions.Some? && !c.negatedBefore && LogIndicesArePositions(c.subject.logs) ==>
          forall k :: 0 <= k < |c.positions.value| ==>
            c.subject.logs[c.positions.value[k]].event.Some?
            && c.subject.logs[c.positions.value[k]].event == c.subject.logs[c.positions.value[0]].event)
  }
}
