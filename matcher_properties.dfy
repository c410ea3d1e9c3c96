/** What the event matchers promise, stated over the step functions of `Matchers`. */
module MatcherProperties {
  import opened Wrappers
  import opened Text
  import opened JsValues
  import opened Host
  import opened Logs
  import opened ArgsScan
  import opened Matchers

  /** The custom message in force once a matcher has stored its own `message` argument. */
  function MessageAfter(c: Chain, message: Option<string>): Option<string>
  {
    SetMessageIfProvided(c, message).message
  }

  predicate Emitted(logs: seq<EventLog>, name: string)
  {
    exists i :: 0 <= i < |logs| && Named(logs[i], name)
  }

  /** The guard runs first, on a fresh un-negated assertion carrying only the matcher's own
      message: a non-response fails with "to be a Truffle TransactionResponse" whether or not
      the chain is negated, and no flag but the message changes. */
  lemma NonResponseFailsFirst(c: Chain, name: string, position: int, pred: ArgsPredicate,
                              expectedLength: int, message: Option<string>)
    requires !IsTransactionResponse(c.subject.value)
    ensures var failure := NotResponseFailure(message, c.subject.value);
      && EmitEvent(c, Some(name), message) == Step(SetMessageIfProvided(c, message), failure)
      && EmitEvent(c, None, message) == Step(SetMessageIfProvided(c, message), failure)
      && EmitEventAt(c, name, position, message) == Step(SetMessageIfProvided(c, message), failure)
      && EmitEventWithArgs(c, name, pred, message) == Step(SetMessageIfProvided(c, message), failure)
      && EmitEventWithArgsAt(c, name, pred, position, message) == Step(SetMessageIfProvided(c, message), failure)
      && EventLength(c, expectedLength, message) == Step(SetMessageIfProvided(c, message), failure)
  {
  }

  /** The `transactionResponse` property passes exactly when the guard's answer differs from
      the chain's negation. */
  lemma TransactionResponsePropertyIff(c: Chain)
    ensures TransactionResponseProperty(c).Pass? <==> IsTransactionResponse(c.subject.value) != c.negate
    ensures !c.negate && !IsTransactionResponse(c.subject.value) ==>
              TransactionResponseProperty(c) == AssertionFailed(Prefixed(c.message, NotResponseMessage), Undefined, c.subject.value)
  {
  }

  /** `emitEvent(name)`: it passes un-negated exactly when some entry carries the name; only
      once the assertion has passed does it store the `logIndex` values of all the named
      entries in log order, and it sets the negated-before flag exactly when negated. */
  lemma EmitEventNamed(c: Chain, name: string, message: Option<string>)
    requires IsTransactionResponse(c.subject.value)
    ensures var s := EmitEvent(c, Some(name), message);
            var logs := c.subject.logs;
      && (s.outcome.Pass? <==> Emitted(logs, name) != c.negate)
      && (!c.negate && !Emitted(logs, name) ==>
            s.outcome == AssertionFailed(Prefixed(MessageAfter(c, message), EmitEventMessage(name)), Undefined, c.subject.value))
      && (c.negate && Emitted(logs, name) ==>
            s.outcome == AssertionFailed(Prefixed(MessageAfter(c, message), EmitEventNegatedMessage(name)), Undefined, c.subject.value))
      && (s.outcome.Pass? ==>
            s.chain == SetMessageIfProvided(c, message).(positions := Some(MatchedLogIndexList(logs, name)),
                                                         negatedBefore := c.negatedBefore || c.negate))
      && (!s.outcome.Pass? ==> s.chain == SetMessageIfProvided(c, message))
  {
    MatchedIffNamed(c.subject.logs, name);
  }

  /** `emitEvent()`: it passes un-negated exactly when some entry has a name; negated, its
      failure names the first entry that has one; and it never touches the stored list or the
      negated-before flag. */
  lemma EmitEventUnnamed(c: Chain, message: Option<string>)
    requires IsTransactionResponse(c.subject.value)
    ensures var s := EmitEvent(c, None, message);
      && (s.outcome.Pass? <==> (exists i :: 0 <= i < |c.subject.logs| && c.subject.logs[i].event.Some?) != c.negate)
      && (!c.negate && !s.outcome.Pass? ==>
            s.outcome == AssertionFailed(Prefixed(MessageAfter(c, message), NoEventMessage), Undefined, c.subject.value))
      && s.chain == SetMessageIfProvided(c, message)
    ensures forall i :: 0 <= i < |c.subject.logs| && c.subject.logs[i].event.Some?
                        && (forall j :: 0 <= j < i ==> c.subject.logs[j].event.None?) && c.negate ==>
              EmitEvent(c, None, message).outcome
              == AssertionFailed(Prefixed(MessageAfter(c, message), SomeEventNegatedMessage(c.subject.logs[i].event)),
                                 Undefined, c.subject.value)
  {
    var logs := c.subject.logs;
    forall i | 0 <= i < |logs| && logs[i].event.Some? && (forall j :: 0 <= j < i ==> logs[j].event.None?)
      ensures FirstEmittedEvent(logs) == logs[i].event
    {
      assert FirstEmittedEvent(logs).Some?;
      var i' :| 0 <= i' < |logs| && logs[i'].event == FirstEmittedEvent(logs)
                && forall j :: 0 <= j < i' ==> logs[j].event.None?;
      assert logs[i'].event.Some?;
      assert !(i < i') && !(i' < i);
    }
  }

  /** `emitEventAt(name, p)` past the end of the logs takes the `failAssertion` path: un-negated
      it reports how many events there were, negated it passes, and names are never compared. */
  lemma EmitEventAtOutOfRange(c: Chain, name: string, position: int, message: Option<string>)
    requires IsTransactionResponse(c.subject.value)
    requires position > |c.subject.logs| - 1
    ensures var s := EmitEventAt(c, name, position, message);
      && (s.outcome.Pass? <==> c.negate)
      && (!c.negate ==>
            s.outcome == AssertionFailed(Prefixed(MessageAfter(c, message),
                                                  OutOfRangeMessage(name, position, |c.subject.logs|)), Undefined, Undefined))
      && s.chain == SetMessageIfProvided(c, message)
  {
  }

  /** `emitEventAt(name, p)` within the logs passes un-negated exactly when the entry at `p`
      carries the name, reports that entry's event otherwise, and on success stores `[p]`. */
  lemma EmitEventAtInRange(c: Chain, name: string, position: int, message: Option<string>)
    requires IsTransactionResponse(c.subject.value)
    requires 0 <= position < |c.subject.logs|
    ensures var s := EmitEventAt(c, name, position, message);
            var event := c.subject.logs[position].event;
      && (s.outcome.Pass? <==> (event == Some(name)) != c.negate)
      && (!c.negate && event != Some(name) ==>
            s.outcome == AssertionFailed(Prefixed(MessageAfter(c, message), WrongEventAtMessage(name, position, event)),
                                         Str(name), EventValue(event)))
      && (c.negate && event == Some(name) ==>
            s.outcome == AssertionFailed(Prefixed(MessageAfter(c, message), EventAtNegatedMessage(name, position)),
                                         Str(name), EventValue(event)))
      && (s.outcome.Pass? ==>
            s.chain == SetMessageIfProvided(c, message).(positions := Some([position]),
                                                         negatedBefore := c.negatedBefore || c.negate))
      && (!s.outcome.Pass? ==> s.chain == SetMessageIfProvided(c, message))
  {
  }

  /** A negative position reads `.event` of `undefined` and throws a TypeError. */
  lemma EmitEventAtNegative(c: Chain, name: string, pred: ArgsPredicate, position: int, message: Option<string>)
    requires IsTransactionResponse(c.subject.value)
    requires position < 0
    ensures EmitEventAt(c, name, position, message).outcome == TypeError("event")
    ensures EmitEventWithArgsAt(c, name, pred, position, message).outcome == TypeError("event")
  {
  }

  /** `emitEventWithArgs` with no entry of that name fails with "but was not emitted" before
      any predicate call: its outcome is the same for every predicate. */
  lemma EmitEventWithArgsNotEmitted(c: Chain, name: string, pred: ArgsPredicate, other: ArgsPredicate,
                                    message: Option<string>)
    requires IsTransactionResponse(c.subject.value)
    requires !Emitted(c.subject.logs, name)
    ensures var s := EmitEventWithArgs(c, name, pred, message);
      && (s.outcome.Pass? <==> c.negate)
      && (!c.negate ==>
            s.outcome == AssertionFailed(Prefixed(MessageAfter(c, message), WithArgsNotEmittedMessage(name)), Undefined, Undefined))
      && s == EmitEventWithArgs(c, name, other, message)
  {
    MatchedIffNamed(c.subject.logs, name);
  }

  /** The entries `emitEventWithArgs` scans are the named entries in log order: the scan
      accepts one exactly when the predicate accepts some named entry, and it sees a throw only
      where a named entry's predicate call throws. */
  lemma {:induction false} MatchedEntriesAreNamed(logs: seq<EventLog>, name: string, pred: ArgsPredicate)
    ensures var entries := Matchers.Present(MatchingLogs(logs, name));
      && ((exists k :: 0 <= k < |entries| && Eval(pred, entries[k]).Truthy?)
          <==> exists i :: 0 <= i < |logs| && Named(logs[i], name) && pred(logs[i].args).Truthy?)
      && ((forall i :: 0 <= i < |logs| && Named(logs[i], name) ==> !IsThrow(pred(logs[i].args)))
          <==> forall k :: 0 <= k < |entries| ==> !IsThrow(Eval(pred, entries[k])))
  {
    FiltersFollowPositions(logs, name);
    NamedPositionsAccept(logs, name, pred);
    var ps := MatchingPositions(logs, name);
    var entries := Matchers.Present(MatchingLogs(logs, name));
    assert forall k :: 0 <= k < |entries| ==> Eval(pred, entries[k]) == pred(logs[ps[k]].args);
    if forall k :: 0 <= k < |entries| ==> !IsThrow(Eval(pred, entries[k])) {
      forall i | 0 <= i < |logs| && Named(logs[i], name) ensures !IsThrow(pred(logs[i].args)) {
        assert i in ps;
        var k :| 0 <= k < |ps| && ps[k] == i;
        assert !IsThrow(Eval(pred, entries[k]));
      }
    }
  }

  /** Once some entry carries the name, `emitEventWithArgs` passes un-negated exactly when the
      predicate accepts the arguments of some named entry; an un-negated failure ends in the
      suffix for the latest error thrown on a named entry, with that error's diagnostics; a
      negated failure says "but was emitted"; and if the predicate threw on no named entry, an
      un-negated failure says "do not match" and neither failure carries diagnostics. */
  lemma EmitEventWithArgsScan(c: Chain, name: string, pred: ArgsPredicate, message: Option<string>)
    requires IsTransactionResponse(c.subject.value)
    requires Emitted(c.subject.logs, name)
    ensures EmitEventWithArgs(c, name, pred, message).outcome.Pass?
        <==> (exists i :: 0 <= i < |c.subject.logs| && Named(c.subject.logs[i], name)
                         && pred(c.subject.logs[i].args).Truthy?) != c.negate
    ensures (forall i :: 0 <= i < |c.subject.logs| && Named(c.subject.logs[i], name) ==> !IsThrow(pred(c.subject.logs[i].args)))
            && !c.negate && !EmitEventWithArgs(c, name, pred, message).outcome.Pass? ==>
              EmitEventWithArgs(c, name, pred, message).outcome
              == AssertionFailed(Prefixed(MessageAfter(c, message), WithArgsPrefix(name) + ", but argument(s) do not match"),
                                 Undefined, Undefined)
    ensures var lastError := LastError(Matchers.Present(MatchingLogs(c.subject.logs, name)), pred);
            !c.negate && !EmitEventWithArgs(c, name, pred, message).outcome.Pass? ==>
              EmitEventWithArgs(c, name, pred, message).outcome
              == AssertionFailed(Prefixed(MessageAfter(c, message), ArgsErrorMessage(WithArgsPrefix(name), lastError)),
                                 ArgsExpected(lastError), ArgsActual(lastError))
    ensures c.negate && !EmitEventWithArgs(c, name, pred, message).outcome.Pass? ==>
              EmitEventWithArgs(c, name, pred, message).outcome.AssertionFailed?
              && EmitEventWithArgs(c, name, pred, message).outcome.message
                 == Prefixed(MessageAfter(c, message), WithArgsNegatedMessage(name))
    ensures (forall i :: 0 <= i < |c.subject.logs| && Named(c.subject.logs[i], name) ==> !IsThrow(pred(c.subject.logs[i].args)))
            && c.negate && !EmitEventWithArgs(c, name, pred, message).outcome.Pass? ==>
              EmitEventWithArgs(c, name, pred, message).outcome
              == AssertionFailed(Prefixed(MessageAfter(c, message), WithArgsNegatedMessage(name)), Undefined, Undefined)
    ensures EmitEventWithArgs(c, name, pred, message).chain == SetMessageIfProvided(c, message)
  {
    var logs := c.subject.logs;
    var c1 := SetMessageIfProvided(c, message);
    MatchedIffNamed(logs, name);
    var entries := Matchers.Present(MatchingLogs(logs, name));
    var scan := Scan(entries, pred);
    assert EmitEventWithArgs(c, name, pred, message).outcome
        == ArgsAssert(c.negate, c1.message, scan, WithArgsPrefix(name), WithArgsNegatedMessage(name));
    MatchedEntriesAreNamed(logs, name, pred);
    ScanMatchesIff(entries, pred);
    if !scan.hasMatchedEvent {
      assert entries[..FirstTruthy(entries, pred)] == entries;
    }
    if forall i :: 0 <= i < |logs| && Named(logs[i], name) ==> !IsThrow(pred(logs[i].args)) {
      var k := FirstTruthy(entries, pred);
      assert forall j :: 0 <= j < |entries[..k]| ==> entries[..k][j] == entries[j];
      NoThrowNoError(entries[..k], pred);
      assert scan.lastError.None?;
    }
  }

  /** A scan over one entry matches exactly when the predicate accepts it, and records the
      error exactly when that one call threw an error. */
  lemma ScanOfOne(log: EventLog, pred: ArgsPredicate)
    ensures Scan([Some(log)], pred)
            == ScanResult(pred(log.args).Truthy?, if pred(log.args).Throws? then Some(pred(log.args).error) else None)
  {
    var entries := [Some(log)];
    var r := pred(log.args);
    assert Eval(pred, entries[0]) == r;
    assert entries[..0] == [];
    assert entries[..1] == entries;
    if r.Truthy? {
      assert FirstTruthy(entries, pred) == 0;
    } else {
      assert FirstTruthy(entries, pred) == 1;
      assert LastError(entries, pred) == if r.Throws? then Some(r.error) else LastError(entries[..0], pred);
    }
  }

  /** `emitEventWithArgsAt` has three separate outcomes, tried in this order. First, a
      position past the end fails with "are emitted" (and passes negated). */
  lemma EmitEventWithArgsAtOutOfRange(c: Chain, name: string, pred: ArgsPredicate, position: int,
                                      message: Option<string>)
    requires IsTransactionResponse(c.subject.value)
    requires position > |c.subject.logs| - 1
    ensures var s := EmitEventWithArgsAt(c, name, pred, position, message);
      && (s.outcome.Pass? <==> c.negate)
      && (!c.negate ==>
            s.outcome == AssertionFailed(Prefixed(MessageAfter(c, message),
                                                  OutOfRangeAreMessage(name, position, |c.subject.logs|)),
                                         Undefined, Undefined))
      && s.chain == SetMessageIfProvided(c, message)
  {
  }

  /** Second, a different event at the position fails with "but was not emitted" without
      calling the predicate. */
  lemma EmitEventWithArgsAtWrongEvent(c: Chain, name: string, pred: ArgsPredicate, position: int,
                                      message: Option<string>)
    requires IsTransactionResponse(c.subject.value)
    requires 0 <= position < |c.subject.logs| && !Named(c.subject.logs[position], name)
    ensures var s := EmitEventWithArgsAt(c, name, pred, position, message);
      && (s.outcome.Pass? <==> c.negate)
      && (!c.negate ==>
            s.outcome == AssertionFailed(Prefixed(MessageAfter(c, message), WithArgsAtNotEmittedMessage(name, position)),
                                         Undefined, Undefined))
      && s.chain == SetMessageIfProvided(c, message)
  {
  }

  /** Third, with the named entry at the position, the predicate decides on that one entry:
      a false result says "do not match", a thrown error is quoted with its diagnostics, and a
      negated failure says "but was emitted" without diagnostics. */
  lemma EmitEventWithArgsAtScan(c: Chain, name: string, pred: ArgsPredicate, position: int,
                                message: Option<string>)
    requires IsTransactionResponse(c.subject.value)
    requires 0 <= position < |c.subject.logs| && Named(c.subject.logs[position], name)
    ensures var s := EmitEventWithArgsAt(c, name, pred, position, message);
            var r := pred(c.subject.logs[position].args);
            var m := MessageAfter(c, message);
      && (s.outcome.Pass? <==> r.Truthy? != c.negate)
      && (!c.negate && r.Falsy? ==>
            s.outcome == AssertionFailed(Prefixed(m, WithArgsAtPrefix(name, position) + ", but argument(s) do not match"),
                                         Undefined, Undefined))
      && (!c.negate && r.Throws? ==>
            s.outcome == AssertionFailed(Prefixed(m, WithArgsAtPrefix(name, position)
                                                     + ", but argument(s) assert function got: '" + r.error.message + "'"),
                                         if r.error.isAssertionError then r.error.expected else Undefined,
                                         if r.error.isAssertionError then r.error.actual else Undefined))
      && (c.negate && r.Truthy? ==>
            s.outcome == AssertionFailed(Prefixed(m, WithArgsAtNegatedMessage(name, position)), Undefined, Undefined))
      && s.chain == SetMessageIfProvided(c, message)
  {
    var log := c.subject.logs[position];
    var c1 := SetMessageIfProvided(c, message);
    ScanOfOne(log, pred);
    assert EmitEventWithArgsAt(c, name, pred, position, message).outcome
        == ArgsAssert(c.negate, c1.message, Scan([Some(log)], pred), WithArgsAtPrefix(name, position),
                      WithArgsAtNegatedMessage(name, position));
  }

  /** `eventLength(n)` / `eventLengthOf(n)` passes un-negated exactly when there are `n`
      entries, and otherwise reports the actual count. */
  lemma EventLengthIff(c: Chain, expectedLength: int, message: Option<string>)
    requires IsTransactionResponse(c.subject.value)
    ensures var s := EventLength(c, expectedLength, message);
      && (s.outcome.Pass? <==> (|c.subject.logs| == expectedLength) != c.negate)
      && (!c.negate && !s.outcome.Pass? ==>
            s.outcome == AssertionFailed(Prefixed(MessageAfter(c, message),
                                                  EventLengthMessage(expectedLength, |c.subject.logs|)),
                                         Num(expectedLength), Num(|c.subject.logs|)))
      && (c.negate && !s.outcome.Pass? ==>
            s.outcome == AssertionFailed(Prefixed(MessageAfter(c, message), EventLengthNegatedMessage(expectedLength)),
                                         Num(expectedLength), Num(|c.subject.logs|)))
      && s.chain == SetMessageIfProvided(c, message)
  {
  }

  /** `withEventArgs` throws the fixed usage error when no list is stored, and the second one
      when the event matcher before it ran negated. */
  lemma WithEventArgsUsageErrors(c: Chain, pred: ArgsPredicate)
    ensures c.positions.None? ==> WithEventArgs(c, pred) == UsageError(NotAssertedMessage)
    ensures c.positions.Some? && c.negatedBefore ==> WithEventArgs(c, pred) == UsageError(NegatedBeforeMessage)
  {
  }

  /** The zero-argument `emitEvent()` stores no list, so a `withEventArgs` straight after it on
      a fresh chain is a usage error. */
  lemma WithEventArgsAfterUnnamedEmitEvent(subject: Subject, initial: Option<string>, message: Option<string>,
                                           pred: ArgsPredicate)
    ensures WithEventArgs(EmitEvent(Expect(subject, initial), None, message).chain, pred)
            == UsageError(NotAssertedMessage)
  {
  }

  /** `.not.emitEvent(name)` that passes leaves the negated-before flag set, so `withEventArgs`
      after it is the second usage error. */
  lemma WithEventArgsAfterNegatedEmitEvent(c: Chain, name: string, message: Option<string>, pred: ArgsPredicate)
    requires c.negate
    requires EmitEvent(c, Some(name), message).outcome.Pass?
    ensures WithEventArgs(EmitEvent(c, Some(name), message).chain, pred) == UsageError(NegatedBeforeMessage)
  {
  }

  /** In a valid chain whose `logIndex` values are positions, `withEventArgs` never reads a
      missing entry: it ends in a usage error, a pass or an assertion failure. */
  lemma WithEventArgsNeverTypeError(c: Chain, pred: ArgsPredicate)
    requires ChainValid(c)
    requires LogIndicesArePositions(c.subject.logs)
    ensures !WithEventArgs(c, pred).TypeError?
  {
  }

  /** Chained `emitEvent(name).withEventArgs(f)` on an un-negated chain reaches the same
      outcome as `emitEventWithArgs(name, f)` when `logIndex` values are positions: the stored
      indices then pick out exactly the named entries, in log order. */
  lemma {:induction false} EmitEventThenWithEventArgs(c: Chain, name: string, pred: ArgsPredicate,
                                                      message: Option<string>)
    requires ChainValid(c) && !c.negate
    requires IsTransactionResponse(c.subject.value)
    requires LogIndicesArePositions(c.subject.logs)
    requires EmitEvent(c, Some(name), message).outcome.Pass?
    ensures WithEventArgs(EmitEvent(c, Some(name), message).chain, pred)
            == EmitEventWithArgs(c, name, pred, message).outcome
  {
    var logs := c.subject.logs;
    var c1 := SetMessageIfProvided(c, message);
    EmitEventNamed(c, name, message);
    MatchedIffNamed(logs, name);
    LogIndexListIsPositions(logs, name);
    var s := EmitEvent(c, Some(name), message).chain;
    assert s == c1.(positions := Some(MatchingPositions(logs, name)));
    WithEventArgsOverNamed(s, name, pred);
    var entries := Matchers.Present(MatchingLogs(logs, name));
    assert EmitEventWithArgs(c, name, pred, message).outcome
        == ArgsAssert(false, c1.message, Scan(entries, pred), WithArgsPrefix(name), WithArgsNegatedMessage(name));
  }

  /** Un-negated, `withEventArgs` over the list of all positions named `name` scans exactly the
      named entries and reports the name. */
  lemma {:induction false} WithEventArgsOverNamed(s: Chain, name: string, pred: ArgsPredicate)
    requires s.positions == Some(MatchingPositions(s.subject.logs, name))
    requires |s.positions.value| > 0 && !s.negatedBefore && !s.negate
    ensures WithEventArgs(s, pred)
            == ArgsAssert(false, s.message, Scan(Matchers.Present(MatchingLogs(s.subject.logs, name)), pred),
                          WithArgsPrefix(name), WithArgsNegatedMessage(name))
  {
    var logs := s.subject.logs;
    var ps := MatchingPositions(logs, name);
    FiltersFollowPositions(logs, name);
    assert EventText(logs[ps[0]].event) == name;
    assert EntriesAt(logs, ps) == Matchers.Present(MatchingLogs(logs, name));
  }

  /** When legal, `withEventArgs` scans `logs[i]` for every stored `i` in stored order and
      passes un-negated exactly when the predicate accepts one of them; reading an index
      outside the logs counts as a throw, never as a match. Its failures name the event of the
      first stored entry: negated, "but argument(s) match"; un-negated, the scan's suffix. */
  lemma WithEventArgsScansStored(c: Chain, pred: ArgsPredicate)
    requires c.positions.Some? && !c.negatedBefore
    requires |c.positions.value| > 0 && 0 <= c.positions.value[0] < |c.subject.logs|
    ensures WithEventArgs(c, pred).Pass?
        <==> (exists k :: 0 <= k < |c.positions.value| && 0 <= c.positions.value[k] < |c.subject.logs|
                          && pred(c.subject.logs[c.positions.value[k]].args).Truthy?) != c.negate
    ensures var eventName := EventText(c.subject.logs[c.positions.value[0]].event);
            var scan := Scan(EntriesAt(c.subject.logs, c.positions.value), pred);
      && (c.negate && !WithEventArgs(c, pred).Pass? ==>
            WithEventArgs(c, pred) == AssertionFailed(Prefixed(c.message, WithEventArgsNegatedMessage(eventName)),
                                                      ArgsExpected(scan.lastError), ArgsActual(scan.lastError)))
      && (!c.negate && !WithEventArgs(c, pred).Pass? ==>
            WithEventArgs(c, pred) == AssertionFailed(Prefixed(c.message, ArgsErrorMessage(WithArgsPrefix(eventName), scan.lastError)),
                                                      ArgsExpected(scan.lastError), ArgsActual(scan.lastError)))
  {
    var logs := c.subject.logs;
    var positionList := c.positions.value;
    var entries := EntriesAt(logs, positionList);
    var eventName := EventText(logs[positionList[0]].event);
    assert WithEventArgs(c, pred)
        == ArgsAssert(c.negate, c.message, Scan(entries, pred), WithArgsPrefix(eventName),
                      WithEventArgsNegatedMessage(eventName));
    ScanMatchesIff(entries, pred);
    assert forall k :: 0 <= k < |entries| ==>
      (Eval(pred, entries[k]).Truthy? <==> 0 <= positionList[k] < |logs| && pred(logs[positionList[k]].args).Truthy?);
  }

  /** When legal but the first stored index reads no entry (an empty list, a negative index, or
      one past the end), `withEventArgs` reads `.event` of `undefined` and throws a TypeError,
      before any predicate call. */
  lemma WithEventArgsMissingFirstEntry(c: Chain, pred: ArgsPredicate)
    requires c.positions.Some? && !c.negatedBefore
    requires |c.positions.value| == 0 || !(0 <= c.positions.value[0] < |c.subject.logs|)
    ensures WithEventArgs(c, pred) == TypeError("event")
  {
  }

  /** The predicate accepts an entry reached through the list of named positions exactly
      when it accepts some named entry. */
  lemma {:induction false} NamedPositionsAccept(logs: seq<EventLog>, name: string, pred: ArgsPredicate)
    ensures var ps := MatchingPositions(logs, name);
      (exists k :: 0 <= k < |ps| && 0 <= ps[k] < |logs| && pred(logs[ps[k]].args).Truthy?)
        <==> exists i :: 0 <= i < |logs| && Named(logs[i], name) && pred(logs[i].args).Truthy?
  {
    var ps := MatchingPositions(logs, name);
    forall k | 0 <= k < |ps| && 0 <= ps[k] < |logs| && pred(logs[ps[k]].args).Truthy?
      ensures exists i :: 0 <= i < |logs| && Named(logs[i], name) && pred(logs[i].args).Truthy?
    {
      var i := ps[k];
      assert Named(logs[i], name);
    }
    forall i | 0 <= i < |logs| && Named(logs[i], name) && pred(logs[i].args).Truthy?
      ensures exists k :: 0 <= k < |ps| && 0 <= ps[k] < |logs| && pred(logs[ps[k]].args).Truthy?
    {
      assert i in ps;
      var k :| 0 <= k < |ps| && ps[k] == i;
      assert pred(logs[ps[k]].args).Truthy?;
    }
  }

  /** A negated `withEventArgs` over the list of all positions named `name` passes exactly
      when the predicate accepts no entry with that name. */
  lemma NotWithEventArgsOverNamed(s: Chain, name: string, pred: ArgsPredicate)
    requires s.positions == Some(MatchingPositions(s.subject.logs, name))
    requires |s.positions.value| > 0 && !s.negatedBefore && s.negate
    ensures WithEventArgs(s, pred).Pass?
        <==> !exists i :: 0 <= i < |s.subject.logs| && Named(s.subject.logs[i], name) && pred(s.subject.logs[i].args).Truthy?
  {
    WithEventArgsScansStored(s, pred);
    NamedPositionsAccept(s.subject.logs, name, pred);
  }

  /** `.emitEvent(name).not.withEventArgs(f)`, with `logIndex` values that are positions,
      passes exactly when the predicate accepts no entry with that name. */
  lemma {:induction false} EmitEventThenNotWithEventArgs(c: Chain, name: string, pred: ArgsPredicate,
                                                         message: Option<string>)
    requires ChainValid(c) && !c.negate
    requires IsTransactionResponse(c.subject.value)
    requires LogIndicesArePositions(c.subject.logs)
    requires EmitEvent(c, Some(name), message).outcome.Pass?
    ensures WithEventArgs(Not(EmitEvent(c, Some(name), message).chain), pred).Pass?
        <==> !exists i :: 0 <= i < |c.subject.logs| && Named(c.subject.logs[i], name) && pred(c.subject.logs[i].args).Truthy?
  {
    var logs := c.subject.logs;
    EmitEventNamed(c, name, message);
    LogIndexListIsPositions(logs, name);
    MatchedIffNamed(logs, name);
    var s := Not(EmitEvent(c, Some(name), message).chain);
    assert s.subject == c.subject;
    NotWithEventArgsOverNamed(s, name, pred);
  }

  /** The stored list holds `logIndex` values, not positions: with an entry whose `logIndex`
      is 7, `emitEvent` passes and stores `[7]`, and `withEventArgs` then reads a missing entry. */
  lemma StoredLogIndexIsNotAPosition()
    ensures var logs := [EventLog(Some("A"), 7, map[])];
            var response := Object(map["tx" := Str("0x1"), "receipt" := Object(map[]), "logs" := Object(map[])]);
            var s := EmitEvent(Expect(Subject(response, logs), None), Some("A"), None);
      && s.outcome == Pass
      && s.chain.positions == Some([7])
      && WithEventArgs(s.chain, (a: Args) => Truthy) == TypeError("event")
  {
    var logs := [EventLog(Some("A"), 7, map[])];
    var response := Object(map["tx" := Str("0x1"), "receipt" := Object(map[]), "logs" := Object(map[])]);
    assert IsTransactionResponse(response);
    assert Named(logs[0], "A");
    assert MatchedLogIndexList(logs, "A") == [7];
  }

  /** Expect gives a valid chain, and `.not` keeps it valid. */
  lemma ExpectAndNotValid(subject: Subject, message: Option<string>, c: Chain)
    ensures ChainValid(Expect(subject, message))
    ensures ChainValid(c) ==> ChainValid(Not(c))
  {
  }

  /** Changing only the message keeps a chain valid. */
  lemma MessageKeepsValid(c: Chain, message: Option<string>)
    requires ChainValid(c)
    ensures ChainValid(SetMessageIfProvided(c, message))
  {
  }

  /** Storing a list after a passing event assertion keeps the chain invariant, provided
      that, when `logIndex` values are positions, the list holds positions in range, and that
      un-negated it is non-empty and all its entries carry the name `name`. */
  lemma StoreKeepsValid(c: Chain, positionList: seq<int>, name: string)
    requires ChainValid(c)
    requires !c.negate ==> |positionList| > 0
    requires LogIndicesArePositions(c.subject.logs) ==>
               forall k :: 0 <= k < |positionList| ==> 0 <= positionList[k] < |c.subject.logs|
    requires LogIndicesArePositions(c.subject.logs) && !c.negate ==>
               forall k :: 0 <= k < |positionList| ==> Named(c.subject.logs[positionList[k]], name)
    ensures ChainValid(UpdateNegatedBeforeAssertEmitEvent(SetEmitEventLogPositionList(c, positionList)))
  {
  }

  /** `emitEvent` keeps the chain invariant. */
  lemma EmitEventPreservesValid(c: Chain, name: Option<string>, message: Option<string>)
    requires ChainValid(c)
    ensures ChainValid(EmitEvent(c, name, message).chain)
  {
    MessageKeepsValid(c, message);
    if name.Some? && IsTransactionResponse(c.subject.value) {
      var logs := c.subject.logs;
      var c1 := SetMessageIfProvided(c, message);
      EmitEventNamed(c, name.value, message);
      if EmitEvent(c, name, message).outcome.Pass? {
        MatchedIffNamed(logs, name.value);
        if LogIndicesArePositions(logs) {
          LogIndexListIsPositions(logs, name.value);
        }
        StoreKeepsValid(c1, MatchedLogIndexList(logs, name.value), name.value);
        assert EmitEvent(c, name, message).chain
            == UpdateNegatedBeforeAssertEmitEvent(SetEmitEventLogPositionList(c1, MatchedLogIndexList(logs, name.value)));
      }
    }
  }

  /** `emitEventAt` keeps the chain invariant. */
  lemma EmitEventAtPreservesValid(c: Chain, name: string, position: int, message: Option<string>)
    requires ChainValid(c)
    ensures ChainValid(EmitEventAt(c, name, position, message).chain)
  {
    MessageKeepsValid(c, message);
    var c1 := SetMessageIfProvided(c, message);
    if IsTransactionResponse(c.subject.value) && 0 <= position < |c.subject.logs| {
      EmitEventAtInRange(c, name, position, message);
      if EmitEventAt(c, name, position, message).outcome.Pass? {
        StoreKeepsValid(c1, [position], name);
        assert EmitEventAt(c, name, position, message).chain
            == UpdateNegatedBeforeAssertEmitEvent(SetEmitEventLogPositionList(c1, [position]));
      }
    } else {
      assert EmitEventAt(c, name, position, message).chain == c1;
    }
  }

  /** The matchers that store nothing keep the chain invariant. */
  lemma ArgsMatchersPreserveValid(c: Chain, name: string, pred: ArgsPredicate, position: int,
                                  expectedLength: int, message: Option<string>)
    requires ChainValid(c)
    ensures ChainValid(EmitEventWithArgs(c, name, pred, message).chain)
    ensures ChainValid(EmitEventWithArgsAt(c, name, pred, position, message).chain)
    ensures ChainValid(EventLength(c, expectedLength, message).chain)
  {
    MessageKeepsValid(c, message);
    assert EmitEventWithArgs(c, name, pred, message).chain == SetMessageIfProvided(c, message);
    assert EmitEventWithArgsAt(c, name, pred, position, message).chain == SetMessageIfProvided(c, message);
    assert EventLength(c, expectedLength, message).chain == SetMessageIfProvided(c, message);
  }
}
