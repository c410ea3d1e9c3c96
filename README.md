# chai-truffle assertion plugin, modelled in Dafny

This project models the chai-truffle plugin (`node_modules/chai-truffle/lib/chai-truffle.ts`). The plugin adds matchers to chai's
`expect` for Truffle transaction responses and for pending contract calls:

- `emitEvent`, `emitEventAt`, `emitEventWithArgs`, `emitEventWithArgsAt`;
- `eventLength`/`eventLengthOf`;
- `withEventArgs`;
- the `transactionResponse` property;
- `evmFail`, with its shorthands `evmRevert`, `evmOutOfGas` and `evmInvalidOpcode`, and `evmSuccess`.

A transaction response is an object with `tx`, `receipt` and `logs`. Its logs are entries
`{event, logIndex, args}`. Every matcher call ends in one of four outcomes:

- a pass;
- an assertion failure, with its exact message and its `expected`/`actual` diagnostics;
- a usage error (a plain `Error` thrown for misuse of the API);
- a TypeError from reading a property of `undefined`.

## Layout

| file | module | what it holds |
|---|---|---|
| `wrappers.dfy` | `Wrappers` | `Option` |
| `text.dfy` | `Text` | decimal rendering of integers in messages; `String.prototype.indexOf` |
| `js_value.dfy` | `JsValues` | JavaScript values, `typeof`, property reads, and the structural guard `isTransactionResponse` with its key loop |
| `host.dfy` | `Host` | chai's `assert(expr, msg, negMsg, expected, actual)`, plus `failAssertion` and `failNegatedAssertion` |
| `logs.dfy` | `Logs` | log entries, and the `filter`/`map`/`find` expressions over them |
| `args_scan.dfy` | `ArgsScan` | the argument scan `assertEventArgsFromMatchedEventLogsWithAssertion`, as a specification and as the loop |
| `matchers.dfy` | `Matchers` | the chain flags as a record `Chain`; every event matcher as a step function from a chain to a new chain and an outcome |
| `evm.dfy` | `Evm` | the outcome tables of `evmFail` and `evmSuccess`, over the value the promise settles to |
| `assertion.dfy` | `ChaiTruffle` | class `Assertion`, whose fields are the chain's flags; its methods update them in place, are proved equal to the step functions, and keep the invariant `Matchers.ChainValid` |
| `matcher_properties.dfy`, `evm_properties.dfy` | `MatcherProperties`, `EvmProperties` | what the matchers promise, as lemmas over the step functions |
| `scenarios.dfy` | `Scenarios` | concrete chains over small responses |

The chain flags are the four per-assertion flags the plugin reads and writes:

- `message`;
- `truffleEmitEventLogPositionList`;
- `truffleNegatedBeforeAssertEmitEvent`;
- chai's `negate`.

chai only ever sets `negate` to true, so the flag is a `bool`. The other two flags are modelled
by whether they are set: `positions: Option<seq<int>>` and `negatedBefore: bool`.

## Points where the model follows the code closely

**The guard's message.** The transaction-response guard runs on a fresh, never-negated assertion.
That assertion carries only the matcher's own `message` argument. So a non-response fails with
"to be a Truffle TransactionResponse" even under `.not`, and a message set earlier on the chain
does not prefix that failure. `evmFail` passes no message to its promise probe; `evmSuccess`
passes its own.

The custom message is prefixed only when it is a non-empty string, following chai's
`flagMsg ? flagMsg + ': ' + msg : msg`. chai's own source is not part of this model.

**`emitEventAt` bounds.** It checks only `position > length - 1`. A negative position therefore
reads `.event` of `undefined`, which the model gives as `TypeError("event")`.
`emitEventWithArgsAt` behaves the same way.

**`logIndex` versus position.** `emitEvent(name)` stores the `logIndex` *fields* of the
matching entries (line 40). `emitEventAt` stores the array position (line 110).
`withEventArgs` uses the stored values as array indices (lines 380-384).

The model keeps this as written:

- `MatcherProperties.StoredLogIndexIsNotAPosition` shows a single entry with `logIndex` 7. There, `emitEvent` passes and the `withEventArgs` after it throws.
- `MatcherProperties.EmitEventThenWithEventArgs` proves that when every `logIndex` equals its position, `emitEvent(name).withEventArgs(f)` is exactly `emitEventWithArgs(name, f)`. That happens, for example, when the transaction is alone in its block and all of its logs are decoded.

A stored index that is out of range, after the first one, becomes a hole in the mapped array.
Reading `.args` of the hole throws inside the scan's `try`, and the error is recorded like any
other.

**Clearing `lastError`.** A predicate that throws `undefined` clears the recorded error. The
failure message then says "do not match", because the code tests `typeof lastError === "undefined"`.

## Model

| member | source | states |
|---|---|---|
| Text.IndexOf | node_modules/chai-truffle/lib/chai-truffle.ts:272-273 | the result is -1 or the first index where the reason occurs in the error message |
| Text.IndexOfFindsOccurrence | node_modules/chai-truffle/lib/chai-truffle.ts:272-273 | `indexOf(...) !== -1` holds exactly when the substring occurs somewhere |
| Text.IntToString | node_modules/chai-truffle/lib/chai-truffle.ts:88-92 | `${n}` for an integer `n` in the messages: never empty, and it starts with a minus sign exactly when `n` is negative; Text.IntToStringValue states that its digits denote `n` |
| Text.NatToStringValue | node_modules/chai-truffle/lib/chai-truffle.ts:88-92 | the digits of a natural number's rendering denote that number, with no leading zero except for 0 itself |
| Text.IntToStringValue | node_modules/chai-truffle/lib/chai-truffle.ts:88-92 | `${n}` is the canonical decimal numeral of `n`, after a minus sign when `n` is negative |
| Text.IntToStringExamples | node_modules/chai-truffle/lib/chai-truffle.ts:88-92 | 0, 2, 10 and -7 render as "0", "2", "10" and "-7" |
| JsValues.CheckTransactionResponse | node_modules/chai-truffle/lib/chai-truffle.ts:346-360 | the `typeof`/`isNil` tests and the early-return key loop accept exactly the non-null objects on which `tx`, `receipt` and `logs` all read as defined |
| JsValues.ExtraPropertiesIgnored | node_modules/chai-truffle/lib/chai-truffle.ts:354-358 | adding or changing a property other than the three keys never changes the guard's answer |
| JsValues.NonObjectsRejected | node_modules/chai-truffle/lib/chai-truffle.ts:347-352 | primitives, functions, `null` and `undefined` are rejected |
| JsValues.GuardExamples | node_modules/chai-truffle/test/chai-truffle/transactionResopnse.test.ts:9-43 | primitives, `null`, `{}` and the partial objects are rejected; a full response with an extra field and a `null` key is accepted |
| JsValues.Get | node_modules/chai-truffle/lib/chai-truffle.ts:354-358 | no contract of its own; `value[key]` on own properties, `undefined` when absent; ExtraPropertiesIgnored is about it |
| JsValues.IsTransactionResponse | node_modules/chai-truffle/lib/chai-truffle.ts:346-360 | no contract of its own; the guard predicate; CheckTransactionResponse, ExtraPropertiesIgnored, NonObjectsRejected and GuardExamples state its properties |
| Host.Assert | node_modules/chai-truffle/lib/chai-truffle.ts:337-341 | un-negated, it fails with `msg` exactly when `expr` is false; negated, it fails with `negMsg` exactly when `expr` is true; the failure carries the prefixed message and the given diagnostics |
| Host.FailAssertion | node_modules/chai-truffle/lib/chai-truffle.ts:463-469 | it passes exactly when negated; un-negated, it fails with the message |
| Host.FailNegatedAssertion | node_modules/chai-truffle/lib/chai-truffle.ts:455-461 | it passes exactly when not negated; negated, it fails with the message |
| Host.NegationFlipsVerdict | node_modules/chai-truffle/lib/chai-truffle.ts:455-469 | negation turns every pass into a failure and every failure into a pass |
| Logs.MatchingPositions | node_modules/chai-truffle/lib/chai-truffle.ts:38-40 | the positions of the entries carrying the name: all of them, in increasing order, and nothing else |
| Logs.FiltersFollowPositions | node_modules/chai-truffle/lib/chai-truffle.ts:38-40 | the `logIndex` list and the filtered entries have one element per matching position, taken from the entry at that position |
| Logs.MatchedIffNamed | node_modules/chai-truffle/lib/chai-truffle.ts:38-42 | `hasMatchedEvent` (a non-empty list) holds exactly when some entry carries the name |
| Logs.FirstEmittedEvent | node_modules/chai-truffle/lib/chai-truffle.ts:62-65 | `find` gives a name exactly when some entry has one, and it gives the first such name |
| Logs.LogIndexListIsPositions | node_modules/chai-truffle/lib/chai-truffle.ts:38-40 | when every `logIndex` equals its position, the stored `logIndex` list is the list of matching positions |
| Logs.MatchedLogIndexList | node_modules/chai-truffle/lib/chai-truffle.ts:38-40 | no contract of its own; the `filter(...).map(log => log.logIndex)` list; FiltersFollowPositions, MatchedIffNamed and LogIndexListIsPositions state its properties |
| Logs.MatchingLogs | node_modules/chai-truffle/lib/chai-truffle.ts:128-130 | no contract of its own; the `filter` of `emitEventWithArgs`; FiltersFollowPositions and MatchedEntriesAreNamed state its properties |
| ArgsScan.FirstTruthy | node_modules/chai-truffle/lib/chai-truffle.ts:407-418 | the scan stops at the first entry the predicate accepts; no earlier entry was accepted |
| ArgsScan.LastErrorIsLatestThrow | node_modules/chai-truffle/lib/chai-truffle.ts:407-418 | an error is recorded exactly when some call threw it and no later call threw |
| ArgsScan.NoThrowNoError | node_modules/chai-truffle/lib/chai-truffle.ts:407-418 | if no call throws, no error is recorded |
| ArgsScan.ScanMatchesIff | node_modules/chai-truffle/lib/chai-truffle.ts:407-418 | the scan matches exactly when the predicate accepts some entry; a throw never stops the scan |
| ArgsScan.ScanMatchedEventLogs | node_modules/chai-truffle/lib/chai-truffle.ts:405-418 | the `for` loop with `try`/`catch` and `break` computes the specified scan result; it calls the predicate on entries 0, 1, … up to and including the first one accepted |
| ArgsScan.ArgsAssert | node_modules/chai-truffle/lib/chai-truffle.ts:420-439 | it passes exactly when the scan matched, xor negated; un-negated, the message is the prefix plus "do not match" or the quoted last error, with `expected`/`actual` only from a chai AssertionError |
| ArgsScan.DoNotMatchIffNoError | node_modules/chai-truffle/lib/chai-truffle.ts:420-424 | the suffix is "do not match" exactly when no error was recorded |
| ArgsScan.Eval | node_modules/chai-truffle/lib/chai-truffle.ts:409-411 | no contract of its own; one predicate call on `eventLog.args`, a hole reading `.args` of `undefined`; MatchedEntriesAreNamed and ScanOfOne use it |
| ArgsScan.LastError | node_modules/chai-truffle/lib/chai-truffle.ts:407-418 | no contract of its own; `lastError` after the whole loop; LastErrorIsLatestThrow and NoThrowNoError state its properties |
| ArgsScan.Scan | node_modules/chai-truffle/lib/chai-truffle.ts:407-418 | no contract of its own; `hasMatchedEvent` and `lastError` after the loop; ScanMatchedEventLogs is proved equal to it, and ScanMatchesIff states its verdict |
| Matchers.EntriesAt | node_modules/chai-truffle/lib/chai-truffle.ts:383-385 | `map(position => logs[position])` gives the entry at each stored index, and a hole for an index outside the array |
| Matchers.Expect | node_modules/chai-truffle/lib/chai-truffle.ts:231 | no contract of its own; a fresh chain; ExpectAndNotValid states its invariant |
| Matchers.Not | node_modules/chai-truffle/lib/chai-truffle.ts:471-473 | no contract of its own; the host's `.not`; ExpectAndNotValid and Host.NegationFlipsVerdict state its effect |
| Matchers.SetMessageIfProvided | node_modules/chai-truffle/lib/chai-truffle.ts:492-499 | no contract of its own; MessageKeepsValid, and the class method of the same name, state its effect |
| Matchers.SetEmitEventLogPositionList | node_modules/chai-truffle/lib/chai-truffle.ts:485-490 | no contract of its own; StoreKeepsValid, and the class method of the same name, state its effect |
| Matchers.UpdateNegatedBeforeAssertEmitEvent | node_modules/chai-truffle/lib/chai-truffle.ts:501-505 | no contract of its own; StoreKeepsValid, and the class method of the same name, state its effect |
| Matchers.ChainAssert | node_modules/chai-truffle/lib/chai-truffle.ts:43-47 | no contract of its own; `this.assert` on the chain's flags; Host.Assert states its contract |
| Matchers.ChainFail | node_modules/chai-truffle/lib/chai-truffle.ts:463-469 | no contract of its own; `failAssertion(this, msg)` on the chain's flags; Host.FailAssertion states its contract |
| Matchers.TransactionResponseProperty | node_modules/chai-truffle/lib/chai-truffle.ts:333-343 | no contract of its own; TransactionResponsePropertyIff states its properties |
| Matchers.AssertIsTransactionResponse | node_modules/chai-truffle/lib/chai-truffle.ts:227-235 | no contract of its own; NonResponseFailsFirst states its properties |
| Matchers.AssertHasEventEmitted | node_modules/chai-truffle/lib/chai-truffle.ts:55-74 | no contract of its own; EmitEventUnnamed states its properties |
| Matchers.EmitEvent | node_modules/chai-truffle/lib/chai-truffle.ts:25-53 | no contract of its own; EmitEventNamed, EmitEventUnnamed, NonResponseFailsFirst and EmitEventPreservesValid state its properties |
| Matchers.EmitEventAt | node_modules/chai-truffle/lib/chai-truffle.ts:76-114 | no contract of its own; EmitEventAtOutOfRange, EmitEventAtInRange, EmitEventAtNegative and EmitEventAtPreservesValid state its properties |
| Matchers.EmitEventWithArgs | node_modules/chai-truffle/lib/chai-truffle.ts:116-153 | no contract of its own; EmitEventWithArgsNotEmitted and EmitEventWithArgsScan state its properties |
| Matchers.EmitEventWithArgsAt | node_modules/chai-truffle/lib/chai-truffle.ts:155-200 | no contract of its own; EmitEventWithArgsAtOutOfRange, EmitEventWithArgsAtWrongEvent and EmitEventWithArgsAtScan state its properties |
| Matchers.EventLength | node_modules/chai-truffle/lib/chai-truffle.ts:205-225 | no contract of its own; EventLengthIff states its properties |
| Matchers.WithEventArgs | node_modules/chai-truffle/lib/chai-truffle.ts:362-398 | no contract of its own; WithEventArgsUsageErrors, WithEventArgsScansStored, WithEventArgsMissingFirstEntry and EmitEventThenWithEventArgs state its properties |
| MatcherProperties.NonResponseFailsFirst | node_modules/chai-truffle/lib/chai-truffle.ts:227-235 | for a non-response, every event matcher fails with the guard's message, prefixed only by the call's own message, even when negated; only the message flag changes |
| MatcherProperties.TransactionResponsePropertyIff | node_modules/chai-truffle/lib/chai-truffle.ts:333-343 | the property passes exactly when the guard's answer differs from the negation; un-negated, it reports the subject |
| MatcherProperties.EmitEventNamed | node_modules/chai-truffle/lib/chai-truffle.ts:25-53 | `emitEvent(name)` passes exactly when some entry carries the name, xor negated; it gives the exact failure messages; it stores the `logIndex` list and sets negated-before exactly when negated, and only after passing |
| MatcherProperties.EmitEventUnnamed | node_modules/chai-truffle/lib/chai-truffle.ts:55-74 | `emitEvent()` passes exactly when some entry has a name, xor negated. Un-negated it fails with "but none was emitted". Negated it fails with "but event '<name>' was emitted", naming the first entry that has a name. It never stores a list or sets negated-before |
| MatcherProperties.EmitEventAtOutOfRange | node_modules/chai-truffle/lib/chai-truffle.ts:88-97 | past the end, `emitEventAt` fails with "event(s) was emitted" unless negated, and never compares names |
| MatcherProperties.EmitEventAtInRange | node_modules/chai-truffle/lib/chai-truffle.ts:98-111 | in range, it passes exactly when the name at the position matches, xor negated. Un-negated it fails with "but '<event>' was emitted". Negated it fails with "not to emit event ... at position p, but was emitted". Both failures report expected = the name and actual = the entry's event. On passing, it stores `[position]` |
| MatcherProperties.EmitEventAtNegative | node_modules/chai-truffle/lib/chai-truffle.ts:98 | a negative position throws a TypeError from reading `.event`, in both position matchers, for every predicate and whether or not the logs are empty |
| MatcherProperties.MatchedEntriesAreNamed | node_modules/chai-truffle/lib/chai-truffle.ts:128-130 | the entries that `emitEventWithArgs` scans are the named ones: the predicate accepts one of them exactly when it accepts a named entry, and throws on one of them exactly when it throws on a named entry |
| MatcherProperties.EmitEventWithArgsNotEmitted | node_modules/chai-truffle/lib/chai-truffle.ts:132-140 | with no named entry, it fails with "but was not emitted" (it passes negated), and the outcome is the same for every predicate |
| MatcherProperties.EmitEventWithArgsScan | node_modules/chai-truffle/lib/chai-truffle.ts:116-153 | with a named entry, it passes exactly when the predicate accepts some named entry, xor negated. A negated failure says "not to emit event ... with matching argument(s), but was emitted". An un-negated failure ends with the suffix for the latest error thrown on a named entry ("do not match" when none was), with that error's `expected`/`actual` when it is an AssertionError. If no named entry threw, neither failure carries diagnostics |
| MatcherProperties.ScanOfOne | node_modules/chai-truffle/lib/chai-truffle.ts:405-418 | a scan over a single entry matches exactly when the predicate accepts it, and records its error exactly when it threw one |
| MatcherProperties.EmitEventWithArgsAtOutOfRange | node_modules/chai-truffle/lib/chai-truffle.ts:168-177 | first case: past the end, it fails with "event(s) are emitted" unless negated |
| MatcherProperties.EmitEventWithArgsAtWrongEvent | node_modules/chai-truffle/lib/chai-truffle.ts:179-187 | second case: a different event at the position fails with "but was not emitted" unless negated, without calling the predicate |
| MatcherProperties.EmitEventWithArgsAtScan | node_modules/chai-truffle/lib/chai-truffle.ts:189-197 | third case: the predicate on exactly that one entry decides. A false result says "do not match", and a thrown error is quoted with its diagnostics. A negated failure says "not to emit event ... at position p with matching argument(s), but was emitted", with no diagnostics |
| MatcherProperties.EventLengthIff | node_modules/chai-truffle/lib/chai-truffle.ts:205-225 | it passes exactly when the number of entries equals the expected length, xor negated. Un-negated it fails with "but <actual> was emitted". Negated it fails with "not to emit n event log(s)". Both failures report expected = n and actual = the count |
| MatcherProperties.WithEventArgsUsageErrors | node_modules/chai-truffle/lib/chai-truffle.ts:366-375 | with no stored list, the first usage error; after a negated event matcher, the second |
| MatcherProperties.WithEventArgsAfterUnnamedEmitEvent | node_modules/chai-truffle/lib/chai-truffle.ts:32-35 | after `emitEvent()`, `withEventArgs` is the first usage error |
| MatcherProperties.WithEventArgsAfterNegatedEmitEvent | node_modules/chai-truffle/lib/chai-truffle.ts:49-50 | after `.not.emitEvent(name)` passes, `withEventArgs` is the second usage error |
| MatcherProperties.WithEventArgsNeverTypeError | node_modules/chai-truffle/lib/chai-truffle.ts:377-385 | on a valid chain whose `logIndex` values are positions, `withEventArgs` never reads a missing entry |
| MatcherProperties.WithEventArgsScansStored | node_modules/chai-truffle/lib/chai-truffle.ts:377-397 | when allowed (a stored list, no negated event matcher before, and a first stored index that reads an entry), it passes exactly when the predicate accepts the entry at some stored index in range, xor negated. Its failures name the event of the first stored entry: negated, "but not with matching argument(s), but argument(s) match"; un-negated, the scan's "do not match" or quoted-error suffix. Both carry the scan's diagnostics |
| MatcherProperties.WithEventArgsMissingFirstEntry | node_modules/chai-truffle/lib/chai-truffle.ts:380-381 | when allowed but the first stored index reads no entry (an empty list, a negative index or one past the end), it throws a TypeError from reading `.event`, for every predicate |
| MatcherProperties.WithEventArgsOverNamed | node_modules/chai-truffle/lib/chai-truffle.ts:377-392 | un-negated, over the named positions, it is the scan of the named entries, reporting the name |
| MatcherProperties.EmitEventThenWithEventArgs | node_modules/chai-truffle/lib/chai-truffle.ts:362-398 | `emitEvent(name).withEventArgs(f)` gives the same outcome as `emitEventWithArgs(name, f)` when `logIndex` values are positions |
| MatcherProperties.NamedPositionsAccept | node_modules/chai-truffle/lib/chai-truffle.ts:38-40 | the predicate accepts an entry at a named position exactly when it accepts some named entry |
| MatcherProperties.NotWithEventArgsOverNamed | node_modules/chai-truffle/lib/chai-truffle.ts:385-396 | negated, over the named positions, it passes exactly when the predicate accepts no named entry |
| MatcherProperties.EmitEventThenNotWithEventArgs | node_modules/chai-truffle/lib/chai-truffle.ts:362-398 | `emitEvent(name).not.withEventArgs(f)` passes exactly when no named entry is accepted |
| MatcherProperties.StoredLogIndexIsNotAPosition | node_modules/chai-truffle/lib/chai-truffle.ts:38-40 | one entry with `logIndex` 7: `emitEvent` passes and stores `[7]`, and `withEventArgs` then throws a TypeError |
| MatcherProperties.ExpectAndNotValid | node_modules/chai-truffle/lib/chai-truffle.ts:471-473 | a fresh chain satisfies the chain invariant, and `.not` keeps it |
| MatcherProperties.MessageKeepsValid | node_modules/chai-truffle/lib/chai-truffle.ts:492-499 | setting the message keeps the chain invariant |
| MatcherProperties.StoreKeepsValid | node_modules/chai-truffle/lib/chai-truffle.ts:485-505 | storing a list and updating negated-before after a passing event assertion keeps the chain invariant |
| MatcherProperties.EmitEventPreservesValid | node_modules/chai-truffle/lib/chai-truffle.ts:49-50 | `emitEvent` keeps the chain invariant |
| MatcherProperties.EmitEventAtPreservesValid | node_modules/chai-truffle/lib/chai-truffle.ts:110-111 | `emitEventAt` keeps the chain invariant |
| MatcherProperties.ArgsMatchersPreserveValid | node_modules/chai-truffle/lib/chai-truffle.ts:122-124 | the matchers that store nothing keep the chain invariant |
| Evm.AssertIsPromiseLike | node_modules/chai-truffle/lib/chai-truffle.ts:442-453 | no contract of its own; PromiseProbe states its properties |
| Evm.EvmFailSettled | node_modules/chai-truffle/lib/chai-truffle.ts:247-283 | no contract of its own; the two continuations of `evmFail`; EvmFailResolved, EvmFailRejectedAnyReason and EvmFailRejectedWithReason state its properties |
| Evm.EvmFail | node_modules/chai-truffle/lib/chai-truffle.ts:237-287 | no contract of its own; NotPromiseFailsFirst and EvmKeepsFlags state its properties, through EvmFailSettled |
| Evm.EvmInvalidOpcode | node_modules/chai-truffle/lib/chai-truffle.ts:289-291 | no contract of its own; EvmSpecialisations states its properties |
| Evm.EvmOutOfGas | node_modules/chai-truffle/lib/chai-truffle.ts:292-294 | no contract of its own; EvmSpecialisations states its properties |
| Evm.EvmRevert | node_modules/chai-truffle/lib/chai-truffle.ts:296-298 | no contract of its own; EvmSpecialisations states its properties |
| Evm.EvmSuccessSettled | node_modules/chai-truffle/lib/chai-truffle.ts:306-327 | no contract of its own; the two continuations of `evmSuccess`; EvmSuccessOutcomes and EvmSuccessMirrorsEvmFail state its properties |
| Evm.EvmSuccess | node_modules/chai-truffle/lib/chai-truffle.ts:300-331 | no contract of its own; EvmSuccessOutcomes, EvmSuccessMirrorsEvmFail and EvmKeepsFlags state its properties |
| EvmProperties.PromiseProbe | node_modules/chai-truffle/lib/chai-truffle.ts:442-453 | the probe passes exactly on non-nil values with a `then`; with `null` or `undefined` it throws; otherwise it fails reporting the `typeof` |
| EvmProperties.NotPromiseFailsFirst | node_modules/chai-truffle/lib/chai-truffle.ts:244 | a subject that is not promise-like gives the probe's outcome, whatever the promise settles to |
| EvmProperties.EvmFailResolved | node_modules/chai-truffle/lib/chai-truffle.ts:248-258 | a resolved call fails "but it succeeded", reporting the result, unless negated; negated, it passes exactly when the result is a transaction response |
| EvmProperties.EvmFailRejectedAnyReason | node_modules/chai-truffle/lib/chai-truffle.ts:261-270 | a rejected call passes `evmFail()` exactly when not negated |
| EvmProperties.EvmFailRejectedWithReason | node_modules/chai-truffle/lib/chai-truffle.ts:272-281 | a rejection passes `evmFail(reason)` exactly when the error message contains the reason, xor negated; it gives the exact messages and diagnostics |
| EvmProperties.EvmSpecialisations | node_modules/chai-truffle/lib/chai-truffle.ts:289-298 | un-negated, the three shorthands pass exactly on a rejection whose message contains "revert", "out of gas" or "invalid opcode" |
| EvmProperties.EvmSuccessOutcomes | node_modules/chai-truffle/lib/chai-truffle.ts:306-327 | a resolved call is guard-checked, or fails "but it succeeded" when negated; a rejection passes exactly when negated, and otherwise fails reporting the error |
| EvmProperties.EvmSuccessMirrorsEvmFail | node_modules/chai-truffle/lib/chai-truffle.ts:300-331 | `evmSuccess` gives the same verdict and failure message as `evmFail()` with the negation flipped |
| EvmProperties.EvmKeepsFlags | node_modules/chai-truffle/lib/chai-truffle.ts:242 | neither matcher changes a flag other than the message |
| EvmProperties.EvmPreservesValid | node_modules/chai-truffle/lib/chai-truffle.ts:242 | so both keep the chain invariant |
| ChaiTruffle.Assertion.constructor | node_modules/chai-truffle/lib/chai-truffle.ts:227-232 | `new Assertion(value)` starts a fresh, valid chain |
| ChaiTruffle.Assertion.Not | node_modules/chai-truffle/lib/chai-truffle.ts:471-473 | `.not` sets the negation and keeps the chain valid |
| ChaiTruffle.Assertion.SetMessageIfProvided | node_modules/chai-truffle/lib/chai-truffle.ts:492-499 | the message flag is replaced only when a message is given, and the chain invariant is kept |
| ChaiTruffle.Assertion.SetEmitEventLogPositionList | node_modules/chai-truffle/lib/chai-truffle.ts:485-490 | the stored list is replaced |
| ChaiTruffle.Assertion.UpdateNegatedBeforeAssertEmitEvent | node_modules/chai-truffle/lib/chai-truffle.ts:501-505 | negated-before is set exactly when negated |
| ChaiTruffle.Assertion.TransactionResponse | node_modules/chai-truffle/lib/chai-truffle.ts:333-343 | the property, run through the key loop, passes exactly when the guard's answer differs from the negation |
| ChaiTruffle.Assertion.AssertHasEventEmitted | node_modules/chai-truffle/lib/chai-truffle.ts:55-74 | the zero-argument form, as in `Matchers` |
| ChaiTruffle.Assertion.EmitEvent | node_modules/chai-truffle/lib/chai-truffle.ts:25-53 | the in-place `emitEvent` produces the new flags and outcome of the step function, and keeps the chain valid |
| ChaiTruffle.Assertion.EmitEventAt | node_modules/chai-truffle/lib/chai-truffle.ts:76-114 | the same for `emitEventAt` |
| ChaiTruffle.Assertion.AssertEventArgs | node_modules/chai-truffle/lib/chai-truffle.ts:400-440 | the scan loop followed by the assertion passes exactly when some entry is accepted, xor negated |
| ChaiTruffle.Assertion.EmitEventWithArgs | node_modules/chai-truffle/lib/chai-truffle.ts:116-153 | the same for `emitEventWithArgs`, through the scan loop |
| ChaiTruffle.Assertion.EmitEventWithArgsAt | node_modules/chai-truffle/lib/chai-truffle.ts:155-200 | the same for `emitEventWithArgsAt` |
| ChaiTruffle.Assertion.EventLength | node_modules/chai-truffle/lib/chai-truffle.ts:205-225 | the same for `eventLength` |
| ChaiTruffle.Assertion.EventLengthOf | node_modules/chai-truffle/lib/chai-truffle.ts:202-203 | `eventLengthOf` is the same function as `eventLength` |
| ChaiTruffle.Assertion.WithEventArgs | node_modules/chai-truffle/lib/chai-truffle.ts:362-398 | `withEventArgs` changes no flag, and its outcome is the step function's |
| ChaiTruffle.Assertion.EvmFail | node_modules/chai-truffle/lib/chai-truffle.ts:237-287 | `evmFail` on the settled value produces the outcome table's result and keeps the chain valid |
| ChaiTruffle.Assertion.EvmInvalidOpcode | node_modules/chai-truffle/lib/chai-truffle.ts:289-291 | `evmFail("invalid opcode", message)` |
| ChaiTruffle.Assertion.EvmOutOfGas | node_modules/chai-truffle/lib/chai-truffle.ts:292-294 | `evmFail("out of gas", message)` |
| ChaiTruffle.Assertion.EvmRevert | node_modules/chai-truffle/lib/chai-truffle.ts:296-298 | `evmFail("revert", message)` |
| ChaiTruffle.Assertion.EvmSuccess | node_modules/chai-truffle/lib/chai-truffle.ts:300-331 | `evmSuccess` on the settled value produces the outcome table's result |
| ChaiTruffle.AssertIsTransactionResponse | node_modules/chai-truffle/lib/chai-truffle.ts:227-235 | a fresh assertion carrying only the given message passes exactly on transaction responses |
| ChaiTruffle.AssertIsPromiseLike | node_modules/chai-truffle/lib/chai-truffle.ts:442-453 | a fresh assertion passes exactly on promise-like values |
| Scenarios.TwoEventsScenario | node_modules/chai-truffle/lib/chai-truffle.ts:76-114 | entries "A" then "B": `emitEvent("B")` passes; `emitEventAt("A", 1)` fails reporting 'B'; `eventLength(2)` passes; `eventLength(3)` fails reporting 2 |
| Scenarios.MessageEventsScenario | node_modules/chai-truffle/lib/chai-truffle.ts:116-200 | two "MessageEvent" entries: the "World" predicate passes `emitEventWithArgs`; the "Hello" predicate at position 1 fails with "do not match" |
| Scenarios.EvmRevertScenario | node_modules/chai-truffle/lib/chai-truffle.ts:296-298 | a rejection mentioning "revert" passes `evmRevert`; a resolved call fails with "because of 'revert', but it succeeded" |

## Left out

- Promise plumbing: `obj.then(...)`, the rebinding of `this.then`, and the asynchronous timing. The model runs each continuation on a given settled value, `Resolved(v)` or `Rejected(message)`. The flags are the ones present at the call, whereas the source reads them when the promise settles.
- A `then` property that is present but not callable makes `obj.then(...)` throw. The model treats every value that passes the probe as a promise that settles to the given value.
- A rejection with something other than an `Error` (for example a value without `message`) is not modelled; a rejection carries a message string.
- chai itself: `addMethod`/`addProperty` registration, flag storage (modelled as the chain record and the class fields), `#{this}` object inspection (kept as literal template text in the messages), `showDiff`, and the `instanceof chai.AssertionError` test (modelled as a boolean on the thrown value).
- `lib/utils` `isNil` is not part of this model. It is treated as a test for `null`/`undefined`.
- JsValues.Get: reads own properties only. Prototype-chain properties and getters are not modelled.
- Numbers are integers. Fractional, `NaN` and infinite positions or lengths, and their rendering in messages, are not modelled.
- A missing event name is one case, rendered "null" in messages and reported as `null`. An entry whose `event` is `undefined` would render as "undefined" in the source.
- A `logs` field that the guard accepts but that is not an array (`null`, a number, a string, a plain object) is not modelled. The guard only checks that the key is not `undefined`. On such a value the source's `logs.filter`, `logs.find` and `logs[p]` throw a TypeError, and `logs.length` counts characters of a string. The model keeps the entries as a separate sequence, so every subject the guard accepts gets a matcher decision.
- A predicate that throws something other than an `Error` (`null`, a number) is not modelled. With `throw null` the source's `lastError.message` throws a TypeError. `throw undefined` is modelled.
- `null` entries inside `logs`, which `emitEventWithArgs` skips and the other filters would throw on, are not modelled.
- An `undefined` event name passed to `emitEventWithArgs`/`emitEventWithArgsAt` is not modelled; the name is a string.
- The TypeError outcome names the property that was read. The engine's message text is not modelled, except for the `.args` read inside the scan, whose V8 wording becomes the quoted error.
- A predicate's return value is reduced to truthy or falsy.
- A custom message that is not a string is not modelled.
