/** Concrete chains over small transaction responses, as the plugin's test suite uses them. */
module Scenarios {
  import opened Wrappers
  import Text
  import MatcherProperties
  import EvmProperties
  import opened JsValues
  import opened Host
  import opened Logs
  import opened ArgsScan
  import opened Matchers
  import opened Evm

  const Response: JsValue := Object(map["tx" := Str("0x1"), "receipt" := Object(map[]), "logs" := Object(map[])])

  /** Two entries, "A" at position 0 and "B" at position 1. */
  const TwoEvents: Subject := Subject(Response, [EventLog(Some("A"), 0, map[]), EventLog(Some("B"), 1, map[])])

  lemma TwoEventsScenario()
    ensures EmitEvent(Expect(TwoEvents, None), Some("B"), None).outcome == Pass
    ensures EmitEventAt(Expect(TwoEvents, None), "A", 1, None).outcome
            == AssertionFailed(WrongEventAtMessage("A", 1, Some("B")), Str("A"), Str("B"))
    ensures EventLength(Expect(TwoEvents, None), 2, None).outcome == Pass
    ensures EventLength(Expect(TwoEvents, None), 3, None).outcome
            == AssertionFailed(EventLengthMessage(3, 2), Num(3), Num(2))
  {
    var c := Expect(TwoEvents, None);
    assert IsTransactionResponse(Response);
    assert Named(TwoEvents.logs[1], "B");
    MatcherProperties.EmitEventNamed(c, "B", None);
    MatcherProperties.EmitEventAtInRange(c, "A", 1, None);
    MatcherProperties.EventLengthIff(c, 2, None);
    MatcherProperties.EventLengthIff(c, 3, None);
  }

  /** Two "MessageEvent" entries carrying `message` "Hello" and "World". */
  const MessageEvents: Subject :=
    Subject(Response, [EventLog(Some("MessageEvent"), 0, map["message" := Str("Hello")]),
                       EventLog(Some("MessageEvent"), 1, map["message" := Str("World")])])

  function MessageIs(text: string): ArgsPredicate
  {
    (args: Args) => if "message" in args && args["message"] == Str(text) then Truthy else Falsy
  }

  lemma MessageEventsScenario()
    ensures EmitEventWithArgs(Expect(MessageEvents, None), "MessageEvent", MessageIs("World"), None).outcome == Pass
    ensures EmitEventWithArgsAt(Expect(MessageEvents, None), "MessageEvent", MessageIs("Hello"), 1, None).outcome
            == AssertionFailed(WithArgsAtPrefix("MessageEvent", 1) + ", but argument(s) do not match", Undefined, Undefined)
  {
    var logs := MessageEvents.logs;
    assert IsTransactionResponse(Response);
    assert Named(logs[1], "MessageEvent");
    assert MessageIs("World")(logs[1].args) == Truthy;
    assert MessageIs("Hello")(logs[1].args) == Falsy;
    MatcherProperties.EmitEventWithArgsScan(Expect(MessageEvents, None), "MessageEvent", MessageIs("World"), None);
    MatcherProperties.EmitEventWithArgsAtScan(Expect(MessageEvents, None), "MessageEvent", MessageIs("Hello"), 1, None);
  }

  /** A rejection mentioning "revert" satisfies `evmRevert`; a resolved call does not. */
  lemma EvmRevertScenario(promise: JsValue)
    requires promise.Object? && Get(promise, "then") == Function
    ensures EvmRevert(Expect(Subject(promise, []), None), Rejected("VM Exception: revert"), None).outcome == Pass
    ensures EvmRevert(Expect(Subject(promise, []), None), Resolved(Response), None).outcome
            == AssertionFailed(FailedMessage(Some("revert")), Undefined, Response)
  {
    var c := Expect(Subject(promise, []), None);
    var error := "VM Exception: revert";
    assert error[14..20] == "revert";
    assert Text.OccursAt(error, "revert", 14);
    EvmProperties.EvmSpecialisations(c, Rejected(error), None);
    EvmProperties.EvmFailResolved(c, Response, Some("revert"), None);
  }
}
