/** JavaScript values as the transaction-response guard sees them, and the guard itself
    (`isTransactionResponse`). */
module JsValues {

  /** A JavaScript value. Objects are maps from own property names to values; a name that
      is absent reads as `undefined`, exactly like one bound to `undefined`. */
  datatype JsValue =
    | Undefined
    | Null
    | Bool(b: bool)
    | Num(n: int)
    | Str(s: string)
    | Function
    | Object(props: map<string, JsValue>)

  /** `isNil`: null or undefined. */
  predicate IsNil(v: JsValue)
  {
    v.Undefined? || v.Null?
  }

  /** The `typeof` operator. Note that `typeof null` is "object". */
  function TypeOf(v: JsValue): string
  {
    match v
    case Undefined => "undefined"
    case Null => "object"
    case Bool(_) => "boolean"
    case Num(_) => "number"
    case Str(_) => "string"
    case Function => "function"
    case Object(_) => "object"
  }

  /** The property read `v[key]` on a value that is not null or undefined. Own properties
      only: the prototype chain is not modelled. */
  function Get(v: JsValue, key: string): JsValue
  {
    if v.Object? && key in v.props then v.props[key] else Undefined
  }

  /** The property is present: reading it does not give `undefined` (a `null` counts). */
  predicate Present(v: JsValue, key: string)
  {
    v.Object? && key in v.props && v.props[key] != Undefined
  }

  const TransactionResponseKeys: seq<string> := ["tx", "receipt", "logs"]

  /** What the guard accepts: a non-null object on which `tx`, `receipt` and `logs`
      are all present. Nothing else about the value is looked at. */
  predicate IsTransactionResponse(v: JsValue)
  {
    v.Object? && Present(v, "tx") && Present(v, "receipt") && Present(v, "logs")
  }

  /** The guard as the source runs it: a `typeof` test, an `isNil` test, then a loop over
      the three keys that returns early on the first one that reads as `undefined`. */
  method CheckTransactionResponse(value: JsValue) returns (r: bool)
    ensures r == IsTransactionResponse(value)
  {
    if TypeOf(value) != "object" {
      return false;
    }
    if IsNil(value) {
      return false;
    }
    var i := 0;
    while i < |TransactionResponseKeys|
      invariant 0 <= i <= |TransactionResponseKeys|
      invariant forall j :: 0 <= j < i ==> Present(value, TransactionResponseKeys[j])
    {
      if TypeOf(Get(value, TransactionResponseKeys[i])) == "undefined" {
        return false;
      }
      i := i + 1;
    }
    assert Present(value, TransactionResponseKeys[0]);
    assert Present(value, TransactionResponseKeys[1]);
    assert Present(value, TransactionResponseKeys[2]);
    return true;
  }

  /** Extra own properties never change the guard's answer. */
  lemma ExtraPropertiesIgnored(v: JsValue, key: string, x: JsValue)
    requires v.Object?
    requires key !in TransactionResponseKeys
    ensures IsTransactionResponse(Object(v.props[key := x])) == IsTransactionResponse(v)
  {
    assert key != "tx" && key != "receipt" && key != "logs";
  }

  /** Values that are not objects, and `null`, are always rejected. */
  lemma NonObjectsRejected(v: JsValue)
    requires TypeOf(v) != "object" || IsNil(v)
    ensures !IsTransactionResponse(v)
  {
  }

  /** The values the guard's test suite rejects: primitives, null, `{}` and the partial
      objects `{tx: null}`, `{receipt: null}`, `{logs: []}`. The suite accepts a real response
      with an extra `status` field; the accepted value here stands in for one, and its `null`
      receipt shows that the guard compares only `typeof` with "undefined". */
  lemma GuardExamples()
    ensures !IsTransactionResponse(Str("Hello World"))
    ensures !IsTransactionResponse(Num(1000))
    ensures !IsTransactionResponse(Null)
    ensures !IsTransactionResponse(Object(map[]))
    ensures !IsTransactionResponse(Object(map["tx" := Null]))
    ensures !IsTransactionResponse(Object(map["receipt" := Null]))
    ensures !IsTransactionResponse(Object(map["logs" := Object(map[])]))
    ensures IsTransactionResponse(Object(map["tx" := Str("0x1"), "receipt" := Null,
                                             "logs" := Object(map[]), "status" := Bool(true)]))
  {
  }
}
