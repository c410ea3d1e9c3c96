/** String helpers for the messages the matchers build with template literals:
    decimal rendering of numbers (`${n}`) and `String.prototype.indexOf`. */
module Text {

  function DigitChar(d: nat): char
    requires d < 10
  {
    "0123456789"[d]
  }

  /** Decimal digits of a natural number, as `${n}` renders it. */
  function NatToString(n: nat): (s: string)
    ensures |s| > 0
    ensures forall i :: 0 <= i < |s| ==> '0' <= s[i] <= '9'
    decreases n
  {
    if n < 10 then [DigitChar(n)] else NatToString(n / 10) + [DigitChar(n % 10)]
  }

  /** Decimal rendering of an integer, with a leading minus sign when negative. */
  function IntToString(i: int): (s: string)
    ensures |s| > 0
    ensures (s[0] == '-') <==> i < 0
  {
    if i < 0 then "-" + NatToString(-i) else NatToString(i)
  }

  /** The number a string of decimal digits denotes, most significant digit first. */
  function DigitsValue(s: string): nat
    requires forall i :: 0 <= i < |s| ==> '0' <= s[i] <= '9'
  {
    if |s| == 0 then 0 else 10 * DigitsValue(s[..|s| - 1]) + (s[|s| - 1] as int - '0' as int)
  }

  lemma DigitCharValue(d: nat)
    requires d < 10
    ensures DigitChar(d) as int - '0' as int == d
  {
  }

  /** `NatToString(n)` is the canonical decimal numeral of `n`: its digits denote `n`, and
      it has no leading zero except for `n == 0` itself. */
  lemma {:induction false} NatToStringValue(n: nat)
    ensures DigitsValue(NatToString(n)) == n
    ensures NatToString(n)[0] == '0' <==> n == 0
    decreases n
  {
    var s := NatToString(n);
    if n < 10 {
      DigitCharValue(n);
      assert s[..|s| - 1] == [];
    } else {
      NatToStringValue(n / 10);
      DigitCharValue(n % 10);
      assert s[..|s| - 1] == NatToString(n / 10);
      assert s[0] == NatToString(n / 10)[0];
    }
  }

  /** `IntToString(i)` is `${i}`: for a non-negative `i` the canonical numeral of `i`, for a
      negative one a minus sign followed by the canonical numeral of `-i`. */
  lemma IntToStringValue(i: int)
    ensures var s := IntToString(i);
      && (i >= 0 ==> DigitsValue(s) == i && (s[0] == '0' <==> i == 0))
      && (i < 0 ==> s[0] == '-' && DigitsValue(s[1..]) == -i && s[1] != '0')
  {
    var s := IntToString(i);
    if i < 0 {
      var digits := NatToString(-i);
      NatToStringValue(-i);
      assert s == "-" + digits;
      assert s[1..] == digits;
      assert s[1] == digits[0];
    } else {
      NatToStringValue(i);
      assert s == NatToString(i);
    }
  }

  /** A few renderings the matchers' messages rely on. */
  lemma IntToStringExamples()
    ensures IntToString(0) == "0"
    ensures IntToString(2) == "2"
    ensures IntToString(10) == "10"
    ensures IntToString(-7) == "-7"
  {
    assert NatToString(1) == "1";
    assert NatToString(10) == NatToString(1) + "0";
  }

  /** `sub` occurs in `s` starting at index `i`. */
  predicate OccursAt(s: string, sub: string, i: int)
  {
    0 <= i && i + |sub| <= |s| && s[i..i + |sub|] == sub
  }

  /** The first index at or after `from` where `sub` occurs in `s`, or -1. */
  function IndexOfFrom(s: string, sub: string, from: nat): (r: int)
    ensures r == -1 || (from <= r && OccursAt(s, sub, r))
    ensures forall i :: from <= i && (r == -1 || i < r) ==> !OccursAt(s, sub, i)
    decreases |s| - from
  {
    if from + |sub| > |s| then -1
    else if s[from..from + |sub|] == sub then from
    else IndexOfFrom(s, sub, from + 1)
  }

  /** `s.indexOf(sub)`: the first index where `sub` occurs in `s`, or -1 if it never does. */
  function IndexOf(s: string, sub: string): (r: int)
    ensures r == -1 || OccursAt(s, sub, r)
    ensures forall i :: 0 <= i && (r == -1 || i < r) ==> !OccursAt(s, sub, i)
  {
    IndexOfFrom(s, sub, 0)
  }

  /** `indexOf` finds something exactly when `sub` occurs somewhere in `s`. */
  lemma IndexOfFindsOccurrence(s: string, sub: string)
    ensures IndexOf(s, sub) != -1 <==> exists i :: OccursAt(s, sub, i)
  {
    if IndexOf(s, sub) != -1 {
      assert OccursAt(s, sub, IndexOf(s, sub));
    }
  }
}
