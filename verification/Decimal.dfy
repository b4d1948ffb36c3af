/** Decimal rendering and parsing of signed 64-bit numbers. */
module Decimal {
  import opened Bytes
  import opened Outcomes

  const Zero: Byte := 48
  const Plus: Byte := 43
  const Minus: Byte := 45

  function Digits(n: nat): (s: Text)
    ensures s != []
  {
    if n < 10 then [Zero + n] else Digits(n / 10) + [Zero + n % 10]
  }

  /** `to_string`. */
  function Render(w: I64): Text {
    if w < 0 then [Minus] + Digits(0 - w) else Digits(w)
  }

  predicate IsDigit(b: Byte) {
    Zero <= b <= Zero + 9
  }

  predicate AllDigits(s: Text) {
    forall i :: 0 <= i < |s| ==> IsDigit(s[i])
  }

  function Value(s: Text): int {
    if s == [] then 0 else 10 * Value(s[..|s| - 1]) + (s[|s| - 1] - Zero)
  }

  /** `parse::<i64>`: an optional sign and at least one digit, within range. */
  function Parse(s: Text): Option<I64> {
    var sign := if s != [] && s[0] == Minus then -1 else 1;
    var digits := if s != [] && (s[0] == Minus || s[0] == Plus) then s[1..] else s;
    if digits == [] || !AllDigits(digits) then None
    else
      var v := sign * Value(digits);
      if MinI64 <= v <= MaxI64 then Some(v) else None
  }

  lemma {:induction false} DigitsValue(n: nat)
    ensures Value(Digits(n)) == n
    ensures forall i :: 0 <= i < |Digits(n)| ==> IsDigit(Digits(n)[i])
  {
    var s := Digits(n);
    if n < 10 {
      assert s[..0] == [] && Value(s[..0]) == 0;
    } else {
      DigitsValue(n / 10);
      assert s[..|s| - 1] == Digits(n / 10);
    }
  }

  lemma ParseRender(w: I64)
    ensures Parse(Render(w)) == Some(w)
  {
    hide Digits, Value;
    if w < 0 {
      DigitsValue(0 - w);
      assert Render(w)[1..] == Digits(0 - w);
    } else {
      DigitsValue(w);
      assert IsDigit(Digits(w)[0]);
    }
  }

  lemma RenderInjective(a: I64, b: I64)
    requires Render(a) == Render(b)
    ensures a == b
  {
    ParseRender(a);
    ParseRender(b);
  }

  /** A plus sign is accepted; an empty text, a lone sign and a number out of range are not. */
  lemma ParseEdges(n: nat)
    ensures Parse([Plus] + Digits(n)) == if n <= MaxI64 then Some(n) else None
    ensures if n <= MaxI64 + 1 then Parse([Minus] + Digits(n)).Some? && Parse([Minus] + Digits(n)).value == 0 - n
            else Parse([Minus] + Digits(n)) == None
    ensures Parse([]) == Parse([Plus]) == Parse([Minus]) == None
  {
    hide Digits, Value;
    DigitsValue(n);
    assert ([Plus] + Digits(n))[1..] == Digits(n) && ([Minus] + Digits(n))[1..] == Digits(n);
    assert [Plus][1..] == [] && [Minus][1..] == [];
  }

  /** A text with anything but digits after its sign is no number. */
  lemma ParseRejects(s: Text, i: nat)
    requires i < |s| && !IsDigit(s[i]) && (i > 0 || (s[0] != Plus && s[0] != Minus))
    ensures Parse(s) == None
  {
    hide Value;
    var digits := if s != [] && (s[0] == Minus || s[0] == Plus) then s[1..] else s;
    var k := if s[0] == Minus || s[0] == Plus then i - 1 else i;
    assert 0 <= k < |digits| && digits[k] == s[i];
    assert !AllDigits(digits);
  }
}
