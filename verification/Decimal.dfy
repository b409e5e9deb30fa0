/** Decimal text of signed 64-bit integers, as Rust's formatter writes it and its parser reads it. */
module Decimal {
  import opened Bytes

  const MINUS: byte := 0x2D
  const PLUS: byte := 0x2B

  function DigitChar(d: int): byte
    requires 0 <= d < 10
  {
    0x30 + d
  }

  predicate IsDigit(c: byte) {
    0x30 <= c <= 0x39
  }

  function Digits(n: nat): (t: seq<byte>)
    ensures |t| > 0
  {
    if n < 10 then [DigitChar(n)] else Digits(n / 10) + [DigitChar(n % 10)]
  }

  function Print(x: int): seq<byte> {
    if x < 0 then [MINUS] + Digits(-x) else Digits(x)
  }

  predicate InRange(x: int) {
    -TWO63 <= x < TWO63
  }

  function Negated(x: int, negative: bool): int {
    if negative then -x else x
  }

  /** Digits are accumulated upwards or downwards, with an overflow check at each. */
  function Accumulate(t: seq<byte>, negative: bool): (r: Option<i64>)
  {
    if t == [] then Some(0)
    else
      match Accumulate(t[..|t| - 1], negative)
      case None => None
      case Some(a) =>
        var c := t[|t| - 1];
        var d := c as int - 0x30;
        var v := 10 * a + Negated(d, negative);
        if IsDigit(c) && InRange(v) then Some(v) else None
  }

  /** One leading sign is allowed, and there must be a digit. */
  function Parse(t: seq<byte>): Option<i64> {
    if t == [] then None
    else if t[0] == PLUS || t[0] == MINUS then
      if |t| == 1 then None else Accumulate(t[1..], t[0] == MINUS)
    else Accumulate(t, false)
  }

  function Power(k: nat): nat {
    if k == 0 then 1 else 10 * Power(k - 1)
  }

  lemma {:induction false} PowerPositive(k: nat)
    ensures Power(k) >= 1
  {
    if k > 0 {
      PowerPositive(k - 1);
    }
  }

  /** Place k from the right is the digit of 10^k. */
  lemma {:induction false} DigitAt(n: nat, k: nat)
    requires k < |Digits(n)|
    ensures Power(k) >= 1 && Digits(n)[|Digits(n)| - 1 - k] == 0x30 + n / Power(k) % 10
  {
    PowerPositive(k);
    if k > 0 {
      DigitAt(n / 10, k - 1);
      Quotients(n, Power(k - 1));
    }
  }

  lemma Quotients(n: nat, p: nat)
    requires p >= 1
    ensures n / (10 * p) == n / 10 / p
  {
    var q: int, r: int := n / 10 / p, n / 10 % p;
    assert n / 10 == q * p + r;
    assert n == q * (10 * p) + (10 * r + n % 10);
    QuotientUnique(n, 10 * p, q, 10 * r + n % 10);
  }

  // ---- Reading back what was printed ----

  lemma {:induction false} AccumulateDigits(n: nat, negative: bool)
    requires InRange(Negated(n, negative))
    ensures Accumulate(Digits(n), negative) == Some(Negated(n, negative))
  {
    if n < 10 {
      assert [DigitChar(n)][..0] == [];
    } else {
      AccumulateDigits(n / 10, negative);
      var t := Digits(n);
      assert t[..|t| - 1] == Digits(n / 10) && t[|t| - 1] == DigitChar(n % 10);
    }
  }

  lemma {:induction false} FirstDigit(n: nat)
    ensures IsDigit(Digits(n)[0]) && (Digits(n)[0] == 0x30 <==> n == 0)
    ensures n >= 10 ==> |Digits(n)| > 1
  {
    if n >= 10 {
      FirstDigit(n / 10);
    }
  }

  /** Every 64-bit integer reads back, the most negative one included. */
  lemma ParsePrint(x: i64)
    ensures Parse(Print(x)) == Some(x)
  {
    hide Digits, Accumulate;
    FirstDigit(Magnitude(x));
    AccumulateDigits(Magnitude(x), x < 0);
    if x < 0 {
      assert Print(x)[1..] == Digits(Magnitude(x));
    }
  }

  // ---- What is read ----

  /** The number that digits spell. */
  function Value(t: seq<byte>): (v: int)
    requires forall i :: 0 <= i < |t| ==> IsDigit(t[i])
    ensures v >= 0
  {
    if t == [] then 0
    else
      assert IsDigit(t[|t| - 1]);
      10 * Value(t[..|t| - 1]) + (t[|t| - 1] as int - 0x30)
  }

  /** Checking for overflow at every digit comes to checking the number. */
  lemma {:induction false} AccumulateIs(t: seq<byte>, negative: bool)
    ensures Accumulate(t, negative) ==
      if (forall i :: 0 <= i < |t| ==> IsDigit(t[i])) && InRange(Negated(Value(t), negative))
      then Some(Negated(Value(t), negative)) else None
  {
    if t != [] {
      AccumulateIs(t[..|t| - 1], negative);
    }
  }

  /** A text is read exactly when it is one or more digits, behind at most one sign, whose number is in range. */
  lemma ParseIff(t: seq<byte>)
    ensures var signed := t != [] && (t[0] == '+' as int || t[0] == '-' as int);
      var d := if signed then t[1..] else t;
      var negative := signed && t[0] == '-' as int;
      Parse(t) ==
        if d != [] && (forall i :: 0 <= i < |d| ==> '0' as int <= d[i] <= '9' as int)
           && -TWO63 <= (if negative then -Value(d) else Value(d)) < TWO63
        then Some(if negative then -Value(d) else Value(d)) else None
  {
    hide Accumulate, Value;
    if t != [] {
      AccumulateIs(t, false);
      AccumulateIs(t[1..], t[0] == MINUS);
    }
  }

  // ---- Printing what was read ----

  /** No plus sign, no leading zero, no negative zero. */
  predicate Canonical(t: seq<byte>) {
    && t != [] && t[0] != PLUS
    && var d := if t[0] == MINUS then t[1..] else t;
       d != [] && (d[0] == 0x30 ==> t == [0x30])
  }

  function Magnitude(x: int): nat {
    if x < 0 then -x else x
  }

  lemma {:induction false} DigitsOfAccumulated(t: seq<byte>, negative: bool)
    requires t != [] && Accumulate(t, negative).Some? && (t[0] == 0x30 ==> |t| == 1)
    ensures var a := Accumulate(t, negative).value;
      Digits(Magnitude(a)) == t && (negative ==> a <= 0) && (!negative ==> a >= 0)
  {
    var k := |t| - 1;
    if k == 0 {
      assert t[..0] == [];
    } else {
      DigitsOfAccumulated(t[..k], negative);
      var a := Accumulate(t[..k], negative).value;
      FirstDigit(Magnitude(a));
      assert t == t[..k] + [t[k]];
      hide Digits;
      var d := t[k] as int - 0x30;
      assert a != 0;
      assert Magnitude(10 * a + Negated(d, negative)) == 10 * Magnitude(a) + d;
      DigitsSnoc(Magnitude(a), d);
    }
  }

  lemma DigitsSnoc(n: nat, d: nat)
    requires n > 0 && d < 10
    ensures Digits(10 * n + d) == Digits(n) + [DigitChar(d)]
  {
  }

  /** A text that parses is what printing its value gives exactly when it is canonical. */
  lemma PrintParse(t: seq<byte>)
    requires Parse(t).Some?
    ensures Print(Parse(t).value) == t <==> Canonical(t)
  {
    hide Digits, Accumulate;
    var x := Parse(t).value;
    PrintCanonical(x);
    if Canonical(t) {
      if t[0] == MINUS {
        DigitsOfAccumulated(t[1..], true);
        FirstDigit(Magnitude(x));
        assert t == [MINUS] + t[1..];
      } else {
        DigitsOfAccumulated(t, false);
      }
    }
  }

  lemma PrintCanonical(x: int)
    ensures Canonical(Print(x))
  {
    FirstDigit(Magnitude(x));
    if x < 0 {
      assert Print(x)[1..] == Digits(-x);
    }
  }
}
