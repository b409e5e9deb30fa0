/** Two- and three-bit errors (src/iridium_sbd.rs): the powers of x modulo the generator polynomial of the CRC repeat
    after 32767 steps and not before, so two flipped bits that are closer than that never cancel. */
module Period {
  import opened Bytes
  import opened Crc

  /** x to the power n, as a register. */
  function Power(n: nat): bv16 {
    ShiftN(n, 1)
  }

  lemma {:induction false} ShiftNAdd(m: nat, n: nat, x: bv16)
    ensures ShiftN(m + n, x) == ShiftN(n, ShiftN(m, x))
  {
    hide Shift;
    if m > 0 {
      ShiftNAdd(m - 1, n, Shift(x));
    }
  }

  lemma ShiftNNext(n: nat, x: bv16)
    ensures ShiftN(n + 1, x) == Shift(ShiftN(n, x))
  {
    hide Shift;
    ShiftNAdd(n, 1, x);
    OneShift(ShiftN(n, x));
  }

  // ---- Sixteen shifts written out ----

  function Shift4(y: bv16): bv16 {
    Shift(Shift(Shift(Shift(y))))
  }

  lemma FourShifts(y: bv16)
    ensures ShiftN(4, y) == Shift4(y)
  {
    hide Shift;
    ShiftNNext(0, y);
    ShiftNNext(1, y);
    ShiftNNext(2, y);
    ShiftNNext(3, y);
  }

  function Shift16(y: bv16): bv16 {
    Shift4(Shift4(Shift4(Shift4(y))))
  }

  lemma SixteenShifts(y: bv16)
    ensures ShiftN(16, y) == Shift16(y)
  {
    hide ShiftN, Shift4;
    FourShifts(y);
    FourShifts(Shift4(y));
    FourShifts(Shift4(Shift4(y)));
    FourShifts(Shift4(Shift4(Shift4(y))));
    ShiftNAdd(4, 4, y);
    ShiftNAdd(8, 4, y);
    ShiftNAdd(12, 4, y);
  }

  // ---- Squaring ----

  /** The eight low bits, with a zero after each. */
  function Spread(x: bv16): bv16 {
    var y := (x | (x << 4)) & 0x0F0F;
    var z := (y | (y << 2)) & 0x3333;
    (z | (z << 1)) & 0x5555
  }

  /** The square of a polynomial: spread its bits and reduce the upper half. */
  function Square(r: bv16): bv16 {
    Xor(Shift16(Spread(r >> 8)), Spread(r & 0xFF))
  }

  /** The polynomial with upper half h and lower half l, reduced. */
  function Value(h: bv16, l: bv16): bv16 {
    Xor(ShiftN(16, h), l)
  }

  lemma SquareIsValue(r: bv16)
    ensures Square(r) == Value(Spread(r >> 8), Spread(r & 0xFF))
  {
    hide ShiftN, Shift16, Spread, Xor;
    SixteenShifts(Spread(r >> 8));
  }

  lemma Generator()
    ensures ShiftN(16, 1) == 0x1021
  {
    SixteenShifts(1);
    assert Shift16(1) == 0x1021;
  }

  lemma Carry(h: bv16, l: bv16)
    requires h & 0x8000 == 0
    ensures Shift(h) == h << 1
    ensures l & 0x8000 == 0 ==> Shift(l) == l << 1 && (h << 1) | (l >> 15) == h << 1
    ensures l & 0x8000 != 0 ==> Shift(l) == Xor(l << 1, 0x1021) && (h << 1) | (l >> 15) == Xor(h << 1, 1)
  {
  }

  /** Multiplying by x moves a bit from the lower half to the upper one. */
  lemma ValueShift(h: bv16, l: bv16)
    requires h & 0x8000 == 0
    ensures Shift(Value(h, l)) == Value((h << 1) | (l >> 15), l << 1)
  {
    Carry(h, l);
    hide Shift, Xor, ShiftN;
    ShiftLinear(ShiftN(16, h), l);
    ShiftNNext(16, h);
    ShiftNAdd(1, 16, h);
    OneShift(h);
    if l & 0x8000 != 0 {
      ShiftNLinear(16, h << 1, 1);
      Generator();
      XorAssociative(ShiftN(16, h << 1), 0x1021, l << 1);
      XorCommutative(0x1021, l << 1);
    }
  }

  lemma SpreadShift(r: bv16)
    requires r & 0x8000 == 0
    ensures var h, l := Spread(r >> 8), Spread(r & 0xFF); var h1, l1 := (h << 1) | (l >> 15), l << 1;
      && h & 0x8000 == 0 && h1 & 0x8000 == 0
      && (h1 << 1) | (l1 >> 15) == Spread((r << 1) >> 8) && l1 << 1 == Spread((r << 1) & 0xFF)
  {
  }

  lemma SquareShiftClear(r: bv16)
    requires r & 0x8000 == 0
    ensures Square(Shift(r)) == Shift(Shift(Square(r)))
  {
    SpreadShift(r);
    Carry(r, 0);
    hide Shift, Value, Square, Spread;
    var h, l := Spread(r >> 8), Spread(r & 0xFF);
    SquareIsValue(r);
    SquareIsValue(r << 1);
    ValueShift(h, l);
    ValueShift((h << 1) | (l >> 15), l << 1);
  }

  lemma SpreadLinear(x: bv16, y: bv16)
    ensures Spread(Xor(x, y) >> 8) == Xor(Spread(x >> 8), Spread(y >> 8))
    ensures Spread(Xor(x, y) & 0xFF) == Xor(Spread(x & 0xFF), Spread(y & 0xFF))
  {
  }

  lemma Exchange(a: bv16, b: bv16, c: bv16, d: bv16)
    ensures Xor(Xor(a, b), Xor(c, d)) == Xor(Xor(a, c), Xor(b, d))
  {
    hide Xor;
    XorAssociative(a, b, Xor(c, d));
    XorAssociative(b, c, d);
    XorCommutative(b, c);
    XorAssociative(c, b, d);
    XorAssociative(a, c, Xor(b, d));
  }

  lemma SquareLinear(x: bv16, y: bv16)
    ensures Square(Xor(x, y)) == Xor(Square(x), Square(y))
  {
    SpreadLinear(x, y);
    hide Spread, Square, Xor, ShiftN;
    SquareIsValue(x);
    SquareIsValue(y);
    SquareIsValue(Xor(x, y));
    ShiftNLinear(16, Spread(x >> 8), Spread(y >> 8));
    Exchange(ShiftN(16, Spread(x >> 8)), ShiftN(16, Spread(y >> 8)), Spread(x & 0xFF), Spread(y & 0xFF));
  }

  lemma SquareShiftTop()
    ensures Square(Shift(0x8000)) == Shift(Shift(Square(0x8000)))
  {
    assert Shift(0x8000) == 0x1021;
  }

  lemma TopOff(r: bv16)
    requires r & 0x8000 != 0
    ensures Xor(r ^ 0x8000, 0x8000) == r && (r ^ 0x8000) & 0x8000 == 0
  {
  }

  /** Squaring turns a factor x into a factor x squared. */
  lemma SquareShift(r: bv16)
    ensures Square(Shift(r)) == Shift(Shift(Square(r)))
  {
    if r & 0x8000 == 0 {
      SquareShiftClear(r);
    } else {
      TopOff(r);
      hide Square, Shift, Xor;
      var s := r ^ 0x8000;
      SquareShiftClear(s);
      SquareShiftTop();
      ShiftLinear(s, 0x8000);
      SquareLinear(Shift(s), Shift(0x8000));
      SquareLinear(s, 0x8000);
      ShiftLinear(Square(s), Square(0x8000));
      ShiftLinear(Shift(Square(s)), Shift(Square(0x8000)));
    }
  }

  lemma {:induction false} PowerSquare(n: nat)
    ensures Power(2 * n) == Square(Power(n))
  {
    if n == 0 {
      assert Square(1) == 1;
    } else {
      hide Square, Shift, ShiftN;
      PowerSquare(n - 1);
      SquareShift(Power(n - 1));
      ShiftNNext(n - 1, 1);
      ShiftNNext(2 * n - 2, 1);
      ShiftNNext(2 * n - 1, 1);
    }
  }

  lemma Even(n: nat, v: bv16, w: bv16)
    requires Power(n) == v && Square(v) == w
    ensures Power(2 * n) == w
  {
    hide Square, Power;
    PowerSquare(n);
  }

  lemma Odd(n: nat, v: bv16, w: bv16)
    requires Power(n) == v && Shift(Square(v)) == w
    ensures Power(2 * n + 1) == w
  {
    hide Square, Shift, ShiftN;
    PowerSquare(n);
    ShiftNNext(2 * n, 1);
  }

  lemma PowerOne()
    ensures Power(1) == 2
  {
    OneShift(1);
    assert Shift(1) == 2;
  }

  // ---- The powers of the maximal divisors of 32767 = 7 * 31 * 151 ----

  lemma Power217()
    ensures Power(217) == 0x48E3
  {
    PowerOne();
    hide Power;
    Odd(1, 0x0002, 0x0008);
    Even(3, 0x0008, 0x0040);
    Odd(6, 0x0040, 0x2000);
    Odd(13, 0x2000, 0x89A9);
    Even(27, 0x89A9, 0x1168);
    Even(54, 0x1168, 0x3750);
    Odd(108, 0x3750, 0x48E3);
  }

  lemma Power1057()
    ensures Power(1057) == 0xF2AF
  {
    PowerOne();
    hide Power;
    Even(1, 0x0002, 0x0004);
    Even(2, 0x0004, 0x0010);
    Even(4, 0x0010, 0x0100);
    Even(8, 0x0100, 0x1021);
    Odd(16, 0x1021, 0x6E60);
    Even(33, 0x6E60, 0xC1C6);
    Even(66, 0xC1C6, 0x4E8A);
    Even(132, 0x4E8A, 0x5946);
    Even(264, 0x5946, 0x78B3);
    Odd(528, 0x78B3, 0xF2AF);
  }

  lemma Power4681()
    ensures Power(4681) == 0x2C42
  {
    PowerOne();
    hide Power;
    Even(1, 0x0002, 0x0004);
    Even(2, 0x0004, 0x0010);
    Odd(4, 0x0010, 0x0200);
    Even(9, 0x0200, 0x4084);
    Even(18, 0x4084, 0x4363);
    Odd(36, 0x4363, 0x8FA6);
    Even(73, 0x8FA6, 0x4388);
    Even(146, 0x4388, 0x1396);
    Odd(292, 0x1396, 0x4500);
    Even(585, 0x4500, 0x0163);
    Even(1170, 0x0163, 0x0424);
    Odd(2340, 0x0424, 0x2C42);
  }

  lemma Power32767()
    ensures Power(32767) == 1
  {
    PowerOne();
    hide Power;
    Odd(1, 0x0002, 0x0008);
    Odd(3, 0x0008, 0x0080);
    Odd(7, 0x0080, 0x8000);
    Odd(15, 0x8000, 0x1B98);
    Odd(31, 0x1B98, 0xD420);
    Odd(63, 0xD420, 0x577E);
    Odd(127, 0x577E, 0xCF04);
    Odd(255, 0xCF04, 0x09FE);
    Odd(511, 0x09FE, 0x1B62);
    Odd(1023, 0x1B62, 0x7EA8);
    Odd(2047, 0x7EA8, 0x554F);
    Odd(4095, 0x554F, 0x440E);
    Odd(8191, 0x440E, 0x222C);
    Odd(16383, 0x222C, 0x0001);
  }

  /** How many numbers up to n, other than 1, 7, 31 and 151, divide 32767. */
  function OtherDivisors(n: nat): nat {
    if n == 0 then 0
    else if 32767 % n == 0 && n != 1 && n != 7 && n != 31 && n != 151 then 1 + OtherDivisors(n - 1)
    else OtherDivisors(n - 1)
  }

  lemma SmallDivisors()
    ensures OtherDivisors(181) == 0
  {
    assert OtherDivisors(8) == 0;
    assert OtherDivisors(16) == 0;
    assert OtherDivisors(24) == 0;
    assert OtherDivisors(32) == 0;
    assert OtherDivisors(40) == 0;
    assert OtherDivisors(48) == 0;
    assert OtherDivisors(56) == 0;
    assert OtherDivisors(64) == 0;
    assert OtherDivisors(72) == 0;
    assert OtherDivisors(80) == 0;
    assert OtherDivisors(88) == 0;
    assert OtherDivisors(96) == 0;
    assert OtherDivisors(104) == 0;
    assert OtherDivisors(112) == 0;
    assert OtherDivisors(120) == 0;
    assert OtherDivisors(128) == 0;
    assert OtherDivisors(136) == 0;
    assert OtherDivisors(144) == 0;
    assert OtherDivisors(152) == 0;
    assert OtherDivisors(160) == 0;
    assert OtherDivisors(168) == 0;
    assert OtherDivisors(176) == 0;
  }

  lemma {:induction false} SmallDivisor(n: nat, m: nat, q: nat)
    requires OtherDivisors(n) == 0 && 1 <= m <= n && m * q == 32767
    ensures m == 1 || m == 7 || m == 31 || m == 151
  {
    if m < n {
      SmallDivisor(n - 1, m, q);
    } else {
      QuotientUnique(32767, m, q, 0);
    }
  }

  /** A proper divisor of 32767 divides 217, 1057 or 4681. */
  lemma Divisor(m: nat, q: nat) returns (k: nat)
    requires 1 <= m < 32767 && m * q == 32767
    ensures m * k == 217 || m * k == 1057 || m * k == 4681
  {
    hide OtherDivisors;
    SmallDivisors();
    if m <= 181 {
      SmallDivisor(181, m, q);
      k := if m == 1 then 217 else if m == 7 then 31 else 7;
    } else {
      assert q >= 182 ==> m * q >= 182 * 182;
      assert q != 0;
      SmallDivisor(181, q, m);
      k := 1;
    }
  }

  // ---- The period ----

  lemma PowerAdd(m: nat, n: nat)
    requires Power(m) == 1
    ensures Power(m + n) == Power(n)
  {
    ShiftNAdd(m, n, 1);
  }

  lemma {:induction false} PowerMultiple(m: nat, k: nat)
    requires Power(m) == 1
    ensures Power(m * k) == 1
  {
    hide Power;
    if k == 0 {
      PowerZero();
    } else {
      PowerMultiple(m, k - 1);
      PowerAdd(m, m * (k - 1));
      assert m * k == m + m * (k - 1);
    }
  }

  lemma PowerZero()
    ensures Power(0) == 1
  {
  }

  ghost predicate IsPeriod(m: nat) {
    m > 0 && Power(m) == 1
  }

  lemma {:induction false} SmallestPeriod(n: nat) returns (m: nat)
    requires IsPeriod(n)
    ensures IsPeriod(m) && m <= n && forall k :: 0 < k < m ==> Power(k) != 1
  {
    hide Power;
    if k: nat :| 0 < k < n && Power(k) == 1 {
      m := SmallestPeriod(k);
    } else {
      m := n;
    }
  }

  lemma PeriodRemainder(m: nat, n: nat)
    requires IsPeriod(m) && Power(n) == 1
    ensures Power(n % m) == 1 && n == m * (n / m) + n % m
  {
    hide Power;
    PowerMultiple(m, n / m);
    PowerAdd(m * (n / m), n % m);
  }

  lemma NoProperDivisor(m: nat, q: nat)
    requires 1 <= m < 32767 && m * q == 32767
    ensures Power(m) != 1
  {
    hide Power;
    var k := Divisor(m, q);
    Power217();
    Power1057();
    Power4681();
    if Power(m) == 1 {
      PowerMultiple(m, k);
    }
  }

  lemma SmallestDivides(m: nat, n: nat)
    requires IsPeriod(m) && Power(n) == 1 && forall k :: 0 < k < m ==> Power(k) != 1
    ensures n == m * (n / m)
  {
    hide Power;
    PeriodRemainder(m, n);
  }

  lemma NotBefore(n: nat)
    requires 0 < n < 32767
    ensures Power(n) != 1
  {
    hide Power;
    if Power(n) == 1 {
      var m := SmallestPeriod(n);
      Power32767();
      SmallestDivides(m, 32767);
      NoProperDivisor(m, 32767 / m);
    }
  }

  /** The powers of x return to 1 after 32767 steps, and at multiples of that only. */
  lemma PowerIsOneIff(n: nat)
    ensures Power(n) == 1 <==> n % 32767 == 0
  {
    hide Power;
    Power32767();
    PowerMultiple(32767, n / 32767);
    PowerAdd(32767 * (n / 32767), n % 32767);
    PowerZero();
    if n % 32767 != 0 {
      NotBefore(n % 32767);
    }
  }

  // ---- Two flipped bits ----

  lemma {:induction false} FeedZeros(crc: bv16, bits: seq<bool>)
    requires Clear(bits)
    ensures Feed(crc, bits) == ShiftN(|bits|, crc)
    decreases bits
  {
    hide Shift, Xor;
    if bits != [] {
      XorCancels(crc, 0);
      FeedZeros(Shift(crc), bits[1..]);
    }
  }

  lemma TopIsPower()
    ensures Power(15) == 0x8000
  {
    SixteenShifts(1);
    ShiftNNext(15, 1);
    UnshiftShift(ShiftN(15, 1));
    assert Unshift(0x1021) == 0x8000;
    Generator();
  }

  /** The top bit comes back to itself with the period of the powers. */
  lemma TopReturnsIff(n: nat)
    ensures ShiftN(n, 0x8000) == 0x8000 <==> n % 32767 == 0
  {
    hide ShiftN;
    TopIsPower();
    ShiftNAdd(15, n, 1);
    ShiftNAdd(n, 15, 1);
    PowerIsOneIff(n);
    if ShiftN(n, 0x8000) == 0x8000 {
      ShiftNInjective(15, ShiftN(n, 1), 1);
    }
  }

  /** Exactly the bits i and j of t are set. */
  ghost predicate Pair(t: seq<bool>, i: nat, j: nat) {
    i < j < |t| && t[i] && t[j] && Clear(t[..i]) && Clear(t[i + 1..j]) && Clear(t[j + 1..])
  }

  lemma PairParts(t: seq<bool>, i: nat, j: nat)
    requires Pair(t, i, j)
    ensures t == t[..i] + ([true] + (t[i + 1..j] + ([true] + t[j + 1..])))
  {
  }

  lemma FeedTrue(crc: bv16)
    ensures Feed(crc, [true]) == Shift(Xor(crc, 0x8000))
  {
    hide Shift, Xor;
    assert [true][1..] == [];
    assert Feed(Shift(Xor(crc, 0x8000)), []) == Shift(Xor(crc, 0x8000));
  }

  /** Feeding two set bits leaves a zero register at zero exactly when their distance is a multiple of 32767. */
  lemma PairCancelsIff(t: seq<bool>, i: nat, j: nat)
    requires Pair(t, i, j)
    ensures Feed(0, t) == 0 <==> (j - i) % 32767 == 0
  {
    PairParts(t, i, j);
    hide Feed, Shift, Xor, ShiftN, Clear;
    var rest := [true] + t[j + 1..];
    FeedConcat(0, t[..i], [true] + (t[i + 1..j] + rest));
    FeedZeros(0, t[..i]);
    ShiftNZero(i);
    FeedConcat(0, [true], t[i + 1..j] + rest);
    FeedTrue(0);
    XorSelf(0x8000);
    var y := Shift(0x8000);
    FeedConcat(y, t[i + 1..j], rest);
    FeedZeros(y, t[i + 1..j]);
    var z := ShiftN(j - i - 1, y);
    OneShift(0x8000);
    ShiftNAdd(1, j - i - 1, 0x8000);
    assert z == ShiftN(j - i, 0x8000);
    FeedConcat(z, [true], t[j + 1..]);
    FeedTrue(z);
    FeedClear(Shift(Xor(z, 0x8000)), t[j + 1..]);
    ShiftIsZero(Xor(z, 0x8000));
    XorZero(z, 0x8000);
    TopReturnsIff(j - i);
  }

  lemma ShiftIsZero(x: bv16)
    ensures Shift(x) == 0 <==> x == 0
  {
    UnshiftShift(x);
    assert Unshift(0) == 0 && Shift(0) == 0;
  }

  lemma OnlyPair(t: seq<bool>, i: nat, j: nat)
    requires i < j < |t| && t[i] && t[j] && forall k :: 0 <= k < |t| && k != i && k != j ==> !t[k]
    ensures Pair(t, i, j)
  {
  }

  /** Messages that differ in exactly two bits have the same CRC if and only if the distance of the bits is a multiple
      of 32767. */
  lemma TwoBitErrorUndetectedIff(d: seq<byte>, e: seq<byte>, i: nat, j: nat)
    requires |d| == |e| && i < j < 8 * |d|
    requires forall k :: 0 <= k < 8 * |d| ==> (Bits(d)[k] != Bits(e)[k] <==> k == i || k == j)
    ensures Crc.Crc(INIT, d) == Crc.Crc(INIT, e) <==> (j - i) % 32767 == 0
  {
    hide Crc.Crc, Bits, Feed, Xor;
    CrcIsFeed(INIT, d);
    CrcIsFeed(INIT, e);
    FeedDifference(INIT, INIT, Bits(d), Bits(e));
    XorSelf(INIT);
    XorZero(Crc.Crc(INIT, d), Crc.Crc(INIT, e));
    var t := Diff(Bits(d), Bits(e));
    OnlyPair(t, i, j);
    PairCancelsIff(t, i, j);
  }

  /** Two messages of residue zero that agree outside two bits, whose distance is no multiple of 32767, are equal. */
  lemma TwoBitErrorDetected(d: seq<byte>, e: seq<byte>, i: nat, j: nat)
    requires |d| == |e| && i < j < 8 * |d| && (j - i) % 32767 != 0
    requires forall k :: 0 <= k < 8 * |d| && k != i && k != j ==> Bits(d)[k] == Bits(e)[k]
    requires Crc.Crc(INIT, d) == 0 && Crc.Crc(INIT, e) == 0
    ensures d == e
  {
    hide Crc.Crc, Bits;
    var t := Diff(Bits(d), Bits(e));
    if t[i] && t[j] {
      TwoBitErrorUndetectedIff(d, e, i, j);
    } else {
      BurstDetected(d, e, if t[i] then i else j);
    }
  }

  // ---- Three flipped bits ----

  lemma {:induction false} OddWeightAt(t: seq<bool>, i: nat)
    requires i < |t|
    ensures OddWeight(t) == (t[i] != OddWeight(t[i := false]))
  {
    if i == 0 {
      assert t[i := false][1..] == t[1..];
    } else {
      OddWeightAt(t[1..], i - 1);
      assert t[i := false][1..] == t[1..][i - 1 := false];
    }
  }

  lemma {:induction false} OddWeightClear(t: seq<bool>)
    requires Clear(t)
    ensures !OddWeight(t)
  {
    if t != [] {
      OddWeightClear(t[1..]);
    }
  }

  lemma ThreeWeigh(t: seq<bool>, i: nat, j: nat, k: nat)
    requires i < j < k < |t| && forall n :: 0 <= n < |t| && n != i && n != j && n != k ==> !t[n]
    ensures OddWeight(t) == (t[i] != (t[j] != t[k]))
  {
    hide OddWeight;
    var u := t[i := false];
    var v := u[j := false];
    OddWeightAt(t, i);
    OddWeightAt(u, j);
    OddWeightAt(v, k);
    OddWeightClear(v[k := false]);
  }

  /** Two messages of residue zero and at most 4095 bytes that agree outside three bits are equal: any error of up to
      three bits is detected. */
  lemma ThreeBitErrorDetected(d: seq<byte>, e: seq<byte>, i: nat, j: nat, k: nat)
    requires |d| == |e| <= 4095 && i < j < k < 8 * |d|
    requires forall n :: 0 <= n < 8 * |d| && n != i && n != j && n != k ==> Bits(d)[n] == Bits(e)[n]
    requires Crc.Crc(INIT, d) == 0 && Crc.Crc(INIT, e) == 0
    ensures d == e
  {
    hide Crc.Crc, Bits, OddWeight;
    var t := Diff(Bits(d), Bits(e));
    OddErrorDetected(d, e);
    ThreeWeigh(t, i, j, k);
    if !t[i] {
      TwoBitErrorDetected(d, e, j, k);
    } else if !t[j] {
      TwoBitErrorDetected(d, e, i, k);
    } else {
      TwoBitErrorDetected(d, e, i, j);
    }
  }

  // ---- The check value ----

  lemma Eight(crc: bv16, b: byte)
    ensures Absorb(crc, b) == Shift4(Shift4(Xor(crc, High(b))))
  {
    hide Shift4, High, Xor;
    var y := Xor(crc, High(b));
    ShiftNAdd(4, 4, y);
    FourShifts(y);
    FourShifts(Shift4(y));
  }

  lemma OneByte(s: seq<byte>, b: byte)
    ensures Crc.Crc(INIT, s + [b]) == Shift4(Shift4(Xor(Crc.Crc(INIT, s), High(b)))) && Crc.Crc(INIT, []) == INIT
  {
    hide Absorb, Shift4, High;
    assert (s + [b])[..|s|] == s;
    Eight(Crc.Crc(INIT, s), b);
  }

  lemma ThreeDigits()
    ensures Crc.Crc(INIT, [0x31, 0x32, 0x33]) == 0x5BCE
  {
    hide Crc.Crc;
    var s: seq<byte> := [];
    OneByte(s, 0x31);
    s := s + [0x31];
    assert Crc.Crc(INIT, s) == 0xC782;
    OneByte(s, 0x32);
    s := s + [0x32];
    assert Crc.Crc(INIT, s) == 0x3DBA;
    OneByte(s, 0x33);
    s := s + [0x33];
    assert Crc.Crc(INIT, s) == 0x5BCE;
    assert s == [0x31, 0x32, 0x33];
  }

  lemma SixDigits()
    ensures Crc.Crc(INIT, [0x31, 0x32, 0x33, 0x34, 0x35, 0x36]) == 0x2EF4
  {
    hide Crc.Crc;
    ThreeDigits();
    var s: seq<byte> := [0x31, 0x32, 0x33];
    OneByte(s, 0x34);
    s := s + [0x34];
    assert Crc.Crc(INIT, s) == 0x5349;
    OneByte(s, 0x35);
    s := s + [0x35];
    assert Crc.Crc(INIT, s) == 0x4560;
    OneByte(s, 0x36);
    s := s + [0x36];
    assert Crc.Crc(INIT, s) == 0x2EF4;
    assert s == [0x31, 0x32, 0x33, 0x34, 0x35, 0x36];
  }

  /** The CRC of the nine digits "123456789" is the check value published for CRC-16/IBM-3740. */
  lemma CheckValue()
    ensures Crc.Crc(INIT, [0x31, 0x32, 0x33, 0x34, 0x35, 0x36, 0x37, 0x38, 0x39]) == 0x29B1
  {
    hide Crc.Crc;
    SixDigits();
    var s: seq<byte> := [0x31, 0x32, 0x33, 0x34, 0x35, 0x36];
    OneByte(s, 0x37);
    s := s + [0x37];
    assert Crc.Crc(INIT, s) == 0x7718;
    OneByte(s, 0x38);
    s := s + [0x38];
    assert Crc.Crc(INIT, s) == 0xA12B;
    OneByte(s, 0x39);
    s := s + [0x39];
    assert Crc.Crc(INIT, s) == 0x29B1;
    assert s == [0x31, 0x32, 0x33, 0x34, 0x35, 0x36, 0x37, 0x38, 0x39];
  }
}
