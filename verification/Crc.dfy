/** CRC-16 with polynomial 0x1021 and initial register 0xFFFF (src/iridium_sbd.rs; CRC-16/IBM-3740
    in src/inmarsat_c.rs), and what it detects. */
module Crc {
  import opened Bytes

  const INIT: bv16 := 0xFFFF

  function Xor(x: bv16, y: bv16): bv16 {
    x ^ y
  }

  /** One turn of the inner loop. */
  function Shift(crc: bv16): bv16 {
    if crc & 0x8000 != 0 then Xor(crc << 1, 0x1021) else crc << 1
  }

  function ShiftN(n: nat, crc: bv16): bv16 {
    if n == 0 then crc else ShiftN(n - 1, Shift(crc))
  }

  /** A byte in the upper half of the register. */
  function High(b: byte): bv16 {
    (ToBits(b) as bv16) << 8
  }

  function Low(b: byte): bv16 {
    ToBits(b) as bv16
  }

  function Absorb(crc: bv16, b: byte): bv16 {
    ShiftN(8, Xor(crc, High(b)))
  }

  function Crc(crc: bv16, data: seq<byte>): bv16 {
    if data == [] then crc else Absorb(Crc(crc, data[..|data| - 1]), data[|data| - 1])
  }

  /** `crc16_ccitt_continue`. */
  method Continue(start: bv16, data: seq<byte>) returns (crc: bv16)
    ensures crc == Crc(start, data)
  {
    crc := start;
    for i := 0 to |data|
      invariant crc == Crc(start, data[..i])
    {
      crc := Xor(crc, High(data[i]));
      ghost var loaded := crc;
      for k := 0 to 8
        invariant ShiftN(8 - k, crc) == ShiftN(8, loaded)
      {
        if crc & 0x8000 != 0 {
          crc := Xor(crc << 1, 0x1021);
        } else {
          crc := crc << 1;
        }
      }
      assert data[..i + 1][..i] == data[..i];
    }
    assert data[..|data|] == data;
  }

  /** Chaining a header and a payload is one CRC over their concatenation. */
  lemma {:induction false} Chained(crc: bv16, header: seq<byte>, payload: seq<byte>)
    ensures Crc(Crc(crc, header), payload) == Crc(crc, header + payload)
  {
    if payload == [] {
      assert header + payload == header;
    } else {
      var k := |payload| - 1;
      Chained(crc, header, payload[..k]);
      assert (header + payload)[..|header + payload| - 1] == header + payload[..k];
    }
  }

  // ---- The register as a vector space over GF(2) ----

  lemma XorAssociative(x: bv16, y: bv16, z: bv16)
    ensures Xor(Xor(x, y), z) == Xor(x, Xor(y, z))
  {
  }

  lemma XorCommutative(x: bv16, y: bv16)
    ensures Xor(x, y) == Xor(y, x)
  {
  }

  lemma XorCancels(x: bv16, y: bv16)
    ensures Xor(Xor(x, y), y) == x
    ensures Xor(x, 0) == x
  {
  }

  lemma XorSelf(x: bv16)
    ensures Xor(x, x) == 0 && Xor(0, x) == x
  {
  }

  lemma XorZero(x: bv16, y: bv16)
    ensures Xor(x, y) == 0 <==> x == y
  {
    hide Xor;
    XorCancels(x, y);
    XorSelf(y);
  }

  lemma LinearBothSet(x: bv16, y: bv16)
    requires x & 0x8000 != 0 && y & 0x8000 != 0
    ensures Shift(Xor(x, y)) == Xor(Shift(x), Shift(y))
  {
  }

  lemma LinearOneSet(x: bv16, y: bv16)
    requires x & 0x8000 != 0 && y & 0x8000 == 0
    ensures Shift(Xor(x, y)) == Xor(Shift(x), Shift(y))
  {
  }

  lemma LinearNoneSet(x: bv16, y: bv16)
    requires x & 0x8000 == 0 && y & 0x8000 == 0
    ensures Shift(Xor(x, y)) == Xor(Shift(x), Shift(y))
  {
  }

  lemma ShiftLinear(x: bv16, y: bv16)
    ensures Shift(Xor(x, y)) == Xor(Shift(x), Shift(y))
  {
    if x & 0x8000 != 0 && y & 0x8000 != 0 {
      LinearBothSet(x, y);
    } else if x & 0x8000 != 0 {
      LinearOneSet(x, y);
    } else if y & 0x8000 != 0 {
      LinearOneSet(y, x);
      XorCommutative(x, y);
      XorCommutative(Shift(x), Shift(y));
    } else {
      LinearNoneSet(x, y);
    }
  }

  lemma {:induction false} ShiftNLinear(n: nat, x: bv16, y: bv16)
    ensures ShiftN(n, Xor(x, y)) == Xor(ShiftN(n, x), ShiftN(n, y))
  {
    if n > 0 {
      ShiftLinear(x, y);
      ShiftNLinear(n - 1, Shift(x), Shift(y));
    }
  }

  function Unshift(crc: bv16): bv16 {
    if crc & 1 != 0 then (Xor(crc, 0x1021) >> 1) | 0x8000 else crc >> 1
  }

  lemma OddAfterShift(x: bv16)
    requires x & 0x8000 != 0
    ensures ((x << 1) ^ 0x1021) & 1 == 1
    ensures ((((x << 1) ^ 0x1021) ^ 0x1021) >> 1) | 0x8000 == x
  {
  }

  lemma EvenAfterShift(x: bv16)
    requires x & 0x8000 == 0
    ensures (x << 1) & 1 == 0
    ensures (x << 1) >> 1 == x
  {
  }

  /** One turn of the loop loses nothing: the register before it can be recovered. */
  lemma UnshiftShift(x: bv16)
    ensures Unshift(Shift(x)) == x
  {
    if x & 0x8000 != 0 {
      OddAfterShift(x);
    } else {
      EvenAfterShift(x);
    }
  }

  lemma {:induction false} ShiftNInjective(n: nat, x: bv16, y: bv16)
    requires ShiftN(n, x) == ShiftN(n, y)
    ensures x == y
  {
    if n > 0 {
      ShiftNInjective(n - 1, Shift(x), Shift(y));
      UnshiftShift(x);
      UnshiftShift(y);
    }
  }

  /** Absorbing the same bytes keeps different registers different. */
  lemma {:induction false} CrcInjective(x: bv16, y: bv16, data: seq<byte>)
    requires Crc(x, data) == Crc(y, data)
    ensures x == y
  {
    if data != [] {
      var k := |data| - 1;
      var h := High(data[k]);
      ShiftNInjective(8, Xor(Crc(x, data[..k]), h), Xor(Crc(y, data[..k]), h));
      XorCancels(Crc(x, data[..k]), h);
      XorCancels(Crc(y, data[..k]), h);
      CrcInjective(x, y, data[..k]);
    }
  }

  // ---- Acceptance is a zero residue ----

  lemma ShiftLow(x: bv16)
    requires x & 0xFF00 == 0
    ensures ShiftN(8, x) == x << 8
  {
    LowByteSteps(x);
    assert ShiftN(8, x) == ShiftN(7, x << 1) == ShiftN(6, x << 2) == ShiftN(5, x << 3);
    assert ShiftN(5, x << 3) == ShiftN(4, x << 4) == ShiftN(3, x << 5);
    assert ShiftN(3, x << 5) == ShiftN(2, x << 6) == ShiftN(1, x << 7) == x << 8;
  }

  lemma LowByteSteps(x: bv16)
    requires x & 0xFF00 == 0
    ensures Shift(x) == x << 1 && Shift(x << 1) == x << 2 && Shift(x << 2) == x << 3
    ensures Shift(x << 3) == x << 4 && Shift(x << 4) == x << 5 && Shift(x << 5) == x << 6
    ensures Shift(x << 6) == x << 7 && Shift(x << 7) == x << 8
  {
  }

  /** The word that two trailing bytes carry (`u16::from_be_bytes`). */
  function Word(hi: byte, lo: byte): bv16 {
    Xor(High(hi), Low(lo))
  }

  lemma {:induction false} ShiftNZero(n: nat)
    ensures ShiftN(n, 0) == 0
  {
    if n > 0 {
      assert Shift(0) == 0;
      ShiftNZero(n - 1);
    }
  }

  lemma OctetFits(x: bv8)
    ensures (x as bv16) & 0xFF00 == 0
  {
  }

  lemma LowFits(b: byte)
    ensures Low(b) & 0xFF00 == 0 && Low(b) << 8 == High(b)
  {
    hide ToBits;
    OctetFits(ToBits(b));
  }

  lemma ZeroWord()
    ensures High(0) == 0 && Low(0) == 0 && Word(0, 0) == 0
  {
    assert ToBits(0) == 0;
    hide ToBits;
    XorSelf(0);
  }

  /** Zero bytes leave a zero register at zero. */
  lemma {:induction false} ZeroDataKeepsZero(n: nat)
    ensures Crc(0, seq(n, _ => 0)) == 0
  {
    hide High, ShiftN, Xor;
    if n > 0 {
      ZeroDataKeepsZero(n - 1);
      assert seq<byte>(n, _ => 0)[..n - 1] == seq<byte>(n - 1, _ => 0);
      ZeroWord();
      XorSelf(0);
      ShiftNZero(8);
    }
  }

  /** Two bytes bring the register to zero exactly when they spell the register out. */
  lemma TwoBytesCancel(crc: bv16, hi: byte, lo: byte)
    ensures Absorb(Absorb(crc, hi), lo) == 0 <==> crc == Word(hi, lo)
  {
    hide Xor, High, Low, ShiftN;
    var y := Xor(Xor(crc, High(hi)), Low(lo));
    BothAbsorbed(crc, hi, lo);
    ShiftNZero(8);
    if ShiftN(8, ShiftN(8, y)) == 0 {
      ShiftNInjective(8, ShiftN(8, y), 0);
      ShiftNInjective(8, y, 0);
    }
    XorAssociative(crc, High(hi), Low(lo));
    XorZero(crc, Word(hi, lo));
  }

  lemma LowShifted(b: byte)
    ensures ShiftN(8, Low(b)) == High(b)
  {
    LowFits(b);
    hide Low, High, ShiftN;
    ShiftLow(Low(b));
  }

  lemma BothAbsorbed(crc: bv16, hi: byte, lo: byte)
    ensures Absorb(Absorb(crc, hi), lo) == ShiftN(8, ShiftN(8, Xor(Xor(crc, High(hi)), Low(lo))))
  {
    hide Xor, High, Low, ShiftN;
    LowShifted(lo);
    ShiftNLinear(8, Xor(crc, High(hi)), Low(lo));
  }

  /** A trailing big-endian checksum matches exactly when the residue of the whole frame is zero. */
  lemma ResidueIsChecksum(crc: bv16, data: seq<byte>, hi: byte, lo: byte)
    ensures Crc(crc, data + [hi, lo]) == 0 <==> Crc(crc, data) == Word(hi, lo)
  {
    var d := data + [hi, lo];
    assert d[..|d| - 1] == data + [hi];
    assert (data + [hi])[..|data|] == data;
    TwoBytesCancel(Crc(crc, data), hi, lo);
  }

  // ---- Words as two bytes ----

  function HighBits(c: bv16): bv8 {
    (c >> 8) as bv8
  }

  function LowBits(c: bv16): bv8 {
    (c & 0xFF) as bv8
  }

  function HighByte(c: bv16): byte {
    FromBits(HighBits(c))
  }

  function LowByte(c: bv16): byte {
    FromBits(LowBits(c))
  }

  lemma WordHalves(c: bv16)
    ensures Xor((HighBits(c) as bv16) << 8, LowBits(c) as bv16) == c
  {
  }

  /** Writing a checksum big-endian and reading it back. */
  lemma WordOfBytes(c: bv16)
    ensures Word(HighByte(c), LowByte(c)) == c
  {
    hide HighBits, LowBits, FromBits, ToBits, Xor;
    BitsRoundTrip(HighBits(c));
    BitsRoundTrip(LowBits(c));
    WordHalves(c);
  }

  lemma HalvesOfWord(x: bv8, y: bv8)
    ensures var w := Xor((x as bv16) << 8, y as bv16); HighBits(w) == x && LowBits(w) == y
  {
  }

  lemma BytesOfWord(hi: byte, lo: byte)
    ensures HighByte(Word(hi, lo)) == hi && LowByte(Word(hi, lo)) == lo
  {
    hide HighBits, LowBits, FromBits, ToBits, Xor;
    HalvesOfWord(ToBits(hi), ToBits(lo));
    ByteRoundTrip(hi);
    ByteRoundTrip(lo);
  }

  /** Exactly one pair of bytes spells a word. */
  lemma SpellsWord(c: bv16, hi: byte, lo: byte)
    ensures c == Word(hi, lo) <==> hi == HighByte(c) && lo == LowByte(c)
  {
    WordOfBytes(c);
    BytesOfWord(hi, lo);
  }

  // ---- The same register fed bit by bit ----

  function Top(b: bool): bv16 {
    if b then 0x8000 else 0
  }

  function Feed(crc: bv16, bits: seq<bool>): bv16
    decreases bits
  {
    if bits == [] then crc else Feed(Shift(Xor(crc, Top(bits[0]))), bits[1..])
  }

  function TopBits(n: nat, x: bv16): (s: seq<bool>)
    ensures |s| == n
  {
    if n == 0 then [] else [x & 0x8000 != 0] + TopBits(n - 1, x << 1)
  }

  /** A frame as the bits of its bytes, most significant first. */
  function Bits(data: seq<byte>): (s: seq<bool>)
    ensures |s| == 8 * |data|
  {
    if data == [] then [] else Bits(data[..|data| - 1]) + TopBits(8, High(data[|data| - 1]))
  }

  predicate Spent(n: nat, x: bv16) {
    if n == 0 then x == 0 else Spent(n - 1, x << 1)
  }

  lemma SplitTopSet(x: bv16)
    requires x & 0x8000 != 0
    ensures Xor(0x8000, x ^ 0x8000) == x && Shift(x ^ 0x8000) == x << 1
  {
  }

  lemma SplitTopClear(x: bv16)
    requires x & 0x8000 == 0
    ensures Xor(0, x) == x && Shift(x) == x << 1
  {
  }

  lemma {:induction false} FeedTopBits(n: nat, crc: bv16, x: bv16)
    requires Spent(n, x)
    ensures ShiftN(n, Xor(crc, x)) == Feed(crc, TopBits(n, x))
  {
    if n == 0 {
      XorCancels(crc, x);
    } else {
      var t := Top(x & 0x8000 != 0);
      var rest := if x & 0x8000 != 0 then x ^ 0x8000 else x;
      if x & 0x8000 != 0 { SplitTopSet(x); } else { SplitTopClear(x); }
      XorAssociative(crc, t, rest);
      ShiftLinear(Xor(crc, t), rest);
      FeedTopBits(n - 1, Shift(Xor(crc, t)), x << 1);
      assert TopBits(n, x)[1..] == TopBits(n - 1, x << 1);
    }
  }

  lemma EightShiftsEmpty(x: bv8)
    ensures (x as bv16) << 8 << 1 << 1 << 1 << 1 << 1 << 1 << 1 << 1 == 0
  {
  }

  lemma HighIsSpent(b: byte)
    ensures Spent(8, High(b))
  {
    var x := High(b);
    EightShiftsEmpty(ToBits(b));
    assert Spent(0, x << 1 << 1 << 1 << 1 << 1 << 1 << 1 << 1);
    assert Spent(2, x << 1 << 1 << 1 << 1 << 1 << 1);
    assert Spent(4, x << 1 << 1 << 1 << 1);
    assert Spent(6, x << 1 << 1);
  }

  lemma {:induction false} FeedConcat(crc: bv16, u: seq<bool>, v: seq<bool>)
    ensures Feed(crc, u + v) == Feed(Feed(crc, u), v)
    decreases u
  {
    if u == [] {
      assert u + v == v;
    } else {
      assert (u + v)[1..] == u[1..] + v;
      FeedConcat(Shift(Xor(crc, Top(u[0]))), u[1..], v);
    }
  }

  /** The byte loop and the bit-serial register agree. */
  lemma {:induction false} CrcIsFeed(crc: bv16, data: seq<byte>)
    ensures Crc(crc, data) == Feed(crc, Bits(data))
  {
    if data != [] {
      var k := |data| - 1;
      CrcIsFeed(crc, data[..k]);
      HighIsSpent(data[k]);
      FeedTopBits(8, Crc(crc, data[..k]), High(data[k]));
      FeedConcat(crc, Bits(data[..k]), TopBits(8, High(data[k])));
    }
  }

  /** The positions in which two bit strings differ. */
  function Diff(u: seq<bool>, v: seq<bool>): (d: seq<bool>)
    requires |u| == |v|
    ensures |d| == |u|
    ensures forall i :: 0 <= i < |d| ==> d[i] == (u[i] != v[i])
  {
    seq(|u|, i requires 0 <= i < |u| => u[i] != v[i])
  }

  /** The registers of two inputs differ by what the difference of the inputs leaves from zero. */
  lemma {:induction false} FeedDifference(x: bv16, y: bv16, u: seq<bool>, v: seq<bool>)
    requires |u| == |v|
    ensures Xor(Feed(x, u), Feed(y, v)) == Feed(Xor(x, y), Diff(u, v))
    decreases u
  {
    if u != [] {
      var a, b := Top(u[0]), Top(v[0]);
      var d := Diff(u, v);
      assert d[1..] == Diff(u[1..], v[1..]);
      FeedDifference(Shift(Xor(x, a)), Shift(Xor(y, b)), u[1..], v[1..]);
      ShiftLinear(Xor(x, a), Xor(y, b));
      XorExchange(x, a, y, b);
      TopDifference(u[0], v[0]);
    }
  }

  lemma XorExchange(x: bv16, a: bv16, y: bv16, b: bv16)
    ensures Xor(Xor(x, a), Xor(y, b)) == Xor(Xor(x, y), Xor(a, b))
  {
    XorAssociative(x, a, Xor(y, b));
    XorAssociative(a, y, b);
    XorCommutative(a, y);
    XorAssociative(y, a, b);
    XorAssociative(x, y, Xor(a, b));
  }

  lemma TopDifference(p: bool, q: bool)
    ensures Xor(Top(p), Top(q)) == Top(p != q)
  {
  }

  // ---- What the checksum detects ----

  predicate Clear(bits: seq<bool>) {
    forall i :: 0 <= i < |bits| ==> !bits[i]
  }

  lemma {:induction false} FeedClear(crc: bv16, bits: seq<bool>)
    requires Clear(bits)
    ensures Feed(crc, bits) == 0 <==> crc == 0
    decreases bits
  {
    if bits != [] {
      XorCancels(crc, 0);
      FeedClear(Shift(crc), bits[1..]);
      UnshiftShift(crc);
      assert Unshift(0) == 0 && Shift(0) == 0;
    }
  }

  /** The k lowest bits of the register. */
  function LowMask(k: nat): bv16 {
    if k == 0 then 0 else (LowMask(k - 1) << 1) | 1
  }

  lemma LowMaskBelowTop(k: nat)
    requires k <= 15
    ensures LowMask(k) & 0x8000 == 0
  {
    assert LowMask(0) == 0 && LowMask(1) == 1 && LowMask(2) == 3 && LowMask(3) == 7;
    assert LowMask(4) == 0xF && LowMask(5) == 0x1F && LowMask(6) == 0x3F && LowMask(7) == 0x7F;
    assert LowMask(8) == 0xFF && LowMask(9) == 0x1FF && LowMask(10) == 0x3FF && LowMask(11) == 0x7FF;
    assert LowMask(12) == 0xFFF && LowMask(13) == 0x1FFF && LowMask(14) == 0x3FFF && LowMask(15) == 0x7FFF;
  }

  lemma HalveMasked(y: bv16, m: bv16)
    requires y & ((m << 1) | 1) == 0 && m & 0x8000 == 0
    ensures y & 1 == 0 && (y >> 1) & m == 0
    ensures (y >> 1) & 0x8000 == 0
    ensures y >> 1 == 0 ==> y == 0
  {
  }

  lemma TopMasked(z: bv16, m: bv16)
    requires m & 0x8000 == 0 && z & m == 0
    ensures Xor(z, 0x8000) & m == 0
  {
  }

  /** Up to sixteen bits fed to a register cannot bring it to zero unless its lower bits were zero,
      and cannot bring a zero register back to zero unless they are all zero. */
  lemma {:induction false} ShortFeed(crc: bv16, bits: seq<bool>)
    requires |bits| <= 16 && Feed(crc, bits) == 0
    ensures crc & LowMask(16 - |bits|) == 0
    ensures crc == 0 ==> Clear(bits)
    decreases bits
  {
    hide Xor, Shift, Top, LowMask;
    if bits == [] {
      NothingFed(crc);
    } else {
      var k := 16 - |bits|;
      var y := Shift(Xor(crc, Top(bits[0])));
      ShortFeed(y, bits[1..]);
      LowMaskBelowTop(k);
      LowMaskNext(k);
      OneFeed(crc, bits[0], LowMask(k));
      assert bits == [bits[0]] + bits[1..];
    }
  }

  lemma NothingFed(crc: bv16)
    requires crc == 0
    ensures crc & LowMask(16) == 0
  {
    hide LowMask;
    ZeroMasked(LowMask(16));
  }

  lemma ZeroMasked(m: bv16)
    ensures 0 & m == 0
  {
  }

  lemma LowMaskNext(k: nat)
    ensures LowMask(k + 1) == (LowMask(k) << 1) | 1
  {
  }

  lemma OneFeed(crc: bv16, b: bool, m: bv16)
    requires Shift(Xor(crc, Top(b))) & ((m << 1) | 1) == 0 && m & 0x8000 == 0
    ensures crc & m == 0
    ensures crc == 0 ==> !b && Shift(Xor(crc, Top(b))) == 0
  {
    hide Xor, Shift, Unshift, Top;
    var z := Xor(crc, Top(b));
    var y := Shift(z);
    HalveMasked(y, m);
    UnshiftShift(z);
    UnshiftEven(y);
    Recovered(crc, z, b, m);
    if crc == 0 {
      ZeroTop(b);
      ShiftNZero(1);
      OneShift(0);
    }
  }

  lemma UnshiftEven(y: bv16)
    requires y & 1 == 0
    ensures Unshift(y) == y >> 1
  {
  }

  lemma OneShift(x: bv16)
    ensures ShiftN(1, x) == Shift(x)
  {
    hide Shift;
    assert ShiftN(0, Shift(x)) == Shift(x);
  }

  lemma Recovered(crc: bv16, z: bv16, b: bool, m: bv16)
    requires z == Xor(crc, Top(b)) && z & m == 0 && m & 0x8000 == 0
    ensures crc & m == 0
  {
    hide Xor;
    XorCancels(crc, Top(b));
    if b {
      TopMasked(z, m);
    } else {
      XorCancels(z, 0);
    }
  }

  lemma ZeroTop(b: bool)
    ensures Xor(0, Top(b)) & 0x8000 == 0 ==> !b && Xor(0, Top(b)) == 0
  {
  }

  lemma ByteBitsInjective(a: byte, b: byte)
    requires TopBits(8, High(a)) == TopBits(8, High(b))
    ensures a == b
  {
    HighIsSpent(a);
    HighIsSpent(b);
    FeedTopBits(8, 0, High(a));
    FeedTopBits(8, 0, High(b));
    ShiftNInjective(8, Xor(0, High(a)), Xor(0, High(b)));
    HighInjective(a, b);
  }

  lemma {:induction false} BitsInjective(d: seq<byte>, e: seq<byte>)
    requires |d| == |e| && Bits(d) == Bits(e)
    ensures d == e
  {
    hide TopBits, High;
    if d != [] {
      var k := |d| - 1;
      BitsParts(d);
      BitsParts(e);
      BitsInjective(d[..k], e[..k]);
      ByteBitsInjective(d[k], e[k]);
      assert d == d[..k] + [d[k]] && e == e[..k] + [e[k]];
    }
  }

  lemma BitsParts(d: seq<byte>)
    requires d != []
    ensures var k := |d| - 1; Bits(d)[..8 * k] == Bits(d[..k]) && Bits(d)[8 * k..] == TopBits(8, High(d[k]))
  {
    hide TopBits, High;
  }

  lemma WidenInjective(p: bv8, q: bv8)
    requires (p as bv16) << 8 == (q as bv16) << 8
    ensures p == q
  {
  }

  lemma HighInjective(a: byte, b: byte)
    requires Xor(0, High(a)) == Xor(0, High(b))
    ensures a == b
  {
    XorCommutative(0, High(a));
    XorCommutative(0, High(b));
    XorCancels(High(a), 0);
    XorCancels(High(b), 0);
    WidenInjective(ToBits(a), ToBits(b));
    ByteRoundTrip(a);
    ByteRoundTrip(b);
  }

  /** What separates two frames of residue zero leaves the zero register at zero. */
  lemma DifferenceCancels(d: seq<byte>, e: seq<byte>)
    requires |d| == |e|
    requires Crc(INIT, d) == 0 && Crc(INIT, e) == 0
    ensures Feed(0, Diff(Bits(d), Bits(e))) == 0
  {
    CrcIsFeed(INIT, d);
    CrcIsFeed(INIT, e);
    FeedDifference(INIT, INIT, Bits(d), Bits(e));
    XorZero(INIT, INIT);
    XorZero(0, 0);
  }

  lemma BurstCancelsOnlyIfClear(t: seq<bool>, p: nat, q: nat)
    requires p <= q <= |t| && q <= p + 16
    requires Clear(t[..p]) && Clear(t[q..]) && Feed(0, t) == 0
    ensures Clear(t)
  {
    hide Feed, Clear;
    assert t == t[..p] + (t[p..q] + t[q..]);
    FeedConcat(0, t[..p], t[p..q] + t[q..]);
    FeedClear(0, t[..p]);
    FeedConcat(0, t[p..q], t[q..]);
    FeedClear(Feed(0, t[p..q]), t[q..]);
    ShortFeed(0, t[p..q]);
    ClearParts(t, p, q);
  }

  lemma ClearParts(t: seq<bool>, p: nat, q: nat)
    requires p <= q <= |t| && Clear(t[..p]) && Clear(t[p..q]) && Clear(t[q..])
    ensures Clear(t)
  {
    assert forall i :: 0 <= i < p ==> t[i] == t[..p][i];
    assert forall i :: p <= i < q ==> t[i] == t[p..q][i - p];
    assert forall i :: q <= i < |t| ==> t[i] == t[q..][i - q];
  }

  /** No burst of at most sixteen bits, wherever it starts, leaves a residue of zero. */
  lemma BurstDetected(d: seq<byte>, e: seq<byte>, p: nat)
    requires |d| == |e| && p <= 8 * |d|
    requires forall i :: 0 <= i < 8 * |d| && !(p <= i < p + 16) ==> Bits(d)[i] == Bits(e)[i]
    requires Crc(INIT, d) == 0 && Crc(INIT, e) == 0
    ensures d == e
  {
    var t := Diff(Bits(d), Bits(e));
    var q := if p + 16 <= |t| then p + 16 else |t|;
    DifferenceCancels(d, e);
    BurstCancelsOnlyIfClear(t, p, q);
    assert Bits(d) == Bits(e);
    BitsInjective(d, e);
  }

  function OddWeight(bits: seq<bool>): bool {
    if bits == [] then false else bits[0] != OddWeight(bits[1..])
  }

  function Bit(x: bv16, mask: bv16): nat {
    if x & mask != 0 then 1 else 0
  }

  /** The number of ones in the register. */
  function Ones(x: bv16): nat {
    Bit(x, 0x8000) + Bit(x, 0x4000) + Bit(x, 0x2000) + Bit(x, 0x1000)
    + Bit(x, 0x800) + Bit(x, 0x400) + Bit(x, 0x200) + Bit(x, 0x100)
    + Bit(x, 0x80) + Bit(x, 0x40) + Bit(x, 0x20) + Bit(x, 0x10)
    + Bit(x, 0x8) + Bit(x, 0x4) + Bit(x, 0x2) + Bit(x, 0x1)
  }

  function Parity(x: bv16): bool {
    Ones(x) % 2 == 1
  }

  lemma MoveBit(x: bv16, m: bv16)
    requires m & 0x8000 == 0
    ensures Bit(x << 1, m << 1) == Bit(x, m)
  {
    assert (x << 1) & (m << 1) == (x & m) << 1;
    assert (x & m) << 1 == 0 <==> x & m == 0;
  }

  lemma DoubleOnes(x: bv16)
    ensures Ones(x << 1) == Ones(x) - Bit(x, 0x8000)
  {
    MoveBit(x, 0x4000);
    MoveBit(x, 0x2000);
    MoveBit(x, 0x1000);
    MoveBit(x, 0x800);
    MoveBit(x, 0x400);
    MoveBit(x, 0x200);
    MoveBit(x, 0x100);
    MoveBit(x, 0x80);
    MoveBit(x, 0x40);
    MoveBit(x, 0x20);
    MoveBit(x, 0x10);
    MoveBit(x, 0x8);
    MoveBit(x, 0x4);
    MoveBit(x, 0x2);
    MoveBit(x, 0x1);
    assert (x << 1) & 0x1 == 0;
  }

  lemma KeepBit(x: bv16, f: bv16, m: bv16)
    requires f & m == 0
    ensures Bit(x ^ f, m) == Bit(x, m)
  {
    assert (x ^ f) & m == x & m;
  }

  lemma FlipBit(x: bv16, f: bv16, m: bv16)
    requires m in {0x8000, 0x1000, 0x20, 0x1} && f & m == m
    ensures Bit(x ^ f, m) == 1 - Bit(x, m)
  {
    assert (x ^ f) & m == (x & m) ^ m;
    assert x & m == 0 || x & m == m;
  }

  lemma FlipOnes(x: bv16)
    ensures Ones(x ^ 0x1021) == Ones(x) + 3 - 2 * (Bit(x, 0x1000) + Bit(x, 0x20) + Bit(x, 0x1))
  {
    KeepBit(x, 0x1021, 0x8000);
    KeepBit(x, 0x1021, 0x4000);
    KeepBit(x, 0x1021, 0x2000);
    FlipBit(x, 0x1021, 0x1000);
    KeepBit(x, 0x1021, 0x800);
    KeepBit(x, 0x1021, 0x400);
    KeepBit(x, 0x1021, 0x200);
    KeepBit(x, 0x1021, 0x100);
    KeepBit(x, 0x1021, 0x80);
    KeepBit(x, 0x1021, 0x40);
    FlipBit(x, 0x1021, 0x20);
    KeepBit(x, 0x1021, 0x10);
    KeepBit(x, 0x1021, 0x8);
    KeepBit(x, 0x1021, 0x4);
    KeepBit(x, 0x1021, 0x2);
    FlipBit(x, 0x1021, 0x1);
  }

  lemma TopOnes(x: bv16)
    ensures Ones(x ^ 0x8000) == Ones(x) + 1 - 2 * Bit(x, 0x8000)
  {
    FlipBit(x, 0x8000, 0x8000);
    KeepBit(x, 0x8000, 0x4000);
    KeepBit(x, 0x8000, 0x2000);
    KeepBit(x, 0x8000, 0x1000);
    KeepBit(x, 0x8000, 0x800);
    KeepBit(x, 0x8000, 0x400);
    KeepBit(x, 0x8000, 0x200);
    KeepBit(x, 0x8000, 0x100);
    KeepBit(x, 0x8000, 0x80);
    KeepBit(x, 0x8000, 0x40);
    KeepBit(x, 0x8000, 0x20);
    KeepBit(x, 0x8000, 0x10);
    KeepBit(x, 0x8000, 0x8);
    KeepBit(x, 0x8000, 0x4);
    KeepBit(x, 0x8000, 0x2);
    KeepBit(x, 0x8000, 0x1);
  }

  lemma OddChange(n: int, m: int, k: int)
    requires m == n + 1 - 2 * k
    ensures m % 2 == 1 <==> n % 2 != 1
  {
  }

  /** The polynomial has three low terms, so xoring it in flips the parity that dropping the top bit flipped. */
  lemma ParityShift(x: bv16)
    ensures Parity(Shift(x)) == Parity(x)
  {
    if x & 0x8000 != 0 {
      ParityTopSet(x);
    } else {
      DoubleOnes(x);
      assert Bit(x, 0x8000) == 0;
    }
  }

  lemma ParityTopSet(x: bv16)
    requires x & 0x8000 != 0
    ensures Parity(Shift(x)) == Parity(x)
  {
    DoubleOnes(x);
    assert Bit(x, 0x8000) == 1;
    var y := x << 1;
    assert Shift(x) == y ^ 0x1021;
    FlipOnes(y);
    hide Ones, Bit, Shift;
    OddChange(Ones(y), Ones(y ^ 0x1021), Bit(y, 0x1000) + Bit(y, 0x20) + Bit(y, 0x1) - 1);
    OddChange(Ones(y), Ones(x), 0);
  }

  lemma ParityTop(x: bv16)
    ensures Parity(x ^ 0x8000) != Parity(x)
  {
    TopOnes(x);
    OddChange(Ones(x), Ones(x ^ 0x8000), Bit(x, 0x8000));
  }

  lemma ParityStep(crc: bv16, b: bool)
    ensures Parity(Shift(Xor(crc, Top(b)))) == (Parity(crc) != b)
  {
    XorCancels(crc, 0);
    ParityTop(crc);
    ParityShift(Xor(crc, Top(b)));
  }

  lemma {:induction false} ParityOfFeed(crc: bv16, bits: seq<bool>)
    ensures Parity(Feed(crc, bits)) == (Parity(crc) != OddWeight(bits))
    decreases bits
  {
    if bits != [] {
      ParityStep(crc, bits[0]);
      ParityOfFeed(Shift(Xor(crc, Top(bits[0]))), bits[1..]);
    }
  }

  /** No odd number of flipped bits, however spread, leaves a residue of zero. */
  lemma OddErrorDetected(d: seq<byte>, e: seq<byte>)
    requires |d| == |e|
    requires Crc(INIT, d) == 0 && Crc(INIT, e) == 0
    ensures !OddWeight(Diff(Bits(d), Bits(e)))
  {
    assert !Parity(0);
    hide Crc, Bits, Diff, Feed, Parity;
    DifferenceCancels(d, e);
    ParityOfFeed(0, Diff(Bits(d), Bits(e)));
  }
}
