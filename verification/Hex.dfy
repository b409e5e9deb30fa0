/** Hexadecimal text, as the `hex` crate writes and reads it. Text is a sequence of bytes (ASCII or UTF-8). */
module Hex {
  import opened Bytes

  function Digit(n: int): (c: byte)
    requires 0 <= n < 16
  {
    if n < 10 then '0' as int + n else 'a' as int + n - 10
  }

  function Nibble(c: byte): (n: Option<int>)
    ensures n.Some? ==> 0 <= n.value < 16
  {
    if '0' as int <= c <= '9' as int then Some(c - '0' as int)
    else if 'a' as int <= c <= 'f' as int then Some(c - 'a' as int + 10)
    else if 'A' as int <= c <= 'F' as int then Some(c - 'A' as int + 10)
    else None
  }

  function Encode(s: seq<byte>): (t: seq<byte>)
    ensures |t| == 2 * |s|
  {
    if s == [] then [] else [Digit(s[0] / 16), Digit(s[0] % 16)] + Encode(s[1..])
  }

  function Decode(t: seq<byte>): (s: Option<seq<byte>>)
    ensures s.Some? ==> |t| == 2 * |s.value|
  {
    if t == [] then Some([])
    else if |t| == 1 then None
    else
      match (Nibble(t[0]), Nibble(t[1]), Decode(t[2..])) {
        case (Some(h), Some(l), Some(rest)) => Some([16 * h + l] + rest)
        case _ => None
      }
  }

  /** Each byte is written as two digits, the high one first. */
  lemma {:induction false} EncodeAt(s: seq<byte>, i: nat)
    requires i < |s|
    ensures Encode(s)[2 * i] == "0123456789abcdef"[s[i] / 16] as int
    ensures Encode(s)[2 * i + 1] == "0123456789abcdef"[s[i] % 16] as int
  {
    hide Digit;
    if i == 0 {
      DigitText(s[0] / 16);
      DigitText(s[0] % 16);
    } else {
      EncodeAt(s[1..], i - 1);
      assert s[1..][i - 1] == s[i];
    }
  }

  lemma DigitText(n: int)
    requires 0 <= n < 16
    ensures Digit(n) == "0123456789abcdef"[n] as int
  {
  }

  /** Digits in the case that Encode writes. */
  predicate LowerHex(t: seq<byte>) {
    forall i :: 0 <= i < |t| ==> '0' as int <= t[i] <= '9' as int || 'a' as int <= t[i] <= 'f' as int
  }

  lemma NibbleDigit(n: int)
    requires 0 <= n < 16
    ensures Nibble(Digit(n)) == Some(n) && LowerHex([Digit(n)])
  {
  }

  lemma {:induction false} DecodeEncode(s: seq<byte>)
    ensures Decode(Encode(s)) == Some(s)
    ensures LowerHex(Encode(s))
  {
    hide Digit, Nibble, Decode, LowerHex;
    if s == [] {
      EmptyText();
    } else {
      DecodeEncode(s[1..]);
      var h, l := s[0] / 16, s[0] % 16;
      NibbleDigit(h);
      NibbleDigit(l);
      LowerConcat([Digit(h)], [Digit(l)]);
      assert [Digit(h)] + [Digit(l)] == [Digit(h), Digit(l)];
      LowerConcat([Digit(h), Digit(l)], Encode(s[1..]));
      DecodeStep(Digit(h), Digit(l), Encode(s[1..]));
      assert s == [s[0]] + s[1..];
    }
  }

  lemma EmptyText()
    ensures Decode([]) == Some([]) && LowerHex([])
  {
  }

  lemma DecodeStep(h: byte, l: byte, rest: seq<byte>)
    requires Nibble(h).Some? && Nibble(l).Some? && Decode(rest).Some?
    ensures Decode([h, l] + rest) == Some([16 * Nibble(h).value + Nibble(l).value] + Decode(rest).value)
  {
    hide Nibble;
    assert ([h, l] + rest)[2..] == rest;
  }

  lemma LowerConcat(a: seq<byte>, b: seq<byte>)
    requires LowerHex(a) && LowerHex(b)
    ensures LowerHex(a + b)
  {
  }

  lemma DigitNibble(h: byte, l: byte)
    requires LowerHex([h, l])
    ensures Nibble(h).Some? && Nibble(l).Some?
    ensures var b := 16 * Nibble(h).value + Nibble(l).value; Digit(b / 16) == h && Digit(b % 16) == l
  {
    assert [h, l][0] == h && [h, l][1] == l;
  }

  lemma {:induction false} EncodeDecode(t: seq<byte>)
    requires |t| % 2 == 0 && LowerHex(t)
    ensures Decode(t).Some? && Encode(Decode(t).value) == t
  {
    if t != [] {
      EncodeDecode(t[2..]);
      DigitNibble(t[0], t[1]);
      var rest := Decode(t[2..]).value;
      var b := 16 * Nibble(t[0]).value + Nibble(t[1]).value;
      assert Decode(t) == Some([b] + rest);
      assert ([b] + rest)[1..] == rest;
      assert t == [t[0], t[1]] + t[2..];
    }
  }

  // ---- What is read ----

  predicate IsHex(c: byte) {
    || '0' as int <= c <= '9' as int
    || 'a' as int <= c <= 'f' as int
    || 'A' as int <= c <= 'F' as int
  }

  ghost predicate AllHex(t: seq<byte>) {
    forall i :: 0 <= i < |t| ==> IsHex(t[i])
  }

  function LowerOf(t: seq<byte>): (s: seq<byte>)
    ensures |s| == |t|
  {
    seq(|t|, i requires 0 <= i < |t| => if 'A' as int <= t[i] <= 'F' as int then t[i] + 32 else t[i])
  }

  lemma HexPair(h: byte, l: byte, rest: seq<byte>)
    ensures AllHex([h, l] + rest) <==> IsHex(h) && IsHex(l) && AllHex(rest)
    ensures LowerOf([h, l] + rest) == LowerOf([h, l]) + LowerOf(rest)
  {
    var t := [h, l] + rest;
    assert t[0] == h && t[1] == l && forall i :: 0 <= i < |rest| ==> t[i + 2] == rest[i];
  }

  lemma DecodePair(h: byte, l: byte, rest: seq<byte>)
    ensures Decode([h, l] + rest).Some? <==> IsHex(h) && IsHex(l) && Decode(rest).Some?
  {
    assert ([h, l] + rest)[2..] == rest;
  }

  lemma EncodeCons(b: byte, rest: seq<byte>)
    ensures Encode([b] + rest) == [Digit(b / 16), Digit(b % 16)] + Encode(rest)
  {
    hide Digit;
    assert ([b] + rest)[1..] == rest;
  }

  /** Exactly pairs of digits, in either case, are read; writing them again gives them in lower case. */
  lemma {:induction false} DecodeIff(t: seq<byte>)
    ensures Decode(t).Some? <==> |t| % 2 == 0 && AllHex(t)
    ensures Decode(t).Some? ==> Encode(Decode(t).value) == LowerOf(t)
  {
    if |t| >= 2 {
      hide Decode, Encode, Nibble, Digit, IsHex, AllHex, LowerOf;
      var h, l, rest := t[0], t[1], t[2..];
      assert t == [h, l] + rest;
      DecodeIff(rest);
      HexPair(h, l, rest);
      DecodePair(h, l, rest);
      if Decode(t).Some? {
        PairText(h, l);
        DecodeStep(h, l, rest);
        EncodeCons(16 * Nibble(h).value + Nibble(l).value, Decode(rest).value);
      }
    }
  }

  lemma PairText(h: byte, l: byte)
    requires IsHex(h) && IsHex(l)
    ensures Nibble(h).Some? && Nibble(l).Some?
    ensures var b := 16 * Nibble(h).value + Nibble(l).value; [Digit(b / 16), Digit(b % 16)] == LowerOf([h, l])
  {
  }

  lemma {:induction false} EncodePrefix(s: seq<byte>, k: nat)
    requires k <= |s|
    ensures Encode(s[..k]) == Encode(s)[..2 * k]
  {
    hide Digit;
    if k > 0 {
      EncodePrefix(s[1..], k - 1);
      assert s[..k][1..] == s[1..][..k - 1];
    }
  }
}
