/** Well-formed UTF-8 (section 4 of RFC 3629), which `String::from_utf8` insists on. */
module Utf8 {
  import opened Bytes

  datatype Verdict = Valid | Invalid

  predicate Tail(b: byte) {
    0x80 <= b <= 0xBF
  }

  function Scan(s: seq<byte>): Verdict {
    if s == [] then Valid
    else if s[0] <= 0x7F then Scan(s[1..])
    else if 0xC2 <= s[0] <= 0xDF && |s| >= 2 && Tail(s[1]) then Scan(s[2..])
    else if 0xE0 <= s[0] <= 0xEF && |s| >= 3 && Tail(s[1]) && Tail(s[2])
            && (s[0] == 0xE0 ==> s[1] >= 0xA0) && (s[0] == 0xED ==> s[1] <= 0x9F) then Scan(s[3..])
    else if 0xF0 <= s[0] <= 0xF4 && |s| >= 4 && Tail(s[1]) && Tail(s[2]) && Tail(s[3])
            && (s[0] == 0xF0 ==> s[1] >= 0x90) && (s[0] == 0xF4 ==> s[1] <= 0x8F) then Scan(s[4..])
    else Invalid
  }

  // ---- The strings that are accepted ----

  /** A Unicode scalar value: a code point that is no surrogate. */
  type Scalar = c: int | 0 <= c < 0x11_0000 && !(0xD800 <= c < 0xE000)

  /** The bytes of a character (section 3 of RFC 3629). */
  function Char(c: Scalar): seq<byte> {
    if c < 0x80 then [c]
    else if c < 0x800 then [0xC0 + c / 64, 0x80 + c % 64]
    else if c < 0x1_0000 then [0xE0 + c / 4096, 0x80 + c / 64 % 64, 0x80 + c % 64]
    else [0xF0 + c / 262_144, 0x80 + c / 4096 % 64, 0x80 + c / 64 % 64, 0x80 + c % 64]
  }

  function Chars(cs: seq<Scalar>): seq<byte> {
    if cs == [] then [] else Char(cs[0]) + Chars(cs[1..])
  }

  /** One of the four forms that Scan takes. */
  predicate Form(b: seq<byte>) {
    || (|b| == 1 && b[0] <= 0x7F)
    || (|b| == 2 && 0xC2 <= b[0] <= 0xDF && Tail(b[1]))
    || (|b| == 3 && 0xE0 <= b[0] <= 0xEF && Tail(b[1]) && Tail(b[2])
        && (b[0] == 0xE0 ==> b[1] >= 0xA0) && (b[0] == 0xED ==> b[1] <= 0x9F))
    || (|b| == 4 && 0xF0 <= b[0] <= 0xF4 && Tail(b[1]) && Tail(b[2]) && Tail(b[3])
        && (b[0] == 0xF0 ==> b[1] >= 0x90) && (b[0] == 0xF4 ==> b[1] <= 0x8F))
  }

  lemma FormScan(b: seq<byte>, rest: seq<byte>)
    requires Form(b)
    ensures Scan(b + rest) == Scan(rest)
  {
    assert (b + rest)[|b|..] == rest;
  }

  lemma CharForm(c: Scalar)
    ensures Form(Char(c))
  {
  }

  lemma ScanChar(c: Scalar, rest: seq<byte>)
    ensures Scan(Char(c) + rest) == Scan(rest)
  {
    hide Char, Scan, Form;
    CharForm(c);
    FormScan(Char(c), rest);
  }

  lemma {:induction false} ScanChars(cs: seq<Scalar>)
    ensures Scan(Chars(cs)).Valid?
  {
    hide Scan, Char;
    if cs == [] {
      NothingIsValid();
    } else {
      ScanChars(cs[1..]);
      ScanChar(cs[0], Chars(cs[1..]));
    }
  }

  lemma NothingIsValid()
    ensures Scan([]).Valid?
  {
  }

  lemma ThreeParts(x: nat, y: nat, z: nat)
    requires y < 64 && z < 64
    ensures var c := 4096 * x + 64 * y + z; c / 4096 == x && c / 64 % 64 == y && c % 64 == z
  {
    var c := 4096 * x + 64 * y + z;
    QuotientUnique(c, 4096, x, 64 * y + z);
    QuotientUnique(c, 64, 64 * x + y, z);
    QuotientUnique(64 * x + y, 64, x, y);
  }

  lemma TwoBytes(a: byte, b: byte) returns (c: Scalar)
    requires 0xC2 <= a <= 0xDF && Tail(b)
    ensures Char(c) == [a, b]
  {
    c := 64 * (a as int - 0xC0) + (b as int - 0x80);
  }

  lemma ThreeBytes(a: byte, b: byte, d: byte) returns (c: Scalar)
    requires 0xE0 <= a <= 0xEF && Tail(b) && Tail(d) && (a == 0xE0 ==> b >= 0xA0) && (a == 0xED ==> b <= 0x9F)
    ensures Char(c) == [a, b, d]
  {
    var x: int, y: int, z: int := a - 0xE0, b - 0x80, d - 0x80;
    ThreeParts(x, y, z);
    c := 4096 * x + 64 * y + z;
  }

  lemma FourBytes(a: byte, b: byte, d: byte, e: byte) returns (c: Scalar)
    requires 0xF0 <= a <= 0xF4 && Tail(b) && Tail(d) && Tail(e)
    requires (a == 0xF0 ==> b >= 0x90) && (a == 0xF4 ==> b <= 0x8F)
    ensures Char(c) == [a, b, d, e]
  {
    var w: int, x: int, y: int, z: int := a - 0xF0, b - 0x80, d - 0x80, e - 0x80;
    ThreeParts(64 * w + x, y, z);
    QuotientUnique(64 * w + x, 64, w, x);
    c := 262_144 * w + 4096 * x + 64 * y + z;
    QuotientUnique(c, 262_144, w, 4096 * x + 64 * y + z);
    assert c == 4096 * (64 * w + x) + 64 * y + z;
  }

  /** The character a valid string starts with. */
  lemma FirstChar(s: seq<byte>) returns (c: Scalar)
    requires s != [] && Scan(s).Valid?
    ensures IsPrefix(Char(c), s) && |Char(c)| >= 1 && Scan(s[|Char(c)|..]).Valid?
  {
    if s[0] <= 0x7F {
      c := s[0];
    } else {
      hide Char;
      if s[0] <= 0xDF {
        c := TwoBytes(s[0], s[1]);
      } else if s[0] <= 0xEF {
        c := ThreeBytes(s[0], s[1], s[2]);
      } else {
        c := FourBytes(s[0], s[1], s[2], s[3]);
      }
    }
  }

  lemma {:induction false} ScannedChars(s: seq<byte>) returns (cs: seq<Scalar>)
    requires Scan(s).Valid?
    ensures Chars(cs) == s
  {
    hide Scan, Char;
    if s == [] {
      cs := [];
    } else {
      var c := FirstChar(s);
      var rest := ScannedChars(s[|Char(c)|..]);
      cs := [c] + rest;
      assert cs[1..] == rest;
      assert s == Char(c) + s[|Char(c)|..];
    }
  }

  /** Exactly the concatenations of encoded scalar values are accepted. */
  lemma ValidIff(s: seq<byte>)
    ensures Scan(s).Valid? <==> exists cs :: Chars(cs) == s
  {
    hide Scan, Chars;
    if Scan(s).Valid? {
      var cs := ScannedChars(s);
      assert Chars(cs) == s;
    }
    forall cs | Chars(cs) == s ensures Scan(s).Valid? {
      ScanChars(cs);
    }
  }
}
