/** Bytes, big-endian integers, signed and unsigned words, sums and sequences that the other modules share. */
module Bytes {

  type byte = x: int | 0 <= x < 256

  datatype Option<+T> = None | Some(value: T)

  function Min(a: nat, b: nat): nat {
    if a <= b then a else b
  }

  /** s starts with p. */
  predicate IsPrefix<T(==)>(p: seq<T>, s: seq<T>) {
    |p| <= |s| && s[..|p|] == p
  }

  lemma Peel<T>(x: T, a: seq<T>, b: seq<T>)
    ensures var s := [x] + a + b; s[0] == x && s[1..1 + |a|] == a && s[1 + |a|..] == b
  {
  }

  lemma Split<T>(a: seq<T>, b: seq<T>)
    ensures (a + b)[..|a|] == a && (a + b)[|a|..] == b
  {
  }

  lemma Regroup<T>(a: seq<T>, b: seq<T>, c: seq<T>, d: seq<T>, e: seq<T>)
    ensures a + b + c + d + e == a + (b + (c + (d + e)))
  {
  }

  /** A length cast to one byte. */
  function AsByte(n: nat): byte {
    n % 256
  }

  lemma SmallByte(n: nat)
    requires n < 256
    ensures AsByte(n) == n
  {
  }

  /** A byte as eight bits, and back. */
  function ToBits(b: byte): bv8 {
    b as bv8
  }

  function FromBits(x: bv8): byte {
    x as int
  }

  lemma ByteRoundTrip(b: byte)
    ensures FromBits(ToBits(b)) == b
  {
    assert b % 256 == b;
  }

  lemma BitsRoundTrip(x: bv8)
    ensures ToBits(FromBits(x)) == x
  {
  }

  lemma QuotientUnique(n: int, m: int, q: int, r: int)
    requires m > 0 && n == q * m + r && 0 <= r < m
    ensures n / m == q && n % m == r
  {
    var p: int, t: int := n / m, n % m;
    assert n == p * m + t;
    assert (p - q) * m == r - t;
    assert p - q >= 1 ==> (p - q) * m >= m;
    assert p - q <= -1 ==> (p - q) * m <= -m;
  }

  /** 256 to the power n: one more than the largest value of n bytes. */
  function Radix(n: nat): (r: nat)
    ensures r >= 1
  {
    if n == 0 then 1 else 256 * Radix(n - 1)
  }

  /** The n-byte big-endian form of v (`to_be_bytes`, `put_u32`, `put_u64`); higher digits are cut off. */
  function ToBe(n: nat, v: nat): (s: seq<byte>)
    ensures |s| == n
  {
    if n == 0 then [] else ToBe(n - 1, v / 256) + [v % 256]
  }

  /** The value of a big-endian byte string (`from_be_bytes`, `get_u32`, `get_u64`). */
  function FromBe(s: seq<byte>): (v: nat)
    ensures v < Radix(|s|)
  {
    if s == [] then 0 else 256 * FromBe(s[..|s| - 1]) + s[|s| - 1]
  }

  lemma TwoDigits(s: seq<byte>)
    requires |s| == 2
    ensures FromBe(s) == 256 * s[0] as int + s[1]
  {
    assert s[..1][..0] == [];
  }

  lemma FourDigits(s: seq<byte>)
    requires |s| == 4
    ensures FromBe(s) == 0x100_0000 * s[0] as int + 0x1_0000 * s[1] as int + 0x100 * s[2] as int + s[3]
  {
    var t := s[..3];
    assert t[..2] == s[..2];
    TwoDigits(s[..2]);
  }

  lemma {:induction false} FromToBe(n: nat, v: nat)
    requires v < Radix(n)
    ensures FromBe(ToBe(n, v)) == v
  {
    if n > 0 {
      FromToBe(n - 1, v / 256);
      assert ToBe(n, v)[..n - 1] == ToBe(n - 1, v / 256);
    }
  }

  lemma {:induction false} ToFromBe(s: seq<byte>)
    ensures ToBe(|s|, FromBe(s)) == s
  {
    if s != [] {
      ToFromBe(s[..|s| - 1]);
      LastDigit(FromBe(s[..|s| - 1]), s[|s| - 1]);
      assert s == s[..|s| - 1] + [s[|s| - 1]];
    }
  }

  lemma LastDigit(a: nat, b: byte)
    ensures (256 * a + b) / 256 == a && (256 * a + b) % 256 == b
  {
  }

  const TWO63: int := 0x8000_0000_0000_0000
  const TWO64: int := 0x1_0000_0000_0000_0000

  type i64 = x: int | -0x8000_0000_0000_0000 <= x < 0x8000_0000_0000_0000
  type u64 = x: int | 0 <= x < 0x1_0000_0000_0000_0000

  /** Two's complement: the unsigned word that carries x. */
  function Unsigned(x: i64): (u: u64) {
    if x < 0 then x + TWO64 else x
  }

  function Signed(u: u64): (x: i64) {
    if u < TWO63 then u else u - TWO64
  }

  lemma RadixOfEight()
    ensures Radix(8) == TWO64
    ensures Radix(4) == 0x1_0000_0000
    ensures Radix(2) == 0x1_0000
  {
  }

  /** The total weight of a sequence: how occupancies, pending operations and copies are counted. */
  function Total<T>(s: seq<T>, w: T -> nat): (t: nat) {
    if s == [] then 0 else Total(s[..|s| - 1], w) + w(s[|s| - 1])
  }

  /** Replacing one element changes the total by the difference of the two weights. */
  lemma {:induction false} TotalUpdate<T>(s: seq<T>, i: nat, x: T, w: T -> nat)
    requires i < |s|
    ensures Total(s[i := x], w) + w(s[i]) == Total(s, w) + w(x)
    ensures w(s[i]) <= Total(s, w)
  {
    var k := |s| - 1;
    if i == k {
      assert s[i := x][..k] == s[..k];
    } else {
      TotalUpdate(s[..k], i, x, w);
      assert s[i := x][..k] == s[..k][i := x];
    }
  }

  lemma {:induction false} TotalZero<T>(s: seq<T>, w: T -> nat)
    ensures (Total(s, w) == 0) <==> (forall i :: 0 <= i < |s| ==> w(s[i]) == 0)
  {
    if s != [] {
      TotalZero(s[..|s| - 1], w);
      assert s == s[..|s| - 1] + [s[|s| - 1]];
    }
  }

  /** The elements of the parts, in order. */
  function Flatten<T>(parts: seq<seq<T>>): seq<T> {
    if parts == [] then [] else Flatten(parts[..|parts| - 1]) + parts[|parts| - 1]
  }

  lemma FlattenSnoc<T>(parts: seq<seq<T>>, last: seq<T>)
    ensures Flatten(parts + [last]) == Flatten(parts) + last
  {
    assert (parts + [last])[..|parts|] == parts;
  }
}
