/** The adaptive spread threshold (src/gateway.rs), in real instead of floating-point arithmetic. */
module Ewma {
  import opened Bytes

  const ALPHA: real := 0.05
  const SIGMA: real := 3.0

  datatype Ewma = Ewma(spread: real, absDev: real, initialized: bool)

  const FRESH := Ewma(0.0, 0.0, false)

  function Abs(x: real): real {
    if x < 0.0 then -x else x
  }

  lemma AbsNonNegative(x: real)
    ensures Abs(x) >= 0.0
  {
  }

  function Updated(e: Ewma, spreadMs: i64): Ewma {
    var s := spreadMs as real;
    if !e.initialized then Ewma(s, Abs(s), true)
    else Ewma(0.05 * s + 0.95 * e.spread, 0.05 * Abs(s - e.spread) + 0.95 * e.absDev, true)
  }

  /** A float-to-integer cast: toward zero, saturating at the ends of the range. */
  function AsI64(x: real): i64 {
    if x >= TWO63 as real then TWO63 - 1
    else if x <= -(TWO63 as real) then -TWO63
    else if x >= 0.0 then x.Floor
    else -((-x).Floor)
  }

  function Threshold(e: Ewma, base: i64): i64 {
    if !e.initialized then base
    else
      var adaptive := AsI64(e.spread + 3.0 * e.absDev);
      if base >= adaptive then base else adaptive
  }

  /** Whether a message is routed to the spread shard, given the state before it. */
  predicate Routed(e: Ewma, base: i64, spreadMs: i64) {
    spreadMs > Threshold(Updated(e, spreadMs), base)
  }

  class EwmaSpreadState {
    var spread: real
    var absDev: real
    var initialized: bool

    function View(): Ewma
      reads this
    {
      Ewma(spread, absDev, initialized)
    }

    constructor ()
      ensures View() == FRESH
    {
      spread, absDev, initialized := 0.0, 0.0, false;
    }

    method Update(spreadMs: i64)
      modifies this
      ensures View() == Updated(old(View()), spreadMs)
    {
      var s := spreadMs as real;
      if !initialized {
        spread := s;
        absDev := Abs(s);
        initialized := true;
        return;
      }
      var prev := spread;
      spread := ALPHA * s + (1.0 - ALPHA) * prev;
      absDev := ALPHA * Abs(s - prev) + (1.0 - ALPHA) * absDev;
    }

    method AdaptiveThreshold(base: i64) returns (t: i64)
      ensures t == Threshold(View(), base)
    {
      if !initialized {
        return base;
      }
      var adaptive := AsI64(spread + SIGMA * absDev);
      t := if base >= adaptive then base else adaptive;
    }
  }

  /** For a positive integer the cast is invisible. */
  lemma CastExact(x: real, s: i64)
    requires s > 0
    ensures s > AsI64(x) <==> s as real > x
  {
  }

  /** After a protocol's first message, a message is routed to the spread shard exactly when its spread exceeds the
      protocol's base and exceeds the mean before it by more than 57/16 of the deviation before it. */
  lemma RoutedIff(e: Ewma, base: i64, s: i64)
    requires e.initialized && e.absDev >= 0.0 && base >= 0
    ensures Routed(e, base, s) <==> s > base && s as real - e.spread > 57.0 / 16.0 * e.absDev
  {
    var u := Updated(e, s);
    if s > base {
      CastExact(u.spread + 3.0 * u.absDev, s);
    }
  }

  /** The first message is never routed there. */
  lemma FirstNotRouted(base: i64, s: i64)
    requires base >= 0
    ensures !Routed(FRESH, base, s)
  {
    if s > base {
      CastExact(s as real + 3.0 * Abs(s as real), s);
    }
  }

  /** The state after a stream of spreads. */
  function After(e: Ewma, spreads: seq<i64>): Ewma {
    if spreads == [] then e else Updated(After(e, spreads[..|spreads| - 1]), spreads[|spreads| - 1])
  }

  // ---- Closed forms ----

  /** 0.95 to the n. */
  function Decay(n: nat): real {
    if n == 0 then 1.0 else 0.95 * Decay(n - 1)
  }

  /** The sum of 0.05 * 0.95^(n - 1 - i) * xs[i] over 1 <= i < k. */
  function Recent(xs: seq<real>, n: nat, k: nat): real
    requires k <= n && k <= |xs|
  {
    if k <= 1 then 0.0 else Recent(xs, n, k - 1) + 0.05 * Decay(n - k) * xs[k - 1]
  }

  /** The exponentially weighted average of a series: 0.95^(n - 1) of the first value and 0.05 * 0.95^(n - 1 - i) of
      each later one. */
  function Weighted(xs: seq<real>): real
    requires xs != []
  {
    Decay(|xs| - 1) * xs[0] + Recent(xs, |xs|, |xs|)
  }

  lemma {:induction false} RecentDecays(xs: seq<real>, x: real, k: nat)
    requires k <= |xs|
    ensures Recent(xs + [x], |xs| + 1, k) == 0.95 * Recent(xs, |xs|, k)
  {
    if k > 1 {
      RecentDecays(xs, x, k - 1);
      var d, y := Decay(|xs| - k), xs[k - 1];
      assert Decay(|xs| + 1 - k) == 0.95 * d;
      assert 0.05 * (0.95 * d) * y == 0.95 * (0.05 * d * y);
    }
  }

  lemma WeightedSnoc(xs: seq<real>, x: real)
    requires xs != []
    ensures Weighted(xs + [x]) == 0.05 * x + 0.95 * Weighted(xs)
  {
    var n := |xs|;
    RecentDecays(xs, x, n);
    assert Recent(xs + [x], n + 1, n + 1) == Recent(xs + [x], n + 1, n) + 0.05 * Decay(0) * x;
    assert Decay(0) == 1.0 && Decay(n) == 0.95 * Decay(n - 1);
    assert 0.95 * Decay(n - 1) * xs[0] == 0.95 * (Decay(n - 1) * xs[0]);
  }

  function Reals(spreads: seq<i64>): seq<real> {
    seq(|spreads|, i requires 0 <= i < |spreads| => spreads[i] as real)
  }

  function Mean(spreads: seq<i64>): real
    requires spreads != []
  {
    Weighted(Reals(spreads))
  }

  /** How far each spread lies from the mean of those before it; the first one, from zero. */
  function Gaps(spreads: seq<i64>): seq<real> {
    seq(|spreads|, i requires 0 <= i < |spreads| =>
      if i == 0 then Abs(spreads[0] as real) else Abs(spreads[i] as real - Mean(spreads[..i])))
  }

  function Deviation(spreads: seq<i64>): real
    requires spreads != []
  {
    Weighted(Gaps(spreads))
  }

  /** The running state after a stream is the weighted mean of its spreads and the weighted mean of their gaps. */
  lemma {:induction false} ClosedForm(spreads: seq<i64>)
    requires spreads != []
    ensures After(FRESH, spreads) == Ewma(Mean(spreads), Deviation(spreads), true)
  {
    hide Weighted, Abs;
    var k := |spreads| - 1;
    if k == 0 {
      assert spreads[..0] == [];
      assert Reals(spreads) == [spreads[0] as real] && Gaps(spreads) == [Abs(spreads[0] as real)];
      WeightedOne(spreads[0] as real);
      WeightedOne(Abs(spreads[0] as real));
    } else {
      ClosedForm(spreads[..k]);
      assert Reals(spreads) == Reals(spreads[..k]) + [spreads[k] as real];
      WeightedSnoc(Reals(spreads[..k]), spreads[k] as real);
      GapsSnoc(spreads);
      WeightedSnoc(Gaps(spreads[..k]), Abs(spreads[k] as real - Mean(spreads[..k])));
    }
  }

  lemma WeightedOne(x: real)
    ensures Weighted([x]) == x
  {
    assert Decay(0) == 1.0;
  }

  lemma GapsSnoc(spreads: seq<i64>)
    requires |spreads| > 1
    ensures var k := |spreads| - 1;
      Gaps(spreads) == Gaps(spreads[..k]) + [Abs(spreads[k] as real - Mean(spreads[..k]))]
  {
    hide Mean, Abs;
    var k := |spreads| - 1;
    forall i | 0 <= i < k ensures Gaps(spreads)[i] == Gaps(spreads[..k])[i] {
      assert spreads[..k][..i] == spreads[..i];
    }
  }

  /** On a constant stream the deviation is exactly 0.95^(n - 1) times the size of the spread. */
  lemma {:induction false} ConstantDeviation(spreads: seq<i64>, v: i64)
    requires spreads != [] && forall i :: 0 <= i < |spreads| ==> spreads[i] == v
    ensures After(FRESH, spreads) == Ewma(v as real, Decay(|spreads| - 1) * Abs(v as real), true)
  {
    var k := |spreads| - 1;
    if k == 0 {
      assert spreads[..0] == [];
    } else {
      ConstantDeviation(spreads[..k], v);
    }
  }

  function Larger(x: real, y: real): real {
    if x >= y then x else y
  }

  /** Over every stream whose spreads lie between lo and hi, the mean does too, and the deviation stays between zero and
      the larger of the first spread's size and the width of the range. */
  lemma {:induction false} StaysInRange(spreads: seq<i64>, lo: int, hi: int)
    requires spreads != [] && forall i :: 0 <= i < |spreads| ==> lo <= spreads[i] <= hi
    ensures var e := After(FRESH, spreads);
      && e.initialized && lo as real <= e.spread <= hi as real
      && 0.0 <= e.absDev <= Larger(Abs(spreads[0] as real), (hi - lo) as real)
  {
    var k := |spreads| - 1;
    if k == 0 {
      assert spreads[..0] == [];
    } else {
      StaysInRange(spreads[..k], lo, hi);
      assert spreads[..k][0] == spreads[0];
    }
  }

  /** A stream of equal spreads, however high, is never routed to the spread shard. */
  lemma ConstantNotRouted(spreads: seq<i64>, v: i64, base: i64)
    requires base >= 0 && forall i :: 0 <= i < |spreads| ==> spreads[i] == v
    ensures !Routed(After(FRESH, spreads), base, v)
  {
    if spreads == [] {
      FirstNotRouted(base, v);
    } else {
      StaysInRange(spreads, v, v);
      RoutedIff(After(FRESH, spreads), base, v);
    }
  }

  lemma Shrinks(d: real, k: real, bound: real)
    requires d >= 0.0 && k >= 19.0 && d * k <= bound
    ensures (0.95 * d) * (k + 1.0) <= bound
  {
    assert d * k >= d * 19.0;
    assert (0.95 * d) * (k + 1.0) == 0.95 * (d * k) + 0.95 * d;
  }

  /** While a lag stays the same the deviation shrinks at least like 19/(18 + n). */
  lemma {:induction false} DeviationShrinks(spreads: seq<i64>, v: i64)
    requires spreads != [] && forall i :: 0 <= i < |spreads| ==> spreads[i] == v
    ensures var e := After(FRESH, spreads);
      e.initialized && e.spread == v as real && e.absDev >= 0.0 &&
        e.absDev * (18 + |spreads|) as real <= 19.0 * Abs(v as real)
  {
    var k := |spreads| - 1;
    if k == 0 {
      assert spreads[..0] == [];
    } else {
      DeviationShrinks(spreads[..k], v);
      Shrinks(After(FRESH, spreads[..k]).absDev, (18 + k) as real, 19.0 * Abs(v as real));
    }
  }

  lemma GapWins(n: real, d: real, gap: real, a: real)
    requires n >= 19.0 && gap > 0.0 && a >= 0.0 && d * n <= 19.0 * a && (n - 19.0) * gap >= 68.0 * a
    ensures gap > 57.0 / 16.0 * d
  {
    var slack := gap - 57.0 / 16.0 * d;
    assert n * slack == (n - 19.0) * gap + 19.0 * gap - 57.0 / 16.0 * (d * n);
    assert n * slack > 0.0;
  }

  /** The threshold follows a stable lag: after enough equal spreads, every larger spread above the base is routed. */
  lemma AdaptsToLag(spreads: seq<i64>, v: i64, base: i64, s: i64)
    requires base >= 0 && s > base && s > v
    requires spreads != [] && forall i :: 0 <= i < |spreads| ==> spreads[i] == v
    requires (|spreads| - 1) as real * (s as real - v as real) >= 68.0 * Abs(v as real)
    ensures Routed(After(FRESH, spreads), base, s)
  {
    hide Routed, After, Abs;
    DeviationShrinks(spreads, v);
    var e := After(FRESH, spreads);
    RoutedIff(e, base, s);
    AbsNonNegative(v as real);
    var n := (18 + |spreads|) as real;
    assert n - 19.0 == (|spreads| - 1) as real;
    GapWins(n, e.absDev, s as real - v as real, Abs(v as real));
  }
}
