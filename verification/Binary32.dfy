/** Narrowing a binary64 value to binary32 (section 4.3.1 of IEEE 754-2019, ties to even), as the
    conversion to a float field does (lua/upb.c). */
module Binary32 {
  import opened NumberChecks

  const TWO_23 := 0x80_0000
  const TWO_24 := 0x100_0000

  // The smallest positive binary32 value is 2^-149, and 2^128 is the first out of range.
  const FRACTION_BITS: nat := 149
  const LIMIT: real := 0x1_0000_0000_0000_0000_0000_0000_0000_0000 as real

  /** The nearest integer; of two, the even one. */
  function NearestEven(r: real): int {
    var d := r - r.Floor as real;
    if d < 0.5 || (d == 0.5 && r.Floor % 2 == 0) then r.Floor else r.Floor + 1
  }

  /** r rounded to 24 significant bits, none below one. */
  function Round24(r: real): (n: real)
    requires r >= 0.0
    ensures n >= 0.0 && (r >= TWO_24 as real ==> n >= TWO_24 as real)
    decreases r.Floor
  {
    if r < TWO_24 as real then NearestEven(r) as real else 2.0 * Round24(r / 2.0)
  }

  /** Values with at most 24 significant bits, none below one. */
  predicate Has24Bits(r: real) {
    r >= 0.0 && Round24(r) == r
  }

  /** r rounded to 24 significant bits, none below 2^-bits. */
  function RoundFraction(r: real, bits: nat): (n: real)
    requires r >= 0.0
    ensures n >= 0.0
    decreases bits, r.Floor
  {
    if bits == 0 then Round24(r) else RoundFraction(2.0 * r, bits - 1) / 2.0
  }

  function NarrowMagnitude(r: real): Double
    requires r >= 0.0
  {
    var n := RoundFraction(r, FRACTION_BITS);
    if n < LIMIT then Finite(n) else PosInf
  }

  function Negate(d: Double): Double {
    match d
    case Finite(r) => Finite(-r)
    case PosInf => NegInf
    case NegInf => PosInf
    case NaN => NaN
  }

  /** The conversion from double to float. */
  function Narrow(d: Double): Double {
    if !d.Finite? then d
    else if d.r < 0.0 then Negate(NarrowMagnitude(-d.r))
    else NarrowMagnitude(d.r)
  }

  lemma SmallInteger(n: nat)
    requires n < TWO_24
    ensures Round24(n as real) == n as real
  {
    assert (n as real).Floor == n;
  }

  lemma Doubled(v: real)
    requires v >= TWO_23 as real
    ensures Round24(2.0 * v) == 2.0 * Round24(v)
  {
    assert (2.0 * v) / 2.0 == v;
  }

  lemma HalfIsLarge(r: real)
    requires r >= TWO_24 as real
    ensures Round24(r / 2.0) >= TWO_23 as real && Round24(r) == 2.0 * Round24(r / 2.0)
  {
    assert Round24(r) >= TWO_24 as real;
  }

  lemma SmallIsRounded(r: real)
    requires 0.0 <= r < TWO_24 as real
    ensures Has24Bits(Round24(r))
  {
    var n := NearestEven(r);
    assert Round24(r) == n as real && 0 <= n <= TWO_24;
    if n < TWO_24 {
      SmallInteger(n);
    } else {
      SmallInteger(TWO_23);
      Doubled(TWO_23 as real);
    }
  }

  /** Rounding gives a value that rounding leaves alone. */
  lemma {:induction false} RoundIsRounded(r: real)
    requires r >= 0.0
    ensures Has24Bits(Round24(r))
    decreases r.Floor
  {
    if r < TWO_24 as real {
      SmallIsRounded(r);
    } else {
      RoundIsRounded(r / 2.0);
      HalfIsLarge(r);
      Doubled(Round24(r / 2.0));
    }
  }

  function Distance(x: real, y: real): real {
    if x < y then y - x else x - y
  }

  lemma NearestIsNearest(r: real, i: int)
    ensures Distance(r, NearestEven(r) as real) <= Distance(r, i as real)
  {
    var q := r.Floor;
    if i <= q {
      assert i as real <= q as real;
    } else {
      assert i as real >= q as real + 1.0;
    }
  }

  /** No value with 24 bits is nearer than the rounded one. */
  lemma {:induction false} Round24IsNearest(r: real, f: real)
    requires r >= 0.0 && Has24Bits(f)
    ensures Distance(r, Round24(r)) <= Distance(r, f)
    decreases r.Floor
  {
    if r < TWO_24 as real {
      NearestIsNearest(r, if f < TWO_24 as real then NearestEven(f) else TWO_24);
    } else if f < TWO_24 as real {
      Round24IsNearest(r / 2.0, TWO_23 as real);
    } else {
      Round24IsNearest(r / 2.0, f / 2.0);
    }
  }

  lemma {:induction false} RoundFractionTwice(r: real, bits: nat)
    requires r >= 0.0
    ensures RoundFraction(RoundFraction(r, bits), bits) == RoundFraction(r, bits)
    decreases bits
  {
    if bits == 0 {
      RoundIsRounded(r);
    } else {
      RoundFractionTwice(2.0 * r, bits - 1);
    }
  }

  lemma {:induction false} RoundFractionIsNearest(r: real, f: real, bits: nat)
    requires r >= 0.0 && f >= 0.0 && RoundFraction(f, bits) == f
    ensures Distance(r, RoundFraction(r, bits)) <= Distance(r, f)
    decreases bits
  {
    if bits == 0 {
      Round24IsNearest(r, f);
    } else {
      RoundFractionIsNearest(2.0 * r, 2.0 * f, bits - 1);
    }
  }

  /** Narrowing a narrowed value changes nothing. */
  lemma NarrowTwice(d: Double)
    ensures Narrow(Narrow(d)) == Narrow(d)
  {
    if d.Finite? {
      RoundFractionTwice(if d.r < 0.0 then -d.r else d.r, FRACTION_BITS);
    }
  }

  /** The finite binary32 values: those that narrowing leaves alone. */
  predicate IsFloat(f: real) {
    Narrow(Finite(f)) == Finite(f)
  }

  /** Narrowing gives a binary32 value, and none is nearer. */
  lemma NarrowIsNearest(r: real, f: real)
    requires Narrow(Finite(r)).Finite? && IsFloat(f)
    ensures IsFloat(Narrow(Finite(r)).r)
    ensures Distance(r, Narrow(Finite(r)).r) <= Distance(r, f)
  {
    NarrowTwice(Finite(r));
    var m := if r < 0.0 then -r else r;
    RoundFractionIsNearest(m, if f < 0.0 then -f else f, FRACTION_BITS);
  }
}
