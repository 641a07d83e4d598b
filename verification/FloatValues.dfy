/** The values that binary32 and binary64 hold, as integers times powers of two (section 3.3 of IEEE
    754-2019), and what rounding to them does at the edges and at ties. */
module FloatValues {
  import opened Arithmetic
  import opened NumberChecks
  import opened Binary32

  function Power(e: int): (p: real)
    ensures p > 0.0
    decreases if e < 0 then -e else e
  {
    if e == 0 then 1.0 else if e > 0 then 2.0 * Power(e - 1) else Power(e + 1) / 2.0
  }

  lemma PowerStep(e: int)
    ensures Power(e + 1) == 2.0 * Power(e)
  {
  }

  /** m * 2^e, an integer scaled by a power of two. */
  function Scaled(m: int, e: int): real {
    m as real * Power(e)
  }

  lemma ScaledStep(m: int, e: int)
    ensures Scaled(m, e + 1) == 2.0 * Scaled(m, e) == Scaled(2 * m, e)
  {
    PowerStep(e);
    var x, p := m as real, Power(e);
    assert x * (2.0 * p) == 2.0 * (x * p) == (2.0 * x) * p;
  }

  // ---------- what binary32 holds ----------

  /** f has at most 24 significant bits, none below 2^-bits. */
  ghost predicate Fits24(f: real, bits: nat) {
    exists m: nat, e: int :: m < 0x100_0000 && 0 - bits <= e && f == Scaled(m, e)
  }

  lemma Fits24Is(f: real, bits: nat, m: nat, e: int)
    requires m < 0x100_0000 && 0 - bits <= e && f == Scaled(m, e)
    ensures Fits24(f, bits)
  {
  }

  /** m * 2^e in the integers. */
  function Shift(m: int, e: nat): int {
    if e == 0 then m else 2 * Shift(m, e - 1)
  }

  lemma {:induction false} ScaledIsShift(m: int, e: nat)
    ensures Scaled(m, e) == Shift(m, e) as real
    decreases e
  {
    if e > 0 {
      ScaledIsShift(m, e - 1);
      ScaledStep(m, e - 1);
    }
  }

  lemma {:induction false} RoundFixesScaled(m: nat, e: nat)
    requires m < 0x100_0000
    ensures Scaled(m, e) >= 0.0 && Round24(Scaled(m, e)) == Scaled(m, e)
    decreases e
  {
    if e == 0 {
      SmallInteger(m);
    } else {
      RoundFixesScaled(m, e - 1);
      ScaledStep(m, e - 1);
      var v := Scaled(m, e - 1);
      if 2.0 * v >= TWO_24 as real {
        Doubled(v);
      } else {
        ScaledIsShift(m, e);
        SmallInteger(Shift(m, e));
      }
    }
  }

  lemma {:induction false} FixedIsScaled(y: real)
    requires y >= 0.0 && Round24(y) == y
    ensures Fits24(y, 0)
    decreases y.Floor
  {
    if y < TWO_24 as real {
      var n := NearestEven(y);
      assert 0 <= n && y == n as real;
      Fits24Is(y, 0, n, 0);
    } else {
      HalfIsLarge(y);
      FixedIsScaled(y / 2.0);
      var m: nat, e: int :| m < 0x100_0000 && 0 <= e && y / 2.0 == Scaled(m, e);
      ScaledStep(m, e);
      Fits24Is(y, 0, m, e + 1);
    }
  }

  lemma {:induction false} RoundFractionFixes(f: real, bits: nat)
    requires f >= 0.0
    ensures RoundFraction(f, bits) == f <==> Fits24(f, bits)
    decreases bits
  {
    if bits == 0 {
      if Round24(f) == f { FixedIsScaled(f); }
      if Fits24(f, 0) {
        var m: nat, e: int :| m < 0x100_0000 && 0 <= e && f == Scaled(m, e);
        RoundFixesScaled(m, e);
      }
    } else {
      RoundFractionFixes(2.0 * f, bits - 1);
      if Fits24(2.0 * f, bits - 1) {
        var m: nat, e: int :| m < 0x100_0000 && 1 - bits <= e && 2.0 * f == Scaled(m, e);
        ScaledStep(m, e - 1);
        Fits24Is(f, bits, m, e - 1);
      }
      if Fits24(f, bits) {
        var m: nat, e: int :| m < 0x100_0000 && 0 - bits <= e && f == Scaled(m, e);
        ScaledStep(m, e);
        Fits24Is(2.0 * f, bits - 1, m, e + 1);
      }
    }
  }

  // ---------- the range ----------

  lemma {:induction false} PowerAdds(a: nat, b: nat)
    ensures Power(a + b) == Power(a) * Power(b)
    decreases a
  {
    if a > 0 {
      PowerAdds(a - 1, b);
      var x, y := Power(a - 1), Power(b);
      assert 2.0 * (x * y) == (2.0 * x) * y;
    }
  }

  lemma {:induction false} PowerGrows(a: int, b: int)
    requires a <= b
    ensures Power(a) <= Power(b)
    decreases b - a
  {
    if a < b {
      PowerGrows(a, b - 1);
      PowerStep(b - 1);
    }
  }

  lemma SmallPowers()
    ensures Power(8) == 256.0 && Power(16) == 65536.0
    ensures Power(23) == 0x80_0000 as real && Power(24) == 0x100_0000 as real
  {
    assert Power(4) == 16.0 && Power(8) == 256.0;
    PowerAdds(8, 8);
    PowerAdds(16, 8);
    PowerStep(23);
  }

  lemma MiddlePowers()
    ensures Power(32) == 0x1_0000_0000 as real && Power(64) == 0x1_0000_0000_0000_0000 as real
  {
    SmallPowers();
    PowerAdds(16, 16);
    PowerAdds(32, 32);
  }

  lemma LargePowers()
    ensures Power(104) == 0x100_0000_0000_0000_0000_0000_0000 as real && Power(105) == 2.0 * Power(104)
    ensures Power(128) == 0x1_0000_0000_0000_0000_0000_0000_0000_0000 as real
  {
    SmallPowers();
    MiddlePowers();
    PowerAdds(64, 32);
    PowerAdds(96, 8);
    PowerAdds(104, 24);
    PowerStep(104);
  }

  lemma ScaledMonotone(m: int, k: int, e: int)
    requires m <= k
    ensures Scaled(m, e) <= Scaled(k, e)
  {
    var x, y, p := m as real, k as real, Power(e);
    assert (y - x) * p >= 0.0 && (y - x) * p == y * p - x * p;
  }

  lemma ScaledGrows(m: nat, d: int, e: int)
    requires d <= e
    ensures Scaled(m, d) <= Scaled(m, e)
  {
    PowerGrows(d, e);
    var x, p, q := m as real, Power(d), Power(e);
    assert x * (q - p) >= 0.0 && x * (q - p) == x * q - x * p;
  }

  /** Below 2^128 the exponent need not exceed 104. */
  ghost predicate InRange(f: real) {
    exists m: nat, e: int :: m < 0x100_0000 && -149 <= e <= 104 && f == Scaled(m, e)
  }

  lemma InRangeIs(f: real, m: nat, e: int)
    requires m < 0x100_0000 && -149 <= e <= 104 && f == Scaled(m, e)
    ensures InRange(f)
  {
  }

  lemma BigExponent(m: nat, e: int)
    requires e > 104 && Scaled(m, e) < LIMIT
    ensures m < 0x80_0000
  {
    if m >= 0x80_0000 {
      ScaledMonotone(0x80_0000, m, e);
      ScaledGrows(0x80_0000, 105, e);
      LargePowers();
    }
  }

  lemma {:induction false} LowerExponent(m: nat, e: int)
    requires m < 0x100_0000 && -149 <= e && Scaled(m, e) < LIMIT
    ensures InRange(Scaled(m, e))
    decreases e + 149
  {
    if e <= 104 {
      InRangeIs(Scaled(m, e), m, e);
    } else {
      BigExponent(m, e);
      ScaledStep(m, e - 1);
      LowerExponent(2 * m, e - 1);
    }
  }

  /** The largest binary32 value bounds the others. */
  lemma InRangeBound(f: real)
    requires InRange(f)
    ensures 0.0 <= f <= Scaled(0xFF_FFFF, 104) == 0xFFFF_FF00_0000_0000_0000_0000_0000_0000 as real < LIMIT
  {
    var m: nat, e: int :| m < 0x100_0000 && -149 <= e <= 104 && f == Scaled(m, e);
    ScaledMonotone(m, 0xFF_FFFF, e);
    ScaledMonotone(0, m, e);
    ScaledGrows(0xFF_FFFF, e, 104);
    LargePowers();
  }

  /** The magnitudes of binary32 values. */
  lemma MagnitudeExactly(f: real)
    requires f >= 0.0
    ensures NarrowMagnitude(f) == Finite(f) <==> InRange(f)
  {
    RoundFractionFixes(f, 149);
    if NarrowMagnitude(f) == Finite(f) {
      var m: nat, e: int :| m < 0x100_0000 && 0 - 149 <= e && f == Scaled(m, e);
      LowerExponent(m, e);
    }
    if InRange(f) {
      InRangeBound(f);
      var m: nat, e: int :| m < 0x100_0000 && -149 <= e <= 104 && f == Scaled(m, e);
      Fits24Is(f, 149, m, e);
    }
  }

  lemma ScaledNegates(m: int, e: int)
    ensures Scaled(-m, e) == -Scaled(m, e)
  {
  }

  /** The values narrowing leaves alone are those with a significand below 2^24 and an exponent from -149
      to 104. */
  lemma IsFloatExactly(f: real)
    ensures IsFloat(f) <==>
      exists m: int, e: int :: -0x100_0000 < m < 0x100_0000 && -149 <= e <= 104 && f == Scaled(m, e)
  {
    MagnitudeExactly(if f < 0.0 then -f else f);
    if IsFloat(f) {
      var m: nat, e: int :| m < 0x100_0000 && -149 <= e <= 104 && (if f < 0.0 then -f else f) == Scaled(m, e);
      ScaledNegates(m, e);
      var k: int := if f < 0.0 then 0 - m else m;
      assert -0x100_0000 < k < 0x100_0000 && f == Scaled(k, e);
    }
    if m: int, e: int :| -0x100_0000 < m < 0x100_0000 && -149 <= e <= 104 && f == Scaled(m, e) {
      SignedInRange(f, m, e);
    }
  }

  lemma SignedInRange(f: real, m: int, e: int)
    requires -0x100_0000 < m < 0x100_0000 && -149 <= e <= 104 && f == Scaled(m, e)
    ensures InRange(if f < 0.0 then -f else f)
  {
    ScaledNegates(m, e);
    if m < 0 {
      ScaledMonotone(m, 0, e);
      InRangeIs(-f, -m, e);
      assert f == 0.0 ==> -f == f;
    } else {
      ScaledMonotone(0, m, e);
      InRangeIs(f, m, e);
    }
  }

  // ---------- the edge of the range ----------

  /** Half a unit above the largest value, rounded at any scale. */
  lemma {:induction false} EdgeRounds(k: nat)
    ensures Scaled(0x1FF_FFFF, k - 1) >= 16777215.5
    ensures Round24(Scaled(0x1FF_FFFF, k - 1)) == Scaled(0x100_0000, k)
    decreases k
  {
    if k == 0 {
      assert Scaled(0x1FF_FFFF, -1) == 16777215.5;
      assert NearestEven(16777215.5) == 0x100_0000;
    } else {
      EdgeRounds(k - 1);
      ScaledStep(0x1FF_FFFF, k - 2);
      ScaledStep(0x100_0000, k - 1);
      HalfIsLarge(Scaled(0x1FF_FFFF, k - 1));
      assert Scaled(0x1FF_FFFF, k - 1) / 2.0 == Scaled(0x1FF_FFFF, k - 2);
    }
  }

  lemma {:induction false} EdgeRoundsFraction(k: nat, bits: nat)
    ensures Scaled(0x1FF_FFFF, k - 1) >= 0.0
    ensures RoundFraction(Scaled(0x1FF_FFFF, k - 1), bits) == Scaled(0x100_0000, k)
    decreases bits
  {
    EdgeRounds(k);
    if bits > 0 {
      EdgeRoundsFraction(k + 1, bits - 1);
      ScaledStep(0x1FF_FFFF, k - 1);
      ScaledStep(0x100_0000, k);
    }
  }

  const EDGE: real := 0xFFFF_FF80_0000_0000_0000_0000_0000_0000 as real

  lemma BelowEdge(r: real)
    requires 0.0 <= r < EDGE
    ensures NarrowMagnitude(r).Finite?
  {
    var top := Scaled(0xFF_FFFF, 104);
    InRangeIs(top, 0xFF_FFFF, 104);
    InRangeBound(top);
    MagnitudeExactly(top);
    RoundFractionIsNearest(r, top, 149);
  }

  lemma AtEdge()
    ensures NarrowMagnitude(EDGE) == PosInf
  {
    LargePowers();
    EdgeRoundsFraction(104, 149);
    PowerStep(103);
    assert Scaled(0x1FF_FFFF, 103) == EDGE;
    assert Scaled(0x100_0000, 104) == LIMIT;
  }

  lemma AboveEdge(r: real)
    requires r > EDGE
    ensures NarrowMagnitude(r) == PosInf
  {
    var n := RoundFraction(r, 149);
    LargePowers();
    Fits24Is(LIMIT, 149, 1, 128);
    RoundFractionFixes(LIMIT, 149);
    RoundFractionIsNearest(r, LIMIT, 149);
    if n < LIMIT {
      RoundFractionTwice(r, 149);
      MagnitudeExactly(n);
      InRangeBound(n);
    }
  }

  /** Narrowing overflows exactly from half a unit beyond the largest value on, 2^128 - 2^103. */
  lemma NarrowIsFiniteExactly(r: real)
    ensures Narrow(Finite(r)).Finite? <==>
      -(0xFFFF_FF80_0000_0000_0000_0000_0000_0000 as real) < r < 0xFFFF_FF80_0000_0000_0000_0000_0000_0000 as real
    ensures Narrow(Finite(r)) != NaN
    ensures (Narrow(Finite(r)) == PosInf ==> r > 0.0) && (Narrow(Finite(r)) == NegInf ==> r < 0.0)
  {
    var a := if r < 0.0 then -r else r;
    AtEdge();
    if a < EDGE { BelowEdge(a); } else if a > EDGE { AboveEdge(a); }
    BelowEdge(0.0);
  }

  // ---------- ties ----------

  /** n is an even and f an odd multiple of one power of two. */
  ghost predicate EvenOverOdd(n: real, f: real) {
    exists a: int, b: int, e: int :: a % 2 == 0 && b % 2 == 1 && n == Scaled(a, e) && f == Scaled(b, e)
  }

  lemma EvenOverOddIs(n: real, f: real, a: int, b: int, e: int)
    requires a % 2 == 0 && b % 2 == 1 && n == Scaled(a, e) && f == Scaled(b, e)
    ensures EvenOverOdd(n, f)
  {
  }

  lemma EvenOverOddScales(n: real, f: real)
    ensures EvenOverOdd(n, f) <==> EvenOverOdd(2.0 * n, 2.0 * f)
  {
    if EvenOverOdd(n, f) {
      var a: int, b: int, e: int :| a % 2 == 0 && b % 2 == 1 && n == Scaled(a, e) && f == Scaled(b, e);
      ScaledStep(a, e);
      ScaledStep(b, e);
      EvenOverOddIs(2.0 * n, 2.0 * f, a, b, e + 1);
    }
    if EvenOverOdd(2.0 * n, 2.0 * f) {
      var a: int, b: int, e: int :| a % 2 == 0 && b % 2 == 1 && 2.0 * n == Scaled(a, e) && 2.0 * f == Scaled(b, e);
      ScaledStep(a, e - 1);
      ScaledStep(b, e - 1);
      EvenOverOddIs(n, f, a, b, e - 1);
    }
  }

  lemma EvenOverOddNegates(n: real, f: real)
    requires EvenOverOdd(n, f)
    ensures EvenOverOdd(-n, -f)
  {
    var a: int, b: int, e: int :| a % 2 == 0 && b % 2 == 1 && n == Scaled(a, e) && f == Scaled(b, e);
    ScaledNegates(a, e);
    ScaledNegates(b, e);
    EvenOverOddIs(-n, -f, -a, -b, e);
  }

  /** A value with 24 bits close to a small number is an integer. */
  lemma NearbyIsInteger(f: real)
    requires Has24Bits(f) && f < 16777216.75
    ensures f == f.Floor as real
  {
    if f >= TWO_24 as real {
      HalfIsLarge(f);
      assert Round24(f / 2.0) == f / 2.0;
    }
  }

  lemma {:induction false} Round24Ties(r: real, f: real)
    requires r >= 0.0 && Has24Bits(f) && f != Round24(r) && Distance(r, f) == Distance(r, Round24(r))
    ensures EvenOverOdd(Round24(r), f)
    decreases r.Floor
  {
    var n := Round24(r);
    if r < TWO_24 as real {
      SmallTies(r, f);
    } else {
      HalfIsLarge(r);
      if f >= TWO_24 as real {
        HalfIsLarge(f);
        Round24Ties(r / 2.0, f / 2.0);
        EvenOverOddScales(Round24(r / 2.0), f / 2.0);
        assert 2.0 * (f / 2.0) == f;
      } else {
        SmallInteger(TWO_23);
        Round24IsNearest(r / 2.0, TWO_23 as real);
      }
    }
  }

  lemma SmallTies(r: real, f: real)
    requires 0.0 <= r < TWO_24 as real && Has24Bits(f) && f != Round24(r) && Distance(r, f) == Distance(r, Round24(r))
    ensures EvenOverOdd(Round24(r), f)
  {
    var n, k := NearestEven(r), f.Floor;
    assert Round24(r) == n as real && Distance(r, n as real) <= 0.5;
    NearbyIsInteger(f);
    IntegerTies(r, k);
    assert Scaled(n, 0) == n as real && Scaled(k, 0) == k as real;
    EvenOverOddIs(Round24(r), f, n, k, 0);
  }

  lemma IntegerTies(r: real, k: int)
    requires k != NearestEven(r) && Distance(r, k as real) == Distance(r, NearestEven(r) as real)
    ensures NearestEven(r) % 2 == 0 && k % 2 == 1
  {
    var n, q := NearestEven(r), r.Floor;
    assert n == q || n == q + 1;
    assert k == q || k == q + 1;
  }

  lemma {:induction false} RoundFractionTies(r: real, f: real, bits: nat)
    requires r >= 0.0 && f >= 0.0 && RoundFraction(f, bits) == f && f != RoundFraction(r, bits)
    requires Distance(r, f) == Distance(r, RoundFraction(r, bits))
    ensures EvenOverOdd(RoundFraction(r, bits), f)
    decreases bits
  {
    if bits == 0 {
      Round24Ties(r, f);
    } else {
      RoundFractionTies(2.0 * r, 2.0 * f, bits - 1);
      EvenOverOddScales(RoundFraction(r, bits), f);
    }
  }

  /** Of two binary32 values that are equally near, narrowing takes the one that is an even multiple. */
  lemma NarrowTiesToEven(r: real, f: real)
    requires Narrow(Finite(r)).Finite? && IsFloat(f)
    requires f != Narrow(Finite(r)).r && Distance(r, f) == Distance(r, Narrow(Finite(r)).r)
    ensures EvenOverOdd(Narrow(Finite(r)).r, f)
  {
    var negative := r < 0.0;
    var a, g := if negative then -r else r, if negative then -f else f;
    assert IsFloat(-f);
    Fits24Is(0.0, 149, 0, 0);
    RoundFractionFixes(0.0, 149);
    RoundFractionIsNearest(a, 0.0, 149);
    assert g >= 0.0;
    RoundFractionTies(a, g, 149);
    if negative { EvenOverOddNegates(RoundFraction(a, 149), g); }
  }

  // ---------- what binary64 holds ----------

  /** m has at most 53 significant bits. */
  ghost predicate Fits53(m: nat) {
    exists k: nat, e: nat :: k < 0x20_0000_0000_0000 && m == Shift(k, e)
  }

  lemma {:induction false} ExactNatExactly(m: nat)
    ensures m % Spacing(m) == 0 <==> Fits53(m)
    decreases m
  {
    if m < TWO_53 {
      assert m == Shift(m, 0);
    } else {
      ExactNatExactly(m / 2);
      if m % Spacing(m) == 0 { ExactHalves(m, Spacing(m / 2)); }
      if Fits53(m) { Fits53Halves(m); }
    }
  }

  lemma Fits53Halves(m: nat)
    requires m >= TWO_53 && Fits53(m) && ((m / 2) % Spacing(m / 2) == 0 <==> Fits53(m / 2))
    ensures m % Spacing(m) == 0
  {
    var k: nat, e: nat :| k < 0x20_0000_0000_0000 && m == Shift(k, e);
    assert e > 0 && m == 2 * Shift(k, e - 1);
    assert m / 2 == Shift(k, e - 1);
    DoublesDivide(m / 2, Spacing(m / 2));
  }

  lemma DoublesDivide(h: nat, s: nat)
    requires s >= 1 && h % s == 0
    ensures (2 * h) % (2 * s) == 0
  {
    var q := h / s;
    assert h == q * s;
    assert 2 * h == q * (2 * s);
    DivUnique(2 * h, 2 * s, q, 0);
  }

  lemma ExactHalves(m: nat, s: nat)
    requires m >= TWO_53 && s == Spacing(m / 2) && m % (2 * s) == 0 && ((m / 2) % s == 0 <==> Fits53(m / 2))
    ensures Fits53(m)
  {
    var q := m / (2 * s);
    assert m == q * (2 * s);
    assert m == 2 * (q * s);
    DivUnique(m / 2, s, q, 0);
    var k: nat, e: nat :| k < 0x20_0000_0000_0000 && m / 2 == Shift(k, e);
    assert m == Shift(k, e + 1);
  }

  lemma {:induction false} ShiftNegates(m: int, e: nat)
    ensures Shift(-m, e) == -Shift(m, e) && (m >= 0 ==> Shift(m, e) >= 0)
    decreases e
  {
    if e > 0 { ShiftNegates(m, e - 1); }
  }

  /** The integers that binary64 holds are those with a significand below 2^53. */
  lemma ExactExactly(m: int)
    ensures Exact(m) <==>
      exists k: int, e: nat :: -0x20_0000_0000_0000 < k < 0x20_0000_0000_0000 && m == Shift(k, e)
  {
    var a: nat := if m < 0 then -m else m;
    ExactNatExactly(a);
    if Exact(m) {
      var k: nat, e: nat :| k < 0x20_0000_0000_0000 && a == Shift(k, e);
      ShiftNegates(k, e);
      var j: int := if m < 0 then 0 - k else k;
      assert -0x20_0000_0000_0000 < j < 0x20_0000_0000_0000 && m == Shift(j, e);
    }
    if k: int, e: nat :| -0x20_0000_0000_0000 < k < 0x20_0000_0000_0000 && m == Shift(k, e) {
      ShiftNegates(k, e);
      ShiftNegates(-k, e);
      var j: nat := if k < 0 then -k else k;
      assert a == Shift(j, e);
    }
  }
}
