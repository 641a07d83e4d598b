/** The integer checks of the Lua binding (lua/upb.c): which Lua numbers are accepted as
    32-bit and 64-bit integers, and what a pushed integer looks like when it is checked again.

    A Lua number is a 64-bit integer or a binary64 value.  A finite binary64 value is modelled by
    the real number it denotes; rounding is modelled where the source rounds. */
module NumberChecks {
  import opened Arithmetic
  import opened Options

  datatype Double = Finite(r: real) | PosInf | NegInf | NaN

  datatype LuaNumber = Integer(i: int) | Float(d: Double)

  datatype IntType = Int64T | Int32T | UInt64T | UInt32T

  function Min(t: IntType): int {
    match t
    case Int64T => -TWO_63
    case Int32T => -TWO_31
    case UInt64T => 0
    case UInt32T => 0
  }

  function Max(t: IntType): int {
    match t
    case Int64T => TWO_63 - 1
    case Int32T => TWO_31 - 1
    case UInt64T => TWO_64 - 1
    case UInt32T => TWO_32 - 1
  }

  /** A Lua integer is a signed 64-bit number. */
  predicate IsLuaNumber(n: LuaNumber) {
    n.Integer? ==> -TWO_63 <= n.i < TWO_63
  }

  // ---------- rounding to binary64 (section 4.3.1 of IEEE 754-2019, ties to even) ----------

  /** The distance between neighbouring binary64 values in the binade of m. */
  function Spacing(m: nat): (s: nat)
    ensures s >= 1
    decreases m
  {
    if m < TWO_53 then 1 else 2 * Spacing(m / 2)
  }

  function RoundNat(m: nat): nat {
    NearerMultiple(Spacing(m), m / Spacing(m), m % Spacing(m))
  }

  /** The multiple of s nearest to q * s + r; of two, the even one. */
  function NearerMultiple(s: nat, q: nat, r: nat): nat {
    if 2 * r < s || (2 * r == s && q % 2 == 0) then q * s else (q + 1) * s
  }

  function Round(m: int): int {
    if m < 0 then 0 - RoundNat(-m) else RoundNat(m)
  }

  /** Integers that binary64 holds exactly. */
  predicate Exact(m: int) {
    var a := if m < 0 then -m else m;
    a % Spacing(a) == 0
  }

  /** The scale of a binade: a power of two times 2^53. */
  lemma {:induction false} SpacingBounds(m: nat)
    ensures m < TWO_53 * Spacing(m)
    ensures m >= TWO_53 ==> TWO_53 * Spacing(m) <= 2 * m
    decreases m
  {
    if m >= TWO_53 {
      SpacingBounds(m / 2);
    }
  }

  /** Spacings are powers of two, so the smaller of two divides the larger. */
  lemma {:induction false} SpacingDivides(a: nat, b: nat)
    requires a <= b
    ensures Spacing(a) <= Spacing(b) && Spacing(b) % Spacing(a) == 0
    decreases b
  {
    if b < TWO_53 {
    } else if a < TWO_53 {
    } else {
      SpacingDivides(a / 2, b / 2);
      var x, y := Spacing(a / 2), Spacing(b / 2);
      var k := y / x;
      assert y == k * x;
      assert 2 * y == k * (2 * x);
      DivUnique(2 * y, 2 * x, k, 0);
    }
  }

  /** A divisor of s that exceeds s / 2 is s. */
  lemma BigDivisor(x: nat, s: nat)
    requires 1 <= x <= s && s % x == 0 && s < 2 * x
    ensures x == s
  {
    DivUnique(s, x, 1, s - x);
  }

  /** Numbers from the floor of m up to m share m's binade. */
  lemma SameBinade(m: nat, s: nat, q: nat, r: nat, d: nat)
    requires s == Spacing(m) && m == q * s + r && r < s && q * s <= d <= m
    ensures Spacing(d) == s
  {
    SpacingBounds(m);
    SpacingDivides(d, m);
    if s > 1 {
      CompareMultiples(TWO_53 / 2, q, s, r);
      if q - TWO_53 / 2 >= 1 { MulAtLeast(q - TWO_53 / 2, s); }
      assert q * s >= TWO_53 / 2 * s by { assert (q - TWO_53 / 2) * s == q * s - TWO_53 / 2 * s; }
      SpacingBounds(d);
      BigDivisor(Spacing(d), s);
    }
  }

  /** An exact integer is either at most the floor of m or at least its ceiling. */
  lemma ExactOutsideGap(m: nat, s: nat, q: nat, r: nat, d: nat)
    requires s == Spacing(m) && m == q * s + r && r < s && Exact(d)
    ensures d <= q * s || d >= (q + 1) * s
  {
    var x := Spacing(d);
    var j := d / x;
    assert d == j * x;
    if q * s < d {
      if d <= m {
        SameBinade(m, s, q, r, d);
        CompareMultiples(j, q, s, r);
        MulMonotone(j, q, s);
      } else {
        SpacingDivides(m, d);
        var k := x / s;
        assert x == s * k + x % s;
        MulAssoc(j, k, s);
        CompareMultiplesStrict(q, j * k, s);
        MulMonotone(q + 1, j * k, s);
      }
    }
  }

  lemma FloorExact(m: nat, s: nat, q: nat, r: nat)
    requires s == Spacing(m) && m == q * s + r && r < s
    ensures Exact(q * s)
  {
    SameBinade(m, s, q, r, q * s);
    DivUnique(q * s, s, q, 0);
  }

  lemma CeilingExact(m: nat, s: nat, q: nat, r: nat)
    requires s == Spacing(m) && m == q * s + r && r < s
    ensures Exact((q + 1) * s)
  {
    var c := (q + 1) * s;
    assert c == q * s + s;
    SpacingBounds(m);
    CompareMultiplesStrict(q, TWO_53, s);
    MulMonotone(q + 1, TWO_53, s);
    SpacingDivides(m, c);
    SpacingBounds(c);
    DivUnique(c, s, q + 1, 0);
    NextSpacing(c, Spacing(c), s);
  }

  lemma NextSpacing(c: nat, x: nat, s: nat)
    requires 1 <= s <= x && x % s == 0 && c % s == 0 && c <= TWO_53 * s
    requires x > s ==> TWO_53 * x <= 2 * c
    ensures c % x == 0
  {
    if x > s {
      assert x <= 2 * s;
      if x < 2 * s { DivUnique(x, s, 1, x - s); }
      DivUnique(c, x, TWO_53 / 2, 0);
    }
  }

  lemma ExactNat(m: nat, s: nat, q: nat, r: nat)
    requires s == Spacing(m) && q == m / s && r == m % s
    ensures m == q * s + r && r < s && Exact(q * s) && Exact((q + 1) * s)
  {
    assert m == q * s + r;
    FloorExact(m, s, q, r);
    CeilingExact(m, s, q, r);
  }

  /** Nothing outside the gap around q * s + r is nearer to it. */
  lemma NearerMultipleIsNearest(s: nat, q: nat, r: nat, d: int)
    requires r < s && (d <= q * s || d >= (q + 1) * s)
    ensures Abs(NearerMultiple(s, q, r) - (q * s + r)) <= Abs(d - (q * s + r))
  {
    NextMultiple(q, s);
  }

  lemma RoundNatIsNearest(m: nat, d: int)
    requires Exact(d)
    ensures Exact(RoundNat(m)) && Abs(RoundNat(m) - m) <= Abs(d - m)
  {
    var s := Spacing(m);
    var q, r := m / s, m % s;
    ExactNat(m, s, q, r);
    if d >= 0 {
      ExactOutsideGap(m, s, q, r, d);
    } else {
      MulMonotone(0, q, s);
    }
    NearerMultipleIsNearest(s, q, r, d);
  }

  /** Round returns an exact integer and no exact integer is nearer. */
  lemma RoundIsNearest(m: int, d: int)
    requires Exact(d)
    ensures Exact(Round(m)) && Abs(Round(m) - m) <= Abs(d - m)
  {
    RoundNatIsNearest(Abs(m), if m < 0 then -d else d);
  }

  function Abs(x: int): nat {
    if x < 0 then -x else x
  }

  lemma RoundFixesExactly(m: int)
    ensures Round(m) == m <==> Exact(m)
  {
    RoundIsNearest(m, 0);
    if Exact(m) {
      RoundIsNearest(m, m);
    }
  }

  // ---------- the checks ----------

  /** The double bound the check computes: halving and doubling are exact in binary64, so only
      the conversion of the maximum and the final addition round. */
  function MaxValue(t: IntType): int {
    Round(Round(Max(t)) + 1)
  }

  function CheckInt(t: IntType, n: LuaNumber): Option<int> {
    match n
    case Integer(i) => if i < Min(t) || i > Max(t) then None else Some(i)
    case Float(NaN) => None
    case Float(PosInf) => None
    case Float(NegInf) => None
    case Float(Finite(r)) =>
      if r.Floor as real != r || r < Min(t) as real || r >= MaxValue(t) as real then None else Some(r.Floor)
  }

  /** Pushing converts to binary64, which rounds large 64-bit values. */
  function Push(v: int): LuaNumber {
    Float(Finite(Round(v) as real))
  }

  lemma SmallSpacings()
    ensures Spacing(TWO_63 - 1) == 1024 && Spacing(TWO_63) == 2048 && Spacing(TWO_63 + 1) == 2048
    ensures Spacing(TWO_64 - 1) == 2048 && Spacing(TWO_64) == 4096 && Spacing(TWO_64 + 1) == 4096
  {
    assert Spacing(TWO_53 - 1) == 1 && Spacing(TWO_53) == 2;
    assert Spacing(TWO_53 * 4 - 1) == 4 && Spacing(TWO_53 * 4) == 8;
    assert Spacing(TWO_53 * 16 - 1) == 16 && Spacing(TWO_53 * 16) == 32;
    assert Spacing(TWO_53 * 64 - 1) == 64 && Spacing(TWO_53 * 64) == 128;
    assert Spacing(TWO_53 * 256 - 1) == 256 && Spacing(TWO_53 * 256) == 512;
    assert Spacing(TWO_53 * 512 - 1) == 512 && Spacing(TWO_53 * 512) == 1024;
    assert Spacing(TWO_63 - 1) == 1024 && Spacing(TWO_63) == 2048;
  }

  lemma RoundByParts(m: nat, s: nat, q: nat, r: nat)
    requires s == Spacing(m) && m == q * s + r && r < s
    ensures Round(m) == if 2 * r < s || (2 * r == s && q % 2 == 0) then q * s else (q + 1) * s
  {
    DivUnique(m, s, q, r);
  }

  lemma Int64Bound()
    ensures Round(TWO_63 - 1) == TWO_63 && Round(TWO_63 + 1) == TWO_63
  {
    SmallSpacings();
    RoundByParts(TWO_63 - 1, 1024, TWO_53 - 1, 1023);
    RoundByParts(TWO_63 + 1, 2048, TWO_53 / 2, 1);
  }

  lemma UInt64Bound()
    ensures Round(TWO_64 - 1) == TWO_64 && Round(TWO_64 + 1) == TWO_64
  {
    SmallSpacings();
    RoundByParts(TWO_64 - 1, 2048, TWO_53 - 1, 2047);
    RoundByParts(TWO_64 + 1, 4096, TWO_53 / 2, 1);
  }

  /** The rounded bound is the first integer out of range, for all four types. */
  lemma BoundIsMaxPlusOne(t: IntType)
    ensures MaxValue(t) == Max(t) + 1
  {
    match t
    case Int64T => Int64Bound();
    case UInt64T => UInt64Bound();
    case Int32T =>
      RoundByParts(TWO_31 - 1, 1, TWO_31 - 1, 0);
      RoundByParts(TWO_31, 1, TWO_31, 0);
    case UInt32T =>
      RoundByParts(TWO_32 - 1, 1, TWO_32 - 1, 0);
      RoundByParts(TWO_32, 1, TWO_32, 0);
  }

  /** A Lua number is accepted exactly when it denotes an integer in range, which is then returned. */
  lemma CheckIntExact(t: IntType, n: LuaNumber, v: int)
    ensures CheckInt(t, n) == Some(v) <==>
      Min(t) <= v <= Max(t) && (n == Integer(v) || n == Float(Finite(v as real)))
  {
    BoundIsMaxPlusOne(t);
  }

  /** Checking a pushed integer gives it back exactly when binary64 holds it; in particular always
      for the 32-bit types. */
  lemma CheckAfterPush(t: IntType, v: int)
    requires Min(t) <= v <= Max(t)
    ensures CheckInt(t, Push(v)) == Some(v) <==> Exact(v)
    ensures t == Int32T || t == UInt32T ==> Exact(v)
  {
    CheckIntExact(t, Push(v), v);
    RoundFixesExactly(v);
  }

  /** A value too large for binary64 comes back different or is refused, never as itself. */
  lemma LossyPush()
    ensures CheckInt(Int64T, Push(TWO_63 - 1)) == None
    ensures CheckInt(Int64T, Push(TWO_53 + 1)) == Some(TWO_53)
  {
    BoundIsMaxPlusOne(Int64T);
    Int64Bound();
    RoundByParts(TWO_53 + 1, 2, TWO_53 / 2, 1);
  }
}
