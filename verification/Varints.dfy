/** Base-128 varints as the conformance suite builds them (conformance/binary_wireformat.cc), and
    the reader of section "Base 128 Varints" of the Protocol Buffers Encoding specification. */
module Varints {
  import opened Arithmetic
  import opened Options
  import opened Sequences

  type Byte = b: int | 0 <= b < 256

  const VARINT_MAX_LEN := 10

  /** The number of base-128 digits of x. */
  function Digits(x: nat): nat {
    if x == 0 then 0 else 1 + Digits(x / 128)
  }

  /** The redundant bytes after the last significant one: continuation bytes and a final zero. */
  function Padding(extra: nat): seq<Byte> {
    if extra == 0 then [] else if extra == 1 then [0] else [0x80] + Padding(extra - 1)
  }

  /** The digits of x, least significant first, followed by padding. */
  function DigitBytes(x: nat, extra: nat): seq<Byte>
    decreases x
  {
    if x == 0 then Padding(extra)
    else [x % 128 + (if x / 128 != 0 || extra != 0 then 0x80 else 0)] + DigitBytes(x / 128, extra)
  }

  /** The varint of x, longer than necessary by `extra` bytes; zero is never lengthened. */
  function VarintBytes(x: nat, extra: nat): seq<Byte> {
    if x == 0 then [0] else DigitBytes(x, extra)
  }

  function Varint(x: nat): seq<Byte> {
    VarintBytes(x, 0)
  }

  /** What LongVarint can encode without running past its buffer. */
  predicate Encodable(x: nat, extra: int) {
    x == 0 || (extra >= 0 && Digits(x) + extra <= VARINT_MAX_LEN)
  }

  lemma {:induction false} DigitsBound(x: nat, n: nat)
    requires x < Power128(n)
    ensures Digits(x) <= n
    decreases n
  {
    if x > 0 {
      DigitsBound(x / 128, n - 1);
    }
  }

  function Power128(n: nat): nat {
    if n == 0 then 1 else 128 * Power128(n - 1)
  }

  lemma SixtyFourBitsFit(x: nat)
    requires x < TWO_64
    ensures Digits(x) <= VARINT_MAX_LEN
  {
    assert Power128(4) == 0x1000_0000;
    assert Power128(8) == 0x100_0000_0000_0000;
    DigitsBound(x, 10);
  }

  lemma {:induction false} DigitBytesLength(x: nat, extra: nat)
    ensures |DigitBytes(x, extra)| == Digits(x) + extra
    decreases x
  {
    if x == 0 { PaddingLength(extra); } else { DigitBytesLength(x / 128, extra); }
  }

  lemma {:induction false} PaddingLength(extra: nat)
    ensures |Padding(extra)| == extra
  {
    if extra > 1 { PaddingLength(extra - 1); }
  }

  /** The first loop of vencode64 has written `done` of x and has val left. */
  ghost predicate DigitsLeft(done: seq<Byte>, val: nat, x: nat, extra: int) {
    |done| + Digits(val) == Digits(x) && (extra >= 0 ==> done + DigitBytes(val, extra) == DigitBytes(x, extra))
  }

  lemma DigitStep(done: seq<Byte>, val: nat, rest: nat, byte: Byte, x: nat, extra: int)
    requires val > 0 && DigitsLeft(done, val, x, extra)
    requires rest == val / 128 && byte == val % 128 + (if rest != 0 || extra != 0 then 0x80 else 0)
    ensures DigitsLeft(done + [byte], rest, x, extra) && rest < val && |done| < Digits(x)
  {
    if extra >= 0 { Associative(done, [byte], DigitBytes(rest, extra)); }
  }

  /** Its second loop has written `done` and has `over` bytes left. */
  ghost predicate PaddingLeft(done: seq<Byte>, over: int, x: nat, extra: int) {
    && |done| >= Digits(x)
    && if extra < 0 then over < 0
       else over >= 0 && |done| + over == Digits(x) + extra && done + Padding(over) == DigitBytes(x, extra)
  }

  lemma PaddingStarts(done: seq<Byte>, x: nat, extra: int)
    requires DigitsLeft(done, 0, x, extra)
    ensures PaddingLeft(done, extra, x, extra)
  {
  }

  lemma PaddingStep(done: seq<Byte>, over: int, x: nat, extra: int)
    requires over != 0 && PaddingLeft(done, over, x, extra)
    ensures PaddingLeft(done + [if over != 1 then 0x80 else 0], over - 1, x, extra)
  {
    if over > 0 { Associative(done, [if over != 1 then 0x80 else 0], Padding(over - 1)); }
  }

  /** Where the second loop ends, and where the assertion in it fires. */
  lemma PaddingEnds(done: seq<Byte>, over: int, x: nat, extra: int)
    requires 0 < x < TWO_64 && PaddingLeft(done, over, x, extra) && |done| <= VARINT_MAX_LEN
    requires over == 0 || |done| == VARINT_MAX_LEN
    ensures over == 0 <==> extra >= 0 && |VarintBytes(x, extra)| <= 10
    ensures over == 0 ==> done == VarintBytes(x, extra)
  {
    if extra >= 0 { DigitBytesLength(x, extra); }
  }

  /** vencode64.  `ok` is false when the source's assertion on the buffer index fires. */
  method VEncode64(x: nat, overEncodedBytes: int, buf: array<Byte>) returns (ok: bool, len: nat)
    requires x < TWO_64 && buf.Length == VARINT_MAX_LEN
    modifies buf
    ensures ok <==> x == 0 || (overEncodedBytes >= 0 && |VarintBytes(x, overEncodedBytes)| <= 10)
    ensures len <= VARINT_MAX_LEN
    ensures ok ==> buf[..len] == VarintBytes(x, if x == 0 then 0 else overEncodedBytes)
  {
    if x == 0 {
      buf[0] := 0;
      return true, 1;
    }
    SixtyFourBitsFit(x);
    var val, over, i := x, overEncodedBytes, 0;
    ghost var done: seq<Byte> := [];
    while val != 0
      invariant 0 <= i == |done| <= Digits(x) && buf[..i] == done
      invariant DigitsLeft(done, val, x, overEncodedBytes)
    {
      ghost var before := val;
      var byte := val % 128;
      val := val / 128;
      if val != 0 || over != 0 {
        byte := byte + 0x80;
      }
      DigitStep(done, before, val, byte, x, overEncodedBytes);
      buf[i], done := byte, done + [byte];
      i := i + 1;
    }
    PaddingStarts(done, x, overEncodedBytes);
    while over != 0
      invariant 0 <= i == |done| <= VARINT_MAX_LEN && buf[..i] == done
      invariant PaddingLeft(done, over, x, overEncodedBytes)
      decreases VARINT_MAX_LEN - i
    {
      PaddingStep(done, over, x, overEncodedBytes);
      ghost var left := over;
      over := over - 1;
      if i >= 10 {
        PaddingEnds(done, left, x, overEncodedBytes);
        return false, i;
      }
      var byte := if over != 0 then 0x80 else 0;
      buf[i], done := byte, done + [byte];
      i := i + 1;
    }
    PaddingEnds(done, over, x, overEncodedBytes);
    return true, i;
  }

  // ---------- reading ----------

  /** At most `limit` bytes, the last of which has its top bit clear; each contributes seven bits. */
  function ReadDigits(b: seq<Byte>, limit: nat): (r: Option<(nat, seq<Byte>)>)
    ensures r.Some? ==> |r.value.1| < |b|
    decreases b
  {
    if limit == 0 || b == [] then None
    else if b[0] < 0x80 then Some((b[0], b[1..]))
    else match ReadDigits(b[1..], limit - 1)
      case Some((v, rest)) => Some((b[0] - 0x80 + 128 * v, rest))
      case None => None
  }

  /** A 64-bit varint of at most ten bytes, and the bytes after it. */
  function ReadVarint(b: seq<Byte>): (r: Option<(nat, seq<Byte>)>)
    ensures r.Some? ==> |r.value.1| < |b| && r.value.0 < TWO_64
  {
    match ReadDigits(b, VARINT_MAX_LEN)
    case Some((v, rest)) => Some((v % TWO_64, rest))
    case None => None
  }

  lemma {:induction false} ReadPadding(extra: nat, rest: seq<Byte>, limit: nat)
    requires 1 <= extra <= limit
    ensures ReadDigits(Padding(extra) + rest, limit) == Some((0, rest))
  {
    var b := Padding(extra) + rest;
    if extra == 1 {
      assert b[1..] == rest;
    } else {
      ReadPadding(extra - 1, rest, limit - 1);
      assert b[1..] == Padding(extra - 1) + rest;
    }
  }

  lemma {:induction false} ReadDigitBytes(x: nat, extra: nat, rest: seq<Byte>, limit: nat)
    requires x > 0 && Digits(x) + extra <= limit
    ensures ReadDigits(DigitBytes(x, extra) + rest, limit) == Some((x, rest))
    decreases x
  {
    var b := DigitBytes(x, extra) + rest;
    assert b[1..] == DigitBytes(x / 128, extra) + rest;
    if x / 128 > 0 {
      ReadDigitBytes(x / 128, extra, rest, limit - 1);
    } else if extra > 0 {
      ReadPadding(extra, rest, limit - 1);
    } else {
      assert b[1..] == rest;
    }
  }

  /** Reading an encoding followed by any bytes gives back the value and those bytes. */
  lemma VarintRoundTrip(x: nat, extra: nat, rest: seq<Byte>)
    requires x < TWO_64 && Encodable(x, extra)
    ensures ReadVarint(VarintBytes(x, extra) + rest) == Some((x, rest))
  {
    if x == 0 {
      assert ([0] + rest)[1..] == rest;
    } else {
      ReadDigitBytes(x, extra, rest, VARINT_MAX_LEN);
    }
  }

  /** A value other than zero takes exactly `extra` bytes more than it needs; zero always takes one. */
  lemma VarintLength(x: nat, extra: nat)
    ensures |VarintBytes(x, extra)| == if x == 0 then 1 else |Varint(x)| + extra
  {
    DigitBytesLength(x, extra);
    DigitBytesLength(x, 0);
  }

  /** No encoding is a proper prefix of another. */
  lemma PrefixFree(x: nat, e: nat, y: nat, f: nat, t: seq<Byte>)
    requires x < TWO_64 && y < TWO_64 && Encodable(x, e) && Encodable(y, f)
    requires VarintBytes(y, f) == VarintBytes(x, e) + t
    ensures t == [] && x == y
  {
    VarintRoundTrip(x, e, t);
    VarintRoundTrip(y, f, []);
    assert VarintBytes(y, f) + [] == VarintBytes(y, f);
  }
}
