/** The field helpers of conformance/binary_wireformat.{h,cc} and the reader of section "Message
    Structure" of the Protocol Buffers Encoding specification. */
module WireFormat {
  import opened Arithmetic
  import opened Options
  import opened Sequences
  import opened Varints

  datatype WireType = VarintT | Fixed64T | LengthPrefixedT | StartGroupT | EndGroupT | Fixed32T

  function Code(t: WireType): nat {
    match t
    case VarintT => 0
    case Fixed64T => 1
    case LengthPrefixedT => 2
    case StartGroupT => 3
    case EndGroupT => 4
    case Fixed32T => 5
  }

  // ---------- helpers ----------

  /** The field number is shifted within 32 bits. */
  function TagValue(fieldnum: nat, t: WireType): nat {
    (fieldnum * 8) % TWO_32 + Code(t)
  }

  function Tag(fieldnum: nat, t: WireType): seq<Byte> {
    Varint(TagValue(fieldnum, t))
  }

  function LittleEndian(x: nat, n: nat): seq<Byte>
    decreases n, x
  {
    if n == 0 then [] else [x % 256] + LittleEndian(x / 256, n - 1)
  }

  function VarintField(fieldnum: nat, value: nat): seq<Byte> {
    Tag(fieldnum, VarintT) + Varint(value)
  }

  function LongVarintField(fieldnum: nat, value: nat, extra: nat): seq<Byte> {
    Tag(fieldnum, VarintT) + VarintBytes(value, extra)
  }

  function Fixed32Field(fieldnum: nat, value: nat): seq<Byte> {
    Tag(fieldnum, Fixed32T) + LittleEndian(value, 4)
  }

  function Fixed64Field(fieldnum: nat, value: nat): seq<Byte> {
    Tag(fieldnum, Fixed64T) + LittleEndian(value, 8)
  }

  function LengthPrefixed(data: seq<Byte>): seq<Byte> {
    Varint(|data|) + data
  }

  function LengthPrefixedField(fieldnum: nat, content: seq<Byte>): seq<Byte> {
    Tag(fieldnum, LengthPrefixedT) + LengthPrefixed(content)
  }

  function DelimitedField(fieldnum: nat, content: seq<Byte>): seq<Byte> {
    Tag(fieldnum, StartGroupT) + content + Tag(fieldnum, EndGroupT)
  }

  lemma OneByte(x: nat)
    requires 0 < x < 128
    ensures Varint(x) == [x]
  {
    assert x / 128 == 0 && DigitBytes(x / 128, 0) == [];
  }

  lemma MoreBytes()
    ensures Varint(150) == [0x96, 0x01] && VarintBytes(1, 2) == [0x81, 0x80, 0x00]
  {
    assert DigitBytes(150 / 128, 0) == [1];
    assert Padding(2) == [0x80, 0];
  }

  lemma {:induction false} ZeroBytes(n: nat)
    ensures LittleEndian(0, n) == seq(n, _ => 0)
    decreases n
  {
    if n > 0 { ZeroBytes(n - 1); }
  }

  /** The least significant byte comes first. */
  lemma TwoBytes(lo: Byte, hi: Byte, n: nat)
    requires n >= 2
    ensures LittleEndian(256 * hi + lo, n) == [lo, hi] + seq(n - 2, _ => 0)
  {
    assert (256 * hi + lo) % 256 == lo && (256 * hi + lo) / 256 == hi && hi % 256 == hi && hi / 256 == 0;
    ZeroBytes(n - 2);
    var zeros := LittleEndian(0, n - 2);
    assert LittleEndian(hi, n - 1) == [hi] + zeros;
    assert LittleEndian(256 * hi + lo, n) == [lo] + ([hi] + zeros);
  }

  lemma SmallTag(num: nat, t: WireType)
    requires num < 16 && 8 * num + Code(t) > 0
    ensures Tag(num, t) == [8 * num + Code(t)]
  {
    OneByte(8 * num + Code(t));
  }

  /** Known encodings, the first from the Encoding specification. */
  lemma KnownFields(v: nat, data: seq<Byte>)
    requires |data| == 4
    ensures VarintField(1, 150) == [0x08, 0x96, 0x01]
    ensures LongVarintField(1, 1, 2) == [0x08, 0x81, 0x80, 0x00]
    ensures LengthPrefixedField(2, data) == [0x12, 0x04] + data
    ensures Fixed32Field(5, v) == [0x2D] + LittleEndian(v, 4) && Fixed64Field(1, v) == [0x09] + LittleEndian(v, 8)
    ensures DelimitedField(3, data) == [0x1B] + data + [0x1C]
  {
    SmallTag(1, VarintT);
    SmallTag(2, LengthPrefixedT);
    SmallTag(5, Fixed32T);
    SmallTag(1, Fixed64T);
    SmallTag(3, StartGroupT);
    SmallTag(3, EndGroupT);
    MoreBytes();
    OneByte(4);
    Associative([0x12], [4], data);
  }

  // ---------- trees of fields ----------

  /** What a test composes out of the helpers. */
  datatype Field =
    | VarintF(num: nat, value: nat, extra: nat)
    | Fixed32F(num: nat, value: nat)
    | Fixed64F(num: nat, value: nat)
    | LengthF(num: nat, data: seq<Byte>)
    | GroupF(num: nat, fields: seq<Field>)

  predicate ValidField(f: Field) {
    && 1 <= f.num < TWO_29
    && match f
       case VarintF(_, v, extra) => v < TWO_64 && Encodable(v, extra)
       case Fixed32F(_, v) => v < TWO_32
       case Fixed64F(_, v) => v < TWO_64
       case LengthF(_, data) => |data| < TWO_64
       case GroupF(_, fields) => forall g | g in fields :: ValidField(g)
  }

  function Build(f: Field): seq<Byte> {
    match f
    case VarintF(num, v, extra) => if extra == 0 then VarintField(num, v) else LongVarintField(num, v, extra)
    case Fixed32F(num, v) => Fixed32Field(num, v)
    case Fixed64F(num, v) => Fixed64Field(num, v)
    case LengthF(num, data) => LengthPrefixedField(num, data)
    case GroupF(num, fields) => DelimitedField(num, BuildAll(fields))
  }

  function BuildAll(fields: seq<Field>): seq<Byte> {
    if fields == [] then [] else Build(fields[0]) + BuildAll(fields[1..])
  }

  /** The field as a reader sees it: over-long varints are not visible. */
  function Erase(f: Field): Field {
    match f
    case VarintF(num, v, _) => VarintF(num, v, 0)
    case GroupF(num, fields) => GroupF(num, EraseAll(fields))
    case _ => f
  }

  function EraseAll(fields: seq<Field>): seq<Field> {
    if fields == [] then [] else [Erase(fields[0])] + EraseAll(fields[1..])
  }

  // ---------- reading ----------

  function ReadLittleEndian(b: seq<Byte>): nat {
    if b == [] then 0 else b[0] + 256 * ReadLittleEndian(b[1..])
  }

  type Parsed = Option<(seq<Field>, seq<Byte>)>

  function Prepend(f: Field, r: Parsed): Parsed {
    match r
    case Some((fields, rest)) => Some(([f] + fields, rest))
    case None => None
  }

  /** Fields up to the end of the input, or up to the end-group tag of the open group. */
  function Parse(b: seq<Byte>, open: Option<nat>): (r: Parsed)
    ensures r.Some? ==> |r.value.1| <= |b|
    decreases |b|
  {
    if b == [] then (if open == None then Some(([], [])) else None)
    else match ReadVarint(b)
      case None => None
      case Some((tag, rest)) =>
        var num := tag / 8;
        if num == 0 || num >= TWO_29 then None
        else if tag % 8 == 4 then (if open == Some(num) then Some(([], rest)) else None)
        else if tag % 8 == 3 then
          (match Parse(rest, Some(num))
           case None => None
           case Some((inner, rest2)) => Prepend(GroupF(num, inner), Parse(rest2, open)))
        else match ParseValue(num, tag % 8, rest)
          case None => None
          case Some((f, rest2)) => Prepend(f, Parse(rest2, open))
  }

  function ParseValue(num: nat, code: nat, b: seq<Byte>): (r: Option<(Field, seq<Byte>)>)
    ensures r.Some? ==> |r.value.1| <= |b|
  {
    if code == 0 then
      match ReadVarint(b)
      case None => None
      case Some((v, rest)) => Some((VarintF(num, v, 0), rest))
    else if code == 5 then
      if |b| < 4 then None else Some((Fixed32F(num, ReadLittleEndian(b[..4])), b[4..]))
    else if code == 1 then
      if |b| < 8 then None else Some((Fixed64F(num, ReadLittleEndian(b[..8])), b[8..]))
    else if code == 2 then
      match ReadVarint(b)
      case None => None
      case Some((n, rest)) => if |rest| < n then None else Some((LengthF(num, rest[..n]), rest[n..]))
    else None
  }

  // ---------- round trip ----------

  lemma TagParts(num: nat, t: WireType)
    ensures TagValue(num, t) < TWO_64 && TagValue(num, t) % 8 == Code(t)
    ensures num < TWO_29 ==> TagValue(num, t) / 8 == num
    ensures num >= TWO_29 ==> TagValue(num, t) / 8 != num
  {
  }

  lemma VarintReads(x: nat, rest: seq<Byte>)
    requires x < TWO_64
    ensures ReadVarint(Varint(x) + rest) == Some((x, rest))
  {
    SixtyFourBitsFit(x);
    VarintRoundTrip(x, 0, rest);
  }

  lemma TagReads(num: nat, t: WireType, rest: seq<Byte>)
    ensures ReadVarint(Tag(num, t) + rest) == Some((TagValue(num, t), rest))
  {
    TagParts(num, t);
    VarintReads(TagValue(num, t), rest);
  }

  /** A tag carries its field number exactly when that has at most 29 bits. */
  lemma TagExact(num: nat, t: WireType)
    ensures ReadVarint(Tag(num, t)).Some?
    ensures ReadVarint(Tag(num, t)).value.0 / 8 == num <==> num < TWO_29
    ensures ReadVarint(Tag(num, t)).value.0 % 8 == Code(t)
  {
    TagParts(num, t);
    TagReads(num, t, []);
    assert Tag(num, t) + [] == Tag(num, t);
  }

  lemma {:induction false} LittleEndianRoundTrip(x: nat, n: nat, bound: nat)
    requires bound == Power256(n) && x < bound
    ensures |LittleEndian(x, n)| == n && ReadLittleEndian(LittleEndian(x, n)) == x
    decreases n
  {
    if n > 0 {
      LittleEndianRoundTrip(x / 256, n - 1, Power256(n - 1));
      assert LittleEndian(x, n)[1..] == LittleEndian(x / 256, n - 1);
    }
  }

  function Power256(n: nat): nat {
    if n == 0 then 1 else 256 * Power256(n - 1)
  }

  lemma FixedRoundTrip(x: nat, n: nat, rest: seq<Byte>)
    requires (n == 4 && x < TWO_32) || (n == 8 && x < TWO_64)
    ensures var b := LittleEndian(x, n) + rest;
      |b| >= n && ReadLittleEndian(b[..n]) == x && b[n..] == rest
  {
    assert Power256(4) == TWO_32;
    assert Power256(8) == TWO_64;
    LittleEndianRoundTrip(x, n, Power256(n));
    assert (LittleEndian(x, n) + rest)[..n] == LittleEndian(x, n);
  }

  /** The bytes after the tag of a field that is not a group. */
  function Payload(f: Field): seq<Byte>
    requires !f.GroupF?
  {
    match f
    case VarintF(_, v, extra) => VarintBytes(v, extra)
    case Fixed32F(_, v) => LittleEndian(v, 4)
    case Fixed64F(_, v) => LittleEndian(v, 8)
    case LengthF(_, data) => LengthPrefixed(data)
  }

  function TypeOf(f: Field): WireType {
    match f
    case VarintF(_, _, _) => VarintT
    case Fixed32F(_, _) => Fixed32T
    case Fixed64F(_, _) => Fixed64T
    case LengthF(_, _) => LengthPrefixedT
    case GroupF(_, _) => StartGroupT
  }

  lemma LengthPayloadReads(num: nat, data: seq<Byte>, rest: seq<Byte>)
    requires |data| < TWO_64
    ensures ParseValue(num, 2, LengthPrefixed(data) + rest) == Some((LengthF(num, data), rest))
  {
    VarintReads(|data|, data + rest);
    assert LengthPrefixed(data) + rest == Varint(|data|) + (data + rest);
    assert (data + rest)[..|data|] == data && (data + rest)[|data|..] == rest;
  }

  lemma FixedPayloadReads(num: nat, v: nat, rest: seq<Byte>)
    ensures v < TWO_32 ==> ParseValue(num, 5, LittleEndian(v, 4) + rest) == Some((Fixed32F(num, v), rest))
    ensures v < TWO_64 ==> ParseValue(num, 1, LittleEndian(v, 8) + rest) == Some((Fixed64F(num, v), rest))
  {
    if v < TWO_32 { FixedRoundTrip(v, 4, rest); }
    if v < TWO_64 { FixedRoundTrip(v, 8, rest); }
  }

  lemma VarintPayloadReads(num: nat, v: nat, extra: nat, rest: seq<Byte>)
    requires v < TWO_64 && Encodable(v, extra)
    ensures ParseValue(num, 0, VarintBytes(v, extra) + rest) == Some((VarintF(num, v, 0), rest))
  {
    VarintRoundTrip(v, extra, rest);
  }

  lemma PayloadReads(f: Field, rest: seq<Byte>)
    requires ValidField(f) && !f.GroupF?
    ensures ParseValue(f.num, Code(TypeOf(f)), Payload(f) + rest) == Some((Erase(f), rest))
  {
    match f
    case VarintF(num, v, extra) => VarintPayloadReads(num, v, extra, rest);
    case Fixed32F(num, v) => FixedPayloadReads(num, v, rest);
    case Fixed64F(num, v) => FixedPayloadReads(num, v, rest);
    case LengthF(num, data) => LengthPayloadReads(num, data, rest);
  }

  lemma PlainStep(num: nat, t: WireType, p: seq<Byte>, f: Field, tail: seq<Byte>, open: Option<nat>)
    requires 1 <= num < TWO_29 && t != StartGroupT && t != EndGroupT
    requires ParseValue(num, Code(t), p) == Some((f, tail))
    ensures Parse(Tag(num, t) + p, open) == Prepend(f, Parse(tail, open))
  {
    TagReads(num, t, p);
    TagParts(num, t);
  }

  lemma GroupStep(num: nat, p: seq<Byte>, fields: seq<Field>, tail: seq<Byte>, open: Option<nat>)
    requires 1 <= num < TWO_29 && Parse(p, Some(num)) == Some((fields, tail))
    ensures Parse(Tag(num, StartGroupT) + p, open) == Prepend(GroupF(num, fields), Parse(tail, open))
  {
    TagReads(num, StartGroupT, p);
    TagParts(num, StartGroupT);
  }

  lemma EndStep(num: nat, open: Option<nat>, tail: seq<Byte>)
    requires 1 <= num < TWO_29
    ensures Parse(Tag(num, EndGroupT) + tail, open) == if open == Some(num) then Some(([], tail)) else None
  {
    TagReads(num, EndGroupT, tail);
    TagParts(num, EndGroupT);
  }

  lemma PlainRoundTrip(f: Field, tail: seq<Byte>, open: Option<nat>)
    requires ValidField(f) && !f.GroupF?
    ensures Parse(Build(f) + tail, open) == Prepend(Erase(f), Parse(tail, open))
  {
    PayloadReads(f, tail);
    TypeIsPlain(f);
    PlainStep(f.num, TypeOf(f), Payload(f) + tail, Erase(f), tail, open);
    BuildPlain(f);
    Associative(Tag(f.num, TypeOf(f)), Payload(f), tail);
  }

  lemma TypeIsPlain(f: Field)
    requires !f.GroupF?
    ensures TypeOf(f) != StartGroupT && TypeOf(f) != EndGroupT
  {
  }

  lemma BuildPlain(f: Field)
    requires !f.GroupF?
    ensures Build(f) == Tag(f.num, TypeOf(f)) + Payload(f)
  {
  }

  lemma DelimitedSplits(num: nat, content: seq<Byte>, tail: seq<Byte>)
    ensures DelimitedField(num, content) + tail == Tag(num, StartGroupT) + (content + (Tag(num, EndGroupT) + tail))
  {
  }

  /** One built field in front of anything is read back, whatever group is open. */
  lemma {:induction false} FieldRoundTrip(f: Field, tail: seq<Byte>, open: Option<nat>)
    requires ValidField(f)
    ensures Parse(Build(f) + tail, open) == Prepend(Erase(f), Parse(tail, open))
    decreases f, 1
  {
    match f
    case GroupF(num, fields) =>
      var content, end := BuildAll(fields), Tag(num, EndGroupT) + tail;
      FieldsRoundTrip(fields, end, Some(num));
      EndStep(num, Some(num), tail);
      assert EraseAll(fields) + [] == EraseAll(fields);
      GroupStep(num, content + end, EraseAll(fields), tail, open);
      DelimitedSplits(num, content, tail);
    case _ => PlainRoundTrip(f, tail, open);
  }

  function PrependAll(fields: seq<Field>, r: Parsed): Parsed {
    match r
    case Some((more, rest)) => Some((fields + more, rest))
    case None => None
  }

  lemma PrependAssociates(f: Field, fields: seq<Field>, r: Parsed)
    ensures Prepend(f, PrependAll(fields, r)) == PrependAll([f] + fields, r)
  {
    if r.Some? { assert [f] + (fields + r.value.0) == ([f] + fields) + r.value.0; }
  }

  lemma {:induction false} FieldsRoundTrip(fields: seq<Field>, tail: seq<Byte>, open: Option<nat>)
    requires forall f | f in fields :: ValidField(f)
    ensures Parse(BuildAll(fields) + tail, open) == PrependAll(EraseAll(fields), Parse(tail, open))
    decreases fields, 0
  {
    var r := Parse(tail, open);
    if fields == [] {
      NoFields(tail, r);
    } else {
      assert fields[0] in fields;
      FieldRoundTrip(fields[0], BuildAll(fields[1..]) + tail, open);
      FieldsRoundTrip(fields[1..], tail, open);
      Associative(Build(fields[0]), BuildAll(fields[1..]), tail);
      PrependAssociates(Erase(fields[0]), EraseAll(fields[1..]), r);
    }
  }

  lemma NoFields(tail: seq<Byte>, r: Parsed)
    ensures BuildAll([]) + tail == tail && PrependAll(EraseAll([]), r) == r
  {
    if r.Some? { assert [] + r.value.0 == r.value.0; }
  }

  /** Any tree of fields built by the helpers is read back as that tree. */
  lemma TreeRoundTrip(fields: seq<Field>)
    requires forall f | f in fields :: ValidField(f)
    ensures Parse(BuildAll(fields), None) == Some((EraseAll(fields), []))
  {
    FieldsRoundTrip(fields, [], None);
    assert BuildAll(fields) + [] == BuildAll(fields);
    assert EraseAll(fields) + [] == EraseAll(fields);
  }

  // ---------- what the bytes determine ----------

  /** The field without the lengthening that a zero does not get. */
  function Normal(f: Field): Field {
    match f
    case VarintF(num, v, extra) => VarintF(num, v, if v == 0 then 0 else extra)
    case GroupF(num, fields) => GroupF(num, NormalAll(fields))
    case _ => f
  }

  function NormalAll(fields: seq<Field>): seq<Field> {
    if fields == [] then [] else [Normal(fields[0])] + NormalAll(fields[1..])
  }

  lemma {:induction false} NormalBuilds(f: Field)
    ensures Build(Normal(f)) == Build(f) && Erase(Normal(f)) == Erase(f)
    decreases f, 1
  {
    if f.GroupF? { NormalBuildsAll(f.fields); }
  }

  lemma {:induction false} NormalBuildsAll(fields: seq<Field>)
    ensures BuildAll(NormalAll(fields)) == BuildAll(fields) && EraseAll(NormalAll(fields)) == EraseAll(fields)
    decreases fields, 0
  {
    if fields != [] {
      NormalBuilds(fields[0]);
      NormalBuildsAll(fields[1..]);
      assert NormalAll(fields)[1..] == NormalAll(fields[1..]);
    }
  }

  lemma CancelHead(head: seq<Byte>, x: seq<Byte>, y: seq<Byte>)
    requires head + x == head + y
    ensures x == y
  {
    assert x == (head + x)[|head|..] && y == (head + y)[|head|..];
  }

  lemma CancelTail(x: seq<Byte>, y: seq<Byte>, tail: seq<Byte>)
    requires x + tail == y + tail
    ensures x == y
  {
    assert |x| == |x + tail| - |tail| && |y| == |y + tail| - |tail|;
    assert x == (x + tail)[..|x|] && y == (y + tail)[..|y|];
  }

  /** Equal streams that begin with encodings of one value have the same lengthening. */
  lemma VarintDetermines(v: nat, e: nat, t: seq<Byte>, e': nat, t': seq<Byte>)
    requires v < TWO_64 && Encodable(v, e) && Encodable(v, e')
    requires VarintBytes(v, e) + t == VarintBytes(v, e') + t'
    ensures t == t' && (v != 0 ==> e == e')
  {
    VarintRoundTrip(v, e, t);
    VarintRoundTrip(v, e', t');
    CancelTail(VarintBytes(v, e), VarintBytes(v, e'), t);
    VarintLength(v, e);
    VarintLength(v, e');
  }

  lemma VarintFieldDetermines(f: Field, t: seq<Byte>, g: Field, u: seq<Byte>)
    requires ValidField(f) && ValidField(g) && f.VarintF? && Erase(f) == Erase(g) && Build(f) + t == Build(g) + u
    ensures Normal(f) == Normal(g) && t == u
  {
    var tag := Tag(f.num, VarintT);
    Associative(tag, Payload(f), t);
    Associative(tag, Payload(g), u);
    CancelHead(tag, Payload(f) + t, Payload(g) + u);
    VarintDetermines(f.value, f.extra, t, g.extra, u);
  }

  /** Equal streams that begin with fields that read the same begin with the same fields. */
  lemma {:induction false} FieldDetermines(f: Field, t: seq<Byte>, g: Field, u: seq<Byte>)
    requires ValidField(f) && ValidField(g) && Erase(f) == Erase(g) && Build(f) + t == Build(g) + u
    ensures Normal(f) == Normal(g) && t == u
    decreases f, 1
  {
    match f
    case VarintF(_, _, _) => VarintFieldDetermines(f, t, g, u);
    case GroupF(num, fields) =>
      var start, end := Tag(num, StartGroupT), Tag(num, EndGroupT);
      DelimitedSplits(num, BuildAll(fields), t);
      DelimitedSplits(num, BuildAll(g.fields), u);
      CancelHead(start, BuildAll(fields) + (end + t), BuildAll(g.fields) + (end + u));
      FieldsDetermine(fields, end + t, g.fields, end + u);
      CancelHead(end, t, u);
    case _ => CancelHead(Build(f), t, u);
  }

  lemma EraseHead(fields: seq<Field>, others: seq<Field>)
    requires EraseAll(fields) == EraseAll(others) && fields != []
    ensures others != [] && Erase(fields[0]) == Erase(others[0]) && EraseAll(fields[1..]) == EraseAll(others[1..])
  {
    assert EraseAll(fields)[1..] == EraseAll(fields[1..]);
    assert EraseAll(others)[1..] == EraseAll(others[1..]);
  }

  lemma {:induction false} FieldsDetermine(fields: seq<Field>, t: seq<Byte>, others: seq<Field>, u: seq<Byte>)
    requires (forall f | f in fields :: ValidField(f)) && (forall f | f in others :: ValidField(f))
    requires EraseAll(fields) == EraseAll(others) && BuildAll(fields) + t == BuildAll(others) + u
    ensures NormalAll(fields) == NormalAll(others) && t == u
    decreases fields, 0
  {
    if fields == [] {
      assert others == [] && [] + t == t && [] + u == u;
    } else {
      EraseHead(fields, others);
      Associative(Build(fields[0]), BuildAll(fields[1..]), t);
      Associative(Build(others[0]), BuildAll(others[1..]), u);
      assert fields[0] in fields && others[0] in others;
      FieldDetermines(fields[0], BuildAll(fields[1..]) + t, others[0], BuildAll(others[1..]) + u);
      FieldsDetermine(fields[1..], t, others[1..], u);
    }
  }

  /** Two trees read the same exactly when they differ at most in over-long varints, and have the same
      bytes exactly when they differ at most in lengthened zeros. */
  lemma BuildDeterminesTree(fields: seq<Field>, others: seq<Field>)
    requires forall f | f in fields :: ValidField(f)
    requires forall f | f in others :: ValidField(f)
    ensures Parse(BuildAll(fields), None) == Parse(BuildAll(others), None) <==> EraseAll(fields) == EraseAll(others)
    ensures BuildAll(fields) == BuildAll(others) <==> NormalAll(fields) == NormalAll(others)
  {
    TreeRoundTrip(fields);
    TreeRoundTrip(others);
    NormalBuildsAll(fields);
    NormalBuildsAll(others);
    if BuildAll(fields) == BuildAll(others) {
      FieldsDetermine(fields, [], others, []);
    }
  }

  lemma OtherEndFails(num: nat, other: nat, fields: seq<Field>, tail: seq<Byte>)
    requires 1 <= other < TWO_29 && num != other && forall f | f in fields :: ValidField(f)
    ensures Parse(BuildAll(fields) + (Tag(other, EndGroupT) + tail), Some(num)) == None
  {
    FieldsRoundTrip(fields, Tag(other, EndGroupT) + tail, Some(num));
    EndStep(other, Some(num), tail);
  }

  lemma StartStep(num: nat, p: seq<Byte>)
    requires 1 <= num < TWO_29 && Parse(p, Some(num)) == None
    ensures Parse(Tag(num, StartGroupT) + p, None) == None
  {
    TagReads(num, StartGroupT, p);
    TagParts(num, StartGroupT);
  }

  /** The end-group tag of one group never closes another. */
  lemma EndGroupMustMatch(num: nat, other: nat, fields: seq<Field>, tail: seq<Byte>)
    requires 1 <= num < TWO_29 && 1 <= other < TWO_29 && forall f | f in fields :: ValidField(f)
    ensures Parse(Tag(num, StartGroupT) + BuildAll(fields) + Tag(other, EndGroupT) + tail, None).Some? ==> num == other
  {
    var s, b, e := Tag(num, StartGroupT), BuildAll(fields), Tag(other, EndGroupT);
    Associative(s + b, e, tail);
    Associative(s, b, e + tail);
    if num != other {
      OtherEndFails(num, other, fields, tail);
      StartStep(num, b + (e + tail));
    }
  }

  // ---------- packed fields ----------

  function Concat<T>(func: T -> seq<Byte>, container: seq<T>): seq<Byte> {
    if container == [] then [] else func(container[0]) + Concat(func, container[1..])
  }

  lemma {:induction false} ConcatAppend<T>(func: T -> seq<Byte>, xs: seq<T>, x: T)
    ensures Concat(func, xs + [x]) == Concat(func, xs) + func(x)
  {
    if xs != [] {
      ConcatAppend(func, xs[1..], x);
      assert (xs + [x])[1..] == xs[1..] + [x];
    }
  }

  /** PackedImpl: the prefix it writes is the number of elements. */
  method PackedImpl<T>(func: T -> seq<Byte>, container: seq<T>) returns (buf: seq<Byte>)
    ensures buf == Varint(|container|) + Concat(func, container)
  {
    buf := Varint(|container|);
    for i := 0 to |container|
      invariant buf == Varint(|container|) + Concat(func, container[..i])
    {
      buf := buf + func(container[i]);
      ConcatAppend(func, container[..i], container[i]);
      assert container[..i + 1] == container[..i] + [container[i]];
    }
    assert container[..|container|] == container;
  }

  lemma {:induction false} ConcatLength<T>(func: T -> seq<Byte>, xs: seq<T>)
    requires forall x | x in xs :: func(x) != []
    ensures |Concat(func, xs)| >= |xs|
    ensures |Concat(func, xs)| == |xs| <==> forall x | x in xs :: |func(x)| == 1
  {
    if xs != [] {
      ConcatLength(func, xs[1..]);
      assert xs == [xs[0]] + xs[1..];
    }
  }

  /** A length prefix yields the payload that follows it exactly when it is the payload's length. */
  lemma LengthReadsExactly(num: nat, n: nat, data: seq<Byte>, tail: seq<Byte>)
    requires n < TWO_64
    ensures ParseValue(num, Code(LengthPrefixedT), Varint(n) + (data + tail)) == Some((LengthF(num, data), tail))
            <==> n == |data|
  {
    VarintReads(n, data + tail);
    assert (data + tail)[..|data|] == data && (data + tail)[|data|..] == tail;
  }

  /** A packed field is read back as its elements exactly when each of them takes one byte. */
  lemma PackedReadsBackExactly<T>(num: nat, func: T -> seq<Byte>, xs: seq<T>, tail: seq<Byte>)
    requires |xs| < TWO_64 && forall x | x in xs :: func(x) != []
    ensures ParseValue(num, Code(LengthPrefixedT), Varint(|xs|) + (Concat(func, xs) + tail))
              == Some((LengthF(num, Concat(func, xs)), tail))
            <==> forall x | x in xs :: |func(x)| == 1
  {
    LengthReadsExactly(num, |xs|, Concat(func, xs), tail);
    ConcatLength(func, xs);
  }
}
