/** What a stored value reads as, written out for Lua values and Lua indices (lupb_tomsgval,
    lupb_pushmsgval and the accessors of lua/msg.c). */
module LuaReadback {
  import opened Options
  import opened NumberChecks
  import opened Binary32
  import opened Arenas
  import opened UpbMemory
  import opened LuaDefs
  import opened LuaGraph
  import opened LuaInvariant
  import opened LuaAccess

  // ---------- the reference ----------

  function AsDouble(n: LuaNumber): Double {
    match n
    case Integer(i) => Finite(Round(i) as real)
    case Float(d) => d
  }

  /** A whole number from lo to hi reads as the nearest binary64 value. */
  function Whole(n: LuaNumber, lo: int, hi: int): Option<LuaVal> {
    match n
    case Integer(i) => if lo <= i <= hi then Some(NumL(Float(Finite(Round(i) as real)))) else None
    case Float(Finite(r)) =>
      if r == r.Floor as real && lo <= r.Floor <= hi then Some(NumL(Float(Finite(Round(r.Floor) as real)))) else None
    case _ => None
  }

  /** What a plain place of type t that is given v reads as; None when v is refused. */
  function ReadsAs(t: CType, v: LuaVal): Option<LuaVal> {
    match v
    case BoolL(_) => if t == BoolC then Some(v) else None
    case StrL(_) => if t == StringC || t == BytesC then Some(v) else None
    case NumL(n) => NumberReadsAs(t, n)
    case _ => None
  }

  function NumberReadsAs(t: CType, n: LuaNumber): Option<LuaVal> {
    match t
    case DoubleC => Some(NumL(Float(AsDouble(n))))
    case FloatC => Some(NumL(Float(Narrow(AsDouble(n)))))
    case Int32C => Whole(n, -0x8000_0000, 0x7FFF_FFFF)
    case EnumC => Whole(n, -0x8000_0000, 0x7FFF_FFFF)
    case UInt32C => Whole(n, 0, 0xFFFF_FFFF)
    case Int64C => Whole(n, -0x8000_0000_0000_0000, 0x7FFF_FFFF_FFFF_FFFF)
    case UInt64C => Whole(n, 0, 0xFFFF_FFFF_FFFF_FFFF)
    case _ => None
  }

  lemma WholeIsChecked(it: IntType, n: LuaNumber)
    ensures Whole(n, Min(it), Max(it)) == match CheckInt(it, n) case Some(i) => Some(NumL(Push(i))) case None => None
  {
    BoundIsMaxPlusOne(it);
  }

  /** Converting and pushing give what the reference says, for every type and every Lua value. */
  lemma ConversionReadsAs(t: CType, v: LuaVal)
    requires t != MessageC
    ensures ReadsAs(t, v) == match Convert(t, v) case Some(val) => Some(ToLua(val)) case None => None
  {
    if v.NumL? && IntegerType(t).Some? { WholeIsChecked(IntegerType(t).value, v.n); }
  }

  // ---------- fields ----------

  /** A plain field takes a value exactly when its type does, and then reads as the reference says. */
  lemma FieldReadsAs(s: State, w: LuaId, name: string, f: FieldDef, v: LuaVal, fr: Fresh, fr2: Fresh)
    requires IsField(s, w, name, f) && !IsWrapped(f) && CanPass(s, v)
    ensures var (s', r) := MsgNewindexResult(s, w, name, v, fr);
      match ReadsAs(f.ctype, v)
      case None => (s', r) == (s, Raise)
      case Some(u) => r == Done(v) && IsField(s', w, name, f) && MsgIndexResult(s', w, name, fr2) == (s', Done(u))
  {
    PlainFieldReadsBack(s, w, name, f, v, fr, fr2);
    ConversionReadsAs(f.ctype, v);
  }

  /** A string or bytes field holds any string, and nothing else. */
  lemma StringFields(s: State, w: LuaId, name: string, f: FieldDef, v: LuaVal, fr: Fresh, fr2: Fresh)
    requires IsField(s, w, name, f) && f.shape == Single && (f.ctype == StringC || f.ctype == BytesC) && CanPass(s, v)
    ensures var (s', r) := MsgNewindexResult(s, w, name, v, fr);
      if v.StrL? then r == Done(v) && IsMsg(s', w) && MsgIndexResult(s', w, name, fr2) == (s', Done(StrL(v.str)))
      else (s', r) == (s, Raise)
  {
    FieldReadsAs(s, w, name, f, v, fr, fr2);
  }

  /** A boolean field holds a boolean, and nothing else. */
  lemma BoolFields(s: State, w: LuaId, name: string, f: FieldDef, v: LuaVal, fr: Fresh, fr2: Fresh)
    requires IsField(s, w, name, f) && f.shape == Single && f.ctype == BoolC && CanPass(s, v)
    ensures var (s', r) := MsgNewindexResult(s, w, name, v, fr);
      if v.BoolL? then r == Done(v) && IsMsg(s', w) && MsgIndexResult(s', w, name, fr2) == (s', Done(BoolL(v.bit)))
      else (s', r) == (s, Raise)
  {
    FieldReadsAs(s, w, name, f, v, fr, fr2);
  }

  /** A double field holds any binary64 value, and of a Lua integer the nearest one. */
  lemma DoubleFields(s: State, w: LuaId, name: string, f: FieldDef, v: LuaVal, fr: Fresh, fr2: Fresh)
    requires IsField(s, w, name, f) && f.shape == Single && f.ctype == DoubleC && CanPass(s, v)
    ensures var (s', r) := MsgNewindexResult(s, w, name, v, fr);
      match v
      case NumL(Float(d)) =>
        r == Done(v) && IsMsg(s', w) && MsgIndexResult(s', w, name, fr2) == (s', Done(NumL(Float(d))))
      case NumL(Integer(i)) =>
        && r == Done(v) && IsMsg(s', w)
        && MsgIndexResult(s', w, name, fr2) == (s', Done(NumL(Float(Finite(Round(i) as real)))))
      case _ => (s', r) == (s, Raise)
  {
    FieldReadsAs(s, w, name, f, v, fr, fr2);
  }

  predicate HasBounds(t: CType, lo: int, hi: int) {
    || ((t == Int32C || t == EnumC) && lo == -2147483648 && hi == 2147483647)
    || (t == UInt32C && lo == 0 && hi == 4294967295)
    || (t == Int64C && lo == -9223372036854775808 && hi == 9223372036854775807)
    || (t == UInt64C && lo == 0 && hi == 18446744073709551615)
  }

  lemma WholeDenotes(v: LuaVal, lo: int, hi: int)
    requires v.NumL?
    ensures Whole(v.n, lo, hi).Some? <==> exists i :: lo <= i <= hi && Denotes(v, i)
    ensures forall i | Denotes(v, i) && lo <= i <= hi ::
      Whole(v.n, lo, hi) == Some(NumL(Float(Finite(Round(i) as real))))
  {
    if Whole(v.n, lo, hi).Some? {
      match v.n
      case Integer(i) => assert Denotes(v, i);
      case Float(Finite(r)) => assert Denotes(v, r.Floor);
    }
  }

  /** An integer field takes a number exactly when it denotes an integer within the bounds of the field's
      own type, and reads as the binary64 value nearest to it. */
  lemma IntegerFields(s: State, w: LuaId, name: string, f: FieldDef, lo: int, hi: int, v: LuaVal, i: int,
      fr: Fresh, fr2: Fresh)
    requires IsField(s, w, name, f) && f.shape == Single && HasBounds(f.ctype, lo, hi) && CanPass(s, v)
    ensures var (s', r) := MsgNewindexResult(s, w, name, v, fr);
      && (r == Raise <==> forall k :: Denotes(v, k) ==> !(lo <= k <= hi))
      && (r == Raise ==> s' == s)
      && (Denotes(v, i) && lo <= i <= hi ==>
            && r == Done(v) && IsMsg(s', w)
            && MsgIndexResult(s', w, name, fr2) == (s', Done(NumL(Float(Finite(Round(i) as real))))))
  {
    FieldReadsAs(s, w, name, f, v, fr, fr2);
    if v.NumL? { WholeDenotes(v, lo, hi); }
  }

  // ---------- arrays ----------

  /** upb's size_t indices are checked as 32-bit numbers. */
  const MAX_INDEX := 4294967295

  /** A store of a plain value at a whole number i: it succeeds exactly for 1 <= i <= size + 1 and a value
      of the element type, and then changes that one element or appends it; otherwise it changes nothing. */
  lemma ArrayStoreExactly(s: State, w: LuaId, key: LuaVal, i: int, v: LuaVal)
    requires IsArray(s, w) && s.wrappers[w].kind.ctype != MessageC && CanPass(s, v) && Denotes(key, i)
    ensures var x, t := s.wrappers[w].target, s.wrappers[w].kind.ctype;
      var items := s.mem.heap[x].items;
      var (s', r) := ArrayNewindexResult(s, w, key, v);
      if 1 <= i <= |items| + 1 && i <= MAX_INDEX && ReadsAs(t, v).Some? then
        exists val: Value :: !val.Ref? && ToLua(val) == ReadsAs(t, v).value && r == Done(Nil)
          && s' == s.(mem := s.mem.(heap := s.mem.heap[x := s.mem.heap[x].(items :=
                        if i == |items| + 1 then items + [val] else items[i - 1 := val])]))
      else (s', r) == (s, Raise)
  {
    var items := s.mem.heap[s.wrappers[w].target].items;
    IndexExactly(key, i, |items| + 1);
    ConversionReadsAs(s.wrappers[w].kind.ctype, v);
    assert Convert(s.wrappers[w].kind.ctype, v).Some? ==> !Convert(s.wrappers[w].kind.ctype, v).value.Ref?;
  }

  /** The same for a message: what is stored is a link to it, and the arenas of the two wrappers are
      fused. */
  lemma ArrayMessageStoreExactly(s: State, w: LuaId, key: LuaVal, i: int, id: LuaId)
    requires IsArray(s, w) && s.wrappers[w].kind == ArrW(MessageC) && Denotes(key, i)
    requires id in s.wrappers && s.wrappers[id].kind == MsgW && CanPass(s, ObjL(id))
    ensures var x, link := s.wrappers[w].target, Ref(s.wrappers[id].target);
      var items := s.mem.heap[x].items;
      var (s', r) := ArrayNewindexResult(s, w, key, ObjL(id));
      if 1 <= i <= |items| + 1 && i <= MAX_INDEX && s.wrappers[id].msgdef == s.wrappers[w].msgdef then
        && r == Done(Nil)
        && s' == s.(mem := s.mem.(
             heap := s.mem.heap[x := s.mem.heap[x].(items :=
                       if i == |items| + 1 then items + [link] else items[i - 1 := link])],
             groups := Fuse(s.mem.groups, s.arenas[s.wrappers[w].arena], s.arenas[s.wrappers[id].arena])))
      else (s', r) == (s, Raise)
  {
    IndexExactly(key, i, |s.mem.heap[s.wrappers[w].target].items| + 1);
  }

  /** A read at a whole number i succeeds exactly for 1 <= i <= size and yields the i-th element: a plain
      value, or the wrapper of the message. */
  lemma ArrayReadExactly(s: State, w: LuaId, key: LuaVal, i: int, fr: Fresh)
    requires IsArray(s, w) && Denotes(key, i) && CacheExact(s.cache, s.wrappers)
    ensures var items := s.mem.heap[s.wrappers[w].target].items;
      var (s', r) := ArrayIndexResult(s, w, key, fr);
      if !(1 <= i <= |items| && i <= MAX_INDEX) then (s', r) == (s, Raise)
      else if items[i - 1].Ref? then
        && r.Done? && r.v.ObjL? && r.v.id in s'.wrappers && r.v.id in s'.roots
        && s'.wrappers[r.v.id].target == items[i - 1].target && s'.mem == s.mem
      else (s', r) == (s, Done(ToLua(items[i - 1])))
  {
    IndexExactly(key, i, |s.mem.heap[s.wrappers[w].target].items|);
  }

  /** What was stored at i is read at i, for every plain element type. */
  lemma ArrayReadsAs(s: State, w: LuaId, key: LuaVal, key2: LuaVal, i: int, v: LuaVal, fr: Fresh)
    requires IsArray(s, w) && s.wrappers[w].kind.ctype != MessageC && CanPass(s, v)
    requires Denotes(key, i) && Denotes(key2, i) && ArrayNewindexResult(s, w, key, v).1.Done?
    ensures var s' := ArrayNewindexResult(s, w, key, v).0;
      && IsArray(s', w) && ReadsAs(s.wrappers[w].kind.ctype, v).Some?
      && ArrayIndexResult(s', w, key2, fr) == (s', Done(ReadsAs(s.wrappers[w].kind.ctype, v).value))
  {
    ArrayStoreExactly(s, w, key, i, v);
    var s' := ArrayNewindexResult(s, w, key, v).0;
    IndexExactly(key2, i, |s'.mem.heap[s.wrappers[w].target].items|);
  }

  /** What denotes no whole number is no index: reading and storing fail and change nothing. */
  lemma NoIndex(s: State, w: LuaId, key: LuaVal, v: LuaVal, fr: Fresh)
    requires IsArray(s, w) && CanPass(s, v) && forall i :: !Denotes(key, i)
    ensures ArrayIndexResult(s, w, key, fr) == (s, Raise)
    ensures ArrayNewindexResult(s, w, key, v) == (s, Raise)
  {
    OnlyWholeIndices(key, |s.mem.heap[s.wrappers[w].target].items|);
    OnlyWholeIndices(key, |s.mem.heap[s.wrappers[w].target].items| + 1);
  }

  // ---------- maps ----------

  /** Two keys that a map with keys of type t takes are the same key. */
  predicate SameKey(t: CType, a: LuaVal, b: LuaVal) {
    match (a, b)
    case (BoolL(x), BoolL(y)) => x == y
    case (StrL(x), StrL(y)) => x == y
    case (NumL(m), NumL(n)) =>
      if t == DoubleC then AsDouble(m) == AsDouble(n)
      else if t == FloatC then Narrow(AsDouble(m)) == Narrow(AsDouble(n))
      else m == n || m == Float(LuaFloat(n)) || n == Float(LuaFloat(m))
    case _ => false
  }

  /** The binary64 value that denotes the same as an integer. */
  function LuaFloat(n: LuaNumber): Double {
    match n
    case Integer(i) => Finite(i as real)
    case Float(d) => d
  }

  lemma SameWholeKey(it: IntType, m: LuaNumber, n: LuaNumber)
    requires CheckInt(it, m).Some? && CheckInt(it, n).Some?
    ensures CheckInt(it, m) == CheckInt(it, n) <==> m == n || m == Float(LuaFloat(n)) || n == Float(LuaFloat(m))
  {
    CheckIntExact(it, m, CheckInt(it, m).value);
    CheckIntExact(it, n, CheckInt(it, n).value);
  }

  lemma SameKeyExactly(t: CType, a: LuaVal, b: LuaVal)
    requires t != MessageC && ReadsAs(t, a).Some? && ReadsAs(t, b).Some?
    ensures Convert(t, a).Some? && Convert(t, b).Some?
    ensures Convert(t, a) == Convert(t, b) <==> SameKey(t, a, b)
  {
    ConversionReadsAs(t, a);
    ConversionReadsAs(t, b);
    if a.NumL? && b.NumL? && IntegerType(t).Some? { SameWholeKey(IntegerType(t).value, a.n, b.n); }
  }

  /** Deleting succeeds exactly for a key of the key type, removes its entry and nothing else, and the key
      reads as nil. */
  lemma MapDeleteExactly(s: State, w: LuaId, key: LuaVal, key2: LuaVal, fr: Fresh)
    requires IsMap(s, w) && s.wrappers[w].kind.keyType != MessageC
    ensures var x, kt := s.wrappers[w].target, s.wrappers[w].kind.keyType;
      var (s', r) := MapNewindexResult(s, w, key, Nil);
      if ReadsAs(kt, key).None? then (s', r) == (s, Raise)
      else
        && r == Done(Nil) && IsMap(s', w)
        && s' == s.(mem := s.mem.(heap := s.mem.heap[x := s'.mem.heap[x]]))
        && (ReadsAs(kt, key2).Some? && SameKey(kt, key, key2) ==> MapIndexResult(s', w, key2, fr) == (s', Done(Nil)))
  {
    var kt := s.wrappers[w].kind.keyType;
    ConversionReadsAs(kt, key);
    ConversionReadsAs(kt, key2);
    if ReadsAs(kt, key).Some? && ReadsAs(kt, key2).Some? { SameKeyExactly(kt, key, key2); }
  }

  /** Storing a plain value succeeds exactly for a key of the key type and a value of the value type; the
      key, and every key that is the same, then reads as that value. */
  lemma MapStoreExactly(s: State, w: LuaId, key: LuaVal, key2: LuaVal, v: LuaVal, fr: Fresh)
    requires IsMap(s, w) && s.wrappers[w].kind.keyType != MessageC && s.wrappers[w].kind.valueType != MessageC
    requires CanPass(s, v) && v != Nil
    ensures var x, kt, t := s.wrappers[w].target, s.wrappers[w].kind.keyType, s.wrappers[w].kind.valueType;
      var (s', r) := MapNewindexResult(s, w, key, v);
      if ReadsAs(kt, key).None? || ReadsAs(t, v).None? then (s', r) == (s, Raise)
      else
        && r == Done(Nil) && IsMap(s', w)
        && s' == s.(mem := s.mem.(heap := s.mem.heap[x := s'.mem.heap[x]]))
        && (ReadsAs(kt, key2).Some? && SameKey(kt, key, key2) ==>
              MapIndexResult(s', w, key2, fr) == (s', Done(ReadsAs(t, v).value)))
  {
    var kt, t := s.wrappers[w].kind.keyType, s.wrappers[w].kind.valueType;
    ConversionReadsAs(kt, key);
    ConversionReadsAs(kt, key2);
    ConversionReadsAs(t, v);
    if ReadsAs(kt, key).Some? && ReadsAs(kt, key2).Some? { SameKeyExactly(kt, key, key2); }
  }

  /** Storing a message links it and fuses the arenas of the two wrappers. */
  lemma MapMessageStoreExactly(s: State, w: LuaId, key: LuaVal, id: LuaId)
    requires IsMap(s, w) && s.wrappers[w].kind.keyType != MessageC && s.wrappers[w].kind.valueType == MessageC
    requires id in s.wrappers && s.wrappers[id].kind == MsgW && CanPass(s, ObjL(id))
    ensures var x := s.wrappers[w].target;
      var (s', r) := MapNewindexResult(s, w, key, ObjL(id));
      if ReadsAs(s.wrappers[w].kind.keyType, key).Some? && s.wrappers[id].msgdef == s.wrappers[w].msgdef then
        && r == Done(Nil) && Ref(s.wrappers[id].target) in s'.mem.heap[x].entries.Values
        && s' == s.(mem := s.mem.(
             heap := s.mem.heap[x := s'.mem.heap[x]],
             groups := Fuse(s.mem.groups, s.arenas[s.wrappers[w].arena], s.arenas[s.wrappers[id].arena])))
      else (s', r) == (s, Raise)
  {
    ConversionReadsAs(s.wrappers[w].kind.keyType, key);
    var k := Convert(s.wrappers[w].kind.keyType, key);
    if k.Some? {
      var entries := s.mem.heap[s.wrappers[w].target].entries[k.value := Ref(s.wrappers[id].target)];
      assert entries[k.value] in entries.Values;
    }
  }

  /** Any other key of the map, and every key of every other map, reads as before a store or a deletion. */
  lemma OtherKeysStay(s: State, w: LuaId, key: LuaVal, v: LuaVal, w2: LuaId, key2: LuaVal, fr: Fresh)
    requires IsMap(s, w) && IsMap(s, w2) && CanPass(s, v) && MapNewindexResult(s, w, key, v).1.Done?
    requires s.wrappers[w].kind.keyType == s.wrappers[w2].kind.keyType != MessageC
    requires s.wrappers[w2].target == s.wrappers[w].target ==> !SameKey(s.wrappers[w].kind.keyType, key, key2)
    ensures var s' := MapNewindexResult(s, w, key, v).0;
      IsMap(s', w2) && MapIndexResult(s', w2, key2, fr).1 == MapIndexResult(s, w2, key2, fr).1
  {
    var kt := s.wrappers[w].kind.keyType;
    ConversionReadsAs(kt, key);
    ConversionReadsAs(kt, key2);
    if ReadsAs(kt, key2).Some? { SameKeyExactly(kt, key, key2); }
    MapStoreIsLocal(s, w, key, v, w2, key2, fr);
  }

  /** A key that was never stored reads as nil, and a key of another type is refused. */
  lemma MapReadExactly(s: State, w: LuaId, key: LuaVal, fr: Fresh)
    requires IsMap(s, w) && s.wrappers[w].kind.keyType != MessageC
    ensures var entries := s.mem.heap[s.wrappers[w].target].entries;
      && (ReadsAs(s.wrappers[w].kind.keyType, key).None? ==> MapIndexResult(s, w, key, fr) == (s, Raise))
      && (ReadsAs(s.wrappers[w].kind.keyType, key).Some? && entries == map[] ==>
            MapIndexResult(s, w, key, fr) == (s, Done(Nil)))
  {
    ConversionReadsAs(s.wrappers[w].kind.keyType, key);
  }
}
