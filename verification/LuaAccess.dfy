/** What stores change and what they leave alone, as later reads see it. */
module LuaAccess {
  import opened Arithmetic
  import opened Options
  import opened NumberChecks
  import opened Binary32
  import opened UpbMemory
  import opened LuaDefs
  import opened LuaGraph
  import opened LuaInvariant

  // ---------- arrays ----------

  /** A store into an array is seen at its own index only: every other index of the array, and every
      index of every other array, reads as before. */
  lemma ArrayStoreIsLocal(s: State, w: LuaId, key: LuaVal, v: LuaVal, w2: LuaId, key2: LuaVal, fr: Fresh)
    requires IsArray(s, w) && IsArray(s, w2) && CanPass(s, v) && ArrayNewindexResult(s, w, key, v).1.Done?
    requires s.wrappers[w2].target == s.wrappers[w].target ==> CheckIndex(key2, TWO_32) != CheckIndex(key, TWO_32)
    ensures var s' := ArrayNewindexResult(s, w, key, v).0;
      IsArray(s', w2) && ArrayIndexResult(s', w2, key2, fr).1 == ArrayIndexResult(s, w2, key2, fr).1
  {
  }

  // ---------- maps ----------

  predicate SameEntry(m: UpbObj, m': UpbObj, k: Value)
    requires m.Map? && m'.Map?
  {
    if k in m.entries then k in m'.entries && m'.entries[k] == m.entries[k] else k !in m'.entries
  }

  /** Lua objects, their caches and the shape of upb's memory are the same. */
  predicate SameObjects(s: State, s': State) {
    && s'.wrappers == s.wrappers && s'.cache == s.cache && s'.arenas == s.arenas && s'.roots == s.roots
    && s'.mem.heap.Keys == s.mem.heap.Keys && s'.mem.home == s.mem.home && s'.mem.groups.Keys == s.mem.groups.Keys
  }

  lemma MapStoreEffect(s: State, w: LuaId, key: LuaVal, v: LuaVal, k2: Value)
    requires IsMap(s, w) && CanPass(s, v) && MapNewindexResult(s, w, key, v).1.Done?
    ensures var x := s.wrappers[w].target;
      var s' := MapNewindexResult(s, w, key, v).0;
      && SameObjects(s, s') && s'.mem.heap[x].Map? && s'.defs == s.defs
      && (forall y | y in s.mem.heap && y != x :: s'.mem.heap[y] == s.mem.heap[y])
      && (Some(k2) != ToMsgVal(s, s.wrappers[w].kind.keyType, key, w) ==> SameEntry(s.mem.heap[x], s'.mem.heap[x], k2))
  {
  }

  lemma MapReadsSame(s: State, s': State, w: LuaId, key: LuaVal, fr: Fresh)
    requires IsMap(s, w) && SameObjects(s, s') && s'.mem.heap[s.wrappers[w].target].Map?
    requires var k := ToMsgVal(s, s.wrappers[w].kind.keyType, key, w);
      k.Some? ==> SameEntry(s.mem.heap[s.wrappers[w].target], s'.mem.heap[s.wrappers[w].target], k.value)
    ensures IsMap(s', w) && MapIndexResult(s', w, key, fr).1 == MapIndexResult(s, w, key, fr).1
  {
  }

  /** A store or a deletion is seen at its own key only: every other key of the map, and every key of
      every other map, reads as before. */
  lemma MapStoreIsLocal(s: State, w: LuaId, key: LuaVal, v: LuaVal, w2: LuaId, key2: LuaVal, fr: Fresh)
    requires IsMap(s, w) && IsMap(s, w2) && CanPass(s, v) && MapNewindexResult(s, w, key, v).1.Done?
    requires s.wrappers[w2].target == s.wrappers[w].target ==>
      ToMsgVal(s, s.wrappers[w2].kind.keyType, key2, w2) != ToMsgVal(s, s.wrappers[w].kind.keyType, key, w)
    ensures var s' := MapNewindexResult(s, w, key, v).0;
      IsMap(s', w2) && MapIndexResult(s', w2, key2, fr).1 == MapIndexResult(s, w2, key2, fr).1
  {
    var k := ToMsgVal(s, s.wrappers[w2].kind.keyType, key2, w2);
    MapStoreEffect(s, w, key, v, if k.Some? then k.value else IntV(0));
    MapReadsSame(s, MapNewindexResult(s, w, key, v).0, w2, key2, fr);
  }

  // ---------- messages ----------

  predicate SameField(o: UpbObj, o': UpbObj, name: string)
    requires o.Msg? && o'.Msg?
  {
    if name in o.fields then name in o'.fields && o'.fields[name] == o.fields[name] else name !in o'.fields
  }

  /** Assigning field `name` unsets field `name2`, which is set, of the same message. */
  predicate Clears(s: State, w: LuaId, name: string, w2: LuaId, name2: string)
    requires IsMsg(s, w) && IsMsg(s, w2)
  {
    var x := s.wrappers[w].target;
    s.wrappers[w2].target == x && name2 in s.mem.heap[x].fields && Siblings(s.defs.schema[DefOf(s, w)], name2, name)
  }

  lemma FieldStoreEffect(s: State, w: LuaId, name: string, v: LuaVal, fr: Fresh, name2: string)
    requires IsMsg(s, w) && CanPass(s, v) && MsgNewindexResult(s, w, name, v, fr).1.Done?
    ensures var x := s.wrappers[w].target;
      var s' := MsgNewindexResult(s, w, name, v, fr).0;
      && SameObjects(s, s') && s'.mem.heap[x].Msg? && s'.mem.heap[x].def == s.mem.heap[x].def
      && (forall y | y in s.mem.heap && y != x :: s'.mem.heap[y] == s.mem.heap[y])
      && (Siblings(s.defs.schema[DefOf(s, w)], name2, name) ==> name2 !in s'.mem.heap[x].fields)
      && (name2 != name && !Siblings(s.defs.schema[DefOf(s, w)], name2, name) ==>
            SameField(s.mem.heap[x], s'.mem.heap[x], name2))
  {
  }

  lemma FieldStoreDefs(s: State, w: LuaId, name: string, v: LuaVal, fr: Fresh, d: LuaId)
    requires IsMsg(s, w) && CanPass(s, v) && IdFree(s, fr.d) && MsgNewindexResult(s, w, name, v, fr).1.Done?
    ensures var s' := MsgNewindexResult(s, w, name, v, fr).0;
      && s'.defs.schema == s.defs.schema && s'.defs.pools.Keys == s.defs.pools.Keys
      && (d in s.defs.wrappers ==> d in s'.defs.wrappers && s'.defs.wrappers[d] == s.defs.wrappers[d])
  {
  }

  lemma FieldReadsSame(s: State, s': State, w: LuaId, name: string, fr: Fresh)
    requires IsMsg(s, w) && IsMsg(s', w) && SameObjects(s, s') && s'.defs.schema == s.defs.schema
    requires DefOf(s', w) == DefOf(s, w)
    requires SameField(s.mem.heap[s.wrappers[w].target], s'.mem.heap[s.wrappers[w].target], name)
    ensures MsgIndexResult(s', w, name, fr).1 == MsgIndexResult(s, w, name, fr).1
  {
  }

  /** What a field that is not set reads as. */
  function Unset(f: FieldDef): LuaVal
    requires !f.default.Ref?
  {
    if IsWrapped(f) then Nil else ToLua(f.default)
  }

  lemma UnsetReads(s: State, w: LuaId, name: string, f: FieldDef, fr: Fresh)
    requires IsField(s, w, name, f) && f.shape == Single && !f.default.Ref?
    requires name !in s.mem.heap[s.wrappers[w].target].fields
    ensures MsgIndexResult(s, w, name, fr).1 == Done(Unset(f))
  {
  }

  lemma StoreLeavesWrapper(s: State, w: LuaId, name: string, v: LuaVal, fr: Fresh, w2: LuaId)
    requires IsMsg(s, w) && IsMsg(s, w2) && CanPass(s, v) && IdFree(s, fr.d)
    requires MsgNewindexResult(s, w, name, v, fr).1.Done?
    ensures var s' := MsgNewindexResult(s, w, name, v, fr).0;
      IsMsg(s', w2) && DefOf(s', w2) == DefOf(s, w2) && s'.defs.schema == s.defs.schema
  {
    FieldStoreEffect(s, w, name, v, fr, name);
    FieldStoreDefs(s, w, name, v, fr, s.wrappers[w2].msgdef.value);
  }

  /** What any other field, of the same message or another one, reads as after an assignment: the
      same as before, except that a set sibling in the assigned field's oneof reads as unset.  So the
      assignment is invisible there exactly when the field is no such sibling or read as unset
      before. */
  lemma FieldStoreExactly(s: State, w: LuaId, name: string, v: LuaVal, fr: Fresh,
      w2: LuaId, name2: string, f2: FieldDef, fr2: Fresh)
    requires Inv(s) && IsMsg(s, w) && IsField(s, w2, name2, f2) && CanPass(s, v) && IdFree(s, fr.d)
    requires MsgNewindexResult(s, w, name, v, fr).1.Done?
    requires s.wrappers[w2].target != s.wrappers[w].target || name2 != name
    ensures var s' := MsgNewindexResult(s, w, name, v, fr).0;
      var before := MsgIndexResult(s, w2, name2, fr2).1;
      && IsMsg(s', w2) && !f2.default.Ref?
      && MsgIndexResult(s', w2, name2, fr2).1 == (if Clears(s, w, name, w2, name2) then Done(Unset(f2)) else before)
      && (MsgIndexResult(s', w2, name2, fr2).1 == before <==>
            !Clears(s, w, name, w2, name2) || before == Done(Unset(f2)))
  {
    var s' := MsgNewindexResult(s, w, name, v, fr).0;
    ResolvedField(s, w, name2);
    ResolvedField(s, w2, name2);
    FieldStoreEffect(s, w, name, v, fr, name2);
    StoreLeavesWrapper(s, w, name, v, fr, w2);
    if s.wrappers[w2].target == s.wrappers[w].target && Siblings(s.defs.schema[DefOf(s, w)], name2, name) {
      UnsetReads(s', w2, name2, f2, fr2);
      if name2 !in s.mem.heap[s.wrappers[w].target].fields { UnsetReads(s, w2, name2, f2, fr2); }
    } else {
      FieldReadsSame(s, s', w2, name2, fr2);
    }
  }

  /** A value assigned to a plain field is read back as its conversion. */
  lemma PlainFieldReadsBack(s: State, w: LuaId, name: string, f: FieldDef, v: LuaVal, fr: Fresh, fr2: Fresh)
    requires IsField(s, w, name, f) && !IsWrapped(f) && CanPass(s, v)
    ensures var (s', r) := MsgNewindexResult(s, w, name, v, fr);
      match Convert(f.ctype, v)
      case None => (s', r) == (s, Raise)
      case Some(val) =>
        && r == Done(v) && IsField(s', w, name, f) && name in s'.mem.heap[s'.wrappers[w].target].fields
        && MsgIndexResult(s', w, name, fr2) == (s', Done(ToLua(val)))
  {
  }

  const ONEOF_UINT32 := FieldDef(Single, UInt32C, None, IntV(0), Some("oneof_field"))
  const ONEOF_BOOL := FieldDef(Single, BoolC, None, BoolV(false), Some("oneof_field"))

  /** Assigning one field of a oneof makes any other that is set read as unset. */
  lemma SiblingReadsUnset(s: State, w: LuaId, name: string, v: LuaVal, fr: Fresh, name2: string, f2: FieldDef,
      fr2: Fresh)
    requires Inv(s) && IsField(s, w, name2, f2) && CanPass(s, v) && IdFree(s, fr.d)
    requires Siblings(s.defs.schema[DefOf(s, w)], name2, name) && name2 in s.mem.heap[s.wrappers[w].target].fields
    requires MsgNewindexResult(s, w, name, v, fr).1.Done?
    ensures var s' := MsgNewindexResult(s, w, name, v, fr).0;
      !f2.default.Ref? && IsMsg(s', w) && MsgIndexResult(s', w, name2, fr2).1 == Done(Unset(f2))
  {
    assert Clears(s, w, name, w, name2);
    FieldStoreExactly(s, w, name, v, fr, w, name2, f2, fr2);
  }

  lemma OneConverts()
    ensures Convert(UInt32C, NumL(Integer(1))) == Some(IntV(1))
  {
  }

  lemma StoresOne(s: State, w: LuaId, m: string, n: string, fr: Fresh)
    requires Inv(s) && IsField(s, w, m, ONEOF_UINT32) && IsField(s, w, n, ONEOF_BOOL) && FreshOk(s, fr)
    ensures var s1 := MsgNewindexResult(s, w, m, NumL(Integer(1)), fr).0;
      && Inv(s1) && IsField(s1, w, m, ONEOF_UINT32) && IsField(s1, w, n, ONEOF_BOOL) && IdFree(s1, fr.d)
      && m in s1.mem.heap[s1.wrappers[w].target].fields
      && MsgIndexResult(s1, w, m, fr).1 == Done(NumL(Push(1)))
  {
    var one := NumL(Integer(1));
    OneConverts();
    PlainFieldReadsBack(s, w, m, ONEOF_UINT32, one, fr, fr);
    MsgNewindexInv(s, w, m, one, fr);
  }

  /** An assignment is not always seen at its own field only: of two fields m and n of one oneof,
      such as oneof_uint32 and oneof_bool of TestAllTypesProto3, the first reads as zero again once the
      second is assigned. */
  lemma OneofAssignmentIsSeenElsewhere(s: State, w: LuaId, m: string, n: string, fr: Fresh)
    requires Inv(s) && IsField(s, w, m, ONEOF_UINT32) && IsField(s, w, n, ONEOF_BOOL) && FreshOk(s, fr)
    ensures var s1 := MsgNewindexResult(s, w, m, NumL(Integer(1)), fr).0;
      && IsMsg(s1, w) && MsgIndexResult(s1, w, m, fr).1 == Done(NumL(Push(1)))
      && var s2 := MsgNewindexResult(s1, w, n, BoolL(true), fr).0;
      IsMsg(s2, w) && MsgIndexResult(s2, w, m, fr).1 == Done(NumL(Push(0)))
  {
    StoresOne(s, w, m, n, fr);
    SiblingReadsUnset(MsgNewindexResult(s, w, m, NumL(Integer(1)), fr).0, w, n, BoolL(true), fr, m, ONEOF_UINT32, fr);
  }

  function IntegerType(t: CType): Option<IntType> {
    match t
    case Int32C => Some(Int32T)
    case EnumC => Some(Int32T)
    case UInt32C => Some(UInt32T)
    case Int64C => Some(Int64T)
    case UInt64C => Some(UInt64T)
    case _ => None
  }

  /** What is read from an integer field can be stored again as the same integer exactly when
      binary64 holds it, which it always does for 32 bits. */
  lemma IntegerFieldsExactly(t: CType, i: int)
    requires IntegerType(t).Some? && Min(IntegerType(t).value) <= i <= Max(IntegerType(t).value)
    ensures Convert(t, ToLua(IntV(i))) == Some(IntV(i)) <==> Exact(i)
    ensures t in {Int32C, EnumC, UInt32C} ==> Exact(i)
  {
    CheckAfterPush(IntegerType(t).value, i);
  }

  /** What is read from a float field can be stored again unchanged. */
  lemma FloatFieldsReadBack(v: LuaVal, val: Value)
    requires Convert(FloatC, v) == Some(val)
    ensures Convert(FloatC, ToLua(val)) == Some(val)
  {
    NarrowTwice(ToDouble(v.n));
  }
}
