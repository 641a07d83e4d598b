/** What the operations of the Lua binding make, refuse and collect: new objects, initial tables, fields
    that are not set, lookups, and what the collector may take and takes. */
module LuaOperations {
  import opened Options
  import opened NumberChecks
  import opened Arenas
  import opened UpbMemory
  import opened LuaDefs
  import opened LuaGraph
  import opened LuaInvariant
  import opened LuaSafety
  import opened LuaReadback

  const ONE := NumL(Integer(1))

  // ---------- new objects ----------

  lemma NewArrayIsEmpty(s: State, t: CType, fr: Fresh)
    requires Unused(s, fr)
    ensures var (s', r) := NewArrayResult(s, OfType(t), fr);
      && r == Done(ObjL(fr.w)) && IsArray(s', fr.w)
      && s'.wrappers[fr.w] == Wrapper(ArrW(t), fr.x, fr.l, None) && s'.mem.heap[fr.x] == Arr(t, None, [])
  {
  }

  /** A new array of a plain type has no elements, takes as its first one exactly what the type takes, and
      reads it back. */
  lemma NewArrayTakes(s: State, t: CType, v: LuaVal, fr: Fresh, fr2: Fresh)
    requires Unused(s, fr) && t != MessageC && CanPass(s, v)
    ensures var (s1, r1) := NewArrayResult(s, OfType(t), fr);
      && r1 == Done(ObjL(fr.w)) && IsArray(s1, fr.w) && CanPass(s1, v)
      && ArrayIndexResult(s1, fr.w, ONE, fr2) == (s1, Raise)
      && var (s2, r2) := ArrayNewindexResult(s1, fr.w, ONE, v);
      (r2.Done? <==> ReadsAs(t, v).Some?)
      && (r2.Done? ==> IsArray(s2, fr.w) && ArrayIndexResult(s2, fr.w, ONE, fr2) == (s2, Done(ReadsAs(t, v).value)))
  {
    NewArrayIsEmpty(s, t, fr);
    var s1 := NewArrayResult(s, OfType(t), fr).0;
    ArrayStoreExactly(s1, fr.w, ONE, 1, v);
    IndexExactly(ONE, 1, 0);
    if ArrayNewindexResult(s1, fr.w, ONE, v).1.Done? { ArrayReadsAs(s1, fr.w, ONE, ONE, 1, v, fr2); }
  }

  lemma NewClassArrayIsEmpty(s: State, d: LuaId, fr: Fresh)
    requires Unused(s, fr) && IsClass(s, d)
    ensures var (s', r) := NewArrayResult(s, OfDef(d), fr);
      && r == Done(ObjL(fr.w)) && IsArray(s', fr.w) && s'.wrappers == s.wrappers[fr.w := s'.wrappers[fr.w]]
      && s'.wrappers[fr.w].kind == ArrW(MessageC) && s'.wrappers[fr.w].target == fr.x
      && s'.mem.heap == s.mem.heap[fr.x := Arr(MessageC, Some(s.defs.wrappers[d].def), [])]
  {
  }

  lemma StillPassable(s: State, d: LuaId, id: LuaId, fr: Fresh)
    requires FreshOk(s, fr) && IsClass(s, d) && CanPass(s, ObjL(id))
    ensures CanPass(NewArrayResult(s, OfDef(d), fr).0, ObjL(id))
  {
  }

  /** A new array of a message class takes exactly the messages of that class. */
  lemma NewClassArrayTakes(s: State, d: LuaId, id: LuaId, fr: Fresh)
    requires Inv(s) && FreshOk(s, fr) && IsClass(s, d)
    requires id in s.roots && id in s.wrappers && s.wrappers[id].kind == MsgW
    ensures var (s1, r1) := NewArrayResult(s, OfDef(d), fr);
      && r1 == Done(ObjL(fr.w)) && IsArray(s1, fr.w) && CanPass(s1, ObjL(id))
      && s.wrappers[id].target in s.mem.heap && s.mem.heap[s.wrappers[id].target].Msg?
      && (ArrayNewindexResult(s1, fr.w, ONE, ObjL(id)).1.Done? <==>
            s.mem.heap[s.wrappers[id].target].def == s.defs.wrappers[d].def)
  {
    HeldIsUsable(s, id);
    NewArrayInv(s, OfDef(d), fr);
    NewClassArrayIsEmpty(s, d, fr);
    StillPassable(s, d, id, fr);
    ArrayAcceptsExactly(NewArrayResult(s, OfDef(d), fr).0, fr.w, ONE, 1, id);
  }

  lemma NewMapIsEmpty(s: State, kt: CType, t: CType, fr: Fresh)
    requires Unused(s, fr)
    ensures var (s', r) := NewMapResult(s, kt, OfType(t), fr);
      && r == Done(ObjL(fr.w)) && IsMap(s', fr.w)
      && s'.wrappers[fr.w] == Wrapper(MapW(kt, t), fr.x, fr.l, None) && s'.mem.heap[fr.x] == Map(kt, t, None, map[])
  {
  }

  /** A new map of plain types reads as nil everywhere, takes exactly what its types take, and reads it
      back. */
  lemma NewMapTakes(s: State, kt: CType, t: CType, key: LuaVal, v: LuaVal, fr: Fresh, fr2: Fresh)
    requires Unused(s, fr) && kt != MessageC && t != MessageC && CanPass(s, v) && v != Nil
    ensures var (s1, r1) := NewMapResult(s, kt, OfType(t), fr);
      && r1 == Done(ObjL(fr.w)) && IsMap(s1, fr.w) && CanPass(s1, v)
      && MapIndexResult(s1, fr.w, key, fr2) == (s1, if ReadsAs(kt, key).Some? then Done(Nil) else Raise)
      && var (s2, r2) := MapNewindexResult(s1, fr.w, key, v);
      (r2.Done? <==> ReadsAs(kt, key).Some? && ReadsAs(t, v).Some?)
      && (r2.Done? ==> IsMap(s2, fr.w) && MapIndexResult(s2, fr.w, key, fr2) == (s2, Done(ReadsAs(t, v).value)))
  {
    NewMapIsEmpty(s, kt, t, fr);
    var s1 := NewMapResult(s, kt, OfType(t), fr).0;
    MapReadExactly(s1, fr.w, key, fr2);
    MapStoreExactly(s1, fr.w, key, key, v, fr2);
    if ReadsAs(kt, key).Some? { SameKeyExactly(kt, key, key); }
  }

  // ---------- initial tables ----------

  /** The entries carry the indices from `first` on, and values the element type takes. */
  predicate Listed(t: CType, entries: seq<Entry>, first: nat) {
    forall k | 0 <= k < |entries| :: Denotes(entries[k].key, first + k) && ReadsAs(t, entries[k].val).Some?
  }

  lemma ListedRest(t: CType, entries: seq<Entry>, first: nat)
    requires Listed(t, entries, first) && entries != []
    ensures Listed(t, entries[1..], first + 1)
  {
    forall k | 0 <= k < |entries[1..]|
      ensures Denotes(entries[1..][k].key, first + 1 + k) && ReadsAs(t, entries[1..][k].val).Some?
    {
      assert entries[1..][k] == entries[k + 1];
    }
  }

  /** A plain array with room for the entries, which carry its next indices. */
  ghost predicate Takes(s: State, w: LuaId, entries: seq<Entry>) {
    && IsArray(s, w) && s.wrappers[w].kind.ctype != MessageC && CanPassAll(s, entries)
    && |s.mem.heap[s.wrappers[w].target].items| + |entries| <= MAX_INDEX
    && Listed(s.wrappers[w].kind.ctype, entries, |s.mem.heap[s.wrappers[w].target].items| + 1)
  }

  lemma FirstStored(s: State, w: LuaId, e: Entry)
    requires IsArray(s, w) && CanPass(s, e.val) && s.wrappers[w].kind.ctype != MessageC
    requires Denotes(e.key, |s.mem.heap[s.wrappers[w].target].items| + 1)
    requires |s.mem.heap[s.wrappers[w].target].items| < MAX_INDEX && ReadsAs(s.wrappers[w].kind.ctype, e.val).Some?
    ensures var (s1, r) := ArrayNewindexResult(s, w, e.key, e.val);
      var val := Convert(s.wrappers[w].kind.ctype, e.val);
      && r.Done? && IsArray(s1, w) && s1.wrappers == s.wrappers
      && val.Some? && !val.value.Ref? && Some(ToLua(val.value)) == ReadsAs(s.wrappers[w].kind.ctype, e.val)
      && s1.mem.heap[s.wrappers[w].target].items == s.mem.heap[s.wrappers[w].target].items + [val.value]
  {
    var items := s.mem.heap[s.wrappers[w].target].items;
    IndexExactly(e.key, |items| + 1, |items| + 1);
    ConversionReadsAs(s.wrappers[w].kind.ctype, e.val);
  }

  /** Storing the first entry leads to s1, from where the others are stored. */
  lemma StoreNext(s: State, w: LuaId, entries: seq<Entry>) returns (s1: State, val: Value)
    requires Takes(s, w, entries) && entries != []
    ensures Takes(s1, w, entries[1..]) && s1.wrappers == s.wrappers
    ensures StoreEntries(s, w, entries) == StoreEntries(s1, w, entries[1..])
    ensures !val.Ref? && Some(ToLua(val)) == ReadsAs(s.wrappers[w].kind.ctype, entries[0].val)
    ensures s1.mem.heap[s.wrappers[w].target].items == s.mem.heap[s.wrappers[w].target].items + [val]
  {
    var items := s.mem.heap[s.wrappers[w].target].items;
    assert entries[0] in entries && Denotes(entries[0].key, |items| + 1 + 0);
    FirstStored(s, w, entries[0]);
    ArrayStoreKeepsAll(s, w, entries);
    ListedRest(s.wrappers[w].kind.ctype, entries, |items| + 1);
    s1 := ArrayNewindexResult(s, w, entries[0].key, entries[0].val).0;
    val := Convert(s.wrappers[w].kind.ctype, entries[0].val).value;
  }

  /** Plain items that read as the values of the entries. */
  ghost predicate ReadAsListed(t: CType, items: seq<Value>, entries: seq<Entry>) {
    && |items| == |entries|
    && forall k | 0 <= k < |items| :: !items[k].Ref? && Some(ToLua(items[k])) == ReadsAs(t, entries[k].val)
  }

  lemma ListedFirst(t: CType, items: seq<Value>, val: Value, all: seq<Value>, entries: seq<Entry>)
    requires entries != [] && items + [val] <= all
    requires !val.Ref? && Some(ToLua(val)) == ReadsAs(t, entries[0].val)
    requires ReadAsListed(t, all[|items| + 1..], entries[1..])
    ensures items <= all && ReadAsListed(t, all[|items|..], entries)
  {
    var later := all[|items| + 1..];
    assert all[|items|] == (items + [val])[|items|] == val;
    assert all[|items|..] == [val] + later;
    forall k | 0 <= k < |entries|
      ensures !all[|items|..][k].Ref? && Some(ToLua(all[|items|..][k])) == ReadsAs(t, entries[k].val)
    {
      if k > 0 { assert all[|items|..][k] == later[k - 1] && entries[1..][k - 1] == entries[k]; }
    }
  }

  /** The array's items are those before and then the values of the entries. */
  ghost predicate Appended(s: State, w: LuaId, items: seq<Value>, entries: seq<Entry>, s': State)
    requires IsArray(s, w)
  {
    && IsArray(s', w) && s'.wrappers == s.wrappers
    && items <= s'.mem.heap[s.wrappers[w].target].items
    && ReadAsListed(s.wrappers[w].kind.ctype, s'.mem.heap[s.wrappers[w].target].items[|items|..], entries)
  }

  /** Storing the entries succeeds and appends their values. */
  ghost predicate AppendsAll(s: State, w: LuaId, entries: seq<Entry>, result: (State, Outcome)) {
    IsArray(s, w) && result.1 == Done(ObjL(w)) &&
    Appended(s, w, s.mem.heap[s.wrappers[w].target].items, entries, result.0)
  }

  lemma AppendFirst(s: State, w: LuaId, entries: seq<Entry>, val: Value, s1: State, result: (State, Outcome))
    requires IsArray(s, w) && IsArray(s1, w) && s1.wrappers == s.wrappers && entries != []
    requires s1.mem.heap[s.wrappers[w].target].items == s.mem.heap[s.wrappers[w].target].items + [val]
    requires !val.Ref? && Some(ToLua(val)) == ReadsAs(s.wrappers[w].kind.ctype, entries[0].val)
    requires AppendsAll(s1, w, entries[1..], result)
    ensures AppendsAll(s, w, entries, result)
  {
    var x := s.wrappers[w].target;
    ListedFirst(s.wrappers[w].kind.ctype, s.mem.heap[x].items, val, result.0.mem.heap[x].items, entries);
  }

  lemma NothingToAppend(s: State, w: LuaId)
    requires IsArray(s, w)
    ensures CanPassAll(s, []) && AppendsAll(s, w, [], StoreEntries(s, w, []))
  {
    var items := s.mem.heap[s.wrappers[w].target].items;
    assert items[|items|..] == [];
  }

  lemma {:induction false} EntriesAppend(s: State, w: LuaId, entries: seq<Entry>)
    requires Takes(s, w, entries)
    ensures AppendsAll(s, w, entries, StoreEntries(s, w, entries))
    decreases |entries|
  {
    if entries == [] {
      NothingToAppend(s, w);
    } else {
      var s1, val := StoreNext(s, w, entries);
      EntriesAppend(s1, w, entries[1..]);
      AppendFirst(s, w, entries, val, s1, StoreEntries(s1, w, entries[1..]));
    }
  }

  /** An array made with a table of values of its type, in order, holds those values. */
  lemma InitialTableReads(s: State, t: CType, entries: seq<Entry>, fr: Fresh, k: nat, fr2: Fresh)
    requires Unused(s, fr) && t != MessageC && CanPassAll(s, entries)
    requires |entries| <= MAX_INDEX && Listed(t, entries, 1) && k < |entries|
    ensures var (s', r) := NewArrayFromResult(s, OfType(t), entries, fr);
      && r == Done(ObjL(fr.w)) && IsArray(s', fr.w)
      && ArrayIndexResult(s', fr.w, NumL(Integer(k + 1)), fr2) == (s', Done(ReadsAs(t, entries[k].val).value))
      && ArrayIndexResult(s', fr.w, NumL(Integer(|entries| + 1)), fr2) == (s', Raise)
  {
    NewArrayIsEmpty(s, t, fr);
    NewArrayUsable(s, OfType(t), fr, entries);
    var s1 := NewArrayResult(s, OfType(t), fr).0;
    EntriesAppend(s1, fr.w, entries);
    AppendedReads(s1, fr.w, entries, StoreEntries(s1, fr.w, entries).0, k, fr2);
  }

  lemma AppendedReads(s: State, w: LuaId, entries: seq<Entry>, s': State, k: nat, fr: Fresh)
    requires IsArray(s, w) && Appended(s, w, [], entries, s') && |entries| <= MAX_INDEX && k < |entries|
    ensures ReadsAs(s.wrappers[w].kind.ctype, entries[k].val).Some?
    ensures ArrayIndexResult(s', w, NumL(Integer(k + 1)), fr) ==
      (s', Done(ReadsAs(s.wrappers[w].kind.ctype, entries[k].val).value))
    ensures ArrayIndexResult(s', w, NumL(Integer(|entries| + 1)), fr) == (s', Raise)
  {
    var items := s'.mem.heap[s.wrappers[w].target].items;
    assert items[0..] == items;
    IndexExactly(NumL(Integer(k + 1)), k + 1, |items|);
    IndexExactly(NumL(Integer(|entries| + 1)), |entries| + 1, |items|);
  }

  /** An initial table with an entry that is refused makes no array. */
  lemma {:induction false} RefusedEntry(s: State, w: LuaId, entries: seq<Entry>)
    requires IsArray(s, w) && CanPassAll(s, entries)
    ensures var (s', r) := StoreEntries(s, w, entries);
      && (r == Done(ObjL(w)) || (r == Raise && w !in s'.roots))
      && (entries != [] && ArrayNewindexResult(s, w, entries[0].key, entries[0].val).1 == Raise ==> r == Raise)
    decreases |entries|
  {
    if entries != [] {
      assert entries[0] in entries;
      var (s1, r) := ArrayNewindexResult(s, w, entries[0].key, entries[0].val);
      if r != Raise {
        ArrayStoreKeepsAll(s, w, entries);
        RefusedEntry(s1, w, entries[1..]);
      }
    }
  }

  // ---------- fields ----------

  /** A field that is not set: a plain one reads as its default, a message as nil. */
  lemma UnsetFieldReads(s: State, w: LuaId, name: string, f: FieldDef, fr: Fresh)
    requires IsField(s, w, name, f) && f.shape == Single && !f.default.Ref?
    requires name !in s.mem.heap[s.wrappers[w].target].fields
    ensures MsgIndexResult(s, w, name, fr) == (s, Done(if f.ctype == MessageC then Nil else ToLua(f.default)))
  {
  }

  lemma UnknownField(s: State, w: LuaId, name: string, v: LuaVal, fr: Fresh)
    requires IsMsg(s, w) && CanPass(s, v) && name !in s.defs.schema[DefOf(s, w)]
    ensures MsgIndexResult(s, w, name, fr) == (s, Raise) && MsgNewindexResult(s, w, name, v, fr) == (s, Raise)
  {
  }

  lemma ContainerAllocated(s: State, w: LuaId, name: string, f: FieldDef, fr: Fresh)
    requires IsField(s, w, name, f) && f.shape != Single && fr.x !in s.mem.heap
    requires name !in s.mem.heap[s.wrappers[w].target].fields
    ensures var (s', p) := Mutable(s, w, name, f, fr);
      && p == Some(fr.x) && IsField(s', w, name, f) && s'.cache == s.cache && s'.wrappers == s.wrappers
      && s'.defs == s.defs && s'.roots == s.roots
      && fr.x in s'.mem.heap && s'.mem.heap[fr.x] == EmptyContainer(f)
      && name in s'.mem.heap[s.wrappers[w].target].fields
      && s'.mem.heap[s.wrappers[w].target].fields[name] == Ref(fr.x)
  {
  }

  lemma ContainerWrapped(s: State, w: LuaId, name: string, f: FieldDef, x: Addr, fr: Fresh)
    requires IsField(s, w, name, f) && w != fr.w && s.wrappers[w].msgdef.value != fr.d
    ensures var s' := WrapField(s, w, f, x, fr);
      && fr.w in s'.wrappers && fr.w in s'.roots && s'.cache == s.cache[x := fr.w] && s'.mem == s.mem
      && s'.wrappers[fr.w].target == x && s'.wrappers[fr.w].kind == KindOf(f)
      && IsField(s', w, name, f) && s'.wrappers[w] == s.wrappers[w]
  {
  }

  /** A repeated or map field that is not set reads as an empty array or map of the field's types, and from
      then on as the same object. */
  lemma UnsetContainerReads(s: State, w: LuaId, name: string, f: FieldDef, fr: Fresh, fr2: Fresh)
    requires Inv(s) && FreshOk(s, fr) && IsField(s, w, name, f) && f.shape != Single
    requires name !in s.mem.heap[s.wrappers[w].target].fields
    ensures var (s', r) := MsgIndexResult(s, w, name, fr);
      && r == Done(ObjL(fr.w)) && IsMsg(s', w) && MsgIndexResult(s', w, name, fr2) == (s', r)
      && fr.w in s'.wrappers && s'.wrappers[fr.w].target in s'.mem.heap
      && var o := s'.mem.heap[s'.wrappers[fr.w].target];
      match f.shape
      case Repeated => s'.wrappers[fr.w].kind == ArrW(f.ctype) && o.Arr? && o.items == []
      case MapOf(k) => s'.wrappers[fr.w].kind == MapW(k, f.ctype) && o.Map? && o.entries == map[]
      case Single => true
  {
    UnallocatedUncached(s, fr.x);
    ContainerAllocated(s, w, name, f, fr);
    var s1 := Mutable(s, w, name, f, fr).0;
    ContainerWrapped(s1, w, name, f, fr.x, fr);
    SecondRead(WrapField(s1, w, f, fr.x, fr), w, name, f, fr.x, fr.w, fr2);
  }

  /** An object that is set and has a wrapper is read as that wrapper. */
  lemma SecondRead(s: State, w: LuaId, name: string, f: FieldDef, x: Addr, id: LuaId, fr: Fresh)
    requires IsField(s, w, name, f) && IsWrapped(f) && name in s.mem.heap[s.wrappers[w].target].fields
    requires s.mem.heap[s.wrappers[w].target].fields[name] == Ref(x)
    requires x in s.cache && s.cache[x] == id && id in s.roots
    ensures MsgIndexResult(s, w, name, fr) == (s, Done(ObjL(id)))
  {
    assert s.roots + {id} == s.roots;
  }

  /** A store that fails changes nothing but, for a field, the definition wrapper it may have made. */
  lemma RefusedStores(s: State, w: LuaId, key: LuaVal, name: string, v: LuaVal, fr: Fresh)
    requires CanPass(s, v)
    ensures IsArray(s, w) && ArrayNewindexResult(s, w, key, v).1 == Raise ==> ArrayNewindexResult(s, w, key, v).0 == s
    ensures IsMap(s, w) && MapNewindexResult(s, w, key, v).1 == Raise ==> MapNewindexResult(s, w, key, v).0 == s
    ensures IsMsg(s, w) && MsgNewindexResult(s, w, name, v, fr).1 == Raise ==>
      MsgNewindexResult(s, w, name, v, fr).0.(defs := s.defs) == s
  {
  }

  predicate WrapsA(s: State, v: LuaVal, kind: Kind) {
    v.ObjL? && v.id in s.wrappers && s.wrappers[v.id].kind == kind
  }

  /** Where messages or containers belong, nothing else is stored: no plain value, no class, and no object of
      another kind. */
  lemma OthersAreRefused(s: State, w: LuaId, key: LuaVal, name: string, f: FieldDef, v: LuaVal, fr: Fresh)
    requires CanPass(s, v)
    ensures IsArray(s, w) && s.wrappers[w].kind.ctype == MessageC && !WrapsA(s, v, MsgW) ==>
      ArrayNewindexResult(s, w, key, v).1 == Raise
    ensures IsMap(s, w) && s.wrappers[w].kind.valueType == MessageC && v != Nil && !WrapsA(s, v, MsgW) ==>
      MapNewindexResult(s, w, key, v).1 == Raise
    ensures IsField(s, w, name, f) && f.shape == Single && f.ctype == MessageC && !WrapsA(s, v, MsgW) ==>
      MsgNewindexResult(s, w, name, v, fr).1 == Raise
    ensures IsField(s, w, name, f) && f.shape == Repeated && !WrapsA(s, v, ArrW(f.ctype)) ==>
      MsgNewindexResult(s, w, name, v, fr).1 == Raise
    ensures IsField(s, w, name, f) && f.shape.MapOf? && !WrapsA(s, v, MapW(f.shape.key, f.ctype)) ==>
      MsgNewindexResult(s, w, name, v, fr).1 == Raise
  {
  }

  /** An object assignment links the object, fuses the arenas of the two wrappers, and changes no other
      object, wrapper or arena. */
  lemma AssignmentFuses(s: State, w: LuaId, name: string, f: FieldDef, id: LuaId, fr: Fresh)
    requires IsField(s, w, name, f) && IsWrapped(f) && CanPass(s, ObjL(id))
    requires MsgNewindexResult(s, w, name, ObjL(id), fr).1.Done?
    ensures id in s.wrappers && id in s.roots
    ensures var s' := MsgNewindexResult(s, w, name, ObjL(id), fr).0;
      var x := s.wrappers[w].target;
      && s'.mem.groups == Fuse(s.mem.groups, s.arenas[s.wrappers[w].arena], s.arenas[s.wrappers[id].arena])
      && x in s'.mem.heap && s'.mem.heap == s.mem.heap[x := s'.mem.heap[x]] && s'.mem.heap[x].Msg?
      && name in s'.mem.heap[x].fields && s'.mem.heap[x].fields[name] == Ref(s.wrappers[id].target)
      && s'.mem.home == s.mem.home && s'.mem.unfreed == s.mem.unfreed
      && s' == s.(mem := s'.mem, defs := s'.defs)
  {
  }

  // ---------- new and decoded messages ----------

  /** f is the field `name` of the messages of class d. */
  predicate Declares(s: State, d: LuaId, name: string, f: FieldDef) {
    IsClass(s, d) && var def := s.defs.wrappers[d].def;
    def in s.defs.schema && name in s.defs.schema[def] && s.defs.schema[def][name] == f
  }

  lemma NewMessageIsEmpty(s: State, d: LuaId, name: string, f: FieldDef, fr: Fresh)
    requires Unused(s, fr) && Declares(s, d, name, f) && s.defs.wrappers[d].pool in s.defs.pools
    ensures var (s1, r) := NewMessageResult(s, d, fr);
      && r == Done(ObjL(fr.w)) && IsField(s1, fr.w, name, f) && s1.wrappers[fr.w].target == fr.x
      && s1.mem.heap == s.mem.heap[fr.x := Msg(s.defs.wrappers[d].def, map[])]
  {
  }

  /** A new message: nothing is set, so that a plain field reads as its default and a message field as nil. */
  lemma NewMessageReads(s: State, d: LuaId, name: string, f: FieldDef, fr: Fresh, fr2: Fresh)
    requires Inv(s) && FreshOk(s, fr) && Declares(s, d, name, f)
    ensures var (s1, r) := NewMessageResult(s, d, fr);
      && r == Done(ObjL(fr.w)) && IsField(s1, fr.w, name, f) && s1.wrappers[fr.w].target == fr.x
      && s1.mem.heap == s.mem.heap[fr.x := Msg(s.defs.wrappers[d].def, map[])]
      && (f.shape == Single && !f.default.Ref? ==>
            MsgIndexResult(s1, fr.w, name, fr2) == (s1, Done(if f.ctype == MessageC then Nil else ToLua(f.default))))
  {
    assert WrapperOk(s.defs, d);
    NewMessageIsEmpty(s, d, name, f, fr);
    if f.shape == Single && !f.default.Ref? { UnsetFieldReads(NewMessageResult(s, d, fr).0, fr.w, name, f, fr2); }
  }

  lemma SetFieldReads(s: State, w: LuaId, name: string, f: FieldDef, fr: Fresh)
    requires IsField(s, w, name, f) && !IsWrapped(f) && name in s.mem.heap[s.wrappers[w].target].fields
    requires !s.mem.heap[s.wrappers[w].target].fields[name].Ref?
    ensures MsgIndexResult(s, w, name, fr) == (s, Done(ToLua(s.mem.heap[s.wrappers[w].target].fields[name])))
  {
  }

  lemma DecodedIsParsed(s: State, d: LuaId, objs: map<Addr, UpbObj>, name: string, f: FieldDef, fr: Fresh)
    requires Unused(s, fr) && Declares(s, d, name, f) && s.defs.wrappers[d].pool in s.defs.pools
    requires fr.x in objs && objs[fr.x].Msg?
    ensures var (s1, r) := DecodeResult(s, d, objs, true, fr);
      && r == Done(ObjL(fr.w)) && IsField(s1, fr.w, name, f) && s1.wrappers[fr.w].target == fr.x
      && s1.mem.heap[fr.x] == objs[fr.x]
  {
  }

  /** A message decoded with success reads as what the parser put into it; after a failure the program holds
      what it held before. */
  lemma DecodedReads(s: State, d: LuaId, objs: map<Addr, UpbObj>, ok: bool, name: string, f: FieldDef, fr: Fresh,
                     fr2: Fresh)
    requires Inv(s) && Enabled(s, Decode(d, objs, ok), fr) && Declares(s, d, name, f) && !IsWrapped(f)
    requires name in objs[fr.x].fields && !objs[fr.x].fields[name].Ref?
    ensures var (s1, r) := DecodeResult(s, d, objs, ok, fr);
      if ok then
        && r == Done(ObjL(fr.w)) && IsMsg(s1, fr.w)
        && MsgIndexResult(s1, fr.w, name, fr2) == (s1, Done(ToLua(objs[fr.x].fields[name])))
      else r == Raise && s1.roots == s.roots
  {
    assert WrapperOk(s.defs, d);
    if ok {
      DecodedIsParsed(s, d, objs, name, f, fr);
      SetFieldReads(DecodeResult(s, d, objs, ok, fr).0, fr.w, name, f, fr2);
    }
  }

  /** What decoding adds: the parser's objects, all in the new arena of the wrapper, and nothing else. */
  lemma DecodedObjects(s: State, d: LuaId, objs: map<Addr, UpbObj>, ok: bool, fr: Fresh, x: Addr)
    requires Inv(s) && Enabled(s, Decode(d, objs, ok), fr)
    ensures var s1 := DecodeResult(s, d, objs, ok, fr).0;
      && (x in s1.mem.heap <==> x in objs || x in s.mem.heap)
      && (x in objs ==> s1.mem.heap[x] == objs[x] && x in s1.mem.home && s1.mem.home[x] == fr.a)
      && (x in s.mem.heap ==> s1.mem.heap[x] == s.mem.heap[x])
      && s1.wrappers == s.wrappers[fr.w := Wrapper(MsgW, fr.x, fr.l, Some(d))] && s1.arenas == s.arenas[fr.l := fr.a]
  {
  }

  /** A field that holds an object reads as a wrapper of that object: the one it has, or else the new one. */
  lemma ObjectFieldReads(s: State, w: LuaId, name: string, f: FieldDef, x: Addr, fr: Fresh)
    requires Inv(s) && FreshOk(s, fr) && IsField(s, w, name, f) && IsWrapped(f)
    requires name in s.mem.heap[s.wrappers[w].target].fields && s.mem.heap[s.wrappers[w].target].fields[name] == Ref(x)
    ensures var (s1, r) := MsgIndexResult(s, w, name, fr);
      && r.Done? && r.v.ObjL? && r.v.id in s1.wrappers && r.v.id in s1.roots && s1.wrappers[r.v.id].target == x
      && (r.v.id == fr.w <==> x !in s.cache) && s1.mem == s.mem
      && (r.v.id == fr.w ==> match f.shape
            case Single => s1.wrappers[fr.w].kind == MsgW
            case Repeated => s1.wrappers[fr.w].kind == ArrW(f.ctype)
            case MapOf(k) => s1.wrappers[fr.w].kind == MapW(k, f.ctype))
  {
  }

  // ---------- definitions ----------

  /** Looking up a class yields nil for a name the pool does not have, and otherwise the wrapper of that
      definition, held by the program. */
  lemma LookupFinds(s: State, p: LuaId, def: DefId, fr: Fresh)
    requires Inv(s) && Enabled(s, LookupMsg(p, def), fr)
    ensures var (s', r) := Exec(s, LookupMsg(p, def), fr);
      if def !in s.defs.schema then (s', r) == (s, Done(Nil))
      else r.Done? && r.v.ObjL? && IsClass(s', r.v.id) && s'.defs.wrappers[r.v.id] == DefWrapper(def, p)
  {
    if def in s.defs.schema { PushWrapperFrame(s.defs, p, def, fr.d); }
  }

  /** After a file is added its messages can be looked up, and the others are as they were. */
  lemma AddFileAdds(s: State, p: LuaId, added: map<DefId, MessageDef>, fr: Fresh, def: DefId)
    requires Enabled(s, AddFile(p, added), fr)
    ensures var s' := Exec(s, AddFile(p, added), fr).0;
      && (def in s'.defs.schema <==> def in added || def in s.defs.schema)
      && (def in added ==> s'.defs.schema[def] == added[def])
      && (def in s.defs.schema ==> s'.defs.schema[def] == s.defs.schema[def])
  {
  }

  // ---------- the collector ----------

  /** Object a holds a strong reference to object b. */
  ghost predicate Refers(s: State, a: LuaId, b: LuaId) {
    || (a in s.wrappers && (b == s.wrappers[a].arena || s.wrappers[a].msgdef == Some(b)))
    || (a in s.defs.wrappers && b == s.defs.wrappers[a].pool)
  }

  /** A chain of strong references leads from a to b. */
  ghost predicate Chain(s: State, a: LuaId, path: seq<LuaId>, b: LuaId)
    decreases |path|
  {
    if path == [] then a == b else Refers(s, a, path[0]) && Chain(s, path[0], path[1..], b)
  }

  ghost predicate Reached(s: State, b: LuaId) {
    exists a, path :: a in s.roots && Chain(s, a, path, b)
  }

  lemma {:induction false} ChainSurvives(s: State, dead: set<LuaId>, a: LuaId, path: seq<LuaId>, b: LuaId)
    requires Unreachable(s, dead) && a !in dead && Chain(s, a, path, b)
    ensures b !in dead
    decreases |path|
  {
    if path != [] { ChainSurvives(s, dead, path[0], path[1..], b); }
  }

  lemma {:induction false} ChainExtends(s: State, a: LuaId, path: seq<LuaId>, b: LuaId, c: LuaId)
    requires Chain(s, a, path, b) && Refers(s, b, c)
    ensures Chain(s, a, path + [c], c)
    decreases |path|
  {
    if path == [] {
      assert [c][1..] == [];
    } else {
      ChainExtends(s, path[0], path[1..], b, c);
      assert (path + [c])[1..] == path[1..] + [c];
    }
  }

  lemma ReachedExtends(s: State, b: LuaId, c: LuaId)
    requires Reached(s, b) && Refers(s, b, c)
    ensures Reached(s, c)
  {
    var a, path :| a in s.roots && Chain(s, a, path, b);
    ChainExtends(s, a, path, b, c);
  }

  /** Everything in the state and id that the program does not reach. */
  ghost function Garbage(s: State, id: LuaId): set<LuaId> {
    set b | b in s.wrappers.Keys + s.arenas.Keys + s.defs.wrappers.Keys + s.defs.pools.Keys + {id} && !Reached(s, b)
  }

  lemma GarbageIsUnreachable(s: State, id: LuaId)
    ensures Unreachable(s, Garbage(s, id))
  {
    var dead := Garbage(s, id);
    forall r | r in s.roots ensures r !in dead { assert Chain(s, r, [], r); }
    forall w | w in s.wrappers && w !in dead
      ensures s.wrappers[w].arena !in dead && (s.wrappers[w].msgdef.Some? ==> s.wrappers[w].msgdef.value !in dead)
    {
      ReachedExtends(s, w, s.wrappers[w].arena);
      if s.wrappers[w].msgdef.Some? { ReachedExtends(s, w, s.wrappers[w].msgdef.value); }
    }
    forall d | d in s.defs.wrappers && d !in dead ensures s.defs.wrappers[d].pool !in dead {
      ReachedExtends(s, d, s.defs.wrappers[d].pool);
    }
  }

  /** The collector may take an object exactly when no chain of strong references leads to it from what the
      program holds. */
  lemma CollectableExactly(s: State, id: LuaId)
    ensures (exists dead :: Unreachable(s, dead) && id in dead) <==> !Reached(s, id)
  {
    if dead :| Unreachable(s, dead) && id in dead {
      if Reached(s, id) {
        var a, path :| a in s.roots && Chain(s, a, path, id);
        ChainSurvives(s, dead, a, path, id);
      }
    }
    if !Reached(s, id) {
      GarbageIsUnreachable(s, id);
      assert id in Garbage(s, id);
    }
  }

  /** A collection takes the dead wrappers and their weak entries, sets the dead userdata with finalizers
      aside, and leaves the rest. */
  lemma CollectTakes(s: State, dead: set<LuaId>, id: LuaId, x: Addr, fr: Fresh)
    requires Enabled(s, Collect(dead), fr)
    ensures var s' := Exec(s, Collect(dead), fr).0;
      && (id in s'.wrappers <==> id in s.wrappers && id !in dead)
      && (id in s'.defs.wrappers <==> id in s.defs.wrappers && id !in dead)
      && (id in s'.wrappers ==> s'.wrappers[id] == s.wrappers[id])
      && (x in s'.cache <==> x in s.cache && s.cache[x] !in dead) && (x in s'.cache ==> s'.cache[x] == s.cache[x])
      && (id in s'.doomed <==> id in s.doomed || (id in dead && (id in s.arenas || id in s.defs.pools)))
      && s'.arenas == s.arenas && s'.defs.pools.Keys == s.defs.pools.Keys && s'.roots == s.roots && s'.mem == s.mem
  {
  }

  /** A finalizer removes its userdata, and no other. */
  lemma FinalizersRemove(s: State, l: LuaId, id: LuaId, fr: Fresh)
    ensures Enabled(s, ArenaGc(l), fr) ==>
      var s' := Exec(s, ArenaGc(l), fr).0;
      && (id in s'.arenas <==> id in s.arenas && id != l) && (id in s'.doomed <==> id in s.doomed && id != l)
      && s'.wrappers == s.wrappers && s'.cache == s.cache && s'.defs == s.defs && s'.roots == s.roots
    ensures Enabled(s, PoolGc(l), fr) ==>
      var s' := Exec(s, PoolGc(l), fr).0;
      && (id in s'.defs.pools <==> id in s.defs.pools && id != l) && (id in s'.doomed <==> id in s.doomed && id != l)
      && s' == s.(defs := s'.defs, doomed := s'.doomed) && s'.defs.wrappers == s.defs.wrappers
  {
  }

  // ---------- what a program can do ----------

  /** Whatever the program holds it can use: the operations of its kind are steps of the machine. */
  lemma HeldMessageSteps(s: State, id: LuaId, name: string, v: LuaVal, fr: Fresh)
    requires Inv(s) && FreshOk(s, fr) && id in s.roots && CanPass(s, v)
    requires id in s.wrappers && s.wrappers[id].kind == MsgW
    ensures Enabled(s, MsgIndex(id, name), fr) && Enabled(s, MsgNewindex(id, name, v), fr)
  {
    HeldIsUsable(s, id);
  }

  lemma HeldArraySteps(s: State, id: LuaId, key: LuaVal, v: LuaVal, fr: Fresh)
    requires Inv(s) && FreshOk(s, fr) && id in s.roots && CanPass(s, key) && CanPass(s, v)
    requires id in s.wrappers && s.wrappers[id].kind.ArrW?
    ensures Enabled(s, ArrayIndex(id, key), fr) && Enabled(s, ArrayNewindex(id, key, v), fr)
  {
    HeldIsUsable(s, id);
  }

  lemma HeldMapSteps(s: State, id: LuaId, key: LuaVal, v: LuaVal, fr: Fresh)
    requires Inv(s) && FreshOk(s, fr) && id in s.roots && CanPass(s, key) && CanPass(s, v)
    requires id in s.wrappers && s.wrappers[id].kind.MapW?
    ensures Enabled(s, MapIndex(id, key), fr) && Enabled(s, MapNewindex(id, key, v), fr)
  {
    HeldIsUsable(s, id);
  }

  lemma HeldClassSteps(s: State, d: LuaId, kt: CType, fr: Fresh)
    requires FreshOk(s, fr) && d in s.roots && d in s.defs.wrappers
    ensures Enabled(s, NewMessage(d), fr) && Enabled(s, NewArray(OfDef(d)), fr) && Enabled(s, NewMap(kt, OfDef(d)), fr)
    ensures Enabled(s, Drop(d), fr)
  {
  }
}
