/** The Lua object graph (lua/msg.c) as a transition system: wrappers, the weak wrapper cache,
    arena userdata and the upb objects below them, with every operation a program can perform and
    every step the garbage collector can take. */
module LuaGraph {
  import opened Options
  import opened NumberChecks
  import opened Binary32
  import opened Arenas
  import opened UpbMemory
  import opened LuaDefs

  datatype Kind = MsgW | ArrW(ctype: CType) | MapW(keyType: CType, valueType: CType)

  // The user-value slots of wrappers; those of a map made by upb.Map collide.
  const LUPB_ARENA_INDEX := 1
  const LUPB_MSGDEF_INDEX := 2
  const MAP_MSGDEF_INDEX := 1

  /** A wrapper userdata.  `arena` and `msgdef` are what its slots LUPB_ARENA_INDEX and
      LUPB_MSGDEF_INDEX hold. */
  datatype Wrapper = Wrapper(kind: Kind, target: Addr, arena: LuaId, msgdef: Option<LuaId>)

  type Slots = map<nat, LuaId>

  /** The wrapper whose slots have been filled as given. */
  function Userdata(kind: Kind, target: Addr, slots: Slots): Wrapper
    requires LUPB_ARENA_INDEX in slots
  {
    Wrapper(kind, target, slots[LUPB_ARENA_INDEX],
            if LUPB_MSGDEF_INDEX in slots then Some(slots[LUPB_MSGDEF_INDEX]) else None)
  }

  /** `doomed` holds arena and pool userdata found dead whose finalizers have not run yet; `roots`
      holds what the Lua program itself still references. */
  datatype State = State(
    mem: Memory,
    defs: Defs,
    wrappers: map<LuaId, Wrapper>,
    cache: map<Addr, LuaId>,
    arenas: map<LuaId, ArenaId>,
    doomed: set<LuaId>,
    roots: set<LuaId>)

  const START := State(EMPTY_MEMORY, NO_DEFS, map[], map[], map[], {}, {})

  datatype LuaVal = Nil | BoolL(bit: bool) | NumL(n: LuaNumber) | StrL(str: string) | ObjL(id: LuaId)

  datatype Outcome = Done(v: LuaVal) | Raise

  /** What an array or map constructor is given: a type number or a message class. */
  datatype ElemSpec = OfType(t: CType) | OfDef(d: LuaId)

  /** The identities the allocators hand out during one operation. */
  datatype Fresh = Fresh(w: LuaId, l: LuaId, d: LuaId, a: ArenaId, x: Addr)

  datatype Op =
    | DefPoolNew(pool: nat)
    | AddFile(p: LuaId, added: map<DefId, MessageDef>)
    | LookupMsg(p: LuaId, def: DefId)
    | NewMessage(d: LuaId)
    | Decode(d: LuaId, objs: map<Addr, UpbObj>, ok: bool)
    | NewArray(elem: ElemSpec)
    | NewMap(keyType: CType, elem: ElemSpec)
    | ArrayIndex(w: LuaId, key: LuaVal)
    | ArrayNewindex(w: LuaId, key: LuaVal, v: LuaVal)
    | MapIndex(w: LuaId, key: LuaVal)
    | MapNewindex(w: LuaId, key: LuaVal, v: LuaVal)
    | MsgIndex(w: LuaId, name: string)
    | MsgNewindex(w: LuaId, name: string, v: LuaVal)
    | Drop(id: LuaId)
    | Collect(dead: set<LuaId>)
    | ArenaGc(l: LuaId)
    | PoolGc(p: LuaId)

  // ---------- conversions ----------

  /** lupb_tomsgval for the types that are not messages. */
  function Convert(t: CType, v: LuaVal): (r: Option<Value>)
    requires t != MessageC
    ensures r.Some? ==> !r.value.Ref?
  {
    match t
    case BoolC => if v.BoolL? then Some(BoolV(v.bit)) else None
    case StringC => if v.StrL? then Some(StrV(v.str)) else None
    case BytesC => if v.StrL? then Some(StrV(v.str)) else None
    case DoubleC => if v.NumL? then Some(RealV(ToDouble(v.n))) else None
    case FloatC => if v.NumL? then Some(RealV(Narrow(ToDouble(v.n)))) else None
    case Int32C => ConvertInt(Int32T, v)
    case EnumC => ConvertInt(Int32T, v)
    case Int64C => ConvertInt(Int64T, v)
    case UInt32C => ConvertInt(UInt32T, v)
    case UInt64C => ConvertInt(UInt64T, v)
  }

  function ConvertInt(t: IntType, v: LuaVal): Option<Value> {
    if !v.NumL? then None
    else match CheckInt(t, v.n)
      case Some(i) => Some(IntV(i))
      case None => None
  }

  function ToDouble(n: LuaNumber): Double {
    match n
    case Integer(i) => Finite(Round(i) as real)
    case Float(d) => d
  }

  /** lupb_pushmsgval for the types that are not messages. */
  function ToLua(v: Value): LuaVal
    requires !v.Ref?
  {
    match v
    case BoolV(b) => BoolL(b)
    case IntV(i) => NumL(Push(i))
    case RealV(d) => NumL(Float(d))
    case StrV(s) => StrL(s)
  }

  /** lupb_tomsgval: a message must be a message wrapper whose definition slot is identical to the
      container's slot. */
  function ToMsgVal(s: State, t: CType, v: LuaVal, container: LuaId): Option<Value>
    requires container in s.wrappers
  {
    if t != MessageC then Convert(t, v)
    else if v.ObjL? && v.id in s.wrappers && s.wrappers[v.id].kind == MsgW &&
            s.wrappers[v.id].msgdef == s.wrappers[container].msgdef
    then Some(Ref(s.wrappers[v.id].target))
    else None
  }

  /** lupb_array_checkindex: a Lua index from 1 to max, made zero-based. */
  function CheckIndex(key: LuaVal, max: nat): Option<nat> {
    if !key.NumL? then None
    else match CheckInt(UInt32T, key.n)
      case Some(n) => if n != 0 && n <= max then Some(n - 1) else None
      case None => None
  }

  /** A Lua number that denotes i. */
  predicate Denotes(v: LuaVal, i: int) {
    v == NumL(Integer(i)) || v == NumL(Float(Finite(i as real)))
  }

  /** The index i is the element i - 1, from 1 to max; nothing else is an index. */
  lemma IndexExactly(key: LuaVal, i: int, max: nat)
    requires Denotes(key, i)
    ensures CheckIndex(key, max) == if 1 <= i <= max && i <= 0xFFFF_FFFF then Some((i - 1) as nat) else None
  {
    CheckIntExact(UInt32T, key.n, i);
  }

  lemma OnlyWholeIndices(key: LuaVal, max: nat)
    requires forall i :: !Denotes(key, i)
    ensures CheckIndex(key, max) == None
  {
    if key.NumL? && CheckInt(UInt32T, key.n).Some? {
      var i := CheckInt(UInt32T, key.n).value;
      CheckIntExact(UInt32T, key.n, i);
      assert Denotes(key, i);
    }
  }

  // ---------- building blocks ----------

  /** lupb_Arena_pushnew: a userdata owning a new arena. */
  function PushArena(s: State, l: LuaId, a: ArenaId): State {
    s.(mem := UpbMemory.NewArena(s.mem, a), arenas := s.arenas[l := a])
  }

  /** A new wrapper that the cache knows and the program holds. */
  function AddWrapper(s: State, w: LuaId, wr: Wrapper): State {
    s.(wrappers := s.wrappers[w := wr], cache := s.cache[wr.target := w], roots := s.roots + {w})
  }

  function Hold(s: State, id: LuaId): State {
    s.(roots := s.roots + {id})
  }

  /** lupb_Arena_Fuseobjs */
  function FuseObjs(s: State, to: LuaId, from: LuaId): State
    requires Placed(s, to) && Placed(s, from)
  {
    s.(mem := FuseArenas(s.mem, s.arenas[s.wrappers[to].arena], s.arenas[s.wrappers[from].arena]))
  }

  predicate Placed(s: State, w: LuaId) {
    w in s.wrappers && s.wrappers[w].arena in s.arenas && s.arenas[s.wrappers[w].arena] in s.mem.groups
  }

  function Write(s: State, x: Addr, o: UpbObj): State {
    s.(mem := Put(s.mem, x, o))
  }

  /** A new wrapper around a new object in a new arena: the arena goes into its slot last. */
  function NewObject(s: State, kind: Kind, o: UpbObj, slots: Slots, fr: Fresh): State {
    var s1 := PushArena(s, fr.l, fr.a);
    var s2 := s1.(mem := Alloc(s1.mem, fr.a, fr.x, o));
    AddWrapper(s2, fr.w, Userdata(kind, fr.x, slots[LUPB_ARENA_INDEX := fr.l]))
  }

  /** lupb_pushmsgval for a message of container c: the cached wrapper, or a new one that copies
      the container's slots (lupb_Message_Newmsgwrapper). */
  function PushMessage(s: State, c: LuaId, x: Addr, w: LuaId): (State, LuaVal)
    requires c in s.wrappers
  {
    if x in s.cache then (Hold(s, s.cache[x]), ObjL(s.cache[x]))
    else (AddWrapper(s, w, Wrapper(MsgW, x, s.wrappers[c].arena, s.wrappers[c].msgdef)), ObjL(w))
  }

  function PushValue(s: State, c: LuaId, v: Value, w: LuaId): (State, LuaVal)
    requires c in s.wrappers
  {
    if v.Ref? then PushMessage(s, c, v.target, w) else (s, ToLua(v))
  }

  // ---------- operations of the binding ----------

  predicate IsArray(s: State, w: LuaId) {
    Placed(s, w) && w in s.roots && s.wrappers[w].kind.ArrW? && s.wrappers[w].target in s.mem.heap &&
    s.mem.heap[s.wrappers[w].target].Arr?
  }

  predicate IsMap(s: State, w: LuaId) {
    Placed(s, w) && w in s.roots && s.wrappers[w].kind.MapW? && s.wrappers[w].target in s.mem.heap &&
    s.mem.heap[s.wrappers[w].target].Map?
  }

  /** A message wrapper whose definition is known to the pool it comes from. */
  predicate IsMsg(s: State, w: LuaId) {
    Placed(s, w) && w in s.roots && s.wrappers[w].kind == MsgW && s.wrappers[w].target in s.mem.heap &&
    s.mem.heap[s.wrappers[w].target].Msg? && s.wrappers[w].msgdef.Some? &&
    var d := s.wrappers[w].msgdef.value;
    d in s.defs.wrappers && s.defs.wrappers[d].def in s.defs.schema && s.defs.wrappers[d].pool in s.defs.pools
  }

  /** The message definition a message wrapper's slot names. */
  function DefOf(s: State, w: LuaId): DefId
    requires IsMsg(s, w)
  {
    s.defs.wrappers[s.wrappers[w].msgdef.value].def
  }

  /** f is the field `name` of the message wrapped by w. */
  predicate IsField(s: State, w: LuaId, name: string, f: FieldDef) {
    IsMsg(s, w) && name in s.defs.schema[DefOf(s, w)] && s.defs.schema[DefOf(s, w)][name] == f
  }

  /** The fields that msg[name] exposes as wrapper objects. */
  predicate IsWrapped(f: FieldDef) {
    f.shape != Single || f.ctype == MessageC
  }

  /** A value the program can pass: any object in it is held by the program. */
  predicate CanPass(s: State, v: LuaVal) {
    && (v.NumL? ==> IsLuaNumber(v.n))
    && (v.ObjL? ==> v.id in s.roots && (v.id in s.wrappers ==> Placed(s, v.id)))
  }

  /** lupb_array_index */
  function ArrayIndexResult(s: State, w: LuaId, key: LuaVal, fr: Fresh): (State, Outcome)
    requires IsArray(s, w)
  {
    var items := s.mem.heap[s.wrappers[w].target].items;
    match CheckIndex(key, |items|)
    case None => (s, Raise)
    case Some(n) => var (s', v) := PushValue(s, w, items[n], fr.w); (s', Done(v))
  }

  /** upb_Array_Append one past the end, upb_Array_Set within the array. */
  function WithItem(arr: UpbObj, n: nat, val: Value): UpbObj
    requires arr.Arr? && n <= |arr.items|
  {
    arr.(items := if n == |arr.items| then arr.items + [val] else arr.items[n := val])
  }

  /** lupb_Array_Newindex: the element is linked first, the arenas are fused afterwards. */
  function ArrayNewindexResult(s: State, w: LuaId, key: LuaVal, v: LuaVal): (State, Outcome)
    requires IsArray(s, w) && CanPass(s, v)
  {
    var x := s.wrappers[w].target;
    var arr := s.mem.heap[x];
    match CheckIndex(key, |arr.items| + 1)
    case None => (s, Raise)
    case Some(n) =>
      match ToMsgVal(s, s.wrappers[w].kind.ctype, v, w)
      case None => (s, Raise)
      case Some(val) =>
        var s1 := Write(s, x, WithItem(arr, n, val));
        (if s.wrappers[w].kind.ctype == MessageC then FuseObjs(s1, w, v.id) else s1, Done(Nil))
  }

  /** lupb_map_index */
  function MapIndexResult(s: State, w: LuaId, key: LuaVal, fr: Fresh): (State, Outcome)
    requires IsMap(s, w)
  {
    var entries := s.mem.heap[s.wrappers[w].target].entries;
    match ToMsgVal(s, s.wrappers[w].kind.keyType, key, w)
    case None => (s, Raise)
    case Some(k) =>
      if k in entries then var (s', v) := PushValue(s, w, entries[k], fr.w); (s', Done(v))
      else (s, Done(Nil))
  }

  /** lupb_Map_Newindex: nil deletes; otherwise the value is linked first and fused afterwards. */
  function MapNewindexResult(s: State, w: LuaId, key: LuaVal, v: LuaVal): (State, Outcome)
    requires IsMap(s, w) && CanPass(s, v)
  {
    var x := s.wrappers[w].target;
    var m := s.mem.heap[x];
    match ToMsgVal(s, s.wrappers[w].kind.keyType, key, w)
    case None => (s, Raise)
    case Some(k) =>
      if v == Nil then (Write(s, x, m.(entries := m.entries - {k})), Done(Nil))
      else match ToMsgVal(s, s.wrappers[w].kind.valueType, v, w)
        case None => (s, Raise)
        case Some(val) =>
          var s1 := Write(s, x, m.(entries := m.entries[k := val]));
          (if s.wrappers[w].kind.valueType == MessageC then FuseObjs(s1, w, v.id) else s1, Done(Nil))
  }

  /** upb_Message_SetFieldByDef: a field in a oneof unsets the other fields of that oneof. */
  function WithField(o: UpbObj, def: MessageDef, name: string, val: Value): UpbObj
    requires o.Msg?
  {
    var others := map n | n in o.fields && !Siblings(def, n, name) :: o.fields[n];
    o.(fields := others[name := val])
  }

  /** upb_Message_Mutable for a repeated or map field that is not set yet. */
  function EmptyContainer(f: FieldDef): UpbObj
    requires f.shape != Single
  {
    match f.shape
    case Repeated => Arr(f.ctype, f.sub, [])
    case MapOf(k) => Map(k, f.ctype, f.sub, map[])
  }

  function KindOf(f: FieldDef): Kind {
    match f.shape
    case Single => MsgW
    case Repeated => ArrW(f.ctype)
    case MapOf(k) => MapW(k, f.ctype)
  }

  /** lupb_Message_Newwrapper: a wrapper for field f of wrapper w; a definition slot is filled only
      when the field's values are messages. */
  function WrapField(s: State, w: LuaId, f: FieldDef, x: Addr, fr: Fresh): State
    requires IsMsg(s, w)
  {
    if f.ctype == MessageC && f.sub.Some? then
      var (defs', d) := PushSub(s.defs, s.wrappers[w].msgdef.value, f.sub.value, fr.d);
      AddWrapper(s.(defs := defs'), fr.w, Wrapper(KindOf(f), x, s.wrappers[w].arena, Some(d)))
    else
      AddWrapper(s, fr.w, Wrapper(KindOf(f), x, s.wrappers[w].arena, None))
  }

  /** The pointer a wrapped field holds, allocating an empty container for an unset one. */
  function Mutable(s: State, w: LuaId, name: string, f: FieldDef, fr: Fresh): (State, Option<Addr>)
    requires IsMsg(s, w)
  {
    var x := s.wrappers[w].target;
    var o := s.mem.heap[x];
    if name in o.fields && o.fields[name].Ref? then (s, Some(o.fields[name].target))
    else if f.shape == Single then (s, None)
    else
      var s1 := s.(mem := Alloc(s.mem, s.arenas[s.wrappers[w].arena], fr.x, EmptyContainer(f)));
      (Write(s1, x, WithField(o, s.defs.schema[DefOf(s, w)], name, Ref(fr.x))), Some(fr.x))
  }

  /** lupb_msg_index */
  function MsgIndexResult(s: State, w: LuaId, name: string, fr: Fresh): (State, Outcome)
    requires IsMsg(s, w)
  {
    var def := s.defs.schema[DefOf(s, w)];
    var o := s.mem.heap[s.wrappers[w].target];
    if name !in def then (s, Raise)
    else
      var f := def[name];
      if IsWrapped(f) then
        var (s1, p) := Mutable(s, w, name, f, fr);
        match p
        case None => (s1, Done(Nil))
        case Some(x) =>
          if x in s1.cache then (Hold(s1, s1.cache[x]), Done(ObjL(s1.cache[x])))
          else (WrapField(s1, w, f, x, fr), Done(ObjL(fr.w)))
      else if name in o.fields && !o.fields[name].Ref? then (s, Done(ToLua(o.fields[name])))
      else if !f.default.Ref? then (s, Done(ToLua(f.default)))
      else (s, Raise)
  }

  /** The checks of lupb_Message_Newindex before the definition comparison. */
  predicate KindFits(f: FieldDef, k: Kind) {
    k == KindOf(f)
  }

  /** lupb_Message_Newindex for an object value: kind and element types, then the definition
      (lupb_msg_typechecksubmsg, which may create the wrapper it compares with), then fuse, then
      link. */
  function AssignObject(s: State, w: LuaId, name: string, f: FieldDef, v: LuaVal, fr: Fresh): (State, Outcome)
    requires IsMsg(s, w) && CanPass(s, v)
  {
    var x := s.wrappers[w].target;
    if !v.ObjL? || v.id !in s.wrappers || !KindFits(f, s.wrappers[v.id].kind) then (s, Raise)
    else
      var (defs', slot) :=
        if f.ctype == MessageC && f.sub.Some? then
          var (ds, d) := PushSub(s.defs, s.wrappers[w].msgdef.value, f.sub.value, fr.d); (ds, Some(d))
        else (s.defs, s.wrappers[v.id].msgdef);
      var s1 := s.(defs := defs');
      if s.wrappers[v.id].msgdef != slot then (s1, Raise)
      else
        var s2 := FuseObjs(s1, w, v.id);
        var o := s2.mem.heap[x];
        (Write(s2, x, WithField(o, s.defs.schema[DefOf(s, w)], name, Ref(s.wrappers[v.id].target))), Done(v))
  }

  /** lupb_Message_Newindex */
  function MsgNewindexResult(s: State, w: LuaId, name: string, v: LuaVal, fr: Fresh): (State, Outcome)
    requires IsMsg(s, w) && CanPass(s, v)
  {
    var def := s.defs.schema[DefOf(s, w)];
    var x := s.wrappers[w].target;
    var o := s.mem.heap[x];
    if name !in def then (s, Raise)
    else
      var f := def[name];
      if IsWrapped(f) then AssignObject(s, w, name, f, v, fr)
      else match Convert(f.ctype, v)
        case None => (s, Raise)
        case Some(val) => (Write(s, x, WithField(o, def, name, val)), Done(v))
  }

  /** A message class the program holds. */
  predicate IsClass(s: State, d: LuaId) {
    d in s.roots && d in s.defs.wrappers
  }

  /** lupb_Array_New: a message class fills the definition slot, a type number leaves it empty. */
  function NewArrayResult(s: State, elem: ElemSpec, fr: Fresh): (State, Outcome)
    requires elem.OfDef? ==> IsClass(s, elem.d)
  {
    match elem
    case OfType(t) => (NewObject(s, ArrW(t), Arr(t, None, []), map[], fr), Done(ObjL(fr.w)))
    case OfDef(d) =>
      var arr := Arr(MessageC, Some(s.defs.wrappers[d].def), []);
      (NewObject(s, ArrW(MessageC), arr, map[LUPB_MSGDEF_INDEX := d], fr), Done(ObjL(fr.w)))
  }

  /** A store into an array leaves what the program can pass, and the array itself, usable. */
  lemma ArrayStoreKeeps(s: State, w: LuaId, key: LuaVal, v: LuaVal, u: LuaVal)
    requires IsArray(s, w) && CanPass(s, v) && CanPass(s, u)
    ensures var s1 := ArrayNewindexResult(s, w, key, v).0; IsArray(s1, w) && CanPass(s1, u)
  {
  }

  /** A key and a value of an initial table. */
  datatype Entry = Entry(key: LuaVal, val: LuaVal)

  predicate CanPassAll(s: State, entries: seq<Entry>) {
    forall e | e in entries :: CanPass(s, e.key) && CanPass(s, e.val)
  }

  lemma ArrayStoreKeepsAll(s: State, w: LuaId, entries: seq<Entry>)
    requires IsArray(s, w) && CanPassAll(s, entries) && entries != []
    ensures var s1 := ArrayNewindexResult(s, w, entries[0].key, entries[0].val).0;
      IsArray(s1, w) && CanPassAll(s1, entries[1..])
  {
    var e := entries[0];
    assert e in entries;
    ArrayStoreKeeps(s, w, e.key, e.val, Nil);
    forall f | f in entries[1..]
      ensures var s1 := ArrayNewindexResult(s, w, e.key, e.val).0; CanPass(s1, f.key) && CanPass(s1, f.val)
    {
      ArrayStoreKeeps(s, w, e.key, e.val, f.key);
      ArrayStoreKeeps(s, w, e.key, e.val, f.val);
    }
  }

  /** The stores of an initial table, in the order in which lua_next yields its entries.  After one
      that fails the program does not hold the array. */
  function StoreEntries(s: State, w: LuaId, entries: seq<Entry>): (State, Outcome)
    requires IsArray(s, w) && CanPassAll(s, entries)
    decreases |entries|
  {
    if entries == [] then (s, Done(ObjL(w)))
    else
      assert entries[0] in entries;
      var (s1, r) := ArrayNewindexResult(s, w, entries[0].key, entries[0].val);
      if r == Raise then (s1.(roots := s1.roots - {w}), Raise)
      else
        ArrayStoreKeepsAll(s, w, entries);
        StoreEntries(s1, w, entries[1..])
  }

  lemma NewArrayUsable(s: State, elem: ElemSpec, fr: Fresh, entries: seq<Entry>)
    requires (elem.OfDef? ==> IsClass(s, elem.d)) && Unused(s, fr) && CanPassAll(s, entries)
    ensures var s1 := NewArrayResult(s, elem, fr).0; IsArray(s1, fr.w) && CanPassAll(s1, entries)
  {
  }

  predicate Unused(s: State, fr: Fresh) {
    fr.w !in s.wrappers && fr.l !in s.arenas && fr.a !in s.mem.groups
  }

  /** lupb_Array_New with a table of initial values */
  function NewArrayFromResult(s: State, elem: ElemSpec, entries: seq<Entry>, fr: Fresh): (State, Outcome)
    requires (elem.OfDef? ==> IsClass(s, elem.d)) && Unused(s, fr) && CanPassAll(s, entries)
  {
    NewArrayUsable(s, elem, fr, entries);
    StoreEntries(NewArrayResult(s, elem, fr).0, fr.w, entries)
  }

  /** lupb_Map_New: a message class goes into the slot MAP_MSGDEF_INDEX. */
  function NewMapResult(s: State, keyType: CType, elem: ElemSpec, fr: Fresh): (State, Outcome) {
    var t := if elem.OfType? then elem.t else MessageC;
    var slots := if elem.OfDef? then map[MAP_MSGDEF_INDEX := elem.d] else map[];
    (NewObject(s, MapW(keyType, t), Map(keyType, t, None, map[]), slots, fr), Done(ObjL(fr.w)))
  }

  /** lupb_msg_pushnew */
  function NewMessageResult(s: State, d: LuaId, fr: Fresh): (State, Outcome)
    requires IsClass(s, d)
  {
    var msg := Msg(s.defs.wrappers[d].def, map[]);
    (NewObject(s, MsgW, msg, map[LUPB_MSGDEF_INDEX := d], fr), Done(ObjL(fr.w)))
  }

  /** lupb_decode and lupb_jsondecode: a new message, filled by the parser with objects from its
      own arena.  After a failure nothing holds the wrapper. */
  function DecodeResult(s: State, d: LuaId, objs: map<Addr, UpbObj>, ok: bool, fr: Fresh): (State, Outcome)
    requires IsClass(s, d)
  {
    var s1 := PushArena(s, fr.l, fr.a);
    var s2 := s1.(mem := AllocAll(s1.mem, fr.a, objs));
    var s3 := AddWrapper(s2, fr.w, Wrapper(MsgW, fr.x, fr.l, Some(d)));
    if ok then (s3, Done(ObjL(fr.w))) else (s3.(roots := s.roots), Raise)
  }

  // ---------- garbage collection ----------

  /** What Lua may find dead: nothing held by the program and nothing a survivor references. */
  ghost predicate Unreachable(s: State, dead: set<LuaId>) {
    && dead !! s.roots
    && (forall w | w in s.wrappers && w !in dead ::
          s.wrappers[w].arena !in dead && (s.wrappers[w].msgdef.Some? ==> s.wrappers[w].msgdef.value !in dead))
    && (forall d | d in s.defs.wrappers && d !in dead :: s.defs.wrappers[d].pool !in dead)
  }

  /** The atomic phase of a collection: dead wrappers go, weak entries to them are cleared, and
      dead userdata with finalizers are set aside.  Section 2.5.4 of the Lua 5.4 Reference Manual
      has weak values cleared before finalizers run. */
  function CollectResult(s: State, dead: set<LuaId>): State {
    s.(wrappers := s.wrappers - dead,
       cache := LiveEntries(s.cache, dead),
       defs := CollectDefs(s.defs, dead),
       doomed := s.doomed + dead * (s.arenas.Keys + s.defs.pools.Keys))
  }

  /** lupb_Arena_gc */
  function ArenaGcResult(s: State, l: LuaId): State
    requires l in s.arenas && s.arenas[l] in s.mem.unfreed && Housed(s.mem)
  {
    s.(mem := FreeArena(s.mem, s.arenas[l]), arenas := s.arenas - {l}, doomed := s.doomed - {l})
  }

  // ---------- steps and runs ----------

  ghost predicate IdFree(s: State, id: LuaId) {
    id !in s.wrappers && id !in s.arenas && id !in s.defs.wrappers && id !in s.defs.pools && id !in s.roots
      && id !in s.doomed
  }

  /** What the allocators promise: identities not in use, and an address that may well have been
      used before but is not allocated now. */
  ghost predicate FreshOk(s: State, fr: Fresh) {
    FreshIds(s, fr) && fr.a !in s.mem.groups && fr.x !in s.mem.heap
  }

  ghost predicate FreshIds(s: State, fr: Fresh) {
    IdFree(s, fr.w) && IdFree(s, fr.l) && IdFree(s, fr.d) && fr.w != fr.l && fr.l != fr.d && fr.d != fr.w
  }

  /** The objects a parser builds: a message of the class at the root, links only among the new
      objects, everything typed by the schema. */
  ghost predicate ParsedOk(s: State, def: DefId, objs: map<Addr, UpbObj>, root: Addr) {
    && objs.Keys !! s.mem.heap.Keys
    && root in objs && objs[root].Msg? && objs[root].def == def
    && (forall x, y | x in objs && objs[x].Holds(Ref(y)) :: y in objs)
    && (forall x | x in objs :: ObjTyped(objs, s.defs.schema, objs[x]))
  }

  ghost predicate Enabled(s: State, op: Op, fr: Fresh) {
    && FreshOk(s, fr)
    && match op
       case DefPoolNew(pool) => pool !in s.defs.usedPools
       case AddFile(p, added) => p in s.roots && p in s.defs.pools && FileOk(s.defs, s.defs.pools[p].pool, added)
       case LookupMsg(p, def) => p in s.roots && p in s.defs.pools && def.pool == s.defs.pools[p].pool
       case NewMessage(d) => IsClass(s, d)
       case Decode(d, objs, ok) => IsClass(s, d) && ParsedOk(s, s.defs.wrappers[d].def, objs, fr.x)
       case NewArray(elem) => elem.OfDef? ==> IsClass(s, elem.d)
       case NewMap(_, elem) => elem.OfDef? ==> IsClass(s, elem.d)
       case ArrayIndex(w, key) => IsArray(s, w) && CanPass(s, key)
       case ArrayNewindex(w, key, v) => IsArray(s, w) && CanPass(s, key) && CanPass(s, v)
       case MapIndex(w, key) => IsMap(s, w) && CanPass(s, key)
       case MapNewindex(w, key, v) => IsMap(s, w) && CanPass(s, key) && CanPass(s, v)
       case MsgIndex(w, _) => IsMsg(s, w)
       case MsgNewindex(w, _, v) => IsMsg(s, w) && CanPass(s, v)
       case Drop(id) => true
       case Collect(dead) => Unreachable(s, dead)
       case ArenaGc(l) => l in s.doomed && l in s.arenas && s.arenas[l] in s.mem.unfreed && Housed(s.mem)
       case PoolGc(p) => p in s.doomed && p in s.defs.pools
  }

  ghost function Exec(s: State, op: Op, fr: Fresh): (State, Outcome)
    requires Enabled(s, op, fr)
  {
    match op
    case DefPoolNew(pool) => (Hold(s.(defs := LuaDefs.NewPool(s.defs, fr.d, pool)), fr.d), Done(ObjL(fr.d)))
    case AddFile(p, added) => (s.(defs := AddDefs(s.defs, added)), Done(Nil))
    case LookupMsg(p, def) =>
      if def !in s.defs.schema then (s, Done(Nil))
      else
        var (defs', d) := PushWrapper(s.defs, p, def, fr.d);
        (Hold(s.(defs := defs'), d), Done(ObjL(d)))
    case NewMessage(d) => NewMessageResult(s, d, fr)
    case Decode(d, objs, ok) => DecodeResult(s, d, objs, ok, fr)
    case NewArray(elem) => NewArrayResult(s, elem, fr)
    case NewMap(k, elem) => NewMapResult(s, k, elem, fr)
    case ArrayIndex(w, key) => ArrayIndexResult(s, w, key, fr)
    case ArrayNewindex(w, key, v) => ArrayNewindexResult(s, w, key, v)
    case MapIndex(w, key) => MapIndexResult(s, w, key, fr)
    case MapNewindex(w, key, v) => MapNewindexResult(s, w, key, v)
    case MsgIndex(w, name) => MsgIndexResult(s, w, name, fr)
    case MsgNewindex(w, name, v) => MsgNewindexResult(s, w, name, v, fr)
    case Drop(id) => (s.(roots := s.roots - {id}), Done(Nil))
    case Collect(dead) => (CollectResult(s, dead), Done(Nil))
    case ArenaGc(l) => (ArenaGcResult(s, l), Done(Nil))
    case PoolGc(p) => (s.(defs := FreePool(s.defs, p), doomed := s.doomed - {p}), Done(Nil))
  }

  // ---------- typing ----------

  ghost predicate ElemTyped(heap: map<Addr, UpbObj>, t: CType, elem: Option<DefId>, v: Value) {
    if t == MessageC then
      elem.Some? && v.Ref? && v.target in heap && heap[v.target].Msg? && heap[v.target].def == elem.value
    else !v.Ref?
  }

  ghost predicate FieldTyped(heap: map<Addr, UpbObj>, f: FieldDef, v: Value) {
    match f.shape
    case Single => ElemTyped(heap, f.ctype, f.sub, v)
    case _ => v.Ref? && v.target in heap && heap[v.target].SameType(EmptyContainer(f))
  }

  /** An object holds only what its definition or its element type allows, and a message at most one
      field of a oneof. */
  ghost predicate ObjTyped(heap: map<Addr, UpbObj>, schema: map<DefId, MessageDef>, o: UpbObj) {
    match o
    case Msg(def, fields) =>
      && def in schema
      && (forall n | n in fields :: n in schema[def] && FieldTyped(heap, schema[def][n], fields[n]))
      && (forall m, n | m in fields && n in fields :: !Siblings(schema[def], m, n))
    case Arr(t, elem, items) =>
      && (elem.Some? ==> t == MessageC)
      && forall v | v in items :: ElemTyped(heap, t, elem, v)
    case Map(k, t, elem, entries) =>
      && (elem.Some? ==> t == MessageC && k != MessageC)
      && forall v | v in entries.Values :: ElemTyped(heap, t, elem, v)
  }
}
