/** The Lua binding as the source writes it (lua/msg.c and lua/def.c): operations that update the
    wrapper tables, the weak cache, arena groups and upb objects in place.  Each method is proved
    against the transition system of module LuaGraph. */
module LuaRuntime {
  import opened Options
  import opened Arenas
  import opened UpbMemory
  import opened LuaDefs
  import opened LuaGraph
  import opened LuaSafety

  class Binding {
    // upb memory
    var heap: map<Addr, UpbObj>
    var home: map<Addr, ArenaId>
    var groups: Groups
    var unfreed: set<ArenaId>
    // definitions
    var schema: map<DefId, MessageDef>
    var usedPools: set<nat>
    var pools: map<LuaId, PoolObj>
    var defWrappers: map<LuaId, DefWrapper>
    // Lua objects
    var wrappers: map<LuaId, Wrapper>
    var cache: map<Addr, LuaId>
    var arenas: map<LuaId, ArenaId>
    var doomed: set<LuaId>
    var roots: set<LuaId>

    ghost function View(): State
      reads this
    {
      State(Memory(heap, home, groups, unfreed), Defs(schema, usedPools, pools, defWrappers),
            wrappers, cache, arenas, doomed, roots)
    }

    constructor ()
      ensures View() == START
    {
      heap, home, groups, unfreed := map[], map[], map[], {};
      schema, usedPools, pools, defWrappers := map[], {}, map[], map[];
      wrappers, cache, arenas, doomed, roots := map[], map[], map[], {}, {};
    }

    // ---------- def.c ----------

    /** lupb_DefPool_pushwrapper */
    method PushDefWrapper(p: LuaId, def: DefId, newId: LuaId) returns (d: LuaId)
      requires p in pools
      modifies this`pools, this`defWrappers
      ensures View() == old(View()).(defs := PushWrapper(old(View()).defs, p, def, newId).0)
      ensures d == PushWrapper(old(View()).defs, p, def, newId).1
    {
      var poolCache := pools[p].cache;
      if def in poolCache {
        d := poolCache[def];
      } else {
        defWrappers := defWrappers[newId := DefWrapper(def, p)];
        pools := pools[p := pools[p].(cache := poolCache[def := newId])];
        d := newId;
      }
    }

    /** lupb_MessageDef_pushsubmsgdef */
    method PushSubMsgDef(parent: LuaId, sub: DefId, newId: LuaId) returns (d: LuaId)
      requires parent in defWrappers && defWrappers[parent].pool in pools
      modifies this`pools, this`defWrappers
      ensures View() == old(View()).(defs := PushSub(old(View()).defs, parent, sub, newId).0)
      ensures d == PushSub(old(View()).defs, parent, sub, newId).1
    {
      d := PushDefWrapper(defWrappers[parent].pool, sub, newId);
    }

    // ---------- cache and arenas ----------

    /** lupb_cacheget for a pointer that is not null */
    method CacheGet(x: Addr) returns (hit: Option<LuaId>)
      ensures hit == (if x in cache then Some(cache[x]) else None)
    {
      if x in cache {
        return Some(cache[x]);
      }
      return None;
    }

    /** lupb_newuserdata for a wrapper, its slots, and lupb_cacheset */
    method NewWrapper(w: LuaId, wr: Wrapper)
      modifies this`wrappers, this`cache, this`roots
      ensures View() == AddWrapper(old(View()), w, wr)
    {
      wrappers := wrappers[w := wr];
      cache := cache[wr.target := w];
      roots := roots + {w};
    }

    /** lupb_Arena_pushnew */
    method ArenaPushnew(l: LuaId, a: ArenaId)
      modifies this`groups, this`unfreed, this`arenas
      ensures View() == PushArena(old(View()), l, a)
    {
      groups := groups[a := a];
      unfreed := unfreed + {a};
      arenas := arenas[l := a];
    }

    /** lupb_Arena_Fuseobjs */
    method ArenaFuseobjs(to: LuaId, from: LuaId)
      requires Placed(View(), to) && Placed(View(), from)
      modifies this`groups
      ensures View() == FuseObjs(old(View()), to, from)
    {
      var toArena := arenas[wrappers[to].arena];
      var fromArena := arenas[wrappers[from].arena];
      groups := Fuse(groups, toArena, fromArena);
    }

    /** upb_Arena_Free: the group's memory is released with its last unfreed arena. */
    method ArenaFree(a: ArenaId)
      requires a in unfreed && Housed(View().mem)
      modifies this`heap, this`home, this`groups, this`unfreed
      ensures View().mem == FreeArena(old(View()).mem, a)
    {
      var g := groups[a];
      unfreed := unfreed - {a};
      if !GroupAlive(Memory(heap, home, groups, unfreed), g) {
        heap := map x | x in heap && groups[home[x]] != g :: heap[x];
        home := map x | x in home && groups[home[x]] != g :: home[x];
        groups := map b | b in groups && groups[b] != g :: groups[b];
      }
    }

    /** lupb_Arena_gc */
    method ArenaGcRun(l: LuaId)
      requires l in arenas && arenas[l] in unfreed && Housed(View().mem)
      modifies this
      ensures View() == ArenaGcResult(old(View()), l)
    {
      ArenaFree(arenas[l]);
      arenas := arenas - {l};
      doomed := doomed - {l};
    }

    // ---------- conversions ----------

    /** lupb_tomsgval */
    method CheckValue(t: CType, v: LuaVal, container: LuaId) returns (val: Option<Value>)
      requires container in wrappers
      ensures val == ToMsgVal(View(), t, v, container)
    {
      if t != MessageC {
        return Convert(t, v);
      }
      if !v.ObjL? || v.id !in wrappers || wrappers[v.id].kind != MsgW {
        return None;
      }
      var containerSlot := wrappers[container].msgdef;
      var valueSlot := wrappers[v.id].msgdef;
      if containerSlot != valueSlot {
        return None;
      }
      return Some(Ref(wrappers[v.id].target));
    }

    /** lupb_pushmsgval */
    method PushMsgVal(container: LuaId, val: Value, newId: LuaId) returns (v: LuaVal)
      requires container in wrappers
      modifies this`wrappers, this`cache, this`roots
      ensures (View(), v) == PushValue(old(View()), container, val, newId)
    {
      if !val.Ref? {
        return ToLua(val);
      }
      var hit := CacheGet(val.target);
      match hit
      case Some(id) =>
        roots := roots + {id};
        v := ObjL(id);
      case None =>
        NewWrapper(newId, Wrapper(MsgW, val.target, wrappers[container].arena, wrappers[container].msgdef));
        v := ObjL(newId);
    }

    // ---------- arrays ----------

    /** lupb_Array_New */
    method ArrayNew(elem: ElemSpec, fr: Fresh) returns (r: Outcome)
      requires elem.OfDef? ==> IsClass(View(), elem.d)
      modifies this
      ensures (View(), r) == NewArrayResult(old(View()), elem, fr)
    {
      var t, slots: Slots, recorded := MessageC, map[], None;
      match elem {
        case OfType(n) => t := n;
        case OfDef(d) => slots, recorded := slots[LUPB_MSGDEF_INDEX := d], Some(defWrappers[d].def);
      }
      ArenaPushnew(fr.l, fr.a);
      heap := heap[fr.x := Arr(t, recorded, [])];
      home := home[fr.x := fr.a];
      slots := slots[LUPB_ARENA_INDEX := fr.l];
      NewWrapper(fr.w, Userdata(ArrW(t), fr.x, slots));
      r := Done(ObjL(fr.w));
    }

    /** lupb_array_index */
    method ArrayGet(w: LuaId, key: LuaVal, fr: Fresh) returns (r: Outcome)
      requires IsArray(View(), w)
      modifies this`wrappers, this`cache, this`roots
      ensures (View(), r) == ArrayIndexResult(old(View()), w, key, fr)
    {
      var items := heap[wrappers[w].target].items;
      var n := CheckIndex(key, |items|);
      if n.None? {
        return Raise;
      }
      var v := PushMsgVal(w, items[n.value], fr.w);
      r := Done(v);
    }

    /** lupb_Array_Newindex: append or set, and only then fuse. */
    method ArraySet(w: LuaId, key: LuaVal, v: LuaVal) returns (r: Outcome)
      requires IsArray(View(), w) && CanPass(View(), v)
      modifies this`heap, this`groups
      ensures (View(), r) == ArrayNewindexResult(old(View()), w, key, v)
    {
      var x, t := wrappers[w].target, wrappers[w].kind.ctype;
      var arr := heap[x];
      var size := |arr.items|;
      var n := CheckIndex(key, size + 1);
      if n.None? {
        return Raise;
      }
      var val := CheckValue(t, v, w);
      if val.None? {
        return Raise;
      }
      if n.value == size {
        heap := heap[x := arr.(items := arr.items + [val.value])];
      } else {
        heap := heap[x := arr.(items := arr.items[n.value := val.value])];
      }
      if t == MessageC {
        ArenaFuseobjs(w, v.id);
      }
      r := Done(Nil);
    }

    /** lupb_Array_New with a table of initial values: each entry goes through the store above. */
    method ArrayNewFrom(elem: ElemSpec, entries: seq<Entry>, fr: Fresh) returns (r: Outcome)
      requires (elem.OfDef? ==> IsClass(View(), elem.d)) && Unused(View(), fr) && CanPassAll(View(), entries)
      modifies this
      ensures (View(), r) == NewArrayFromResult(old(View()), elem, entries, fr)
    {
      NewArrayUsable(View(), elem, fr, entries);
      r := ArrayNew(elem, fr);
      var i := 0;
      while i < |entries|
        invariant 0 <= i <= |entries|
        invariant IsArray(View(), fr.w) && CanPassAll(View(), entries[i..])
        invariant StoreEntries(View(), fr.w, entries[i..]) == NewArrayFromResult(old(View()), elem, entries, fr)
      {
        ghost var rest := entries[i..];
        assert rest[0] == entries[i] && rest[0] in rest && rest[1..] == entries[i + 1..];
        ArrayStoreKeepsAll(View(), fr.w, rest);
        var stored := ArraySet(fr.w, entries[i].key, entries[i].val);
        if stored == Raise {
          roots := roots - {fr.w};
          return Raise;
        }
        i := i + 1;
      }
      r := Done(ObjL(fr.w));
    }

    // ---------- maps ----------

    /** lupb_Map_New */
    method MapNew(keyType: CType, elem: ElemSpec, fr: Fresh) returns (r: Outcome)
      requires elem.OfDef? ==> IsClass(View(), elem.d)
      modifies this
      ensures (View(), r) == NewMapResult(old(View()), keyType, elem, fr)
    {
      var t, slots: Slots := MessageC, map[];
      match elem {
        case OfType(n) => t := n;
        case OfDef(d) => slots := slots[MAP_MSGDEF_INDEX := d];
      }
      ArenaPushnew(fr.l, fr.a);
      slots := slots[LUPB_ARENA_INDEX := fr.l];
      heap := heap[fr.x := Map(keyType, t, None, map[])];
      home := home[fr.x := fr.a];
      NewWrapper(fr.w, Userdata(MapW(keyType, t), fr.x, slots));
      r := Done(ObjL(fr.w));
    }

    /** lupb_map_index */
    method MapGet(w: LuaId, key: LuaVal, fr: Fresh) returns (r: Outcome)
      requires IsMap(View(), w)
      modifies this`wrappers, this`cache, this`roots
      ensures (View(), r) == MapIndexResult(old(View()), w, key, fr)
    {
      var m := heap[wrappers[w].target];
      var k := CheckValue(wrappers[w].kind.keyType, key, w);
      if k.None? {
        return Raise;
      }
      if k.value !in m.entries {
        return Done(Nil);
      }
      var v := PushMsgVal(w, m.entries[k.value], fr.w);
      r := Done(v);
    }

    /** lupb_Map_Newindex */
    method MapSet(w: LuaId, key: LuaVal, v: LuaVal) returns (r: Outcome)
      requires IsMap(View(), w) && CanPass(View(), v)
      modifies this`heap, this`groups
      ensures (View(), r) == MapNewindexResult(old(View()), w, key, v)
    {
      var x, t := wrappers[w].target, wrappers[w].kind.valueType;
      var m := heap[x];
      var k := CheckValue(wrappers[w].kind.keyType, key, w);
      if k.None? {
        return Raise;
      }
      if v == Nil {
        heap := heap[x := m.(entries := m.entries - {k.value})];
        return Done(Nil);
      }
      var val := CheckValue(t, v, w);
      if val.None? {
        return Raise;
      }
      heap := heap[x := m.(entries := m.entries[k.value := val.value])];
      if t == MessageC {
        ArenaFuseobjs(w, v.id);
      }
      r := Done(Nil);
    }

    // ---------- messages ----------

    /** lupb_msg_pushnew */
    method MsgPushnew(d: LuaId, fr: Fresh) returns (r: Outcome)
      requires IsClass(View(), d)
      modifies this
      ensures (View(), r) == NewMessageResult(old(View()), d, fr)
    {
      ArenaPushnew(fr.l, fr.a);
      heap := heap[fr.x := Msg(defWrappers[d].def, map[])];
      home := home[fr.x := fr.a];
      var slots := map[LUPB_ARENA_INDEX := fr.l][LUPB_MSGDEF_INDEX := d];
      NewWrapper(fr.w, Userdata(MsgW, fr.x, slots));
      r := Done(ObjL(fr.w));
    }

    /** lupb_Message_Newwrapper and lupb_Message_Newud */
    method WrapFieldObject(w: LuaId, f: FieldDef, x: Addr, fr: Fresh)
      requires IsMsg(View(), w)
      modifies this
      ensures View() == WrapField(old(View()), w, f, x, fr)
    {
      var slot := None;
      if f.ctype == MessageC && f.sub.Some? {
        var d := PushSubMsgDef(wrappers[w].msgdef.value, f.sub.value, fr.d);
        slot := Some(d);
      }
      NewWrapper(fr.w, Wrapper(KindOf(f), x, wrappers[w].arena, slot));
    }

    /** upb_Message_Mutable; only containers are made when the field is not set. */
    method MutableField(w: LuaId, name: string, f: FieldDef, fr: Fresh) returns (p: Option<Addr>)
      requires IsMsg(View(), w)
      modifies this`heap, this`home
      ensures (View(), p) == Mutable(old(View()), w, name, f, fr)
    {
      var x := wrappers[w].target;
      var o := heap[x];
      if name in o.fields && o.fields[name].Ref? {
        return Some(o.fields[name].target);
      }
      if f.shape == Single {
        return None;
      }
      var def := schema[defWrappers[wrappers[w].msgdef.value].def];
      heap := heap[fr.x := EmptyContainer(f)];
      home := home[fr.x := arenas[wrappers[w].arena]];
      heap := heap[x := WithField(o, def, name, Ref(fr.x))];
      p := Some(fr.x);
    }

    /** lupb_msg_index */
    method MsgGet(w: LuaId, name: string, fr: Fresh) returns (r: Outcome)
      requires IsMsg(View(), w)
      modifies this
      ensures (View(), r) == MsgIndexResult(old(View()), w, name, fr)
    {
      var x := wrappers[w].target;
      var o := heap[x];
      var def := schema[defWrappers[wrappers[w].msgdef.value].def];
      if name !in def {
        return Raise;
      }
      var f := def[name];
      if !IsWrapped(f) {
        var val := if name in o.fields && !o.fields[name].Ref? then o.fields[name] else f.default;
        return if val.Ref? then Raise else Done(ToLua(val));
      }
      var p := MutableField(w, name, f, fr);
      if p.None? {
        return Done(Nil);
      }
      var hit := CacheGet(p.value);
      match hit
      case Some(id) =>
        roots := roots + {id};
        r := Done(ObjL(id));
      case None =>
        WrapFieldObject(w, f, p.value, fr);
        r := Done(ObjL(fr.w));
    }

    /** lupb_Message_Newindex: here the arenas are fused before the field is set. */
    method MsgSet(w: LuaId, name: string, v: LuaVal, fr: Fresh) returns (r: Outcome)
      requires IsMsg(View(), w) && CanPass(View(), v)
      modifies this
      ensures (View(), r) == MsgNewindexResult(old(View()), w, name, v, fr)
    {
      var x := wrappers[w].target;
      var def := schema[defWrappers[wrappers[w].msgdef.value].def];
      if name !in def {
        return Raise;
      }
      var f := def[name];
      var val: Value;
      if IsWrapped(f) {
        if !v.ObjL? || v.id !in wrappers || !KindFits(f, wrappers[v.id].kind) {
          return Raise;
        }
        if f.ctype == MessageC && f.sub.Some? {
          var d := PushSubMsgDef(wrappers[w].msgdef.value, f.sub.value, fr.d);
          if wrappers[v.id].msgdef != Some(d) {
            return Raise;
          }
        }
        val := Ref(wrappers[v.id].target);
        ArenaFuseobjs(w, v.id);
      } else {
        var c := Convert(f.ctype, v);
        if c.None? {
          return Raise;
        }
        val := c.value;
      }
      heap := heap[x := WithField(heap[x], def, name, val)];
      r := Done(v);
    }

    /** The parser's part: objects allocated out of the message's arena. */
    method Parse(objs: map<Addr, UpbObj>, a: ArenaId)
      modifies this`heap, this`home
      ensures View() == old(View()).(mem := AllocAll(old(View()).mem, a, objs))
    {
      heap := heap + objs;
      home := home + map x | x in objs :: a;
    }

    /** lupb_decode and lupb_jsondecode: the parser fills a new message with objects from its own arena; after
        a failure nothing holds the wrapper. */
    method Decode(d: LuaId, objs: map<Addr, UpbObj>, ok: bool, fr: Fresh) returns (r: Outcome)
      requires IsClass(View(), d)
      modifies this
      ensures (View(), r) == DecodeResult(old(View()), d, objs, ok, fr)
    {
      ArenaPushnew(fr.l, fr.a);
      Parse(objs, fr.a);
      var held := roots;
      NewWrapper(fr.w, Userdata(MsgW, fr.x, map[LUPB_ARENA_INDEX := fr.l][LUPB_MSGDEF_INDEX := d]));
      if !ok {
        roots := held;
        return Raise;
      }
      r := Done(ObjL(fr.w));
    }

    // ---------- pools and lookups ----------

    /** lupb_DefPool_New */
    method DefPoolNew(pool: nat, p: LuaId) returns (r: Outcome)
      modifies this`pools, this`usedPools, this`roots
      ensures View() == Hold(old(View()).(defs := LuaDefs.NewPool(old(View()).defs, p, pool)), p) && r == Done(ObjL(p))
    {
      pools := pools[p := PoolObj(pool, map[])];
      usedPools := usedPools + {pool};
      roots := roots + {p};
      r := Done(ObjL(p));
    }

    /** lupb_DefPool_AddFile */
    method AddFile(added: map<DefId, MessageDef>) returns (r: Outcome)
      modifies this`schema
      ensures View() == old(View()).(defs := AddDefs(old(View()).defs, added)) && r == Done(Nil)
    {
      schema := schema + added;
      r := Done(Nil);
    }

    /** lupb_DefPool_FindMessageByName */
    method FindMessageByName(p: LuaId, def: DefId, newId: LuaId) returns (r: Outcome)
      requires p in pools
      modifies this`pools, this`defWrappers, this`roots
      ensures (View(), r) ==
        if def !in old(schema) then (old(View()), Done(Nil))
        else var (defs', d) := PushWrapper(old(View()).defs, p, def, newId);
          (Hold(old(View()).(defs := defs'), d), Done(ObjL(d)))
    {
      if def !in schema {
        return Done(Nil);
      }
      var d := PushDefWrapper(p, def, newId);
      roots := roots + {d};
      r := Done(ObjL(d));
    }

    /** lupb_DefPool_gc */
    method PoolGcRun(p: LuaId)
      modifies this`pools, this`doomed
      ensures View() == old(View()).(defs := FreePool(old(View()).defs, p), doomed := old(View()).doomed - {p})
    {
      pools := pools - {p};
      doomed := doomed - {p};
    }

    // ---------- Lua's own part ----------

    /** The program gives up a reference. */
    method LetGo(id: LuaId)
      modifies this`roots
      ensures View() == old(View()).(roots := old(roots) - {id})
    {
      roots := roots - {id};
    }

    /** The atomic phase of a collection. */
    method CollectDead(dead: set<LuaId>)
      modifies this
      ensures View() == CollectResult(old(View()), dead)
    {
      wrappers := wrappers - dead;
      cache := LiveEntries(cache, dead);
      defWrappers := defWrappers - dead;
      doomed := doomed + dead * (arenas.Keys + pools.Keys);
      pools := map p | p in pools :: pools[p].(cache := LiveEntries(pools[p].cache, dead));
    }

    // ---------- the metatables ----------

    method PerformOnDefs(op: Op, fr: Fresh) returns (r: Outcome)
      requires Enabled(View(), op, fr) && (op.DefPoolNew? || op.AddFile? || op.LookupMsg?)
      modifies this
      ensures (View(), r) == Exec(old(View()), op, fr)
    {
      match op
      case DefPoolNew(pool) => r := DefPoolNew(pool, fr.d);
      case AddFile(_, added) => r := AddFile(added);
      case LookupMsg(p, def) => r := FindMessageByName(p, def, fr.d);
    }

    method PerformNew(op: Op, fr: Fresh) returns (r: Outcome)
      requires Enabled(View(), op, fr) && (op.NewMessage? || op.Decode? || op.NewArray? || op.NewMap?)
      modifies this
      ensures (View(), r) == Exec(old(View()), op, fr)
    {
      match op
      case NewMessage(d) => r := MsgPushnew(d, fr);
      case Decode(d, objs, ok) => r := Decode(d, objs, ok, fr);
      case NewArray(elem) => r := ArrayNew(elem, fr);
      case NewMap(keyType, elem) => r := MapNew(keyType, elem, fr);
    }

    method PerformRead(op: Op, fr: Fresh) returns (r: Outcome)
      requires Enabled(View(), op, fr) && (op.ArrayIndex? || op.MapIndex? || op.MsgIndex?)
      modifies this
      ensures (View(), r) == Exec(old(View()), op, fr)
    {
      match op
      case ArrayIndex(w, key) => r := ArrayGet(w, key, fr);
      case MapIndex(w, key) => r := MapGet(w, key, fr);
      case MsgIndex(w, name) => r := MsgGet(w, name, fr);
    }

    method PerformStore(op: Op, fr: Fresh) returns (r: Outcome)
      requires Enabled(View(), op, fr) && (op.ArrayNewindex? || op.MapNewindex? || op.MsgNewindex?)
      modifies this
      ensures (View(), r) == Exec(old(View()), op, fr)
    {
      match op
      case ArrayNewindex(w, key, v) => r := ArraySet(w, key, v);
      case MapNewindex(w, key, v) => r := MapSet(w, key, v);
      case MsgNewindex(w, name, v) => r := MsgSet(w, name, v, fr);
    }

    method PerformCollection(op: Op, fr: Fresh) returns (r: Outcome)
      requires Enabled(View(), op, fr) && IsCollectorStep(op)
      modifies this
      ensures (View(), r) == Exec(old(View()), op, fr)
    {
      match op {
        case Drop(id) => LetGo(id);
        case Collect(dead) => CollectDead(dead);
        case ArenaGc(l) => ArenaGcRun(l);
        case PoolGc(p) => PoolGcRun(p);
      }
      r := Done(Nil);
    }

    /** One step of a run, as the metatables dispatch it: every operation of the machine is what its method
        does. */
    method Perform(op: Op, fr: Fresh) returns (r: Outcome)
      requires Enabled(View(), op, fr)
      modifies this
      ensures (View(), r) == Exec(old(View()), op, fr)
    {
      if op.DefPoolNew? || op.AddFile? || op.LookupMsg? {
        r := PerformOnDefs(op, fr);
      } else if op.NewMessage? || op.Decode? || op.NewArray? || op.NewMap? {
        r := PerformNew(op, fr);
      } else if op.ArrayIndex? || op.MapIndex? || op.MsgIndex? {
        r := PerformRead(op, fr);
      } else if op.ArrayNewindex? || op.MapNewindex? || op.MsgNewindex? {
        r := PerformStore(op, fr);
      } else {
        r := PerformCollection(op, fr);
      }
    }

    /** A whole run: whatever the program and the collector do, the binding is in the state the run leads
        to. */
    method Run(steps: seq<Step>)
      requires RunOk(View(), steps)
      modifies this
      ensures View() == Final(old(View()), steps)
    {
      var i := 0;
      while i < |steps|
        invariant 0 <= i <= |steps|
        invariant RunOk(View(), steps[i..]) && Final(View(), steps[i..]) == Final(old(View()), steps)
      {
        ghost var rest := steps[i..];
        assert rest[0] == steps[i] && rest[1..] == steps[i + 1..];
        var _ := Perform(steps[i].op, steps[i].fr);
        i := i + 1;
      }
    }
  }
}
