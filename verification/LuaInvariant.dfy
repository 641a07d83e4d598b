/** What every run of the Lua binding keeps: objects behind live wrappers are never freed, wrappers
    are canonical, and the object graph is well typed. */
module LuaInvariant {
  import opened Options
  import opened Arenas
  import opened UpbMemory
  import opened LuaDefs
  import opened LuaGraph

  // ---------- the invariant ----------

  predicate Owned(arenas: map<LuaId, ArenaId>, a: ArenaId) {
    exists l :: l in arenas && arenas[l] == a
  }

  /** Arena userdata and unfreed arenas correspond one to one. */
  ghost predicate ArenasOwned(unfreed: set<ArenaId>, arenas: map<LuaId, ArenaId>) {
    && (forall l | l in arenas :: arenas[l] in unfreed)
    && (forall l, k | l in arenas && k in arenas && arenas[l] == arenas[k] :: l == k)
    && (forall a {:trigger Owned(arenas, a)} | a in unfreed :: Owned(arenas, a))
  }

  /** The definition slot agrees with what the object was made for. */
  ghost predicate SlotAgrees(s: State, slot: Option<LuaId>, elem: Option<DefId>) {
    && (slot.Some? <==> elem.Some?)
    && (slot.Some? ==> slot.value in s.defs.wrappers && s.defs.wrappers[slot.value].def == elem.value)
  }

  ghost predicate SlotTyped(s: State, wr: Wrapper, o: UpbObj) {
    match o
    case Msg(def, _) => wr.kind == MsgW && SlotAgrees(s, wr.msgdef, Some(def))
    case Arr(t, elem, _) => wr.kind == ArrW(t) && SlotAgrees(s, wr.msgdef, elem)
    case Map(k, t, elem, _) => wr.kind == MapW(k, t) && SlotAgrees(s, wr.msgdef, elem)
  }

  /** Object x lies in the fused group of arena a. */
  ghost predicate LiesWith(m: Memory, x: Addr, a: ArenaId) {
    x in m.heap && x in m.home && m.home[x] in m.groups && a in m.groups && m.groups[a] == m.groups[m.home[x]]
  }

  /** A wrapper references an arena that is not dead and whose group holds the wrapped object, and
      its kind and definition slot describe the object. */
  ghost predicate Sound(s: State, wr: Wrapper) {
    && wr.arena in s.arenas && wr.arena !in s.doomed
    && LiesWith(s.mem, wr.target, s.arenas[wr.arena])
    && SlotTyped(s, wr, s.mem.heap[wr.target])
  }

  ghost predicate WrappersSound(s: State) {
    forall w | w in s.wrappers :: Sound(s, s.wrappers[w])
  }

  /** The weak cache holds exactly the live wrappers, each under its own object. */
  ghost predicate CacheExact(cache: map<Addr, LuaId>, wrappers: map<LuaId, Wrapper>) {
    && (forall x | x in cache :: cache[x] in wrappers && wrappers[cache[x]].target == x)
    && (forall w | w in wrappers :: wrappers[w].target in cache && cache[wrappers[w].target] == w)
  }

  ghost predicate PoolsHeld(defs: map<LuaId, DefWrapper>, doomed: set<LuaId>) {
    forall d | d in defs :: defs[d].pool !in doomed
  }

  ghost predicate GraphTyped(heap: map<Addr, UpbObj>, schema: map<DefId, MessageDef>) {
    forall x | x in heap :: ObjTyped(heap, schema, heap[x])
  }

  /** Lua objects of different kinds have different identities, and what the program holds is not
      awaiting finalization. */
  ghost predicate Separate(wrappers: set<LuaId>, defs: set<LuaId>, arenas: set<LuaId>, pools: set<LuaId>,
                           doomed: set<LuaId>, roots: set<LuaId>) {
    wrappers !! defs !! arenas !! pools && doomed <= arenas + pools && doomed !! roots
  }

  ghost predicate IdsOk(s: State) {
    Separate(s.wrappers.Keys, s.defs.wrappers.Keys, s.arenas.Keys, s.defs.pools.Keys, s.doomed, s.roots)
  }

  ghost predicate Inv(s: State) {
    && IdsOk(s) && MemInv(s.mem) && DefsInv(s.defs) && ArenasOwned(s.mem.unfreed, s.arenas)
    && WrappersSound(s) && CacheExact(s.cache, s.wrappers)
    && PoolsHeld(s.defs.wrappers, s.doomed) && GraphTyped(s.mem.heap, s.defs.schema)
  }

  // ---------- new arenas, objects and wrappers ----------

  lemma PushArenaOwned(s: State, l: LuaId, a: ArenaId)
    requires ArenasOwned(s.mem.unfreed, s.arenas) && l !in s.arenas && a !in s.mem.unfreed
    ensures ArenasOwned(s.mem.unfreed + {a}, s.arenas[l := a])
  {
    var arenas' := s.arenas[l := a];
    forall b | b in s.mem.unfreed + {a} ensures Owned(arenas', b) {
      assert arenas'[l] == a;
      if b != a {
        assert Owned(s.arenas, b);
        var k :| k in s.arenas && s.arenas[k] == b;
        assert arenas'[k] == b;
      }
    }
  }

  lemma PushArenaSound(s: State, l: LuaId, a: ArenaId)
    requires WrappersSound(s) && l !in s.arenas && a !in s.mem.groups
    ensures WrappersSound(PushArena(s, l, a))
  {
    var s' := PushArena(s, l, a);
    forall w | w in s'.wrappers ensures Sound(s', s'.wrappers[w]) {
      assert Sound(s, s.wrappers[w]);
    }
  }

  lemma PushArenaInv(s: State, l: LuaId, a: ArenaId)
    requires Inv(s) && IdFree(s, l) && a !in s.mem.groups
    ensures Inv(PushArena(s, l, a))
  {
    NewArenaInv(s.mem, a);
    PushArenaOwned(s, l, a);
    PushArenaSound(s, l, a);
  }

  /** Typing depends only on the kinds of the objects pointed at. */
  lemma TypedTransfers(heap: map<Addr, UpbObj>, heap': map<Addr, UpbObj>,
                       schema: map<DefId, MessageDef>, schema': map<DefId, MessageDef>, o: UpbObj)
    requires ObjTyped(heap, schema, o)
    requires forall y | o.Holds(Ref(y)) && y in heap :: y in heap' && heap'[y].SameType(heap[y])
    requires forall d | d in schema :: d in schema' && schema'[d] == schema[d]
    ensures ObjTyped(heap', schema', o)
  {
    if o.Msg? {
      forall n | n in o.fields ensures n in schema'[o.def] && FieldTyped(heap', schema'[o.def][n], o.fields[n]) {
        assert FieldTyped(heap, schema[o.def][n], o.fields[n]);
        assert o.Holds(o.fields[n]);
      }
    } else if o.Arr? {
      forall v | v in o.items ensures ElemTyped(heap', o.ctype, o.elem, v) {
        assert ElemTyped(heap, o.ctype, o.elem, v) && o.Holds(v);
      }
    } else {
      forall v | v in o.entries.Values ensures ElemTyped(heap', o.ctype, o.elem, v) {
        assert ElemTyped(heap, o.ctype, o.elem, v) && o.Holds(v);
      }
    }
  }

  lemma AllocAllTyped(s: State, objs: map<Addr, UpbObj>)
    requires GraphTyped(s.mem.heap, s.defs.schema) && objs.Keys !! s.mem.heap.Keys
    requires forall x | x in objs :: ObjTyped(objs, s.defs.schema, objs[x])
    ensures GraphTyped(s.mem.heap + objs, s.defs.schema)
  {
    var heap' := s.mem.heap + objs;
    forall x | x in heap' ensures ObjTyped(heap', s.defs.schema, heap'[x]) {
      if x in objs {
        TypedTransfers(objs, heap', s.defs.schema, s.defs.schema, objs[x]);
      } else {
        TypedTransfers(s.mem.heap, heap', s.defs.schema, s.defs.schema, s.mem.heap[x]);
      }
    }
  }

  lemma AllocAllSound(s: State, a: ArenaId, objs: map<Addr, UpbObj>)
    requires WrappersSound(s) && objs.Keys !! s.mem.heap.Keys
    ensures WrappersSound(s.(mem := AllocAll(s.mem, a, objs)))
  {
    var s' := s.(mem := AllocAll(s.mem, a, objs));
    forall w | w in s'.wrappers ensures Sound(s', s'.wrappers[w]) {
      assert Sound(s, s.wrappers[w]);
    }
  }

  lemma ParseInv(s: State, a: ArenaId, objs: map<Addr, UpbObj>)
    requires Inv(s) && a in s.mem.groups && objs.Keys !! s.mem.heap.Keys
    requires forall x, y | x in objs && objs[x].Holds(Ref(y)) :: y in objs
    requires forall x | x in objs :: ObjTyped(objs, s.defs.schema, objs[x])
    ensures Inv(s.(mem := AllocAll(s.mem, a, objs)))
  {
    AllocAllInv(s.mem, a, objs);
    AllocAllTyped(s, objs);
    AllocAllSound(s, a, objs);
  }

  lemma EmptyObject(o: UpbObj, schema: map<DefId, MessageDef>, x: Addr)
    requires (forall v :: !o.Holds(v)) && ObjTyped(map[], schema, o)
    ensures forall y, z | y in map[x := o] && map[x := o][y].Holds(Ref(z)) :: z in map[x := o]
    ensures forall y | y in map[x := o] :: ObjTyped(map[x := o], schema, map[x := o][y])
  {
    TypedTransfers(map[], map[x := o], schema, schema, o);
  }

  lemma AllocIsAllocAll(m: Memory, a: ArenaId, x: Addr, o: UpbObj)
    ensures AllocAll(m, a, map[x := o]) == Alloc(m, a, x, o)
  {
  }

  lemma AllocateInv(s: State, a: ArenaId, x: Addr, o: UpbObj)
    requires Inv(s) && a in s.mem.groups && x !in s.mem.heap
    requires (forall v :: !o.Holds(v)) && ObjTyped(map[], s.defs.schema, o)
    ensures Inv(s.(mem := Alloc(s.mem, a, x, o)))
  {
    EmptyObject(o, s.defs.schema, x);
    ParseInv(s, a, map[x := o]);
    AllocIsAllocAll(s.mem, a, x, o);
  }

  lemma AddWrapperSound(s: State, w: LuaId, wr: Wrapper)
    requires WrappersSound(s) && Sound(s, wr)
    ensures WrappersSound(AddWrapper(s, w, wr))
  {
    var s' := AddWrapper(s, w, wr);
    forall v | v in s'.wrappers ensures Sound(s', s'.wrappers[v]) {
      assert v != w ==> Sound(s, s.wrappers[v]);
    }
  }

  lemma AddWrapperCache(cache: map<Addr, LuaId>, wrappers: map<LuaId, Wrapper>, w: LuaId, wr: Wrapper)
    requires CacheExact(cache, wrappers) && w !in wrappers && wr.target !in cache
    ensures CacheExact(cache[wr.target := w], wrappers[w := wr])
  {
  }

  lemma AddWrapperInv(s: State, w: LuaId, wr: Wrapper)
    requires Inv(s) && IdFree(s, w) && wr.target !in s.cache && Sound(s, wr)
    ensures Inv(AddWrapper(s, w, wr))
  {
    AddWrapperSound(s, w, wr);
    AddWrapperCache(s.cache, s.wrappers, w, wr);
  }

  lemma HoldInv(s: State, roots: set<LuaId>)
    requires Inv(s) && roots !! s.doomed
    ensures Inv(s.(roots := roots))
  {
    var s' := s.(roots := roots);
    forall w | w in s'.wrappers ensures Sound(s', s'.wrappers[w]) {
      assert Sound(s, s.wrappers[w]);
    }
  }

  /** An address that is not allocated has no cache entry, however often it was used before. */
  lemma UnallocatedUncached(s: State, x: Addr)
    requires WrappersSound(s) && CacheExact(s.cache, s.wrappers) && x !in s.mem.heap
    ensures x !in s.cache
  {
    assert x in s.cache ==> Sound(s, s.wrappers[s.cache[x]]);
  }

  lemma NewObjectInv(s: State, kind: Kind, o: UpbObj, slots: Slots, fr: Fresh)
    requires Inv(s) && FreshOk(s, fr)
    requires (forall v :: !o.Holds(v)) && ObjTyped(map[], s.defs.schema, o)
    requires SlotTyped(s, Userdata(kind, fr.x, slots[LUPB_ARENA_INDEX := fr.l]), o)
    ensures Inv(NewObject(s, kind, o, slots, fr))
  {
    UnallocatedUncached(s, fr.x);
    PushArenaInv(s, fr.l, fr.a);
    var s1 := PushArena(s, fr.l, fr.a);
    AllocateInv(s1, fr.a, fr.x, o);
    var s2 := s1.(mem := Alloc(s1.mem, fr.a, fr.x, o));
    AddWrapperInv(s2, fr.w, Userdata(kind, fr.x, slots[LUPB_ARENA_INDEX := fr.l]));
  }

  // ---------- fusing and writing ----------

  lemma FuseObjsSound(s: State, to: LuaId, from: LuaId)
    requires WrappersSound(s) && Placed(s, to) && Placed(s, from)
    ensures WrappersSound(FuseObjs(s, to, from))
  {
    var s' := FuseObjs(s, to, from);
    forall w | w in s'.wrappers ensures Sound(s', s'.wrappers[w]) {
      assert Sound(s, s.wrappers[w]);
    }
  }

  lemma FuseObjsJoins(s: State, to: LuaId, from: LuaId)
    requires Placed(s, to) && Placed(s, from)
    requires Sound(s, s.wrappers[to]) && Sound(s, s.wrappers[from])
    ensures var m := FuseObjs(s, to, from).mem; LiesWith(m, s.wrappers[from].target, m.home[s.wrappers[to].target])
  {
  }

  lemma FuseObjsInv(s: State, to: LuaId, from: LuaId)
    requires Inv(s) && Placed(s, to) && Placed(s, from)
    ensures Inv(FuseObjs(s, to, from))
  {
    FuseInv(s.mem, s.arenas[s.wrappers[to].arena], s.arenas[s.wrappers[from].arena]);
    FuseObjsSound(s, to, from);
  }

  lemma WriteSound(s: State, x: Addr, o: UpbObj)
    requires WrappersSound(s) && x in s.mem.heap && o.SameType(s.mem.heap[x])
    ensures WrappersSound(Write(s, x, o))
  {
    var s' := Write(s, x, o);
    forall w | w in s'.wrappers ensures Sound(s', s'.wrappers[w]) {
      assert Sound(s, s.wrappers[w]);
    }
  }

  lemma WriteTyped(s: State, x: Addr, o: UpbObj)
    requires GraphTyped(s.mem.heap, s.defs.schema) && x in s.mem.heap && o.SameType(s.mem.heap[x])
    requires ObjTyped(s.mem.heap, s.defs.schema, o)
    ensures GraphTyped(s.mem.heap[x := o], s.defs.schema)
  {
    var heap' := s.mem.heap[x := o];
    forall y | y in heap' ensures ObjTyped(heap', s.defs.schema, heap'[y]) {
      TypedTransfers(s.mem.heap, heap', s.defs.schema, s.defs.schema, heap'[y]);
    }
  }

  /** Each link of o is one x has already or leads to an object of x's group. */
  ghost predicate LinksStay(m: Memory, x: Addr, o: UpbObj)
    requires x in m.heap
  {
    forall y | o.Holds(Ref(y)) :: m.heap[x].Holds(Ref(y)) || (x in m.home && LiesWith(m, y, m.home[x]))
  }

  /** A typed write whose new links stay in the group. */
  lemma WriteInv(s: State, x: Addr, o: UpbObj)
    requires Inv(s) && x in s.mem.heap && o.SameType(s.mem.heap[x])
    requires ObjTyped(s.mem.heap, s.defs.schema, o) && LinksStay(s.mem, x, o)
    ensures Inv(Write(s, x, o))
  {
    PutInv(s.mem, x, o);
    WriteSound(s, x, o);
    WriteTyped(s, x, o);
  }

  /** Linking first and fusing afterwards ends in the same state as fusing first. */
  lemma LinkFuseCommute(s: State, x: Addr, o: UpbObj, to: LuaId, from: LuaId)
    requires Placed(s, to) && Placed(s, from)
    ensures Placed(Write(s, x, o), to) && Placed(Write(s, x, o), from)
    ensures FuseObjs(Write(s, x, o), to, from) == Write(FuseObjs(s, to, from), x, o)
  {
  }

  // ---------- definitions ----------

  lemma DefsGrowTyped(s: State, defs': Defs)
    requires GraphTyped(s.mem.heap, s.defs.schema)
    requires forall d | d in s.defs.schema :: d in defs'.schema && defs'.schema[d] == s.defs.schema[d]
    ensures GraphTyped(s.mem.heap, defs'.schema)
  {
    forall x | x in s.mem.heap ensures ObjTyped(s.mem.heap, defs'.schema, s.mem.heap[x]) {
      TypedTransfers(s.mem.heap, s.mem.heap, s.defs.schema, defs'.schema, s.mem.heap[x]);
    }
  }

  lemma DefsGrowSound(s: State, defs': Defs)
    requires WrappersSound(s)
    requires forall d | d in s.defs.wrappers :: d in defs'.wrappers && defs'.wrappers[d] == s.defs.wrappers[d]
    ensures WrappersSound(s.(defs := defs'))
  {
    var s' := s.(defs := defs');
    forall w | w in s'.wrappers ensures Sound(s', s'.wrappers[w]) {
      assert Sound(s, s.wrappers[w]);
    }
  }

  /** A new definition wrapper or new definitions disturb nothing. */
  lemma DefsGrowInv(s: State, defs': Defs)
    requires Inv(s) && DefsInv(defs')
    requires forall d | d in s.defs.wrappers :: d in defs'.wrappers && defs'.wrappers[d] == s.defs.wrappers[d]
    requires forall d | d in defs'.wrappers && d !in s.defs.wrappers :: defs'.wrappers[d].pool !in s.doomed
    requires forall d | d in s.defs.schema :: d in defs'.schema && defs'.schema[d] == s.defs.schema[d]
    requires defs'.pools.Keys == s.defs.pools.Keys
    requires forall d | d in defs'.wrappers && d !in s.defs.wrappers :: IdFree(s, d)
    ensures Inv(s.(defs := defs'))
  {
    DefsGrowTyped(s, defs');
    DefsGrowSound(s, defs');
  }

  lemma PushDefInv(s: State, p: LuaId, def: DefId, d: LuaId)
    requires Inv(s) && p in s.defs.pools && p !in s.doomed
    requires def in s.defs.schema && def.pool == s.defs.pools[p].pool && IdFree(s, d)
    ensures var (defs', e) := PushWrapper(s.defs, p, def, d);
      && Inv(s.(defs := defs'))
      && e in defs'.wrappers && defs'.wrappers[e] == DefWrapper(def, p) && defs'.schema == s.defs.schema
  {
    PushWrapperFrame(s.defs, p, def, d);
    PushWrapperInv(s.defs, p, def, d);
    DefsGrowInv(s, PushWrapper(s.defs, p, def, d).0);
  }

  // ---------- the operations of the binding ----------

  /** What a wrapper with an empty slot wraps holds no message; otherwise each message has the
      definition in the slot. */
  lemma ContainerElement(s: State, c: LuaId, v: Value)
    requires Housed(s.mem) && LinksLocal(s.mem) && GraphTyped(s.mem.heap, s.defs.schema)
    requires c in s.wrappers && Sound(s, s.wrappers[c])
    requires !s.mem.heap[s.wrappers[c].target].Msg? && s.mem.heap[s.wrappers[c].target].Holds(v) && v.Ref?
    ensures Sound(s, Wrapper(MsgW, v.target, s.wrappers[c].arena, s.wrappers[c].msgdef))
  {
    var x := s.wrappers[c].target;
    var o := s.mem.heap[x];
    assert ObjTyped(s.mem.heap, s.defs.schema, o);
    assert ElemTyped(s.mem.heap, o.ctype, o.elem, v);
    assert o.Holds(Ref(v.target));
    assert GroupOf(s.mem, x) == GroupOf(s.mem, v.target);
  }

  lemma PushValueInv(s: State, c: LuaId, v: Value, w: LuaId)
    requires Inv(s) && c in s.wrappers && Sound(s, s.wrappers[c]) && IdFree(s, w)
    requires !s.mem.heap[s.wrappers[c].target].Msg? && s.mem.heap[s.wrappers[c].target].Holds(v)
    ensures Inv(PushValue(s, c, v, w).0)
  {
    if v.Ref? {
      ContainerElement(s, c, v);
      if v.target in s.cache {
        HoldInv(s, s.roots + {s.cache[v.target]});
      } else {
        AddWrapperInv(s, w, Wrapper(MsgW, v.target, s.wrappers[c].arena, s.wrappers[c].msgdef));
      }
    }
  }

  /** A value that passes lupb_tomsgval has the container's element type. */
  lemma ToMsgValTyped(s: State, t: CType, v: LuaVal, c: LuaId, elem: Option<DefId>)
    requires WrappersSound(s) && c in s.wrappers && SlotAgrees(s, s.wrappers[c].msgdef, elem)
    requires ToMsgVal(s, t, v, c).Some?
    ensures ElemTyped(s.mem.heap, t, elem, ToMsgVal(s, t, v, c).value)
  {
    assert t == MessageC ==> Sound(s, s.wrappers[v.id]);
  }

  lemma StoreLinks(s: State, w: LuaId, o: UpbObj, id: LuaId)
    requires WrappersSound(s) && Placed(s, w) && Placed(s, id)
    requires s.wrappers[w].target in s.mem.heap
    requires forall y | o.Holds(Ref(y)) ::
      s.mem.heap[s.wrappers[w].target].Holds(Ref(y)) || y == s.wrappers[id].target
    ensures LinksStay(FuseObjs(s, w, id).mem, s.wrappers[w].target, o)
  {
    assert Sound(s, s.wrappers[w]) && Sound(s, s.wrappers[id]);
    FuseObjsJoins(s, w, id);
  }

  /** A store of wrapper id's object into object o of wrapper w, whichever of linking and fusing
      comes first. */
  lemma StoreInv(s: State, w: LuaId, o: UpbObj, id: LuaId)
    requires Inv(s) && Placed(s, w) && Placed(s, id)
    requires s.wrappers[w].target in s.mem.heap
    requires o.SameType(s.mem.heap[s.wrappers[w].target]) && ObjTyped(s.mem.heap, s.defs.schema, o)
    requires forall y | o.Holds(Ref(y)) ::
      s.mem.heap[s.wrappers[w].target].Holds(Ref(y)) || y == s.wrappers[id].target
    ensures Placed(Write(s, s.wrappers[w].target, o), w) && Placed(Write(s, s.wrappers[w].target, o), id)
    ensures Inv(FuseObjs(Write(s, s.wrappers[w].target, o), w, id))
    ensures Inv(Write(FuseObjs(s, w, id), s.wrappers[w].target, o))
  {
    LinkFuseCommute(s, s.wrappers[w].target, o, w, id);
    StoreLinks(s, w, o, id);
    FuseObjsInv(s, w, id);
    WriteInv(FuseObjs(s, w, id), s.wrappers[w].target, o);
  }

  lemma PlainWriteInv(s: State, x: Addr, o: UpbObj)
    requires Inv(s) && x in s.mem.heap && o.SameType(s.mem.heap[x]) && ObjTyped(s.mem.heap, s.defs.schema, o)
    requires forall y | o.Holds(Ref(y)) :: s.mem.heap[x].Holds(Ref(y))
    ensures Inv(Write(s, x, o))
  {
    WriteInv(s, x, o);
  }

  /** An array update with a well-typed element. */
  lemma ArrayUpdateTyped(s: State, x: Addr, n: nat, val: Value)
    requires GraphTyped(s.mem.heap, s.defs.schema) && x in s.mem.heap && s.mem.heap[x].Arr?
    requires n <= |s.mem.heap[x].items| && ElemTyped(s.mem.heap, s.mem.heap[x].ctype, s.mem.heap[x].elem, val)
    ensures var arr := s.mem.heap[x];
      var arr' := WithItem(arr, n, val);
      && arr'.SameType(arr) && ObjTyped(s.mem.heap, s.defs.schema, arr')
      && (forall y | arr'.Holds(Ref(y)) :: arr.Holds(Ref(y)) || val == Ref(y))
  {
    var arr := s.mem.heap[x];
    assert ObjTyped(s.mem.heap, s.defs.schema, arr);
  }

  /** What lupb_Array_Newindex does once its checks have passed. */
  lemma ArrayStoreTyped(s: State, w: LuaId, n: nat, v: LuaVal)
    requires WrappersSound(s) && GraphTyped(s.mem.heap, s.defs.schema) && IsArray(s, w)
    requires n <= |s.mem.heap[s.wrappers[w].target].items|
    requires ToMsgVal(s, s.wrappers[w].kind.ctype, v, w).Some?
    ensures var arr, val := s.mem.heap[s.wrappers[w].target], ToMsgVal(s, s.wrappers[w].kind.ctype, v, w).value;
      var arr' := WithItem(arr, n, val);
      && s.wrappers[w].kind.ctype == arr.ctype
      && arr'.SameType(arr) && ObjTyped(s.mem.heap, s.defs.schema, arr')
      && (forall y | arr'.Holds(Ref(y)) :: arr.Holds(Ref(y)) || val == Ref(y))
      && (arr.ctype != MessageC ==> !val.Ref?)
  {
    var x := s.wrappers[w].target;
    var arr := s.mem.heap[x];
    assert Sound(s, s.wrappers[w]);
    ToMsgValTyped(s, arr.ctype, v, w, arr.elem);
    ArrayUpdateTyped(s, x, n, ToMsgVal(s, arr.ctype, v, w).value);
  }

  lemma ArrayNewindexInv(s: State, w: LuaId, key: LuaVal, v: LuaVal)
    requires Inv(s) && IsArray(s, w) && CanPass(s, v)
    ensures Inv(ArrayNewindexResult(s, w, key, v).0)
  {
    var x := s.wrappers[w].target;
    var arr := s.mem.heap[x];
    var n := CheckIndex(key, |arr.items| + 1);
    if n.Some? && ToMsgVal(s, s.wrappers[w].kind.ctype, v, w).Some? {
      ArrayStoreInv(s, w, n.value, v);
    }
  }

  lemma ArrayStoreInv(s: State, w: LuaId, n: nat, v: LuaVal)
    requires Inv(s) && IsArray(s, w) && CanPass(s, v) && n <= |s.mem.heap[s.wrappers[w].target].items|
    requires ToMsgVal(s, s.wrappers[w].kind.ctype, v, w).Some?
    ensures var x, t := s.wrappers[w].target, s.wrappers[w].kind.ctype;
      var arr := WithItem(s.mem.heap[x], n, ToMsgVal(s, t, v, w).value);
      if t == MessageC then
        v.ObjL? && Placed(Write(s, x, arr), w) && Placed(Write(s, x, arr), v.id)
        && Inv(FuseObjs(Write(s, x, arr), w, v.id))
      else Inv(Write(s, x, arr))
  {
    var x, t := s.wrappers[w].target, s.wrappers[w].kind.ctype;
    var arr := WithItem(s.mem.heap[x], n, ToMsgVal(s, t, v, w).value);
    ArrayStoreTyped(s, w, n, v);
    if t == MessageC {
      StoreInv(s, w, arr, v.id);
    } else {
      PlainWriteInv(s, x, arr);
    }
  }

  lemma MapUpdateTyped(s: State, x: Addr, k: Value, val: Value)
    requires GraphTyped(s.mem.heap, s.defs.schema) && x in s.mem.heap && s.mem.heap[x].Map?
    requires ElemTyped(s.mem.heap, s.mem.heap[x].ctype, s.mem.heap[x].elem, val)
    ensures var m := s.mem.heap[x];
      var m' := m.(entries := m.entries[k := val]);
      && m'.SameType(m) && ObjTyped(s.mem.heap, s.defs.schema, m')
      && (forall y | m'.Holds(Ref(y)) :: m.Holds(Ref(y)) || val == Ref(y))
  {
    var m := s.mem.heap[x];
    assert ObjTyped(s.mem.heap, s.defs.schema, m);
    forall u | u in m.entries[k := val].Values ensures u == val || u in m.entries.Values {}
  }

  lemma MapDeleteTyped(s: State, x: Addr, k: Value)
    requires GraphTyped(s.mem.heap, s.defs.schema) && x in s.mem.heap && s.mem.heap[x].Map?
    ensures var m := s.mem.heap[x];
      var m' := m.(entries := m.entries - {k});
      && m'.SameType(m) && ObjTyped(s.mem.heap, s.defs.schema, m')
      && (forall y | m'.Holds(Ref(y)) :: m.Holds(Ref(y)))
  {
    var m := s.mem.heap[x];
    assert ObjTyped(s.mem.heap, s.defs.schema, m);
    forall u | u in (m.entries - {k}).Values ensures u in m.entries.Values {}
  }

  lemma MapStoreTyped(s: State, w: LuaId, k: Value, v: LuaVal)
    requires WrappersSound(s) && GraphTyped(s.mem.heap, s.defs.schema) && IsMap(s, w)
    requires ToMsgVal(s, s.wrappers[w].kind.valueType, v, w).Some?
    ensures var m, val := s.mem.heap[s.wrappers[w].target], ToMsgVal(s, s.wrappers[w].kind.valueType, v, w).value;
      var m' := m.(entries := m.entries[k := val]);
      && s.wrappers[w].kind.valueType == m.ctype
      && m'.SameType(m) && ObjTyped(s.mem.heap, s.defs.schema, m')
      && (forall y | m'.Holds(Ref(y)) :: m.Holds(Ref(y)) || val == Ref(y))
      && (m.ctype != MessageC ==> !val.Ref?)
  {
    var x := s.wrappers[w].target;
    var m := s.mem.heap[x];
    assert Sound(s, s.wrappers[w]);
    ToMsgValTyped(s, m.ctype, v, w, m.elem);
    MapUpdateTyped(s, x, k, ToMsgVal(s, m.ctype, v, w).value);
  }

  lemma MapNewindexInv(s: State, w: LuaId, key: LuaVal, v: LuaVal)
    requires Inv(s) && IsMap(s, w) && CanPass(s, v)
    ensures Inv(MapNewindexResult(s, w, key, v).0)
  {
    var x := s.wrappers[w].target;
    var m := s.mem.heap[x];
    var k, t := ToMsgVal(s, s.wrappers[w].kind.keyType, key, w), s.wrappers[w].kind.valueType;
    if k.Some? {
      if v == Nil {
        MapDeleteTyped(s, x, k.value);
        PlainWriteInv(s, x, m.(entries := m.entries - {k.value}));
      } else if ToMsgVal(s, t, v, w).Some? {
        MapStoreInv(s, w, k.value, v);
      }
    }
  }

  lemma MapStoreInv(s: State, w: LuaId, k: Value, v: LuaVal)
    requires Inv(s) && IsMap(s, w) && CanPass(s, v)
    requires ToMsgVal(s, s.wrappers[w].kind.valueType, v, w).Some?
    ensures var x, t := s.wrappers[w].target, s.wrappers[w].kind.valueType;
      var m := s.mem.heap[x];
      var m' := m.(entries := m.entries[k := ToMsgVal(s, t, v, w).value]);
      if t == MessageC then
        v.ObjL? && Placed(Write(s, x, m'), w) && Placed(Write(s, x, m'), v.id)
        && Inv(FuseObjs(Write(s, x, m'), w, v.id))
      else Inv(Write(s, x, m'))
  {
    var x, t := s.wrappers[w].target, s.wrappers[w].kind.valueType;
    var m := s.mem.heap[x];
    var m' := m.(entries := m.entries[k := ToMsgVal(s, t, v, w).value]);
    MapStoreTyped(s, w, k, v);
    if t == MessageC {
      StoreInv(s, w, m', v.id);
    } else {
      PlainWriteInv(s, x, m');
    }
  }

  lemma MessageUpdateTyped(s: State, x: Addr, name: string, f: FieldDef, val: Value)
    requires GraphTyped(s.mem.heap, s.defs.schema) && x in s.mem.heap && s.mem.heap[x].Msg?
    requires s.mem.heap[x].def in s.defs.schema && name in s.defs.schema[s.mem.heap[x].def]
    requires f == s.defs.schema[s.mem.heap[x].def][name] && FieldTyped(s.mem.heap, f, val)
    ensures var o := s.mem.heap[x];
      var o' := WithField(o, s.defs.schema[o.def], name, val);
      && o'.SameType(o) && ObjTyped(s.mem.heap, s.defs.schema, o')
      && (forall y | o'.Holds(Ref(y)) :: o.Holds(Ref(y)) || val == Ref(y))
  {
    var o := s.mem.heap[x];
    assert ObjTyped(s.mem.heap, s.defs.schema, o);
    var o' := WithField(o, s.defs.schema[o.def], name, val);
    forall u | u in o'.fields.Values ensures u == val || u in o.fields.Values {}
  }

  /** The field a message wrapper resolves a name to is a field of the wrapped message. */
  lemma ResolvedField(s: State, w: LuaId, name: string)
    requires Inv(s) && IsMsg(s, w)
    ensures var def := DefOf(s, w);
      && s.mem.heap[s.wrappers[w].target].def == def
      && (name in s.defs.schema[def] ==> FieldOk(s.defs.schema, def, s.defs.schema[def][name]))
      && (name in s.defs.schema[def] && name in s.mem.heap[s.wrappers[w].target].fields ==>
            FieldTyped(s.mem.heap, s.defs.schema[def][name], s.mem.heap[s.wrappers[w].target].fields[name]))
  {
    assert Sound(s, s.wrappers[w]);
    assert ObjTyped(s.mem.heap, s.defs.schema, s.mem.heap[s.wrappers[w].target]);
  }

  /** Once the kind and the definition slot of v have been compared, v fits the field. */
  lemma ComparedFits(s: State, f: FieldDef, id: LuaId, slot: Option<LuaId>)
    requires WrappersSound(s) && GraphTyped(s.mem.heap, s.defs.schema)
    requires id in s.wrappers && KindFits(f, s.wrappers[id].kind)
    requires s.wrappers[id].msgdef == slot && (f.ctype == MessageC <==> f.sub.Some?)
    requires f.ctype == MessageC ==> SlotAgrees(s, slot, f.sub)
    requires IsWrapped(f)
    ensures FieldTyped(s.mem.heap, f, Ref(s.wrappers[id].target))
  {
    assert Sound(s, s.wrappers[id]);
    assert ObjTyped(s.mem.heap, s.defs.schema, s.mem.heap[s.wrappers[id].target]);
  }

  /** The part of lupb_Message_Newindex after the comparison. */
  lemma LinkFieldInv(s: State, w: LuaId, name: string, f: FieldDef, id: LuaId)
    requires Inv(s) && Placed(s, w) && Placed(s, id)
    requires s.wrappers[w].target in s.mem.heap && s.mem.heap[s.wrappers[w].target].Msg?
    requires var def := s.mem.heap[s.wrappers[w].target].def;
      def in s.defs.schema && name in s.defs.schema[def] && f == s.defs.schema[def][name]
    requires FieldTyped(s.mem.heap, f, Ref(s.wrappers[id].target))
    ensures var x := s.wrappers[w].target;
      Inv(Write(FuseObjs(s, w, id), x,
                WithField(s.mem.heap[x], s.defs.schema[s.mem.heap[x].def], name, Ref(s.wrappers[id].target))))
  {
    var x := s.wrappers[w].target;
    MessageUpdateTyped(s, x, name, f, Ref(s.wrappers[id].target));
    var o := s.mem.heap[x];
    StoreInv(s, w, WithField(o, s.defs.schema[o.def], name, Ref(s.wrappers[id].target)), id);
  }

  /** The definition comparison always uses a wrapper of the field's own sub-definition. */
  lemma ComparisonInv(s: State, w: LuaId, f: FieldDef, d: LuaId)
    requires Inv(s) && IsMsg(s, w) && IdFree(s, d)
    requires FieldOk(s.defs.schema, DefOf(s, w), f) && f.sub.Some?
    ensures var (ds, e) := PushSub(s.defs, s.wrappers[w].msgdef.value, f.sub.value, d);
      && Inv(s.(defs := ds)) && ds.schema == s.defs.schema
      && e in ds.wrappers && ds.wrappers[e].def == f.sub.value
  {
    var parent := s.wrappers[w].msgdef.value;
    assert LuaDefs.WrapperOk(s.defs, parent);
    PushDefInv(s, s.defs.wrappers[parent].pool, f.sub.value, d);
  }

  lemma AssignObjectInv(s: State, w: LuaId, name: string, f: FieldDef, v: LuaVal, fr: Fresh)
    requires Inv(s) && IsMsg(s, w) && CanPass(s, v) && FreshOk(s, fr)
    requires IsField(s, w, name, f) && IsWrapped(f)
    ensures Inv(AssignObject(s, w, name, f, v, fr).0)
  {
    if v.ObjL? && v.id in s.wrappers && KindFits(f, s.wrappers[v.id].kind) {
      ResolvedField(s, w, name);
      if f.ctype == MessageC {
        ComparisonInv(s, w, f, fr.d);
        var (ds, d) := PushSub(s.defs, s.wrappers[w].msgdef.value, f.sub.value, fr.d);
        var s1 := s.(defs := ds);
        if s.wrappers[v.id].msgdef == Some(d) {
          ComparedFits(s1, f, v.id, Some(d));
          LinkFieldInv(s1, w, name, f, v.id);
        }
      } else {
        ComparedFits(s, f, v.id, s.wrappers[v.id].msgdef);
        LinkFieldInv(s, w, name, f, v.id);
      }
    }
  }

  lemma ScalarFieldInv(s: State, w: LuaId, name: string, f: FieldDef, val: Value)
    requires Inv(s) && IsField(s, w, name, f) && !IsWrapped(f) && !val.Ref?
    ensures var x := s.wrappers[w].target;
      Inv(Write(s, x, WithField(s.mem.heap[x], s.defs.schema[DefOf(s, w)], name, val)))
  {
    ResolvedField(s, w, name);
    var x := s.wrappers[w].target;
    MessageUpdateTyped(s, x, name, f, val);
    PlainWriteInv(s, x, WithField(s.mem.heap[x], s.defs.schema[DefOf(s, w)], name, val));
  }

  lemma MsgNewindexInv(s: State, w: LuaId, name: string, v: LuaVal, fr: Fresh)
    requires Inv(s) && IsMsg(s, w) && CanPass(s, v) && FreshOk(s, fr)
    ensures Inv(MsgNewindexResult(s, w, name, v, fr).0)
  {
    var def := s.defs.schema[DefOf(s, w)];
    if name in def {
      var f := def[name];
      if IsWrapped(f) {
        AssignObjectInv(s, w, name, f, v, fr);
      } else {
        var val := Convert(f.ctype, v);
        if val.Some? {
          ScalarFieldInv(s, w, name, f, val.value);
        }
      }
    }
  }

  /** Reading an unset repeated or map field links an empty container of the field's type. */
  lemma NewContainerInv(s: State, w: LuaId, name: string, f: FieldDef, x': Addr)
    requires Inv(s) && IsField(s, w, name, f) && f.shape != Single && x' !in s.mem.heap
    ensures var x := s.wrappers[w].target;
      var s1 := s.(mem := Alloc(s.mem, s.arenas[s.wrappers[w].arena], x', EmptyContainer(f)));
      Inv(Write(s1, x, WithField(s.mem.heap[x], s.defs.schema[DefOf(s, w)], name, Ref(x'))))
  {
    ResolvedField(s, w, name);
    assert Sound(s, s.wrappers[w]);
    var x := s.wrappers[w].target;
    var a := s.arenas[s.wrappers[w].arena];
    var s1 := s.(mem := Alloc(s.mem, a, x', EmptyContainer(f)));
    AllocateInv(s, a, x', EmptyContainer(f));
    MessageUpdateTyped(s1, x, name, f, Ref(x'));
    assert LiesWith(s1.mem, x', a);
    WriteInv(s1, x, WithField(s.mem.heap[x], s.defs.schema[DefOf(s, w)], name, Ref(x')));
  }

  /** The pointer found in or put into the field is a typed link of the message. */
  lemma MutableTyped(s: State, w: LuaId, name: string, f: FieldDef, fr: Fresh)
    requires WrappersSound(s) && GraphTyped(s.mem.heap, s.defs.schema)
    requires IsField(s, w, name, f) && IsWrapped(f) && fr.x !in s.mem.heap
    ensures var (s', p) := Mutable(s, w, name, f, fr);
      p.Some? ==> FieldTyped(s'.mem.heap, f, Ref(p.value)) && s.wrappers[w].target in s'.mem.heap
                  && s'.mem.heap[s.wrappers[w].target].Holds(Ref(p.value))
  {
    var o := s.mem.heap[s.wrappers[w].target];
    assert Sound(s, s.wrappers[w]) && ObjTyped(s.mem.heap, s.defs.schema, o);
    if name in o.fields && o.fields[name].Ref? {
      assert o.fields[name] in o.fields.Values;
    } else {
      var o' := WithField(o, s.defs.schema[DefOf(s, w)], name, Ref(fr.x));
      assert o'.fields[name] in o'.fields.Values;
    }
  }

  lemma MutableInv(s: State, w: LuaId, name: string, f: FieldDef, fr: Fresh)
    requires Inv(s) && IsField(s, w, name, f) && IsWrapped(f) && fr.x !in s.mem.heap
    ensures Inv(Mutable(s, w, name, f, fr).0)
  {
    if f.shape != Single { NewContainerInv(s, w, name, f, fr.x); }
  }

  /** Wrapping a field's object fills the definition slot exactly when the field holds messages. */
  lemma WrapFieldInv(s: State, w: LuaId, f: FieldDef, x: Addr, fr: Fresh)
    requires Inv(s) && IsMsg(s, w) && FreshIds(s, fr) && x !in s.cache
    requires FieldOk(s.defs.schema, DefOf(s, w), f) && IsWrapped(f)
    requires FieldTyped(s.mem.heap, f, Ref(x)) && s.mem.heap[s.wrappers[w].target].Holds(Ref(x))
    ensures Inv(WrapField(s, w, f, x, fr))
  {
    FieldAnchored(s, w, x);
    if f.ctype == MessageC {
      WrapMessageFieldInv(s, w, f, x, fr);
    } else {
      WrapSlotInv(s, w, f, x, None, fr);
    }
  }

  lemma WrapMessageFieldInv(s: State, w: LuaId, f: FieldDef, x: Addr, fr: Fresh)
    requires Inv(s) && IsMsg(s, w) && FreshIds(s, fr) && x !in s.cache
    requires FieldOk(s.defs.schema, DefOf(s, w), f) && f.ctype == MessageC && f.sub.Some?
    requires s.wrappers[w].arena in s.arenas && s.wrappers[w].arena !in s.doomed
    requires LiesWith(s.mem, x, s.arenas[s.wrappers[w].arena]) && FieldTyped(s.mem.heap, f, Ref(x))
    ensures var (ds, d) := PushSub(s.defs, s.wrappers[w].msgdef.value, f.sub.value, fr.d);
      Inv(AddWrapper(s.(defs := ds), fr.w, Wrapper(KindOf(f), x, s.wrappers[w].arena, Some(d))))
  {
    ComparisonInv(s, w, f, fr.d);
    var (ds, d) := PushSub(s.defs, s.wrappers[w].msgdef.value, f.sub.value, fr.d);
    WrapSlotInv(s.(defs := ds), w, f, x, Some(d), fr);
  }

  lemma WrapSlotInv(s: State, w: LuaId, f: FieldDef, x: Addr, slot: Option<LuaId>, fr: Fresh)
    requires Inv(s) && w in s.wrappers && IdFree(s, fr.w) && x !in s.cache && IsWrapped(f)
    requires s.wrappers[w].arena in s.arenas && s.wrappers[w].arena !in s.doomed
    requires LiesWith(s.mem, x, s.arenas[s.wrappers[w].arena])
    requires FieldTyped(s.mem.heap, f, Ref(x)) && SlotAgrees(s, slot, f.sub)
    ensures Inv(AddWrapper(s, fr.w, Wrapper(KindOf(f), x, s.wrappers[w].arena, slot)))
  {
    FieldWrapperSound(s, w, f, x, slot);
    AddWrapperInv(s, fr.w, Wrapper(KindOf(f), x, s.wrappers[w].arena, slot));
  }

  lemma FieldAnchored(s: State, w: LuaId, x: Addr)
    requires MemInv(s.mem) && WrappersSound(s) && w in s.wrappers && s.wrappers[w].target in s.mem.heap
    requires s.mem.heap[s.wrappers[w].target].Holds(Ref(x))
    ensures s.wrappers[w].arena in s.arenas && s.wrappers[w].arena !in s.doomed
    ensures LiesWith(s.mem, x, s.arenas[s.wrappers[w].arena])
  {
    assert Sound(s, s.wrappers[w]);
    assert GroupOf(s.mem, s.wrappers[w].target) == GroupOf(s.mem, x);
  }

  lemma FieldWrapperSound(s: State, w: LuaId, f: FieldDef, x: Addr, slot: Option<LuaId>)
    requires w in s.wrappers && s.wrappers[w].arena in s.arenas && s.wrappers[w].arena !in s.doomed
    requires LiesWith(s.mem, x, s.arenas[s.wrappers[w].arena])
    requires FieldTyped(s.mem.heap, f, Ref(x)) && SlotAgrees(s, slot, f.sub)
    requires IsWrapped(f)
    ensures Sound(s, Wrapper(KindOf(f), x, s.wrappers[w].arena, slot))
  {
  }

  /** The cached wrapper is held again, or a new one is made. */
  lemma FetchInv(s: State, w: LuaId, f: FieldDef, x: Addr, fr: Fresh)
    requires Inv(s) && IsMsg(s, w) && FreshIds(s, fr) && FieldOk(s.defs.schema, DefOf(s, w), f) && IsWrapped(f)
    requires FieldTyped(s.mem.heap, f, Ref(x)) && s.mem.heap[s.wrappers[w].target].Holds(Ref(x))
    ensures x in s.cache ==> Inv(Hold(s, s.cache[x]))
    ensures x !in s.cache ==> Inv(WrapField(s, w, f, x, fr))
  {
    if x in s.cache {
      HoldInv(s, s.roots + {s.cache[x]});
    } else {
      WrapFieldInv(s, w, f, x, fr);
    }
  }

  lemma WrappedIndexInv(s: State, w: LuaId, name: string, f: FieldDef, fr: Fresh)
    requires Inv(s) && IsField(s, w, name, f) && IsWrapped(f) && FreshOk(s, fr)
    ensures var (s1, p) := Mutable(s, w, name, f, fr);
      if p.None? then Inv(s1)
      else if p.value in s1.cache then Inv(Hold(s1, s1.cache[p.value]))
      else IsMsg(s1, w) && Inv(WrapField(s1, w, f, p.value, fr))
  {
    ResolvedField(s, w, name);
    MutableInv(s, w, name, f, fr);
    MutableTyped(s, w, name, f, fr);
    var (s1, p) := Mutable(s, w, name, f, fr);
    if p.Some? {
      FetchInv(s1, w, f, p.value, fr);
    }
  }

  lemma MsgIndexInv(s: State, w: LuaId, name: string, fr: Fresh)
    requires Inv(s) && IsMsg(s, w) && FreshOk(s, fr)
    ensures Inv(MsgIndexResult(s, w, name, fr).0)
  {
    var def := s.defs.schema[DefOf(s, w)];
    if name in def && IsWrapped(def[name]) {
      WrappedIndexInv(s, w, name, def[name], fr);
    }
  }

  lemma NewArrayInv(s: State, elem: ElemSpec, fr: Fresh)
    requires Inv(s) && FreshOk(s, fr) && (elem.OfDef? ==> IsClass(s, elem.d))
    ensures Inv(NewArrayResult(s, elem, fr).0)
  {
    match elem
    case OfType(t) => NewObjectInv(s, ArrW(t), Arr(t, None, []), map[], fr);
    case OfDef(d) =>
      NewObjectInv(s, ArrW(MessageC), Arr(MessageC, Some(s.defs.wrappers[d].def), []), map[LUPB_MSGDEF_INDEX := d], fr);
  }

  lemma {:induction false} StoreEntriesInv(s: State, w: LuaId, entries: seq<Entry>)
    requires Inv(s) && IsArray(s, w) && CanPassAll(s, entries)
    ensures Inv(StoreEntries(s, w, entries).0)
    decreases |entries|
  {
    if entries != [] {
      assert entries[0] in entries;
      var (s1, r) := ArrayNewindexResult(s, w, entries[0].key, entries[0].val);
      ArrayNewindexInv(s, w, entries[0].key, entries[0].val);
      if r == Raise {
        HoldInv(s1, s1.roots - {w});
      } else {
        ArrayStoreKeepsAll(s, w, entries);
        StoreEntriesInv(s1, w, entries[1..]);
      }
    }
  }

  lemma NewArrayFromInv(s: State, elem: ElemSpec, entries: seq<Entry>, fr: Fresh)
    requires Inv(s) && FreshOk(s, fr) && (elem.OfDef? ==> IsClass(s, elem.d)) && CanPassAll(s, entries)
    ensures Unused(s, fr) && Inv(NewArrayFromResult(s, elem, entries, fr).0)
  {
    NewArrayInv(s, elem, fr);
    NewArrayUsable(s, elem, fr, entries);
    StoreEntriesInv(NewArrayResult(s, elem, fr).0, fr.w, entries);
  }

  lemma NewMapInv(s: State, keyType: CType, elem: ElemSpec, fr: Fresh)
    requires Inv(s) && FreshOk(s, fr)
    ensures Inv(NewMapResult(s, keyType, elem, fr).0)
  {
    var t := if elem.OfType? then elem.t else MessageC;
    var slots := if elem.OfDef? then map[MAP_MSGDEF_INDEX := elem.d] else map[];
    NewObjectInv(s, MapW(keyType, t), Map(keyType, t, None, map[]), slots, fr);
  }

  lemma NewMessageInv(s: State, d: LuaId, fr: Fresh)
    requires Inv(s) && FreshOk(s, fr) && IsClass(s, d)
    ensures Inv(NewMessageResult(s, d, fr).0)
  {
    assert LuaDefs.WrapperOk(s.defs, d);
    NewObjectInv(s, MsgW, Msg(s.defs.wrappers[d].def, map[]), map[LUPB_MSGDEF_INDEX := d], fr);
  }

  lemma DecodeInv(s: State, d: LuaId, objs: map<Addr, UpbObj>, ok: bool, fr: Fresh)
    requires Inv(s) && FreshOk(s, fr) && IsClass(s, d) && ParsedOk(s, s.defs.wrappers[d].def, objs, fr.x)
    ensures Inv(DecodeResult(s, d, objs, ok, fr).0)
  {
    UnallocatedUncached(s, fr.x);
    PushArenaInv(s, fr.l, fr.a);
    var s1 := PushArena(s, fr.l, fr.a);
    ParseInv(s1, fr.a, objs);
    var s2 := s1.(mem := AllocAll(s1.mem, fr.a, objs));
    var wr := Wrapper(MsgW, fr.x, fr.l, Some(d));
    assert Sound(s2, wr);
    AddWrapperInv(s2, fr.w, wr);
    HoldInv(AddWrapper(s2, fr.w, wr), s.roots);
  }

  // ---------- garbage collection ----------

  lemma CollectCache(cache: map<Addr, LuaId>, wrappers: map<LuaId, Wrapper>, dead: set<LuaId>)
    requires CacheExact(cache, wrappers)
    ensures CacheExact(LiveEntries(cache, dead), wrappers - dead)
  {
  }

  lemma CollectSound(s: State, dead: set<LuaId>)
    requires WrappersSound(s) && Unreachable(s, dead)
    ensures WrappersSound(CollectResult(s, dead))
  {
    var s' := CollectResult(s, dead);
    forall w | w in s'.wrappers ensures Sound(s', s'.wrappers[w]) {
      assert Sound(s, s.wrappers[w]);
    }
  }

  /** Clearing the weak entries with the collection keeps the cache exact. */
  lemma CollectInv(s: State, dead: set<LuaId>)
    requires Inv(s) && Unreachable(s, dead)
    ensures Inv(CollectResult(s, dead))
  {
    CollectDefsInv(s.defs, dead);
    CollectCache(s.cache, s.wrappers, dead);
    CollectSound(s, dead);
  }

  /** A live wrapper's own arena keeps its group when another arena is freed. */
  lemma ArenaGcSound(s: State, l: LuaId)
    requires WrappersSound(s) && MemInv(s.mem) && ArenasOwned(s.mem.unfreed, s.arenas)
    requires l in s.doomed && l in s.arenas
    ensures WrappersSound(ArenaGcResult(s, l))
  {
    var s' := ArenaGcResult(s, l);
    forall w | w in s'.wrappers ensures Sound(s', s'.wrappers[w]) {
      var wr := s.wrappers[w];
      assert Sound(s, wr);
      assert s.arenas[wr.arena] in s.mem.unfreed - {s.arenas[l]};
      FreeArenaExact(s.mem, s.arenas[l], wr.target);
      assert Survives(s.mem, s.arenas[l], GroupOf(s.mem, wr.target));
    }
  }

  lemma ArenaGcTyped(m: Memory, schema: map<DefId, MessageDef>, a: ArenaId)
    requires MemInv(m) && GraphTyped(m.heap, schema) && a in m.unfreed
    ensures GraphTyped(FreeArena(m, a).heap, schema)
  {
    var m' := FreeArena(m, a);
    FreeArenaInv(m, a);
    forall x | x in m'.heap ensures ObjTyped(m'.heap, schema, m'.heap[x]) {
      TypedTransfers(m.heap, m'.heap, schema, schema, m.heap[x]);
    }
  }

  lemma ArenaGcOwned(unfreed: set<ArenaId>, arenas: map<LuaId, ArenaId>, l: LuaId)
    requires ArenasOwned(unfreed, arenas) && l in arenas
    ensures ArenasOwned(unfreed - {arenas[l]}, arenas - {l})
  {
    forall a | a in unfreed - {arenas[l]} ensures Owned(arenas - {l}, a) {
      assert Owned(arenas, a);
      var k :| k in arenas && arenas[k] == a;
      assert k in arenas - {l};
    }
  }

  lemma ArenaGcInv(s: State, l: LuaId)
    requires Inv(s) && l in s.doomed && l in s.arenas
    ensures Inv(ArenaGcResult(s, l))
  {
    FreeArenaInv(s.mem, s.arenas[l]);
    ArenaGcSound(s, l);
    ArenaGcTyped(s.mem, s.defs.schema, s.arenas[l]);
    ArenaGcOwned(s.mem.unfreed, s.arenas, l);
  }

  lemma PoolGcSound(s: State, p: LuaId)
    requires WrappersSound(s)
    ensures WrappersSound(s.(defs := FreePool(s.defs, p), doomed := s.doomed - {p}))
  {
    var s' := s.(defs := FreePool(s.defs, p), doomed := s.doomed - {p});
    forall w | w in s'.wrappers ensures Sound(s', s'.wrappers[w]) {
      assert Sound(s, s.wrappers[w]);
    }
  }

  lemma PoolGcInv(s: State, p: LuaId)
    requires Inv(s) && p in s.doomed && p in s.defs.pools
    ensures Inv(s.(defs := FreePool(s.defs, p), doomed := s.doomed - {p}))
  {
    FreePoolInv(s.defs, p);
    PoolGcSound(s, p);
  }
}
