/** The guarantees of the Lua binding over whole runs. */
module LuaSafety {
  import opened Options
  import opened Arenas
  import opened UpbMemory
  import opened LuaDefs
  import opened LuaGraph
  import opened LuaInvariant

  // ---------- runs ----------

  datatype Step = Step(op: Op, fr: Fresh)

  /** Any interleaving of program operations and collector steps. */
  ghost predicate RunOk(s: State, steps: seq<Step>)
    decreases |steps|
  {
    steps == [] ||
    (Enabled(s, steps[0].op, steps[0].fr) && RunOk(Exec(s, steps[0].op, steps[0].fr).0, steps[1..]))
  }

  ghost function Final(s: State, steps: seq<Step>): State
    requires RunOk(s, steps)
    decreases |steps|
  {
    if steps == [] then s else Final(Exec(s, steps[0].op, steps[0].fr).0, steps[1..])
  }

  lemma DefStepsInv(s: State, op: Op, fr: Fresh)
    requires Inv(s) && Enabled(s, op, fr) && (op.DefPoolNew? || op.AddFile? || op.LookupMsg?)
    ensures Inv(Exec(s, op, fr).0)
  {
    match op
    case DefPoolNew(pool) => PoolStepInv(s, pool, fr);
    case AddFile(p, added) => FileStepInv(s, p, added, fr);
    case LookupMsg(p, def) => LookupStepInv(s, p, def, fr);
  }

  lemma LookupStepInv(s: State, p: LuaId, def: DefId, fr: Fresh)
    requires Inv(s) && Enabled(s, LookupMsg(p, def), fr)
    ensures Inv(Exec(s, LookupMsg(p, def), fr).0)
  {
    if def in s.defs.schema {
      PushDefInv(s, p, def, fr.d);
      var (defs', d) := PushWrapper(s.defs, p, def, fr.d);
      HoldInv(s.(defs := defs'), s.roots + {d});
    }
  }

  lemma PoolStepInv(s: State, pool: nat, fr: Fresh)
    requires Inv(s) && Enabled(s, DefPoolNew(pool), fr)
    ensures Inv(Exec(s, DefPoolNew(pool), fr).0)
  {
    NewPoolInv(s.defs, fr.d, pool);
    NewPoolKeeps(s, fr.d, pool);
    HoldInv(s.(defs := LuaDefs.NewPool(s.defs, fr.d, pool)), s.roots + {fr.d});
  }

  lemma FileStepInv(s: State, p: LuaId, added: map<DefId, MessageDef>, fr: Fresh)
    requires Inv(s) && Enabled(s, AddFile(p, added), fr)
    ensures Inv(Exec(s, AddFile(p, added), fr).0)
  {
    AddDefsInv(s.defs, s.defs.pools[p].pool, added);
    DefsGrowInv(s, AddDefs(s.defs, added));
  }

  lemma NewPoolKeeps(s: State, p: LuaId, pool: nat)
    requires Inv(s) && IdFree(s, p) && DefsInv(LuaDefs.NewPool(s.defs, p, pool))
    ensures Inv(s.(defs := LuaDefs.NewPool(s.defs, p, pool)))
  {
    var defs' := LuaDefs.NewPool(s.defs, p, pool);
    DefsGrowTyped(s, defs');
    DefsGrowSound(s, defs');
  }

  lemma ArrayIndexInv(s: State, w: LuaId, key: LuaVal, fr: Fresh)
    requires Inv(s) && IsArray(s, w) && IdFree(s, fr.w)
    ensures Inv(ArrayIndexResult(s, w, key, fr).0)
  {
    assert Sound(s, s.wrappers[w]);
    var items := s.mem.heap[s.wrappers[w].target].items;
    var n := CheckIndex(key, |items|);
    if n.Some? { PushValueInv(s, w, items[n.value], fr.w); }
  }

  lemma MapIndexInv(s: State, w: LuaId, key: LuaVal, fr: Fresh)
    requires Inv(s) && IsMap(s, w) && IdFree(s, fr.w)
    ensures Inv(MapIndexResult(s, w, key, fr).0)
  {
    assert Sound(s, s.wrappers[w]);
    var entries := s.mem.heap[s.wrappers[w].target].entries;
    var k := ToMsgVal(s, s.wrappers[w].kind.keyType, key, w);
    if k.Some? && k.value in entries {
      assert entries[k.value] in entries.Values;
      PushValueInv(s, w, entries[k.value], fr.w);
    }
  }

  lemma ContainerReadInv(s: State, op: Op, fr: Fresh)
    requires Inv(s) && Enabled(s, op, fr) && (op.ArrayIndex? || op.MapIndex?)
    ensures Inv(Exec(s, op, fr).0)
  {
    match op
    case ArrayIndex(w, key) => ArrayIndexInv(s, w, key, fr);
    case MapIndex(w, key) => MapIndexInv(s, w, key, fr);
  }

  lemma NewStepInv(s: State, op: Op, fr: Fresh)
    requires Inv(s) && Enabled(s, op, fr) && (op.NewMessage? || op.Decode? || op.NewArray? || op.NewMap?)
    ensures Inv(Exec(s, op, fr).0)
  {
    match op
    case NewMessage(d) => NewMessageInv(s, d, fr);
    case Decode(d, objs, ok) => DecodeInv(s, d, objs, ok, fr);
    case NewArray(elem) => NewArrayInv(s, elem, fr);
    case NewMap(k, elem) => NewMapInv(s, k, elem, fr);
  }

  lemma StoreStepInv(s: State, op: Op, fr: Fresh)
    requires Inv(s) && Enabled(s, op, fr)
    requires op.ArrayNewindex? || op.MapNewindex? || op.MsgIndex? || op.MsgNewindex?
    ensures Inv(Exec(s, op, fr).0)
  {
    match op
    case ArrayNewindex(w, key, v) => ArrayNewindexInv(s, w, key, v);
    case MapNewindex(w, key, v) => MapNewindexInv(s, w, key, v);
    case MsgIndex(w, name) => MsgIndexInv(s, w, name, fr);
    case MsgNewindex(w, name, v) => MsgNewindexInv(s, w, name, v, fr);
  }

  lemma GcStepInv(s: State, op: Op, fr: Fresh)
    requires Inv(s) && Enabled(s, op, fr) && (op.Drop? || op.Collect? || op.ArenaGc? || op.PoolGc?)
    ensures Inv(Exec(s, op, fr).0)
  {
    match op
    case Drop(id) => HoldInv(s, s.roots - {id});
    case Collect(dead) => CollectInv(s, dead);
    case ArenaGc(l) => ArenaGcInv(s, l);
    case PoolGc(p) => PoolGcInv(s, p);
  }

  /** Every step keeps the invariant. */
  lemma StepInv(s: State, op: Op, fr: Fresh)
    requires Inv(s) && Enabled(s, op, fr)
    ensures Inv(Exec(s, op, fr).0)
  {
    if op.DefPoolNew? || op.AddFile? || op.LookupMsg? {
      DefStepsInv(s, op, fr);
    } else if op.NewMessage? || op.Decode? || op.NewArray? || op.NewMap? {
      NewStepInv(s, op, fr);
    } else if op.ArrayIndex? || op.MapIndex? {
      ContainerReadInv(s, op, fr);
    } else if op.ArrayNewindex? || op.MapNewindex? || op.MsgIndex? || op.MsgNewindex? {
      StoreStepInv(s, op, fr);
    } else {
      GcStepInv(s, op, fr);
    }
  }

  lemma {:induction false} RunInv(s: State, steps: seq<Step>)
    requires Inv(s) && RunOk(s, steps)
    ensures Inv(Final(s, steps))
    decreases |steps|
  {
    if steps != [] {
      StepInv(s, steps[0].op, steps[0].fr);
      RunInv(Exec(s, steps[0].op, steps[0].fr).0, steps[1..]);
    }
  }

  /** Every state of every run that starts with no Lua objects satisfies the invariant. */
  lemma EveryRunKeepsInv(steps: seq<Step>)
    requires RunOk(START, steps)
    ensures Inv(Final(START, steps))
  {
    RunInv(START, steps);
  }

  /** Nothing the program holds is ever unusable: the conditions of the operations say no more than
      that the program holds an object of the right kind. */
  lemma HeldIsUsable(s: State, id: LuaId)
    requires Inv(s) && id in s.roots
    ensures id in s.wrappers && s.wrappers[id].kind == MsgW ==> IsMsg(s, id)
    ensures id in s.wrappers && s.wrappers[id].kind.ArrW? ==> IsArray(s, id)
    ensures id in s.wrappers && s.wrappers[id].kind.MapW? ==> IsMap(s, id)
    ensures CanPass(s, ObjL(id))
  {
    if id in s.wrappers {
      assert Sound(s, s.wrappers[id]);
      assert ObjTyped(s.mem.heap, s.defs.schema, s.mem.heap[s.wrappers[id].target]);
      if s.wrappers[id].kind == MsgW {
        assert LuaDefs.WrapperOk(s.defs, s.wrappers[id].msgdef.value);
      }
    }
  }

  /** Whatever awaits finalization can be finalized, in any order. */
  lemma FinalizersNeverFail(s: State, id: LuaId, fr: Fresh)
    requires Inv(s) && FreshOk(s, fr) && id in s.doomed
    ensures if id in s.arenas then Enabled(s, ArenaGc(id), fr) else Enabled(s, PoolGc(id), fr)
  {
  }

  // ---------- memory safety ----------

  /** y is reached from x by following links. */
  ghost predicate Path(heap: map<Addr, UpbObj>, x: Addr, path: seq<Addr>, y: Addr)
    decreases |path|
  {
    if path == [] then x == y
    else x in heap && heap[x].Holds(Ref(path[0])) && Path(heap, path[0], path[1..], y)
  }

  lemma {:induction false} PathStaysInGroup(m: Memory, x: Addr, path: seq<Addr>, y: Addr, a: ArenaId)
    requires MemInv(m) && LiesWith(m, x, a) && Path(m.heap, x, path, y)
    ensures LiesWith(m, y, a)
    decreases |path|
  {
    if path != [] {
      assert GroupOf(m, x) == GroupOf(m, path[0]);
      PathStaysInGroup(m, path[0], path[1..], y, a);
    }
  }

  /** In every state of every run, whatever is reachable from a live wrapper is allocated, in the
      group of an unfreed arena that the wrapper itself references. */
  lemma ReachableIsAlive(steps: seq<Step>, w: LuaId, path: seq<Addr>, y: Addr)
    requires RunOk(START, steps) && w in Final(START, steps).wrappers
    requires Path(Final(START, steps).mem.heap, Final(START, steps).wrappers[w].target, path, y)
    ensures var s := Final(START, steps);
      var l := s.wrappers[w].arena;
      y in s.mem.heap && l in s.arenas && s.arenas[l] in s.mem.unfreed && LiesWith(s.mem, y, s.arenas[l])
  {
    EveryRunKeepsInv(steps);
    var s := Final(START, steps);
    assert Sound(s, s.wrappers[w]);
    PathStaysInGroup(s.mem, s.wrappers[w].target, path, y, s.arenas[s.wrappers[w].arena]);
  }

  ghost predicate IsCollectorStep(op: Op) {
    op.Drop? || op.Collect? || op.ArenaGc? || op.PoolGc?
  }

  ghost predicate CollectorEnabled(s: State, op: Op) {
    match op
    case Drop(_) => true
    case Collect(dead) => Unreachable(s, dead)
    case ArenaGc(l) => l in s.doomed && l in s.arenas && s.arenas[l] in s.mem.unfreed && Housed(s.mem)
    case PoolGc(p) => p in s.doomed && p in s.defs.pools
    case _ => false
  }

  /** What a collector step or a dropped reference leads to; nothing fresh is needed. */
  ghost function CollectorNext(s: State, op: Op): State
    requires CollectorEnabled(s, op)
  {
    match op
    case Drop(id) => s.(roots := s.roots - {id})
    case Collect(dead) => CollectResult(s, dead)
    case ArenaGc(l) => ArenaGcResult(s, l)
    case PoolGc(p) => s.(defs := FreePool(s.defs, p), doomed := s.doomed - {p})
  }

  lemma CollectorSteps(s: State, op: Op, fr: Fresh)
    requires Enabled(s, op, fr) && IsCollectorStep(op)
    ensures CollectorEnabled(s, op) && Exec(s, op, fr).0 == CollectorNext(s, op)
  {
  }

  /** Wrapper w and object y are in both states, the same. */
  ghost predicate Keeps(s: State, s': State, w: LuaId, y: Addr) {
    && w in s.wrappers && w in s'.wrappers && s'.wrappers[w] == s.wrappers[w]
    && y in s.mem.heap && y in s'.mem.heap && s'.mem.heap[y] == s.mem.heap[y]
  }

  /** Finalizing one arena leaves the objects in the group of another unfreed one. */
  lemma ArenaGcLeaves(m: Memory, a: ArenaId, b: ArenaId, y: Addr)
    requires MemInv(m) && a in m.unfreed && b in m.unfreed && a != b && LiesWith(m, y, b)
    ensures y in FreeArena(m, a).heap && FreeArena(m, a).heap[y] == m.heap[y]
  {
    assert b in m.unfreed - {a};
    assert Survives(m, a, GroupOf(m, y));
    FreeArenaExact(m, a, y);
  }

  lemma CollectorKeeps(s: State, op: Op, w: LuaId, path: seq<Addr>, y: Addr)
    requires Inv(s) && CollectorEnabled(s, op)
    requires w in s.wrappers && w in CollectorNext(s, op).wrappers && Path(s.mem.heap, s.wrappers[w].target, path, y)
    ensures Keeps(s, CollectorNext(s, op), w, y)
  {
    assert Sound(s, s.wrappers[w]);
    var a := s.arenas[s.wrappers[w].arena];
    PathStaysInGroup(s.mem, s.wrappers[w].target, path, y, a);
    if op.ArenaGc? {
      ArenaGcLeaves(s.mem, s.arenas[op.l], a, y);
    }
  }

  /** No collector step changes anything reachable from a wrapper that survives it. */
  lemma CollectorLeavesReachable(s: State, op: Op, fr: Fresh, w: LuaId, path: seq<Addr>, y: Addr)
    requires Inv(s) && Enabled(s, op, fr) && IsCollectorStep(op)
    requires w in s.wrappers && w in Exec(s, op, fr).0.wrappers
    requires Path(s.mem.heap, s.wrappers[w].target, path, y)
    ensures Keeps(s, Exec(s, op, fr).0, w, y)
  {
    CollectorSteps(s, op, fr);
    CollectorKeeps(s, op, w, path, y);
  }

  lemma {:induction false} PathSurvives(heap: map<Addr, UpbObj>, heap': map<Addr, UpbObj>,
      x: Addr, path: seq<Addr>, y: Addr)
    requires Path(heap, x, path, y)
    requires forall p, z | Path(heap, x, p, z) :: z in heap ==> z in heap' && heap'[z] == heap[z]
    ensures Path(heap', x, path, y)
    decreases |path|
  {
    if path != [] {
      var next := path[0];
      assert Path(heap, x, [], x);
      forall p, z | Path(heap, next, p, z) ensures z in heap ==> z in heap' && heap'[z] == heap[z] {
        assert ([next] + p)[1..] == p;
        assert Path(heap, x, [next] + p, z);
      }
      PathSurvives(heap, heap', next, path[1..], y);
    }
  }

  lemma CollectorLeavesPath(s: State, op: Op, w: LuaId, path: seq<Addr>, y: Addr)
    requires Inv(s) && CollectorEnabled(s, op)
    requires w in s.wrappers && w in CollectorNext(s, op).wrappers && Path(s.mem.heap, s.wrappers[w].target, path, y)
    ensures Path(CollectorNext(s, op).mem.heap, s.wrappers[w].target, path, y)
  {
    var x := s.wrappers[w].target;
    var heap' := CollectorNext(s, op).mem.heap;
    forall p, z | Path(s.mem.heap, x, p, z) ensures z in heap' && z in s.mem.heap && heap'[z] == s.mem.heap[z] {
      CollectorKeeps(s, op, w, p, z);
    }
    PathSurvives(s.mem.heap, heap', x, path, y);
  }

  lemma CollectorDropsWrappers(s: State, op: Op, w: LuaId)
    requires CollectorEnabled(s, op) && w in CollectorNext(s, op).wrappers
    ensures w in s.wrappers
  {
  }

  lemma {:induction false} WrappersOnlyGo(s: State, steps: seq<Step>, w: LuaId)
    requires RunOk(s, steps) && (forall st | st in steps :: IsCollectorStep(st.op)) && w in Final(s, steps).wrappers
    ensures w in s.wrappers
    decreases |steps|
  {
    if steps != [] {
      assert steps[0] in steps && forall st | st in steps[1..] :: st in steps;
      CollectorSteps(s, steps[0].op, steps[0].fr);
      WrappersOnlyGo(CollectorNext(s, steps[0].op), steps[1..], w);
      CollectorDropsWrappers(s, steps[0].op, w);
    }
  }

  lemma ReachedIsKept(s: State, w: LuaId, path: seq<Addr>, y: Addr)
    requires Inv(s) && w in s.wrappers && Path(s.mem.heap, s.wrappers[w].target, path, y)
    ensures Keeps(s, s, w, y)
  {
    assert Sound(s, s.wrappers[w]);
    PathStaysInGroup(s.mem, s.wrappers[w].target, path, y, s.arenas[s.wrappers[w].arena]);
  }

  /** Nor does any sequence of dropped references, collections and finalizers, in any order. */
  lemma {:induction false} CollectorRunsLeaveReachable(s: State, steps: seq<Step>, w: LuaId, path: seq<Addr>, y: Addr)
    requires Inv(s) && RunOk(s, steps) && forall st | st in steps :: IsCollectorStep(st.op)
    requires w in s.wrappers && w in Final(s, steps).wrappers && Path(s.mem.heap, s.wrappers[w].target, path, y)
    ensures Keeps(s, Final(s, steps), w, y)
    decreases |steps|
  {
    if steps == [] {
      ReachedIsKept(s, w, path, y);
    } else {
      var op := steps[0].op;
      assert steps[0] in steps && forall st | st in steps[1..] :: st in steps;
      CollectorSteps(s, op, steps[0].fr);
      StepInv(s, op, steps[0].fr);
      WrappersOnlyGo(CollectorNext(s, op), steps[1..], w);
      CollectorKeeps(s, op, w, path, y);
      CollectorLeavesPath(s, op, w, path, y);
      CollectorRunsLeaveReachable(CollectorNext(s, op), steps[1..], w, path, y);
    }
  }

  /** s1 is the state after the object behind wrapper id was assigned to field name of wrapper w. */
  ghost predicate Assigned(s: State, w: LuaId, name: string, f: FieldDef, id: LuaId, fr: Fresh, s1: State) {
    && IsField(s, w, name, f) && IsWrapped(f) && id in s.wrappers && CanPass(s, ObjL(id)) && FreshOk(s, fr)
    && MsgNewindexResult(s, w, name, ObjL(id), fr) == (s1, Done(ObjL(id)))
  }

  lemma AssignedInv(s: State, w: LuaId, name: string, f: FieldDef, id: LuaId, fr: Fresh, s1: State)
    requires Inv(s) && Assigned(s, w, name, f, id, fr, s1)
    ensures Inv(s1)
  {
    MsgNewindexInv(s, w, name, ObjL(id), fr);
  }

  /** Object x has a field that leads to y. */
  ghost predicate FieldLeadsTo(heap: map<Addr, UpbObj>, x: Addr, name: string, y: Addr) {
    x in heap && heap[x].Msg? && name in heap[x].fields && heap[x].fields[name] == Ref(y)
  }

  lemma AssignedLinks(s: State, w: LuaId, name: string, f: FieldDef, id: LuaId, fr: Fresh, s1: State)
    requires Assigned(s, w, name, f, id, fr, s1)
    ensures w in s1.wrappers && s1.wrappers[w] == s.wrappers[w]
    ensures FieldLeadsTo(s1.mem.heap, s.wrappers[w].target, name, s.wrappers[id].target)
  {
    AssignEffect(s, w, name, f, ObjL(id), fr);
  }

  lemma FieldIsPath(heap: map<Addr, UpbObj>, x: Addr, name: string, y: Addr)
    requires FieldLeadsTo(heap, x, name, y)
    ensures Path(heap, x, [], x) && Path(heap, x, [y], y)
  {
    assert heap[x].Holds(Ref(y)) by { assert heap[x].fields[name] == Ref(y); }
    assert [y][1..] == [] && Path(heap, y, [], y);
  }

  /** An object assigned to a field outlives its own wrapper and its own arena userdata for as long as
      the wrapper of the message that holds it lives: whatever is dropped, collected and finalized in
      the meantime, the field still leads to it and it is as it was. */
  lemma AssignedOutlivesItsWrapper(s: State, w: LuaId, name: string, f: FieldDef, id: LuaId, fr: Fresh,
      s1: State, steps: seq<Step>)
    requires Inv(s) && Assigned(s, w, name, f, id, fr, s1)
    requires RunOk(s1, steps) && (forall st | st in steps :: IsCollectorStep(st.op)) && w in Final(s1, steps).wrappers
    ensures var s' := Final(s1, steps);
      var x, child := s.wrappers[w].target, s.wrappers[id].target;
      && s'.wrappers[w] == s.wrappers[w] && FieldLeadsTo(s'.mem.heap, x, name, child)
      && child in s1.mem.heap && child in s'.mem.heap && s'.mem.heap[child] == s1.mem.heap[child]
  {
    var x, child := s.wrappers[w].target, s.wrappers[id].target;
    AssignedInv(s, w, name, f, id, fr, s1);
    AssignedLinks(s, w, name, f, id, fr, s1);
    FieldIsPath(s1.mem.heap, x, name, child);
    CollectorRunsLeaveReachable(s1, steps, w, [], x);
    CollectorRunsLeaveReachable(s1, steps, w, [child], child);
  }

  /** Finalizing an arena frees an object exactly when no other arena userdata is in its group. */
  lemma ArenaGcFreesExactly(s: State, l: LuaId, x: Addr)
    requires Inv(s) && l in s.doomed && l in s.arenas && x in s.mem.heap
    ensures x in ArenaGcResult(s, l).mem.heap <==>
      exists k :: k in s.arenas && k != l && LiesWith(s.mem, x, s.arenas[k])
  {
    var a := s.arenas[l];
    FreeArenaExact(s.mem, a, x);
    if Survives(s.mem, a, GroupOf(s.mem, x)) {
      var b :| b in s.mem.unfreed - {a} && s.mem.groups[b] == GroupOf(s.mem, x);
      assert Owned(s.arenas, b);
      var k :| k in s.arenas && s.arenas[k] == b;
      assert LiesWith(s.mem, x, s.arenas[k]);
    }
    if k :| k in s.arenas && k != l && LiesWith(s.mem, x, s.arenas[k]) {
      assert s.arenas[k] in s.mem.unfreed - {a};
    }
  }

  /** Nothing leaks: every allocated object lies in the group of an arena userdata that still
      exists, so once all of them are finalized the heap is empty. */
  lemma NothingLeaks(steps: seq<Step>, x: Addr)
    requires RunOk(START, steps) && x in Final(START, steps).mem.heap
    ensures var s := Final(START, steps); exists l :: l in s.arenas && LiesWith(s.mem, x, s.arenas[l])
  {
    EveryRunKeepsInv(steps);
    var s := Final(START, steps);
    var g := GroupOf(s.mem, x);
    assert GroupAlive(s.mem, s.mem.groups[s.mem.home[x]]);
    var b :| b in s.mem.unfreed && s.mem.groups[b] == g;
    assert Owned(s.arenas, b);
    var l :| l in s.arenas && s.arenas[l] == b;
    assert LiesWith(s.mem, x, s.arenas[l]);
  }

  // ---------- canonical wrappers ----------

  /** At most one live wrapper per object, and none for memory that is not allocated, so an address
      that is reused starts without a wrapper. */
  lemma WrappersAreCanonical(steps: seq<Step>, v: LuaId, w: LuaId, x: Addr)
    requires RunOk(START, steps)
    ensures var s := Final(START, steps);
      && (v in s.wrappers && w in s.wrappers && s.wrappers[v].target == s.wrappers[w].target ==> v == w)
      && (x in s.cache ==> s.cache[x] in s.wrappers && s.wrappers[s.cache[x]].target == x)
      && (x !in s.mem.heap ==> x !in s.cache && (w in s.wrappers ==> s.wrappers[w].target != x))
  {
    EveryRunKeepsInv(steps);
    var s := Final(START, steps);
    assert w in s.wrappers ==> Sound(s, s.wrappers[w]);
    assert x in s.cache ==> Sound(s, s.wrappers[s.cache[x]]);
  }

  /** What a successful object assignment changes. */
  lemma AssignEffect(s: State, w: LuaId, name: string, f: FieldDef, v: LuaVal, fr: Fresh)
    requires IsField(s, w, name, f) && CanPass(s, v) && AssignObject(s, w, name, f, v, fr).1.Done?
    requires forall d | d in s.defs.wrappers :: d != fr.d
    ensures v.ObjL? && v.id in s.wrappers
    ensures var s' := AssignObject(s, w, name, f, v, fr).0;
      && s'.wrappers == s.wrappers && s'.cache == s.cache && s'.roots == s.roots
      && IsField(s', w, name, f)
      && s'.mem.heap[s.wrappers[w].target] ==
           WithField(s.mem.heap[s.wrappers[w].target], s.defs.schema[DefOf(s, w)], name, Ref(s.wrappers[v.id].target))
  {
  }

  /** The value read from a field that was just assigned an object is the very wrapper assigned. */
  lemma FieldReadsBack(s: State, w: LuaId, name: string, f: FieldDef, v: LuaVal, fr: Fresh, fr2: Fresh)
    requires CacheExact(s.cache, s.wrappers) && FreshOk(s, fr) && CanPass(s, v)
    requires IsField(s, w, name, f) && IsWrapped(f) && MsgNewindexResult(s, w, name, v, fr).1.Done?
    ensures var s' := MsgNewindexResult(s, w, name, v, fr).0;
      IsMsg(s', w) && MsgIndexResult(s', w, name, fr2) == (s', Done(v))
  {
    AssignEffect(s, w, name, f, v, fr);
    var s' := MsgNewindexResult(s, w, name, v, fr).0;
    assert s'.cache[s'.wrappers[v.id].target] == v.id;
    assert s'.roots + {v.id} == s'.roots;
  }

  /** The same for array elements, at every index the store accepts. */
  lemma ArrayReadsBack(s: State, w: LuaId, key: LuaVal, v: LuaVal, fr: Fresh)
    requires CacheExact(s.cache, s.wrappers) && IsArray(s, w) && CanPass(s, v)
    requires s.wrappers[w].kind == ArrW(MessageC) && ArrayNewindexResult(s, w, key, v).1.Done?
    ensures var s' := ArrayNewindexResult(s, w, key, v).0;
      IsArray(s', w) && ArrayIndexResult(s', w, key, fr) == (s', Done(v))
  {
    var s' := ArrayNewindexResult(s, w, key, v).0;
    assert s'.cache[s'.wrappers[v.id].target] == v.id;
    assert s'.roots + {v.id} == s'.roots;
  }

  /** And for map values. */
  lemma MapReadsBack(s: State, w: LuaId, key: LuaVal, v: LuaVal, fr: Fresh)
    requires CacheExact(s.cache, s.wrappers) && IsMap(s, w) && CanPass(s, v) && v != Nil
    requires s.wrappers[w].kind.valueType == MessageC && MapNewindexResult(s, w, key, v).1.Done?
    ensures var s' := MapNewindexResult(s, w, key, v).0;
      IsMap(s', w) && MapIndexResult(s', w, key, fr) == (s', Done(v))
  {
    var s' := MapNewindexResult(s, w, key, v).0;
    assert s'.cache[s'.wrappers[v.id].target] == v.id;
    assert s'.roots + {v.id} == s'.roots;
  }

  // ---------- typing ----------

  /** In every state of every run each object holds only values its definition or its element type
      allows, and every message's fields name objects made for exactly that field type. */
  lemma EveryRunIsTyped(steps: seq<Step>, x: Addr)
    requires RunOk(START, steps) && x in Final(START, steps).mem.heap
    ensures var s := Final(START, steps); ObjTyped(s.mem.heap, s.defs.schema, s.mem.heap[x])
  {
    EveryRunKeepsInv(steps);
  }

  /** Comparing definition slots by identity compares definitions: a message passes the check of
      lupb_tomsgval exactly when its definition is the one the container was made for. */
  lemma IdentityComparesDefinitions(s: State, c: LuaId, id: LuaId)
    requires DefsInv(s.defs) && c in s.wrappers && id in s.wrappers
    requires Sound(s, s.wrappers[c]) && Sound(s, s.wrappers[id]) && s.wrappers[id].kind == MsgW
    requires !s.mem.heap[s.wrappers[c].target].Msg?
    ensures s.mem.heap[s.wrappers[id].target].Msg?
    ensures ToMsgVal(s, MessageC, ObjL(id), c).Some? <==>
      s.mem.heap[s.wrappers[c].target].elem == Some(s.mem.heap[s.wrappers[id].target].def)
  {
    if s.wrappers[c].msgdef.Some? {
      SameWrapperSameDef(s.defs, s.wrappers[id].msgdef.value, s.wrappers[c].msgdef.value);
    }
  }

  lemma ArrayStoreOutcome(s: State, w: LuaId, key: LuaVal, v: LuaVal)
    requires IsArray(s, w) && CanPass(s, v)
    ensures ArrayNewindexResult(s, w, key, v).1.Done? <==>
      CheckIndex(key, |s.mem.heap[s.wrappers[w].target].items| + 1).Some?
      && ToMsgVal(s, s.wrappers[w].kind.ctype, v, w).Some?
  {
  }

  /** A store into an array succeeds exactly at a whole number from 1 to one past the size and for a message of
      the array's own definition. */
  lemma ArrayAcceptsExactly(s: State, w: LuaId, key: LuaVal, i: int, id: LuaId)
    requires Inv(s) && IsArray(s, w) && s.wrappers[w].kind == ArrW(MessageC) && Denotes(key, i)
    requires id in s.wrappers && s.wrappers[id].kind == MsgW && CanPass(s, ObjL(id))
    ensures s.wrappers[id].target in s.mem.heap && s.mem.heap[s.wrappers[id].target].Msg?
    ensures var arr := s.mem.heap[s.wrappers[w].target];
      ArrayNewindexResult(s, w, key, ObjL(id)).1.Done? <==>
        1 <= i <= |arr.items| + 1 && i <= 0xFFFF_FFFF && arr.elem == Some(s.mem.heap[s.wrappers[id].target].def)
  {
    IndexExactly(key, i, |s.mem.heap[s.wrappers[w].target].items| + 1);
    ArrayStoreOutcome(s, w, key, ObjL(id));
    assert Sound(s, s.wrappers[w]) && Sound(s, s.wrappers[id]);
    IdentityComparesDefinitions(s, w, id);
  }

  lemma MapStoreOutcome(s: State, w: LuaId, key: LuaVal, v: LuaVal)
    requires IsMap(s, w) && CanPass(s, v) && v != Nil
    ensures MapNewindexResult(s, w, key, v).1.Done? <==>
      ToMsgVal(s, s.wrappers[w].kind.keyType, key, w).Some? && ToMsgVal(s, s.wrappers[w].kind.valueType, v, w).Some?
  {
  }

  /** A store into a map of messages succeeds exactly for a key that converts and a message of the
      definition the map was made for. */
  lemma MapAcceptsExactly(s: State, w: LuaId, key: LuaVal, id: LuaId)
    requires Inv(s) && IsMap(s, w) && s.wrappers[w].kind.valueType == MessageC
    requires id in s.wrappers && s.wrappers[id].kind == MsgW && CanPass(s, ObjL(id))
    ensures s.wrappers[id].target in s.mem.heap && s.mem.heap[s.wrappers[id].target].Msg?
    ensures MapNewindexResult(s, w, key, ObjL(id)).1.Done? <==>
      ToMsgVal(s, s.wrappers[w].kind.keyType, key, w).Some?
      && s.mem.heap[s.wrappers[w].target].elem == Some(s.mem.heap[s.wrappers[id].target].def)
  {
    MapStoreOutcome(s, w, key, ObjL(id));
    assert Sound(s, s.wrappers[w]) && Sound(s, s.wrappers[id]);
    IdentityComparesDefinitions(s, w, id);
  }

  /** An assignment to a message field succeeds exactly for a message of the field's definition. */
  lemma FieldAcceptsExactly(s: State, w: LuaId, name: string, f: FieldDef, id: LuaId, fr: Fresh)
    requires Inv(s) && IsField(s, w, name, f) && f.shape == Single && f.ctype == MessageC && FreshOk(s, fr)
    requires id in s.roots && id in s.wrappers && s.wrappers[id].kind == MsgW && CanPass(s, ObjL(id))
    ensures s.wrappers[id].target in s.mem.heap && s.mem.heap[s.wrappers[id].target].Msg?
    ensures MsgNewindexResult(s, w, name, ObjL(id), fr).1.Done? <==>
      f.sub == Some(s.mem.heap[s.wrappers[id].target].def)
  {
    ResolvedField(s, w, name);
    ComparisonInv(s, w, f, fr.d);
    var (ds, d) := PushSub(s.defs, s.wrappers[w].msgdef.value, f.sub.value, fr.d);
    ComparisonSame(s.(defs := ds), id, d);
    assert Sound(s, s.wrappers[id]);
  }

  lemma ComparisonSame(s: State, id: LuaId, d: LuaId)
    requires Inv(s) && id in s.wrappers && s.wrappers[id].kind == MsgW && d in s.defs.wrappers
    ensures s.wrappers[id].target in s.mem.heap && s.mem.heap[s.wrappers[id].target].Msg?
    ensures s.wrappers[id].msgdef == Some(d) <==>
      s.defs.wrappers[d].def == s.mem.heap[s.wrappers[id].target].def
  {
    assert Sound(s, s.wrappers[id]);
    SameWrapperSameDef(s.defs, s.wrappers[id].msgdef.value, d);
  }

  /** The checks of an object assignment, without their effects. */
  lemma AssignOutcome(s: State, w: LuaId, name: string, f: FieldDef, id: LuaId, fr: Fresh)
    requires IsField(s, w, name, f) && IsWrapped(f) && (f.ctype == MessageC <==> f.sub.Some?)
    requires id in s.wrappers && CanPass(s, ObjL(id))
    ensures MsgNewindexResult(s, w, name, ObjL(id), fr).1.Done? <==>
      KindFits(f, s.wrappers[id].kind) &&
      (f.ctype == MessageC ==>
         s.wrappers[id].msgdef == Some(PushSub(s.defs, s.wrappers[w].msgdef.value, f.sub.value, fr.d).1))
  {
  }

  lemma MessageContainer(s: State, wr: Wrapper, o: UpbObj, f: FieldDef, d: LuaId)
    requires DefsInv(s.defs) && SlotTyped(s, wr, o) && f.shape != Single && f.ctype == MessageC && f.sub.Some?
    requires d in s.defs.wrappers && s.defs.wrappers[d].def == f.sub.value
    ensures KindFits(f, wr.kind) && wr.msgdef == Some(d) <==> o.SameType(EmptyContainer(f))
  {
    if wr.msgdef.Some? { SameWrapperSameDef(s.defs, wr.msgdef.value, d); }
  }

  lemma PlainContainer(s: State, wr: Wrapper, o: UpbObj, f: FieldDef)
    requires SlotTyped(s, wr, o) && f.shape != Single && f.ctype != MessageC && f.sub.None?
    requires !o.Msg? ==> (o.elem.Some? ==> o.ctype == MessageC)
    ensures KindFits(f, wr.kind) <==> o.SameType(EmptyContainer(f))
  {
  }

  /** An assignment to a repeated or map field succeeds exactly for an array or map of the field's
      own key, element and message types. */
  lemma ContainerAcceptsExactly(s: State, w: LuaId, name: string, f: FieldDef, id: LuaId, fr: Fresh)
    requires Inv(s) && IsField(s, w, name, f) && f.shape != Single && FreshOk(s, fr)
    requires id in s.roots && id in s.wrappers && CanPass(s, ObjL(id))
    ensures s.wrappers[id].target in s.mem.heap
    ensures MsgNewindexResult(s, w, name, ObjL(id), fr).1.Done? <==>
      s.mem.heap[s.wrappers[id].target].SameType(EmptyContainer(f))
  {
    ResolvedField(s, w, name);
    AssignOutcome(s, w, name, f, id, fr);
    assert Sound(s, s.wrappers[id]);
    var o := s.mem.heap[s.wrappers[id].target];
    if f.ctype == MessageC {
      ComparisonInv(s, w, f, fr.d);
      var (ds, d) := PushSub(s.defs, s.wrappers[w].msgdef.value, f.sub.value, fr.d);
      assert Sound(s.(defs := ds), s.wrappers[id]);
      MessageContainer(s.(defs := ds), s.wrappers[id], o, f, d);
    } else {
      assert ObjTyped(s.mem.heap, s.defs.schema, o);
      PlainContainer(s, s.wrappers[id], o, f);
    }
  }

  /** A map made by upb.Map for messages never accepts one: its definition slot is empty in every
      state, so each store of a value fails and changes nothing. */
  lemma MessageMapsAreStuck(s: State, w: LuaId, key: LuaVal, v: LuaVal)
    requires Inv(s) && IsMap(s, w) && CanPass(s, v) && v != Nil
    requires s.wrappers[w].kind.valueType == MessageC && s.wrappers[w].msgdef == None
    ensures MapNewindexResult(s, w, key, v) == (s, Raise)
    ensures s.mem.heap[s.wrappers[w].target].entries == map[]
  {
    var m := s.mem.heap[s.wrappers[w].target];
    assert Sound(s, s.wrappers[w]) && ObjTyped(s.mem.heap, s.defs.schema, m);
    if v.ObjL? && v.id in s.wrappers && s.wrappers[v.id].kind == MsgW {
      assert Sound(s, s.wrappers[v.id]);
    }
    NonemptyHasValue(m.entries);
  }

  lemma NonemptyHasValue<K, V>(m: map<K, V>)
    ensures m == map[] || exists v :: v in m.Values
  {
    if m != map[] {
      var k :| k in m;
      assert m[k] in m.Values;
    }
  }

  /** upb.Map with a message class makes such a map. */
  lemma NewMessageMapHasEmptySlot(s: State, keyType: CType, d: LuaId, fr: Fresh)
    requires FreshOk(s, fr) && IsClass(s, d)
    ensures var s' := NewMapResult(s, keyType, OfDef(d), fr).0;
      s'.wrappers[fr.w].kind == MapW(keyType, MessageC) && s'.wrappers[fr.w].msgdef == None
  {
  }
}
