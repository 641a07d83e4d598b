/** Arrays and maps of messages: which stores they accept, what holds between linking and fusing, and
    how long what was stored lives. */
module LuaContainers {
  import opened Arenas
  import opened UpbMemory
  import opened LuaDefs
  import opened LuaGraph
  import opened LuaInvariant
  import opened LuaSafety

  // ---------- what a map accepts ----------

  /** Wrapper w lives in every state of the run. */
  ghost predicate LivesThroughout(s: State, steps: seq<Step>, w: LuaId)
    requires RunOk(s, steps)
    decreases |steps|
  {
    w in s.wrappers && (steps == [] || LivesThroughout(Exec(s, steps[0].op, steps[0].fr).0, steps[1..], w))
  }

  /** No step changes a wrapper that survives it. */
  lemma WrapperIsFixed(s: State, op: Op, fr: Fresh, w: LuaId)
    requires Enabled(s, op, fr) && w in s.wrappers && w in Exec(s, op, fr).0.wrappers
    ensures Exec(s, op, fr).0.wrappers[w] == s.wrappers[w]
  {
    if op.MsgIndex? {
      FieldReadKeepsWrapper(s, op.w, op.name, fr, w);
    } else if op.MsgNewindex? || op.ArrayNewindex? || op.MapNewindex? {
      StoreKeepsWrapper(s, op, fr, w);
    }
  }

  lemma FieldReadKeepsWrapper(s: State, c: LuaId, name: string, fr: Fresh, w: LuaId)
    requires IsMsg(s, c) && IdFree(s, fr.w) && w in s.wrappers
    ensures var s' := MsgIndexResult(s, c, name, fr).0; w in s'.wrappers && s'.wrappers[w] == s.wrappers[w]
  {
  }

  lemma StoreKeepsWrapper(s: State, op: Op, fr: Fresh, w: LuaId)
    requires Enabled(s, op, fr) && (op.MsgNewindex? || op.ArrayNewindex? || op.MapNewindex?) && w in s.wrappers
    ensures Exec(s, op, fr).0.wrappers == s.wrappers
  {
  }

  lemma {:induction false} WrapperStaysFixed(s: State, steps: seq<Step>, w: LuaId)
    requires RunOk(s, steps) && LivesThroughout(s, steps, w)
    ensures w in Final(s, steps).wrappers && Final(s, steps).wrappers[w] == s.wrappers[w]
    decreases |steps|
  {
    if steps != [] {
      WrapperIsFixed(s, steps[0].op, steps[0].fr, w);
      WrapperStaysFixed(Exec(s, steps[0].op, steps[0].fr).0, steps[1..], w);
    }
  }

  /** A map made with a message class refuses every value in every later state in which its wrapper
      lives, and stays empty. */
  lemma MapForMessagesNeverAccepts(s: State, keyType: CType, d: LuaId, fr: Fresh, steps: seq<Step>,
      key: LuaVal, v: LuaVal)
    requires Inv(s) && Enabled(s, NewMap(keyType, OfDef(d)), fr)
    requires var s1 := Exec(s, NewMap(keyType, OfDef(d)), fr).0; RunOk(s1, steps) && LivesThroughout(s1, steps, fr.w)
    requires var s' := Final(Exec(s, NewMap(keyType, OfDef(d)), fr).0, steps);
      IsMap(s', fr.w) && CanPass(s', v) && v != Nil
    ensures var s' := Final(Exec(s, NewMap(keyType, OfDef(d)), fr).0, steps);
      && MapNewindexResult(s', fr.w, key, v) == (s', Raise)
      && s'.mem.heap[s'.wrappers[fr.w].target].entries == map[]
  {
    var s1 := Exec(s, NewMap(keyType, OfDef(d)), fr).0;
    NewMessageMapHasEmptySlot(s, keyType, d, fr);
    StepInv(s, NewMap(keyType, OfDef(d)), fr);
    RunInv(s1, steps);
    WrapperStaysFixed(s1, steps, fr.w);
    MessageMapsAreStuck(Final(s1, steps), fr.w, key, v);
  }

  // ---------- between linking and fusing ----------

  /** A link written into x keeps links inside groups exactly when its end is in x's group. */
  lemma LinkIsLocalExactly(m: Memory, x: Addr, o: UpbObj, y: Addr)
    requires MemInv(m) && x in m.heap && y in m.heap && o.Holds(Ref(y))
    requires forall z | o.Holds(Ref(z)) :: z == y || m.heap[x].Holds(Ref(z))
    ensures Housed(Put(m, x, o))
    ensures LinksLocal(Put(m, x, o)) <==> GroupOf(m, x) == GroupOf(m, y)
  {
    var m' := Put(m, x, o);
    if LinksLocal(m') {
      assert m'.heap[x].Holds(Ref(y));
      assert GroupOf(m', x) == GroupOf(m', y);
    }
  }

  /** After the first half of an array store, before the arenas are fused, links stay inside groups
      exactly when the two objects share one already. */
  lemma ArrayLinkExactly(s: State, x: Addr, n: nat, y: Addr)
    requires Inv(s) && x in s.mem.heap && s.mem.heap[x].Arr? && n <= |s.mem.heap[x].items| && y in s.mem.heap
    ensures var m' := Write(s, x, WithItem(s.mem.heap[x], n, Ref(y))).mem;
      Housed(m') && (LinksLocal(m') <==> GroupOf(s.mem, x) == GroupOf(s.mem, y))
  {
    var arr := s.mem.heap[x];
    var o := WithItem(arr, n, Ref(y));
    assert o.items[n] == Ref(y);
    forall z | o.Holds(Ref(z)) ensures z == y || arr.Holds(Ref(z)) {
      var i :| 0 <= i < |o.items| && o.items[i] == Ref(z);
      assert i != n ==> arr.items[i] == Ref(z);
    }
    LinkIsLocalExactly(s.mem, x, o, y);
  }

  function WithEntry(m: UpbObj, k: Value, v: Value): UpbObj
    requires m.Map?
  {
    m.(entries := m.entries[k := v])
  }

  lemma MapLinkExactly(s: State, x: Addr, k: Value, y: Addr)
    requires Inv(s) && x in s.mem.heap && s.mem.heap[x].Map? && y in s.mem.heap
    ensures var m' := Write(s, x, WithEntry(s.mem.heap[x], k, Ref(y))).mem;
      Housed(m') && (LinksLocal(m') <==> GroupOf(s.mem, x) == GroupOf(s.mem, y))
  {
    var m := s.mem.heap[x];
    var o := WithEntry(m, k, Ref(y));
    assert o.entries[k] == Ref(y) && Ref(y) in o.entries.Values;
    forall z | o.Holds(Ref(z)) ensures z == y || m.Holds(Ref(z)) {
      var j :| j in o.entries && o.entries[j] == Ref(z);
      if j != k { assert m.entries[j] in m.entries.Values; }
    }
    LinkIsLocalExactly(s.mem, x, o, y);
  }

  /** A message that was just made shares a group with nothing else. */
  lemma NewMessageIsAlone(s: State, d: LuaId, fr: Fresh, x: Addr)
    requires Inv(s) && Enabled(s, NewMessage(d), fr) && x in s.mem.heap
    ensures var s1 := NewMessageResult(s, d, fr).0;
      && Inv(s1) && x in s1.mem.heap && s1.mem.heap[x] == s.mem.heap[x] && fr.x in s1.mem.heap
      && GroupOf(s1.mem, x) != GroupOf(s1.mem, fr.x)
  {
    NewMessageInv(s, d, fr);
    NewGroupIsAlone(s, d, fr, x);
  }

  lemma NewGroupIsAlone(s: State, d: LuaId, fr: Fresh, x: Addr)
    requires Housed(s.mem) && GroupsOk(s.mem.groups) && IsClass(s, d) && FreshOk(s, fr) && x in s.mem.heap
    ensures var m := NewMessageResult(s, d, fr).0.mem;
      && x in m.heap && m.heap[x] == s.mem.heap[x] && fr.x in m.heap
      && x in m.home && m.home[x] in m.groups && fr.x in m.home && m.home[fr.x] in m.groups
      && GroupOf(m, x) != GroupOf(m, fr.x)
  {
    assert IsRepresentative(s.mem.groups, s.mem.groups[s.mem.home[x]]);
  }

  /** So storing a new message into any array, and into any map, passes through a state in which a link
      leaves its group. */
  lemma NewMessageBreaksLinks(s: State, d: LuaId, fr: Fresh, x: Addr, n: nat, k: Value)
    requires Inv(s) && Enabled(s, NewMessage(d), fr) && x in s.mem.heap
    ensures var s1 := NewMessageResult(s, d, fr).0;
      && x in s1.mem.heap && s1.mem.heap[x] == s.mem.heap[x]
      && (s.mem.heap[x].Arr? && n <= |s.mem.heap[x].items| ==>
            var m' := Write(s1, x, WithItem(s.mem.heap[x], n, Ref(fr.x))).mem; Housed(m') && !LinksLocal(m'))
      && (s.mem.heap[x].Map? ==>
            var m' := Write(s1, x, WithEntry(s.mem.heap[x], k, Ref(fr.x))).mem; Housed(m') && !LinksLocal(m'))
  {
    var s1 := NewMessageResult(s, d, fr).0;
    NewMessageIsAlone(s, d, fr, x);
    if s.mem.heap[x].Arr? && n <= |s.mem.heap[x].items| { ArrayLinkExactly(s1, x, n, fr.x); }
    if s.mem.heap[x].Map? { MapLinkExactly(s1, x, k, fr.x); }
  }

  /** For instance the first store into a new array, of a message made after it. */
  lemma FirstStoreBreaksLinks(s: State, d: LuaId, fr: Fresh, fr2: Fresh)
    requires Inv(s) && Enabled(s, NewArray(OfDef(d)), fr)
    requires Enabled(NewArrayResult(s, OfDef(d), fr).0, NewMessage(d), fr2)
    ensures var s1 := NewArrayResult(s, OfDef(d), fr).0;
      var s2 := NewMessageResult(s1, d, fr2).0;
      && fr.x in s1.mem.heap && s1.mem.heap[fr.x].Arr?
      && var m' := Write(s2, fr.x, WithItem(s1.mem.heap[fr.x], 0, Ref(fr2.x))).mem; Housed(m') && !LinksLocal(m')
  {
    NewArrayInv(s, OfDef(d), fr);
    NewMessageBreaksLinks(NewArrayResult(s, OfDef(d), fr).0, d, fr2, fr.x, 0, IntV(0));
  }

  // ---------- how long stored messages live ----------

  /** What an object behind a surviving wrapper holds survives with it, whatever is dropped, collected
      and finalized. */
  lemma HeldSurvives(s: State, w: LuaId, y: Addr, steps: seq<Step>)
    requires Inv(s) && w in s.wrappers && s.wrappers[w].target in s.mem.heap
    requires s.mem.heap[s.wrappers[w].target].Holds(Ref(y))
    requires RunOk(s, steps) && (forall st | st in steps :: IsCollectorStep(st.op)) && w in Final(s, steps).wrappers
    ensures var s' := Final(s, steps);
      var x := s.wrappers[w].target;
      && s'.wrappers[w] == s.wrappers[w] && x in s'.mem.heap && s'.mem.heap[x] == s.mem.heap[x]
      && y in s.mem.heap && y in s'.mem.heap && s'.mem.heap[y] == s.mem.heap[y]
  {
    var x := s.wrappers[w].target;
    assert Path(s.mem.heap, y, [], y) && [y][1..] == [] && Path(s.mem.heap, x, [], x);
    assert Path(s.mem.heap, x, [y], y);
    CollectorRunsLeaveReachable(s, steps, w, [], x);
    CollectorRunsLeaveReachable(s, steps, w, [y], y);
  }

  lemma ArrayStoreLinks(s: State, w: LuaId, key: LuaVal, id: LuaId)
    requires IsArray(s, w) && CanPass(s, ObjL(id)) && s.wrappers[w].kind == ArrW(MessageC)
    requires ArrayNewindexResult(s, w, key, ObjL(id)).1.Done?
    ensures id in s.wrappers
    ensures var s1 := ArrayNewindexResult(s, w, key, ObjL(id)).0;
      var x := s.wrappers[w].target;
      s1.wrappers == s.wrappers && x in s1.mem.heap && s1.mem.heap[x].Holds(Ref(s.wrappers[id].target))
  {
    var x := s.wrappers[w].target;
    var n := CheckIndex(key, |s.mem.heap[x].items| + 1).value;
    var o := WithItem(s.mem.heap[x], n, Ref(s.wrappers[id].target));
    assert o.items[n] == Ref(s.wrappers[id].target);
  }

  /** A message stored into an array outlives its own wrapper and arena userdata for as long as the
      array's wrapper lives, although the store links before it fuses. */
  lemma ArrayElementOutlivesItsWrapper(s: State, w: LuaId, key: LuaVal, id: LuaId, steps: seq<Step>)
    requires Inv(s) && IsArray(s, w) && CanPass(s, ObjL(id)) && s.wrappers[w].kind == ArrW(MessageC)
    requires ArrayNewindexResult(s, w, key, ObjL(id)).1.Done?
    requires var s1 := ArrayNewindexResult(s, w, key, ObjL(id)).0;
      RunOk(s1, steps) && (forall st | st in steps :: IsCollectorStep(st.op)) && w in Final(s1, steps).wrappers
    ensures id in s.wrappers
    ensures var s1 := ArrayNewindexResult(s, w, key, ObjL(id)).0;
      var s', x, y := Final(s1, steps), s.wrappers[w].target, s.wrappers[id].target;
      && x in s1.mem.heap && x in s'.mem.heap && s'.mem.heap[x] == s1.mem.heap[x]
      && y in s1.mem.heap && y in s'.mem.heap && s'.mem.heap[y] == s1.mem.heap[y]
  {
    ArrayNewindexInv(s, w, key, ObjL(id));
    ArrayStoreLinks(s, w, key, id);
    HeldSurvives(ArrayNewindexResult(s, w, key, ObjL(id)).0, w, s.wrappers[id].target, steps);
  }

  lemma MapStoreLinks(s: State, w: LuaId, key: LuaVal, id: LuaId)
    requires IsMap(s, w) && CanPass(s, ObjL(id)) && s.wrappers[w].kind.valueType == MessageC
    requires MapNewindexResult(s, w, key, ObjL(id)).1.Done?
    ensures id in s.wrappers
    ensures var s1 := MapNewindexResult(s, w, key, ObjL(id)).0;
      var x := s.wrappers[w].target;
      s1.wrappers == s.wrappers && x in s1.mem.heap && s1.mem.heap[x].Holds(Ref(s.wrappers[id].target))
  {
    var x := s.wrappers[w].target;
    var k := ToMsgVal(s, s.wrappers[w].kind.keyType, key, w).value;
    var o := WithEntry(s.mem.heap[x], k, Ref(s.wrappers[id].target));
    assert o.entries[k] in o.entries.Values;
  }

  /** The same for a message stored into a map. */
  lemma MapValueOutlivesItsWrapper(s: State, w: LuaId, key: LuaVal, id: LuaId, steps: seq<Step>)
    requires Inv(s) && IsMap(s, w) && CanPass(s, ObjL(id)) && s.wrappers[w].kind.valueType == MessageC
    requires MapNewindexResult(s, w, key, ObjL(id)).1.Done?
    requires var s1 := MapNewindexResult(s, w, key, ObjL(id)).0;
      RunOk(s1, steps) && (forall st | st in steps :: IsCollectorStep(st.op)) && w in Final(s1, steps).wrappers
    ensures id in s.wrappers
    ensures var s1 := MapNewindexResult(s, w, key, ObjL(id)).0;
      var s', x, y := Final(s1, steps), s.wrappers[w].target, s.wrappers[id].target;
      && x in s1.mem.heap && x in s'.mem.heap && s'.mem.heap[x] == s1.mem.heap[x]
      && y in s1.mem.heap && y in s'.mem.heap && s'.mem.heap[y] == s1.mem.heap[y]
  {
    MapNewindexInv(s, w, key, ObjL(id));
    MapStoreLinks(s, w, key, id);
    HeldSurvives(MapNewindexResult(s, w, key, ObjL(id)).0, w, s.wrappers[id].target, steps);
  }
}
