/** One run of the Lua binding from beginning to end: one message is linked to another, whose wrapper
    and arena userdata are then dropped, collected and finalized, and stays allocated.  It shows that
    runs with links and collector steps exist. */
module LuaScenario {
  import opened Options
  import opened UpbMemory
  import opened LuaDefs
  import opened LuaGraph
  import opened LuaSafety

  const NODE := DefId(0, "Node")
  const NEXT := FieldDef(Single, MessageC, Some(NODE), BoolV(false), None)
  const SCHEMA: map<DefId, MessageDef> := map[NODE := map["next" := NEXT]]

  /** The identities of the n-th step. */
  function Ids(n: nat): Fresh {
    Fresh(3 * n, 3 * n + 1, 3 * n + 2, n, n)
  }

  const PARENT := Wrapper(MsgW, 3, 10, Some(8))
  const CHILD := Wrapper(MsgW, 4, 13, Some(8))

  const WITH_POOL := START.(
    defs := Defs(map[], {0}, map[2 := PoolObj(0, map[])], map[]),
    roots := {2})
  const WITH_FILE := WITH_POOL.(defs := WITH_POOL.defs.(schema := SCHEMA))
  const WITH_CLASS := WITH_FILE.(
    defs := Defs(SCHEMA, {0}, map[2 := PoolObj(0, map[NODE := 8])], map[8 := DefWrapper(NODE, 2)]),
    roots := {2, 8})
  const WITH_PARENT := WITH_CLASS.(
    mem := Memory(map[3 := Msg(NODE, map[])], map[3 := 3], map[3 := 3], {3}),
    wrappers := map[9 := PARENT], cache := map[3 := 9], arenas := map[10 := 3],
    roots := {2, 8, 9})
  const WITH_BOTH := WITH_PARENT.(
    mem := Memory(map[3 := Msg(NODE, map[]), 4 := Msg(NODE, map[])], map[3 := 3, 4 := 4], map[3 := 3, 4 := 4], {3, 4}),
    wrappers := map[9 := PARENT, 12 := CHILD], cache := map[3 := 9, 4 := 12], arenas := map[10 := 3, 13 := 4],
    roots := {2, 8, 9, 12})
  const LINKED := WITH_BOTH.(
    mem := Memory(map[3 := Msg(NODE, map["next" := Ref(4)]), 4 := Msg(NODE, map[])],
                  map[3 := 3, 4 := 4], map[3 := 3, 4 := 3], {3, 4}))
  const DROPPED := LINKED.(roots := {2, 8, 9})
  const COLLECTED := DROPPED.(wrappers := map[9 := PARENT], cache := map[3 := 9], doomed := {13})
  const FINALIZED := COLLECTED.(
    mem := Memory(LINKED.mem.heap, LINKED.mem.home, LINKED.mem.groups, {3}), arenas := map[10 := 3], doomed := {})

  ghost predicate Goes(s: State, op: Op, fr: Fresh, s': State) {
    Enabled(s, op, fr) && Exec(s, op, fr).0 == s'
  }

  lemma MakesPool()
    ensures Goes(START, DefPoolNew(0), Ids(0), WITH_POOL)
  {
  }

  lemma MakesFile()
    ensures Goes(WITH_POOL, AddFile(2, SCHEMA), Ids(1), WITH_FILE)
  {
    assert SchemaOk(SCHEMA);
    assert map[] + SCHEMA == SCHEMA;
  }

  lemma MakesClass()
    ensures Goes(WITH_FILE, LookupMsg(2, NODE), Ids(2), WITH_CLASS)
  {
  }

  lemma MakesParent()
    ensures Goes(WITH_CLASS, NewMessage(8), Ids(3), WITH_PARENT)
  {
    var s' := NewMessageResult(WITH_CLASS, 8, Ids(3)).0;
    assert s'.mem.heap == WITH_PARENT.mem.heap && s'.mem.home == WITH_PARENT.mem.home;
    assert s'.mem.groups == WITH_PARENT.mem.groups && s'.mem.unfreed == WITH_PARENT.mem.unfreed;
    assert s'.wrappers == WITH_PARENT.wrappers && s'.cache == WITH_PARENT.cache && s'.arenas == WITH_PARENT.arenas;
    assert s'.roots == WITH_PARENT.roots;
  }

  lemma ChildEnabled()
    ensures Enabled(WITH_PARENT, NewMessage(8), Ids(4))
  {
  }

  lemma ChildResult()
    requires IsClass(WITH_PARENT, 8)
    ensures NewMessageResult(WITH_PARENT, 8, Ids(4)).0 == WITH_BOTH
  {
    var s' := NewMessageResult(WITH_PARENT, 8, Ids(4)).0;
    assert s'.mem.heap == WITH_BOTH.mem.heap && s'.mem.home == WITH_BOTH.mem.home;
    assert s'.mem.groups == WITH_BOTH.mem.groups && s'.mem.unfreed == WITH_BOTH.mem.unfreed;
    assert s'.wrappers == WITH_BOTH.wrappers && s'.cache == WITH_BOTH.cache && s'.arenas == WITH_BOTH.arenas;
    assert s'.roots == WITH_BOTH.roots;
  }

  lemma MakesChild()
    ensures Goes(WITH_PARENT, NewMessage(8), Ids(4), WITH_BOTH)
  {
    ChildEnabled();
    ChildResult();
  }

  lemma LinkEnabled()
    ensures Enabled(WITH_BOTH, MsgNewindex(9, "next", ObjL(12)), Ids(5))
  {
  }

  lemma LinkFuses()
    requires Placed(WITH_BOTH, 9) && Placed(WITH_BOTH, 12)
    ensures FuseObjs(WITH_BOTH, 9, 12) == WITH_BOTH.(mem := WITH_BOTH.mem.(groups := LINKED.mem.groups))
  {
    assert FuseObjs(WITH_BOTH, 9, 12).mem.groups == LINKED.mem.groups;
  }

  lemma LinkWrites()
    ensures var o := Msg(NODE, map[]);
      map[3 := o, 4 := o][3 := WithField(o, SCHEMA[NODE], "next", Ref(4))] == LINKED.mem.heap
  {
    var o := Msg(NODE, map[]);
    assert WithField(o, SCHEMA[NODE], "next", Ref(4)) == Msg(NODE, map["next" := Ref(4)]);
  }

  lemma LinkResult()
    requires IsMsg(WITH_BOTH, 9) && CanPass(WITH_BOTH, ObjL(12))
    ensures MsgNewindexResult(WITH_BOTH, 9, "next", ObjL(12), Ids(5)) == (LINKED, Done(ObjL(12)))
  {
    assert PushSub(WITH_BOTH.defs, 8, NODE, 17) == (WITH_BOTH.defs, 8);
    LinkFuses();
    LinkWrites();
  }

  lemma Links()
    ensures Goes(WITH_BOTH, MsgNewindex(9, "next", ObjL(12)), Ids(5), LINKED)
  {
    LinkEnabled();
    LinkResult();
  }

  /** In the linked state and after it all identities in use are below 18 and all addresses below 5. */
  ghost predicate LowIds(s: State) {
    && (forall id | 18 <= id :: IdFree(s, id))
    && (forall x | 5 <= x :: x !in s.mem.groups && x !in s.mem.heap)
  }

  lemma LowIdsAre(s: State)
    requires s.wrappers.Keys <= {9, 12} && s.arenas.Keys <= {10, 13} && s.defs.wrappers.Keys <= {8}
    requires s.defs.pools.Keys <= {2} && s.roots <= {2, 8, 9, 12} && s.doomed <= {13}
    requires s.mem.heap.Keys <= {3, 4} && s.mem.groups.Keys <= {3, 4}
    ensures LowIds(s)
  {
  }

  lemma LowIdsFresh(s: State, n: nat)
    requires LowIds(s) && n >= 6
    ensures FreshOk(s, Ids(n))
  {
  }

  lemma DropGoes(s: State, id: LuaId, n: nat, s': State)
    requires LowIds(s) && n >= 6 && s.(roots := s.roots - {id}) == s'
    ensures Goes(s, Drop(id), Ids(n), s')
  {
    LowIdsFresh(s, n);
  }

  lemma CollectGoes(s: State, dead: set<LuaId>, n: nat, s': State)
    requires LowIds(s) && n >= 6 && Unreachable(s, dead) && CollectResult(s, dead) == s'
    ensures Goes(s, Collect(dead), Ids(n), s')
  {
    LowIdsFresh(s, n);
  }

  lemma ArenaGcGoes(s: State, l: LuaId, n: nat, s': State)
    requires LowIds(s) && n >= 6
    requires l in s.doomed && l in s.arenas && s.arenas[l] in s.mem.unfreed && Housed(s.mem)
    requires ArenaGcResult(s, l) == s'
    ensures Goes(s, ArenaGc(l), Ids(n), s')
  {
    LowIdsFresh(s, n);
  }

  lemma Drops()
    ensures Goes(LINKED, Drop(12), Ids(6), DROPPED)
  {
    LowIdsAre(LINKED);
    assert LINKED.roots - {12} == DROPPED.roots;
    DropGoes(LINKED, 12, 6, DROPPED);
  }

  lemma ChildIsUnreachable()
    ensures Unreachable(DROPPED, {12, 13})
  {
  }

  /** Definitions whose wrappers survive a collection are not changed by it. */
  lemma DefsSurvive(ds: Defs, dead: set<LuaId>)
    requires ds.wrappers.Keys !! dead && forall p | p in ds.pools :: ds.pools[p].cache.Values !! dead
    ensures CollectDefs(ds, dead) == ds
  {
    forall p | p in ds.pools ensures LiveEntries(ds.pools[p].cache, dead) == ds.pools[p].cache {
      var cache := ds.pools[p].cache;
      forall k | k in cache ensures cache[k] !in dead {
        assert cache[k] in cache.Values;
      }
    }
    assert CollectDefs(ds, dead).pools == ds.pools;
    assert ds.wrappers - dead == ds.wrappers;
  }

  lemma ClassSurvives()
    ensures CollectDefs(WITH_CLASS.defs, {12, 13}) == WITH_CLASS.defs
  {
    DefsSurvive(WITH_CLASS.defs, {12, 13});
  }

  lemma ChildGoes()
    ensures map[9 := PARENT, 12 := CHILD] - {12, 13} == map[9 := PARENT]
    ensures LiveEntries(map[3 := 9, 4 := 12], {12, 13}) == map[3 := 9]
    ensures {12, 13} * (map[10 := 3, 13 := 4].Keys + map[2 := PoolObj(0, map[NODE := 8])].Keys) == {13}
  {
  }

  lemma CollectsWrapper()
    ensures CollectResult(DROPPED, {12, 13}) == COLLECTED
  {
    ClassSurvives();
    ChildGoes();
  }

  lemma Collects()
    ensures Goes(DROPPED, Collect({12, 13}), Ids(7), COLLECTED)
  {
    LowIdsAre(DROPPED);
    ChildIsUnreachable();
    CollectsWrapper();
    CollectGoes(DROPPED, {12, 13}, 7, COLLECTED);
  }

  lemma ArenaIsDoomed()
    ensures 13 in COLLECTED.doomed && 13 in COLLECTED.arenas && COLLECTED.arenas[13] in COLLECTED.mem.unfreed
    ensures Housed(COLLECTED.mem)
  {
  }

  lemma FinalizesArena()
    requires Housed(COLLECTED.mem)
    ensures ArenaGcResult(COLLECTED, 13) == FINALIZED
  {
    assert COLLECTED.mem.unfreed - {4} == {3};
    assert GroupAlive(COLLECTED.mem.(unfreed := {3}), 3) by { assert COLLECTED.mem.groups[3] == 3; }
    assert COLLECTED.arenas - {13} == FINALIZED.arenas && COLLECTED.doomed - {13} == {};
  }

  lemma Finalizes()
    ensures Goes(COLLECTED, ArenaGc(13), Ids(8), FINALIZED)
  {
    LowIdsAre(COLLECTED);
    ArenaIsDoomed();
    FinalizesArena();
    ArenaGcGoes(COLLECTED, 13, 8, FINALIZED);
  }

  const MAKE_CLASS := [Step(DefPoolNew(0), Ids(0)), Step(AddFile(2, SCHEMA), Ids(1)), Step(LookupMsg(2, NODE), Ids(2))]
  const MAKE_LINK := [
    Step(NewMessage(8), Ids(3)), Step(NewMessage(8), Ids(4)), Step(MsgNewindex(9, "next", ObjL(12)), Ids(5))]
  const LET_GO := [Step(Drop(12), Ids(6)), Step(Collect({12, 13}), Ids(7)), Step(ArenaGc(13), Ids(8))]
  const WHOLE_RUN := MAKE_CLASS + (MAKE_LINK + LET_GO)

  lemma RunGoes(s: State, step: Step, s': State, rest: seq<Step>)
    requires Goes(s, step.op, step.fr, s') && RunOk(s', rest)
    ensures RunOk(s, [step] + rest) && Final(s, [step] + rest) == Final(s', rest)
  {
    assert ([step] + rest)[1..] == rest;
  }

  /** Three steps followed by a run. */
  lemma ThreeSteps(s: State, steps: seq<Step>, s1: State, s2: State, s3: State, rest: seq<Step>)
    requires |steps| == 3 && Goes(s, steps[0].op, steps[0].fr, s1)
    requires Goes(s1, steps[1].op, steps[1].fr, s2) && Goes(s2, steps[2].op, steps[2].fr, s3)
    requires RunOk(s3, rest)
    ensures RunOk(s, steps + rest) && Final(s, steps + rest) == Final(s3, rest)
  {
    RunGoes(s2, steps[2], s3, rest);
    RunGoes(s1, steps[1], s2, [steps[2]] + rest);
    RunGoes(s, steps[0], s1, [steps[1]] + ([steps[2]] + rest));
    assert steps + rest == [steps[0]] + ([steps[1]] + ([steps[2]] + rest));
  }

  lemma LinkIsPath()
    ensures Path(FINALIZED.mem.heap, 3, [4], 4)
  {
    assert [4][1..] == [] && FINALIZED.mem.heap[3].fields["next"] == Ref(4);
    assert FINALIZED.mem.heap[3].Holds(Ref(4));
  }

  lemma LinksUp(rest: seq<Step>)
    requires RunOk(LINKED, rest)
    ensures var run := MAKE_CLASS + (MAKE_LINK + rest); RunOk(START, run) && Final(START, run) == Final(LINKED, rest)
  {
    MakesPool();
    MakesFile();
    MakesClass();
    MakesParent();
    MakesChild();
    Links();
    ThreeSteps(WITH_CLASS, MAKE_LINK, WITH_PARENT, WITH_BOTH, LINKED, rest);
    ThreeSteps(START, MAKE_CLASS, WITH_POOL, WITH_FILE, WITH_CLASS, MAKE_LINK + rest);
  }

  lemma LetsGo()
    ensures RunOk(LINKED, LET_GO) && Final(LINKED, LET_GO) == FINALIZED
  {
    Drops();
    Collects();
    Finalizes();
    ThreeSteps(LINKED, LET_GO, DROPPED, COLLECTED, FINALIZED, []);
    assert LET_GO + [] == LET_GO;
  }

  lemma ChildRemains()
    ensures 12 !in FINALIZED.wrappers && 13 !in FINALIZED.arenas && 9 in FINALIZED.wrappers
    ensures FINALIZED.wrappers[9].target == 3 && 4 in FINALIZED.mem.heap
  {
  }

  /** A run in which a message is linked to another and the other's wrapper and arena userdata are then
      dropped, collected and finalized: they are gone, and the message is still linked to the other. */
  lemma LinkedRunExists()
    ensures RunOk(START, WHOLE_RUN) && Final(START, WHOLE_RUN) == FINALIZED
    ensures 12 !in FINALIZED.wrappers && 13 !in FINALIZED.arenas && 9 in FINALIZED.wrappers
    ensures FINALIZED.wrappers[9].target == 3 && Path(FINALIZED.mem.heap, 3, [4], 4) && 4 in FINALIZED.mem.heap
  {
    LetsGo();
    LinksUp(LET_GO);
    LinkIsPath();
    ChildRemains();
  }
}
