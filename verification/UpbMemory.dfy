/** The upb level below the Lua binding: messages, arrays and maps allocated at addresses out of
    arenas, as a set of abstract contracts for the upb functions that lua/msg.c calls.  How upb keeps
    its groups is in modules ForestWords, ForestLists and ArenaForest. */
module UpbMemory {
  import opened Options
  import opened Arenas
  import opened NumberChecks

  type Addr = nat

  /** A message definition: the pool that owns it and its full name. */
  datatype DefId = DefId(pool: nat, name: string)

  datatype CType = BoolC | FloatC | Int32C | UInt32C | EnumC | MessageC
                 | DoubleC | Int64C | UInt64C | StringC | BytesC

  datatype Value = BoolV(b: bool) | IntV(i: int) | RealV(d: Double) | StrV(s: string) | Ref(target: Addr)

  /** A upb object.  `elem` is the definition of the messages an array or map was made for, when
      one was recorded; upb itself stores only the C type. */
  datatype UpbObj =
    | Msg(def: DefId, fields: map<string, Value>)
    | Arr(ctype: CType, elem: Option<DefId>, items: seq<Value>)
    | Map(keyType: CType, ctype: CType, elem: Option<DefId>, entries: map<Value, Value>)
  {
    ghost predicate Holds(v: Value) {
      match this
      case Msg(_, fields) => v in fields.Values
      case Arr(_, _, items) => v in items
      case Map(_, _, _, entries) => v in entries.Values
    }

    /** The two objects differ at most in their contents. */
    predicate SameType(o: UpbObj) {
      match this
      case Msg(d, _) => o.Msg? && o.def == d
      case Arr(t, e, _) => o.Arr? && o.ctype == t && o.elem == e
      case Map(k, t, e, _) => o.Map? && o.keyType == k && o.ctype == t && o.elem == e
    }
  }

  /** Allocated objects, the arena each was allocated from, the fused groups of all arenas whose
      memory is not released, and the arenas that are not freed. */
  datatype Memory = Memory(
    heap: map<Addr, UpbObj>,
    home: map<Addr, ArenaId>,
    groups: Groups,
    unfreed: set<ArenaId>)

  const EMPTY_MEMORY := Memory(map[], map[], map[], {})

  /** The group an allocated object's memory belongs to. */
  ghost function GroupOf(m: Memory, x: Addr): ArenaId
    requires x in m.home && m.home[x] in m.groups
  {
    m.groups[m.home[x]]
  }

  /** Some unfreed arena keeps the memory of group g. */
  predicate GroupAlive(m: Memory, g: ArenaId)
    requires m.unfreed <= m.groups.Keys
  {
    exists a :: a in m.unfreed && m.groups[a] == g
  }

  /** Every object lies in an arena whose group is known. */
  ghost predicate Housed(m: Memory) {
    && m.heap.Keys == m.home.Keys
    && m.unfreed <= m.groups.Keys
    && (forall x | x in m.home :: m.home[x] in m.groups)
  }

  /** No group outlives its last unfreed arena. */
  ghost predicate NoLeak(m: Memory)
    requires m.unfreed <= m.groups.Keys
  {
    forall a {:trigger GroupAlive(m, m.groups[a])} | a in m.groups :: GroupAlive(m, m.groups[a])
  }

  /** Every link leads to an allocated object of the same group. */
  ghost predicate LinksLocal(m: Memory)
    requires Housed(m)
  {
    forall x, y | x in m.heap && m.heap[x].Holds(Ref(y)) ::
      y in m.heap && GroupOf(m, x) == GroupOf(m, y)
  }

  ghost predicate MemInv(m: Memory) {
    Housed(m) && GroupsOk(m.groups) && NoLeak(m) && LinksLocal(m)
  }

  /** upb_Arena_New */
  function NewArena(m: Memory, a: ArenaId): Memory {
    m.(groups := m.groups[a := a], unfreed := m.unfreed + {a})
  }

  /** Allocation of an object out of an arena. */
  function Alloc(m: Memory, a: ArenaId, x: Addr, o: UpbObj): Memory {
    m.(heap := m.heap[x := o], home := m.home[x := a])
  }

  /** Allocation of several objects, as a parser does. */
  function AllocAll(m: Memory, a: ArenaId, objs: map<Addr, UpbObj>): Memory {
    m.(heap := m.heap + objs, home := m.home + map x | x in objs :: a)
  }

  /** A write into an existing object. */
  function Put(m: Memory, x: Addr, o: UpbObj): Memory {
    m.(heap := m.heap[x := o])
  }

  function FuseArenas(m: Memory, to: ArenaId, from: ArenaId): Memory
    requires to in m.groups && from in m.groups
  {
    m.(groups := Fuse(m.groups, to, from))
  }

  /** upb_Arena_Free: the memory of the group goes when its last unfreed arena goes. */
  function FreeArena(m: Memory, a: ArenaId): Memory
    requires a in m.unfreed && Housed(m)
  {
    var rest := m.(unfreed := m.unfreed - {a});
    if GroupAlive(rest, m.groups[a]) then rest
    else
      Memory(map x | x in m.heap && m.groups[m.home[x]] != m.groups[a] :: m.heap[x],
             map x | x in m.home && m.groups[m.home[x]] != m.groups[a] :: m.home[x],
             map b | b in m.groups && m.groups[b] != m.groups[a] :: m.groups[b],
             rest.unfreed)
  }

  lemma KeepsAlive(m: Memory, m': Memory)
    requires m.unfreed <= m.groups.Keys && NoLeak(m)
    requires m'.groups == m.groups && m.unfreed <= m'.unfreed && m'.unfreed <= m'.groups.Keys
    ensures NoLeak(m')
  {
    forall a | a in m'.groups ensures GroupAlive(m', m'.groups[a]) {
      assert GroupAlive(m, m.groups[a]);
    }
  }

  lemma NewArenaInv(m: Memory, a: ArenaId)
    requires MemInv(m) && a !in m.groups
    ensures MemInv(NewArena(m, a))
  {
    var m' := NewArena(m, a);
    forall c | c in m'.groups
      ensures GroupAlive(m', m'.groups[c]) && IsRepresentative(m'.groups, m'.groups[c])
    {
      if c == a {
        assert a in m'.unfreed && m'.groups[a] == a;
      } else {
        assert GroupAlive(m, m.groups[c]) && IsRepresentative(m.groups, m.groups[c]);
        var b :| b in m.unfreed && m.groups[b] == m.groups[c];
        assert b in m'.unfreed && m'.groups[b] == m'.groups[c];
      }
    }
  }

  lemma AllocAllInv(m: Memory, a: ArenaId, objs: map<Addr, UpbObj>)
    requires MemInv(m) && a in m.groups && objs.Keys !! m.heap.Keys
    requires forall x, y | x in objs && objs[x].Holds(Ref(y)) :: y in objs
    ensures MemInv(AllocAll(m, a, objs))
  {
    KeepsAlive(m, AllocAll(m, a, objs));
  }

  /** A write keeps links local when each new link stays in the group. */
  lemma PutInv(m: Memory, x: Addr, o: UpbObj)
    requires MemInv(m) && x in m.heap
    requires forall y | o.Holds(Ref(y)) :: m.heap[x].Holds(Ref(y)) || (y in m.heap && GroupOf(m, x) == GroupOf(m, y))
    ensures MemInv(Put(m, x, o))
  {
    KeepsAlive(m, Put(m, x, o));
  }

  lemma FuseNoLeak(m: Memory, to: ArenaId, from: ArenaId)
    requires m.unfreed <= m.groups.Keys && NoLeak(m) && to in m.groups && from in m.groups
    ensures NoLeak(FuseArenas(m, to, from))
  {
    var m' := FuseArenas(m, to, from);
    forall a | a in m'.groups ensures GroupAlive(m', m'.groups[a]) {
      var c := if m.groups[a] == m.groups[from] then to else a;
      assert GroupAlive(m, m.groups[c]);
      var b :| b in m.unfreed && m.groups[b] == m.groups[c];
      assert m'.groups[b] == m'.groups[a];
    }
  }

  lemma FuseLinks(m: Memory, to: ArenaId, from: ArenaId)
    requires Housed(m) && LinksLocal(m) && to in m.groups && from in m.groups
    ensures Housed(FuseArenas(m, to, from)) && LinksLocal(FuseArenas(m, to, from))
  {
  }

  lemma FuseInv(m: Memory, to: ArenaId, from: ArenaId)
    requires MemInv(m) && to in m.groups && from in m.groups
    ensures MemInv(FuseArenas(m, to, from))
  {
    FuseOk(m.groups, to, from);
    FuseNoLeak(m, to, from);
    FuseLinks(m, to, from);
  }

  /** The memory that survives freeing arena a. */
  ghost predicate Survives(m: Memory, a: ArenaId, g: ArenaId)
    requires m.unfreed <= m.groups.Keys
  {
    GroupAlive(m.(unfreed := m.unfreed - {a}), g)
  }

  lemma OtherGroupsSurvive(m: Memory, a: ArenaId, c: ArenaId)
    requires MemInv(m) && a in m.unfreed && c in m.groups && m.groups[c] != m.groups[a]
    ensures Survives(m, a, m.groups[c])
  {
    assert GroupAlive(m, m.groups[c]);
    var b :| b in m.unfreed && m.groups[b] == m.groups[c];
    assert b in m.unfreed - {a};
  }

  lemma FreeArenaInv(m: Memory, a: ArenaId)
    requires MemInv(m) && a in m.unfreed
    ensures MemInv(FreeArena(m, a))
  {
    var m' := FreeArena(m, a);
    forall c | c in m'.groups
      ensures GroupAlive(m', m'.groups[c]) && IsRepresentative(m'.groups, m'.groups[c])
    {
      assert IsRepresentative(m.groups, m.groups[c]);
      if m.groups[c] != m.groups[a] {
        OtherGroupsSurvive(m, a, c);
      }
      var b :| b in m.unfreed - {a} && m.groups[b] == m.groups[c];
      assert b in m'.unfreed && m'.groups[b] == m'.groups[c];
    }
  }

  /** An object survives freeing an arena exactly when another unfreed arena is in its group. */
  lemma FreeArenaExact(m: Memory, a: ArenaId, x: Addr)
    requires MemInv(m) && a in m.unfreed && x in m.heap
    ensures x in FreeArena(m, a).heap <==> Survives(m, a, GroupOf(m, x))
  {
    if GroupOf(m, x) != m.groups[a] {
      OtherGroupsSurvive(m, a, m.home[x]);
    }
  }
}
