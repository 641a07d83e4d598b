/** Definition pools and their Lua wrappers (lua/def.c): each pool keeps a weak table from
    definitions to wrappers, so that a definition has one live wrapper.

    A definition is named by the pool that owns it; pool numbers are not used twice. */
module LuaDefs {
  import opened Options
  import opened UpbMemory

  type LuaId = nat

  datatype Shape = Single | Repeated | MapOf(key: CType)

  /** A field.  For a map field `ctype` and `sub` describe the entry's value; `oneof` names the oneof
      the field belongs to. */
  datatype FieldDef =
    FieldDef(shape: Shape, ctype: CType, sub: Option<DefId>, default: Value, oneof: Option<string>)

  type MessageDef = map<string, FieldDef>

  /** Two different fields of one oneof. */
  predicate Siblings(def: MessageDef, m: string, n: string) {
    m != n && m in def && n in def && def[m].oneof.Some? && def[m].oneof == def[n].oneof
  }

  /** A pool userdata: the pool and its weak table of wrappers. */
  datatype PoolObj = PoolObj(pool: nat, cache: map<DefId, LuaId>)

  /** A definition wrapper: the definition and a strong reference to its pool. */
  datatype DefWrapper = DefWrapper(def: DefId, pool: LuaId)

  datatype Defs = Defs(
    schema: map<DefId, MessageDef>,
    usedPools: set<nat>,
    pools: map<LuaId, PoolObj>,
    wrappers: map<LuaId, DefWrapper>)

  const NO_DEFS := Defs(map[], {}, map[], map[])

  // ---------- operations ----------

  /** lupb_DefPool_New */
  function NewPool(ds: Defs, p: LuaId, pool: nat): Defs {
    ds.(pools := ds.pools[p := PoolObj(pool, map[])], usedPools := ds.usedPools + {pool})
  }

  /** upb_DefPool_AddFile: the new definitions of one or more files. */
  function AddDefs(ds: Defs, added: map<DefId, MessageDef>): Defs {
    ds.(schema := ds.schema + added)
  }

  /** lupb_DefPool_pushwrapper: the cached wrapper of def, or a new one at identity d. */
  function PushWrapper(ds: Defs, p: LuaId, def: DefId, d: LuaId): (Defs, LuaId)
    requires p in ds.pools
  {
    var po := ds.pools[p];
    if def in po.cache then (ds, po.cache[def])
    else
      (ds.(wrappers := ds.wrappers[d := DefWrapper(def, p)],
           pools := ds.pools[p := po.(cache := po.cache[def := d])]), d)
  }

  /** lupb_MessageDef_pushsubmsgdef: the wrapper of `sub` from the pool of wrapper `parent`. */
  function PushSub(ds: Defs, parent: LuaId, sub: DefId, d: LuaId): (Defs, LuaId)
    requires parent in ds.wrappers && ds.wrappers[parent].pool in ds.pools
  {
    PushWrapper(ds, ds.wrappers[parent].pool, sub, d)
  }

  /** A garbage collection of definition wrappers: they leave the weak tables with it. */
  function CollectDefs(ds: Defs, dead: set<LuaId>): Defs {
    ds.(wrappers := ds.wrappers - dead,
        pools := map p | p in ds.pools :: ds.pools[p].(cache := LiveEntries(ds.pools[p].cache, dead)))
  }

  function LiveEntries<K>(cache: map<K, LuaId>, dead: set<LuaId>): map<K, LuaId> {
    map k | k in cache && cache[k] !in dead :: cache[k]
  }

  /** lupb_DefPool_gc */
  function FreePool(ds: Defs, p: LuaId): Defs {
    ds.(pools := ds.pools - {p})
  }

  // ---------- invariant ----------

  ghost predicate FieldOk(schema: map<DefId, MessageDef>, owner: DefId, f: FieldDef) {
    && (f.ctype == MessageC <==> f.sub.Some?)
    && (f.sub.Some? ==> f.sub.value in schema && f.sub.value.pool == owner.pool)
    && f.shape != MapOf(MessageC)
    && !f.default.Ref?
    && (f.oneof.Some? ==> f.shape == Single)
  }

  ghost predicate SchemaOk(schema: map<DefId, MessageDef>) {
    forall def, name | def in schema && name in schema[def] :: FieldOk(schema, def, schema[def][name])
  }

  ghost predicate WrapperOk(ds: Defs, d: LuaId)
    requires d in ds.wrappers
  {
    var DefWrapper(def, p) := ds.wrappers[d];
    && def in ds.schema && p in ds.pools && ds.pools[p].pool == def.pool
    && def in ds.pools[p].cache && ds.pools[p].cache[def] == d
  }

  ghost predicate PoolOk(ds: Defs, p: LuaId)
    requires p in ds.pools
  {
    && ds.pools[p].pool in ds.usedPools
    && (forall def | def in ds.pools[p].cache ::
          ds.pools[p].cache[def] in ds.wrappers && ds.wrappers[ds.pools[p].cache[def]] == DefWrapper(def, p))
  }

  ghost predicate DefsInv(ds: Defs) {
    && SchemaOk(ds.schema)
    && (forall d | d in ds.wrappers :: WrapperOk(ds, d))
    && (forall p | p in ds.pools :: PoolOk(ds, p))
    && (forall p, q | p in ds.pools && q in ds.pools && ds.pools[p].pool == ds.pools[q].pool :: p == q)
  }

  /** Comparing two live definition wrappers by identity compares the definitions. */
  lemma SameWrapperSameDef(ds: Defs, d: LuaId, e: LuaId)
    requires DefsInv(ds) && d in ds.wrappers && e in ds.wrappers
    ensures d == e <==> ds.wrappers[d].def == ds.wrappers[e].def
  {
    assert WrapperOk(ds, d) && WrapperOk(ds, e);
  }

  /** The definitions a file adds: new, closed under sub-definitions, all in the given pool. */
  ghost predicate FileOk(ds: Defs, pool: nat, added: map<DefId, MessageDef>) {
    && added.Keys !! ds.schema.Keys
    && (forall def | def in added :: def.pool == pool)
    && SchemaOk(ds.schema + added)
  }

  /** A push yields a wrapper of def and leaves every other wrapper alone. */
  lemma PushWrapperFrame(ds: Defs, p: LuaId, def: DefId, d: LuaId)
    requires DefsInv(ds) && p in ds.pools && def in ds.schema && def.pool == ds.pools[p].pool
    requires d !in ds.wrappers
    ensures var (ds', e) := PushWrapper(ds, p, def, d);
      && e in ds'.wrappers && ds'.wrappers[e] == DefWrapper(def, p)
      && (forall c | c in ds.wrappers :: c in ds'.wrappers && ds'.wrappers[c] == ds.wrappers[c])
      && (forall c | c in ds'.wrappers && c !in ds.wrappers :: c == d && ds'.wrappers[c].pool == p)
      && ds'.schema == ds.schema && ds'.pools.Keys == ds.pools.Keys
  {
    assert PoolOk(ds, p);
  }

  lemma PushWrapperPools(ds: Defs, p: LuaId, def: DefId, d: LuaId, q: LuaId)
    requires p in ds.pools && q in ds.pools && PoolOk(ds, q)
    requires d !in ds.wrappers && def !in ds.pools[p].cache
    ensures q in PushWrapper(ds, p, def, d).0.pools && PoolOk(PushWrapper(ds, p, def, d).0, q)
  {
  }

  lemma PushWrapperWrappers(ds: Defs, p: LuaId, def: DefId, d: LuaId, c: LuaId)
    requires p in ds.pools && c in ds.wrappers && WrapperOk(ds, c)
    requires d !in ds.wrappers && def !in ds.pools[p].cache
    ensures c in PushWrapper(ds, p, def, d).0.wrappers && WrapperOk(PushWrapper(ds, p, def, d).0, c)
  {
  }

  lemma PushWrapperInv(ds: Defs, p: LuaId, def: DefId, d: LuaId)
    requires DefsInv(ds) && p in ds.pools && def in ds.schema && def.pool == ds.pools[p].pool
    requires d !in ds.wrappers
    ensures DefsInv(PushWrapper(ds, p, def, d).0)
  {
    if def !in ds.pools[p].cache {
      var ds' := PushWrapper(ds, p, def, d).0;
      forall c | c in ds.wrappers ensures WrapperOk(ds', c) {
        PushWrapperWrappers(ds, p, def, d, c);
      }
      forall q | q in ds.pools ensures PoolOk(ds', q) {
        PushWrapperPools(ds, p, def, d, q);
      }
      assert WrapperOk(ds', d);
    }
  }

  /** After a push, pushing the same definition again finds the same wrapper. */
  lemma PushWrapperStable(ds: Defs, p: LuaId, def: DefId, d: LuaId, d2: LuaId)
    requires DefsInv(ds) && p in ds.pools && def in ds.schema && def.pool == ds.pools[p].pool
    requires d !in ds.wrappers
    ensures var (ds', e) := PushWrapper(ds, p, def, d);
      p in ds'.pools && PushWrapper(ds', p, def, d2) == (ds', e)
  {
  }

  lemma CollectDefsInv(ds: Defs, dead: set<LuaId>)
    requires DefsInv(ds)
    ensures DefsInv(CollectDefs(ds, dead))
  {
    var ds' := CollectDefs(ds, dead);
    forall d | d in ds'.wrappers ensures WrapperOk(ds', d) {
      assert WrapperOk(ds, d);
    }
    forall p | p in ds'.pools ensures PoolOk(ds', p) {
      assert PoolOk(ds, p);
    }
  }

  lemma FreePoolInv(ds: Defs, p: LuaId)
    requires DefsInv(ds) && forall d | d in ds.wrappers :: ds.wrappers[d].pool != p
    ensures DefsInv(FreePool(ds, p))
  {
    var ds' := FreePool(ds, p);
    forall d | d in ds'.wrappers ensures WrapperOk(ds', d) {
      assert WrapperOk(ds, d);
    }
    forall q | q in ds'.pools ensures PoolOk(ds', q) {
      assert PoolOk(ds, q);
    }
  }

  lemma NewPoolInv(ds: Defs, p: LuaId, pool: nat)
    requires DefsInv(ds) && p !in ds.pools && pool !in ds.usedPools
    ensures DefsInv(NewPool(ds, p, pool))
  {
    var ds' := NewPool(ds, p, pool);
    forall d | d in ds'.wrappers ensures WrapperOk(ds', d) {
      assert WrapperOk(ds, d);
    }
    forall q | q in ds'.pools ensures PoolOk(ds', q) {
      if q != p { assert PoolOk(ds, q); }
    }
    forall q | q in ds.pools ensures ds.pools[q].pool != pool {
      assert PoolOk(ds, q);
    }
  }

  lemma AddDefsInv(ds: Defs, pool: nat, added: map<DefId, MessageDef>)
    requires DefsInv(ds) && FileOk(ds, pool, added)
    ensures DefsInv(AddDefs(ds, added))
  {
    var ds' := AddDefs(ds, added);
    forall d | d in ds'.wrappers ensures WrapperOk(ds', d) {
      assert WrapperOk(ds, d);
    }
    forall q | q in ds'.pools ensures PoolOk(ds', q) {
      assert PoolOk(ds, q);
    }
  }
}
