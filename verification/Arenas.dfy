/** upb arenas and their fused groups: the part of upb_Arena both the Lua binding and the fuse
    benchmark rely on. */
module Arenas {
  type ArenaId = nat

  /** Every known arena, mapped to the representative of its fused group. */
  type Groups = map<ArenaId, ArenaId>

  ghost predicate IsRepresentative(g: Groups, r: ArenaId) {
    r in g && g[r] == r
  }

  ghost predicate GroupsOk(g: Groups) {
    forall a {:trigger IsRepresentative(g, g[a])} | a in g :: IsRepresentative(g, g[a])
  }

  /** upb_Arena_Fuse: the group of `from` is merged into the group of `to`. */
  function Fuse(g: Groups, to: ArenaId, from: ArenaId): (g': Groups)
    requires to in g && from in g
  {
    map a | a in g :: if g[a] == g[from] then g[to] else g[a]
  }

  lemma FuseOk(g: Groups, to: ArenaId, from: ArenaId)
    requires GroupsOk(g) && to in g && from in g
    ensures GroupsOk(Fuse(g, to, from))
  {
    forall a | a in g ensures IsRepresentative(Fuse(g, to, from), Fuse(g, to, from)[a]) {
      assert IsRepresentative(g, g[a]);
      assert IsRepresentative(g, g[to]);
    }
  }

  /** Fusing is the least coarsening that joins the two groups. */
  lemma FuseMerges(g: Groups, to: ArenaId, from: ArenaId, a: ArenaId, b: ArenaId)
    requires to in g && from in g && a in g && b in g
    ensures Fuse(g, to, from)[a] == Fuse(g, to, from)[b] <==>
      g[a] == g[b] || (g[a] in {g[to], g[from]} && g[b] in {g[to], g[from]})
  {
  }
}
