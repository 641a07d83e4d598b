/** The balanced fuse benchmark (benchmarks/benchmark.cc): neighbouring blocks of arenas are fused
    in rounds of doubling step.  Arenas are named by their index in the vector. */
module BalancedFuse {
  import opened Arenas

  function Pow2(n: nat): (p: nat)
    ensures p >= 1
  {
    if n == 0 then 1 else 2 * Pow2(n - 1)
  }

  /** ceil(log2(k)) */
  function CeilLog2(k: nat): nat
    requires k >= 1
    decreases k
  {
    if k == 1 then 0 else 1 + CeilLog2((k + 1) / 2)
  }

  lemma {:induction false} CeilLog2Covers(k: nat)
    requires k >= 1
    ensures k <= Pow2(CeilLog2(k)) && (k > 1 ==> Pow2(CeilLog2(k) - 1) < k)
    decreases k
  {
    if k > 1 {
      CeilLog2Covers((k + 1) / 2);
    }
  }

  /** The arenas fused with a. */
  ghost function Members(g: Groups, a: ArenaId): set<ArenaId>
    requires a in g
  {
    set c | c in g && g[c] == g[a]
  }

  /** One call of upb_Arena_Fuse: the round, the groups before it, and its arguments. */
  datatype FuseEvent = FuseEvent(round: nat, before: Groups, to: ArenaId, from: ArenaId)

  ghost predicate AllBalanced(trace: seq<FuseEvent>) {
    forall e | e in trace :: Balanced(e)
  }

  /** The trace is the run: it starts with every arena alone, each event's fuse makes the groups that
      the next event finds, and the last one makes g. */
  ghost predicate Chain(k: nat, trace: seq<FuseEvent>, g: Groups) {
    if trace == [] then Alone(k, g)
    else
      var e := trace[|trace| - 1];
      && Chain(k, trace[..|trace| - 1], e.before)
      && e.to in e.before && e.from in e.before && g == Fuse(e.before, e.to, e.from)
  }

  /** Each of k arenas is in a group of its own. */
  ghost predicate Alone(k: nat, g: Groups) {
    (forall j :: j in g <==> 0 <= j < k) && forall j | 0 <= j < k :: g[j] == j
  }

  ghost predicate Balanced(e: FuseEvent) {
    && e.to in e.before && e.from in e.before
    && e.before[e.to] != e.before[e.from]
    && |Members(e.before, e.to)| == Pow2(e.round)
    && 1 <= |Members(e.before, e.from)| <= Pow2(e.round)
  }

  /** m steps of size s. */
  function Times(m: nat, s: nat): nat {
    if m == 0 then 0 else Times(m - 1, s) + s
  }

  lemma {:induction false} TimesDouble(m: nat, s: nat)
    ensures Times(m, 2 * s) == Times(2 * m, s)
  {
    if m > 0 { TimesDouble(m - 1, s); }
  }

  /** The multiple of s at or below j. */
  function Floor(j: nat, s: nat): (f: nat)
    requires s >= 1
    ensures f <= j
  {
    if j < s then 0 else Floor(j - s, s) + s
  }

  lemma {:induction false} FloorIs(j: nat, s: nat, q: nat)
    requires s >= 1 && Times(q, s) <= j < Times(q, s) + s
    ensures Floor(j, s) == Times(q, s)
  {
    if q > 0 { FloorIs(j - s, s, q - 1); }
  }

  lemma {:induction false} FloorAtLeast(j: nat, s: nat, q: nat)
    requires s >= 1 && j >= Times(q, s)
    ensures Floor(j, s) >= Times(q, s)
  {
    if q > 0 { FloorAtLeast(j - s, s, q - 1); }
  }

  /** Groups in the middle of a round with step s: blocks of 2 * s below i, blocks of s from i on. */
  function Partial(k: nat, s: nat, i: nat): Groups
    requires s >= 1
  {
    map j: nat | 0 <= j < k :: if j < i then Floor(j, 2 * s) else Floor(j, s)
  }

  /** Where j's representative lies, seen from a boundary i of the round. */
  lemma PartialValues(k: nat, s: nat, i: nat, m: nat, j: nat)
    requires s >= 1 && i == Times(m, 2 * s) && j < k
    ensures i <= j < i + s ==> Partial(k, s, i)[j] == i
    ensures i + s <= j < i + 2 * s ==> Partial(k, s, i)[j] == i + s
    ensures j >= i + 2 * s ==> Partial(k, s, i)[j] >= i + 2 * s
    ensures j < i ==> Partial(k, s, i)[j] < i
    ensures i <= j < i + 2 * s ==> Floor(j, 2 * s) == i
  {
    TimesDouble(m, s);
    assert i + s == Times(2 * m + 1, s) && i + 2 * s == Times(2 * m + 2, s);
    if i <= j < i + s { FloorIs(j, s, 2 * m); }
    if i + s <= j < i + 2 * s { FloorIs(j, s, 2 * m + 1); }
    if j >= i + 2 * s { FloorAtLeast(j, s, 2 * m + 2); }
    if i <= j < i + 2 * s { FloorIs(j, 2 * s, m); }
  }

  /** Each fuse extends the doubled blocks by one. */
  lemma FuseStep(k: nat, s: nat, i: nat, m: nat)
    requires s >= 1 && i == Times(m, 2 * s) && i + s < k
    ensures Fuse(Partial(k, s, i), i, i + s) == Partial(k, s, i + s * 2)
  {
    var g, g', p := Partial(k, s, i), Fuse(Partial(k, s, i), i, i + s), Partial(k, s, i + s * 2);
    PartialValues(k, s, i, m, i);
    PartialValues(k, s, i, m, i + s);
    forall j | 0 <= j < k ensures g'[j] == p[j] {
      PartialValues(k, s, i, m, j);
    }
    assert g'.Keys == p.Keys;
  }

  lemma RoundEnds(k: nat, s: nat, i: nat, m: nat)
    requires s >= 1 && i == Times(m, 2 * s) && i + s >= k
    ensures Partial(k, s, i) == Partial(k, 2 * s, 0)
  {
    forall j | 0 <= j < k ensures Partial(k, s, i)[j] == Partial(k, 2 * s, 0)[j] {
      PartialValues(k, s, i, m, j);
    }
  }

  function Interval(lo: nat, hi: nat): (s: set<nat>)
    requires lo <= hi
    ensures |s| == hi - lo && forall j :: j in s <==> lo <= j < hi
    decreases hi - lo
  {
    if lo == hi then {} else Interval(lo, hi - 1) + {hi - 1}
  }

  lemma MembersAre(g: Groups, k: nat, a: ArenaId, lo: nat, hi: nat)
    requires lo <= a < hi <= k && (forall j :: j in g <==> 0 <= j < k) && g[a] == a
    requires forall j | 0 <= j < k :: g[j] == a <==> lo <= j < hi
    ensures |Members(g, a)| == hi - lo
  {
    assert Members(g, a) == Interval(lo, hi);
  }

  lemma PartialCases(k: nat, s: nat, i: nat, m: nat, hi: nat, j: nat)
    requires s >= 1 && i == Times(m, 2 * s) && i + s < k && hi == (if i + 2 * s < k then i + 2 * s else k) && j < k
    ensures Partial(k, s, i)[j] == i <==> i <= j < i + s
    ensures Partial(k, s, i)[j] == i + s <==> i + s <= j < hi
  {
    PartialValues(k, s, i, m, j);
  }

  lemma StepIsBalanced(k: nat, r: nat, s: nat, i: nat, m: nat)
    requires s == Pow2(r) && i == Times(m, 2 * s) && i + s < k
    ensures Balanced(FuseEvent(r, Partial(k, s, i), i, i + s))
  {
    var hi := if i + 2 * s < k then i + 2 * s else k;
    var g := Partial(k, s, i);
    forall j | 0 <= j < k
      ensures (g[j] == i <==> i <= j < i + s) && (g[j] == i + s <==> i + s <= j < hi)
    {
      PartialCases(k, s, i, m, hi, j);
    }
    MembersAre(g, k, i, i, i + s);
    MembersAre(g, k, i + s, i + s, hi);
  }

  /** Joining two distinct groups leaves one group fewer. */
  lemma FuseCount(g: Groups, to: ArenaId, from: ArenaId)
    requires GroupsOk(g) && to in g && from in g && g[to] != g[from]
    ensures |Fuse(g, to, from).Values| == |g.Values| - 1
  {
    var g' := Fuse(g, to, from);
    forall v | v in g.Values && v != g[from] ensures v in g'.Values {
      var a :| a in g && g[a] == v;
      assert IsRepresentative(g, g[a]);
      assert g'[a] == v;
    }
    forall v | v in g'.Values ensures v in g.Values - {g[from]} {
      var a :| a in g' && g'[a] == v;
      assert v == g[a] || v == g[to];
    }
    assert g'.Values == g.Values - {g[from]};
  }

  /** What the loops keep: the m-th pass of a round with step s has reached i, and every fuse so far
      has been balanced and has left one group fewer. */
  ghost predicate InRound(k: nat, s: nat, i: nat, m: nat, g: Groups, trace: seq<FuseEvent>)
    requires s >= 1
  {
    && i == Times(m, 2 * s) && g == Partial(k, s, i) && GroupsOk(g)
    && |trace| + |g.Values| == k && AllBalanced(trace) && Chain(k, trace, g)
  }

  lemma AloneCount(k: nat, g: Groups)
    requires Alone(k, g)
    ensures GroupsOk(g) && |g.Values| == k
  {
    forall a | a in g ensures IsRepresentative(g, g[a]) {}
    forall j | 0 <= j < k ensures j in g.Values { assert g[j] == j; }
    assert g.Values == Interval(0, k);
  }

  lemma AloneIsPartial(k: nat, g: Groups)
    requires Alone(k, g)
    ensures g == Partial(k, 1, 0)
  {
    forall j | 0 <= j < k ensures g[j] == Partial(k, 1, 0)[j] { FloorOne(j); }
    assert g.Keys == Partial(k, 1, 0).Keys;
  }

  lemma {:induction false} FloorOne(j: nat)
    ensures Floor(j, 1) == j
  {
    if j > 0 { FloorOne(j - 1); }
  }

  /** Before the first round every arena is alone. */
  lemma Singletons(k: nat, g: Groups)
    requires Alone(k, g)
    ensures InRound(k, 1, 0, 0, g, [])
  {
    AloneCount(k, g);
    AloneIsPartial(k, g);
  }

  lemma FusedPartial(k: nat, s: nat, i: nat, m: nat, g: Groups)
    requires s >= 1 && i == Times(m, 2 * s) && i + s < k && g == Partial(k, s, i) && GroupsOk(g)
    ensures i in g && i + s in g
    ensures GroupsOk(Fuse(g, i, i + s)) && Fuse(g, i, i + s) == Partial(k, s, i + s * 2)
  {
    FuseOk(g, i, i + s);
    FuseStep(k, s, i, m);
  }

  lemma BalancedLeavesOneFewer(e: FuseEvent)
    requires Balanced(e) && GroupsOk(e.before)
    ensures |Fuse(e.before, e.to, e.from).Values| == |e.before.Values| - 1
  {
    FuseCount(e.before, e.to, e.from);
  }

  /** One fuse of the inner loop. */
  lemma InnerStep(k: nat, r: nat, s: nat, i: nat, m: nat, g: Groups, trace: seq<FuseEvent>)
    requires s == Pow2(r) && i + s < k && InRound(k, s, i, m, g, trace)
    ensures i in g && i + s in g
    ensures InRound(k, s, i + s * 2, m + 1, Fuse(g, i, i + s), trace + [FuseEvent(r, g, i, i + s)])
  {
    StepIsBalanced(k, r, s, i, m);
    FusedPartial(k, s, i, m, g);
    BalancedLeavesOneFewer(FuseEvent(r, g, i, i + s));
    Recorded(k, trace, FuseEvent(r, g, i, i + s));
  }

  lemma Recorded(k: nat, trace: seq<FuseEvent>, e: FuseEvent)
    requires AllBalanced(trace) && Balanced(e) && Chain(k, trace, e.before)
    ensures AllBalanced(trace + [e]) && Chain(k, trace + [e], Fuse(e.before, e.to, e.from))
  {
    assert (trace + [e])[..|trace|] == trace;
  }

  lemma NextRound(k: nat, s: nat, i: nat, m: nat, g: Groups, trace: seq<FuseEvent>)
    requires s >= 1 && i + s >= k && InRound(k, s, i, m, g, trace)
    ensures InRound(k, 2 * s, 0, 0, g, trace)
  {
    RoundEnds(k, s, i, m);
  }

  lemma LastRound(k: nat, n: nat, g: Groups, trace: seq<FuseEvent>)
    requires n > 0 && 1 <= k <= Pow2(n - 1) && InRound(k, Pow2(n), 0, 0, g, trace)
    ensures (forall j :: j in g <==> 0 <= j < k) && forall i, j | i in g && j in g :: g[i] == g[j]
    ensures |trace| == k - 1 && AllBalanced(trace) && Chain(k, trace, g)
  {
    var s := Pow2(n);
    forall j | 0 <= j < k ensures g[j] == 0 {
      FloorIs(j, s, 0);
    }
    assert g[0] == 0;
    assert g.Values == {0};
  }

  /** The body of the inner loop: one call of upb_Arena_Fuse. */
  method FusePair(k: nat, n: nat, step: nat, i: nat, ghost m: nat, before: Groups, ghost done: seq<FuseEvent>)
    returns (groups: Groups, ghost trace: seq<FuseEvent>)
    requires step == Pow2(n) && i + step < k && InRound(k, step, i, m, before, done)
    ensures i in before && i + step in before && groups == Fuse(before, i, i + step)
    ensures trace == done + [FuseEvent(n, before, i, i + step)]
    ensures InRound(k, step, i + step * 2, m + 1, groups, trace)
  {
    InnerStep(k, n, step, i, m, before, done);
    groups := Fuse(before, i, i + step);
    trace := done + [FuseEvent(n, before, i, i + step)];
  }

  /** The inner loop: one round of fuses with the given step. */
  method FuseRound(k: nat, n: nat, step: nat, before: Groups, ghost done: seq<FuseEvent>)
    returns (groups: Groups, ghost trace: seq<FuseEvent>)
    requires step == Pow2(n) && InRound(k, step, 0, 0, before, done)
    ensures InRound(k, 2 * step, 0, 0, groups, trace)
  {
    groups, trace := before, done;
    var i := 0;
    ghost var m := 0;
    while i + step < k
      invariant InRound(k, step, i, m, groups, trace)
      decreases k - i
    {
      groups, trace := FusePair(k, n, step, i, m, groups, trace);
      i, m := i + step * 2, m + 1;
    }
    NextRound(k, step, i, m, groups, trace);
  }

  method NewArenas(k: nat) returns (groups: Groups)
    ensures Alone(k, groups)
  {
    groups := map[];
    for a := 0 to k
      invariant Alone(a, groups)
    {
      groups := groups[a := a];
    }
  }

  /** The benchmark's loops: the run that the trace records ends with one group after exactly k - 1
      fuses, and every fuse joins a full block of the round's size with a different, nonempty one that
      is at most as large. */
  method FuseBalanced(k: nat) returns (groups: Groups, ghost trace: seq<FuseEvent>)
    requires k >= 1
    ensures forall j :: j in groups <==> 0 <= j < k
    ensures forall i, j | i in groups && j in groups :: groups[i] == groups[j]
    ensures Chain(k, trace, groups) && |trace| == k - 1 && AllBalanced(trace)
  {
    groups := NewArenas(k);
    trace := [];
    Singletons(k, groups);
    var max := CeilLog2(k);
    var n, step := 0, 1;
    while n <= max
      invariant 0 <= n <= max + 1 && step == Pow2(n)
      invariant InRound(k, step, 0, 0, groups, trace)
    {
      groups, trace := FuseRound(k, n, step, groups, trace);
      n, step := n + 1, 2 * step;
    }
    CeilLog2Covers(k);
    LastRound(k, n, groups, trace);
  }
}
