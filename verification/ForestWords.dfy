/** The words that hold fused upb arenas together (php-upb.c): each arena points to a parent, or is
    the root of its tree and counts the arenas of the tree that are not freed. */
module ForestWords {
  import opened Arenas
  import opened UpbMemory

  /** Each arena's parent_or_count.  Arenas are named by their addresses, halved. */
  type Words = map<ArenaId, nat>

  /** The low bit tells a pointer from a count. */
  predicate IsPointer(word: nat) {
    word % 2 == 0
  }

  function Untag(word: nat): nat {
    word / 2
  }

  function TaggedPointer(a: ArenaId): (word: nat)
    ensures IsPointer(word) && Untag(word) == a
  {
    2 * a
  }

  function TaggedCount(n: nat): (word: nat)
    ensures !IsPointer(word) && Untag(word) == n
  {
    2 * n + 1
  }

  /** Parents have lower addresses, so there are no cycles. */
  ghost predicate Ordered(words: Words) {
    forall a | a in words && IsPointer(words[a]) :: Untag(words[a]) in words && Untag(words[a]) < a
  }

  ghost function Root(words: Words, a: ArenaId): (r: ArenaId)
    requires Ordered(words) && a in words
    ensures r in words && !IsPointer(words[r]) && r <= a
    decreases a
  {
    if IsPointer(words[a]) then Root(words, Untag(words[a])) else a
  }

  /** The number of steps from an arena to its root. */
  ghost function Depth(words: Words, a: ArenaId): nat
    requires Ordered(words) && a in words
    decreases a
  {
    if IsPointer(words[a]) then 1 + Depth(words, Untag(words[a])) else 0
  }

  ghost predicate IsRoot(words: Words, r: ArenaId) {
    r in words && !IsPointer(words[r])
  }

  ghost function Tree(words: Words, r: ArenaId): set<ArenaId>
    requires Ordered(words)
  {
    set a | a in words && Root(words, a) == r
  }

  // ---------- path splitting ----------

  /** One step of a search: a is made to point to its grandparent. */
  function Split(words: Words, a: ArenaId): Words
    requires a in words && Untag(words[a]) in words
  {
    words[a := words[Untag(words[a])]]
  }

  ghost predicate Splits(words: Words, a: ArenaId) {
    Ordered(words) && a in words && IsPointer(words[a]) && IsPointer(words[Untag(words[a])])
  }

  lemma SplitOrdered(words: Words, a: ArenaId)
    requires Splits(words, a)
    ensures Ordered(Split(words, a))
  {
  }

  /** Splitting changes no root, and no path becomes longer. */
  lemma {:induction false} SplitKeepsRoot(words: Words, a: ArenaId, b: ArenaId)
    requires Splits(words, a) && b in words
    ensures Ordered(Split(words, a)) && Root(Split(words, a), b) == Root(words, b)
    ensures Depth(Split(words, a), b) <= Depth(words, b)
    decreases b
  {
    SplitOrdered(words, a);
    if IsPointer(words[b]) {
      var parent := Untag(words[b]);
      SplitKeepsRoot(words, a, parent);
      if b == a { SplitKeepsRoot(words, a, Untag(words[parent])); }
    }
  }

  /** The two forests have the same arenas, roots and counts, and paths at most as long. */
  ghost predicate Flatter(words: Words, words': Words) {
    && Ordered(words) && Ordered(words') && words'.Keys == words.Keys
    && (forall a {:trigger Root(words', a)} {:trigger Root(words, a)} | a in words ::
          Root(words', a) == Root(words, a) && Depth(words', a) <= Depth(words, a))
    && (forall r | IsRoot(words, r) :: words'[r] == words[r])
  }

  lemma SplitFlattens(words: Words, a: ArenaId)
    requires Splits(words, a)
    ensures Flatter(words, Split(words, a))
  {
    SplitOrdered(words, a);
    forall b {:trigger Root(words, b)} {:trigger Root(Split(words, a), b)} | b in words
      ensures Root(Split(words, a), b) == Root(words, b) && Depth(Split(words, a), b) <= Depth(words, b)
    {
      SplitKeepsRoot(words, a, b);
    }
  }

  lemma FlatterTransitive(w1: Words, w2: Words, w3: Words)
    requires Flatter(w1, w2) && Flatter(w2, w3)
    ensures Flatter(w1, w3)
  {
    forall r | IsRoot(w1, r) ensures w3[r] == w1[r] {
      assert IsRoot(w2, r);
    }
  }

  lemma FlatterItself(words: Words)
    requires Ordered(words)
    ensures Flatter(words, words)
  {
  }

  lemma FlatterTree(words: Words, words': Words, r: ArenaId)
    requires Flatter(words, words')
    ensures Tree(words', r) == Tree(words, r)
    ensures IsRoot(words', r) <==> IsRoot(words, r)
  {
    if IsRoot(words', r) { assert Root(words', r) == r == Root(words, r); }
  }

  /** A whole search from a: every arena on the way that has a grandparent points to it afterwards. */
  ghost function SplitPath(words: Words, a: ArenaId): (words': Words)
    requires Ordered(words) && a in words
    ensures Ordered(words') && words'.Keys == words.Keys
    ensures forall b {:trigger words'[b]} | b in words && b > a :: words'[b] == words[b]
    decreases a
  {
    if IsPointer(words[a]) then
      var parent := Untag(words[a]);
      if IsPointer(words[parent]) then SplitPath(Split(words, a), parent) else words
    else words
  }

  /** The forests agree on b and everything below it. */
  lemma {:induction false} SameDepth(words: Words, words': Words, b: ArenaId)
    requires Ordered(words) && Ordered(words') && words'.Keys == words.Keys && b in words
    requires forall c | c in words && c <= b :: words'[c] == words[c]
    ensures Depth(words', b) == Depth(words, b)
    decreases b
  {
    if IsPointer(words[b]) { SameDepth(words, words', Untag(words[b])); }
  }

  /** b is a or lies on the way from a to its root. */
  ghost predicate OnPath(words: Words, a: ArenaId, b: ArenaId)
    requires Ordered(words) && a in words
    decreases a
  {
    a == b || (IsPointer(words[a]) && OnPath(words, Untag(words[a]), b))
  }

  lemma {:induction false} SamePath(words: Words, words': Words, a: ArenaId, b: ArenaId)
    requires Ordered(words) && Ordered(words') && words'.Keys == words.Keys && a in words
    requires forall c | c in words && c <= a :: words'[c] == words[c]
    ensures OnPath(words', a, b) <==> OnPath(words, a, b)
    ensures OnPath(words, a, b) ==> b in words && b <= a
    decreases a
  {
    if IsPointer(words[a]) { SamePath(words, words', Untag(words[a]), b); }
  }

  /** A search halves the way to the root, for every arena it meets. */
  lemma {:induction false} SplitPathHalves(words: Words, a: ArenaId, b: ArenaId)
    requires Ordered(words) && a in words && OnPath(words, a, b)
    ensures b in words && Depth(SplitPath(words, a), b) == (Depth(words, b) + 1) / 2
    decreases a
  {
    SamePath(words, words, a, b);
    if Splits(words, a) {
      var parent, split := Untag(words[a]), Split(words, a);
      SplitOrdered(words, a);
      if b == a {
        var grandparent := Untag(words[parent]);
        SamePath(words, split, parent, grandparent);
        SplitPathHalves(split, parent, grandparent);
        SameDepth(words, split, grandparent);
      } else {
        SamePath(words, split, parent, b);
        SplitPathHalves(split, parent, b);
        SameDepth(words, split, b);
      }
    } else if IsPointer(words[a]) {
      assert b == a || b == Untag(words[a]);
    }
  }

  // ---------- fusing two trees ----------

  /** Root r2 is hung below root r1, which takes over its count. */
  function Hang(words: Words, r1: ArenaId, r2: ArenaId): Words
    requires r1 in words && r2 in words && words[r2] >= 1
  {
    words[r1 := words[r1] + (words[r2] - 1)][r2 := TaggedPointer(r1)]
  }

  ghost predicate Hangs(words: Words, r1: ArenaId, r2: ArenaId) {
    Ordered(words) && IsRoot(words, r1) && IsRoot(words, r2) && r1 < r2
  }

  lemma HangCounts(words: Words, r1: ArenaId, r2: ArenaId)
    requires Hangs(words, r1, r2)
    ensures words[r2] >= 1 && Ordered(Hang(words, r1, r2)) && IsRoot(Hang(words, r1, r2), r1)
    ensures Untag(Hang(words, r1, r2)[r1]) == Untag(words[r1]) + Untag(words[r2])
    ensures forall r | r != r1 && r != r2 :: IsRoot(Hang(words, r1, r2), r) <==> IsRoot(words, r)
  {
  }

  /** The arenas of r2's tree get root r1; all others keep their root. */
  lemma {:induction false} HangRoots(words: Words, r1: ArenaId, r2: ArenaId, a: ArenaId)
    requires Hangs(words, r1, r2) && a in words
    ensures words[r2] >= 1 && Ordered(Hang(words, r1, r2))
    ensures Root(Hang(words, r1, r2), a) == if Root(words, a) == r2 then r1 else Root(words, a)
    decreases a
  {
    HangCounts(words, r1, r2);
    var hung := Hang(words, r1, r2);
    if IsPointer(words[a]) {
      assert a != r1 && a != r2 && hung[a] == words[a];
      HangRoots(words, r1, r2, Untag(words[a]));
    } else if a == r2 {
      assert Root(hung, r1) == r1;
    }
  }

  lemma HangTrees(words: Words, r1: ArenaId, r2: ArenaId, r: ArenaId)
    requires Hangs(words, r1, r2)
    ensures words[r2] >= 1 && Ordered(Hang(words, r1, r2))
    ensures Tree(Hang(words, r1, r2), r) ==
      if r == r1 then Tree(words, r1) + Tree(words, r2) else if r == r2 then {} else Tree(words, r)
  {
    HangCounts(words, r1, r2);
    forall a {:trigger Root(words, a)} {:trigger Root(Hang(words, r1, r2), a)} | a in words
      ensures Root(Hang(words, r1, r2), a) == if Root(words, a) == r2 then r1 else Root(words, a)
    {
      HangRoots(words, r1, r2, a);
    }
  }

  // ---------- releasing a tree ----------

  lemma {:induction false} WithoutTreeRoot(words: Words, r: ArenaId, a: ArenaId)
    requires Ordered(words) && a in words && Root(words, a) != r
    ensures var rest := words - Tree(words, r);
      Ordered(rest) && a in rest && Root(rest, a) == Root(words, a)
    decreases a
  {
    var rest := words - Tree(words, r);
    assert Ordered(rest) by {
      forall b | b in rest && IsPointer(rest[b]) ensures Untag(rest[b]) in rest {
        assert Root(words, Untag(words[b])) == Root(words, b);
      }
    }
    if IsPointer(words[a]) { WithoutTreeRoot(words, r, Untag(words[a])); }
  }

  lemma WithoutTree(words: Words, r: ArenaId)
    requires Ordered(words)
    ensures var rest := words - Tree(words, r);
      && Ordered(rest)
      && (forall a {:trigger Root(rest, a)} {:trigger Root(words, a)} | a in rest :: Root(rest, a) == Root(words, a))
      && (forall q | q != r :: Tree(rest, q) == Tree(words, q) && (IsRoot(rest, q) <==> IsRoot(words, q)))
  {
    var rest := words - Tree(words, r);
    assert Ordered(rest) by {
      forall b | b in rest && IsPointer(rest[b]) ensures Untag(rest[b]) in rest {
        assert Root(words, Untag(words[b])) == Root(words, b);
      }
    }
    forall a {:trigger Root(rest, a)} {:trigger Root(words, a)} | a in rest ensures Root(rest, a) == Root(words, a) {
      WithoutTreeRoot(words, r, a);
    }
    forall q | q != r && IsRoot(words, q) ensures IsRoot(rest, q) { assert Root(words, q) == q; }
  }

  // ---------- the groups ----------

  /** The trees are the groups. */
  ghost predicate Represents(words: Words, g: Groups) {
    && Ordered(words) && words.Keys == g.Keys
    && forall a, b {:trigger Root(words, a), Root(words, b)} {:trigger g[a], g[b]} | a in words && b in words ::
         Root(words, a) == Root(words, b) <==> g[a] == g[b]
  }

  lemma FlatterRepresents(words: Words, words': Words, g: Groups)
    requires Flatter(words, words') && Represents(words, g)
    ensures Represents(words', g)
  {
  }

  lemma HangRefinesPair(words: Words, r1: ArenaId, r2: ArenaId, g: Groups, to: ArenaId, from: ArenaId,
      a: ArenaId, b: ArenaId)
    requires Hangs(words, r1, r2) && Represents(words, g) && to in words && from in words
    requires a in words && b in words && {Root(words, to), Root(words, from)} == {r1, r2}
    ensures words[r2] >= 1 && Ordered(Hang(words, r1, r2))
    ensures Root(Hang(words, r1, r2), a) == Root(Hang(words, r1, r2), b) <==>
      Fuse(g, to, from)[a] == Fuse(g, to, from)[b]
  {
    HangRoots(words, r1, r2, a);
    HangRoots(words, r1, r2, b);
    FuseMerges(g, to, from, a, b);
    assert g[a] in {g[to], g[from]} <==> Root(words, a) in {r1, r2};
    assert g[b] in {g[to], g[from]} <==> Root(words, b) in {r1, r2};
  }

  /** Hanging one root below the other fuses the groups of any two arenas of their trees. */
  lemma HangRefinesFuse(words: Words, r1: ArenaId, r2: ArenaId, g: Groups, to: ArenaId, from: ArenaId)
    requires Hangs(words, r1, r2) && Represents(words, g) && to in words && from in words
    requires {Root(words, to), Root(words, from)} == {r1, r2}
    ensures words[r2] >= 1 && Represents(Hang(words, r1, r2), Fuse(g, to, from))
  {
    HangCounts(words, r1, r2);
    forall a, b | a in words && b in words
      ensures Root(Hang(words, r1, r2), a) == Root(Hang(words, r1, r2), b) <==>
        Fuse(g, to, from)[a] == Fuse(g, to, from)[b]
    {
      HangRefinesPair(words, r1, r2, g, to, from, a, b);
    }
  }

  /** Arenas of one tree are in one group already. */
  lemma SameTreeFuse(words: Words, g: Groups, to: ArenaId, from: ArenaId)
    requires Represents(words, g) && to in words && from in words && Root(words, to) == Root(words, from)
    ensures Fuse(g, to, from) == g
  {
  }

  // ---------- the counts ----------

  ghost predicate CountIs(words: Words, unfreed: set<ArenaId>, r: ArenaId)
    requires Ordered(words) && r in words
  {
    Untag(words[r]) == |Tree(words, r) * unfreed| >= 1
  }

  /** Each root counts the arenas of its tree that are not freed, and there is one. */
  ghost predicate Counted(words: Words, unfreed: set<ArenaId>) {
    && Ordered(words) && unfreed <= words.Keys
    && forall r {:trigger CountIs(words, unfreed, r)} | IsRoot(words, r) :: CountIs(words, unfreed, r)
  }

  lemma FlatterCounted(words: Words, words': Words, unfreed: set<ArenaId>)
    requires Flatter(words, words') && Counted(words, unfreed)
    ensures Counted(words', unfreed)
  {
    forall r | IsRoot(words', r) ensures CountIs(words', unfreed, r) {
      FlatterTree(words, words', r);
      assert CountIs(words, unfreed, r);
    }
  }

  lemma HangSum(words: Words, unfreed: set<ArenaId>, r1: ArenaId, r2: ArenaId)
    requires Hangs(words, r1, r2) && CountIs(words, unfreed, r1) && CountIs(words, unfreed, r2)
    ensures words[r2] >= 1 && Ordered(Hang(words, r1, r2)) && CountIs(Hang(words, r1, r2), unfreed, r1)
  {
    HangCounts(words, r1, r2);
    HangTrees(words, r1, r2, r1);
    var t1, t2 := Tree(words, r1) * unfreed, Tree(words, r2) * unfreed;
    assert (Tree(words, r1) + Tree(words, r2)) * unfreed == t1 + t2 && t1 !! t2;
  }

  lemma HangCounted(words: Words, unfreed: set<ArenaId>, r1: ArenaId, r2: ArenaId)
    requires Hangs(words, r1, r2) && Counted(words, unfreed)
    ensures words[r2] >= 1 && Counted(Hang(words, r1, r2), unfreed)
  {
    HangCounts(words, r1, r2);
    var hung := Hang(words, r1, r2);
    assert CountIs(words, unfreed, r1) && CountIs(words, unfreed, r2);
    HangSum(words, unfreed, r1, r2);
    forall r | IsRoot(hung, r) ensures CountIs(hung, unfreed, r) {
      if r != r1 {
        assert r != r2 && CountIs(words, unfreed, r);
        HangTrees(words, r1, r2, r);
      }
    }
  }

  /** A new arena is a tree of its own. */
  lemma {:induction false} PlantedRoot(words: Words, n: ArenaId, a: ArenaId)
    requires Ordered(words) && n !in words && a in words
    ensures Ordered(words[n := TaggedCount(1)]) && Root(words[n := TaggedCount(1)], a) == Root(words, a)
    decreases a
  {
    if IsPointer(words[a]) { PlantedRoot(words, n, Untag(words[a])); }
  }

  lemma PlantedTrees(words: Words, n: ArenaId, r: ArenaId)
    requires Ordered(words) && n !in words
    ensures var planted := words[n := TaggedCount(1)];
      Ordered(planted) && Tree(planted, r) == if r == n then {n} else Tree(words, r)
  {
    var planted := words[n := TaggedCount(1)];
    assert Root(planted, n) == n;
    forall a {:trigger Root(planted, a)} {:trigger Root(words, a)} | a in words
      ensures Root(planted, a) == Root(words, a)
    {
      PlantedRoot(words, n, a);
    }
  }

  lemma PlantedCounted(words: Words, unfreed: set<ArenaId>, n: ArenaId)
    requires Counted(words, unfreed) && n !in words
    ensures Counted(words[n := TaggedCount(1)], unfreed + {n})
  {
    var planted := words[n := TaggedCount(1)];
    PlantedTrees(words, n, n);
    forall r | IsRoot(planted, r) ensures CountIs(planted, unfreed + {n}, r) {
      PlantedTrees(words, n, r);
      if r == n {
        assert {n} * (unfreed + {n}) == {n};
      } else {
        assert CountIs(words, unfreed, r);
        assert Tree(words, r) * (unfreed + {n}) == Tree(words, r) * unfreed;
      }
    }
  }

  /** The word of root r after one arena of its tree is freed. */
  function Decremented(words: Words, r: ArenaId): Words
    requires r in words && Untag(words[r]) >= 1
  {
    words[r := TaggedCount(Untag(words[r]) - 1)]
  }

  lemma {:induction false} DecrementedRoot(words: Words, r: ArenaId, a: ArenaId)
    requires Ordered(words) && IsRoot(words, r) && Untag(words[r]) >= 1 && a in words
    ensures Ordered(Decremented(words, r)) && Root(Decremented(words, r), a) == Root(words, a)
    decreases a
  {
    if IsPointer(words[a]) { DecrementedRoot(words, r, Untag(words[a])); }
  }

  lemma DecrementedTrees(words: Words, r: ArenaId, q: ArenaId)
    requires Ordered(words) && IsRoot(words, r) && Untag(words[r]) >= 1
    ensures Ordered(Decremented(words, r)) && Tree(Decremented(words, r), q) == Tree(words, q)
  {
    forall a {:trigger Root(words, a)} {:trigger Root(Decremented(words, r), a)} | a in words
      ensures Root(Decremented(words, r), a) == Root(words, a)
    {
      DecrementedRoot(words, r, a);
    }
  }

  lemma DecrementedCounted(words: Words, unfreed: set<ArenaId>, a: ArenaId)
    requires Counted(words, unfreed) && a in unfreed && Untag(words[Root(words, a)]) > 1
    ensures Counted(Decremented(words, Root(words, a)), unfreed - {a})
  {
    var r := Root(words, a);
    var words' := Decremented(words, r);
    DecrementedTrees(words, r, r);
    forall q | IsRoot(words', q) ensures CountIs(words', unfreed - {a}, q) {
      DecrementedTrees(words, r, q);
      assert CountIs(words, unfreed, q);
      var counted := Tree(words, q) * unfreed;
      assert Tree(words, q) * (unfreed - {a}) == counted - {a};
    }
  }

  /** A root's count is one exactly when no other arena of the tree is unfreed. */
  lemma LastOfTree(words: Words, unfreed: set<ArenaId>, a: ArenaId)
    requires Counted(words, unfreed) && a in unfreed
    ensures var r := Root(words, a);
      Untag(words[r]) == 1 <==> forall b | b in unfreed && Root(words, b) == r :: b == a
  {
    var r := Root(words, a);
    assert CountIs(words, unfreed, r);
    var counted := Tree(words, r) * unfreed;
    assert a in counted && |counted - {a}| == |counted| - 1;
    if Untag(words[r]) == 1 {
      assert counted - {a} == {};
      forall b | b in unfreed && Root(words, b) == r ensures b == a { assert b in counted; }
    }
    if forall b | b in unfreed && Root(words, b) == r :: b == a {
      assert counted == {a};
    }
  }

  lemma ReleasedCounted(words: Words, unfreed: set<ArenaId>, a: ArenaId)
    requires Counted(words, unfreed) && a in unfreed && Untag(words[Root(words, a)]) == 1
    ensures Counted(words - Tree(words, Root(words, a)), unfreed - {a})
  {
    var r := Root(words, a);
    var rest := words - Tree(words, r);
    WithoutTree(words, r);
    LastOfTree(words, unfreed, a);
    forall q | IsRoot(rest, q) ensures CountIs(rest, unfreed - {a}, q) {
      assert q != r by { assert Root(words, r) == r; }
      assert CountIs(words, unfreed, q);
      assert Tree(words, q) * (unfreed - {a}) == Tree(words, q) * unfreed;
    }
  }

  // ---------- refinement ----------

  /** The forest stands for the arenas of m. */
  ghost predicate ModelOf(words: Words, unfreed: set<ArenaId>, m: Memory) {
    MemInv(m) && Represents(words, m.groups) && m.unfreed == unfreed
  }

  lemma PlantRepresents(words: Words, g: Groups, n: ArenaId)
    requires Represents(words, g) && GroupsOk(g) && n !in words
    ensures Represents(words[n := TaggedCount(1)], g[n := n])
  {
    var planted := words[n := TaggedCount(1)];
    PlantedTrees(words, n, n);
    forall a {:trigger Root(planted, a)} {:trigger g[a]} | a in words
      ensures Root(planted, a) == Root(words, a) && g[a] != n
    {
      PlantedRoot(words, n, a);
      assert IsRepresentative(g, g[a]);
    }
    assert Root(planted, n) == n;
  }

  lemma PlantRefines(words: Words, unfreed: set<ArenaId>, m: Memory, n: ArenaId)
    requires ModelOf(words, unfreed, m) && n !in words
    ensures ModelOf(words[n := TaggedCount(1)], unfreed + {n}, UpbMemory.NewArena(m, n))
  {
    NewArenaInv(m, n);
    PlantRepresents(words, m.groups, n);
  }

  lemma FuseRefines(words: Words, unfreed: set<ArenaId>, m: Memory, r1: ArenaId, r2: ArenaId,
      to: ArenaId, from: ArenaId)
    requires ModelOf(words, unfreed, m) && Hangs(words, r1, r2) && to in words && from in words
    requires {Root(words, to), Root(words, from)} == {r1, r2}
    ensures words[r2] >= 1 && ModelOf(Hang(words, r1, r2), unfreed, FuseArenas(m, to, from))
  {
    FuseInv(m, to, from);
    HangRefinesFuse(words, r1, r2, m.groups, to, from);
  }

  lemma SameTreeRefines(words: Words, flat: Words, unfreed: set<ArenaId>, m: Memory, to: ArenaId, from: ArenaId)
    requires ModelOf(words, unfreed, m) && Flatter(words, flat) && to in words && from in words
    requires Root(words, to) == Root(words, from)
    ensures ModelOf(flat, unfreed, FuseArenas(m, to, from))
  {
    SameTreeFuse(words, m.groups, to, from);
    FlatterRepresents(words, flat, m.groups);
  }

  /** The group outlives arena a exactly when the root of a counts another unfreed arena. */
  lemma CountDecides(words: Words, unfreed: set<ArenaId>, m: Memory, a: ArenaId)
    requires ModelOf(words, unfreed, m) && Counted(words, unfreed) && a in unfreed
    ensures Survives(m, a, m.groups[a]) <==> Untag(words[Root(words, a)]) > 1
  {
    LastOfTree(words, unfreed, a);
    assert CountIs(words, unfreed, Root(words, a));
    if Survives(m, a, m.groups[a]) {
      var b :| b in unfreed - {a} && m.groups[b] == m.groups[a];
      assert Root(words, b) == Root(words, a);
    }
    if b :| b in unfreed && Root(words, b) == Root(words, a) && b != a {
      assert m.groups[b] == m.groups[a] && b in unfreed - {a};
    }
  }

  lemma DecrementRefines(words: Words, unfreed: set<ArenaId>, m: Memory, a: ArenaId)
    requires ModelOf(words, unfreed, m) && Counted(words, unfreed) && a in unfreed
    requires Untag(words[Root(words, a)]) > 1
    ensures ModelOf(Decremented(words, Root(words, a)), unfreed - {a}, FreeArena(m, a))
    ensures FreeArena(m, a).heap == m.heap
  {
    FreeArenaInv(m, a);
    CountDecides(words, unfreed, m, a);
    var r := Root(words, a);
    DecrementedTrees(words, r, r);
    forall b {:trigger Root(words, b)} {:trigger Root(Decremented(words, r), b)} | b in words
      ensures Root(Decremented(words, r), b) == Root(words, b)
    {
      DecrementedRoot(words, r, b);
    }
  }

  lemma ReleaseRefines(words: Words, unfreed: set<ArenaId>, m: Memory, a: ArenaId)
    requires ModelOf(words, unfreed, m) && Counted(words, unfreed) && a in unfreed
    requires Untag(words[Root(words, a)]) == 1
    ensures ModelOf(words - Tree(words, Root(words, a)), unfreed - {a}, FreeArena(m, a))
    ensures forall x | x in m.heap :: x in FreeArena(m, a).heap <==> m.home[x] !in Tree(words, Root(words, a))
  {
    FreeArenaInv(m, a);
    CountDecides(words, unfreed, m, a);
    WithoutTree(words, Root(words, a));
    forall b | b in words ensures b in Tree(words, Root(words, a)) <==> m.groups[b] == m.groups[a] {}
  }

  // ---------- the operations, for every memory the forest stands for ----------

  ghost predicate RefinesNew(words: Words, unfreed: set<ArenaId>, words': Words, unfreed': set<ArenaId>, n: ArenaId) {
    forall m | ModelOf(words, unfreed, m) :: ModelOf(words', unfreed', UpbMemory.NewArena(m, n))
  }

  ghost predicate RefinesFuse(words: Words, unfreed: set<ArenaId>, words': Words, to: ArenaId, from: ArenaId)
    requires to in words && from in words
  {
    forall m | ModelOf(words, unfreed, m) :: ModelOf(words', unfreed, FuseArenas(m, to, from))
  }

  ghost predicate RefinesFree(words: Words, unfreed: set<ArenaId>, words': Words, unfreed': set<ArenaId>, a: ArenaId)
    requires a in unfreed
  {
    forall m | ModelOf(words, unfreed, m) :: ModelOf(words', unfreed', FreeArena(m, a))
  }

  /** The objects that go are those that lie in a released arena. */
  ghost predicate ObjectsGo(words: Words, unfreed: set<ArenaId>, a: ArenaId, gone: set<ArenaId>)
    requires a in unfreed
  {
    forall m, x | ModelOf(words, unfreed, m) && x in m.heap :: x in FreeArena(m, a).heap <==> m.home[x] !in gone
  }

  lemma PlantRefinesAll(words: Words, unfreed: set<ArenaId>, n: ArenaId)
    requires n !in words
    ensures RefinesNew(words, unfreed, words[n := TaggedCount(1)], unfreed + {n}, n)
  {
    forall m | ModelOf(words, unfreed, m)
      ensures ModelOf(words[n := TaggedCount(1)], unfreed + {n}, UpbMemory.NewArena(m, n))
    {
      PlantRefines(words, unfreed, m, n);
    }
  }

  /** Of the roots r1 and r2, the one with the higher address has been hung below the other. */
  ghost predicate HungByAddress(words: Words, words': Words, r1: ArenaId, r2: ArenaId) {
    var low, high := if r1 < r2 then r1 else r2, if r1 < r2 then r2 else r1;
    Hangs(words, low, high) && words[high] >= 1 && words' == Hang(words, low, high)
  }

  /** What fusing two arenas does to the words: paths get shorter, and two different roots are hung
      together. */
  ghost predicate FusesFlat(words: Words, flat: Words, words': Words, a1: ArenaId, a2: ArenaId) {
    && Flatter(words, flat) && a1 in words && a2 in words
    && var r1, r2 := Root(words, a1), Root(words, a2);
    if r1 == r2 then words' == flat else HungByAddress(flat, words', r1, r2)
  }

  ghost predicate Fuses(words: Words, words': Words, a1: ArenaId, a2: ArenaId) {
    exists flat :: FusesFlat(words, flat, words', a1, a2)
  }

  lemma FusesFlatRefines(words: Words, flat: Words, words': Words, unfreed: set<ArenaId>, m: Memory,
      a1: ArenaId, a2: ArenaId)
    requires FusesFlat(words, flat, words', a1, a2) && ModelOf(words, unfreed, m)
    ensures ModelOf(words', unfreed, FuseArenas(m, a1, a2))
  {
    var r1, r2 := Root(words, a1), Root(words, a2);
    if r1 == r2 {
      SameTreeRefines(words, flat, unfreed, m, a1, a2);
    } else {
      FlatterRepresents(words, flat, m.groups);
      FuseRefines(flat, unfreed, m, if r1 < r2 then r1 else r2, if r1 < r2 then r2 else r1, a1, a2);
    }
  }

  /** Fusing two arenas does to the groups what module Arenas says. */
  lemma FusesRefines(words: Words, words': Words, unfreed: set<ArenaId>, a1: ArenaId, a2: ArenaId)
    requires Fuses(words, words', a1, a2)
    ensures a1 in words && a2 in words && RefinesFuse(words, unfreed, words', a1, a2)
  {
    var flat :| FusesFlat(words, flat, words', a1, a2);
    forall m | ModelOf(words, unfreed, m) ensures ModelOf(words', unfreed, FuseArenas(m, a1, a2)) {
      FusesFlatRefines(words, flat, words', unfreed, m, a1, a2);
    }
  }

  lemma DecrementRefinesAll(words: Words, unfreed: set<ArenaId>, a: ArenaId)
    requires Counted(words, unfreed) && a in unfreed && Untag(words[Root(words, a)]) > 1
    ensures RefinesFree(words, unfreed, Decremented(words, Root(words, a)), unfreed - {a}, a)
    ensures ObjectsGo(words, unfreed, a, {})
  {
    forall m | ModelOf(words, unfreed, m)
      ensures ModelOf(Decremented(words, Root(words, a)), unfreed - {a}, FreeArena(m, a))
      ensures FreeArena(m, a).heap == m.heap
    {
      DecrementRefines(words, unfreed, m, a);
    }
  }

  lemma ReleaseRefinesAll(words: Words, unfreed: set<ArenaId>, a: ArenaId)
    requires Counted(words, unfreed) && a in unfreed && Untag(words[Root(words, a)]) == 1
    ensures var gone := Tree(words, Root(words, a));
      RefinesFree(words, unfreed, words - gone, unfreed - {a}, a) && ObjectsGo(words, unfreed, a, gone)
  {
    var gone := Tree(words, Root(words, a));
    forall m | ModelOf(words, unfreed, m)
      ensures ModelOf(words - gone, unfreed - {a}, FreeArena(m, a))
      ensures forall x | x in m.heap :: x in FreeArena(m, a).heap <==> m.home[x] !in gone
    {
      ReleaseRefines(words, unfreed, m, a);
    }
  }
}
