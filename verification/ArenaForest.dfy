/** Fused arenas as upb keeps them (php-upb.c): every operation updates parent words, links and tail
    hints in place, and is proved to do to the forest what module UpbMemory says of the groups.  The
    operations of one thread: no compare-and-swap fails and no loop is retried. */
module ArenaForest {
  import opened Options
  import opened Arenas
  import opened UpbMemory
  import opened ForestWords
  import opened ForestLists

  class Forest {
    var words: Words
    var next: Links
    var marks: Marks
    // arenas that begin in a block of their caller
    var initial: set<ArenaId>
    var space: map<ArenaId, nat>
    // the list of each root, and what the callers have not freed
    ghost var lists: map<ArenaId, seq<ArenaId>>
    ghost var unfreed: set<ArenaId>

    /** Counts and lists are right. */
    ghost predicate Valid()
      reads this
    {
      Intact(words, next, marks, lists, unfreed) && space.Keys == words.Keys
    }

    constructor ()
      ensures Valid() && words == map[] && initial == {} && ModelOf(words, unfreed, EMPTY_MEMORY)
    {
      words, next, marks, initial, space := map[], map[], map[], {}, map[];
      lists, unfreed := map[], {};
    }

    /** _upb_Arena_InitSlow: a root with the count one and a list of its own. */
    method InitSlow(a: ArenaId, size: nat)
      requires Valid() && a !in words
      modifies this`words, this`marks, this`space, this`lists, this`unfreed
      ensures Valid() && words == old(words)[a := TaggedCount(1)] && unfreed == old(unfreed) + {a}
      ensures space == old(space)[a := size]
    {
      PlantIntact(words, next, marks, lists, unfreed, a);
      words := words[a := TaggedCount(1)];
      marks := marks[a := TaggedTail(a)];
      space := space[a := size];
      lists, unfreed := lists[a := [a]], unfreed + {a};
    }

    /** upb_Arena_Init with memory of the caller's. */
    method InitInBlock(a: ArenaId)
      requires Valid() && a !in words
      modifies this
      ensures Valid() && words == old(words)[a := TaggedCount(1)] && unfreed == old(unfreed) + {a}
      ensures initial == old(initial) + {a} && space == old(space)[a := 0]
    {
      InitSlow(a, 0);
      initial := initial + {a};
    }

    /** _upb_Arena_FindRoot: every arena on the way that has a grandparent is made to point to it, which halves
        the way. */
    method FindRoot(a: ArenaId) returns (root: ArenaId, tagged: nat)
      requires Ordered(words) && a in words
      modifies this`words
      ensures Flatter(old(words), words) && Depth(words, a) == (Depth(old(words), a) + 1) / 2
      ensures root == Root(old(words), a) && IsRoot(words, root) && tagged == words[root]
    {
      FlatterItself(words);
      var ai := a;
      var poc := words[ai];
      while IsPointer(poc)
        invariant Flatter(old(words), words) && ai in words && poc == words[ai]
        invariant Root(words, ai) == Root(old(words), a) && SplitPath(words, ai) == SplitPath(old(words), a)
        decreases ai
      {
        var parent := Untag(poc);
        poc := words[parent];
        if IsPointer(poc) {
          assert Splits(words, ai);
          SplitFlattens(words, ai);
          FlatterTransitive(old(words), words, Split(words, ai));
          words := words[ai := poc];
        }
        ai := parent;
      }
      SplitPathHalves(old(words), a, a);
      return ai, poc;
    }

    // ---------- fusing ----------

    /** _upb_Arena_LinkForward: from the hint on, or from the parent if it has none, the list is followed to
        its end. */
    method LinkForward(parent: ArenaId, child: ArenaId, ghost l: seq<ArenaId>) returns (oldTail: ArenaId)
      requires IsList(next, l) && parent in l && parent in marks
      requires IsTail(marks[parent]) ==> Untag(marks[parent]) in l
      modifies this`next
      ensures oldTail == l[|l| - 1] && next == old(next)[oldTail := child]
    {
      oldTail := if IsTail(marks[parent]) then Untag(marks[parent]) else parent;
      ghost var i :| 0 <= i < |l| && l[i] == oldTail;
      while oldTail in next
        invariant i < |l| && l[i] == oldTail
        decreases |l| - i
      {
        oldTail := next[oldTail];
        i := i + 1;
      }
      next := next[oldTail := child];
    }

    /** _upb_Arena_UpdateParentTail: the parent takes over the child's hint. */
    method UpdateParentTail(parent: ArenaId, child: ArenaId)
      requires parent in marks && child in marks
      modifies this`marks
      ensures marks == if IsTail(old(marks)[parent])
        then old(marks)[parent := TaggedTail(Untag(old(marks)[child]))] else old(marks)
    {
      var newParentTail := Untag(marks[child]);
      if IsTail(marks[parent]) {
        marks := marks[parent := TaggedTail(newParentTail)];
      }
    }

    /** _upb_Arena_DoFuseArenaLists: the links forward, the parent's hint and the child's link back, after
        the child has been hung below the parent in words as they were before. */
    method DoFuseArenaLists(parent: ArenaId, child: ArenaId, ghost before: Words)
      requires Hangs(before, parent, child) && before[child] >= 1 && words == Hang(before, parent, child)
      requires Intact(before, next, marks, lists, unfreed)
      modifies this`next, this`marks
      ensures parent in lists && child in lists
      ensures Intact(words, next, marks, lists[parent := lists[parent] + lists[child]] - {child}, unfreed)
    {
      assert RootListed(before, next, marks, lists, parent);
      assert RootListed(before, next, marks, lists, child);
      var oldTail := LinkForward(parent, child, lists[parent]);
      JoinIntact(before, old(next), marks, lists, unfreed, parent, child, oldTail, Untag(marks[child]));
      UpdateParentTail(parent, child);
      marks := marks[child := TaggedPointer(oldTail)];
    }

    /** The roots of two arenas. */
    method FindRoots(a1: ArenaId, a2: ArenaId) returns (r1: ArenaId, tagged1: nat, r2: ArenaId, tagged2: nat)
      requires Valid() && a1 in words && a2 in words
      modifies this`words
      ensures Valid() && Flatter(old(words), words)
      ensures r1 == Root(old(words), a1) && IsRoot(words, r1) && tagged1 == words[r1]
      ensures r2 == Root(old(words), a2) && IsRoot(words, r2) && tagged2 == words[r2]
    {
      r1, tagged1 := FindRoot(a1);
      ghost var between := words;
      r2, tagged2 := FindRoot(a2);
      TwoSearches(old(words), between, words, next, marks, lists, unfreed, r1, a2);
    }

    /** Root r2, whose word is tagged2, is hung below r1, whose count grows by the other's. */
    method HangRoot(r1: ArenaId, tagged1: nat, r2: ArenaId, tagged2: nat)
      requires Valid() && Hangs(words, r1, r2) && tagged1 == words[r1] && tagged2 == words[r2] >= 1
      modifies this`words, this`next, this`marks, this`lists
      ensures Valid() && words == Hang(old(words), r1, r2)
    {
      words := words[r1 := tagged1 + (tagged2 - 1)][r2 := TaggedPointer(r1)];
      DoFuseArenaLists(r1, r2, old(words));
      lists := lists[r1 := lists[r1] + lists[r2]] - {r2};
    }

    /** The root with the lower address becomes the parent. */
    method HangByAddress(root1: ArenaId, count1: nat, root2: ArenaId, count2: nat)
      requires Valid() && IsRoot(words, root1) && IsRoot(words, root2) && root1 != root2
      requires count1 == words[root1] && count2 == words[root2]
      modifies this`words, this`next, this`marks, this`lists
      ensures Valid() && HungByAddress(old(words), words, root1, root2)
    {
      var r1, tagged1, r2, tagged2 := root1, count1, root2, count2;
      if r1 > r2 {
        r1, tagged1, r2, tagged2 := r2, tagged2, r1, tagged1;
      }
      HangRoot(r1, tagged1, r2, tagged2);
    }

    /** _upb_Arena_DoFuse */
    method DoFuse(a1: ArenaId, a2: ArenaId)
      requires Valid() && a1 in words && a2 in words
      modifies this`words, this`next, this`marks, this`lists
      ensures Valid()
      ensures Fuses(old(words), words, a1, a2)
    {
      var r1, tagged1, r2, tagged2 := FindRoots(a1, a2);
      ghost var flat := words;
      if r1 != r2 {
        HangByAddress(r1, tagged1, r2, tagged2);
      }
      assert FusesFlat(old(words), flat, words, a1, a2);
    }

    /** upb_Arena_Fuse: refused exactly for two arenas one of which begins in its caller's block. */
    method Fuse(a1: ArenaId, a2: ArenaId) returns (ok: bool)
      requires Valid() && a1 in words && a2 in words
      modifies this`words, this`next, this`marks, this`lists
      ensures Valid()
      ensures ok <==> a1 == a2 || (a1 !in initial && a2 !in initial)
      ensures !ok ==> words == old(words) && next == old(next) && marks == old(marks)
      ensures ok ==> Fuses(old(words), words, a1, a2)
    {
      if a1 == a2 {
        FlatterItself(words);
        assert FusesFlat(words, words, words, a1, a2);
        return true;
      }
      if a1 in initial || a2 in initial {
        return false;
      }
      DoFuse(a1, a2);
      return true;
    }

    /** upb_Arena_IsFused */
    method IsFused(a: ArenaId, b: ArenaId) returns (fused: bool)
      requires Valid() && a in words && b in words
      modifies this`words
      ensures Valid() && Flatter(old(words), words)
      ensures fused <==> Root(old(words), a) == Root(old(words), b)
    {
      if a == b {
        FlatterItself(words);
        return true;
      }
      var ra, _, rb, _ := FindRoots(a, b);
      return ra == rb;
    }

    // ---------- what a tree holds ----------

    /** upb_Arena_SpaceAllocated: the list is followed to both ends, and every arena of the tree is
        counted once. */
    method SpaceAllocated(a: ArenaId) returns (memsize: nat, fusedCount: nat)
      requires Valid() && a in words
      ensures fusedCount == |Tree(words, Root(words, a))|
      ensures exists l | Distinct(l) && Members(l) == Tree(words, Root(words, a)) && Spaced(space, l) ::
        memsize == Total(space, l)
    {
      ChainOfTree(words, next, marks, lists, a);
      ghost var l := lists[Root(words, a)];
      DistinctCount(l);
      forall b | b in l ensures b in space { assert b in Members(l); }
      ghost var i :| 0 <= i < |l| && l[i] == a;
      TotalSplits(space, l, i);
      memsize, fusedCount := GoBack(a, l, i);
      memsize, fusedCount := GoForward(a, l, i, memsize, fusedCount);
    }

    /** The first loop, back to the root. */
    method GoBack(a: ArenaId, ghost l: seq<ArenaId>, ghost i: nat) returns (memsize: nat, fusedCount: nat)
      requires Chain(next, marks, l) && Spaced(space, l) && i < |l| && l[i] == a
      ensures fusedCount == i && memsize == Total(space, l[..i])
    {
      ghost var k := i;
      var mark := marks[a];
      memsize, fusedCount := 0, 0;
      while !IsTail(mark)
        invariant 0 <= k <= i && l[k] in marks && mark == marks[l[k]]
        invariant fusedCount == i - k && memsize == Total(space, l[k..i])
        decreases k
      {
        assert BackTo(marks, l, k);
        TotalBack(space, l, k, i);
        memsize := memsize + space[Untag(mark)];
        mark := marks[Untag(mark)];
        fusedCount := fusedCount + 1;
        k := k - 1;
      }
      assert l[0..i] == l[..i];
    }

    /** The second loop, from a to the end. */
    method GoForward(a: ArenaId, ghost l: seq<ArenaId>, ghost i: nat, before: nat, count: nat)
        returns (memsize: nat, fusedCount: nat)
      requires IsList(next, l) && Spaced(space, l) && i < |l| && l[i] == a && count == i
      ensures fusedCount == |l| && memsize == before + Total(space, l[i..])
    {
      ghost var k := i;
      var ai := Some(a);
      memsize, fusedCount := before, count;
      while ai.Some?
        invariant 0 <= k <= |l| && fusedCount == k && ai == if k < |l| then Some(l[k]) else None
        invariant memsize + Total(space, l[k..]) == before + Total(space, l[i..])
        decreases |l| - k
      {
        assert l[k..][1..] == l[k + 1..];
        memsize := memsize + space[ai.value];
        ai := if ai.value in next then Some(next[ai.value]) else None;
        fusedCount := fusedCount + 1;
        k := k + 1;
      }
    }

    // ---------- freeing ----------

    /** _upb_Arena_DoFree: every arena of the root's list is released, each once. */
    method DoFree(root: ArenaId, ghost l: seq<ArenaId>) returns (released: seq<ArenaId>)
      requires IsList(next, l) && l[0] == root
      modifies this`words, this`next, this`marks, this`initial, this`space
      ensures released == l && initial == old(initial) - Members(l) && space == old(space) - Members(l)
      ensures words == old(words) - Members(l) && next == old(next) - Members(l) && marks == old(marks) - Members(l)
    {
      released := [];
      var ai := Some(root);
      ghost var i := 0;
      AllWithoutEnds(words, words, next, next, marks, marks, space, space, l);
      while ai.Some?
        invariant i <= |l| && released == l[..i] && ai == if i < |l| then Some(l[i]) else None
        invariant AllWithout(old(words), words, old(next), next, old(marks), marks, old(space), space, l, i)
        invariant initial == old(initial) - Members(l[..i])
        decreases |l| - i
      {
        var a := ai.value;
        AllWithoutNext(old(words), words, old(next), next, old(marks), marks, old(space), space, l, i);
        MembersNext(l, i);
        var nextArena := if a in next then Some(next[a]) else None;
        words, next, marks, initial, space := words - {a}, next - {a}, marks - {a}, initial - {a}, space - {a};
        released := released + [a];
        ai := nextArena;
        i := i + 1;
      }
      AllWithoutEnds(old(words), words, old(next), next, old(marks), marks, old(space), space, l);
      assert l[..|l|] == l;
    }

    /** The root of an arena, without splitting paths. */
    method Climb(a: ArenaId) returns (ai: ArenaId, poc: nat)
      requires Ordered(words) && a in words
      ensures ai == Root(words, a) && poc == words[ai]
    {
      ai := a;
      poc := words[ai];
      while IsPointer(poc)
        invariant ai in words && poc == words[ai] && Root(words, ai) == Root(words, a)
        decreases ai
      {
        ai := Untag(poc);
        poc := words[ai];
      }
    }

    /** The last unfreed arena of a tree goes, and the tree with it. */
    method ReleaseTree(root: ArenaId, a: ArenaId) returns (released: seq<ArenaId>)
      requires Valid() && a in unfreed && root == Root(words, a) && Untag(words[root]) == 1
      modifies this
      ensures Valid() && unfreed == old(unfreed) - {a} && words == old(words) - Tree(old(words), root)
      ensures Distinct(released) && Members(released) == Tree(old(words), root)
      ensures initial == old(initial) - Members(released) && space == old(space) - Members(released)
    {
      ReleaseIntact(words, next, marks, lists, unfreed, a);
      ChainOfTree(words, next, marks, lists, a);
      released := DoFree(root, lists[root]);
      lists, unfreed := lists - {root}, unfreed - {a};
    }

    method DecrementCount(root: ArenaId, a: ArenaId)
      requires Valid() && a in unfreed && root == Root(words, a) && Untag(words[root]) > 1
      modifies this`words, this`unfreed
      ensures Valid() && unfreed == old(unfreed) - {a} && words == Decremented(old(words), root)
    {
      DecrementIntact(words, next, marks, lists, unfreed, a);
      words := words[root := TaggedCount(Untag(words[root]) - 1)];
      unfreed := unfreed - {a};
    }

    /** upb_Arena_Free: without another unfreed arena in the tree the whole tree is released; otherwise the
        root counts one less. */
    method Free(a: ArenaId) returns (released: seq<ArenaId>)
      requires Valid() && a in unfreed
      modifies this
      ensures Valid() && unfreed == old(unfreed) - {a}
      ensures Frees(old(words), words, a, released)
      ensures initial == old(initial) - Members(released) && space == old(space) - Members(released)
    {
      var root, poc := Climb(a);
      assert CountIs(words, unfreed, root);
      if poc == TaggedCount(1) {
        released := ReleaseTree(root, a);
      } else {
        DecrementCount(root, a);
        released := [];
        assert Members(released) == {};
      }
    }
  }
}
