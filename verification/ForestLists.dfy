/** The lists that thread the arenas of each fused tree (php-upb.c), along which they are released. */
module ForestLists {
  import opened Arenas
  import opened ForestWords

  /** The `next` pointers; the last arena of a list has none. */
  type Links = map<ArenaId, ArenaId>

  /** Each arena's previous_or_tail: the arena before it, or for a root a hint where its list ends. */
  type Marks = map<ArenaId, nat>

  predicate IsTail(mark: nat) {
    mark % 2 == 1
  }

  function TaggedTail(a: ArenaId): (mark: nat)
    ensures IsTail(mark) && Untag(mark) == a
  {
    2 * a + 1
  }

  ghost predicate Distinct(l: seq<ArenaId>) {
    forall i, j | 0 <= i < j < |l| :: l[i] != l[j]
  }

  /** The links lead through l and end with it. */
  ghost predicate IsList(next: Links, l: seq<ArenaId>) {
    && l != [] && Distinct(l) && l[|l| - 1] !in next
    && forall i | 0 <= i < |l| - 1 :: l[i] in next && next[l[i]] == l[i + 1]
  }

  /** The list of root r holds exactly the arenas of its tree, and the hint points into it. */
  ghost predicate ListOk(words: Words, next: Links, marks: Marks, l: seq<ArenaId>, r: ArenaId)
    requires Ordered(words)
  {
    && IsList(next, l) && l[0] == r && (forall a :: a in l <==> a in Tree(words, r))
    && r in marks && IsTail(marks[r]) && Untag(marks[r]) in l
  }

  /** The mark of an arena that is not a root leads to the arena before it. */
  ghost predicate BackOk(next: Links, marks: Marks, a: ArenaId) {
    a in marks && !IsTail(marks[a]) && Untag(marks[a]) in next && next[Untag(marks[a])] == a
  }

  /** The roots, and only they, have lists. */
  ghost predicate RootListed(words: Words, next: Links, marks: Marks, lists: map<ArenaId, seq<ArenaId>>, r: ArenaId)
    requires Ordered(words)
  {
    (r in lists <==> IsRoot(words, r)) && (r in lists ==> ListOk(words, next, marks, lists[r], r))
  }

  ghost predicate ListsOk(words: Words, next: Links, marks: Marks, lists: map<ArenaId, seq<ArenaId>>)
    requires Ordered(words)
  {
    forall r {:trigger RootListed(words, next, marks, lists, r)} :: RootListed(words, next, marks, lists, r)
  }

  ghost predicate BacksOk(words: Words, next: Links, marks: Marks) {
    forall a {:trigger BackOk(next, marks, a)} | a in words && IsPointer(words[a]) :: BackOk(next, marks, a)
  }

  /** What links and marks are for every root and every other arena. */
  ghost predicate Listed(words: Words, next: Links, marks: Marks, lists: map<ArenaId, seq<ArenaId>>) {
    && Ordered(words) && next.Keys <= words.Keys && marks.Keys == words.Keys
    && ListsOk(words, next, marks, lists) && BacksOk(words, next, marks)
  }

  /** Splitting paths leaves the lists alone. */
  lemma FlatterListed(words: Words, words': Words, next: Links, marks: Marks, lists: map<ArenaId, seq<ArenaId>>)
    requires Flatter(words, words') && Listed(words, next, marks, lists)
    ensures Listed(words', next, marks, lists)
  {
    forall r ensures RootListed(words', next, marks, lists, r) {
      FlatterTree(words, words', r);
      assert RootListed(words, next, marks, lists, r);
    }
    forall a | a in words' && IsPointer(words'[a]) ensures BackOk(next, marks, a) { FlatterTree(words, words', a); }
  }

  /** Linking the last arena of one list to the first of another joins the lists. */
  lemma JoinedList(next: Links, l: seq<ArenaId>, k: seq<ArenaId>)
    requires IsList(next, l) && IsList(next, k) && forall a | a in l :: a !in k
    ensures IsList(next[l[|l| - 1] := k[0]], l + k)
  {
    var next', all := next[l[|l| - 1] := k[0]], l + k;
    assert l[|l| - 1] in l && k[|k| - 1] in k;
    forall i | 0 <= i < |all| - 1 ensures all[i] in next' && next'[all[i]] == all[i + 1] {
      if i < |l| - 1 {
        assert l[i] != l[|l| - 1];
      } else if i >= |l| {
        assert k[i - |l|] in k;
      }
    }
    assert Distinct(all) by {
      forall i, j | 0 <= i < j < |all| ensures all[i] != all[j] {
        if i < |l| <= j { assert l[i] in l && k[j - |l|] in k; }
      }
    }
  }

  /** A list that does not hold arena t is not changed by a new link from it. */
  lemma OtherList(next: Links, l: seq<ArenaId>, t: ArenaId, a: ArenaId)
    requires IsList(next, l) && t !in l
    ensures IsList(next[t := a], l)
  {
    forall i | 0 <= i < |l| ensures l[i] != t { assert l[i] in l; }
  }

  lemma JoinOther(words: Words, next: Links, marks: Marks, l: seq<ArenaId>, r: ArenaId,
      r1: ArenaId, r2: ArenaId, t: ArenaId, h: ArenaId)
    requires Hangs(words, r1, r2) && ListOk(words, next, marks, l, r) && r != r1 && r != r2
    requires t in Tree(words, r1)
    ensures words[r2] >= 1 && Ordered(Hang(words, r1, r2))
    ensures ListOk(Hang(words, r1, r2), next[t := r2], marks[r1 := TaggedTail(h)][r2 := TaggedPointer(t)], l, r)
  {
    HangTrees(words, r1, r2, r);
    OtherList(next, l, t, r2);
  }

  lemma JoinBacks(words: Words, next: Links, marks: Marks, r1: ArenaId, r2: ArenaId, t: ArenaId, h: ArenaId)
    requires Hangs(words, r1, r2) && t !in next && words[r2] >= 1 && BacksOk(words, next, marks)
    ensures BacksOk(Hang(words, r1, r2), next[t := r2], marks[r1 := TaggedTail(h)][r2 := TaggedPointer(t)])
  {
    HangCounts(words, r1, r2);
    var hung := Hang(words, r1, r2);
    forall a | a in hung && IsPointer(hung[a])
      ensures BackOk(next[t := r2], marks[r1 := TaggedTail(h)][r2 := TaggedPointer(t)], a)
    {
      if a != r2 { assert a != r1 && hung[a] == words[a] && BackOk(next, marks, a); }
    }
  }

  lemma JoinFirst(words: Words, next: Links, marks: Marks, l1: seq<ArenaId>, l2: seq<ArenaId>,
      r1: ArenaId, r2: ArenaId, t: ArenaId, h: ArenaId)
    requires Hangs(words, r1, r2) && ListOk(words, next, marks, l1, r1) && ListOk(words, next, marks, l2, r2)
    requires t == l1[|l1| - 1] && h in l2
    ensures words[r2] >= 1 && Ordered(Hang(words, r1, r2))
    ensures ListOk(Hang(words, r1, r2), next[t := r2], marks[r1 := TaggedTail(h)][r2 := TaggedPointer(t)], l1 + l2, r1)
  {
    forall a | a in l1 ensures a !in l2 { assert a in Tree(words, r1) && a !in Tree(words, r2); }
    JoinedList(next, l1, l2);
    JoinListOk(words, next[t := r2], marks[r1 := TaggedTail(h)][r2 := TaggedPointer(t)], r1, r2, l1, l2, h);
  }

  lemma JoinLists(words: Words, next: Links, marks: Marks, lists: map<ArenaId, seq<ArenaId>>,
      r1: ArenaId, r2: ArenaId, t: ArenaId, h: ArenaId)
    requires Hangs(words, r1, r2) && ListsOk(words, next, marks, lists)
    requires r1 in lists && r2 in lists && lists[r1] != []
    requires t == lists[r1][|lists[r1]| - 1] && h in lists[r2]
    ensures words[r2] >= 1 && Ordered(Hang(words, r1, r2))
    ensures ListsOk(Hang(words, r1, r2), next[t := r2], marks[r1 := TaggedTail(h)][r2 := TaggedPointer(t)],
                    lists[r1 := lists[r1] + lists[r2]] - {r2})
  {
    HangCounts(words, r1, r2);
    var hung, marks' := Hang(words, r1, r2), marks[r1 := TaggedTail(h)][r2 := TaggedPointer(t)];
    var lists' := lists[r1 := lists[r1] + lists[r2]] - {r2};
    assert RootListed(words, next, marks, lists, r1) && RootListed(words, next, marks, lists, r2);
    assert t in lists[r1] && t in Tree(words, r1);
    JoinFirst(words, next, marks, lists[r1], lists[r2], r1, r2, t, h);
    var next' := next[t := r2];
    forall r ensures RootListed(hung, next', marks', lists', r) {
      assert RootListed(words, next, marks, lists, r);
      if r in lists' && r != r1 {
        JoinOther(words, next, marks, lists[r], r, r1, r2, t, h);
      }
    }
  }

  /** Joining the lists of two roots as one root is hung below the other. */
  lemma JoinListed(words: Words, next: Links, marks: Marks, lists: map<ArenaId, seq<ArenaId>>,
      r1: ArenaId, r2: ArenaId, t: ArenaId, h: ArenaId)
    requires Hangs(words, r1, r2) && Listed(words, next, marks, lists)
    requires r1 in lists && r2 in lists && lists[r1] != []
    requires t == lists[r1][|lists[r1]| - 1] && h in lists[r2]
    ensures words[r2] >= 1
    ensures Listed(Hang(words, r1, r2), next[t := r2], marks[r1 := TaggedTail(h)][r2 := TaggedPointer(t)],
                   lists[r1 := lists[r1] + lists[r2]] - {r2})
  {
    HangCounts(words, r1, r2);
    assert RootListed(words, next, marks, lists, r1);
    assert t in lists[r1] && t in Tree(words, r1);
    JoinLists(words, next, marks, lists, r1, r2, t, h);
    JoinBacks(words, next, marks, r1, r2, t, h);
  }

  lemma JoinListOk(words: Words, next: Links, marks: Marks, r1: ArenaId, r2: ArenaId,
      l1: seq<ArenaId>, l2: seq<ArenaId>, h: ArenaId)
    requires Hangs(words, r1, r2) && l1 != [] && l1[0] == r1 && IsList(next, l1 + l2)
    requires (forall a :: a in l1 <==> a in Tree(words, r1)) && (forall a :: a in l2 <==> a in Tree(words, r2))
    requires r1 in marks && marks[r1] == TaggedTail(h) && h in l2
    ensures words[r2] >= 1 && Ordered(Hang(words, r1, r2))
    ensures ListOk(Hang(words, r1, r2), next, marks, l1 + l2, r1)
  {
    HangCounts(words, r1, r2);
    HangTrees(words, r1, r2, r1);
  }

  /** Planting a new arena adds a list of its own. */
  lemma PlantListed(words: Words, next: Links, marks: Marks, lists: map<ArenaId, seq<ArenaId>>, n: ArenaId)
    requires Listed(words, next, marks, lists) && n !in words
    ensures Listed(words[n := TaggedCount(1)], next, marks[n := TaggedTail(n)], lists[n := [n]])
  {
    var planted, marks', lists' := words[n := TaggedCount(1)], marks[n := TaggedTail(n)], lists[n := [n]];
    PlantedTrees(words, n, n);
    forall r ensures RootListed(planted, next, marks', lists', r) {
      assert RootListed(words, next, marks, lists, r);
      PlantedTrees(words, n, r);
    }
    forall a | a in planted && IsPointer(planted[a]) ensures BackOk(next, marks', a) {
      assert BackOk(next, marks, a);
    }
  }

  /** A count that goes down leaves the lists alone. */
  lemma DecrementListed(words: Words, next: Links, marks: Marks, lists: map<ArenaId, seq<ArenaId>>, r: ArenaId)
    requires Listed(words, next, marks, lists) && IsRoot(words, r) && Untag(words[r]) >= 1
    ensures Listed(Decremented(words, r), next, marks, lists)
  {
    var words' := Decremented(words, r);
    DecrementedTrees(words, r, r);
    forall q ensures RootListed(words', next, marks, lists, q) {
      assert RootListed(words, next, marks, lists, q);
      DecrementedTrees(words, r, q);
    }
    forall a | a in words' && IsPointer(words'[a]) ensures BackOk(next, marks, a) {
      assert words[a] == words'[a] && BackOk(next, marks, a);
    }
  }

  lemma ReleasedList(next: Links, l: seq<ArenaId>, gone: set<ArenaId>)
    requires IsList(next, l) && forall a | a in l :: a !in gone
    ensures IsList(next - gone, l)
  {
    forall i | 0 <= i < |l| ensures l[i] !in gone { assert l[i] in l; }
  }

  /** Every arena is in the list of its root. */
  lemma InOwnList(words: Words, next: Links, marks: Marks, lists: map<ArenaId, seq<ArenaId>>, a: ArenaId)
    requires Listed(words, next, marks, lists) && a in words
    ensures var r := Root(words, a); r in lists && ListOk(words, next, marks, lists[r], r) && a in lists[r]
  {
    var r := Root(words, a);
    assert IsRoot(words, r) && a in Tree(words, r);
    assert RootListed(words, next, marks, lists, r);
  }

  lemma NextInList(next: Links, l: seq<ArenaId>, a: ArenaId)
    requires IsList(next, l) && a in l && a in next
    ensures next[a] in l
  {
    var i :| 0 <= i < |l| && l[i] == a;
    assert next[a] == l[i + 1];
  }

  /** The arenas before those that stay are not released with the tree. */
  lemma BackStays(words: Words, next: Links, marks: Marks, lists: map<ArenaId, seq<ArenaId>>, a: ArenaId)
    requires Listed(words, next, marks, lists) && a in words && IsPointer(words[a])
    ensures BackOk(next, marks, a) && Untag(marks[a]) in words && Root(words, Untag(marks[a])) == Root(words, a)
  {
    assert BackOk(next, marks, a);
    var b := Untag(marks[a]);
    InOwnList(words, next, marks, lists, b);
    NextInList(next, lists[Root(words, b)], b);
    assert a in Tree(words, Root(words, b));
  }

  /** Releasing a whole tree leaves the lists of the others. */
  lemma ReleaseListed(words: Words, next: Links, marks: Marks, lists: map<ArenaId, seq<ArenaId>>, r: ArenaId)
    requires Listed(words, next, marks, lists) && IsRoot(words, r)
    ensures var gone := Tree(words, r); Listed(words - gone, next - gone, marks - gone, lists - {r})
  {
    var gone := Tree(words, r);
    var rest, next', marks' := words - gone, next - gone, marks - gone;
    WithoutTree(words, r);
    assert Root(words, r) == r;
    forall q ensures RootListed(rest, next', marks', lists - {r}, q) {
      assert RootListed(words, next, marks, lists, q);
      if q in lists - {r} {
        assert Root(words, q) == q;
        ReleasedList(next, lists[q], gone);
      } else {
        assert IsRoot(rest, q) ==> q != r;
      }
    }
    forall a | a in rest && IsPointer(rest[a]) ensures BackOk(next', marks', a) {
      BackStays(words, next, marks, lists, a);
    }
  }

  // ---------- following a list ----------

  ghost function Members(l: seq<ArenaId>): set<ArenaId> {
    set a | a in l
  }

  lemma MembersNext(l: seq<ArenaId>, i: nat)
    requires i < |l| && Distinct(l)
    ensures Members(l[..i + 1]) == Members(l[..i]) + {l[i]} && l[i] !in Members(l[..i])
    ensures l[..i + 1] == l[..i] + [l[i]]
  {
  }

  /** What is left of a map when the first i arenas of l are gone. */
  ghost predicate Without<T(!new)>(m: map<ArenaId, T>, m': map<ArenaId, T>, l: seq<ArenaId>, i: nat)
    requires i <= |l|
  {
    m' == m - Members(l[..i])
  }

  lemma WithoutNext<T(!new)>(m: map<ArenaId, T>, m': map<ArenaId, T>, l: seq<ArenaId>, i: nat)
    requires i < |l| && Distinct(l) && Without(m, m', l, i)
    ensures Without(m, m' - {l[i]}, l, i + 1)
  {
    MembersNext(l, i);
  }

  lemma WithoutEnds<T(!new)>(m: map<ArenaId, T>, m': map<ArenaId, T>, l: seq<ArenaId>)
    ensures Without(m, m, l, 0)
    ensures Without(m, m', l, |l|) ==> m' == m - Members(l)
  {
    assert l[..|l|] == l && Members(l[..0]) == {};
  }

  /** What is left of words, links, marks and spaces when the first i arenas of l are gone. */
  ghost predicate AllWithout(words: Words, words': Words, next: Links, next': Links, marks: Marks, marks': Marks,
      space: map<ArenaId, nat>, space': map<ArenaId, nat>, l: seq<ArenaId>, i: nat) {
    && i <= |l| && Without(words, words', l, i) && Without(next, next', l, i)
    && Without(marks, marks', l, i) && Without(space, space', l, i)
  }

  lemma AllWithoutNext(words: Words, words': Words, next: Links, next': Links, marks: Marks, marks': Marks,
      space: map<ArenaId, nat>, space': map<ArenaId, nat>, l: seq<ArenaId>, i: nat)
    requires IsList(next, l) && i < |l| && AllWithout(words, words', next, next', marks, marks', space, space', l, i)
    ensures AllWithout(words, words' - {l[i]}, next, next' - {l[i]}, marks, marks' - {l[i]},
                       space, space' - {l[i]}, l, i + 1)
    ensures if i + 1 < |l| then l[i] in next' && next'[l[i]] == l[i + 1] else l[i] !in next'
  {
    MembersNext(l, i);
    WithoutNext(words, words', l, i);
    WithoutNext(next, next', l, i);
    WithoutNext(marks, marks', l, i);
    WithoutNext(space, space', l, i);
  }

  lemma AllWithoutEnds(words: Words, words': Words, next: Links, next': Links, marks: Marks, marks': Marks,
      space: map<ArenaId, nat>, space': map<ArenaId, nat>, l: seq<ArenaId>)
    ensures AllWithout(words, words, next, next, marks, marks, space, space, l, 0)
    ensures AllWithout(words, words', next, next', marks, marks', space, space', l, |l|) ==>
      words' == words - Members(l) && next' == next - Members(l) && marks' == marks - Members(l)
      && space' == space - Members(l)
  {
    WithoutEnds(words, words', l);
    WithoutEnds(next, next', l);
    WithoutEnds(marks, marks', l);
    WithoutEnds(space, space', l);
  }

  lemma {:induction false} DistinctCount(l: seq<ArenaId>)
    requires Distinct(l)
    ensures |l| == |Members(l)|
  {
    if l == [] {
      assert Members(l) == {};
    } else {
      var a := l[0];
      assert l == [a] + l[1..];
      DistinctCount(l[1..]);
      assert Members(l) == {a} + Members(l[1..]);
    }
  }

  predicate Spaced(space: map<ArenaId, nat>, l: seq<ArenaId>) {
    forall a | a in l :: a in space
  }

  /** The space of the arenas of l. */
  function Total(space: map<ArenaId, nat>, l: seq<ArenaId>): nat
    requires Spaced(space, l)
  {
    if l == [] then 0 else space[l[0]] + Total(space, l[1..])
  }

  lemma {:induction false} TotalSplits(space: map<ArenaId, nat>, l: seq<ArenaId>, i: nat)
    requires Spaced(space, l) && i <= |l|
    ensures Total(space, l) == Total(space, l[..i]) + Total(space, l[i..])
  {
    if i == 0 {
      assert l[0..] == l;
    } else {
      TotalSplits(space, l[1..], i - 1);
      assert l[..i][1..] == l[1..][..i - 1] && l[1..][i - 1..] == l[i..];
    }
  }

  lemma TotalBack(space: map<ArenaId, nat>, l: seq<ArenaId>, k: nat, i: nat)
    requires Spaced(space, l) && 0 < k <= i <= |l|
    ensures Spaced(space, l[k..i]) && Spaced(space, l[k - 1..i])
    ensures Total(space, l[k - 1..i]) == space[l[k - 1]] + Total(space, l[k..i])
  {
    assert l[k - 1..i][1..] == l[k..i];
  }

  /** Only one arena has a given arena as its next. */
  lemma NextIsInjective(words: Words, next: Links, marks: Marks, lists: map<ArenaId, seq<ArenaId>>,
      a: ArenaId, b: ArenaId)
    requires Listed(words, next, marks, lists) && a in next && b in next && next[a] == next[b]
    ensures a == b
  {
    InOwnList(words, next, marks, lists, a);
    InOwnList(words, next, marks, lists, b);
    var l, k := lists[Root(words, a)], lists[Root(words, b)];
    NextInList(next, l, a);
    NextInList(next, k, b);
    assert next[a] in Tree(words, Root(words, a)) && next[a] in Tree(words, Root(words, b));
    var i :| 0 <= i < |l| && l[i] == a;
    var j :| 0 <= j < |l| && l[j] == b;
    assert l[i + 1] == l[j + 1];
  }

  lemma NotFirst(words: Words, next: Links, marks: Marks, l: seq<ArenaId>, r: ArenaId, k: nat)
    requires Ordered(words) && ListOk(words, next, marks, l, r) && 0 < k < |l|
    ensures l[k] in words && IsPointer(words[l[k]])
  {
    assert l[k] in l && l[k] in Tree(words, r);
    assert l[k] != l[0];
  }

  /** The links lead forward through l and the marks back. */
  ghost predicate Chain(next: Links, marks: Marks, l: seq<ArenaId>) {
    && IsList(next, l)
    && forall k | 0 <= k < |l| :: l[k] in marks && (if IsTail(marks[l[k]]) then k == 0 else BackTo(marks, l, k))
  }

  ghost predicate BackTo(marks: Marks, l: seq<ArenaId>, k: nat)
    requires k < |l| && l[k] in marks
  {
    k > 0 && Untag(marks[l[k]]) == l[k - 1]
  }

  lemma PreviousInList(words: Words, next: Links, marks: Marks, lists: map<ArenaId, seq<ArenaId>>, r: ArenaId, k: nat)
    requires Listed(words, next, marks, lists) && r in lists && k < |lists[r]|
    ensures lists[r][k] in marks
    ensures if IsTail(marks[lists[r][k]]) then k == 0 else BackTo(marks, lists[r], k)
  {
    var l := lists[r];
    assert RootListed(words, next, marks, lists, r);
    if k > 0 {
      NotFirst(words, next, marks, l, r, k);
      assert BackOk(next, marks, l[k]);
      assert l[k - 1] in next && next[l[k - 1]] == l[k];
      NextIsInjective(words, next, marks, lists, Untag(marks[l[k]]), l[k - 1]);
    }
  }

  /** Every arena is on a chain that holds its whole tree. */
  lemma ChainOfTree(words: Words, next: Links, marks: Marks, lists: map<ArenaId, seq<ArenaId>>, a: ArenaId)
    requires Listed(words, next, marks, lists) && a in words
    ensures var r := Root(words, a);
      && r in lists && lists[r] != [] && lists[r][0] == r && a in lists[r]
      && Chain(next, marks, lists[r]) && Members(lists[r]) == Tree(words, r)
  {
    InOwnList(words, next, marks, lists, a);
    var r := Root(words, a);
    forall k | 0 <= k < |lists[r]|
      ensures lists[r][k] in marks
        && (if IsTail(marks[lists[r][k]]) then k == 0 else BackTo(marks, lists[r], k))
    {
      PreviousInList(words, next, marks, lists, r, k);
    }
  }

  // ---------- everything at once ----------

  /** Counts and lists are right. */
  ghost predicate Intact(words: Words, next: Links, marks: Marks, lists: map<ArenaId, seq<ArenaId>>,
      unfreed: set<ArenaId>) {
    Counted(words, unfreed) && Listed(words, next, marks, lists)
  }

  lemma PlantIntact(words: Words, next: Links, marks: Marks, lists: map<ArenaId, seq<ArenaId>>,
      unfreed: set<ArenaId>, n: ArenaId)
    requires Intact(words, next, marks, lists, unfreed) && n !in words
    ensures Intact(words[n := TaggedCount(1)], next, marks[n := TaggedTail(n)], lists[n := [n]], unfreed + {n})
  {
    PlantedCounted(words, unfreed, n);
    PlantListed(words, next, marks, lists, n);
  }

  lemma FlatterIntact(words: Words, words': Words, next: Links, marks: Marks, lists: map<ArenaId, seq<ArenaId>>,
      unfreed: set<ArenaId>)
    requires Flatter(words, words') && Intact(words, next, marks, lists, unfreed)
    ensures Intact(words', next, marks, lists, unfreed)
  {
    FlatterCounted(words, words', unfreed);
    FlatterListed(words, words', next, marks, lists);
  }

  /** Two searches after each other, whose results are r1 and r2. */
  lemma TwoSearches(w1: Words, w2: Words, w3: Words, next: Links, marks: Marks, lists: map<ArenaId, seq<ArenaId>>,
      unfreed: set<ArenaId>, r1: ArenaId, a2: ArenaId)
    requires Flatter(w1, w2) && Flatter(w2, w3) && Intact(w1, next, marks, lists, unfreed)
    requires IsRoot(w2, r1) && a2 in w1
    ensures Flatter(w1, w3) && Intact(w3, next, marks, lists, unfreed)
    ensures IsRoot(w3, r1) && w3[r1] == w2[r1] && Root(w2, a2) == Root(w1, a2)
  {
    FlatterTransitive(w1, w2, w3);
    FlatterTree(w2, w3, r1);
    FlatterIntact(w1, w3, next, marks, lists, unfreed);
  }

  lemma JoinIntact(words: Words, next: Links, marks: Marks, lists: map<ArenaId, seq<ArenaId>>,
      unfreed: set<ArenaId>, r1: ArenaId, r2: ArenaId, t: ArenaId, h: ArenaId)
    requires Hangs(words, r1, r2) && Intact(words, next, marks, lists, unfreed)
    requires r1 in lists && r2 in lists && lists[r1] != []
    requires t == lists[r1][|lists[r1]| - 1] && h in lists[r2]
    ensures words[r2] >= 1
    ensures Intact(Hang(words, r1, r2), next[t := r2], marks[r1 := TaggedTail(h)][r2 := TaggedPointer(t)],
                   lists[r1 := lists[r1] + lists[r2]] - {r2}, unfreed)
  {
    HangCounted(words, unfreed, r1, r2);
    JoinListed(words, next, marks, lists, r1, r2, t, h);
  }

  lemma DecrementIntact(words: Words, next: Links, marks: Marks, lists: map<ArenaId, seq<ArenaId>>,
      unfreed: set<ArenaId>, a: ArenaId)
    requires Intact(words, next, marks, lists, unfreed) && a in unfreed && Untag(words[Root(words, a)]) > 1
    ensures Intact(Decremented(words, Root(words, a)), next, marks, lists, unfreed - {a})
  {
    DecrementedCounted(words, unfreed, a);
    DecrementListed(words, next, marks, lists, Root(words, a));
  }

  lemma ReleaseIntact(words: Words, next: Links, marks: Marks, lists: map<ArenaId, seq<ArenaId>>,
      unfreed: set<ArenaId>, a: ArenaId)
    requires Intact(words, next, marks, lists, unfreed) && a in unfreed && Untag(words[Root(words, a)]) == 1
    ensures var r := Root(words, a);
      var gone := Tree(words, r);
      Intact(words - gone, next - gone, marks - gone, lists - {r}, unfreed - {a})
  {
    ReleasedCounted(words, unfreed, a);
    ReleaseListed(words, next, marks, lists, Root(words, a));
  }

  /** What freeing arena a does to the words: the whole tree is released, or its count goes down. */
  ghost predicate Frees(words: Words, words': Words, a: ArenaId, released: seq<ArenaId>) {
    && Ordered(words) && a in words
    && var r := Root(words, a);
    if Untag(words[r]) == 1 then
      Distinct(released) && Members(released) == Tree(words, r) && words' == words - Tree(words, r)
    else
      released == [] && Untag(words[r]) >= 1 && words' == Decremented(words, r)
  }

  /** Freeing an arena does to the groups what module UpbMemory says: the tree is released exactly when no
      other arena of the group is unfreed, and the objects in it go. */
  lemma FreesRefines(words: Words, unfreed: set<ArenaId>, words': Words, a: ArenaId, released: seq<ArenaId>)
    requires Counted(words, unfreed) && a in unfreed && Frees(words, words', a, released)
    ensures RefinesFree(words, unfreed, words', unfreed - {a}, a)
    ensures ObjectsGo(words, unfreed, a, Members(released))
    ensures released == [] <==> exists b :: b in unfreed - {a} && Root(words, b) == Root(words, a)
  {
    LastOfTree(words, unfreed, a);
    assert CountIs(words, unfreed, Root(words, a));
    if Untag(words[Root(words, a)]) == 1 {
      ReleaseRefinesAll(words, unfreed, a);
      assert a in Members(released);
    } else {
      DecrementRefinesAll(words, unfreed, a);
      assert Members(released) == {};
    }
  }
}
