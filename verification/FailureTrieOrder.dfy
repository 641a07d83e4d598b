/** Whether the order in which names were inserted can show in the answer to a query. */
module FailureTrieOrder {
  import opened Options
  import opened TestNames
  import opened FailureTries

  // ---------- the leftmost name ----------

  /** p is the name on the path of first children. */
  predicate Leftmost(t: Trie, p: seq<string>)
    decreases |p|
  {
    && p != [] && t.kids != [] && t.kids[0].data == p[0]
    && if |p| == 1 then t.kids[0].isName else Leftmost(t.kids[0], p[1..])
  }

  /** A leftmost name that matches is the one the search finds. */
  lemma {:induction false} LeftmostIsFound(t: Trie, p: seq<string>, q: seq<string>)
    requires Leftmost(t, p) && Matches(p, q)
    ensures q != [] && Walk(t.kids, q) == Some(p)
    decreases |p|
  {
    MatchesTail(p, q);
    if |p| > 1 {
      LeftmostIsFound(t.kids[0], p[1..], q[1..]);
      assert p == [p[0]] + p[1..];
    } else {
      assert p == [p[0]];
    }
  }

  lemma {:induction false} InsertKeepsLeftmost(t: Trie, q: seq<string>, p: seq<string>)
    requires q != [] && Leftmost(t, p)
    ensures Leftmost(Insert(t, q), p)
    decreases |p|
  {
    var n := FindKid(t.kids, q[0]);
    if n == 0 && |q| > 1 && |p| > 1 {
      InsertKeepsLeftmost(t.kids[0], q[1..], p[1..]);
    } else if n == 0 && |p| > 1 {
      SameKidsLeftmost(InsertKid(t.kids[0], q), t.kids[0], p[1..]);
    } else if n == 0 {
      InsertKeepsName(t.kids[0], q);
    }
  }

  lemma SameKidsLeftmost(t: Trie, u: Trie, p: seq<string>)
    requires t.kids == u.kids
    ensures Leftmost(t, p) <==> Leftmost(u, p)
  {
  }

  lemma InsertKeepsName(kid: Trie, q: seq<string>)
    requires q != [] && kid.isName
    ensures InsertKid(kid, q).isName && InsertKid(kid, q).data == kid.data
  {
  }

  lemma {:induction false} FirstIsLeftmost(t: Trie, p: seq<string>)
    requires p != [] && t.kids == []
    ensures Leftmost(Insert(t, p), p)
    decreases |p|
  {
    if |p| > 1 {
      FirstIsLeftmost(Trie(p[0], false, []), p[1..]);
    }
  }

  lemma {:induction false} LeftmostStays(t: Trie, names: seq<string>, p: seq<string>)
    requires Leftmost(t, p)
    ensures Leftmost(InsertAll(t, names), p)
    decreases |names|
  {
    if names != [] {
      InsertKeepsLeftmost(t, Split(names[0]), p);
      LeftmostStays(InsertName(t, names[0]).1, names[1..], p);
    }
  }

  // ---------- every order of a set can be inserted ----------

  /** Sections that a trie can hold. */
  predicate Insertable(p: seq<string>) {
    p != [] && forall i | 0 <= i < |p| :: '.' !in p[i] && !BadWildcard(p[i])
  }

  ghost predicate AllInsertable(accepted: set<seq<string>>) {
    forall p | p in accepted :: Insertable(p)
  }

  lemma {:induction false} AcceptedAreInsertable(accepted: set<seq<string>>, names: seq<string>)
    requires AllInsertable(accepted)
    ensures AllInsertable(FlatInsertAll(accepted, names))
    decreases |names|
  {
    if names != [] {
      SectionsHaveNoDots(names[0]);
      AcceptedAreInsertable(FlatInsert(accepted, names[0]).1, names[1..]);
    }
  }

  predicate NoneEmpty(ps: seq<seq<string>>) {
    forall i | 0 <= i < |ps| :: ps[i] != []
  }

  function JoinAll(ps: seq<seq<string>>): seq<string>
    requires NoneEmpty(ps)
  {
    if ps == [] then [] else [Join(ps[0])] + JoinAll(ps[1..])
  }

  /** ps lists the patterns of s, each once. */
  ghost predicate Lists(ps: seq<seq<string>>, s: set<seq<string>>)
    decreases |ps|
  {
    if ps == [] then s == {} else ps[0] in s && Lists(ps[1..], s - {ps[0]})
  }

  lemma {:induction false} ListsMembers(ps: seq<seq<string>>, s: set<seq<string>>, p: seq<string>)
    requires Lists(ps, s) && p in ps
    ensures p in s
    decreases |ps|
  {
    if p != ps[0] { ListsMembers(ps[1..], s - {ps[0]}, p); }
  }

  lemma {:induction false} ListingExists(s: set<seq<string>>) returns (ps: seq<seq<string>>)
    ensures Lists(ps, s)
    decreases |s|
  {
    if s == {} {
      ps := [];
    } else {
      var p :| p in s;
      var rest := ListingExists(s - {p});
      ps := [p] + rest;
      assert ps[1..] == rest;
    }
  }

  lemma InsertOne(accepted: set<seq<string>>, p: seq<string>)
    requires Insertable(p) && forall x | x in accepted :: !Matches(x, p)
    ensures FlatInsert(accepted, Join(p)).1 == accepted + {p}
  {
    SplitJoin(p);
  }

  /** Patterns that do not overlap are accepted in whatever order they come. */
  lemma {:induction false} AnyOrderIsAccepted(accepted: set<seq<string>>, ps: seq<seq<string>>, s: set<seq<string>>)
    requires Lists(ps, s) && NoneEmpty(ps) && accepted !! s
    requires NoOverlap(accepted + s) && AllInsertable(s)
    ensures FlatInsertAll(accepted, JoinAll(ps)) == accepted + s
    decreases |ps|
  {
    if ps == [] {
      assert accepted + s == accepted;
    } else {
      var p := ps[0];
      InsertOne(accepted, p);
      assert accepted + s == (accepted + {p}) + (s - {p});
      AnyOrderIsAccepted(accepted + {p}, ps[1..], s - {p});
    }
  }

  /** Any pattern of a set can be made the leftmost one by inserting it first. */
  lemma OrderWithFirst(accepted: set<seq<string>>, p: seq<string>) returns (names: seq<string>)
    requires NoOverlap(accepted) && AllInsertable(accepted) && p in accepted
    ensures FlatInsertAll({}, names) == accepted && Leftmost(InsertAll(EMPTY_TRIE, names), p)
  {
    var rest := ListingExists(accepted - {p});
    var ps := [p] + rest;
    assert ps[1..] == rest;
    forall i | 0 <= i < |ps| ensures ps[i] != [] {
      ListsMembers(ps, accepted, ps[i]);
      assert Insertable(ps[i]);
    }
    assert NoneEmpty(rest) by { assert forall i | 0 <= i < |rest| :: rest[i] == ps[i + 1]; }
    assert {} + accepted == accepted;
    AnyOrderIsAccepted({}, ps, accepted);
    names := JoinAll(ps);
    assert Insertable(p);
    FirstInserted(p, JoinAll(rest));
  }

  lemma FirstInserted(p: seq<string>, later: seq<string>)
    requires Insertable(p)
    ensures Leftmost(InsertAll(EMPTY_TRIE, [Join(p)] + later), p)
  {
    SplitJoin(p);
    assert InsertName(EMPTY_TRIE, Join(p)).1 == Insert(EMPTY_TRIE, p);
    FirstIsLeftmost(EMPTY_TRIE, p);
    assert ([Join(p)] + later)[1..] == later;
    LeftmostStays(Insert(EMPTY_TRIE, p), later, p);
  }

  // ---------- when the order shows ----------

  function Answer(names: seq<string>, q: seq<string>): Option<seq<string>>
    requires q != []
  {
    Walk(InsertAll(EMPTY_TRIE, names).kids, q)
  }

  /** All orders that lead to this set of accepted names give q the same answer. */
  ghost predicate OrderNeverShows(accepted: set<seq<string>>, q: seq<string>)
    requires q != []
  {
    forall n1, n2 | FlatInsertAll({}, n1) == accepted && FlatInsertAll({}, n2) == accepted ::
      Answer(n1, q) == Answer(n2, q)
  }

  ghost predicate AtMostOneMatches(accepted: set<seq<string>>, q: seq<string>) {
    forall p1, p2 | p1 in accepted && p2 in accepted && Matches(p1, q) && Matches(p2, q) :: p1 == p2
  }

  lemma AnswerIsAccepted(names: seq<string>, q: seq<string>)
    requires q != []
    ensures match Answer(names, q)
            case Some(p) => p in FlatInsertAll({}, names) && Matches(p, q)
            case None => forall p | p in FlatInsertAll({}, names) :: !Matches(p, q)
  {
    var t := InsertAll(EMPTY_TRIE, names);
    AnySequenceOfInserts(names);
    WalkAnswers(t, q);
    forall p | p in FlatInsertAll({}, names) ensures Has(t, p) {}
  }

  /** The order of insertion cannot show in the answer exactly when at most one accepted name matches
      the query. */
  lemma OrderShowsExactly(names: seq<string>, q: seq<string>)
    requires q != []
    ensures OrderNeverShows(FlatInsertAll({}, names), q) <==> AtMostOneMatches(FlatInsertAll({}, names), q)
  {
    var accepted := FlatInsertAll({}, names);
    if AtMostOneMatches(accepted, q) {
      forall n1, n2 | FlatInsertAll({}, n1) == accepted && FlatInsertAll({}, n2) == accepted
        ensures Answer(n1, q) == Answer(n2, q)
      {
        AnswerIsAccepted(n1, q);
        AnswerIsAccepted(n2, q);
      }
    } else {
      var p1, p2 :| p1 in accepted && p2 in accepted && Matches(p1, q) && Matches(p2, q) && p1 != p2;
      AnySequenceOfInserts(names);
      AcceptedAreInsertable({}, names);
      var n1 := OrderWithFirst(accepted, p1);
      var n2 := OrderWithFirst(accepted, p2);
      LeftmostIsFound(InsertAll(EMPTY_TRIE, n1), p1, q);
      LeftmostIsFound(InsertAll(EMPTY_TRIE, n2), p2, q);
      assert Answer(n1, q) != Answer(n2, q);
    }
  }

  /** A name that matches q: x where q has the wildcard at i, wildcards elsewhere. */
  function Around(n: nat, i: nat, x: string): (p: seq<string>)
    requires i < n
    ensures |p| == n && forall j | 0 <= j < n :: p[j] == if j == i then x else STAR
  {
    seq(n, j requires 0 <= j < n => if j == i then x else STAR)
  }

  lemma AroundFacts(q: seq<string>, i: nat, x: string)
    requires i < |q| && q[i] == STAR && (x == "a" || x == "b")
    ensures Insertable(Around(|q|, i, x)) && Matches(Around(|q|, i, x), q)
  {
    var p := Around(|q|, i, x);
    forall j | 0 <= j < |p| ensures '.' !in p[j] && !BadWildcard(p[j]) && Fits(p[j], q[j]) {}
  }

  /** For a query with a wildcard some set of names lets the order show. */
  lemma WildcardShowsOrder(q: seq<string>) returns (n1: seq<string>, n2: seq<string>)
    requires !WildcardFree(q)
    ensures FlatInsertAll({}, n1) == FlatInsertAll({}, n2) && Answer(n1, q) != Answer(n2, q)
  {
    var i :| 0 <= i < |q| && q[i] == STAR;
    var p1, p2 := Around(|q|, i, "a"), Around(|q|, i, "b");
    AroundFacts(q, i, "a");
    AroundFacts(q, i, "b");
    assert !Fits(p1[i], p2[i]) && !Fits(p2[i], p1[i]);
    assert !Matches(p1, p2) && !Matches(p2, p1) && p1 != p2;
    var both := {p1, p2};
    assert NoOverlap(both) && AllInsertable(both);
    n1 := OrderWithFirst(both, p1);
    n2 := OrderWithFirst(both, p2);
    LeftmostIsFound(InsertAll(EMPTY_TRIE, n1), p1, q);
    LeftmostIsFound(InsertAll(EMPTY_TRIE, n2), p2, q);
  }

  ghost predicate OrderIndependent(q: seq<string>)
    requires q != []
  {
    forall n1, n2 | FlatInsertAll({}, n1) == FlatInsertAll({}, n2) :: Answer(n1, q) == Answer(n2, q)
  }

  /** The answer to a query depends on the set of accepted names alone exactly when the query has no
      wildcard. */
  lemma AnswerDependsOnNamesExactly(q: seq<string>)
    requires q != []
    ensures OrderIndependent(q) <==> WildcardFree(q)
  {
    if WildcardFree(q) {
      forall n1, n2 | FlatInsertAll({}, n1) == FlatInsertAll({}, n2) ensures Answer(n1, q) == Answer(n2, q) {
        AnswerDependsOnNamesOnly(n1, n2, q);
      }
    } else {
      var n1, n2 := WildcardShowsOrder(q);
    }
  }
}
