/** Failure-list tries as values: what a trie holds, what insertion does to it, and what the
    backtracking search returns. */
module FailureTries {
  import opened Options
  import opened TestNames

  datatype Trie = Trie(data: string, isName: bool, kids: seq<Trie>)

  const EMPTY_TRIE := Trie("", false, [])

  /** The name with sections p is in the trie. */
  ghost predicate Has(t: Trie, p: seq<string>)
    decreases |p|
  {
    p != [] && exists i :: 0 <= i < |t.kids| && KidHas(t.kids[i], p)
  }

  ghost predicate KidHas(kid: Trie, p: seq<string>)
    requires p != []
    decreases |p|, 0
  {
    kid.data == p[0] && if |p| == 1 then kid.isName else Has(kid, p[1..])
  }

  // ---------- insertion ----------

  /** The first child with this data, or the number of children. */
  function FindKid(kids: seq<Trie>, data: string): (n: nat)
    ensures n <= |kids| && (n < |kids| ==> kids[n].data == data)
    ensures forall i | 0 <= i < n :: kids[i].data != data
  {
    if kids == [] || kids[0].data == data then 0 else 1 + FindKid(kids[1..], data)
  }

  /** InsertImpl */
  function Insert(t: Trie, q: seq<string>): Trie
    requires q != []
    decreases |q|
  {
    var i := FindKid(t.kids, q[0]);
    if i < |t.kids| then t.(kids := t.kids[i := InsertKid(t.kids[i], q)])
    else t.(kids := t.kids + [InsertKid(Trie(q[0], false, []), q)])
  }

  /** What happens to the child labelled with the first section. */
  function InsertKid(kid: Trie, q: seq<string>): Trie
    requires q != []
    decreases |q|, 0
  {
    if |q| == 1 then kid.(isName := true) else Insert(kid, q[1..])
  }

  lemma {:induction false} InsertKidHas(kid: Trie, q: seq<string>, p: seq<string>)
    requires p != [] && q != [] && kid.data == q[0]
    ensures InsertKid(kid, q).data == kid.data
    ensures KidHas(InsertKid(kid, q), p) <==> KidHas(kid, p) || p == q
    decreases |q|, 0
  {
    if |q| == 1 {
      if |p| > 1 {
        SameKidsSameNames(InsertKid(kid, q), kid, p[1..]);
      } else {
        assert p == q <==> p[0] == q[0];
      }
    } else if |p| > 1 {
      InsertHas(kid, q[1..], p[1..]);
      assert p == q <==> p[0] == q[0] && p[1..] == q[1..];
    }
  }

  lemma SameKidsSameNames(t: Trie, u: Trie, p: seq<string>)
    requires t.kids == u.kids
    ensures Has(t, p) <==> Has(u, p)
  {
  }

  /** Insertion adds exactly the inserted name to the names in the trie. */
  lemma {:induction false} InsertHas(t: Trie, q: seq<string>, p: seq<string>)
    requires q != []
    ensures Has(Insert(t, q), p) <==> Has(t, p) || p == q
    decreases |q|, 1
  {
    if p != [] {
      var n := FindKid(t.kids, q[0]);
      var t' := Insert(t, q);
      var kid := if n < |t.kids| then t.kids[n] else Trie(q[0], false, []);
      InsertKidHas(kid, q, p);
      assert t'.kids[n] == InsertKid(kid, q);
      if n == |t.kids| { assert !KidHas(kid, p); }
      if i :| 0 <= i < |t.kids| && KidHas(t.kids[i], p) { assert KidHas(t'.kids[i], p); }
      if i :| 0 <= i < |t'.kids| && KidHas(t'.kids[i], p) {
        if i != n { assert KidHas(t.kids[i], p); }
      }
    }
  }

  /** No two siblings share a data, anywhere in the trie. */
  ghost predicate DistinctLabels(t: Trie)
    decreases t
  {
    && (forall i, j | 0 <= i < j < |t.kids| :: t.kids[i].data != t.kids[j].data)
    && (forall i | 0 <= i < |t.kids| :: DistinctLabels(t.kids[i]))
  }

  lemma {:induction false} InsertKeepsDistinct(t: Trie, q: seq<string>)
    requires q != [] && DistinctLabels(t)
    ensures DistinctLabels(Insert(t, q)) && Insert(t, q).data == t.data
    decreases |q|
  {
    var n := FindKid(t.kids, q[0]);
    var kid := if n < |t.kids| then t.kids[n] else Trie(q[0], false, []);
    if |q| > 1 {
      InsertKeepsDistinct(kid, q[1..]);
    }
    assert InsertKid(kid, q).data == q[0] && DistinctLabels(InsertKid(kid, q));
  }

  /** The node at the end of path p. */
  function NodeAt(t: Trie, p: seq<string>): Option<Trie>
    decreases |p|
  {
    if p == [] then Some(t)
    else
      var n := FindKid(t.kids, p[0]);
      if n < |t.kids| then NodeAt(t.kids[n], p[1..]) else None
  }

  lemma FindKidIs(kids: seq<Trie>, data: string, n: nat)
    requires n <= |kids| && (n < |kids| ==> kids[n].data == data)
    requires forall i | 0 <= i < n :: kids[i].data != data
    ensures FindKid(kids, data) == n
  {
  }

  /** A node whose path does not lead along the inserted name is the same node as before. */
  lemma {:induction false} InsertOffPath(t: Trie, q: seq<string>, p: seq<string>)
    requires q != [] && !(p <= q)
    ensures NodeAt(Insert(t, q), p) == NodeAt(t, p)
    decreases |q|
  {
    var n := FindKid(t.kids, q[0]);
    var t' := Insert(t, q);
    var m := FindKid(t.kids, p[0]);
    var kid := if n < |t.kids| then t.kids[n] else Trie(q[0], false, []);
    assert InsertKid(kid, q).data == q[0];
    if p[0] == q[0] {
      FindKidIs(t'.kids, p[0], n);
      if |q| > 1 {
        assert p[1..] <= q[1..] ==> p <= q by { assert p == [p[0]] + p[1..] && q == [q[0]] + q[1..]; }
        InsertOffPath(kid, q[1..], p[1..]);
      } else {
        assert |p| == 1 ==> p == q;
        assert NodeAt(InsertKid(kid, q), p[1..]) == NodeAt(kid, p[1..]);
      }
      if n == |t.kids| { assert p[1..] != [] ==> NodeAt(kid, p[1..]) == None; assert p == [p[0]] + p[1..]; }
    } else {
      FindKidIs(t'.kids, p[0], if m < |t.kids| then m else |t'.kids|);
    }
  }

  // ---------- search ----------

  /** WalkDownMatch: the children in order, descending into each that fits. */
  function Walk(kids: seq<Trie>, q: seq<string>): Option<seq<string>>
    requires q != []
    decreases |q|, |kids|
  {
    if kids == [] then None
    else match TryKid(kids[0], q)
      case Some(r) => Some(r)
      case None => Walk(kids[1..], q)
  }

  function TryKid(kid: Trie, q: seq<string>): Option<seq<string>>
    requires q != []
    decreases |q|, 0
  {
    if !Fits(kid.data, q[0]) then None
    else if |q| == 1 then (if kid.isName then Some([kid.data]) else None)
    else match Walk(kid.kids, q[1..])
      case Some(r) => Some([kid.data] + r)
      case None => None
  }

  lemma WalkNext(kids: seq<Trie>, i: nat, q: seq<string>)
    requires q != [] && i < |kids|
    ensures Walk(kids[i..], q) == match TryKid(kids[i], q) case Some(r) => Some(r) case None => Walk(kids[i + 1..], q)
  {
    assert kids[i..][1..] == kids[i + 1..];
  }

  /** r is a name in the trie that matches q, or says that there is none. */
  ghost predicate IsAnswer(t: Trie, q: seq<string>, r: Option<seq<string>>) {
    match r
    case Some(p) => Has(t, p) && Matches(p, q)
    case None => forall p :: Has(t, p) ==> !Matches(p, q)
  }

  ghost predicate IsKidAnswer(kid: Trie, q: seq<string>, r: Option<seq<string>>) {
    match r
    case Some(p) => p != [] && KidHas(kid, p) && Matches(p, q)
    case None => forall p :: p != [] && KidHas(kid, p) ==> !Matches(p, q)
  }

  lemma {:induction false} TryKidAnswers(kid: Trie, q: seq<string>)
    requires q != []
    ensures IsKidAnswer(kid, q, TryKid(kid, q))
    decreases |q|, 0
  {
    var r := TryKid(kid, q);
    if |q| > 1 {
      WalkAnswers(kid, q[1..]);
    }
    if r.Some? {
      MatchesTail(r.value, q);
      assert |q| > 1 ==> r.value[1..] == Walk(kid.kids, q[1..]).value;
    } else {
      forall p | p != [] && KidHas(kid, p) ensures !Matches(p, q) {
        MatchesTail(p, q);
        if |q| > 1 && |p| > 1 { assert Has(kid, p[1..]); }
      }
    }
  }

  lemma {:induction false} WalkKidsAnswer(kids: seq<Trie>, q: seq<string>)
    requires q != []
    ensures IsAnswer(Trie("", false, kids), q, Walk(kids, q))
    decreases |q|, 1, |kids|
  {
    var t := Trie("", false, kids);
    if kids != [] {
      TryKidAnswers(kids[0], q);
      var rest := Trie("", false, kids[1..]);
      WalkKidsAnswer(kids[1..], q);
      assert forall p | p != [] && KidHas(kids[0], p) :: Has(t, p) by {
        forall p | p != [] && KidHas(kids[0], p) ensures Has(t, p) { assert KidHas(t.kids[0], p); }
      }
      forall p ensures Has(t, p) <==> p != [] && (KidHas(kids[0], p) || Has(rest, p)) {
        if Has(rest, p) {
          var i :| 0 <= i < |rest.kids| && KidHas(rest.kids[i], p);
          assert KidHas(t.kids[i + 1], p);
        }
        if Has(t, p) && !KidHas(kids[0], p) {
          var i :| 0 <= i < |t.kids| && KidHas(t.kids[i], p);
          assert KidHas(rest.kids[i - 1], p);
        }
      }
    }
  }

  /** The search finds a name exactly when the trie holds one that matches, backtracking included. */
  lemma {:induction false} WalkAnswers(t: Trie, q: seq<string>)
    requires q != []
    ensures IsAnswer(t, q, Walk(t.kids, q))
    decreases |q|, 2
  {
    var u := Trie("", false, t.kids);
    WalkKidsAnswer(t.kids, q);
    forall p ensures Has(t, p) <==> Has(u, p) { SameKidsSameNames(t, u, p); }
  }

  // ---------- runs ----------

  datatype Status = AlreadyExists | InvalidArgument | OkStatus

  /** Insert: refused when anything matches or a wildcard is not a whole section. */
  function InsertName(t: Trie, name: string): (Status, Trie) {
    var q := Split(name);
    if Walk(t.kids, q).Some? then (AlreadyExists, t)
    else if exists i :: 0 <= i < |q| && BadWildcard(q[i]) then (InvalidArgument, t)
    else (OkStatus, Insert(t, q))
  }

  /** The three answers of an insertion, and what it changes. */
  lemma InsertAnswers(t: Trie, name: string)
    ensures var (st, t') := InsertName(t, name);
      var q := Split(name);
      var met := exists p :: Has(t, p) && Matches(p, q);
      var bad := exists i :: 0 <= i < |q| && '*' in q[i] && q[i] != "*";
      && (st == AlreadyExists <==> met)
      && (st == InvalidArgument <==> !met && bad)
      && (st == OkStatus <==> !met && !bad)
      && (forall p :: Has(t', p) <==> Has(t, p) || (st == OkStatus && p == q))
  {
    var q := Split(name);
    WalkAnswers(t, q);
    forall p ensures Has(Insert(t, q), p) <==> Has(t, p) || p == q { InsertHas(t, q, p); }
    forall i | 0 <= i < |q| ensures BadWildcard(q[i]) <==> '*' in q[i] && q[i] != "*" { BadWildcardExactly(q[i]); }
    var r := Walk(t.kids, q);
    if r.Some? { assert Has(t, r.value) && Matches(r.value, q); }
  }

  /** An accepted name is found by every query that agrees with it wherever it has no `*`. */
  lemma AcceptedIsFound(t: Trie, name: string, q: seq<string>)
    requires InsertName(t, name).0 == OkStatus && |q| == |Split(name)|
    requires forall i | 0 <= i < |q| && '*' !in Split(name)[i] :: q[i] == Split(name)[i]
    ensures Walk(InsertName(t, name).1.kids, q).Some?
  {
    var p, t' := Split(name), InsertName(t, name).1;
    InsertAnswers(t, name);
    forall i | 0 <= i < |p| ensures Fits(p[i], q[i]) {
      assert p[i] in p;
      StarFitsAll(p[i]);
    }
    WalkAnswers(t', q);
    assert Has(t', p) && Matches(p, q);
  }

  /** A listed name with a wildcard is accepted, and a test that differs at the wildcard is found. */
  lemma ListedNameIsFound(first: string, last: string, other: string)
    requires '.' !in first && '.' !in last && '*' !in first && '*' !in last
    ensures var name := Join([first, "*", last]);
      InsertName(EMPTY_TRIE, name).0 == OkStatus
      && Walk(InsertName(EMPTY_TRIE, name).1.kids, [first, other, last]).Some?
  {
    var p := [first, "*", last];
    SplitJoin(p);
    InsertAnswers(EMPTY_TRIE, Join(p));
    AcceptedIsFound(EMPTY_TRIE, Join(p), [first, other, last]);
  }

  function InsertAll(t: Trie, names: seq<string>): Trie
    decreases |names|
  {
    if names == [] then t else InsertAll(InsertName(t, names[0]).1, names[1..])
  }

  /** The reference: a flat set of patterns. */
  ghost function FlatInsert(accepted: set<seq<string>>, name: string): (Status, set<seq<string>>) {
    var q := Split(name);
    if exists p :: p in accepted && Matches(p, q) then (AlreadyExists, accepted)
    else if exists i :: 0 <= i < |q| && BadWildcard(q[i]) then (InvalidArgument, accepted)
    else (OkStatus, accepted + {q})
  }

  ghost function FlatInsertAll(accepted: set<seq<string>>, names: seq<string>): set<seq<string>>
    decreases |names|
  {
    if names == [] then accepted else FlatInsertAll(FlatInsert(accepted, names[0]).1, names[1..])
  }

  ghost predicate Holds(t: Trie, accepted: set<seq<string>>) {
    forall p :: Has(t, p) <==> p in accepted
  }

  ghost predicate NoOverlap(accepted: set<seq<string>>) {
    forall p, q | p in accepted && q in accepted && p != q :: !Matches(p, q)
  }

  /** One insertion into the trie answers and changes what the flat set does. */
  lemma InsertRefinesFlat(t: Trie, accepted: set<seq<string>>, name: string)
    requires Holds(t, accepted) && NoOverlap(accepted) && DistinctLabels(t)
    ensures var (st, t') := InsertName(t, name);
      var (st', accepted') := FlatInsert(accepted, name);
      st == st' && Holds(t', accepted') && NoOverlap(accepted') && DistinctLabels(t')
      && (st != OkStatus ==> t' == t)
  {
    var q := Split(name);
    WalkAnswers(t, q);
    var r := Walk(t.kids, q);
    if r.Some? {
      assert r.value in accepted;
    } else {
      forall p | p in accepted ensures !Matches(p, q) { assert Has(t, p); }
      InsertHolds(t, accepted, q);
      AddedDoesNotOverlap(accepted, q);
      InsertKeepsDistinct(t, q);
    }
  }

  lemma InsertHolds(t: Trie, accepted: set<seq<string>>, q: seq<string>)
    requires Holds(t, accepted) && q != []
    ensures Holds(Insert(t, q), accepted + {q})
  {
    forall p ensures Has(Insert(t, q), p) <==> p in accepted + {q} {
      InsertHas(t, q, p);
    }
  }

  lemma AddedDoesNotOverlap(accepted: set<seq<string>>, q: seq<string>)
    requires NoOverlap(accepted) && forall p | p in accepted :: !Matches(p, q)
    ensures NoOverlap(accepted + {q})
  {
    forall p | p in accepted ensures !Matches(q, p) { MatchesSymmetric(p, q); }
  }

  lemma {:induction false} InsertAllRefinesFlat(t: Trie, accepted: set<seq<string>>, names: seq<string>)
    requires Holds(t, accepted) && NoOverlap(accepted) && DistinctLabels(t)
    ensures Holds(InsertAll(t, names), FlatInsertAll(accepted, names))
    ensures NoOverlap(FlatInsertAll(accepted, names)) && DistinctLabels(InsertAll(t, names))
    decreases |names|
  {
    if names != [] {
      InsertRefinesFlat(t, accepted, names[0]);
      InsertAllRefinesFlat(InsertName(t, names[0]).1, FlatInsert(accepted, names[0]).1, names[1..]);
    }
  }

  /** After any sequence of insertions the trie holds what the flat set holds, and no two of its
      names overlap. */
  lemma AnySequenceOfInserts(names: seq<string>)
    ensures Holds(InsertAll(EMPTY_TRIE, names), FlatInsertAll({}, names))
    ensures NoOverlap(FlatInsertAll({}, names)) && DistinctLabels(InsertAll(EMPTY_TRIE, names))
  {
    InsertAllRefinesFlat(EMPTY_TRIE, {}, names);
  }

  /** The answer to a query without wildcards depends only on the set of names accepted, not on the
      order in which they came or the order of the children. */
  lemma AnswerDependsOnNamesOnly(names1: seq<string>, names2: seq<string>, q: seq<string>)
    requires FlatInsertAll({}, names1) == FlatInsertAll({}, names2)
    requires q != [] && WildcardFree(q)
    ensures Walk(InsertAll(EMPTY_TRIE, names1).kids, q) == Walk(InsertAll(EMPTY_TRIE, names2).kids, q)
  {
    var t1, t2 := InsertAll(EMPTY_TRIE, names1), InsertAll(EMPTY_TRIE, names2);
    AnySequenceOfInserts(names1);
    AnySequenceOfInserts(names2);
    WalkAnswers(t1, q);
    WalkAnswers(t2, q);
    var r1, r2 := Walk(t1.kids, q), Walk(t2.kids, q);
    if r1.Some? {
      assert Has(t2, r1.value);
    }
    if r1.Some? && r2.Some? {
      assert Has(t1, r2.value);
      MatchesMeet(r1.value, r2.value, q);
    }
  }

  lemma {:induction false} AcceptedAreNames(accepted: set<seq<string>>, names: seq<string>, p: seq<string>)
    requires p in FlatInsertAll(accepted, names)
    ensures p in accepted || exists n :: n in names && p == Split(n)
    decreases |names|
  {
    if names != [] {
      AcceptedAreNames(FlatInsert(accepted, names[0]).1, names[1..], p);
      assert names[0] in names && forall n | n in names[1..] :: n in names;
    }
  }

  /** What the search returns, joined with dots, is one of the inserted names. */
  lemma AnswerIsInserted(names: seq<string>, q: seq<string>)
    requires q != [] && Walk(InsertAll(EMPTY_TRIE, names).kids, q).Some?
    ensures var p := Walk(InsertAll(EMPTY_TRIE, names).kids, q).value;
      p != [] && Join(p) in names && Matches(Split(Join(p)), q)
  {
    var t := InsertAll(EMPTY_TRIE, names);
    WalkAnswers(t, q);
    AnySequenceOfInserts(names);
    var p := Walk(t.kids, q).value;
    AcceptedAreNames({}, names, p);
    var n :| n in names && p == Split(n);
    JoinSplit(n);
  }

  function Leaf(name: string): Trie {
    Trie(name, true, [])
  }

  /** Two one-section names that do not match, inserted one after the other. */
  lemma TwoInserts(x: string, y: string)
    requires Split(x) == [x] && Split(y) == [y] && !Fits(x, y) && !Fits(y, x) && !BadWildcard(x) && !BadWildcard(y)
    ensures InsertAll(EMPTY_TRIE, [x, y]) == Trie("", false, [Leaf(x), Leaf(y)])
    ensures FlatInsertAll({}, [x, y]) == {[x], [y]}
  {
    var tx, txy := Trie("", false, [Leaf(x)]), Trie("", false, [Leaf(x), Leaf(y)]);
    assert [x, y][1..] == [y] && [Leaf(x)][1..] == [];
    assert Walk(EMPTY_TRIE.kids, [x]) == None && Walk([Leaf(x)], [y]) == None;
    assert x != y by { assert Fits(x, x); }
    assert InsertKid(Trie(x, false, []), [x]) == Leaf(x) && InsertKid(Trie(y, false, []), [y]) == Leaf(y);
    FindKidIs(tx.kids, y, 1);
    assert Insert(EMPTY_TRIE, [x]).kids == [Leaf(x)] && Insert(tx, [y]).kids == [Leaf(x), Leaf(y)];
    assert InsertName(EMPTY_TRIE, x) == (OkStatus, tx) && InsertName(tx, y) == (OkStatus, txy);
    assert InsertAll(tx, [y]) == txy;
    MatchesTail([x], [y]);
    assert FlatInsert({}, x).1 == {[x]} && FlatInsert({[x]}, y).1 == {[x], [y]};
    assert FlatInsertAll({}, [x, y]) == FlatInsertAll({[x]}, [y]);
  }

  /** With a wildcard in the query the order can show. */
  lemma WildcardAnswerDependsOnOrder()
    ensures FlatInsertAll({}, ["a", "b"]) == FlatInsertAll({}, ["b", "a"])
    ensures Walk(InsertAll(EMPTY_TRIE, ["a", "b"]).kids, [STAR]) == Some(["a"])
    ensures Walk(InsertAll(EMPTY_TRIE, ["b", "a"]).kids, [STAR]) == Some(["b"])
  {
    assert Split("a") == ["a"] && Split("b") == ["b"];
    TwoInserts("a", "b");
    TwoInserts("b", "a");
  }
}
