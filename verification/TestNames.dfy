/** Test names: sections separated by dots, with `*` standing for any one section
    (conformance/failure_list_trie_node.cc). */
module TestNames {
  import opened Sequences

  function Section(s: string): string {
    s[..Find(s, '.')]
  }

  function Rest(s: string): string
    requires Find(s, '.') < |s|
  {
    s[Find(s, '.') + 1..]
  }

  function Split(s: string): (p: seq<string>)
    ensures p != [] && p[0] == Section(s)
    decreases |s|
  {
    if Find(s, '.') == |s| then [s] else [Section(s)] + Split(Rest(s))
  }

  function Join(p: seq<string>): string
    requires p != []
  {
    if |p| == 1 then p[0] else p[0] + "." + Join(p[1..])
  }

  lemma {:induction false} SectionsHaveNoDots(s: string)
    ensures forall i | 0 <= i < |Split(s)| :: '.' !in Split(s)[i]
    decreases |s|
  {
    if Find(s, '.') < |s| {
      SectionsHaveNoDots(Rest(s));
    } else {
      assert s[..|s|] == s;
    }
  }

  lemma {:induction false} JoinSplit(s: string)
    ensures Join(Split(s)) == s
    decreases |s|
  {
    var n := Find(s, '.');
    if n < |s| {
      JoinSplit(Rest(s));
      assert Split(s)[1..] == Split(Rest(s));
      assert s == s[..n] + [s[n]] + s[n + 1..];
    }
  }

  lemma {:induction false} SplitJoin(p: seq<string>)
    requires p != [] && forall i | 0 <= i < |p| :: '.' !in p[i]
    ensures Split(Join(p)) == p
    decreases |p|
  {
    var s, n := Join(p), |p[0]|;
    assert s[..n] == p[0];
    FindIs(s, '.', n);
    if |p| > 1 {
      assert s[n + 1..] == Join(p[1..]);
      SplitJoin(p[1..]);
    }
  }

  const STAR := "*"

  /** Two sections agree up to a wildcard on either side. */
  predicate Fits(a: string, b: string) {
    a == b || a == STAR || b == STAR
  }

  predicate Matches(p: seq<string>, q: seq<string>) {
    |p| == |q| && forall i | 0 <= i < |p| :: Fits(p[i], q[i])
  }

  /** A wildcard that does not span its whole section. */
  predicate BadWildcard(section: string) {
    '*' in section && |section| > 1
  }

  predicate WildcardFree(p: seq<string>) {
    STAR !in p
  }

  /** A section that is no bad wildcard fits every section exactly when a `*` stands in it. */
  lemma StarFitsAll(a: string)
    requires !BadWildcard(a)
    ensures '*' in a <==> forall b: string :: Fits(a, b)
  {
    if '*' in a {
      assert a == ['*'];
    } else {
      var b := a + "x";
      assert b[|a|] == 'x' && |b| == |a| + 1;
      assert !Fits(a, b);
    }
  }

  /** Without a `*` on either side sections fit exactly when they are the same. */
  lemma PlainSectionsFit(a: string, b: string)
    requires '*' !in a && '*' !in b
    ensures Fits(a, b) <==> a == b
  {
  }

  /** A bad wildcard is a section that holds a `*` and something else. */
  lemma BadWildcardExactly(section: string)
    ensures BadWildcard(section) <==> '*' in section && section != "*"
  {
    if '*' in section && |section| == 1 { assert section == ['*']; }
  }

  /** Two names that both match a name without wildcards overlap each other. */
  lemma MatchesMeet(p1: seq<string>, p2: seq<string>, q: seq<string>)
    requires WildcardFree(q) && Matches(p1, q) && Matches(p2, q)
    ensures Matches(p1, p2)
  {
    forall i | 0 <= i < |p1| ensures Fits(p1[i], p2[i]) {
      assert Fits(p1[i], q[i]) && Fits(p2[i], q[i]) && q[i] in q;
    }
  }

  lemma MatchesSymmetric(p: seq<string>, q: seq<string>)
    ensures Matches(p, q) <==> Matches(q, p)
  {
    if Matches(p, q) {
      forall i | 0 <= i < |q| ensures Fits(q[i], p[i]) { assert Fits(p[i], q[i]); }
    }
    if Matches(q, p) {
      forall i | 0 <= i < |p| ensures Fits(p[i], q[i]) { assert Fits(q[i], p[i]); }
    }
  }

  lemma MatchesTail(p: seq<string>, q: seq<string>)
    requires p != [] && q != []
    ensures Matches(p, q) <==> Fits(p[0], q[0]) && Matches(p[1..], q[1..])
  {
    if Matches(p, q) {
      forall i | 0 <= i < |p[1..]| ensures Fits(p[1..][i], q[1..][i]) { assert Fits(p[i + 1], q[i + 1]); }
    }
    if Fits(p[0], q[0]) && Matches(p[1..], q[1..]) {
      forall i | 0 <= i < |p| ensures Fits(p[i], q[i]) {
        if i > 0 { assert Fits(p[1..][i - 1], q[1..][i - 1]); }
      }
    }
  }
}
