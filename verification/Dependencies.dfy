/** Collecting file descriptors in dependency order (CollectFileDescriptors in
    benchmarks/benchmark.cc). */
module Dependencies {
  type File = nat

  /** Each file with the files it depends on. */
  type Graph = map<File, seq<File>>

  ghost predicate Closed(deps: Graph) {
    forall f, d | f in deps && d in deps[f] :: d in deps
  }

  /** A nonempty sequence of files, each a dependency of the one before. */
  ghost predicate Walk(deps: Graph, p: seq<File>) {
    && p != [] && p[0] in deps
    && forall i | 0 <= i < |p| - 1 :: p[i] in deps && p[i + 1] in deps[p[i]]
  }

  ghost predicate Reaches(deps: Graph, a: File, b: File) {
    exists p :: Walk(deps, p) && p[0] == a && p[|p| - 1] == b
  }

  /** No file reachable from root depends, directly or through others, on itself. */
  ghost predicate Acyclic(deps: Graph, root: File) {
    forall x, d | Reaches(deps, root, x) && x in deps && d in deps[x] :: !Reaches(deps, d, x)
  }

  /** Every dependency of a listed file is listed before it. */
  ghost predicate DependencyOrder(deps: Graph, out: seq<File>) {
    forall i, d | 0 <= i < |out| && out[i] in deps && d in deps[out[i]] :: d in out[..i]
  }

  ghost predicate Distinct(out: seq<File>) {
    forall i, j | 0 <= i < j < |out| :: out[i] != out[j]
  }

  lemma ReachesSelf(deps: Graph, a: File)
    requires a in deps
    ensures Reaches(deps, a, a)
  {
    assert Walk(deps, [a]);
  }

  lemma ReachesStep(deps: Graph, a: File, b: File, c: File)
    requires Reaches(deps, a, b) && b in deps && c in deps[b]
    ensures Reaches(deps, a, c)
  {
    var p :| Walk(deps, p) && p[0] == a && p[|p| - 1] == b;
    var q := p + [c];
    assert Walk(deps, q) && q[0] == a && q[|q| - 1] == c;
  }

  lemma ReachesTransitive(deps: Graph, a: File, b: File, c: File)
    requires Reaches(deps, a, b) && Reaches(deps, b, c)
    ensures Reaches(deps, a, c)
  {
    var p :| Walk(deps, p) && p[0] == a && p[|p| - 1] == b;
    var q :| Walk(deps, q) && q[0] == b && q[|q| - 1] == c;
    var r := p + q[1..];
    forall i | 0 <= i < |r| - 1 ensures r[i] in deps && r[i + 1] in deps[r[i]] {
      if i >= |p| - 1 {
        var j := i - (|p| - 1);
        assert r[i] == q[j] && r[i + 1] == q[j + 1];
      }
    }
    assert Walk(deps, r) && r[0] == a && r[|r| - 1] == c;
  }

  lemma WalkTail(deps: Graph, p: seq<File>)
    requires Walk(deps, p) && |p| > 1 && p[1] in deps
    ensures Walk(deps, p[1..])
  {
    var q := p[1..];
    forall i | 0 <= i < |q| - 1 ensures q[i] in deps && q[i + 1] in deps[q[i]] {
      assert q[i] == p[i + 1] && q[i + 1] == p[i + 2];
    }
  }

  /** A set closed under dependencies contains all that its members reach. */
  lemma {:induction false} ClosedUnderWalk(deps: Graph, s: set<File>, p: seq<File>)
    requires Walk(deps, p) && p[0] in s
    requires forall x, d | x in s && x in deps && d in deps[x] :: d in s
    ensures p[|p| - 1] in s
    decreases |p|
  {
    if |p| > 1 {
      assert p[1] in deps[p[0]];
      if |p| > 2 { assert p[1] in deps && p[2] in deps[p[1]]; }
      if p[1] in deps {
        WalkTail(deps, p);
        ClosedUnderWalk(deps, s, p[1..]);
      }
    }
  }

  /** In dependency order a walk never goes forward. */
  lemma {:induction false} WalkGoesBack(deps: Graph, out: seq<File>, p: seq<File>, i: nat)
    requires Closed(deps) && DependencyOrder(deps, out) && Walk(deps, p)
    requires i < |out| && out[i] == p[0]
    ensures exists j :: 0 <= j <= i && out[j] == p[|p| - 1]
    decreases |p|
  {
    if |p| > 1 {
      assert p[1] in out[..i];
      var k :| 0 <= k < i && out[k] == p[1];
      WalkTail(deps, p);
      WalkGoesBack(deps, out, p[1..], k);
    }
  }

  /** What a complete collection from root has produced. */
  ghost predicate Collected(deps: Graph, root: File, out: seq<File>) {
    && Distinct(out)
    && (forall x :: x in out <==> Reaches(deps, root, x))
    && (forall i, d | 0 <= i < |out| && out[i] in deps && d in deps[out[i]] ::
          d in out[..i] || Reaches(deps, d, out[i]))
  }

  /** The order is a dependency order exactly when nothing reachable is on a cycle. */
  lemma OrderIffAcyclic(deps: Graph, root: File, out: seq<File>)
    requires Closed(deps) && root in deps && Collected(deps, root, out)
    ensures DependencyOrder(deps, out) <==> Acyclic(deps, root)
  {
    if DependencyOrder(deps, out) {
      forall x, d | Reaches(deps, root, x) && x in deps && d in deps[x] ensures !Reaches(deps, d, x) {
        var i :| 0 <= i < |out| && out[i] == x;
        var k :| 0 <= k < i && out[k] == d;
        if p :| Walk(deps, p) && p[0] == d && p[|p| - 1] == x {
          WalkGoesBack(deps, out, p, k);
          assert false;
        }
      }
    }
    if Acyclic(deps, root) {
      forall i, d | 0 <= i < |out| && out[i] in deps && d in deps[out[i]] ensures d in out[..i] {
        assert out[i] in out;
      }
    }
  }

  // ---------- the order among siblings ----------

  datatype Search = Search(out: seq<File>, seen: set<File>)

  /** A depth-first search: the dependencies of a new file in the order it lists them, then the file. */
  ghost function Visit(deps: Graph, file: File, v: Search): (v': Search)
    requires Closed(deps) && file in deps && v.seen <= deps.Keys
    ensures v.seen <= v'.seen <= deps.Keys
    decreases deps.Keys - v.seen, 0
  {
    if file in v.seen then v
    else
      var v' := VisitAll(deps, deps[file], v.(seen := v.seen + {file}));
      v'.(out := v'.out + [file])
  }

  ghost function VisitAll(deps: Graph, files: seq<File>, v: Search): (v': Search)
    requires Closed(deps) && v.seen <= deps.Keys && forall f | f in files :: f in deps
    ensures v.seen <= v'.seen <= deps.Keys
    decreases deps.Keys - v.seen, 1, |files|
  {
    if files == [] then v else VisitAll(deps, files[1..], Visit(deps, files[0], v))
  }

  /** What a call for `file` has appended since out had length n. */
  ghost predicate Appends(deps: Graph, out: seq<File>, seen: set<File>, n: nat, file: File) {
    forall i | n <= i < |out| ::
      && out[i] in deps && Reaches(deps, file, out[i])
      && forall d | d in deps[out[i]] :: d in seen && (d in out[..i] || Reaches(deps, d, out[i]))
  }

  lemma AppendsMore(deps: Graph, before: seq<File>, seenBefore: set<File>, out: seq<File>, seen: set<File>, n: nat,
      file: File, d: File)
    requires Appends(deps, before, seenBefore, n, file) && before <= out && seenBefore <= seen && n <= |before|
    requires Appends(deps, out, seen, |before|, d) && Reaches(deps, file, d)
    ensures Appends(deps, out, seen, n, file)
  {
    forall j | n <= j < |out| ensures
      && out[j] in deps && Reaches(deps, file, out[j])
      && forall e | e in deps[out[j]] :: e in seen && (e in out[..j] || Reaches(deps, e, out[j]))
    {
      if j < |before| {
        assert out[j] == before[j] && out[..j] == before[..j];
      } else {
        ReachesTransitive(deps, file, d, out[j]);
      }
    }
  }

  lemma AppendsItself(deps: Graph, out: seq<File>, seen: set<File>, n: nat, file: File)
    requires Appends(deps, out, seen, n, file) && file in deps && n <= |out|
    requires forall d | d in deps[file] :: d in seen && (d in out || Reaches(deps, d, file))
    ensures Appends(deps, out + [file], seen, n, file)
  {
    ReachesSelf(deps, file);
    forall j | n <= j < |out + [file]| ensures
      && (out + [file])[j] in deps && Reaches(deps, file, (out + [file])[j])
      && forall e | e in deps[(out + [file])[j]] ::
           e in seen && (e in (out + [file])[..j] || Reaches(deps, e, (out + [file])[j]))
    {
      assert (out + [file])[..j] == out[..j];
      if j == |out| { assert out[..j] == out; }
    }
  }

  /** The output vector and the set of files already visited, both updated in place. */
  class Collector {
    const deps: Graph
    var out: seq<File>
    var seen: set<File>

    constructor (deps: Graph)
      ensures this.deps == deps && out == [] && seen == {}
    {
      this.deps := deps;
      out, seen := [], {};
    }

    /** Visited files that are not output yet. */
    ghost function Open(): set<File>
      reads this
    {
      set x | x in seen && x !in out
    }

    ghost predicate Valid()
      reads this
    {
      Closed(deps) && seen <= deps.Keys && Distinct(out) && forall x | x in out :: x in seen
    }

    /** CollectFileDescriptors */
    method Collect(file: File)
      requires Valid() && file in deps
      requires forall g | g in Open() :: Reaches(deps, g, file)
      modifies this
      ensures Valid() && file in seen && old(seen) <= seen
      ensures old(out) <= out && Open() == old(Open())
      ensures Appends(deps, out, seen, |old(out)|, file)
      ensures Search(out, seen) == Visit(deps, file, Search(old(out), old(seen)))
      decreases deps.Keys - seen
    {
      if file in seen {
        return;
      }
      ghost var n := |out|;
      seen := seen + {file};
      ReachesSelf(deps, file);
      var i := 0;
      while i < |deps[file]|
        invariant 0 <= i <= |deps[file]|
        invariant Valid() && old(seen) + {file} <= seen && old(out) <= out
        invariant file !in out && Open() == old(Open()) + {file}
        invariant forall d | d in deps[file][..i] :: d in seen
        invariant Appends(deps, out, seen, n, file)
        invariant VisitAll(deps, deps[file][i..], Search(out, seen)) ==
          VisitAll(deps, deps[file], Search(old(out), old(seen) + {file}))
      {
        assert deps[file][i..][1..] == deps[file][i + 1..];
        var d := deps[file][i];
        ghost var before, seenBefore := out, seen;
        forall g | g in Open() ensures Reaches(deps, g, d) {
          ReachesStep(deps, g, file, d);
        }
        ReachesStep(deps, file, file, d);
        Collect(d);
        AppendsMore(deps, before, seenBefore, out, seen, n, file, d);
        assert file in Open();
        i := i + 1;
      }
      assert deps[file][..i] == deps[file] && deps[file][i..] == [];
      forall e | e in deps[file] ensures e in seen && (e in out || Reaches(deps, e, file)) {
        if e !in out { assert e in old(Open()) + {file}; }
      }
      AppendsItself(deps, out, seen, n, file);
      out := out + [file];
      assert Open() == old(Open());
    }
  }

  /** The call a benchmark makes: from an empty vector and an empty set. */
  method CollectAll(deps: Graph, root: File) returns (out: seq<File>)
    requires Closed(deps) && root in deps
    ensures Collected(deps, root, out)
    ensures DependencyOrder(deps, out) <==> Acyclic(deps, root)
    ensures out == Visit(deps, root, Search([], {})).out
  {
    var c := new Collector(deps);
    c.Collect(root);
    out := c.out;
    forall x | x in c.seen ensures x in out {
      assert x !in c.Open();
    }
    forall x | x in out ensures Reaches(deps, root, x) {
      var i :| 0 <= i < |out| && out[i] == x;
    }
    forall x | Reaches(deps, root, x) ensures x in out {
      var p :| Walk(deps, p) && p[0] == root && p[|p| - 1] == x;
      forall y, d | y in c.seen && y in deps && d in deps[y] ensures d in c.seen {
        var i :| 0 <= i < |out| && out[i] == y;
      }
      ClosedUnderWalk(deps, c.seen, p);
    }
    OrderIffAcyclic(deps, root, out);
  }
}
