/** Adding tests to and removing tests from a failure list (the merge of
    conformance/update_failure_list.py). */
module FailureListUpdate {
  import opened Options
  import opened LineText
  import opened Sequences

  // ---------- the merge ----------

  /** Lines the update keeps. */
  function Kept(lines: seq<string>, removed: set<string>): seq<string> {
    if lines == [] then []
    else (if NameOf(lines[0]) in removed then [] else [lines[0]]) + Kept(lines[1..], removed)
  }

  /** What the loops write, with the added lines in ascending order. */
  function Merge(lines: seq<string>, added: seq<string>, removed: set<string>): seq<string>
    decreases |lines| + |added|
  {
    if lines == [] then added
    else if added != [] && Less(added[0], NameOf(lines[0])) then [added[0]] + Merge(lines, added[1..], removed)
    else (if NameOf(lines[0]) in removed then [] else [lines[0]]) + Merge(lines[1..], added, removed)
  }

  function Reverse(s: seq<string>): seq<string> {
    if s == [] then [] else Reverse(s[1..]) + [s[0]]
  }

  lemma {:induction false} ReverseLast(s: seq<string>)
    requires s != []
    ensures Reverse(s) == [s[|s| - 1]] + Reverse(s[..|s| - 1])
  {
    if |s| > 1 {
      ReverseLast(s[1..]);
      assert s[1..][..|s| - 2] == s[..|s| - 1][1..];
    }
  }

  /** The loops have written out, and Merge says what is still to come. */
  ghost predicate Writing(out: seq<string>, lines: seq<string>, added: seq<string>, removed: set<string>,
      goal: seq<string>) {
    out + Merge(lines, added, removed) == goal
  }

  lemma MergeTakesAdded(lines: seq<string>, first: string, added: seq<string>, removed: set<string>)
    requires lines == [] || Less(first, NameOf(lines[0]))
    ensures Merge(lines, [first] + added, removed) == [first] + Merge(lines, added, removed)
  {
    assert ([first] + added)[1..] == added;
  }

  lemma MergeTakesLine(lines: seq<string>, added: seq<string>, removed: set<string>)
    requires lines != [] && (added == [] || !Less(added[0], NameOf(lines[0]))) && NameOf(lines[0]) !in removed
    ensures Merge(lines, added, removed) == [lines[0]] + Merge(lines[1..], added, removed)
  {
  }

  lemma MergeDropsLine(lines: seq<string>, added: seq<string>, removed: set<string>)
    requires lines != [] && (added == [] || !Less(added[0], NameOf(lines[0]))) && NameOf(lines[0]) in removed
    ensures Merge(lines, added, removed) == Merge(lines[1..], added, removed)
  {
    var later := Merge(lines[1..], added, removed);
    assert [] + later == later;
  }

  lemma WriteAdded(out: seq<string>, lines: seq<string>, rest: seq<string>, removed: set<string>, goal: seq<string>)
    requires Writing(out, lines, Reverse(rest), removed, goal) && rest != []
    requires lines == [] || Less(rest[|rest| - 1], NameOf(lines[0]))
    ensures Writing(out + [rest[|rest| - 1]], lines, Reverse(rest[..|rest| - 1]), removed, goal)
  {
    ReverseLast(rest);
    var last, before := rest[|rest| - 1], Reverse(rest[..|rest| - 1]);
    MergeTakesAdded(lines, last, before, removed);
    Associative(out, [last], Merge(lines, before, removed));
  }

  lemma WriteLine(out: seq<string>, lines: seq<string>, rest: seq<string>, removed: set<string>, goal: seq<string>)
    requires Writing(out, lines, Reverse(rest), removed, goal) && lines != []
    requires rest == [] || !Less(rest[|rest| - 1], NameOf(lines[0]))
    ensures Writing(if NameOf(lines[0]) in removed then out else out + [lines[0]],
              lines[1..], Reverse(rest), removed, goal)
  {
    if rest != [] { ReverseLast(rest); }
    var later := Merge(lines[1..], Reverse(rest), removed);
    if NameOf(lines[0]) in removed {
      MergeDropsLine(lines, Reverse(rest), removed);
    } else {
      MergeTakesLine(lines, Reverse(rest), removed);
      Associative(out, [lines[0]], later);
    }
  }

  /** The merge loop: add_list is sorted in descending order and consumed from its end. */
  method MergeLines(lines: seq<string>, addList: seq<string>, removed: set<string>) returns (out: seq<string>)
    ensures out == Merge(lines, Reverse(addList), removed)
  {
    out := [];
    var rest := addList;
    ghost var goal := Merge(lines, Reverse(addList), removed);
    for i := 0 to |lines|
      invariant Writing(out, lines[i..], Reverse(rest), removed, goal)
    {
      var line := lines[i];
      var test := NameOf(line);
      while rest != [] && Less(rest[|rest| - 1], test)
        invariant Writing(out, lines[i..], Reverse(rest), removed, goal)
        decreases |rest|
      {
        WriteAdded(out, lines[i..], rest, removed, goal);
        out := out + [rest[|rest| - 1]];
        rest := rest[..|rest| - 1];
      }
      WriteLine(out, lines[i..], rest, removed, goal);
      assert lines[i..][1..] == lines[i + 1..];
      if test !in removed {
        out := out + [line];
      }
    }
    while rest != []
      invariant Writing(out, [], Reverse(rest), removed, goal)
      decreases |rest|
    {
      WriteAdded(out, [], rest, removed, goal);
      out := out + [rest[|rest| - 1]];
      rest := rest[..|rest| - 1];
    }
    assert out + [] == out;
  }

  /** The file as it is read: without a line the last-line fix-up fails; otherwise the last line
      gets exactly one newline and no blanks before it. */
  method UpdateLines(existing: seq<string>, addList: seq<string>, removed: set<string>)
      returns (out: Option<seq<string>>)
    ensures out.None? <==> existing == []
    ensures out.Some? ==> out.value == Merge(WithLastTrimmed(existing), Reverse(addList), removed)
  {
    if existing == [] {
      return None;
    }
    var lines := existing[|existing| - 1 := RStrip(existing[|existing| - 1]) + "\n"];
    var merged := MergeLines(lines, addList, removed);
    return Some(merged);
  }

  function WithLastTrimmed(lines: seq<string>): seq<string>
    requires lines != []
  {
    lines[|lines| - 1 := RStrip(lines[|lines| - 1]) + "\n"]
  }

  /** The names that removal files give. */
  function RemovedNames(removeLines: seq<string>): set<string> {
    set l | l in removeLines :: NameOf(l)
  }

  /** Removal files must not mention an added line; otherwise their lines count by name. */
  method CollectRemovals(addSet: set<string>, removeLines: seq<string>) returns (removed: Option<set<string>>)
    ensures removed.None? <==> exists l :: l in removeLines && l in addSet
    ensures removed.Some? ==> removed.value == RemovedNames(removeLines)
    ensures removed.Some? ==> forall n :: n in removed.value <==> exists l :: l in removeLines && NameOf(l) == n
  {
    var names := {};
    for i := 0 to |removeLines|
      invariant forall l | l in removeLines[..i] :: l !in addSet
      invariant names == RemovedNames(removeLines[..i])
    {
      var line := removeLines[i];
      if line in addSet {
        return None;
      }
      assert removeLines[..i + 1] == removeLines[..i] + [line];
      names := names + {NameOf(line)};
    }
    assert removeLines[..|removeLines|] == removeLines;
    return Some(names);
  }

  // ---------- nothing lost, nothing invented ----------

  /** The next added line goes in front of the first line whose test is greater, and behind all others. */
  lemma {:induction false} AddedGoesBefore(xs: seq<string>, ys: seq<string>, a: string, added: seq<string>,
      removed: set<string>)
    requires forall x | x in xs :: !Less(a, NameOf(x))
    requires ys != [] ==> Less(a, NameOf(ys[0]))
    ensures Merge(xs + ys, [a] + added, removed) == Kept(xs, removed) + [a] + Merge(ys, added, removed)
    decreases |xs|
  {
    if xs == [] {
      assert [] + ys == ys && [] + [a] == [a];
      MergeTakesAdded(ys, a, added, removed);
    } else {
      var keep := if NameOf(xs[0]) in removed then [] else [xs[0]];
      assert (xs + ys)[1..] == xs[1..] + ys && xs[0] in xs;
      AddedGoesBefore(xs[1..], ys, a, added, removed);
      Associative(keep, Kept(xs[1..], removed) + [a], Merge(ys, added, removed));
      Associative(keep, Kept(xs[1..], removed), [a]);
    }
  }

  /** out is an interleaving of xs and ys that keeps the order of each. */
  ghost predicate Interleaves(out: seq<string>, xs: seq<string>, ys: seq<string>)
    decreases |out|
  {
    if out == [] then xs == [] && ys == []
    else
      || (xs != [] && xs[0] == out[0] && Interleaves(out[1..], xs[1..], ys))
      || (ys != [] && ys[0] == out[0] && Interleaves(out[1..], xs, ys[1..]))
  }

  lemma {:induction false} AllAdded(ys: seq<string>)
    ensures Interleaves(ys, [], ys)
  {
    if ys != [] { AllAdded(ys[1..]); }
  }

  /** The result is exactly the old lines that were not removed, in order, with each added line once,
      in order. */
  lemma {:induction false} MergeInterleaves(lines: seq<string>, added: seq<string>, removed: set<string>)
    ensures Interleaves(Merge(lines, added, removed), Kept(lines, removed), added)
    decreases |lines| + |added|
  {
    var out := Merge(lines, added, removed);
    if lines == [] {
      AllAdded(added);
    } else if added != [] && Less(added[0], NameOf(lines[0])) {
      MergeInterleaves(lines, added[1..], removed);
      assert out[1..] == Merge(lines, added[1..], removed);
    } else {
      MergeInterleaves(lines[1..], added, removed);
      if NameOf(lines[0]) !in removed {
        assert out[1..] == Merge(lines[1..], added, removed);
        assert Kept(lines, removed)[1..] == Kept(lines[1..], removed);
      } else {
        assert out == Merge(lines[1..], added, removed);
        assert Kept(lines, removed) == Kept(lines[1..], removed);
      }
    }
  }

  lemma {:induction false} InterleavedElements(out: seq<string>, xs: seq<string>, ys: seq<string>)
    requires Interleaves(out, xs, ys)
    ensures multiset(out) == multiset(xs) + multiset(ys)
  {
    if out != [] {
      assert out == [out[0]] + out[1..];
      if xs != [] && xs[0] == out[0] && Interleaves(out[1..], xs[1..], ys) {
        InterleavedElements(out[1..], xs[1..], ys);
        assert xs == [xs[0]] + xs[1..];
      } else {
        InterleavedElements(out[1..], xs, ys[1..]);
        assert ys == [ys[0]] + ys[1..];
      }
    }
  }

  lemma {:induction false} KeptMembers(lines: seq<string>, removed: set<string>, e: string)
    ensures e in Kept(lines, removed) <==> e in lines && NameOf(e) !in removed
  {
    if lines != [] {
      KeptMembers(lines[1..], removed, e);
      assert lines == [lines[0]] + lines[1..];
    }
  }

  lemma MergeMembers(lines: seq<string>, added: seq<string>, removed: set<string>, e: string)
    ensures e in Merge(lines, added, removed) <==> e in Kept(lines, removed) || e in added
  {
    var out := Merge(lines, added, removed);
    MergeInterleaves(lines, added, removed);
    InterleavedElements(out, Kept(lines, removed), added);
    assert e in out <==> e in multiset(out);
  }

  lemma {:induction false} ReverseMultiset(s: seq<string>)
    ensures multiset(Reverse(s)) == multiset(s)
  {
    if s != [] {
      ReverseMultiset(s[1..]);
      assert s == [s[0]] + s[1..];
    }
  }

  /** A line of the list is kept exactly when no removal line names the same test. */
  lemma KeptExactly(lines: seq<string>, removeLines: seq<string>, e: string)
    ensures e in Kept(lines, RemovedNames(removeLines)) <==>
      e in lines && forall l | l in removeLines :: NameOf(l) != NameOf(e)
  {
    KeptMembers(lines, RemovedNames(removeLines), e);
  }

  /** What the script writes before it aligns: None when it fails. */
  method UpdateList(existing: seq<string>, addSet: set<string>, addList: seq<string>, removeLines: seq<string>)
      returns (out: Option<seq<string>>)
    ensures out.None? <==> existing == [] || exists l :: l in removeLines && l in addSet
    ensures out.Some? ==> forall e :: e in out.value <==>
      e in addList ||
      (e in WithLastTrimmed(existing) && forall l | l in removeLines :: NameOf(l) != NameOf(e))
    ensures out.Some? ==>
      forall e, l | e in out.value && e !in addList && l in removeLines :: NameOf(e) != NameOf(l)
  {
    var removed := CollectRemovals(addSet, removeLines);
    if removed.None? {
      return None;
    }
    out := UpdateLines(existing, addList, removed.value);
    if out.Some? {
      var lines := WithLastTrimmed(existing);
      forall e ensures e in out.value <==>
        e in addList || (e in lines && forall l | l in removeLines :: NameOf(l) != NameOf(e))
      {
        MergeMembers(lines, Reverse(addList), removed.value, e);
        KeptExactly(lines, removeLines, e);
        ReverseMultiset(addList);
        assert e in Reverse(addList) <==> e in multiset(Reverse(addList));
        assert e in addList <==> e in multiset(addList);
      }
    }
  }

  // ---------- comments ----------

  /** The lines that name no test: comments and blank lines. */
  function Unnamed(lines: seq<string>): seq<string> {
    if lines == [] then [] else (if NameOf(lines[0]) == "" then [lines[0]] else []) + Unnamed(lines[1..])
  }

  lemma {:induction false} UnnamedKept(lines: seq<string>, removed: set<string>)
    ensures Unnamed(Kept(lines, removed)) == if "" in removed then [] else Unnamed(lines)
  {
    if lines != [] {
      var rest := Kept(lines[1..], removed);
      UnnamedKept(lines[1..], removed);
      if NameOf(lines[0]) in removed {
        assert [] + rest == rest;
      } else {
        assert ([lines[0]] + rest)[1..] == rest;
      }
    }
  }

  /** An update leaves the comments and blank lines of a list exactly when no removal line is itself a
      comment or blank; otherwise it drops them all. */
  lemma CommentsStayExactly(lines: seq<string>, removeLines: seq<string>)
    ensures var kept := Unnamed(Kept(lines, RemovedNames(removeLines)));
      && (kept == Unnamed(lines) || kept == [])
      && (kept == Unnamed(lines) <==> Unnamed(lines) == [] || forall l | l in removeLines :: NameOf(l) != "")
  {
    UnnamedKept(lines, RemovedNames(removeLines));
  }

  lemma NamelessLines()
    ensures NameOf("# note\n") == "" && NameOf("\n") == ""
  {
    FindIs("# note\n", '#', 0);
    assert BeforeHash("# note\n") == "";
    FindIs("\n", '#', 1);
    StripPadded("", "", "\n");
    assert BeforeHash("\n") == "\n" == "" + "" + "\n";
  }

  /** An empty line in a removal file drops a comment of the list. */
  lemma EmptyRemovalDropsComment()
    ensures Kept(["# note\n"], RemovedNames(["\n"])) == []
  {
    NamelessLines();
    assert "\n" in ["\n"];
    assert Kept(["# note\n"][1..], RemovedNames(["\n"])) == [];
  }
}
