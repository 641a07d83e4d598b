/** The script from the list it reads to the list the test runner reads: the merge, the alignment
    (conformance/update_failure_list.py) and the parser (conformance/conformance_test_runner.cc). */
module FailureListScript {
  import opened LineText
  import opened Sequences
  import opened FailureListUpdate
  import opened FailureListOrder
  import opened FailureListAlignment
  import opened FailureListRoundTrip
  import opened FailureListLoss

  // ---------- trimming the last line ----------

  /** Trimming a line leaves the test it lists, its message included. */
  lemma TrimKeepsTest(line: string)
    ensures ParseLine(RStrip(line) + "\n") == ParseLine(line)
  {
    TrimKeepsName(line);
    if HasHash(line) {
      var m := AfterHash(line);
      TrimHash(line);
      StripTrimmed(m);
    } else {
      TrimNoHash(line);
      RemoveSpacesRStrip(line);
      NewlineIsBlank(RStrip(line));
      TrimNoHashBare(line);
    }
  }

  lemma TrimNoHashBare(line: string)
    requires !HasHash(line)
    ensures BeforeHash(RStrip(line)) == RStrip(line) && !HasHash(RStrip(line))
  {
    var t := RStrip(line);
    assert line[..|line|] == line && t[..|t|] == t;
    RStripPrefix(line);
    FindIs(t, '#', |t|);
  }

  lemma EndLine(t: string)
    requires '\n' !in t
    ensures IsLine(t + "\n") && Ended(t + "\n")
  {
    assert (t + "\n")[..|t|] == t;
  }

  lemma TrimIsLine(line: string)
    requires IsLine(line)
    ensures IsLine(RStrip(line) + "\n") && Ended(RStrip(line) + "\n")
  {
    var body, last := line[..|line| - 1], line[|line| - 1];
    if last == '\n' {
      RStripMembers(body, '\n');
      assert RStrip(line) == RStrip(body);
    } else {
      assert line == body + [last];
      RStripMembers(line, '\n');
    }
    EndLine(RStrip(line));
  }

  predicate SameTest(l: string, k: string) {
    NameOf(l) == NameOf(k) && ParseLine(l) == ParseLine(k)
  }

  lemma TrimmedTests(existing: seq<string>, i: nat)
    requires i < |existing|
    ensures SameTest(WithLastTrimmed(existing)[i], existing[i])
  {
    if i == |existing| - 1 {
      TrimKeepsName(existing[i]);
      TrimKeepsTest(existing[i]);
    }
  }

  lemma {:induction false} TrimKeepsKept(lines: seq<string>, existing: seq<string>, removed: set<string>)
    requires |lines| == |existing|
    requires forall i | 0 <= i < |lines| :: SameTest(lines[i], existing[i])
    ensures ParseLines(Kept(lines, removed)) == ParseLines(Kept(existing, removed))
  {
    if lines != [] {
      assert SameTest(lines[0], existing[0]);
      TrimKeepsKept(lines[1..], existing[1..], removed);
      KeptHead(lines, removed);
      KeptHead(existing, removed);
    }
  }

  lemma KeptHead(lines: seq<string>, removed: set<string>)
    requires lines != []
    ensures ParseLines(Kept(lines, removed)) ==
      (if NameOf(lines[0]) in removed then [] else ParseLine(lines[0])) + ParseLines(Kept(lines[1..], removed))
  {
    if NameOf(lines[0]) in removed {
      assert [] + Kept(lines[1..], removed) == Kept(lines[1..], removed);
      assert [] + ParseLines(Kept(lines[1..], removed)) == ParseLines(Kept(lines[1..], removed));
    } else {
      ParseHead(lines[0], Kept(lines[1..], removed));
    }
  }

  // ---------- the tests of lines ----------

  /** A line whose name has no blanks inside. */
  predicate SolidName(l: string) {
    RemoveSpaces(NameOf(l)) == NameOf(l)
  }

  ghost predicate SolidNames(lines: seq<string>) {
    forall l | l in lines :: SolidName(l)
  }

  /** Such a line lists the test of its name, or none. */
  lemma ParseLineName(l: string)
    requires SolidName(l)
    ensures if NameOf(l) == "" then ParseLine(l) == []
            else |ParseLine(l)| == 1 && ParseLine(l)[0].name == NameOf(l)
  {
    RemoveSpacesStrip(BeforeHash(l));
  }

  /** A name as tests have it: not empty, without blanks and comment signs. */
  predicate IsName(s: string) {
    s != "" && '#' !in s && forall i | 0 <= i < |s| :: !IsSpace(s[i])
  }

  lemma {:induction false} NothingRemoved(s: string)
    requires forall i | 0 <= i < |s| :: !IsSpace(s[i])
    ensures RemoveSpaces(s) == s
  {
    if s != [] {
      NothingRemoved(s[1..]);
      assert s == [s[0]] + s[1..];
    }
  }

  lemma SurroundedName(left: string, name: string, right: string)
    requires Blank(left) && Blank(right) && IsName(name)
    ensures '#' !in left + name + right && !Blank(left + name + right)
    ensures Strip(left + name + right) == name && RemoveSpaces(left + name + right) == name
  {
    StripPadded(left, name, right);
    assert LStrip(name) == name && RStrip(name) == name;
    RemoveSpacesBlank(left);
    RemoveSpacesBlank(right);
    RemoveSpacesAppend(left + name, right);
    RemoveSpacesAppend(left, name);
    NothingRemoved(name);
    assert [] + name == name && name + [] == name;
    assert (left + name + right)[|left|] == name[0];
  }

  /** What lines list: a name with blanks around it and a message after the comment sign, stripped; a name
      alone, without a message; and nothing for a comment or a blank line. */
  lemma LinesList(left: string, name: string, right: string, message: string)
    requires Blank(left) && Blank(right) && IsName(name)
    ensures ParseLine(left + name + right + "#" + message) == [Test(name, Strip(message))]
    ensures NameOf(left + name + right + "#" + message) == name
    ensures ParseLine(left + name + right) == [Test(name, "")] && NameOf(left + name + right) == name
    ensures ParseLine(left + "#" + message) == [] && ParseLine(left) == []
  {
    var b := left + name + right;
    SurroundedName(left, name, right);
    HashParts(b, message);
    assert b[..|b|] == b;
    FindIs(b, '#', |b|);
    assert '#' !in left;
    HashParts(left, message);
    RemoveSpacesBlank(left);
    BlankLine(left);
  }

  ghost predicate TestsAscend(tests: seq<Test>) {
    forall i, j | 0 <= i < j < |tests| :: !Less(tests[j].name, tests[i].name)
  }

  ghost predicate NoneLess(tests: seq<Test>, name: string) {
    forall t | t in tests :: !Less(t.name, name)
  }

  lemma PrependTest(t: Test, tests: seq<Test>)
    ensures TestsAscend([t] + tests) <==> NoneLess(tests, t.name) && TestsAscend(tests)
  {
    var all := [t] + tests;
    if TestsAscend(all) {
      forall u | u in tests ensures !Less(u.name, t.name) {
        var j :| 0 <= j < |tests| && tests[j] == u;
        assert all[0] == t && all[j + 1] == u;
      }
      forall i, j | 0 <= i < j < |tests| ensures !Less(tests[j].name, tests[i].name) {
        assert all[i + 1] == tests[i] && all[j + 1] == tests[j];
      }
    }
    if NoneLess(tests, t.name) && TestsAscend(tests) {
      forall i, j | 0 <= i < j < |all| ensures !Less(all[j].name, all[i].name) {
        assert all[j] == tests[j - 1] && all[j] in tests;
        if i > 0 { assert all[i] == tests[i - 1]; }
      }
    }
  }

  /** The test a named line lists. */
  function TestOf(l: string): Test {
    Test(NameOf(l), if HasHash(l) then Strip(AfterHash(l)) else "")
  }

  lemma ParseFirstLine(l: string, rest: seq<string>)
    requires SolidName(l)
    ensures ParseLines([l] + rest) == if NameOf(l) == "" then ParseLines(rest) else [TestOf(l)] + ParseLines(rest)
  {
    ParseHead(l, rest);
    ParseLineName(l);
    assert [] + ParseLines(rest) == ParseLines(rest);
  }

  lemma NoneLessCons(t: Test, tests: seq<Test>, name: string)
    ensures NoneLess([t] + tests, name) <==> !Less(t.name, name) && NoneLess(tests, name)
  {
    if NoneLess([t] + tests, name) {
      assert t in [t] + tests;
      forall u | u in tests ensures !Less(u.name, name) { assert u in [t] + tests; }
    }
  }

  lemma LeadsCons(h: string, l: string, rest: seq<string>)
    ensures Leads(h, [l] + rest) <==> (NameOf(l) != "" ==> !Less(NameOf(l), NameOf(h))) && Leads(h, rest)
  {
    if Leads(h, [l] + rest) {
      assert l in [l] + rest;
      forall e | e in rest && NameOf(e) != "" ensures !Less(NameOf(e), NameOf(h)) { assert e in [l] + rest; }
    }
  }

  lemma SolidTail(lines: seq<string>)
    requires lines != [] && SolidNames(lines)
    ensures SolidName(lines[0]) && SolidNames(lines[1..]) && lines == [lines[0]] + lines[1..]
  {
    assert lines[0] in lines;
    forall l | l in lines[1..] ensures SolidName(l) { assert l in lines; }
  }

  lemma {:induction false} LeadsTests(h: string, lines: seq<string>)
    requires SolidNames(lines)
    ensures Leads(h, lines) <==> NoneLess(ParseLines(lines), NameOf(h))
  {
    if lines != [] {
      SolidTail(lines);
      LeadsTests(h, lines[1..]);
      LeadsCons(h, lines[0], lines[1..]);
      ParseFirstLine(lines[0], lines[1..]);
      NoneLessCons(TestOf(lines[0]), ParseLines(lines[1..]), NameOf(h));
    }
  }

  /** The tests of lines ascend exactly when their names do. */
  lemma {:induction false} TestsAscendExactly(lines: seq<string>)
    requires SolidNames(lines)
    ensures TestsAscend(ParseLines(lines)) <==> NamesAscend(lines)
  {
    if lines != [] {
      SolidTail(lines);
      TestsAscendExactly(lines[1..]);
      TestsAscendStep(lines[0], lines[1..]);
    }
  }

  lemma TestsAscendStep(l: string, rest: seq<string>)
    requires SolidName(l) && SolidNames(rest)
    requires TestsAscend(ParseLines(rest)) <==> NamesAscend(rest)
    ensures TestsAscend(ParseLines([l] + rest)) <==> NamesAscend([l] + rest)
  {
    PrependAscends(l, rest);
    LeadsTests(l, rest);
    ParseFirstLine(l, rest);
    if NameOf(l) != "" {
      PrependTest(TestOf(l), ParseLines(rest));
    }
  }

  lemma {:induction false} InterleavedTests(out: seq<string>, xs: seq<string>, ys: seq<string>)
    requires Interleaves(out, xs, ys)
    ensures multiset(ParseLines(out)) == multiset(ParseLines(xs)) + multiset(ParseLines(ys))
  {
    if out != [] {
      ParseHead(out[0], out[1..]);
      assert out == [out[0]] + out[1..];
      if xs != [] && xs[0] == out[0] && Interleaves(out[1..], xs[1..], ys) {
        InterleavedTests(out[1..], xs[1..], ys);
        ParseHead(xs[0], xs[1..]);
      } else {
        InterleavedTests(out[1..], xs, ys[1..]);
        ParseHead(ys[0], ys[1..]);
      }
    }
  }

  lemma {:induction false} ParseReverse(s: seq<string>)
    ensures multiset(ParseLines(Reverse(s))) == multiset(ParseLines(s))
  {
    if s != [] {
      ParseReverse(s[1..]);
      ParseAppend(Reverse(s[1..]), [s[0]]);
      ParseHead(s[0], []);
      assert [s[0]] + [] == [s[0]];
    }
  }

  // ---------- what the test runner reads ----------

  lemma TrimmedPieces(existing: seq<string>)
    requires existing != [] && Pieces(existing)
    ensures Pieces(WithLastTrimmed(existing))
  {
    var lines, n := WithLastTrimmed(existing), |existing| - 1;
    assert existing[n] in existing;
    TrimIsLine(existing[n]);
    forall l | l in lines ensures IsLine(l) {
      var i :| 0 <= i < |lines| && lines[i] == l;
      if i < n { assert existing[i] in existing; }
    }
  }

  lemma MergedPieces(lines: seq<string>, added: seq<string>, removed: set<string>)
    requires Pieces(lines) && Pieces(added)
    ensures Pieces(Merge(lines, added, removed))
  {
    forall l | l in Merge(lines, added, removed) ensures IsLine(l) {
      MergeMembers(lines, added, removed, l);
      KeptMembers(lines, removed, l);
    }
  }

  lemma KeptTests(existing: seq<string>, removed: set<string>)
    requires existing != []
    ensures ParseLines(Kept(WithLastTrimmed(existing), removed)) == ParseLines(Kept(existing, removed))
  {
    var lines := WithLastTrimmed(existing);
    forall i | 0 <= i < |lines| ensures SameTest(lines[i], existing[i]) { TrimmedTests(existing, i); }
    TrimKeepsKept(lines, existing, removed);
  }

  /** The whole script: the test runner reads exactly the tests of the lines that were not removed and
      of the added lines, with their messages, each as often as it is listed, if and only if each
      merged line without a newline joins well with what follows and each blank message stands last or
      before a blank line. */
  lemma RunnerReadsKeptAndAdded(existing: seq<string>, addList: seq<string>, removed: set<string>)
    requires existing != [] && Pieces(existing) && Pieces(Reverse(addList))
    ensures var out := Merge(WithLastTrimmed(existing), Reverse(addList), removed);
      multiset(Parse(Align(Text(out)))) == multiset(ParseLines(Kept(existing, removed))) + multiset(ParseLines(addList))
      <==> Fits(out) && Safe(SplitLines(Text(out)))
  {
    var lines := WithLastTrimmed(existing);
    var out := Merge(lines, Reverse(addList), removed);
    TrimmedPieces(existing);
    MergedPieces(lines, Reverse(addList), removed);
    PiecesSurvive(out);
    MergeInterleaves(lines, Reverse(addList), removed);
    InterleavedTests(out, Kept(lines, removed), Reverse(addList));
    KeptTests(existing, removed);
    ParseReverse(addList);
  }

  lemma MergedSolid(existing: seq<string>, added: seq<string>, removed: set<string>)
    requires existing != [] && SolidNames(existing) && SolidNames(added)
    ensures SolidNames(Merge(WithLastTrimmed(existing), added, removed))
  {
    var lines := WithLastTrimmed(existing);
    TrimmedNames(existing);
    forall l | l in Merge(lines, added, removed) ensures SolidName(l) {
      MergeMembers(lines, added, removed, l);
      KeptMembers(lines, removed, l);
      if l in lines {
        var i :| 0 <= i < |lines| && lines[i] == l;
        assert existing[i] in existing;
      }
    }
  }

  lemma SuffixAscends(tests: seq<Test>, n: nat, name: string)
    requires n <= |tests|
    ensures TestsAscend(tests) ==> TestsAscend(tests[n..])
    ensures NoneLess(tests, name) ==> NoneLess(tests[n..], name)
  {
    var rest := tests[n..];
    if TestsAscend(tests) {
      forall i, j | 0 <= i < j < |rest| ensures !Less(rest[j].name, rest[i].name) {
        assert rest[i] == tests[n + i] && rest[j] == tests[n + j];
      }
    }
  }

  /** The tests after a joined line are among those after its first line, in order. */
  lemma AfterJoinedAscends(ls: seq<string>, name: string)
    requires ls != []
    ensures TestsAscend(ParseLines(ls[1..])) ==> TestsAscend(ParseLines(AfterJoined(ls)))
    ensures NoneLess(ParseLines(ls[1..]), name) ==> NoneLess(ParseLines(AfterJoined(ls)), name)
  {
    AfterJoinedIsSuffix(ls);
    var k :| 0 <= k <= |ls[1..]| && AfterJoined(ls) == ls[1..][k..];
    SuffixTests(ls[1..], k);
    SuffixAscends(ParseLines(ls[1..]), |ParseLines(ls[1..])| - |ParseLines(ls[1..][k..])|, name);
  }

  /** The names are the same. */
  predicate SameNames(tests: seq<Test>, original: seq<Test>) {
    |tests| == |original| && forall i | 0 <= i < |tests| :: tests[i].name == original[i].name
  }

  lemma NoneLessAppend(xs: seq<Test>, ys: seq<Test>, name: string)
    ensures NoneLess(xs + ys, name) <==> NoneLess(xs, name) && NoneLess(ys, name)
  {
    forall t ensures t in xs + ys <==> t in xs || t in ys {}
  }

  lemma SameNamesNoneLess(xs: seq<Test>, ys: seq<Test>, name: string)
    requires SameNames(xs, ys) && NoneLess(ys, name)
    ensures NoneLess(xs, name)
  {
    forall t | t in xs ensures !Less(t.name, name) {
      var i :| 0 <= i < |xs| && xs[i] == t;
      assert ys[i] in ys;
    }
  }

  /** No test of an aligned file has a smaller name than all tests before the alignment. */
  lemma {:induction false} OutputNoneLess(ls: seq<string>, name: string)
    requires AreLines(ls) && NoneLess(ParseLines(ls), name)
    ensures NoneLess(ParseLines(OutputLines(ls)), name)
    decreases |ls|
  {
    if ls != [] {
      AfterJoinedLoses(ls);
      OutputTests(ls);
      JoinedTest(ls);
      NoneLessAppend(ParseLine(ls[0]), ParseLines(ls[1..]), name);
      SameNamesNoneLess(ParseLine(Joined(ls)), ParseLine(ls[0]), name);
      AfterJoinedAscends(ls, name);
      OutputNoneLess(AfterJoined(ls), name);
      NoneLessAppend(ParseLine(Joined(ls)), ParseLines(OutputLines(AfterJoined(ls))), name);
    }
  }

  /** One line's test in front of others. */
  lemma FirstAscends(first: seq<Test>, rest: seq<Test>)
    requires |first| <= 1
    ensures TestsAscend(first + rest) <==> TestsAscend(rest) && (first != [] ==> NoneLess(rest, first[0].name))
  {
    if first == [] {
      assert first + rest == rest;
    } else {
      assert first == [first[0]];
      PrependTest(first[0], rest);
    }
  }

  /** Alignment never takes tests out of order, even where it loses some. */
  lemma {:induction false} OutputAscends(ls: seq<string>)
    requires AreLines(ls) && TestsAscend(ParseLines(ls))
    ensures TestsAscend(ParseLines(OutputLines(ls)))
    decreases |ls|
  {
    if ls != [] {
      var first, joined := ParseLine(ls[0]), ParseLine(Joined(ls));
      AfterJoinedLoses(ls);
      OutputTests(ls);
      JoinedTest(ls);
      FirstAscends(first, ParseLines(ls[1..]));
      AfterJoinedAscends(ls, if first == [] then "" else first[0].name);
      OutputAscends(AfterJoined(ls));
      if first != [] { OutputNoneLess(AfterJoined(ls), first[0].name); }
      FirstAscends(joined, ParseLines(OutputLines(AfterJoined(ls))));
    }
  }

  /** It reads them in ascending order whenever the orders agree, and only then if it reads them all. */
  lemma RunnerReadsInOrder(existing: seq<string>, added: seq<string>, removed: set<string>)
    requires existing != [] && Pieces(existing) && Pieces(added) && NamesAscend(existing) && SortedLines(added)
    requires SolidNames(existing) && SolidNames(added)
    ensures var lines := WithLastTrimmed(existing);
      var out := Merge(lines, added, removed);
      Fits(out) ==>
        && (OrdersAgree(Kept(lines, removed), added) ==> TestsAscend(Parse(Align(Text(out)))))
        && (Safe(SplitLines(Text(out))) ==>
              (TestsAscend(Parse(Align(Text(out)))) <==> OrdersAgree(Kept(lines, removed), added)))
  {
    var lines := WithLastTrimmed(existing);
    var out := Merge(lines, added, removed);
    TrimmedPieces(existing);
    MergedPieces(lines, added, removed);
    PiecesSurvive(out);
    TrimmedAscends(existing);
    MergedSolid(existing, added, removed);
    TestsAscendExactly(out);
    MergeAscendsExactly(lines, added, removed);
    SplitIsText(Text(out));
    OutputSplits(SplitLines(Text(out)));
    if Fits(out) && OrdersAgree(Kept(lines, removed), added) { OutputAscends(SplitLines(Text(out))); }
  }

  /** An added line without a newline that is written before another test runs into it. */
  lemma UnendedLineRunsOn(x: string, k: string)
    requires IsLine(x) && !Ended(x) && IsLine(k) && '#' !in x + k && !Blank(x) && !Blank(k) && Less(x, NameOf(k))
    ensures multiset(Parse(Align(Text(Merge([k], [x], {}))))) != multiset(ParseLines(Merge([k], [x], {})))
  {
    MergeTakesAdded([k], x, [], {});
    MergeTakesLine([k], [], {});
    assert [x] + [] == [x] && [x] + ([k] + []) == [x, k];
    UnendedLines(x, k);
    PiecesSurvive([x, k]);
  }
}
