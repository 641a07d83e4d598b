/** The order of the tests after an update (the merge of conformance/update_failure_list.py): it
    compares an added line as a whole with the name of an existing one. */
module FailureListOrder {
  import opened LineText
  import opened Sequences
  import opened FailureListUpdate

  // ---------- lines and names ----------

  /** Names use only characters above '#'. */
  predicate NameChars(s: string) {
    forall i | 0 <= i < |s| :: s[i] > '#'
  }

  /** What follows the name in a line begins with a blank, a newline or the comment sign. */
  predicate TailChars(s: string) {
    s != [] ==> s[0] <= '#'
  }

  /** A line that starts with its name. */
  ghost predicate PlainLine(line: string) {
    NameChars(NameOf(line)) && NameOf(line) <= line && TailChars(line[|NameOf(line)|..])
  }

  /** Raw lines compare the way their names do, up to lines of the same name. */
  lemma {:induction false} RawOrderIsNameOrder(n1: string, t1: string, n2: string, t2: string)
    requires NameChars(n1) && NameChars(n2) && TailChars(t1) && TailChars(t2)
    requires !Less(n2 + t2, n1 + t1)
    ensures !Less(n2, n1)
  {
    var a, b := n1 + t1, n2 + t2;
    assert n2 == [] ==> b == t2;
    if n1 != [] && n2 != [] {
      if n1[0] == n2[0] {
        assert a[1..] == n1[1..] + t1 && b[1..] == n2[1..] + t2;
        RawOrderIsNameOrder(n1[1..], t1, n2[1..], t2);
      }
    }
  }

  lemma LinesInOrder(a: string, b: string)
    requires PlainLine(a) && PlainLine(b) && !Less(b, a)
    ensures !Less(NameOf(b), NameOf(a))
  {
    var n1, n2 := NameOf(a), NameOf(b);
    assert a == n1 + a[|n1|..] && b == n2 + b[|n2|..];
    RawOrderIsNameOrder(n1, a[|n1|..], n2, b[|n2|..]);
  }

  /** A name against a raw line, as the loop compares them. */
  lemma NameAgainstLine(n: string, b: string)
    requires NameChars(n) && PlainLine(b)
    ensures !Less(b, n) ==> !Less(NameOf(b), n)
    ensures !Less(n, b) ==> !Less(n, NameOf(b))
  {
    var m := NameOf(b);
    assert b == m + b[|m|..] && n == n + [];
    if !Less(b, n) { RawOrderIsNameOrder(n, [], m, b[|m|..]); }
    if !Less(n, b) { RawOrderIsNameOrder(m, b[|m|..], n, []); }
  }

  ghost predicate SortedLines(lines: seq<string>) {
    forall i, j | 0 <= i < j < |lines| :: !Less(lines[j], lines[i])
  }

  /** The named lines are in ascending order of their names; lines without a name do not count. */
  ghost predicate NamesAscend(lines: seq<string>) {
    forall i, j | 0 <= i < j < |lines| && NameOf(lines[j]) != "" :: !Less(NameOf(lines[j]), NameOf(lines[i]))
  }

  // ---------- lines that begin with a blank ----------

  /** A line that names a test but begins with a blank. */
  predicate Indented(line: string) {
    line != "" && IsSpace(line[0]) && NameOf(line) != ""
  }

  lemma {:induction false} RStripPrefix(s: string)
    ensures RStrip(s) <= s && Blank(s[|RStrip(s)|..])
    decreases |s|
  {
    if s != [] && IsSpace(s[|s| - 1]) {
      var z := s[..|s| - 1];
      RStripPrefix(z);
      assert forall i | |RStrip(z)| <= i < |z| :: s[i] == z[i] && z[i] == z[|RStrip(z)|..][i - |RStrip(z)|];
    }
  }

  /** What stands before the comment sign begins with the name or with a blank. */
  lemma NameStartsLine(b: string)
    requires b != [] && !IsSpace(b[0])
    ensures Strip(b) <= b && Blank(b[|Strip(b)|..])
  {
    RStripPrefix(b);
  }

  lemma LineKinds(line: string)
    requires NameChars(NameOf(line))
    ensures Indented(line) || PlainLine(line)
  {
    var b := BeforeHash(line);
    StripShape(b);
    if b != [] && !IsSpace(b[0]) {
      NameStartsLine(b);
      var n := |NameOf(line)|;
      assert b <= line;
      if n < |b| { assert IsSpace(b[n..][0]); }
    }
  }

  lemma IndentedIsLess(a: string, n: string)
    requires Indented(a) && n != "" && NameChars(n)
    ensures Less(a, n)
  {
  }

  lemma IndentedBeforePlain(a: string, b: string)
    requires Indented(a) && PlainLine(b) && NameOf(b) != ""
    ensures Less(a, b)
  {
    assert b[0] == NameOf(b)[0];
  }

  lemma PlainIsNotIndented(line: string)
    requires PlainLine(line)
    ensures !Indented(line)
  {
    if NameOf(line) != "" { assert line[0] == NameOf(line)[0]; }
  }

  /** h names no greater test than any line of rest that names one. */
  ghost predicate Leads(h: string, rest: seq<string>) {
    forall e | e in rest && NameOf(e) != "" :: !Less(NameOf(e), NameOf(h))
  }

  /** Every indented added line leads the kept lines and the added lines after it. */
  ghost predicate IndentedFit(kept: seq<string>, added: seq<string>) {
    forall i | 0 <= i < |added| && Indented(added[i]) :: Leads(added[i], kept) && Leads(added[i], added[i + 1..])
  }

  lemma IndentedFitTail(kept: seq<string>, added: seq<string>)
    requires added != []
    ensures IndentedFit(kept, added) <==>
      (Indented(added[0]) ==> Leads(added[0], kept) && Leads(added[0], added[1..])) && IndentedFit(kept, added[1..])
  {
    assert forall i | 0 <= i < |added| - 1 ::
      added[1..][i] == added[i + 1] && added[1..][i + 1..] == added[i + 1..][1..];
    if IndentedFit(kept, added) {
      forall i | 0 <= i < |added[1..]| && Indented(added[1..][i])
        ensures Leads(added[1..][i], kept) && Leads(added[1..][i], added[1..][i + 1..])
      {
        assert Indented(added[i + 1]) && added[1..][i + 1..] == added[i + 2..];
      }
    }
    if IndentedFit(kept, added[1..]) {
      forall i | 0 < i < |added| && Indented(added[i])
        ensures Leads(added[i], kept) && Leads(added[i], added[i + 1..])
      {
        assert Indented(added[1..][i - 1]) && added[1..][i..] == added[i + 1..];
      }
    }
  }

  // ---------- one line written ----------

  lemma PrependAscends(h: string, rest: seq<string>)
    ensures NamesAscend([h] + rest) <==> Leads(h, rest) && NamesAscend(rest)
  {
    var out := [h] + rest;
    if NamesAscend(out) {
      forall e | e in rest && NameOf(e) != "" ensures !Less(NameOf(e), NameOf(h)) {
        var j :| 0 <= j < |rest| && rest[j] == e;
        assert out[0] == h && out[j + 1] == e;
      }
      forall i, j | 0 <= i < j < |rest| && NameOf(rest[j]) != "" ensures !Less(NameOf(rest[j]), NameOf(rest[i])) {
        assert out[i + 1] == rest[i] && out[j + 1] == rest[j];
      }
    }
    if Leads(h, rest) && NamesAscend(rest) {
      forall i, j | 0 <= i < j < |out| && NameOf(out[j]) != "" ensures !Less(NameOf(out[j]), NameOf(out[i])) {
        assert out[j] == rest[j - 1] && out[j] in rest;
        if i > 0 { assert out[i] == rest[i - 1]; }
      }
    }
  }

  ghost predicate NamesOk(lines: seq<string>) {
    forall l | l in lines :: NameChars(NameOf(l))
  }

  /** A plain added line leads the added lines after it. */
  lemma PlainLeadsAdded(added: seq<string>)
    requires added != [] && SortedLines(added) && NamesOk(added) && !Indented(added[0])
    ensures Leads(added[0], added[1..])
  {
    var a := added[0];
    assert a in added;
    LineKinds(a);
    forall e | e in added[1..] && NameOf(e) != "" ensures !Less(NameOf(e), NameOf(a)) {
      var j :| 0 <= j < |added[1..]| && added[1..][j] == e;
      assert added[j + 1] == e && e in added;
      LineKinds(e);
      if Indented(e) {
        if NameOf(a) != "" { IndentedBeforePlain(e, a); }
      } else {
        LinesInOrder(a, e);
      }
    }
  }

  lemma LeadsMerge(h: string, lines: seq<string>, added: seq<string>, removed: set<string>)
    ensures Leads(h, Merge(lines, added, removed)) <==> Leads(h, Kept(lines, removed)) && Leads(h, added)
  {
    forall e ensures e in Merge(lines, added, removed) <==> e in Kept(lines, removed) || e in added {
      MergeMembers(lines, added, removed, e);
    }
  }

  lemma LeadsKept(h: string, lines: seq<string>, removed: set<string>)
    requires Leads(h, lines)
    ensures Leads(h, Kept(lines, removed))
  {
    forall e | e in Kept(lines, removed) ensures e in lines { KeptMembers(lines, removed, e); }
  }

  // ---------- the merge ----------

  lemma AscendsFrom(lines: seq<string>)
    requires lines != []
    ensures NamesAscend(lines) <==> Leads(lines[0], lines[1..]) && NamesAscend(lines[1..])
  {
    PrependAscends(lines[0], lines[1..]);
    assert lines == [lines[0]] + lines[1..];
  }

  /** The raw line a and the test it names lie on the same side of the test line l. */
  predicate Agrees(a: string, l: string) {
    if Less(a, NameOf(l)) then !Less(NameOf(l), NameOf(a))
    else NameOf(a) == "" || !Less(NameOf(a), NameOf(l))
  }

  ghost predicate AgreesWithAll(a: string, kept: seq<string>) {
    forall l | l in kept && NameOf(l) != "" :: Agrees(a, l)
  }

  /** Comparing raw added lines with names gives the order of the tests: among the added lines, and
      between each of them and each kept line. */
  ghost predicate OrdersAgree(kept: seq<string>, added: seq<string>) {
    NamesAscend(added) && forall a | a in added :: AgreesWithAll(a, kept)
  }

  /** An added line written before an existing one is less than all names from there on. */
  lemma LessThanFirst(a: string, lines: seq<string>)
    requires lines != [] && NamesAscend(lines) && Less(a, NameOf(lines[0]))
    ensures forall l | l in lines && NameOf(l) != "" :: Less(a, NameOf(l))
  {
    forall l | l in lines && NameOf(l) != "" ensures Less(a, NameOf(l)) {
      var j :| 0 <= j < |lines| && lines[j] == l;
      if j > 0 && !Less(a, NameOf(l)) { AtMostTransitive(NameOf(lines[0]), NameOf(l), a); }
    }
  }

  /** An added line that is not written before an existing one is not less than its name, and neither
      are those after it. */
  lemma NoneLessThan(n: string, added: seq<string>)
    requires SortedLines(added) && (added != [] ==> !Less(added[0], n))
    ensures forall a | a in added :: !Less(a, n)
  {
    forall a | a in added ensures !Less(a, n) {
      var j :| 0 <= j < |added| && added[j] == a;
      if j > 0 { AtMostTransitive(n, added[0], a); }
    }
  }

  lemma OrdersAgreeTail(kept: seq<string>, added: seq<string>)
    requires added != []
    ensures OrdersAgree(kept, added) <==>
      Leads(added[0], added[1..]) && AgreesWithAll(added[0], kept) && OrdersAgree(kept, added[1..])
  {
    AscendsFrom(added);
    forall a ensures a in added <==> a == added[0] || a in added[1..] {
      assert added == [added[0]] + added[1..];
    }
  }

  /** Writing an added line first. */
  lemma AddedStep(lines: seq<string>, added: seq<string>, removed: set<string>)
    requires lines != [] && added != [] && Less(added[0], NameOf(lines[0])) && NamesAscend(lines)
    requires NamesAscend(Merge(lines, added[1..], removed)) <==> OrdersAgree(Kept(lines, removed), added[1..])
    ensures NamesAscend(Merge(lines, added, removed)) <==> OrdersAgree(Kept(lines, removed), added)
  {
    var a, kept := added[0], Kept(lines, removed);
    MergeTakesAdded(lines, a, added[1..], removed);
    assert added == [a] + added[1..];
    PrependAscends(a, Merge(lines, added[1..], removed));
    LeadsMerge(a, lines, added[1..], removed);
    OrdersAgreeTail(kept, added);
    LessThanFirst(a, lines);
    forall l | l in kept ensures l in lines { KeptMembers(lines, removed, l); }
  }

  lemma OrdersAgreeHead(l: string, kept: seq<string>, added: seq<string>)
    requires forall a | a in added :: !Less(a, NameOf(l))
    ensures OrdersAgree([l] + kept, added) <==> Leads(l, added) && OrdersAgree(kept, added)
  {
    forall a | a in added
      ensures AgreesWithAll(a, [l] + kept) <==> (NameOf(l) == "" || Agrees(a, l)) && AgreesWithAll(a, kept)
    {
      assert forall k :: k in [l] + kept <==> k == l || k in kept;
    }
  }

  /** Writing an existing line. */
  lemma KeptStep(lines: seq<string>, added: seq<string>, removed: set<string>)
    requires lines != [] && (added != [] ==> !Less(added[0], NameOf(lines[0]))) && NameOf(lines[0]) !in removed
    requires NamesAscend(lines) && SortedLines(added)
    requires NamesAscend(Merge(lines[1..], added, removed)) <==> OrdersAgree(Kept(lines[1..], removed), added)
    ensures NamesAscend(Merge(lines, added, removed)) <==> OrdersAgree(Kept(lines, removed), added)
  {
    var l := lines[0];
    MergeTakesLine(lines, added, removed);
    AscendsFrom(lines);
    LeadsKept(l, lines[1..], removed);
    LeadsMerge(l, lines[1..], added, removed);
    PrependAscends(l, Merge(lines[1..], added, removed));
    NoneLessThan(NameOf(l), added);
    OrdersAgreeHead(l, Kept(lines[1..], removed), added);
  }

  lemma KeptDrops(lines: seq<string>, removed: set<string>)
    requires lines != [] && NameOf(lines[0]) in removed
    ensures Kept(lines, removed) == Kept(lines[1..], removed)
  {
    var rest := Kept(lines[1..], removed);
    assert [] + rest == rest;
  }

  /** Into tests that ascend, a merge of sorted lines leaves tests that ascend exactly when the added
      lines, compared as the loop compares them, are ordered like the tests they name. */
  lemma {:induction false} MergeAscendsExactly(lines: seq<string>, added: seq<string>, removed: set<string>)
    requires NamesAscend(lines) && SortedLines(added)
    ensures NamesAscend(Merge(lines, added, removed)) <==> OrdersAgree(Kept(lines, removed), added)
    decreases |lines| + |added|
  {
    if lines == [] {
    } else if added != [] && Less(added[0], NameOf(lines[0])) {
      MergeAscendsExactly(lines, added[1..], removed);
      AddedStep(lines, added, removed);
    } else {
      AscendsFrom(lines);
      MergeAscendsExactly(lines[1..], added, removed);
      if NameOf(lines[0]) in removed {
        MergeDropsLine(lines, added, removed);
        KeptDrops(lines, removed);
      } else {
        KeptStep(lines, added, removed);
      }
    }
  }

  // ---------- names made of name characters ----------

  lemma TailSorted(added: seq<string>)
    requires added != [] && SortedLines(added) && NamesOk(added)
    ensures SortedLines(added[1..]) && NamesOk(added[1..])
  {
    forall l | l in added[1..] ensures NameChars(NameOf(l)) { assert l in added; }
  }

  lemma AgreesByKind(a: string, kept: seq<string>)
    requires NameChars(NameOf(a)) && NamesOk(kept)
    ensures AgreesWithAll(a, kept) <==> (Indented(a) ==> Leads(a, kept))
  {
    LineKinds(a);
    forall l | l in kept && NameOf(l) != ""
      ensures if Indented(a) then Less(a, NameOf(l)) else Agrees(a, l)
    {
      if Indented(a) {
        IndentedIsLess(a, NameOf(l));
      } else {
        LessTotal(a, NameOf(l));
        NameAgainstLine(NameOf(l), a);
      }
    }
  }

  /** For names of characters above the comment sign the orders agree exactly when every added line that
      begins with a blank names no greater test than the kept lines and the added lines after it. */
  lemma {:induction false} IndentedFitExactly(kept: seq<string>, added: seq<string>)
    requires NamesOk(kept) && SortedLines(added) && NamesOk(added)
    ensures OrdersAgree(kept, added) <==> IndentedFit(kept, added)
  {
    if added != [] {
      var a := added[0];
      assert a in added;
      TailSorted(added);
      IndentedFitExactly(kept, added[1..]);
      OrdersAgreeTail(kept, added);
      IndentedFitTail(kept, added);
      AgreesByKind(a, kept);
      if !Indented(a) { PlainLeadsAdded(added); }
    }
  }

  // ---------- the whole update ----------

  lemma HashParts(b: string, m: string)
    requires '#' !in b
    ensures var line := b + "#" + m; HasHash(line) && BeforeHash(line) == b && AfterHash(line) == m
  {
    var line := b + "#" + m;
    assert line[..|b|] == b && line[|b|] == '#' && line[|b| + 1..] == m;
    FindIs(line, '#', |b|);
  }

  lemma HashAtEnd(b: string)
    ensures RStrip(b + "#") == b + "#"
  {
    assert (b + "#")[|b|] == '#';
  }

  /** What trimming leaves of a line with a comment. */
  lemma TrimHash(line: string)
    requires HasHash(line)
    ensures var t := RStrip(line) + "\n";
      HasHash(t) && BeforeHash(t) == BeforeHash(line) && AfterHash(t) == RStrip(AfterHash(line)) + "\n"
  {
    var b, m := BeforeHash(line), AfterHash(line);
    assert line == b + "#" + m;
    RStripAppend(b + "#", m);
    HashAtEnd(b);
    RStripShape(m);
    assert b + "#" + [] == b + "#";
    Associative(b + "#", RStrip(m), "\n");
    HashParts(b, RStrip(m) + "\n");
  }

  lemma TrimNoHash(line: string)
    requires !HasHash(line)
    ensures var t := RStrip(line) + "\n"; !HasHash(t) && BeforeHash(t) == t && BeforeHash(line) == line
  {
    var t := RStrip(line) + "\n";
    assert line[..|line|] == line && t[..|t|] == t;
    RStripPrefix(line);
    FindIs(t, '#', |t|);
  }

  /** Trimming the last line does not change the test it names. */
  lemma TrimKeepsName(line: string)
    ensures NameOf(RStrip(line) + "\n") == NameOf(line)
  {
    if HasHash(line) {
      TrimHash(line);
    } else {
      TrimNoHash(line);
      StripTrimmed(line);
    }
  }

  lemma StripTrimmed(s: string)
    ensures Strip(RStrip(s) + "\n") == Strip(s)
  {
    RStripPrefix(s);
    var t := RStrip(s);
    StripPadded([], t, "\n");
    StripPadded([], t, s[|t|..]);
    assert [] + t + "\n" == t + "\n" && [] + t + s[|t|..] == s;
  }

  lemma TrimmedNames(existing: seq<string>)
    requires existing != []
    ensures var lines := WithLastTrimmed(existing);
      |lines| == |existing| && forall i | 0 <= i < |lines| :: NameOf(lines[i]) == NameOf(existing[i])
  {
    TrimKeepsName(existing[|existing| - 1]);
  }

  lemma TrimmedAscends(existing: seq<string>)
    requires existing != [] && NamesAscend(existing)
    ensures NamesAscend(WithLastTrimmed(existing))
  {
    TrimmedNames(existing);
  }

  /** The whole update of a list whose tests ascend: the lines are the old ones that were not removed,
      in order, and each added line once, and the tests still ascend exactly when the orders agree. */
  lemma UpdateKeepsOrder(existing: seq<string>, addList: seq<string>, removed: set<string>)
    requires existing != [] && NamesAscend(existing) && SortedLines(Reverse(addList))
    ensures var lines := WithLastTrimmed(existing);
      var out := Merge(lines, Reverse(addList), removed);
      && (NamesAscend(out) <==> OrdersAgree(Kept(lines, removed), Reverse(addList)))
      && Interleaves(out, Kept(lines, removed), Reverse(addList))
      && multiset(out) == multiset(Kept(lines, removed)) + multiset(addList)
  {
    var lines := WithLastTrimmed(existing);
    TrimmedAscends(existing);
    MergeAscendsExactly(lines, Reverse(addList), removed);
    MergeInterleaves(lines, Reverse(addList), removed);
    InterleavedElements(Merge(lines, Reverse(addList), removed), Kept(lines, removed), Reverse(addList));
    ReverseMultiset(addList);
  }

  /** In particular when every added line begins with its name. */
  lemma PlainLinesFit(kept: seq<string>, added: seq<string>)
    requires forall l | l in added :: PlainLine(l)
    ensures IndentedFit(kept, added)
  {
    forall i | 0 <= i < |added| ensures !Indented(added[i]) {
      assert added[i] in added;
      PlainIsNotIndented(added[i]);
    }
  }

  lemma PaddedName(left: string, name: string)
    requires Blank(left) && '#' !in left + name + "\n" && Strip(name) == name
    ensures NameOf(left + name + "\n") == name
  {
    var l := left + name + "\n";
    assert l[..|l|] == l;
    FindIs(l, '#', |l|);
    StripPadded(left, name, "\n");
  }

  /** One indented line in front of one test it should follow. */
  lemma IndentedBreaksOrder(a: string, l: string)
    requires Indented(a) && NameOf(l) != "" && Less(NameOf(l), NameOf(a))
    requires NameChars(NameOf(a)) && NameChars(NameOf(l))
    ensures !NamesAscend(Merge([l], [a], {}))
  {
    assert [l][1..] == [] && Kept([l], {}) == [l] + [];
    MergeAscendsExactly([l], [a], {});
    IndentedIsLess(a, NameOf(l));
    assert l in [l] && a in [a] && !Agrees(a, l);
  }

  /** An added line with a leading blank can land before a test it should follow. */
  lemma LeadingBlankBreaksOrder()
    ensures NamesAscend(["b\n"]) && SortedLines([" z\n"])
    ensures !NamesAscend(Merge(["b\n"], [" z\n"], {}))
  {
    PaddedName("", "b");
    PaddedName(" ", "z");
    assert "" + "b" + "\n" == "b\n" && " " + "z" + "\n" == " z\n";
    IndentedBreaksOrder(" z\n", "b\n");
  }
}
