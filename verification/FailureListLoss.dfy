/** What a list of tests loses when lines run together: before the alignment, where a line lacks its
    newline, and in it, where a message is blank (conformance/update_failure_list.py). */
module FailureListLoss {
  import opened LineText
  import opened Sequences
  import opened FailureListOrder
  import opened FailureListAlignment
  import opened FailureListRoundTrip

  lemma {:induction false} ParseAppend(xs: seq<string>, ys: seq<string>)
    ensures ParseLines(xs + ys) == ParseLines(xs) + ParseLines(ys)
  {
    if xs == [] {
      assert xs + ys == ys && [] + ParseLines(ys) == ParseLines(ys);
    } else {
      ParseAppend(xs[1..], ys);
      ParseAppendStep(xs[0], xs[1..], ys);
      assert xs == [xs[0]] + xs[1..];
    }
  }

  lemma ParseAppendStep(x: string, xs: seq<string>, ys: seq<string>)
    requires ParseLines(xs + ys) == ParseLines(xs) + ParseLines(ys)
    ensures ParseLines([x] + xs + ys) == ParseLines([x] + xs) + ParseLines(ys)
  {
    Associative([x], xs, ys);
    ParseHead(x, xs + ys);
    ParseHead(x, xs);
    Associative(ParseLine(x), ParseLines(xs), ParseLines(ys));
  }

  // ---------- measuring a loss ----------

  function MessageLength(tests: seq<Test>): nat {
    if tests == [] then 0 else |tests[0].message| + MessageLength(tests[1..])
  }

  /** Some tests are lost, or none but messages have grown. */
  predicate Lossy(tests: seq<Test>, original: seq<Test>) {
    |tests| < |original| || (|tests| == |original| && MessageLength(tests) > MessageLength(original))
  }

  predicate NoGain(tests: seq<Test>, original: seq<Test>) {
    Lossy(tests, original) || (|tests| == |original| && MessageLength(tests) == MessageLength(original))
  }

  lemma {:induction false} MessageLengthAppend(xs: seq<Test>, ys: seq<Test>)
    ensures MessageLength(xs + ys) == MessageLength(xs) + MessageLength(ys)
  {
    if xs == [] {
      assert xs + ys == ys;
    } else {
      assert (xs + ys)[1..] == xs[1..] + ys;
      MessageLengthAppend(xs[1..], ys);
    }
  }

  lemma LossyAppend(a: seq<Test>, b: seq<Test>, c: seq<Test>, d: seq<Test>)
    requires NoGain(a, b) && NoGain(c, d)
    ensures NoGain(a + c, b + d)
    ensures Lossy(a, b) || Lossy(c, d) ==> Lossy(a + c, b + d)
  {
    MessageLengthAppend(a, c);
    MessageLengthAppend(b, d);
  }

  lemma WithoutOne(xs: seq<Test>, before: seq<Test>, t: Test, after: seq<Test>)
    requires multiset([t] + xs) == multiset(before + ([t] + after))
    ensures multiset(xs) == multiset(before + after)
  {
    assert multiset([t] + xs) == multiset{t} + multiset(xs);
    assert multiset(before + ([t] + after)) == multiset(before) + (multiset{t} + multiset(after));
    assert multiset(xs) == multiset([t] + xs) - multiset{t};
    assert multiset(before + after) == multiset(before + ([t] + after)) - multiset{t};
  }

  lemma {:induction false} MessageLengthOfSame(xs: seq<Test>, ys: seq<Test>)
    requires multiset(xs) == multiset(ys)
    ensures MessageLength(xs) == MessageLength(ys)
  {
    if xs == [] {
      assert |multiset(ys)| == 0;
    } else {
      var t, rest := xs[0], xs[1..];
      assert xs == [t] + rest;
      assert t in multiset(ys);
      var k :| 0 <= k < |ys| && ys[k] == t;
      var before, after := ys[..k], ys[k + 1..];
      assert ys == before + ([t] + after);
      WithoutOne(rest, before, t, after);
      MessageLengthOfSame(rest, before + after);
      MessageLengthAppend(before, [t] + after);
      MessageLengthAppend(before, after);
      MessageLengthAppend([t], after);
      MessageLengthAppend([t], rest);
    }
  }

  /** A loss shows in the multiset of tests. */
  lemma LossShows(tests: seq<Test>, original: seq<Test>)
    requires Lossy(tests, original)
    ensures multiset(tests) != multiset(original)
  {
    assert |multiset(tests)| == |tests| && |multiset(original)| == |original|;
    if multiset(tests) == multiset(original) { MessageLengthOfSame(tests, original); }
  }

  // ---------- lines without a newline ----------

  /** Lines as files give them: each file's last line may lack its newline. */
  ghost predicate Pieces(lines: seq<string>) {
    forall l | l in lines :: IsLine(l)
  }

  /** Two lines put together list what they list apart. */
  predicate JoinsWell(x: string, k: string) {
    ParseLine(x + k) == ParseLine(x) + ParseLine(k)
  }

  /** Each line without a newline is the last one, or joins well with what follows. */
  predicate Fits(lines: seq<string>) {
    lines == [] ||
    (Fits(lines[1..]) &&
     (Ended(lines[0]) || Text(lines[1..]) == "" || JoinsWell(lines[0], SplitLines(Text(lines[1..]))[0])))
  }

  lemma JoinHash(x: string, k: string)
    ensures HasHash(x) ==> HasHash(x + k) && BeforeHash(x + k) == BeforeHash(x) && AfterHash(x + k) == AfterHash(x) + k
    ensures !HasHash(x) ==> (HasHash(x + k) <==> HasHash(k)) && BeforeHash(x + k) == x + BeforeHash(k)
    ensures !HasHash(x) && HasHash(k) ==> AfterHash(x + k) == AfterHash(k)
  {
    if HasHash(x) {
      var n := Find(x, '#');
      assert (x + k)[..n] == x[..n] && (x + k)[n + 1..] == x[n + 1..] + k;
      FindIs(x + k, '#', n);
    } else {
      var n := Find(k, '#');
      assert x == x[..|x|] && (x + k)[..|x| + n] == x + k[..n];
      FindIs(x + k, '#', |x| + n);
      if n < |k| { assert (x + k)[|x| + n + 1..] == k[n + 1..]; }
    }
  }

  /** More text behind a message: blanks do not show, anything else makes it longer. */
  lemma MessageGrows(m: string, k: string)
    ensures if Blank(k) then Strip(m + k) == Strip(m) else |Strip(m + k)| > |Strip(m)|
  {
    if Blank(k) {
      StripPadded([], m, k);
      assert [] + m + k == m + k;
    } else {
      LStripAppend(m, k);
      StripShape(m);
      if Blank(m) {
        StripShape(m + k);
        assert !Blank(m + k) by {
          var i :| 0 <= i < |k| && !IsSpace(k[i]);
          assert (m + k)[|m| + i] == k[i];
        }
      } else {
        RStripAppend(LStrip(m), k);
        RStripShape(k);
        RStripPrefix(LStrip(m));
      }
    }
  }

  /** Joining two lines gains nothing, and loses something unless they join well. */
  lemma JoinLoses(x: string, k: string)
    ensures NoGain(ParseLine(x + k), ParseLine(x) + ParseLine(k))
    ensures !JoinsWell(x, k) ==> Lossy(ParseLine(x + k), ParseLine(x) + ParseLine(k))
  {
    JoinHash(x, k);
    MessageLengthAppend(ParseLine(x), ParseLine(k));
    if HasHash(x) { JoinBehindHash(x, k); } else { JoinBeforeHash(x, k); }
  }

  lemma JoinBehindHash(x: string, k: string)
    requires HasHash(x)
    ensures NoGain(ParseLine(x + k), ParseLine(x) + ParseLine(k))
    ensures !JoinsWell(x, k) ==> Lossy(ParseLine(x + k), ParseLine(x) + ParseLine(k))
  {
    JoinHash(x, k);
    MessageLengthAppend(ParseLine(x), ParseLine(k));
    MessageGrows(AfterHash(x), k);
    if Blank(k) { BlankLine(k); }
    assert ParseLine(x) + [] == ParseLine(x);
  }

  lemma JoinBeforeHash(x: string, k: string)
    requires !HasHash(x)
    ensures NoGain(ParseLine(x + k), ParseLine(x) + ParseLine(k))
    ensures !JoinsWell(x, k) ==> Lossy(ParseLine(x + k), ParseLine(x) + ParseLine(k))
  {
    JoinHash(x, k);
    MessageLengthAppend(ParseLine(x), ParseLine(k));
    RemoveSpacesAppend(x, BeforeHash(k));
    assert x[..|x|] == x;
    assert ParseLine(x) + [] == ParseLine(x) && [] + ParseLine(k) == ParseLine(k);
    assert RemoveSpaces(x) + [] == RemoveSpaces(x) && [] + RemoveSpaces(BeforeHash(k)) == RemoveSpaces(BeforeHash(k));
  }

  /** The first line of a text that begins with a piece. */
  lemma SplitPiece(x: string, rest: string)
    requires IsLine(x)
    ensures Ended(x) || rest == "" ==> SplitLines(x + rest) == [x] + SplitLines(rest)
    ensures !Ended(x) && rest != "" ==> SplitLines(x + rest) == [x + SplitLines(rest)[0]] + SplitLines(rest)[1..]
  {
    if Ended(x) || rest == "" {
      SplitFirst(x, rest);
    } else {
      var n := LineEnd(rest);
      FirstIsLine(rest);
      assert x == x[..|x| - 1] + [x[|x| - 1]];
      PrefixLine(x, rest[..n]);
      SplitFirst(x + rest[..n], rest[n..]);
      TakeDrop(rest, n);
      Associative(x, rest[..n], rest[n..]);
    }
  }

  /** The tests of a text put together from pieces. */
  lemma {:induction false} PiecesRead(lines: seq<string>)
    requires Pieces(lines)
    ensures NoGain(Parse(Text(lines)), ParseLines(lines))
    ensures if Fits(lines) then Parse(Text(lines)) == ParseLines(lines)
            else Lossy(Parse(Text(lines)), ParseLines(lines))
  {
    if lines != [] {
      var x, rest := lines[0], lines[1..];
      var text := Text(rest);
      assert x in lines && forall l | l in rest :: l in lines;
      PiecesRead(rest);
      SplitPiece(x, text);
      if Ended(x) || text == "" {
        ParseHead(x, SplitLines(text));
        LossyAppend(ParseLine(x), ParseLine(x), Parse(text), ParseLines(rest));
      } else {
        PieceJoins(x, rest);
      }
    }
  }

  lemma PieceJoins(x: string, rest: seq<string>)
    requires IsLine(x) && !Ended(x) && Text(rest) != ""
    requires NoGain(Parse(Text(rest)), ParseLines(rest))
    requires if Fits(rest) then Parse(Text(rest)) == ParseLines(rest)
             else Lossy(Parse(Text(rest)), ParseLines(rest))
    ensures var tests := Parse(x + Text(rest));
      && NoGain(tests, ParseLine(x) + ParseLines(rest))
      && if Fits(rest) && JoinsWell(x, SplitLines(Text(rest))[0]) then tests == ParseLine(x) + ParseLines(rest)
         else Lossy(tests, ParseLine(x) + ParseLines(rest))
  {
    var lines := SplitLines(Text(rest));
    var k, more := lines[0], lines[1..];
    SplitPiece(x, Text(rest));
    ParseHead(x + k, more);
    assert lines == [k] + more;
    ParseHead(k, more);
    JoinLoses(x, k);
    Associative(ParseLine(x), ParseLine(k), ParseLines(more));
    LossyAppend(ParseLine(x + k), ParseLine(x) + ParseLine(k), ParseLines(more), ParseLines(more));
    LossyAppend(ParseLine(x), ParseLine(x), Parse(Text(rest)), ParseLines(rest));
    NoGainTransitive(Parse(x + Text(rest)), ParseLine(x) + Parse(Text(rest)), ParseLine(x) + ParseLines(rest));
  }

  lemma NoGainTransitive(a: seq<Test>, b: seq<Test>, c: seq<Test>)
    requires NoGain(a, b) && NoGain(b, c)
    ensures NoGain(a, c) && (Lossy(a, b) || Lossy(b, c) ==> Lossy(a, c))
  {
  }

  // ---------- what the alignment loses ----------

  /** The lines left after a joined one are the last of the others. */
  lemma {:induction false} AfterJoinedIsSuffix(ls: seq<string>)
    requires ls != []
    ensures exists k | 0 <= k <= |ls[1..]| :: AfterJoined(ls) == ls[1..][k..]
  {
    if BlankMessage(ls[0]) && |ls| > 1 {
      AfterJoinedIsSuffix(ls[1..]);
      var k :| 0 <= k <= |ls[1..][1..]| && AfterJoined(ls[1..]) == ls[1..][1..][k..];
      assert ls[1..][1..][k..] == ls[1..][k + 1..];
    } else {
      assert AfterJoined(ls) == ls[1..][0..];
    }
  }

  lemma SuffixTests(ls: seq<string>, k: nat)
    requires k <= |ls|
    ensures |ParseLines(ls[k..])| <= |ParseLines(ls)|
    ensures ParseLines(ls[k..]) == ParseLines(ls)[|ParseLines(ls)| - |ParseLines(ls[k..])|..]
    ensures NoGain(ParseLines(ls[k..]), ParseLines(ls))
  {
    TakeDrop(ls, k);
    ParseAppend(ls[..k], ls[k..]);
    assert ParseLines(ls[..k]) == [] ==> [] + ParseLines(ls[k..]) == ParseLines(ls[k..]);
  }

  /** What the first line of the aligned file lists: the first line's test, with a longer message if the
      text that ran into it is not blank. */
  lemma JoinedTest(ls: seq<string>)
    requires AreLines(ls) && ls != []
    ensures NoGain(ParseLine(Joined(ls)), ParseLine(ls[0]))
    ensures BlankMessage(ls[0]) && |ls| > 1 && !Blank(ls[1]) ==> Lossy(ParseLine(Joined(ls)), ParseLine(ls[0]))
    ensures |ParseLine(Joined(ls))| == |ParseLine(ls[0])|
    ensures forall i | 0 <= i < |ParseLine(ls[0])| :: ParseLine(Joined(ls))[i].name == ParseLine(ls[0])[i].name
  {
    if BlankMessage(ls[0]) && |ls| > 1 {
      TailAreLines(ls);
      var x := Joined(ls[1..]);
      ParseJoined(ls[0], x);
      JoinedBlank(ls[1..]);
      StripShape(x);
    } else {
      JoinedAlone(ls);
      AlignKeepsTest(ls[0]);
    }
  }

  lemma AfterJoinedLoses(ls: seq<string>)
    requires AreLines(ls) && ls != []
    ensures AreLines(AfterJoined(ls)) && NoGain(ParseLines(AfterJoined(ls)), ParseLines(ls[1..]))
  {
    JoinedShape(ls);
    AfterJoinedIsSuffix(ls);
    var k :| 0 <= k <= |ls[1..]| && AfterJoined(ls) == ls[1..][k..];
    SuffixTests(ls[1..], k);
  }

  /** The tests of the aligned file and of the lines, first line and rest. */
  lemma OutputTests(ls: seq<string>)
    requires ls != []
    ensures ParseLines(OutputLines(ls)) == ParseLine(Joined(ls)) + ParseLines(OutputLines(AfterJoined(ls)))
    ensures ParseLines(ls) == ParseLine(ls[0]) + ParseLines(ls[1..])
  {
    ParseHead(Joined(ls), OutputLines(AfterJoined(ls)));
  }

  lemma {:induction false} AlignmentGainsNothing(ls: seq<string>)
    requires AreLines(ls)
    ensures NoGain(ParseLines(OutputLines(ls)), ParseLines(ls))
    decreases |ls|
  {
    if ls != [] {
      AfterJoinedLoses(ls);
      AlignmentGainsNothing(AfterJoined(ls));
      JoinedTest(ls);
      OutputTests(ls);
      NoGainTransitive(ParseLines(OutputLines(AfterJoined(ls))), ParseLines(AfterJoined(ls)), ParseLines(ls[1..]));
      LossyAppend(ParseLine(Joined(ls)), ParseLine(ls[0]),
                  ParseLines(OutputLines(AfterJoined(ls))), ParseLines(ls[1..]));
    }
  }

  /** Alignment loses something of lines that are not safe. */
  lemma {:induction false} AlignmentLoses(ls: seq<string>)
    requires AreLines(ls) && !Safe(ls)
    ensures Lossy(ParseLines(OutputLines(ls)), ParseLines(ls))
    decreases |ls|
  {
    AfterJoinedLoses(ls);
    AlignmentGainsNothing(AfterJoined(ls));
    JoinedTest(ls);
    OutputTests(ls);
    var rest := ParseLines(OutputLines(AfterJoined(ls)));
    NoGainTransitive(rest, ParseLines(AfterJoined(ls)), ParseLines(ls[1..]));
    if !BlankMessage(ls[0]) || |ls| == 1 {
      SafeTail(ls);
      TailAreLines(ls);
      AlignmentLoses(ls[1..]);
      LossyAppend(ParseLine(Joined(ls)), ParseLine(ls[0]), rest, ParseLines(ls[1..]));
    } else if Blank(ls[1]) {
      AlignmentLosesLater(ls);
    } else {
      LossyAppend(ParseLine(Joined(ls)), ParseLine(ls[0]), rest, ParseLines(ls[1..]));
    }
  }

  lemma AlignmentLosesLater(ls: seq<string>)
    requires AreLines(ls) && |ls| > 1 && BlankMessage(ls[0]) && Blank(ls[1]) && !Safe(ls)
    ensures Lossy(ParseLines(OutputLines(ls)), ParseLines(ls))
    decreases |ls|, 0
  {
    SafeBlank(ls);
    SameTestsBlank(ls);
    InputBlank(ls);
    TailAreLines(ls);
    TailAreLines(ls[1..]);
    assert ls[1..][1..] == ls[2..];
    AlignmentLoses(ls[2..]);
    LossyAppend(ParseLine(ls[0]), ParseLine(ls[0]), ParseLines(OutputLines(ls[2..])), ParseLines(ls[2..]));
  }

  // ---------- both ----------

  /** A text put together from pieces and aligned lists the tests of the pieces exactly when each piece
      without a newline joins well with what follows and each blank message stands last or before a blank
      line. */
  lemma PiecesSurvive(lines: seq<string>)
    requires Pieces(lines)
    ensures multiset(Parse(Align(Text(lines)))) == multiset(ParseLines(lines)) <==>
      Fits(lines) && Safe(SplitLines(Text(lines)))
    ensures Fits(lines) ==> Parse(Text(lines)) == ParseLines(lines)
    ensures Fits(lines) && Safe(SplitLines(Text(lines))) ==> Parse(Align(Text(lines))) == ParseLines(lines)
  {
    var ls := SplitLines(Text(lines));
    SplitIsText(Text(lines));
    OutputSplits(ls);
    PiecesRead(lines);
    SameTests(ls);
    AlignmentGainsNothing(ls);
    var tests := ParseLines(OutputLines(ls));
    NoGainTransitive(tests, ParseLines(ls), ParseLines(lines));
    if !Safe(ls) { AlignmentLoses(ls); }
    if !Fits(lines) || !Safe(ls) { LossShows(tests, ParseLines(lines)); }
  }

  /** With a newline on every line they all fit. */
  lemma {:induction false} EndedFits(lines: seq<string>)
    requires forall l | l in lines :: Ended(l)
    ensures Fits(lines)
  {
    if lines != [] {
      assert lines[0] in lines && forall l | l in lines[1..] :: l in lines;
      EndedFits(lines[1..]);
    }
  }

  lemma RunsOn(x: string, k: string)
    requires '#' !in x + k && !Blank(x) && !Blank(k)
    ensures !JoinsWell(x, k)
  {
    assert x[..|x|] == x && k[..|k|] == k && (x + k)[..|x + k|] == x + k;
    FindIs(x, '#', |x|);
    FindIs(k, '#', |k|);
    FindIs(x + k, '#', |x + k|);
    RemoveSpacesBlank(x);
    RemoveSpacesBlank(k);
  }

  lemma UnendedLines(x: string, k: string)
    requires IsLine(x) && !Ended(x) && IsLine(k) && '#' !in x + k && !Blank(x) && !Blank(k)
    ensures !Fits([x, k]) && Pieces([x, k])
  {
    SplitFirst(k, "");
    assert k + "" == k && Text([k]) == k && [x, k][1..] == [k];
    RunsOn(x, k);
  }
}
