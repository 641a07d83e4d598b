/** What the alignment pass keeps: the tests the reader finds, and its own output. */
module FailureListRoundTrip {
  import opened LineText
  import opened Sequences
  import opened FailureListAlignment

  /** A test line whose comment sign is followed by blanks only. Stripping them also strips the newline. */
  predicate BlankMessage(l: string) {
    Annotated(l) && Blank(AfterHash(l))
  }

  // ---------- one line ----------

  lemma {:induction false} LStripSuffix(s: string)
    ensures |LStrip(s)| <= |s| && s[|s| - |LStrip(s)|..] == LStrip(s)
    ensures s == s[..|s| - |LStrip(s)|] + LStrip(s)
  {
    if s != [] && IsSpace(s[0]) {
      LStripSuffix(s[1..]);
    }
    var n := |s| - |LStrip(s)|;
    assert s[n..] == LStrip(s) by {
      if s != [] && IsSpace(s[0]) { assert s[n..] == s[1..][n - 1..]; } else { assert s[0..] == s; }
    }
    TakeDrop(s, n);
  }

  lemma {:induction false} RStripMembers(s: string, c: char)
    ensures c in RStrip(s) ==> c in s
    decreases |s|
  {
    if s != [] && IsSpace(s[|s| - 1]) {
      RStripMembers(s[..|s| - 1], c);
      assert c in s[..|s| - 1] ==> c in s;
    }
  }

  lemma NameMembers(l: string, c: char)
    ensures c in NameOf(l) ==> c in BeforeHash(l)
  {
    var b := BeforeHash(l);
    RStripMembers(LStrip(b), c);
    LStripSuffix(b);
    assert c in LStrip(b) ==> c in b;
  }

  /** The padded name read back: its first '#' is the sign at its end. */
  lemma PaddedParts(l: string, m: string)
    requires Annotated(l)
    ensures var a := Padded(NameOf(l)) + m;
      && HasHash(a) && AfterHash(a) == " " + m && NameOf(a) == NameOf(l)
      && Find(a, '#') == (if |NameOf(l)| < ALIGNMENT then ALIGNMENT else |NameOf(l)|) + 1
      && RemoveSpaces(BeforeHash(a)) == RemoveSpaces(BeforeHash(l))
  {
    var name := NameOf(l);
    var pad := Spaces(ALIGNMENT - |name|) + " ";
    var a := Padded(name) + m;
    var n := |name + pad|;
    assert a == name + pad + ("# " + m);
    NameMembers(l, '#');
    assert a[..n] == name + pad && '#' !in name + pad;
    FindIs(a, '#', n);
    assert a[n + 1..] == " " + m;
    assert Blank(pad);
    assert name + pad == [] + name + pad;
    StripPadded([], name, pad);
    StripStripped(BeforeHash(l));
    RemoveSpacesAppend(name, pad);
    RemoveSpacesBlank(pad);
    assert RemoveSpaces(name) + [] == RemoveSpaces(name);
    RemoveSpacesStrip(BeforeHash(l));
  }

  lemma BlankBefore(s: string)
    ensures Strip(" " + s) == Strip(s) && LStrip(" " + s) == LStrip(s)
  {
    StripPadded(" ", s, []);
    assert " " + s + [] == " " + s;
    LStripAppend(" ", s);
  }

  lemma {:induction false} LStripTwice(s: string)
    ensures LStrip(LStrip(s)) == LStrip(s)
  {
    LStripShape(s);
  }

  /** A line without a comment sign, or with nothing but blanks before it, is copied. */
  lemma OthersAreCopied(l: string)
    requires !HasHash(l) || Blank(BeforeHash(l))
    ensures AlignLine(l) == l
  {
    StripShape(BeforeHash(l));
  }

  /** Aligning a line does not change the test it lists. */
  lemma AlignKeepsTest(l: string)
    ensures ParseLine(AlignLine(l)) == ParseLine(l)
  {
    if Annotated(l) {
      var m := AfterHash(l);
      PaddedParts(l, LStrip(m));
      BlankBefore(LStrip(m));
      LStripTwice(m);
    }
  }

  lemma PaddedForm(name: string, m: string)
    ensures var a, n := Padded(name) + m, (if |name| < 114 then 114 else |name|) + 1;
      && |a| >= n && name <= a && a[n..] == "# " + m
      && forall i | |name| <= i < n :: a[i] == ' '
  {
    var pad := Spaces(ALIGNMENT - |name|) + " ";
    var a := Padded(name) + m;
    assert a == name + pad + ("# " + m);
    SpacesAreSpaces(ALIGNMENT - |name|);
    forall i | |name| <= i < |name + pad| ensures a[i] == ' ' {
      assert a[i] == pad[i - |name|];
    }
  }

  /** The comment signs line up: each stands one column after the alignment, or after its test if that is
      longer; before it come the test and spaces, after it a space and the message. */
  lemma MessagesLineUp(l: string)
    requires Annotated(l)
    ensures Find(AlignLine(l), '#') == (if |NameOf(l)| < 114 then 114 else |NameOf(l)|) + 1 < |AlignLine(l)|
    ensures NameOf(l) <= AlignLine(l)
    ensures forall i | |NameOf(l)| <= i < Find(AlignLine(l), '#') :: AlignLine(l)[i] == ' '
    ensures AlignLine(l)[Find(AlignLine(l), '#')..] == "# " + LStrip(AfterHash(l))
  {
    PaddedParts(l, LStrip(AfterHash(l)));
    PaddedForm(NameOf(l), LStrip(AfterHash(l)));
  }

  /** An aligned line is not changed again. */
  lemma AlignLineTwice(l: string)
    ensures AlignLine(AlignLine(l)) == AlignLine(l)
  {
    if Annotated(l) {
      var m := AfterHash(l);
      PaddedParts(l, LStrip(m));
      BlankBefore(LStrip(m));
      LStripTwice(m);
    }
  }

  lemma PrefixLine(p: string, x: string)
    requires '\n' !in p && IsLine(x)
    ensures IsLine(p + x) && (Ended(p + x) <==> Ended(x))
  {
    assert (p + x)[..|p + x| - 1] == p + x[..|x| - 1];
  }

  lemma SuffixLine(p: string, x: string)
    requires IsLine(p + x) && x != ""
    ensures '\n' !in p && IsLine(x) && (Ended(p + x) <==> Ended(x))
  {
    assert (p + x)[..|p + x| - 1] == p + x[..|x| - 1];
  }

  /** Only a blank message costs a line its newline. */
  lemma AlignLineShape(l: string)
    requires IsLine(l)
    ensures AlignLine(l) != ""
    ensures BlankMessage(l) ==> AlignLine(l) == Padded(NameOf(l)) && '\n' !in AlignLine(l)
    ensures !BlankMessage(l) ==> IsLine(AlignLine(l)) && (Ended(l) <==> Ended(AlignLine(l)))
  {
    if Annotated(l) {
      var m := AfterHash(l);
      assert l == BeforeHash(l) + ("#" + m) == BeforeHash(l) + "#" + m;
      SuffixLine(BeforeHash(l), "#" + m);
      NameMembers(l, '\n');
      LStripShape(m);
      if Blank(m) {
        assert Padded(NameOf(l)) + [] == Padded(NameOf(l));
      } else {
        SuffixLine(BeforeHash(l) + "#", m);
        LStripSuffix(m);
        SuffixLine(m[..|m| - |LStrip(m)|], LStrip(m));
        PrefixLine(Padded(NameOf(l)), LStrip(m));
      }
    }
  }

  // ---------- the lines of the output ----------

  /** The first line of the output: a line whose message is blank runs into the next one. */
  function Joined(ls: seq<string>): string
    requires ls != []
  {
    AlignLine(ls[0]) + if BlankMessage(ls[0]) && |ls| > 1 then Joined(ls[1..]) else ""
  }

  /** The input lines after those that make the first line of the output. */
  function AfterJoined(ls: seq<string>): (r: seq<string>)
    requires ls != []
    ensures |r| < |ls|
  {
    if BlankMessage(ls[0]) && |ls| > 1 then AfterJoined(ls[1..]) else ls[1..]
  }

  function OutputLines(ls: seq<string>): seq<string>
    decreases |ls|
  {
    if ls == [] then [] else [Joined(ls)] + OutputLines(AfterJoined(ls))
  }

  /** Without a blank message, or at the end, the first line of the output is the first line aligned. */
  lemma JoinedAlone(ls: seq<string>)
    requires AreLines(ls) && ls != [] && (!BlankMessage(ls[0]) || |ls| == 1)
    ensures Joined(ls) == AlignLine(ls[0]) && AfterJoined(ls) == ls[1..]
    ensures IsLine(Joined(ls)) && (ls[1..] != [] ==> Ended(Joined(ls)))
  {
    TailAreLines(ls);
    AlignLineShape(ls[0]);
    var a := AlignLine(ls[0]);
    assert a + "" == a;
    if BlankMessage(ls[0]) { assert a[..|a| - 1] <= a; }
  }

  lemma AlignedText(ls: seq<string>)
    requires ls != []
    ensures Text(AlignAll(ls)) == AlignLine(ls[0]) + Text(AlignAll(ls[1..]))
  {
    assert AlignAll(ls)[1..] == AlignAll(ls[1..]);
  }

  lemma {:induction false} JoinedShape(ls: seq<string>)
    requires AreLines(ls) && ls != []
    ensures AreLines(AfterJoined(ls)) && IsLine(Joined(ls)) && (AfterJoined(ls) != [] ==> Ended(Joined(ls)))
    ensures Text(AlignAll(ls)) == Joined(ls) + Text(AlignAll(AfterJoined(ls)))
  {
    TailAreLines(ls);
    AlignedText(ls);
    if BlankMessage(ls[0]) && |ls| > 1 {
      JoinedShape(ls[1..]);
      AlignLineShape(ls[0]);
      PrefixLine(AlignLine(ls[0]), Joined(ls[1..]));
      Associative(AlignLine(ls[0]), Joined(ls[1..]), Text(AlignAll(AfterJoined(ls[1..]))));
    } else {
      JoinedAlone(ls);
    }
  }

  /** The output splits into exactly those lines. */
  lemma {:induction false} OutputSplits(ls: seq<string>)
    requires AreLines(ls)
    ensures SplitLines(Text(AlignAll(ls))) == OutputLines(ls)
    decreases |ls|
  {
    if ls != [] {
      JoinedShape(ls);
      var rest := AfterJoined(ls);
      OutputSplits(rest);
      if rest == [] {
        assert Text(AlignAll(rest)) == "";
      }
      SplitFirst(Joined(ls), Text(AlignAll(rest)));
    }
  }

  // ---------- the reader sees the same tests ----------

  /** A line with a blank message is the last one, or the next is blank. */
  predicate Harmless(ls: seq<string>, i: nat)
    requires i < |ls|
  {
    BlankMessage(ls[i]) && i + 1 < |ls| ==> Blank(ls[i + 1])
  }

  predicate Safe(ls: seq<string>) {
    forall i | 0 <= i < |ls| :: Harmless(ls, i)
  }

  lemma SafeTail(ls: seq<string>)
    requires ls != []
    ensures Safe(ls) <==> Harmless(ls, 0) && Safe(ls[1..])
  {
    forall i | 0 <= i < |ls[1..]| ensures Harmless(ls[1..], i) == Harmless(ls, i + 1) {}
    if Harmless(ls, 0) && Safe(ls[1..]) {
      forall i | 0 <= i < |ls| ensures Harmless(ls, i) {
        if i > 0 { assert Harmless(ls[1..], i - 1); }
      }
    }
    if Safe(ls) {
      assert Harmless(ls, 0);
      forall i | 0 <= i < |ls[1..]| ensures Harmless(ls[1..], i) { assert Harmless(ls, i + 1); }
    }
  }

  lemma BlankLine(l: string)
    requires Blank(l)
    ensures !HasHash(l) && AlignLine(l) == l && ParseLine(l) == []
  {
    assert l[..|l|] == l;
    FindIs(l, '#', |l|);
    RemoveSpacesBlank(l);
  }

  /** What a line with a blank message and the text after it on the same line list. */
  lemma ParseJoined(l: string, x: string)
    requires BlankMessage(l)
    ensures ParseLine(l) == [Test(RemoveSpaces(BeforeHash(l)), "")]
    ensures ParseLine(AlignLine(l) + x) == [Test(RemoveSpaces(BeforeHash(l)), Strip(x))]
  {
    var m := AfterHash(l);
    LStripShape(m);
    StripShape(m);
    RemoveSpacesStrip(BeforeHash(l));
    RemoveSpacesBlank(BeforeHash(l));
    StripShape(BeforeHash(l));
    assert AlignLine(l) == Padded(NameOf(l));
    PaddedParts(l, x);
    BlankBefore(x);
  }

  lemma JoinedBlank(ls: seq<string>)
    requires AreLines(ls) && ls != []
    ensures Blank(Joined(ls)) <==> Blank(ls[0])
  {
    var l := ls[0];
    if Annotated(l) {
      StripShape(BeforeHash(l));
      assert Joined(ls)[0] == NameOf(l)[0];
      assert !IsSpace(l[Find(l, '#')]);
    } else {
      assert Joined(ls) == l + "" == l;
    }
  }

  lemma ParseHead(first: string, rest: seq<string>)
    ensures ParseLines([first] + rest) == ParseLine(first) + ParseLines(rest)
  {
    assert ([first] + rest)[1..] == rest;
  }

  lemma Cancel(head: seq<Test>, x: seq<Test>, y: seq<Test>)
    ensures head + x == head + y <==> x == y
  {
    if head + x == head + y {
      assert x == (head + x)[|head|..] && y == (head + y)[|head|..];
    }
  }

  lemma SameTestsStep(ls: seq<string>)
    requires AreLines(ls) && ls != [] && (!BlankMessage(ls[0]) || |ls| == 1)
    ensures ParseLines(OutputLines(ls)) == ParseLine(ls[0]) + ParseLines(OutputLines(ls[1..]))
  {
    assert Joined(ls) == AlignLine(ls[0]) + "" == AlignLine(ls[0]);
    AlignKeepsTest(ls[0]);
    ParseHead(Joined(ls), OutputLines(ls[1..]));
  }

  /** A blank line that runs into a test line leaves no trace. */
  lemma OutputBlank(ls: seq<string>)
    requires AreLines(ls) && |ls| > 1 && BlankMessage(ls[0]) && Blank(ls[1])
    ensures OutputLines(ls) == [AlignLine(ls[0]) + ls[1]] + OutputLines(ls[2..])
  {
    var t := ls[1..];
    assert t[1..] == ls[2..];
    BlankLine(ls[1]);
    assert Joined(t) == ls[1] + "" == ls[1];
    assert AfterJoined(ls) == AfterJoined(t) == ls[2..];
  }

  lemma ParseBlank(l: string, rest: seq<string>)
    requires Blank(l)
    ensures ParseLines([l] + rest) == ParseLines(rest)
  {
    BlankLine(l);
    ParseHead(l, rest);
    assert [] + ParseLines(rest) == ParseLines(rest);
  }

  lemma InputBlank(ls: seq<string>)
    requires |ls| > 1 && Blank(ls[1])
    ensures ParseLines(ls) == ParseLine(ls[0]) + ParseLines(ls[2..])
  {
    var rest := [ls[1]] + ls[2..];
    assert ls == [ls[0]] + rest;
    ParseHead(ls[0], rest);
    ParseBlank(ls[1], ls[2..]);
  }

  lemma SameTestsBlank(ls: seq<string>)
    requires AreLines(ls) && |ls| > 1 && BlankMessage(ls[0]) && Blank(ls[1])
    ensures ParseLines(OutputLines(ls)) == ParseLine(ls[0]) + ParseLines(OutputLines(ls[2..]))
  {
    var first := AlignLine(ls[0]) + ls[1];
    OutputBlank(ls);
    ParseHead(first, OutputLines(ls[2..]));
    JoinedBlankReads(ls[0], ls[1]);
  }

  lemma JoinedBlankReads(l: string, x: string)
    requires BlankMessage(l) && Blank(x)
    ensures ParseLine(AlignLine(l) + x) == ParseLine(l)
  {
    ParseJoined(l, x);
    StripShape(x);
  }

  lemma SameTestsBroken(ls: seq<string>)
    requires AreLines(ls) && |ls| > 1 && BlankMessage(ls[0]) && !Blank(ls[1])
    ensures ParseLines(OutputLines(ls)) != ParseLines(ls)
  {
    TailAreLines(ls);
    JoinedBlank(ls[1..]);
    ParseJoined(ls[0], Joined(ls[1..]));
    StripShape(Joined(ls[1..]));
    ParseHead(Joined(ls), OutputLines(AfterJoined(ls)));
    assert ParseLines(OutputLines(ls))[0].message != ParseLines(ls)[0].message;
  }

  lemma SafeBlank(ls: seq<string>)
    requires |ls| > 1 && BlankMessage(ls[0]) && Blank(ls[1])
    ensures Safe(ls) <==> Safe(ls[2..])
  {
    BlankLine(ls[1]);
    SafeTail(ls);
    SafeTail(ls[1..]);
    assert ls[1..][1..] == ls[2..];
  }

  /** The reader finds the same tests with the same messages after the alignment exactly when each
      blank message stands on the last line or before a blank line. */
  lemma {:induction false} SameTests(ls: seq<string>)
    requires AreLines(ls)
    ensures ParseLines(OutputLines(ls)) == ParseLines(ls) <==> Safe(ls)
    decreases |ls|
  {
    if ls != [] {
      TailAreLines(ls);
      if !BlankMessage(ls[0]) || |ls| == 1 {
        SafeTail(ls);
        SameTestsStep(ls);
        SameTests(ls[1..]);
        Cancel(ParseLine(ls[0]), ParseLines(OutputLines(ls[1..])), ParseLines(ls[1..]));
      } else if Blank(ls[1]) {
        SafeBlank(ls);
        SameTestsBlank(ls);
        InputBlank(ls);
        TailAreLines(ls[1..]);
        assert ls[1..][1..] == ls[2..];
        SameTests(ls[2..]);
        Cancel(ParseLine(ls[0]), ParseLines(OutputLines(ls[2..])), ParseLines(ls[2..]));
      } else {
        assert !Harmless(ls, 0);
        SameTestsBroken(ls);
      }
    }
  }

  /** The alignment pass keeps what the reader reads, exactly for the texts that are safe. */
  lemma AlignKeepsTests(text: string)
    ensures Parse(Align(text)) == Parse(text) <==> Safe(SplitLines(text))
  {
    SplitIsText(text);
    OutputSplits(SplitLines(text));
    SameTests(SplitLines(text));
  }

  // ---------- aligning twice ----------

  /** A line with a blank message is followed by nothing or by a line whose aligned form does not
      begin with a blank; lines that ran into the one before do not count. */
  predicate Settled(ls: seq<string>)
    decreases |ls|
  {
    ls == [] ||
    (Settled(AfterJoined(ls)) && (BlankMessage(ls[0]) && |ls| > 1 ==> StartsFirm(ls[1])))
  }

  /** Copied lines may begin with a blank; aligned ones begin with the test. */
  predicate StartsFirm(l: string) {
    Annotated(l) || (l != "" && !IsSpace(l[0]))
  }

  lemma JoinedFirst(ls: seq<string>)
    requires AreLines(ls) && ls != []
    ensures Joined(ls) != "" && (IsSpace(Joined(ls)[0]) <==> !StartsFirm(ls[0]))
  {
    assert IsLine(ls[0]);
    if Annotated(ls[0]) {
      StripShape(BeforeHash(ls[0]));
      assert Joined(ls)[0] == NameOf(ls[0])[0];
    }
  }

  /** A line of the output never grows when it is aligned again, and stays the same exactly when
      what ran into it did not begin with a blank. */
  lemma RealignJoined(ls: seq<string>)
    requires AreLines(ls) && ls != []
    ensures |AlignLine(Joined(ls))| <= |Joined(ls)|
    ensures |AlignLine(Joined(ls))| == |Joined(ls)| ==> AlignLine(Joined(ls)) == Joined(ls)
    ensures AlignLine(Joined(ls)) == Joined(ls) <==> (BlankMessage(ls[0]) && |ls| > 1 ==> StartsFirm(ls[1]))
  {
    if BlankMessage(ls[0]) && |ls| > 1 {
      TailAreLines(ls);
      var x := Joined(ls[1..]);
      JoinedFirst(ls[1..]);
      LStripShape(AfterHash(ls[0]));
      assert AlignLine(ls[0]) == Padded(NameOf(ls[0]));
      PaddedParts(ls[0], x);
      BlankBefore(x);
      assert AlignLine(Joined(ls)) == Padded(NameOf(ls[0])) + LStrip(x);
      LStripSuffix(x);
      if |LStrip(x)| == |x| {
        assert x[..0] + LStrip(x) == LStrip(x);
        LStripShape(x);
      } else {
        assert LStrip(x) != x;
      }
    } else {
      assert Joined(ls) == AlignLine(ls[0]) + "" == AlignLine(ls[0]);
      AlignLineTwice(ls[0]);
    }
  }

  lemma {:induction false} Realign(ls: seq<string>)
    requires AreLines(ls)
    ensures |Text(AlignAll(OutputLines(ls)))| <= |Text(OutputLines(ls))|
    ensures |Text(AlignAll(OutputLines(ls)))| == |Text(OutputLines(ls))| <==> Settled(ls)
    ensures Settled(ls) ==> Text(AlignAll(OutputLines(ls))) == Text(OutputLines(ls))
    decreases |ls|
  {
    if ls != [] {
      JoinedShape(ls);
      RealignJoined(ls);
      Realign(AfterJoined(ls));
      var rest := OutputLines(AfterJoined(ls));
      assert OutputLines(ls)[1..] == rest;
      assert AlignAll(OutputLines(ls))[1..] == AlignAll(rest);
    }
  }

  /** Aligning an aligned file changes nothing, exactly for the texts that are settled. */
  lemma AlignTwice(text: string)
    ensures Align(Align(text)) == Align(text) <==> Settled(SplitLines(text))
  {
    var ls := SplitLines(text);
    SplitIsText(text);
    OutputSplits(ls);
    Realign(ls);
    SplitIsText(Align(text));
  }

  /** For lines with a message that is not blank, or none at all, both promises hold. */
  lemma {:induction false} NoBlankMessages(ls: seq<string>)
    requires forall l | l in ls :: !BlankMessage(l)
    ensures Safe(ls) && Settled(ls)
  {
    forall i | 0 <= i < |ls| ensures Harmless(ls, i) { assert ls[i] in ls; }
    if ls != [] {
      assert ls[0] in ls;
      forall l | l in ls[1..] ensures !BlankMessage(l) { assert l in ls; }
      NoBlankMessages(ls[1..]);
    }
  }

  lemma WithMessages(text: string)
    requires forall l | l in SplitLines(text) :: !BlankMessage(l)
    ensures Parse(Align(text)) == Parse(text) && Align(Align(text)) == Align(text)
  {
    NoBlankMessages(SplitLines(text));
    AlignKeepsTests(text);
    AlignTwice(text);
  }

  lemma BlankExample(t: string)
    requires IsLine(t)
    ensures SplitLines("a #\n" + t) == ["a #\n", t] && BlankMessage("a #\n")
  {
    var l := "a #\n";
    SplitFirst(l, t);
    SplitFirst(t, "");
    assert t + "" == t;
    FindIs(l, '#', 2);
    assert BeforeHash(l) == "a " && AfterHash(l) == "\n";
    StripShape("a ");
    assert !Blank("a ") by { assert !IsSpace("a "[0]); }
  }

  /** A test without a message before another test: the second becomes the first's message. */
  lemma BlankMessageSwallowsTest()
    ensures Parse(Align("a #\n" + "b\n")) != Parse("a #\n" + "b\n")
  {
    BlankExample("b\n");
    assert !Blank("b\n") by { assert !IsSpace("b\n"[0]); }
    assert !Harmless(["a #\n", "b\n"], 0);
    AlignKeepsTests("a #\n" + "b\n");
  }

  /** Before an empty line the first pass drops one newline and the second pass the other. */
  lemma BlankMessageUnsettled()
    ensures Align(Align("a #\n" + "\n")) != Align("a #\n" + "\n")
  {
    BlankExample("\n");
    BlankLine("\n");
    assert !Settled(["a #\n", "\n"]);
    AlignTwice("a #\n" + "\n");
  }
}
