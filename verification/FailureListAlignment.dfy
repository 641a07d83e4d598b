/** The alignment of failure messages (the last loop of conformance/update_failure_list.py) and the
    reader of the file it writes (ParseFailureList of conformance/conformance_test_runner.cc). */
module FailureListAlignment {
  import opened LineText
  import opened Sequences

  const ALIGNMENT := 114

  // ---------- lines of a text ----------

  /** A line: nothing but its last character may be a newline. */
  predicate IsLine(l: string) {
    l != "" && '\n' !in l[..|l| - 1]
  }

  predicate Ended(l: string) {
    l != "" && l[|l| - 1] == '\n'
  }

  /** Lines in the order of a text: only the last may lack its newline. */
  predicate AreLines(ls: seq<string>) {
    forall i | 0 <= i < |ls| :: IsLine(ls[i]) && (i < |ls| - 1 ==> Ended(ls[i]))
  }

  function LineEnd(s: string): (n: nat)
    ensures n <= |s| && (s != "" ==> n > 0)
  {
    var n := Find(s, '\n');
    if n < |s| then n + 1 else n
  }

  /** splitlines(True): the lines, each with its newline. */
  function SplitLines(s: string): seq<string> {
    if s == "" then [] else [s[..LineEnd(s)]] + SplitLines(s[LineEnd(s)..])
  }

  function Text(ls: seq<string>): string {
    if ls == [] then "" else ls[0] + Text(ls[1..])
  }

  lemma SplitFirst(x: string, rest: string)
    requires IsLine(x) && (rest != "" ==> Ended(x))
    ensures SplitLines(x + rest) == [x] + SplitLines(rest)
  {
    var s := x + rest;
    if Ended(x) {
      assert s[..|x| - 1] == x[..|x| - 1];
      FindIs(s, '\n', |x| - 1);
    } else {
      assert s == x && x == x[..|x| - 1] + [x[|x| - 1]];
      assert s[..|s|] == s;
      FindIs(s, '\n', |x|);
    }
    assert s[..|x|] == x && s[|x|..] == rest;
  }

  lemma PrependLine(l: string, ls: seq<string>)
    requires IsLine(l) && AreLines(ls) && (ls != [] ==> Ended(l))
    ensures AreLines([l] + ls) && Text([l] + ls) == l + Text(ls)
  {
    var all := [l] + ls;
    assert all[1..] == ls;
    forall i | 0 <= i < |all| ensures IsLine(all[i]) && (i < |all| - 1 ==> Ended(all[i])) {
      if i > 0 { assert IsLine(ls[i - 1]); }
    }
  }

  lemma FirstIsLine(s: string)
    requires s != ""
    ensures IsLine(s[..LineEnd(s)]) && (LineEnd(s) < |s| ==> Ended(s[..LineEnd(s)]))
  {
    var n, f := LineEnd(s), Find(s, '\n');
    assert s[..n][..n - 1] == s[..f][..n - 1];
  }

  /** Splitting loses nothing, and yields lines. */
  lemma {:induction false} SplitIsText(s: string)
    ensures AreLines(SplitLines(s)) && Text(SplitLines(s)) == s
  {
    if s != "" {
      var n := LineEnd(s);
      SplitIsText(s[n..]);
      FirstIsLine(s);
      TakeDrop(s, n);
      PrependLine(s[..n], SplitLines(s[n..]));
    }
  }

  /** Lines put together split into the same lines. */
  lemma {:induction false} SplitText(ls: seq<string>)
    requires AreLines(ls)
    ensures SplitLines(Text(ls)) == ls
  {
    if ls != [] {
      TailAreLines(ls);
      SplitText(ls[1..]);
      assert IsLine(ls[0]);
      SplitFirst(ls[0], Text(ls[1..]));
    }
  }

  lemma TailAreLines(ls: seq<string>)
    requires AreLines(ls) && ls != []
    ensures AreLines(ls[1..]) && IsLine(ls[0]) && (ls[1..] != [] ==> Ended(ls[0]))
  {
    forall i | 0 <= i < |ls[1..]| ensures IsLine(ls[1..][i]) && (i < |ls[1..]| - 1 ==> Ended(ls[1..][i])) {
      assert IsLine(ls[i + 1]);
    }
    assert IsLine(ls[0]);
  }

  // ---------- the alignment loop ----------

  function Spaces(n: int): (s: string)
    ensures |s| == (if n > 0 then n else 0) && Blank(s) && '#' !in s && '\n' !in s
  {
    if n <= 0 then "" else " " + Spaces(n - 1)
  }

  lemma {:induction false} SpacesAreSpaces(n: int)
    ensures forall i | 0 <= i < |Spaces(n)| :: Spaces(n)[i] == ' '
    decreases if n < 0 then 0 else n
  {
    if n > 0 { SpacesAreSpaces(n - 1); }
  }

  /** A line with a test and a comment sign; the others are copied. */
  predicate Annotated(l: string) {
    HasHash(l) && NameOf(l) != ""
  }

  /** What the loop writes before the message: the test, padded to the column, and the sign. */
  function Padded(name: string): string {
    name + Spaces(ALIGNMENT - |name|) + " # "
  }

  function AlignLine(l: string): string {
    if Annotated(l) then Padded(NameOf(l)) + LStrip(AfterHash(l)) else l
  }

  function AlignAll(ls: seq<string>): (r: seq<string>)
    ensures |r| == |ls|
  {
    if ls == [] then [] else [AlignLine(ls[0])] + AlignAll(ls[1..])
  }

  function Align(text: string): string {
    Text(AlignAll(SplitLines(text)))
  }

  /** The loop has written out, and the lines from i on are still to come. */
  ghost predicate Aligning(out: string, lines: seq<string>, i: nat, goal: string)
    requires i <= |lines|
  {
    out + Text(AlignAll(lines[i..])) == goal
  }

  lemma AlignNext(out: string, lines: seq<string>, i: nat, goal: string)
    requires i < |lines| && Aligning(out, lines, i, goal)
    ensures Aligning(out + AlignLine(lines[i]), lines, i + 1, goal)
  {
    assert lines[i..][1..] == lines[i + 1..];
    assert AlignAll(lines[i..])[1..] == AlignAll(lines[i + 1..]);
    Associative(out, AlignLine(lines[i]), Text(AlignAll(lines[i + 1..])));
  }

  lemma AlignedAll(out: string, lines: seq<string>, goal: string)
    ensures Aligning(out, lines, |lines|, goal) ==> out == goal
    ensures out == "" ==> Aligning(out, lines, 0, Text(AlignAll(lines)))
  {
    assert lines[0..] == lines && lines[|lines|..] == [];
    assert Text([]) == "" && out + "" == out && "" + Text(AlignAll(lines)) == Text(AlignAll(lines));
  }

  method AlignMessages(text: string) returns (out: string)
    ensures out == Align(text)
  {
    out := "";
    var lines := SplitLines(text);
    AlignedAll(out, lines, "");
    for i := 0 to |lines|
      invariant Aligning(out, lines, i, Align(text))
    {
      var line := lines[i];
      AlignNext(out, lines, i, Align(text));
      var test := NameOf(line);
      if HasHash(line) && test != "" {
        var message := LStrip(AfterHash(line));
        line := test + Spaces(ALIGNMENT - |test|) + " # " + message;
        out := out + line;
      } else {
        out := out + line;
      }
    }
    AlignedAll(out, lines, Align(text));
  }

  // ---------- the reader ----------

  datatype Test = Test(name: string, message: string)

  /** The test a line lists, if any. */
  function ParseLine(l: string): seq<Test> {
    var name := RemoveSpaces(BeforeHash(l));
    if name == "" then []
    else [Test(name, if HasHash(l) then Strip(AfterHash(l)) else "")]
  }

  function ParseLines(ls: seq<string>): seq<Test> {
    if ls == [] then [] else ParseLine(ls[0]) + ParseLines(ls[1..])
  }

  function Parse(text: string): seq<Test> {
    ParseLines(SplitLines(text))
  }

  /** getline drops the newline; it would be stripped as a blank anyway. */
  lemma NewlineIsBlank(l: string)
    ensures ParseLine(l + "\n") == ParseLine(l)
  {
    var n := Find(l, '#');
    var ended := l + "\n";
    if n < |l| {
      assert ended[..n] == l[..n];
      FindIs(ended, '#', n);
      assert ended[n + 1..] == [] + l[n + 1..] + "\n";
      assert l[n + 1..] == [] + l[n + 1..] + [];
      StripPadded([], l[n + 1..], "\n");
    } else {
      assert l[..n] == l && ended[..|ended|] == ended;
      FindIs(ended, '#', |ended|);
      RemoveSpacesAppend(l, "\n");
      RemoveSpacesBlank("\n");
      assert RemoveSpaces(l) + [] == RemoveSpaces(l);
    }
  }

  lemma {:induction false} RemovedFrom(s: string, c: char)
    ensures c in RemoveSpaces(s) ==> c in s
  {
    if s != [] {
      RemovedFrom(s[1..], c);
      assert c in s[1..] ==> c in s;
    }
  }

  /** The name never starts with '#': the reader's second test for a comment cannot fail. */
  lemma HashIsCut(l: string)
    ensures '#' !in RemoveSpaces(BeforeHash(l))
  {
    RemovedFrom(BeforeHash(l), '#');
  }

  /** The tests read so far, and what the rest of the stream holds. */
  ghost predicate Reading(tests: seq<Test>, stream: string, goal: seq<Test>) {
    tests + Parse(stream) == goal
  }

  lemma ParseFirst(stream: string)
    requires stream != ""
    ensures Parse(stream) == ParseLine(SplitLines(stream)[0]) + Parse(stream[LineEnd(stream)..])
  {
    assert SplitLines(stream)[1..] == SplitLines(stream[LineEnd(stream)..]);
  }

  lemma ReadLine(tests: seq<Test>, stream: string, line: string, goal: seq<Test>)
    requires Reading(tests, stream, goal) && stream != "" && SplitLines(stream)[0] in {line, line + "\n"}
    ensures Reading(tests + ParseLine(line), stream[LineEnd(stream)..], goal)
  {
    NewlineIsBlank(line);
    var later := Parse(stream[LineEnd(stream)..]);
    ParseFirst(stream);
    Associative(tests, ParseLine(line), later);
  }

  /** One getline: the next line without its newline, and what is left. */
  method GetLine(stream: string) returns (line: string, rest: string)
    requires stream != ""
    ensures SplitLines(stream)[0] in {line, line + "\n"} && rest == stream[LineEnd(stream)..]
    ensures '\n' !in line
  {
    var n := Find(stream, '\n');
    line, rest := stream[..n], stream[LineEnd(stream)..];
    assert n < |stream| ==> stream[..n + 1] == line + "\n";
  }

  method ParseFailureList(text: string) returns (failureList: seq<Test>)
    ensures failureList == Parse(text)
  {
    failureList := [];
    var stream := text;
    while stream != ""
      invariant Reading(failureList, stream, Parse(text))
      decreases |stream|
    {
      var line, rest := GetLine(stream);
      ReadLine(failureList, stream, line, Parse(text));
      HashIsCut(line);
      assert failureList + [] == failureList;
      var testName := RemoveSpaces(BeforeHash(line));
      stream := rest;
      if testName != "" && testName[0] != '#' {
        var message := "";
        if HasHash(line) {
          message := Strip(AfterHash(line));
        }
        failureList := failureList + [Test(testName, message)];
      }
    }
    assert failureList + [] == failureList;
  }
}
