/** How a test ends (RunTest of conformance/fork_pipe_runner.cc), over the steps and the runs of module
    PipeProtocol: when the tester gives up, when it goes on with a new child, and how the machine agrees
    with the outcomes of module ForkPipeRunner. */
module PipeOutcomes {
  import opened Arithmetic
  import opened Options
  import opened Sequences
  import opened Varints
  import opened WireFormat
  import opened PipeProtocol
  import opened ForkPipeRunner
  import opened PipeTermination

  // ---------- single steps ----------

  predicate IsFailedRead(s: Step) {
    s == TesterSeesEof || s == TesterTimesOut
  }

  /** The tester gives up exactly when it writes bytes to a child that is gone, or when a read fails
      while the body is awaited. */
  lemma GivesUpExactly(c: Config, w: World, s: Step)
    requires Enabled(c, w, s) && w.tester != Fatal
    ensures Next(c, w, s).tester == Fatal <==>
      || (s == Begin && w.spawned && w.testee == Exited)
      || (s == SendBody && w.testee == Exited && c.requests[|w.results|] != [])
      || (IsFailedRead(s) && w.tester.ReadingBody?)
  {
    if s == Begin { HeaderLength(|c.requests[|w.results|]|); }
  }

  /** A failed read while the length is awaited is recorded as a crash and forgets the child. */
  lemma CrashIsRecorded(c: Config, w: World, s: Step)
    requires Enabled(c, w, s) && IsFailedRead(s) && w.tester.ReadingLength?
    ensures var w' := Next(c, w, s);
      w'.results == w.results + [Crashed] && w'.tester == Idle && !w'.spawned
  {
  }

  /** A test that finds no child starts one, on pipes that hold nothing but the new request's length. */
  lemma NewChildIsFresh(c: Config, w: World)
    requires Enabled(c, w, Begin) && !w.spawned
    ensures var w' := Next(c, w, Begin);
      && w'.spawned && w'.testee == Awaiting([]) && w'.fromChild == []
      && w'.toChild == Header(|c.requests[|w.results|]|) && w'.tester == SentLength && w'.results == w.results
  {
    assert [] + Header(|c.requests[|w.results|]|) == Header(|c.requests[|w.results|]|);
  }

  /** A child can exit at any time and a read can come too late at any time; an exit leaves what was
      written. */
  lemma FaultsAnywhere(c: Config, w: World)
    ensures w.spawned && w.testee != Exited ==>
      Enabled(c, w, TesteeCrashes) && Next(c, w, TesteeCrashes) == w.(testee := Exited)
    ensures TesterIsReading(w.tester) ==> Enabled(c, w, TesterTimesOut)
    ensures TesterIsReading(w.tester) && w.fromChild == [] && w.testee == Exited ==> Enabled(c, w, TesterSeesEof)
  {
  }

  /** Reads deliver any part of what is there and wanted. */
  lemma ReadsAnyPart(c: Config, w: World, n: nat)
    requires n >= 1
    ensures w.tester.ReadingLength? && |w.tester.got| + n <= 4 && n <= |w.fromChild| ==> Enabled(c, w, TesterReads(n))
    ensures w.tester.ReadingBody? && |w.tester.got| + n <= w.tester.len && n <= |w.fromChild| ==>
      Enabled(c, w, TesterReads(n))
    ensures w.spawned && w.testee.Awaiting? && |w.testee.got| + n <= 4 && n <= |w.toChild| ==>
      Enabled(c, w, TesteeReads(n))
    ensures w.spawned && w.testee.Receiving? && |w.testee.got| + n <= w.testee.len && n <= |w.toChild| ==>
      Enabled(c, w, TesteeReads(n))
  {
  }

  // ---------- the end of a test ----------

  /** After how many bytes of its reply the child has exited, if it has. */
  function Death(w: World): Option<nat> {
    if w.testee == Exited then Some(|Output(w)|) else None
  }

  /** Step s, no timeout, ends the current test after the request has been written. */
  predicate EndsTest(c: Config, w: World, s: Step)
    requires Enabled(c, w, s)
  {
    TesterIsReading(w.tester) && s != TesterTimesOut &&
    (Next(c, w, s).tester == Idle || Next(c, w, s).tester == Fatal)
  }

  /** What a test has come to. */
  function Ending(w: World): TestOutcome
    requires w.tester != Fatal ==> w.results != []
  {
    if w.tester == Fatal then GaveUp
    else match w.results[|w.results| - 1]
      case Response(bytes) => Replied(bytes)
      case Crashed => Reaped
  }

  lemma EofEnding(c: Config, w: World)
    requires c.Valid() && Inv(c, w) && Enabled(c, w, TesterSeesEof)
    ensures Ending(Next(c, w, TesterSeesEof)) == Expected(c.serve(c.requests[|w.results|]), Death(w))
  {
    var request := c.requests[|w.results|];
    match w.tester
    case ReadingLength(got) => assert got + [] == got;
    case ReadingBody(len, got) =>
      var out := Header(len) + got;
      assert out + [] == out;
      HeaderReads(len);
      OutputFits(c, w, request);
      BodyOfPrefix(c.serve(request).value, len, got, []);
  }

  lemma LengthEnding(c: Config, w: World, n: nat)
    requires c.Valid() && Inv(c, w) && Enabled(c, w, TesterReads(n)) && w.tester.ReadingLength?
    requires Next(c, w, TesterReads(n)).tester == Idle
    ensures Ending(Next(c, w, TesterReads(n))) == Expected(c.serve(c.requests[|w.results|]), Death(w))
  {
    LengthIsAnswers(c, w, n);
    LengthSoFar(c, w, n);
    assert c.serve(c.requests[|w.results|]).value == [];
  }

  lemma BodyEnding(c: Config, w: World, n: nat)
    requires c.Valid() && Inv(c, w) && Enabled(c, w, TesterReads(n)) && w.tester.ReadingBody?
    requires Next(c, w, TesterReads(n)).tester == Idle
    ensures Ending(Next(c, w, TesterReads(n))) == Expected(c.serve(c.requests[|w.results|]), Death(w))
  {
    var request := c.requests[|w.results|];
    var got := w.tester.got + w.fromChild[..n];
    BodySoFar(c, w, n);
    HeaderReads(w.tester.len);
    assert |Output(w)| > 4;
    OutputFits(c, w, request);
    BodyOfPrefix(c.serve(request).value, w.tester.len, got, w.fromChild[n..]);
  }

  /** In every run, a test whose request was written and that does not time out ends as the child's reply
      decides: with the response if all of it was written, with a crash if less than a length was, and
      with the end of the tester otherwise. */
  lemma TestsEndAsExpected(c: Config, steps: seq<Step>, s: Step)
    requires c.Valid() && RunOk(c, START, steps) && Enabled(c, Final(c, START, steps), s)
    requires EndsTest(c, Final(c, START, steps), s)
    ensures var w := Final(c, START, steps);
      && |w.results| < |c.requests|
      && Ending(Next(c, w, s)) == Expected(c.serve(c.requests[|w.results|]), Death(w))
  {
    RunInv(c, START, steps);
    var w := Final(c, START, steps);
    match s
    case TesterSeesEof => EofEnding(c, w);
    case TesterReads(n) => if w.tester.ReadingLength? { LengthEnding(c, w, n); } else { BodyEnding(c, w, n); }
    case _ =>
  }

  // ---------- recovery ----------

  lemma RunGoes(c: Config, w: World, s: Step, rest: seq<Step>)
    requires Enabled(c, w, s) && RunOk(c, Next(c, w, s), rest)
    ensures RunOk(c, w, [s] + rest) && Final(c, w, [s] + rest) == Final(c, Next(c, w, s), rest)
  {
    assert ([s] + rest)[1..] == rest;
  }

  ghost predicate Goes(c: Config, w: World, s: Step, w': World) {
    Enabled(c, w, s) && Next(c, w, s) == w'
  }

  /** Four steps followed by a run. */
  lemma FourSteps(c: Config, w: World, steps: seq<Step>, w1: World, w2: World, w3: World, w4: World, rest: seq<Step>)
    requires |steps| == 4 && Goes(c, w, steps[0], w1) && Goes(c, w1, steps[1], w2)
    requires Goes(c, w2, steps[2], w3) && Goes(c, w3, steps[3], w4) && RunOk(c, w4, rest)
    ensures RunOk(c, w, steps + rest) && Final(c, w, steps + rest) == Final(c, w4, rest)
  {
    RunGoes(c, w3, steps[3], rest);
    RunGoes(c, w2, steps[2], [steps[3]] + rest);
    RunGoes(c, w1, steps[1], [steps[2]] + ([steps[3]] + rest));
    RunGoes(c, w, steps[0], [steps[1]] + ([steps[2]] + ([steps[3]] + rest)));
    assert steps + rest == [steps[0]] + ([steps[1]] + ([steps[2]] + ([steps[3]] + rest)));
  }

  /** The tester is idle, without a child. */
  predicate Childless(c: Config, w: World) {
    w.tester == Idle && !w.spawned && |w.results| < |c.requests| && c.requests[|w.results|] != []
  }

  /** A child has been started and the request written. */
  function RequestSent(request: seq<Byte>, results: seq<Outcome>): World {
    World(ReadingLength([]), true, Awaiting([]), Frame(request), [], results)
  }

  function LengthSent(request: seq<Byte>, results: seq<Outcome>): World {
    World(SentLength, true, Awaiting([]), Header(|request|), [], results)
  }

  lemma RequestSteps(c: Config, w: World)
    requires Childless(c, w)
    ensures var request := c.requests[|w.results|];
      && Goes(c, w, Begin, LengthSent(request, w.results))
      && Goes(c, LengthSent(request, w.results), SendBody, RequestSent(request, w.results))
  {
    NewChildIsFresh(c, w);
  }

  const LOST := [Begin, SendBody, TesteeCrashes, TesterSeesEof]

  /** What a lost test leaves. */
  function AfterLost(request: seq<Byte>, results: seq<Outcome>): World {
    World(Idle, false, Exited, Frame(request), [], results + [Crashed])
  }

  /** A child that exits before it has answered. */
  lemma LostTest(c: Config, w: World, rest: seq<Step>)
    requires Childless(c, w) && RunOk(c, AfterLost(c.requests[|w.results|], w.results), rest)
    ensures RunOk(c, w, LOST + rest)
    ensures Final(c, w, LOST + rest) == Final(c, AfterLost(c.requests[|w.results|], w.results), rest)
  {
    var request := c.requests[|w.results|];
    RequestSteps(c, w);
    var sent := RequestSent(request, w.results);
    FourSteps(c, w, LOST, LengthSent(request, w.results), sent, sent.(testee := Exited),
              AfterLost(request, w.results), rest);
  }

  function Asked(request: seq<Byte>): seq<Step> {
    [Begin, SendBody, TesteeReads(4), TesteeReads(|request|)]
  }

  function Answered(resp: seq<Byte>): seq<Step> {
    [TesteeSendsLength, TesteeSendsBody, TesterReads(4), TesterReads(|resp|)]
  }

  lemma FrameParts(payload: seq<Byte>)
    requires |payload| < TWO_32
    ensures |Frame(payload)| == 4 + |payload| && [] + Frame(payload)[..4] == Header(|payload|)
    ensures Frame(payload)[4..] == payload && ReadLittleEndian(Header(|payload|)) == |payload|
    ensures [] + payload[..|payload|] == payload && payload[|payload|..] == []
  {
    HeaderReads(|payload|);
  }

  /** The testee reads the request in two reads. */
  lemma TesteeReadsRequest(c: Config, request: seq<Byte>, resp: seq<Byte>, results: seq<Outcome>)
    requires 0 < |request| < TWO_32 && c.serve(request) == Some(resp)
    ensures var received := World(ReadingLength([]), true, Receiving(|request|, []), request, [], results);
      && Goes(c, RequestSent(request, results), TesteeReads(4), received)
      && Goes(c, received, TesteeReads(|request|), World(ReadingLength([]), true, Answering(resp), [], [], results))
  {
    FrameParts(request);
    HeaderReads(|request|);
  }

  lemma AskedTest(c: Config, w: World, resp: seq<Byte>, rest: seq<Step>)
    requires c.Valid() && Childless(c, w) && c.serve(c.requests[|w.results|]) == Some(resp)
    requires RunOk(c, World(ReadingLength([]), true, Answering(resp), [], [], w.results), rest)
    ensures RunOk(c, w, Asked(c.requests[|w.results|]) + rest)
    ensures Final(c, w, Asked(c.requests[|w.results|]) + rest) ==
      Final(c, World(ReadingLength([]), true, Answering(resp), [], [], w.results), rest)
  {
    var request := c.requests[|w.results|];
    RequestSteps(c, w);
    TesteeReadsRequest(c, request, resp, w.results);
    FourSteps(c, w, Asked(request), LengthSent(request, w.results), RequestSent(request, w.results),
              World(ReadingLength([]), true, Receiving(|request|, []), request, [], w.results),
              World(ReadingLength([]), true, Answering(resp), [], [], w.results), rest);
  }

  lemma AnsweredTest(c: Config, resp: seq<Byte>, results: seq<Outcome>)
    requires 0 < |resp| < TWO_32
    ensures var w := World(ReadingLength([]), true, Answering(resp), [], [], results);
      RunOk(c, w, Answered(resp)) && Final(c, w, Answered(resp)).results == results + [Response(resp)]
  {
    FrameParts(resp);
    HeaderReads(|resp|);
    var w := World(ReadingLength([]), true, Answering(resp), [], [], results);
    var w1 := w.(fromChild := Header(|resp|), testee := Replying(resp));
    var w2 := w.(fromChild := Frame(resp), testee := Awaiting([]));
    var w3 := w2.(tester := ReadingBody(|resp|, []), fromChild := resp);
    assert [] + Header(|resp|) == Header(|resp|);
    FourSteps(c, w, Answered(resp), w1, w2, w3, Finish(w3.(fromChild := []), resp), []);
    assert Answered(resp) + [] == Answered(resp);
  }

  /** A run in which the first child exits before it answers and the next test is answered by a new one. */
  lemma RecoveryRunExists(c: Config, resp: seq<Byte>)
    requires c.Valid() && |c.requests| >= 2 && c.requests[0] != [] && c.requests[1] != []
    requires c.serve(c.requests[1]) == Some(resp) && resp != []
    ensures exists steps :: RunOk(c, START, steps) && Final(c, START, steps).results == [Crashed, Response(resp)]
  {
    var lost := AfterLost(c.requests[0], []);
    var rest := Asked(c.requests[1]) + Answered(resp);
    assert [] + [Crashed] == [Crashed] && [Crashed] + [Response(resp)] == [Crashed, Response(resp)];
    AnsweredTest(c, resp, [Crashed]);
    AskedTest(c, lost, resp, Answered(resp));
    LostTest(c, START, rest);
    assert RunOk(c, START, LOST + rest);
  }

  // ---------- on the pipe ----------

  /** A message on the pipe: its length in four bytes, the least significant one first, and then its bytes. */
  lemma FrameBytes(payload: seq<Byte>)
    requires |payload| < 0x1_0000
    ensures Frame(payload) == [|payload| % 256, |payload| / 256, 0, 0] + payload
  {
    TwoBytes(|payload| % 256, |payload| / 256, 4);
    assert Header(|payload|) == [|payload| % 256, |payload| / 256, 0, 0];
  }
}
