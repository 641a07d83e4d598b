/** Every run of the pipe protocol ends: a bound on its steps that every step lowers. */
module PipeTermination {
  import opened Sequences
  import opened Varints
  import opened WireFormat
  import opened PipeProtocol

  function ResponseSize(c: Config, request: seq<Byte>): nat {
    match c.serve(request)
    case Some(resp) => |resp|
    case None => 0
  }

  /** Reads and writes the testee still has to do for the current request. */
  function TesteeWork(w: World, request: seq<Byte>): nat {
    match w.testee
    case Awaiting(got) => if got == [] && w.toChild == [] then 0 else 7 - Min(|got|, 4) + |request|
    case Receiving(len, got) => len - Min(|got|, len) + 3
    case Answering(_) => 2
    case Replying(_) => if w.toChild == [] then 1 else 8 + |request|
    case Exited => 0
  }

  function TesterWork(c: Config, w: World, request: seq<Byte>): nat {
    match w.tester
    case SentLength => 6 + ResponseSize(c, request)
    case ReadingLength(got) => 5 - Min(|got|, 4) + ResponseSize(c, request)
    case ReadingBody(len, got) => len - Min(|got|, len)
    case _ => 0
  }

  function Min(a: nat, b: nat): nat {
    if a < b then a else b
  }

  /** Steps that the tests from the k-th on can take at most. */
  function Cost(c: Config, k: nat): nat
    decreases |c.requests| - k
  {
    if k >= |c.requests| then 0
    else 18 + ResponseSize(c, c.requests[k]) + |c.requests[k]| + Cost(c, k + 1)
  }

  /** An upper bound on the steps left. */
  function StepsLeft(c: Config, w: World): nat {
    var k := |w.results|;
    var alive := if w.spawned && w.testee != Exited then 1 else 0;
    if w.tester == Fatal then 0
    else if w.tester == Idle || k >= |c.requests| then
      Cost(c, k) + alive + (if w.testee.Replying? then 1 else 0)
    else Cost(c, k + 1) + alive + TesteeWork(w, c.requests[k]) + TesterWork(c, w, c.requests[k])
  }

  // ---------- what the invariant contributes ----------

  /** The parts of the invariant that the measure needs. */
  ghost predicate InTest(c: Config, w: World) {
    |w.results| < |c.requests| && w.tester != Idle && w.tester != Fatal && w.spawned && TesterInv(w)
  }

  lemma TestRuns(c: Config, w: World)
    requires Inv(c, w) && w.tester != Idle && w.tester != Fatal
    ensures InTest(c, w)
  {
  }

  /** A testee that reads or answers is in the middle of a test. */
  lemma TesteeIsInTest(c: Config, w: World)
    requires Inv(c, w) && w.spawned && w.testee != Exited && !Ready(w.testee)
    ensures InTest(c, w)
  {
  }

  /** Before the body is written the testee has a header before it, or nothing is to be written. */
  lemma BeforeBody(c: Config, w: World)
    requires Inv(c, w) && w.tester == SentLength
    ensures w.testee.Awaiting? ==> w.testee.got != [] || w.toChild != [] || c.requests[|w.results|] == []
    ensures w.testee.Replying? ==> w.toChild != [] || c.requests[|w.results|] == []
  {
    var request := c.requests[|w.results|];
    HeaderLength(|request|);
    assert |Frame(request)| == 4 + |request|;
  }

  lemma HeaderLength(n: nat)
    ensures |Header(n)| == 4
  {
    LittleEndianLength(n, 4);
  }

  lemma {:induction false} LittleEndianLength(x: nat, n: nat)
    ensures |LittleEndian(x, n)| == n
    decreases n
  {
    if n > 0 { LittleEndianLength(x / 256, n - 1); }
  }

  /** A whole header that the testee has read announces the current request. */
  lemma HeaderAnnounces(c: Config, w: World, n: nat)
    requires c.Valid() && Inv(c, w) && InTest(c, w)
    requires Enabled(c, w, TesteeReads(n)) && w.testee.Awaiting? && |w.testee.got| + n == 4
    ensures ReadLittleEndian(w.testee.got + w.toChild[..n]) == |c.requests[|w.results|]|
  {
    var request := c.requests[|w.results|];
    TakeDrop(w.toChild, n);
    Associative(w.testee.got, w.toChild[..n], w.toChild[n..]);
    RequestSplits(request, Sent(w.tester, request), w.testee.got + w.toChild[..n], w.toChild[n..]);
  }

  // ---------- every step lowers the bound ----------

  lemma LengthReadDecreases(c: Config, w: World, n: nat)
    requires InTest(c, w) && Enabled(c, w, TesterReads(n)) && w.tester.ReadingLength?
    requires |w.tester.got| + n == 4 ==>
      ReadLittleEndian(w.tester.got + w.fromChild[..n]) == ResponseSize(c, c.requests[|w.results|])
    ensures StepsLeft(c, Next(c, w, TesterReads(n))) < StepsLeft(c, w)
  {
  }

  lemma BodyReadDecreases(c: Config, w: World, n: nat)
    requires InTest(c, w) && Enabled(c, w, TesterReads(n)) && w.tester.ReadingBody?
    ensures StepsLeft(c, Next(c, w, TesterReads(n))) < StepsLeft(c, w)
  {
  }

  lemma HeaderReadDecreases(c: Config, w: World, n: nat)
    requires InTest(c, w) && Enabled(c, w, TesteeReads(n)) && w.testee.Awaiting?
    requires |w.testee.got| + n == 4 ==>
      ReadLittleEndian(w.testee.got + w.toChild[..n]) == |c.requests[|w.results|]|
    ensures StepsLeft(c, Next(c, w, TesteeReads(n))) < StepsLeft(c, w)
  {
  }

  lemma RequestReadDecreases(c: Config, w: World, n: nat)
    requires InTest(c, w) && Enabled(c, w, TesteeReads(n)) && w.testee.Receiving?
    ensures StepsLeft(c, Next(c, w, TesteeReads(n))) < StepsLeft(c, w)
  {
  }

  lemma BeginDecreases(c: Config, w: World)
    requires Enabled(c, w, Begin) && (w.spawned ==> Ready(w.testee) || w.testee == Exited)
    ensures StepsLeft(c, Next(c, w, Begin)) < StepsLeft(c, w)
  {
    HeaderLength(|c.requests[|w.results|]|);
  }

  lemma SendBodyDecreases(c: Config, w: World)
    requires InTest(c, w) && Enabled(c, w, SendBody)
    requires w.testee.Awaiting? ==> w.testee.got != [] || w.toChild != [] || c.requests[|w.results|] == []
    requires w.testee.Replying? ==> w.toChild != [] || c.requests[|w.results|] == []
    ensures StepsLeft(c, Next(c, w, SendBody)) < StepsLeft(c, w)
  {
  }

  lemma SendsLengthDecreases(c: Config, w: World)
    requires InTest(c, w) && Enabled(c, w, TesteeSendsLength) && w.toChild == []
    ensures StepsLeft(c, Next(c, w, TesteeSendsLength)) < StepsLeft(c, w)
  {
  }

  lemma SendsBodyDecreases(c: Config, w: World)
    requires Enabled(c, w, TesteeSendsBody) && (w.tester == Idle || InTest(c, w))
    ensures StepsLeft(c, Next(c, w, TesteeSendsBody)) < StepsLeft(c, w)
  {
  }

  lemma TesterStepDecreases(c: Config, w: World, s: Step)
    requires c.Valid() && Inv(c, w) && Enabled(c, w, s) && (s == Begin || s == SendBody || s.TesterReads?)
    ensures StepsLeft(c, Next(c, w, s)) < StepsLeft(c, w)
  {
    if s == Begin {
      BeginDecreases(c, w);
    } else {
      TestRuns(c, w);
      if s == SendBody {
        BeforeBody(c, w);
        SendBodyDecreases(c, w);
      } else if w.tester.ReadingBody? {
        BodyReadDecreases(c, w, s.n);
      } else {
        if |w.tester.got| + s.n == 4 { LengthIsAnswers(c, w, s.n); }
        LengthReadDecreases(c, w, s.n);
      }
    }
  }

  lemma TesteeReadDecreases(c: Config, w: World, n: nat)
    requires c.Valid() && Inv(c, w) && Enabled(c, w, TesteeReads(n))
    ensures StepsLeft(c, Next(c, w, TesteeReads(n))) < StepsLeft(c, w)
  {
    ReadsInTest(c, w, n);
    if w.testee.Receiving? {
      RequestReadDecreases(c, w, n);
    } else {
      if |w.testee.got| + n == 4 { HeaderAnnounces(c, w, n); }
      HeaderReadDecreases(c, w, n);
    }
  }

  lemma ReadsInTest(c: Config, w: World, n: nat)
    requires Inv(c, w) && Enabled(c, w, TesteeReads(n))
    ensures InTest(c, w)
  {
  }

  lemma TesteeWriteDecreases(c: Config, w: World, s: Step)
    requires Inv(c, w) && Enabled(c, w, s) && (s == TesteeSendsLength || s == TesteeSendsBody)
    ensures StepsLeft(c, Next(c, w, s)) < StepsLeft(c, w)
  {
    if s == TesteeSendsLength {
      TesteeIsInTest(c, w);
      SendsLengthDecreases(c, w);
    } else {
      if w.tester != Idle { TestRuns(c, w); }
      SendsBodyDecreases(c, w);
    }
  }

  lemma FaultDecreases(c: Config, w: World, s: Step)
    requires Inv(c, w) && Enabled(c, w, s) && (s == TesterSeesEof || s == TesterTimesOut || s == TesteeCrashes)
    ensures StepsLeft(c, Next(c, w, s)) < StepsLeft(c, w)
  {
  }

  lemma StepDecreases(c: Config, w: World, s: Step)
    requires c.Valid() && Inv(c, w) && Enabled(c, w, s)
    ensures StepsLeft(c, Next(c, w, s)) < StepsLeft(c, w)
  {
    if s == Begin || s == SendBody || s.TesterReads? {
      TesterStepDecreases(c, w, s);
    } else if s.TesteeReads? {
      TesteeReadDecreases(c, w, s.n);
    } else if s == TesteeSendsLength || s == TesteeSendsBody {
      TesteeWriteDecreases(c, w, s);
    } else {
      FaultDecreases(c, w, s);
    }
  }

  lemma {:induction false} RunIsBounded(c: Config, w: World, steps: seq<Step>)
    requires c.Valid() && Inv(c, w) && RunOk(c, w, steps)
    ensures |steps| + StepsLeft(c, Final(c, w, steps)) <= StepsLeft(c, w)
    decreases |steps|
  {
    if steps != [] {
      StepInv(c, w, steps[0]);
      StepDecreases(c, w, steps[0]);
      RunIsBounded(c, Next(c, w, steps[0]), steps[1..]);
    }
  }

  /** A run takes at most 18 steps per test plus one for each byte of its request and its response,
      whatever is interleaved and whether or not the tester gives up. */
  lemma EveryRunEnds(c: Config, steps: seq<Step>)
    requires c.Valid() && RunOk(c, START, steps)
    ensures |steps| <= Cost(c, 0)
  {
    RunIsBounded(c, START, steps);
  }
}
