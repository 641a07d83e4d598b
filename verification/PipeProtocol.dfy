/** The conversation between the conformance tester (conformance/fork_pipe_runner.cc) and the testee
    (conformance/conformance_cpp.cc) as a state machine: two byte queues, reads that deliver any
    part of what is there, crashes, timeouts and respawns, in any interleaving. */
module PipeProtocol {
  import opened Arithmetic
  import opened Options
  import opened Sequences
  import opened Varints
  import opened WireFormat

  /** What the testee answers to a request; None when it gives up with an error status. */
  type Service = seq<Byte> -> Option<seq<Byte>>

  datatype Config = Config(requests: seq<seq<Byte>>, serve: Service) {
    /** Lengths fit the four bytes of the frame header. */
    ghost predicate Valid() {
      forall i | 0 <= i < |requests| ::
        |requests[i]| < TWO_32 && (serve(requests[i]).Some? ==> |serve(requests[i]).value| < TWO_32)
    }
  }

  datatype Tester =
    | Idle
    | SentLength
    | ReadingLength(got: seq<Byte>)
    | ReadingBody(len: nat, got: seq<Byte>)
    | Fatal

  datatype Testee =
    | Awaiting(got: seq<Byte>)
    | Receiving(len: nat, got: seq<Byte>)
    | Answering(resp: seq<Byte>)
    | Replying(resp: seq<Byte>)
    | Exited

  datatype Outcome = Response(bytes: seq<Byte>) | Crashed

  /** `spawned` is child_pid_ >= 0. */
  datatype World = World(
    tester: Tester, spawned: bool, testee: Testee,
    toChild: seq<Byte>, fromChild: seq<Byte>,
    results: seq<Outcome>)

  const START := World(Idle, false, Exited, [], [], [])

  datatype Step =
    | Begin
    | SendBody
    | TesterReads(n: nat)
    | TesterSeesEof
    | TesterTimesOut
    | TesteeReads(n: nat)
    | TesteeSendsLength
    | TesteeSendsBody
    | TesteeCrashes

  function Header(n: nat): seq<Byte> {
    LittleEndian(n, 4)
  }

  function Frame(payload: seq<Byte>): seq<Byte> {
    Header(|payload|) + payload
  }

  lemma HeaderReads(n: nat)
    requires n < TWO_32
    ensures |Header(n)| == 4 && ReadLittleEndian(Header(n)) == n
  {
    FixedRoundTrip(n, 4, []);
    assert Header(n) + [] == Header(n) && Header(n)[..4] == Header(n);
  }

  // ---------- steps ----------

  function NeededByTester(t: Tester): nat
    requires (t.ReadingLength? && |t.got| <= 4) || (t.ReadingBody? && |t.got| <= t.len)
  {
    if t.ReadingLength? then 4 - |t.got| else t.len - |t.got|
  }

  function NeededByTestee(t: Testee): nat
    requires (t.Awaiting? && |t.got| <= 4) || (t.Receiving? && |t.got| <= t.len)
  {
    if t.Awaiting? then 4 - |t.got| else t.len - |t.got|
  }

  predicate TesterIsReading(t: Tester) {
    (t.ReadingLength? && |t.got| < 4) || (t.ReadingBody? && |t.got| < t.len)
  }

  predicate TesteeIsReading(t: Testee) {
    (t.Awaiting? && |t.got| < 4) || (t.Receiving? && |t.got| < t.len)
  }

  predicate Enabled(c: Config, w: World, s: Step) {
    match s
    case Begin => w.tester == Idle && |w.results| < |c.requests|
    case SendBody => w.tester == SentLength && |w.results| < |c.requests|
    case TesterReads(n) => TesterIsReading(w.tester) && 1 <= n <= NeededByTester(w.tester) && n <= |w.fromChild|
    case TesterSeesEof => TesterIsReading(w.tester) && w.fromChild == [] && w.testee == Exited
    case TesterTimesOut => TesterIsReading(w.tester)
    case TesteeReads(n) =>
      w.spawned && TesteeIsReading(w.testee) && 1 <= n <= NeededByTestee(w.testee) && n <= |w.toChild|
    case TesteeSendsLength => w.spawned && w.testee.Answering?
    case TesteeSendsBody => w.spawned && w.testee.Replying?
    case TesteeCrashes => w.spawned && w.testee != Exited
  }

  /** CheckedWrite: writing to a child that is gone is fatal, unless there is nothing to write. */
  function TesterWrites(w: World, bytes: seq<Byte>, next: Tester): World {
    if w.testee == Exited && bytes != [] then w.(tester := Fatal)
    else w.(toChild := w.toChild + bytes, tester := next)
  }

  /** RunTest has a whole response. */
  function Finish(w: World, bytes: seq<Byte>): World {
    w.(tester := Idle, results := w.results + [Response(bytes)])
  }

  /** RunTest after TryRead has failed: reap the child while the length was awaited, give up while
      the body was. */
  function ReadFails(w: World): World {
    if w.tester.ReadingLength? then
      w.(tester := Idle, spawned := false, testee := Exited, results := w.results + [Crashed])
    else w.(tester := Fatal, testee := Exited)
  }

  /** The testee has the whole request. */
  function Compute(c: Config, request: seq<Byte>): Testee {
    match c.serve(request)
    case Some(resp) => Answering(resp)
    case None => Exited
  }

  function Next(c: Config, w: World, s: Step): World
    requires Enabled(c, w, s)
  {
    match s
    case Begin =>
      var w' := if w.spawned then w else w.(spawned := true, testee := Awaiting([]), toChild := [], fromChild := []);
      TesterWrites(w', Header(|c.requests[|w.results|]|), SentLength)
    case SendBody => TesterWrites(w, c.requests[|w.results|], ReadingLength([]))
    case TesterReads(n) =>
      var got := w.tester.got + w.fromChild[..n];
      var w' := w.(fromChild := w.fromChild[n..]);
      if w.tester.ReadingBody? then
        if |got| == w.tester.len then Finish(w', got) else w'.(tester := ReadingBody(w.tester.len, got))
      else if |got| < 4 then w'.(tester := ReadingLength(got))
      else if ReadLittleEndian(got) == 0 then Finish(w', [])
      else w'.(tester := ReadingBody(ReadLittleEndian(got), []))
    case TesterSeesEof => ReadFails(w)
    case TesterTimesOut => ReadFails(w)
    case TesteeReads(n) =>
      var got := w.testee.got + w.toChild[..n];
      var w' := w.(toChild := w.toChild[n..]);
      if w.testee.Receiving? then
        w'.(testee := if |got| == w.testee.len then Compute(c, got) else Receiving(w.testee.len, got))
      else if |got| < 4 then w'.(testee := Awaiting(got))
      else if ReadLittleEndian(got) == 0 then w'.(testee := Compute(c, []))
      else w'.(testee := Receiving(ReadLittleEndian(got), []))
    case TesteeSendsLength => w.(fromChild := w.fromChild + Header(|w.testee.resp|), testee := Replying(w.testee.resp))
    case TesteeSendsBody => w.(fromChild := w.fromChild + w.testee.resp, testee := Awaiting([]))
    case TesteeCrashes => w.(testee := Exited)
  }

  // ---------- invariant ----------

  /** What the tester has written for the current request. */
  function Sent(t: Tester, request: seq<Byte>): seq<Byte> {
    if t == SentLength then Header(|request|) else Frame(request)
  }

  /** What the testee has written for the current request, read or not. */
  function Output(w: World): seq<Byte> {
    match w.tester
    case ReadingLength(got) => got + w.fromChild
    case ReadingBody(len, got) => Header(len) + got + w.fromChild
    case _ => w.fromChild
  }

  /** Ready for the next request; a reply of no bytes may still be to be written. */
  predicate Ready(t: Testee) {
    t == Awaiting([]) || t == Replying([])
  }

  /** How far the testee is with the current request. */
  ghost predicate TesteeInv(c: Config, w: World, request: seq<Byte>) {
    var sent, out := Sent(w.tester, request), Output(w);
    match w.testee
    case Awaiting(got) =>
      || (|got| < 4 && got + w.toChild == sent && out == [])
      || (got == [] && w.toChild == [] && sent == Frame(request) && c.serve(request).Some?
          && out == Frame(c.serve(request).value))
    case Receiving(len, got) =>
      len == |request| && |got| < len && Header(len) + got + w.toChild == sent && out == []
    case Answering(resp) => c.serve(request) == Some(resp) && w.toChild == [] && sent == Frame(request) && out == []
    case Replying(resp) =>
      || (c.serve(request) == Some(resp) && w.toChild == [] && sent == Frame(request) && out == Header(|resp|))
      || (resp == [] && w.toChild == sent && out == [])
    case Exited =>
      out == [] || (c.serve(request).Some? && out <= Frame(c.serve(request).value) && w.toChild == [])
  }

  ghost predicate TesterInv(w: World) {
    match w.tester
    case ReadingLength(got) => |got| < 4
    case ReadingBody(len, got) => |got| < len < TWO_32
    case _ => true
  }

  ghost predicate Inv(c: Config, w: World) {
    && |w.results| <= |c.requests|
    && (forall i | 0 <= i < |w.results| && w.results[i].Response? ::
          c.serve(c.requests[i]) == Some(w.results[i].bytes))
    && TesterInv(w)
    && match w.tester
       case Fatal => w.testee == Exited
       case Idle => w.spawned ==> (Ready(w.testee) || w.testee == Exited) && w.toChild == [] && w.fromChild == []
       case _ => w.spawned && |w.results| < |c.requests| && TesteeInv(c, w, c.requests[|w.results|])
  }

  lemma BeginInv(c: Config, w: World)
    requires c.Valid() && Inv(c, w) && Enabled(c, w, Begin)
    ensures Inv(c, Next(c, w, Begin))
  {
  }

  lemma SendBodyInv(c: Config, w: World)
    requires c.Valid() && Inv(c, w) && Enabled(c, w, SendBody)
    ensures Inv(c, Next(c, w, SendBody))
  {
    var request := c.requests[|w.results|];
    if w.testee.Awaiting? {
      Associative(w.testee.got, w.toChild, request);
    } else if w.testee.Receiving? {
      Associative(Header(|request|) + w.testee.got, w.toChild, request);
    }
    if Header(|request|) == Frame(request) {
      assert |Frame(request)| == |Header(|request|)| + |request|;
      assert request == [];
      assert w.toChild + request == w.toChild;
    }
  }

  /** Whatever the testee has written belongs to its answer to the current request. */
  lemma OutputFits(c: Config, w: World, request: seq<Byte>)
    requires TesteeInv(c, w, request) && Output(w) != []
    ensures c.serve(request).Some? && Output(w) <= Frame(c.serve(request).value) && w.toChild == []
    ensures w.testee == Exited || w.testee == Awaiting([]) || w.testee == Replying(c.serve(request).value)
    ensures w.testee == Awaiting([]) ==> Output(w) == Frame(c.serve(request).value)
    ensures w.testee.Replying? ==> Output(w) == Header(|c.serve(request).value|)
  {
  }

  /** A header read from the start of a frame is that frame's. */
  lemma HeaderOfPrefix(resp: seq<Byte>, out: seq<Byte>)
    requires |resp| < TWO_32 && out <= Frame(resp) && |out| >= 4
    ensures out[..4] == Header(|resp|) && ReadLittleEndian(out[..4]) == |resp|
    ensures out[4..] <= resp
  {
    HeaderReads(|resp|);
    assert Frame(resp)[..4] == Header(|resp|) && Frame(resp)[4..] == resp;
    assert out[..4] == Frame(resp)[..|out|][..4];
    assert out[4..] == Frame(resp)[4..][..|out| - 4];
  }

  /** TesteeInv looks only at the output, not at how much of it the tester has read. */
  lemma SameOutput(c: Config, w: World, w': World, request: seq<Byte>)
    requires TesteeInv(c, w, request) && Output(w') == Output(w)
    requires w'.testee == w.testee && w'.toChild == w.toChild && Sent(w'.tester, request) == Sent(w.tester, request)
    ensures TesteeInv(c, w', request)
  {
  }

  /** What the tester holds once it has read n more bytes of the length. */
  lemma LengthSoFar(c: Config, w: World, n: nat)
    requires Inv(c, w) && Enabled(c, w, TesterReads(n)) && w.tester.ReadingLength?
    ensures (w.tester.got + w.fromChild[..n]) + w.fromChild[n..] == Output(w)
  {
    TakeDrop(w.fromChild, n);
    Associative(w.tester.got, w.fromChild[..n], w.fromChild[n..]);
  }

  lemma ReadsPartOfLengthInv(c: Config, w: World, n: nat)
    requires Inv(c, w) && Enabled(c, w, TesterReads(n)) && w.tester.ReadingLength?
    requires |w.tester.got| + n < 4
    ensures Inv(c, Next(c, w, TesterReads(n)))
  {
    LengthSoFar(c, w, n);
    SameOutput(c, w, Next(c, w, TesterReads(n)), c.requests[|w.results|]);
  }

  /** The length that was read is that of the answer to the current request. */
  lemma LengthIsAnswers(c: Config, w: World, n: nat)
    requires c.Valid() && Inv(c, w) && Enabled(c, w, TesterReads(n)) && w.tester.ReadingLength?
    requires |w.tester.got| + n == 4
    ensures Output(w) != [] && c.serve(c.requests[|w.results|]).Some?
    ensures var got, resp := w.tester.got + w.fromChild[..n], c.serve(c.requests[|w.results|]).value;
      got == Header(|resp|) && ReadLittleEndian(got) == |resp| && w.fromChild[n..] <= resp
  {
    var request := c.requests[|w.results|];
    var got, rest := w.tester.got + w.fromChild[..n], w.fromChild[n..];
    LengthSoFar(c, w, n);
    OutputFits(c, w, request);
    HeaderOfPrefix(c.serve(request).value, Output(w));
    assert (got + rest)[..4] == got && (got + rest)[4..] == rest;
  }

  lemma ReadsRestOfLengthInv(c: Config, w: World, n: nat)
    requires c.Valid() && Inv(c, w) && Enabled(c, w, TesterReads(n)) && w.tester.ReadingLength?
    requires |w.tester.got| + n == 4
    ensures Inv(c, Next(c, w, TesterReads(n)))
  {
    var request := c.requests[|w.results|];
    var got, rest := w.tester.got + w.fromChild[..n], w.fromChild[n..];
    LengthIsAnswers(c, w, n);
    LengthSoFar(c, w, n);
    OutputFits(c, w, request);
    if |c.serve(request).value| > 0 {
      assert got + [] + rest == got + rest;
      SameOutput(c, w, Next(c, w, TesterReads(n)), request);
    }
  }

  lemma BodyOfPrefix(resp: seq<Byte>, len: nat, got: seq<Byte>, rest: seq<Byte>)
    requires |resp| < TWO_32 && |got| <= len < TWO_32 && Header(len) + got + rest <= Frame(resp)
    ensures len == |resp| && (|got| == len ==> got == resp && rest == [])
  {
    HeaderReads(len);
    HeaderReads(|resp|);
    var out := Header(len) + got + rest;
    HeaderOfPrefix(resp, out);
    assert out[..4] == Header(len) && out[4..] == got + rest;
  }

  /** What the tester holds once it has read n more bytes of the body. */
  lemma BodySoFar(c: Config, w: World, n: nat)
    requires Inv(c, w) && Enabled(c, w, TesterReads(n)) && w.tester.ReadingBody?
    ensures Header(w.tester.len) + (w.tester.got + w.fromChild[..n]) + w.fromChild[n..] == Output(w)
  {
    var h, got, a, b := Header(w.tester.len), w.tester.got, w.fromChild[..n], w.fromChild[n..];
    TakeDrop(w.fromChild, n);
    Associative(h, got, a);
    Associative(h + got, a, b);
  }

  lemma ReadsPartOfBodyInv(c: Config, w: World, n: nat)
    requires Inv(c, w) && Enabled(c, w, TesterReads(n)) && w.tester.ReadingBody?
    requires |w.tester.got| + n < w.tester.len
    ensures Inv(c, Next(c, w, TesterReads(n)))
  {
    BodySoFar(c, w, n);
    SameOutput(c, w, Next(c, w, TesterReads(n)), c.requests[|w.results|]);
  }

  lemma ReadsRestOfBodyInv(c: Config, w: World, n: nat)
    requires c.Valid() && Inv(c, w) && Enabled(c, w, TesterReads(n)) && w.tester.ReadingBody?
    requires |w.tester.got| + n == w.tester.len
    ensures Inv(c, Next(c, w, TesterReads(n)))
  {
    var request := c.requests[|w.results|];
    var got := w.tester.got + w.fromChild[..n];
    BodySoFar(c, w, n);
    HeaderReads(w.tester.len);
    OutputFits(c, w, request);
    BodyOfPrefix(c.serve(request).value, w.tester.len, got, w.fromChild[n..]);
    assert |Output(w)| > 4;
  }

  /** The testee's own header and payload, read off what is left of the tester's. */
  lemma RequestSplits(request: seq<Byte>, sent: seq<Byte>, got: seq<Byte>, rest: seq<Byte>)
    requires |request| < TWO_32 && (sent == Header(|request|) || sent == Frame(request))
    requires |got| == 4 && got + rest == sent
    ensures got == Header(|request|) && ReadLittleEndian(got) == |request|
    ensures rest == if sent == Frame(request) then request else []
  {
    HeaderReads(|request|);
    assert (got + rest)[..4] == got && (got + rest)[4..] == rest;
    assert Frame(request)[..4] == Header(|request|) && Frame(request)[4..] == request;
    assert Header(|request|)[..4] == Header(|request|) && Header(|request|)[4..] == [];
  }

  lemma TesteeReadsHeaderInv(c: Config, w: World, n: nat)
    requires c.Valid() && Inv(c, w) && Enabled(c, w, TesteeReads(n)) && w.testee.Awaiting?
    ensures Inv(c, Next(c, w, TesteeReads(n)))
  {
    var request := c.requests[|w.results|];
    var sent := Sent(w.tester, request);
    var got, rest := w.testee.got + w.toChild[..n], w.toChild[n..];
    assert got + rest == sent;
    if |got| == 4 {
      RequestSplits(request, sent, got, rest);
      if |request| == 0 {
        assert request == [] && sent == Frame(request);
      } else {
        assert Header(|request|) + [] + rest == sent;
      }
    }
  }

  lemma TesteeReadsBodyInv(c: Config, w: World, n: nat)
    requires c.Valid() && Inv(c, w) && Enabled(c, w, TesteeReads(n)) && w.testee.Receiving?
    ensures Inv(c, Next(c, w, TesteeReads(n)))
  {
    var request := c.requests[|w.results|];
    var sent := Sent(w.tester, request);
    var got, rest := w.testee.got + w.toChild[..n], w.toChild[n..];
    HeaderReads(|request|);
    assert Header(|request|) + got + rest == sent;
    assert sent == Header(|request|) + (got + rest);
    RequestSplits(request, sent, Header(|request|), got + rest);
    if |got| == |request| {
      assert rest == [] && got == request;
    }
  }

  /** What the testee writes is appended to what it has written for this request. */
  lemma OutputGrows(w: World, w': World, added: seq<Byte>)
    requires w'.tester == w.tester && w'.fromChild == w.fromChild + added
    ensures Output(w') == Output(w) + added
  {
    match w.tester
    case ReadingLength(got) => Associative(got, w.fromChild, added);
    case ReadingBody(len, got) => Associative(Header(len) + got, w.fromChild, added);
    case _ =>
  }

  lemma TesteeSendsLengthInv(c: Config, w: World)
    requires c.Valid() && Inv(c, w) && Enabled(c, w, TesteeSendsLength)
    ensures Inv(c, Next(c, w, TesteeSendsLength))
  {
    var h := Header(|w.testee.resp|);
    OutputGrows(w, Next(c, w, TesteeSendsLength), h);
    assert [] + h == h;
  }

  lemma TesteeSendsBodyInv(c: Config, w: World)
    requires c.Valid() && Inv(c, w) && Enabled(c, w, TesteeSendsBody)
    ensures Inv(c, Next(c, w, TesteeSendsBody))
  {
    OutputGrows(w, Next(c, w, TesteeSendsBody), w.testee.resp);
    assert [] + w.toChild == w.toChild;
    if w.tester != Idle { HeaderReads(|c.requests[|w.results|]|); }
  }

  lemma StepInv(c: Config, w: World, s: Step)
    requires c.Valid() && Inv(c, w) && Enabled(c, w, s)
    ensures Inv(c, Next(c, w, s))
  {
    match s
    case Begin => BeginInv(c, w);
    case SendBody => SendBodyInv(c, w);
    case TesterReads(n) =>
      if w.tester.ReadingLength? && |w.tester.got| + n < 4 { ReadsPartOfLengthInv(c, w, n); }
      else if w.tester.ReadingLength? { ReadsRestOfLengthInv(c, w, n); }
      else if |w.tester.got| + n < w.tester.len { ReadsPartOfBodyInv(c, w, n); }
      else { ReadsRestOfBodyInv(c, w, n); }
    case TesterSeesEof =>
    case TesterTimesOut =>
    case TesteeReads(n) =>
      if w.testee.Awaiting? { TesteeReadsHeaderInv(c, w, n); } else { TesteeReadsBodyInv(c, w, n); }
    case TesteeSendsLength => TesteeSendsLengthInv(c, w);
    case TesteeSendsBody => TesteeSendsBodyInv(c, w);
    case TesteeCrashes => CrashInv(c, w);
  }

  lemma CrashInv(c: Config, w: World)
    requires c.Valid() && Inv(c, w) && Enabled(c, w, TesteeCrashes)
    ensures Inv(c, Next(c, w, TesteeCrashes))
  {
    if w.tester != Fatal && w.tester != Idle && Output(w) != [] {
      OutputFits(c, w, c.requests[|w.results|]);
    }
  }

  // ---------- runs ----------

  ghost predicate RunOk(c: Config, w: World, steps: seq<Step>)
    decreases |steps|
  {
    steps == [] || (Enabled(c, w, steps[0]) && RunOk(c, Next(c, w, steps[0]), steps[1..]))
  }

  ghost function Final(c: Config, w: World, steps: seq<Step>): World
    requires RunOk(c, w, steps)
    decreases |steps|
  {
    if steps == [] then w else Final(c, Next(c, w, steps[0]), steps[1..])
  }

  lemma {:induction false} RunInv(c: Config, w: World, steps: seq<Step>)
    requires c.Valid() && Inv(c, w) && RunOk(c, w, steps)
    ensures Inv(c, Final(c, w, steps))
    decreases |steps|
  {
    if steps != [] {
      StepInv(c, w, steps[0]);
      RunInv(c, Next(c, w, steps[0]), steps[1..]);
    }
  }

  /** The k-th response is the testee's answer to the k-th request, however reads were split and
      whatever crashed in between; between tests both pipes are empty. */
  lemma AnswersMatchRequests(c: Config, steps: seq<Step>, k: nat)
    requires c.Valid() && RunOk(c, START, steps)
    ensures var w := Final(c, START, steps);
      && |w.results| <= |c.requests|
      && (k < |w.results| && w.results[k].Response? ==> c.serve(c.requests[k]) == Some(w.results[k].bytes))
      && (w.tester == Idle && w.spawned ==> w.toChild == [] && w.fromChild == [])
  {
    RunInv(c, START, steps);
  }

  /** A child, respawned or not, only ever computes an answer to the request of the current test. */
  lemma TesteeServesCurrentRequest(c: Config, steps: seq<Step>, n: nat)
    requires c.Valid() && RunOk(c, START, steps)
    requires var w := Final(c, START, steps); Enabled(c, w, TesteeReads(n))
    ensures var w := Final(c, START, steps);
      var w' := Next(c, w, TesteeReads(n));
      |w.results| < |c.requests|
      && (w'.testee.Answering? ==> c.serve(c.requests[|w.results|]) == Some(w'.testee.resp))
      && (w'.testee == Exited ==> c.serve(c.requests[|w.results|]) == None)
  {
    RunInv(c, START, steps);
    var w := Final(c, START, steps);
    StepInv(c, w, TesteeReads(n));
    ServedRequest(c, w, n);
  }

  lemma ServedRequest(c: Config, w: World, n: nat)
    requires c.Valid() && Inv(c, w) && Enabled(c, w, TesteeReads(n))
    ensures |w.results| < |c.requests|
    ensures var w' := Next(c, w, TesteeReads(n));
      w'.testee.Answering? || w'.testee == Exited ==> w'.testee == Compute(c, c.requests[|w.results|])
  {
    if w.testee.Awaiting? { ServedHeader(c, w, n); } else { ServedBody(c, w, n); }
  }

  lemma ServedHeader(c: Config, w: World, n: nat)
    requires c.Valid() && Inv(c, w) && Enabled(c, w, TesteeReads(n)) && w.testee.Awaiting?
    ensures |w.results| < |c.requests|
    ensures var w' := Next(c, w, TesteeReads(n));
      w'.testee.Answering? || w'.testee == Exited ==> w'.testee == Compute(c, c.requests[|w.results|])
  {
    var request := c.requests[|w.results|];
    var got, rest := w.testee.got + w.toChild[..n], w.toChild[n..];
    TakeDrop(w.toChild, n);
    Associative(w.testee.got, w.toChild[..n], rest);
    if |got| == 4 {
      RequestSplits(request, Sent(w.tester, request), got, rest);
      assert |request| == 0 ==> request == [];
    }
  }

  lemma ServedBody(c: Config, w: World, n: nat)
    requires c.Valid() && Inv(c, w) && Enabled(c, w, TesteeReads(n)) && w.testee.Receiving?
    ensures |w.results| < |c.requests|
    ensures var w' := Next(c, w, TesteeReads(n));
      w'.testee.Answering? || w'.testee == Exited ==> w'.testee == Compute(c, c.requests[|w.results|])
  {
    var request := c.requests[|w.results|];
    var h, got, rest := Header(|request|), w.testee.got + w.toChild[..n], w.toChild[n..];
    HeaderReads(|request|);
    TakeDrop(w.toChild, n);
    Associative(w.testee.got, w.toChild[..n], rest);
    Associative(h, w.testee.got, w.toChild);
    RequestSplits(request, Sent(w.tester, request), h, got + rest);
    if |got| == |request| { assert (got + rest)[..|request|] == got && request[..|request|] == request; }
  }

  /** A tester that is still reading has not read a whole frame. */
  lemma FrameNotAllRead(w: World, resp: seq<Byte>)
    requires |resp| < TWO_32 && TesterInv(w) && TesterIsReading(w.tester) && w.fromChild == []
    ensures Output(w) != Frame(resp)
  {
    HeaderReads(|resp|);
    match w.tester
    case ReadingLength(got) => assert got + [] == got;
    case ReadingBody(len, got) =>
      HeaderReads(len);
      if Header(len) + got + [] == Frame(resp) { BodyOfPrefix(resp, len, got, []); }
    case _ =>
  }

  /** While the tester waits for bytes that are not there, a live testee is not waiting for bytes
      that are not there. */
  lemma NeverBothBlocked(c: Config, w: World)
    requires c.Valid() && Inv(c, w) && TesterIsReading(w.tester) && w.fromChild == []
    ensures TesteeIsReading(w.testee) ==> w.toChild != []
  {
    var request := c.requests[|w.results|];
    HeaderReads(|request|);
    if c.serve(request).Some? { FrameNotAllRead(w, c.serve(request).value); }
    assert w.testee.Awaiting? ==> w.testee.got + [] == w.testee.got;
    if w.testee.Receiving? {
      assert Header(|request|) + w.testee.got + [] == Header(|request|) + w.testee.got;
      assert |Frame(request)| == 4 + |request|;
    }
  }

  /** Until every test has a result or the tester has given up, some step other than a crash or a
      timeout is possible. */
  lemma AlwaysProgress(c: Config, w: World)
    requires c.Valid() && Inv(c, w) && w.tester != Fatal && |w.results| < |c.requests|
    ensures exists s :: Enabled(c, w, s) && s != TesteeCrashes && s != TesterTimesOut
  {
    if w.tester == Idle {
      assert Enabled(c, w, Begin);
    } else if w.tester == SentLength {
      assert Enabled(c, w, SendBody);
    } else if w.fromChild != [] {
      assert Enabled(c, w, TesterReads(1));
    } else if w.testee == Exited {
      assert Enabled(c, w, TesterSeesEof);
    } else if w.testee.Answering? {
      assert Enabled(c, w, TesteeSendsLength);
    } else if w.testee.Replying? {
      assert Enabled(c, w, TesteeSendsBody);
    } else {
      NeverBothBlocked(c, w);
      assert Enabled(c, w, TesteeReads(1));
    }
  }

  /** So no run can get stuck: the two sides never both wait for bytes that are not there. */
  lemma EveryRunCanGoOn(c: Config, steps: seq<Step>)
    requires c.Valid() && RunOk(c, START, steps)
    ensures var w := Final(c, START, steps);
      && !(TesterIsReading(w.tester) && w.fromChild == [] && TesteeIsReading(w.testee) && w.toChild == [])
      && (w.tester != Fatal && |w.results| < |c.requests| ==>
            exists s :: Enabled(c, w, s) && s != TesteeCrashes && s != TesterTimesOut)
  {
    RunInv(c, START, steps);
    var w := Final(c, START, steps);
    if TesterIsReading(w.tester) && w.fromChild == [] { NeverBothBlocked(c, w); }
    if w.tester != Fatal && |w.results| < |c.requests| { AlwaysProgress(c, w); }
  }

  /** No result is a crash and the child is up whenever it has been started. */
  ghost predicate Clean(w: World) {
    && w.tester != Fatal && (w.spawned ==> w.testee != Exited)
    && forall i | 0 <= i < |w.results| :: w.results[i].Response?
  }

  lemma CleanStep(c: Config, w: World, s: Step)
    requires c.Valid() && Inv(c, w) && Clean(w) && Enabled(c, w, s) && s != TesteeCrashes && s != TesterTimesOut
    requires forall i | 0 <= i < |c.requests| :: c.serve(c.requests[i]).Some?
    ensures Clean(Next(c, w, s))
  {
    if s.TesteeReads? { ServedRequest(c, w, s.n); }
  }

  /** With a testee that answers every request and neither crashes nor times out, every result is a
      response and the tester never gives up. */
  lemma {:induction false} CleanRuns(c: Config, w: World, steps: seq<Step>)
    requires c.Valid() && Inv(c, w) && Clean(w) && RunOk(c, w, steps)
    requires forall i | 0 <= i < |c.requests| :: c.serve(c.requests[i]).Some?
    requires TesteeCrashes !in steps && TesterTimesOut !in steps
    ensures Clean(Final(c, w, steps))
    decreases |steps|
  {
    if steps != [] {
      assert steps[0] in steps;
      StepInv(c, w, steps[0]);
      CleanStep(c, w, steps[0]);
      CleanRuns(c, Next(c, w, steps[0]), steps[1..]);
    }
  }
}
