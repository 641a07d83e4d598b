/** The two ends of the pipe as the sources write them: the tester's TryRead and RunTest
    (conformance/fork_pipe_runner.cc) and the testee's ServeConformanceRequest
    (conformance/conformance_cpp.cc).  Here the testee runs while the tester waits; module
    PipeProtocol covers every other interleaving. */
module ForkPipeRunner {
  import opened Arithmetic
  import opened Options
  import opened Varints
  import opened WireFormat
  import opened PipeProtocol

  /** How many bytes each read(2) call delivers, as far as it can. */
  type Chunks = nat -> nat

  /** Which read(2) calls of the tester are not answered in time. */
  type Delays = nat -> bool

  ghost predicate Punctual(late: Delays) {
    forall round :: !late(round)
  }

  const DRAIN_LIMIT := 5000

  /** `after` is what is left of `before` when at most `most` bytes are taken, and fewer than `least`
      only if there are no more. */
  ghost predicate Drained(before: seq<Byte>, after: seq<Byte>, least: nat, most: nat) {
    exists k | 0 <= k <= most && k <= |before| :: after == before[k..] && (k < least ==> after == [])
  }

  lemma DrainedAfter(before: seq<Byte>, n: nat, between: seq<Byte>, after: seq<Byte>, limit: nat)
    requires n <= |before| && between == before[n..] && Drained(between, after, limit, limit)
    ensures Drained(before, after, limit, limit + n)
  {
    var k :| 0 <= k <= limit && k <= |between| && after == between[k..] && (k < limit ==> after == []);
    assert after == before[n + k..];
  }

  class Pipe {
    var bytes: seq<Byte>

    constructor ()
      ensures bytes == []
    {
      bytes := [];
    }

    /** read(2): some of the bytes there, none at end of file. */
    method Read(want: nat, pick: nat) returns (got: seq<Byte>)
      requires want > 0
      modifies this
      ensures |got| <= want && got + bytes == old(bytes)
      ensures got == [] <==> old(bytes) == []
    {
      var most := if want < |bytes| then want else |bytes|;
      var n := if pick > most then most else if pick == 0 && most > 0 then 1 else pick;
      got := bytes[..n];
      bytes := bytes[n..];
    }

    /** ReadFd: however the bytes are delivered, it ends with the first `size` of them, or with false
        when the stream is shorter. */
    method ReadFd(size: nat, chunks: Chunks) returns (ok: bool, buf: seq<Byte>)
      modifies this
      ensures ok <==> size <= |old(bytes)|
      ensures ok ==> buf == old(bytes)[..size] && bytes == old(bytes)[size..]
      ensures !ok ==> bytes == []
    {
      var len, round := size, 0;
      buf := [];
      while len > 0
        invariant 0 <= len && |buf| + len == size
        invariant buf + bytes == old(bytes)
      {
        var got := Read(len, chunks(round));
        if got == [] {
          return false, buf;
        }
        buf := buf + got;
        len := len - |got|;
        round := round + 1;
      }
      assert old(bytes)[..size] == buf && old(bytes)[size..] == bytes;
      return true, buf;
    }

    /** TryRead: the same loop, given up when a read takes too long.  Some of what the child still has to
        say is then drained, and the late read, which is waited for, takes its share.  With no late
        read it is ReadFd. */
    method TryRead(size: nat, chunks: Chunks, late: Delays) returns (ok: bool, buf: seq<Byte>)
      modifies this
      ensures ok ==> size <= |old(bytes)| && buf == old(bytes)[..size] && bytes == old(bytes)[size..]
      ensures !ok ==> size > |old(bytes)| || !Punctual(late)
      ensures !ok ==> |buf| < size && buf <= old(bytes)
      ensures !ok ==> Drained(old(bytes)[|buf|..], bytes, 5000, 5000 + size - |buf|)
    {
      var len, round := size, 0;
      buf := [];
      while len > 0
        invariant 0 <= len && |buf| + len == size
        invariant buf + bytes == old(bytes)
      {
        assert old(bytes)[|buf|..] == bytes;
        ghost var before := bytes;
        var got := Read(len, chunks(round));
        if late(round) {
          ghost var between := bytes;
          Drain(DRAIN_LIMIT, chunks);
          DrainedAfter(before, |got|, between, bytes, DRAIN_LIMIT);
          return false, buf;
        }
        if got == [] {
          assert bytes[0..] == [] && old(bytes)[|buf|..][0..] == [];
          return false, buf;
        }
        buf := buf + got;
        len := len - |got|;
        round := round + 1;
      }
      assert old(bytes)[..size] == buf && old(bytes)[size..] == bytes;
      return true, buf;
    }

    /** The last words of a child that was killed: reads until end of file or a full buffer. */
    method Drain(limit: nat, chunks: Chunks)
      modifies this
      ensures Drained(old(bytes), bytes, limit, limit)
    {
      var ofs, round := 0, 0;
      while ofs < limit
        invariant 0 <= ofs <= limit && ofs <= |old(bytes)| && bytes == old(bytes)[ofs..]
      {
        var got := Read(limit - ofs, chunks(round));
        assert |got| + |bytes| == |old(bytes)| - ofs;
        if got == [] {
          return;
        }
        ofs := ofs + |got|;
        round := round + 1;
      }
    }

    /** write(2) of a whole buffer */
    method Write(data: seq<Byte>)
      modifies this
      ensures bytes == old(bytes) + data
    {
      bytes := bytes + data;
    }
  }

  datatype ServeStatus = Finished | Served | Failed

  /** Harness::ServeConformanceRequest: one frame in, one frame out. */
  method ServeConformanceRequest(input: Pipe, output: Pipe, serve: Service, chunks: Chunks)
      returns (status: ServeStatus)
    requires input != output
    modifies input, output
    ensures |old(input.bytes)| < 4 ==> status == Finished && output.bytes == old(output.bytes)
    ensures forall request, rest | |request| < TWO_32 && old(input.bytes) == Frame(request) + rest ::
      && input.bytes == rest
      && match serve(request)
         case Some(resp) => status == Served && output.bytes == old(output.bytes) + Frame(resp)
         case None => status == Failed && output.bytes == old(output.bytes)
  {
    ghost var all := input.bytes;
    forall request, rest | |request| < TWO_32 && all == Frame(request) + rest ensures |all| >= 4 {
      HeaderReads(|request|);
    }
    var ok, header := input.ReadFd(4, chunks);
    if !ok {
      return Finished;
    }
    var inLen := ReadLittleEndian(header);
    var body;
    ok, body := input.ReadFd(inLen, chunks);
    forall request, rest | |request| < TWO_32 && all == Frame(request) + rest
      ensures ok && body == request && input.bytes == rest
    {
      FrameSplits(request, rest);
    }
    if !ok {
      return Failed;
    }
    var response := serve(body);
    match response
    case None =>
      status := Failed;
    case Some(resp) =>
      output.Write(Header(|resp|));
      output.Write(resp);
      assert old(output.bytes) + Header(|resp|) + resp == old(output.bytes) + Frame(resp);
      status := Served;
  }

  lemma FrameSplits(request: seq<Byte>, rest: seq<Byte>)
    requires |request| < TWO_32
    ensures var all := Frame(request) + rest;
      |all| >= 4 + |request| && ReadLittleEndian(all[..4]) == |request|
      && all[4..][..|request|] == request && all[4..][|request|..] == rest
  {
    HeaderReads(|request|);
    var all := Frame(request) + rest;
    assert all == Header(|request|) + (request + rest);
    assert all[..4] == Header(|request|) && all[4..] == request + rest;
  }

  /** What a test comes to: a response, a crash report after the child has been reaped, or the end of
      the tester. */
  datatype TestOutcome = Replied(bytes: seq<Byte>) | Reaped | GaveUp

  /** What the child writes before it dies, when it dies after n bytes of its reply. */
  function Cut(reply: seq<Byte>, death: Option<nat>): seq<Byte> {
    if death.Some? && death.value < |reply| then reply[..death.value] else reply
  }

  /** The outcome of a test whose reads are all answered in time, by where the reply breaks off. */
  function Expected(answer: Option<seq<Byte>>, death: Option<nat>): TestOutcome {
    match answer
    case None => Reaped
    case Some(resp) =>
      if death == None || death.value >= 4 + |resp| then Replied(resp)
      else if death.value < 4 then Reaped
      else GaveUp
  }

  class Runner {
    var childPid: int
    var childLives: bool
    var toChild: Pipe
    var fromChild: Pipe

    constructor ()
      ensures childPid < 0 && fresh(toChild) && fresh(fromChild)
    {
      childPid, childLives := -1, false;
      toChild := new Pipe();
      fromChild := new Pipe();
    }

    /** Between tests a running child has empty pipes. */
    ghost predicate Quiet()
      reads this, toChild, fromChild
    {
      toChild != fromChild && (childPid >= 0 ==> toChild.bytes == [] && fromChild.bytes == [])
    }

    /** SpawnTestProgram: new pipes for a new child. */
    method SpawnTestProgram(pid: nat)
      modifies this
      ensures childPid == pid && childLives && toChild != fromChild && fresh(toChild) && fresh(fromChild)
      ensures toChild.bytes == [] && fromChild.bytes == []
    {
      toChild := new Pipe();
      fromChild := new Pipe();
      childPid, childLives := pid, true;
    }

    /** The child's side of one test: it serves the request and may die with part of its reply
        written. */
    method ChildRuns(ghost request: seq<Byte>, serve: Service, chunks: Chunks, death: Option<nat>)
      requires toChild != fromChild && fromChild.bytes == []
      requires |request| < TWO_32 && toChild.bytes == Frame(request)
      modifies this`childLives, toChild, fromChild
      ensures toChild.bytes == []
      ensures fromChild.bytes == match serve(request) case Some(resp) => Cut(Frame(resp), death) case None => []
      ensures childLives ==> old(childLives) && death == None && serve(request).Some?
      ensures death == None && serve(request).Some? ==> childLives == old(childLives)
    {
      assert toChild.bytes == Frame(request) + [];
      var out := new Pipe();
      var status := ServeConformanceRequest(toChild, out, serve, chunks);
      assert status == Served ==> out.bytes == [] + Frame(serve(request).value) == Frame(serve(request).value);
      if status != Served || death.Some? {
        childLives := false;
      }
      fromChild.Write(Cut(out.bytes, death));
      assert fromChild.bytes == [] + Cut(out.bytes, death);
    }

    /** RunTest.  A response is always the testee's answer; a child that is gone from an earlier test
        ends the tester; otherwise, with every read answered in time, the outcome is the expected one. */
    method RunTest(request: seq<Byte>, serve: Service, pid: nat, chunks: Chunks, late: Delays, death: Option<nat>)
        returns (outcome: TestOutcome)
      requires Quiet() && |request| < TWO_32 && (serve(request).Some? ==> |serve(request).value| < TWO_32)
      modifies this, toChild, fromChild
      ensures outcome != GaveUp ==> Quiet()
      ensures outcome.Replied? ==> serve(request) == Some(outcome.bytes) && childPid >= 0
      ensures outcome == Reaped ==> childPid < 0
      ensures old(childPid) >= 0 && !old(childLives) ==> outcome == GaveUp
      ensures (old(childPid) < 0 || old(childLives)) && Punctual(late) ==> outcome == Expected(serve(request), death)
      ensures old(childPid) >= 0 ==> toChild == old(toChild) && fromChild == old(fromChild)
      ensures old(childPid) < 0 ==> fresh(toChild) && fresh(fromChild)
    {
      if childPid < 0 {
        SpawnTestProgram(pid);
      }
      if !childLives {
        return GaveUp;
      }
      toChild.Write(Header(|request|));
      toChild.Write(request);
      assert toChild.bytes == Frame(request);
      ChildRuns(request, serve, chunks, death);
      ghost var reply := fromChild.bytes;
      ReplyReads(serve(request), death, reply);
      var ok, header := fromChild.TryRead(4, chunks, late);
      if !ok {
        childPid, childLives := -1, false;
        return Reaped;
      }
      var len := ReadLittleEndian(header);
      var body;
      ok, body := fromChild.TryRead(len, chunks, (round: nat) => late(round + 4));
      outcome := if ok then Replied(body) else GaveUp;
    }
  }

  /** What can be read from a reply that may break off. */
  lemma ReplyReads(answer: Option<seq<Byte>>, death: Option<nat>, reply: seq<Byte>)
    requires answer.Some? ==> |answer.value| < TWO_32
    requires reply == match answer case Some(resp) => Cut(Frame(resp), death) case None => []
    ensures |reply| < 4 <==> Expected(answer, death) == Reaped
    ensures |reply| >= 4 ==> answer.Some? && ReadLittleEndian(reply[..4]) == |answer.value|
    ensures |reply| >= 4 && |reply[4..]| >= |answer.value| ==>
      Expected(answer, death) == Replied(answer.value)
      && reply[4..][..|answer.value|] == answer.value && reply[4..][|answer.value|..] == []
    ensures |reply| >= 4 && |reply[4..]| < |answer.value| ==> Expected(answer, death) == GaveUp
  {
    if answer.Some? {
      var resp := answer.value;
      HeaderReads(|resp|);
      if |reply| >= 4 {
        HeaderOfPrefix(resp, reply);
        assert |reply[4..]| >= |resp| ==> reply[4..] == resp;
      }
    }
  }
}
