/**
 Which responses leave a connection stuck. A response that does not fit the buffer it is
 serialized into is not sent, and nothing else is submitted for its connection.
 */
module Stranding {
  import opened Bytes
  import opened ConnSpec
  import opened ConnTheorems
  import opened ConnRuns
  import opened ResponseSpec
  import opened ResponseTheorems
  import opened ReceiveSpec

  /** A completed receive: `bytes` are then in the connection's buffer, and `resp` is the answer if one is asked for. */
  function ReceiveEvent(op: Op, res: int, lim: Limits, bytes: seq<byte>, timed: bool, resp: Response): Event
  {
    Received(op, res, OutcomeOf(Decide(lim, bytes), |bytes|, timed, resp))
  }

  /**
   A completed receive leaves a live connection with nothing in flight if and only if it brings a
   complete request, the response to it takes more than 8192 bytes, and no close is pending.
   */
  lemma StrandsExactly(capacity: nat, run: seq<Event>, s: Server, op: Op, res: int,
                       lim: Limits, bytes: seq<byte>, timed: bool, resp: Response)
    requires IsRun(Start(capacity), run, s) && op in s.ops && op.Recv? && res <= op.room && LiveId(s.conns, op.id)
    requires |bytes| <= RECV_BUF_SIZE
    ensures Enabled(s, ReceiveEvent(op, res, lim, bytes, timed, resp))
    ensures
      NoneInFlight(Step(s, ReceiveEvent(op, res, lim, bytes, timed, resp)), op.id)
      <==> && res > 0 && Decide(lim, bytes).Dispatch? && |Serialized(resp)| > RESPONSE_BUFFER
           && forall o :: o in s.ops && o.id == op.id ==> !o.Close?
  {
    hide IsRun, Decide, Serialized, Step, NoneInFlight;
    OutcomeIsEnabled(s, op, res, lim, bytes, timed, resp);
    StrandsByOutcome(capacity, run, s, op, res, OutcomeOf(Decide(lim, bytes), |bytes|, timed, resp));
  }

  /** A receive whose response, if there is one, fits. */
  ghost predicate Fits(e: Event) {
    e.Received? ==> exists lim, bytes, timed, resp ::
      e.outcome == OutcomeOf(Decide(lim, bytes), |bytes|, timed, resp) && |Serialized(resp)| <= RESPONSE_BUFFER
  }

  lemma FitsIsSerializable(e: Event)
    requires Fits(e)
    ensures !(e.Received? && e.outcome.Unserializable?)
  {
    hide Decide, Serialized;
  }

  /** As long as every response fits, every live connection has something in flight, in every run. */
  lemma FittingNeverStrands(capacity: nat, run: seq<Event>, s: Server, i: nat)
    requires IsRun(Start(capacity), run, s) && i < |s.conns| && Live(s.conns[i])
    requires forall e :: e in run ==> Fits(e)
    ensures !NoneInFlight(s, s.conns[i].id)
  {
    hide IsRun, Fits, NoneInFlight;
    forall e | e in run ensures !(e.Received? && e.outcome.Unserializable?) { FitsIsSerializable(e); }
    NothingStalls(Start(capacity), run, s);
    OnlyUnserializableStrands(capacity, run, s, i);
  }

  // ---- A run that strands ----

  /** Accept one connection, receive a request, and answer it with too much. */
  lemma OversizedStrands(fd: int, lim: Limits, bytes: seq<byte>, resp: Response) returns (s: Server)
    requires 0 < |bytes| <= RECV_BUF_SIZE && Decide(lim, bytes).Dispatch? && |Serialized(resp)| > RESPONSE_BUFFER
    ensures IsRun(Start(1),
                  [Accepted(fd, false), ReceiveEvent(Recv(1, fd, RECV_BUF_SIZE), |bytes|, lim, bytes, false, resp)], s)
    ensures Stranded(s, 0, 1)
  {
    hide Decide, Serialized;
    var op := Recv(1, fd, RECV_BUF_SIZE);
    var e1, e2 := Accepted(fd, false), ReceiveEvent(op, |bytes|, lim, bytes, false, resp);
    var s1 := Step(Start(1), e1);
    OneAccepted(fd);
    OutcomeIsEnabled(s1, op, |bytes|, lim, bytes, false, resp);
    s := Step(s1, e2);
    hide Step, Enabled;
    TwoSteps(Start(1), e1, e2);
    assert IsRun(Start(1), [e1], s1) by { OneStep(Start(1), e1); }
    StrandsExactly(1, [e1], s1, op, |bytes|, lim, bytes, false, resp);
    StaysLive(fd, e2.outcome, |bytes|);
  }

  /** After the first accept: one live connection, one receive. */
  lemma OneAccepted(fd: int)
    ensures
      var s := Step(Start(1), Accepted(fd, false));
      && s.ops == multiset{Recv(1, fd, RECV_BUF_SIZE)} && |s.conns| == 1 && Live(s.conns[0]) && s.conns[0].id == 1
      && FindById(s.conns, 1) == 0 && LiveId(s.conns, 1) && Enabled(Start(1), Accepted(fd, false))
  {
    var s := Step(Start(1), Accepted(fd, false));
    assert FindFree(Start(1).conns) == 0;
    assert s.ops == multiset{Recv(1, fd, RECV_BUF_SIZE)} + multiset{};
    assert Live(s.conns[0]) && s.conns[0].id == 1;
  }

  lemma StaysLive(fd: int, outcome: Outcome, res: nat)
    requires outcome.Unserializable?
    ensures
      var s := OnReceived(Step(Start(1), Accepted(fd, false)), Recv(1, fd, RECV_BUF_SIZE), res, outcome);
      |s.conns| == 1 && Live(s.conns[0]) && s.conns[0].id == 1
  {
    OneAccepted(fd);
    hide Step;
  }

  lemma OneStep(s: Server, e: Event)
    requires Enabled(s, e)
    ensures IsRun(s, [e], Step(s, e))
  {
    hide Step, Enabled;
    assert [e][1..] == [];
    assert IsRun(Step(s, e), [], Step(s, e));
  }

  lemma TwoSteps(s: Server, e: Event, e': Event)
    requires Enabled(s, e) && Enabled(Step(s, e), e')
    ensures IsRun(s, [e, e'], Step(Step(s, e), e'))
  {
    OneStep(Step(s, e), e');
    hide Step, Enabled;
    assert [e, e'][1..] == [e'];
  }

  /** One such run: a small request, and a response with a body of 8192 bytes. */
  lemma StrandingRun(fd: int) returns (run: seq<Event>, s: Server)
    ensures |run| == 2 && IsRun(Start(1), run, s) && Stranded(s, 0, 1)
  {
    var lim, a := Limits(RECV_BUF_SIZE, 0), PrintedRequest(EXAMPLE);
    var resp := Response(200, [], seq(RESPONSE_BUFFER, _ => 65), false);
    hide Decide, Serialized, PrintedRequest, IsRun, Stranded;
    ExampleDecides(lim, []);
    assert a + [] == a;
    ResponseNonEmpty(resp);
    s := OversizedStrands(fd, lim, a, resp);
    run := [Accepted(fd, false), ReceiveEvent(Recv(1, fd, RECV_BUF_SIZE), |a|, lim, a, false, resp)];
  }
}
