/**
 The promises of the connection layer, for every run from an empty pool: bookkeeping,
 isolation from late completions, conservation of the bytes sent, and progress.
 */
module ConnRuns {
  import opened Bytes
  import opened ConnSpec
  import opened ConnTheorems

  lemma StartInv(capacity: nat)
    ensures Inv(Start(capacity))
  {
    LiveCountFree(Start(capacity).conns);
  }

  lemma {:induction false} RunKeeps(s: Server, run: seq<Event>, s': Server)
    requires Inv(s) && IsRun(s, run, s')
    ensures Inv(s')
    decreases |run|
  {
    hide Inv, Step, Enabled;
    if run != [] {
      StepKeeps(s, run[0]);
      RunKeeps(Step(s, run[0]), run[1..], s');
    }
  }

  lemma FromStart(capacity: nat, run: seq<Event>, s: Server)
    requires IsRun(Start(capacity), run, s)
    ensures Inv(s)
  {
    hide *;
    StartInv(capacity);
    RunKeeps(Start(capacity), run, s);
  }

  // ---- The pool ----

  ghost function LiveSlots(conns: seq<Conn>): set<nat> { set i: nat | i < |conns| && Live(conns[i]) }

  lemma {:induction false} LiveCountIsCardinality(conns: seq<Conn>)
    ensures LiveCount(conns) == |LiveSlots(conns)|
    decreases |conns|
  {
    if conns != [] {
      var n := |conns| - 1;
      LiveCountIsCardinality(conns[..n]);
      assert LiveSlots(conns) == LiveSlots(conns[..n]) + if Live(conns[n]) then {n as nat} else {};
    }
  }

  lemma StepSize(s: Server, e: Event)
    requires Enabled(s, e)
    ensures |Step(s, e).conns| == |s.conns|
  {
    hide OnReceived, OnSendDone, OnClosed, OnTimedOut, SameElsewhere;
    if IsCompletion(e) { CompletionOwn(s, e); }
  }

  lemma {:induction false} RunSize(s: Server, run: seq<Event>, s': Server)
    requires IsRun(s, run, s')
    ensures |s'.conns| == |s.conns|
    decreases |run|
  {
    hide Step, Enabled;
    if run != [] {
      StepSize(s, run[0]);
      RunSize(Step(s, run[0]), run[1..], s');
    }
  }

  /** In every run `active_count` is the number of slots in use, live ids are distinct and free slots are cleared. */
  lemma PoolBookkeeping(capacity: nat, run: seq<Event>, s: Server)
    requires IsRun(Start(capacity), run, s)
    ensures |s.conns| == capacity && s.activeCount == |LiveSlots(s.conns)|
    ensures forall i, j :: 0 <= i < |s.conns| && 0 <= j < |s.conns| && i != j && Live(s.conns[i]) && Live(s.conns[j])
                           ==> s.conns[i].id != s.conns[j].id
    ensures forall i :: 0 <= i < |s.conns|
                        ==> if Live(s.conns[i]) then s.conns[i].id < s.nextId else s.conns[i] == FREE_SLOT
    ensures forall i :: 0 <= i < |s.conns| ==> s.conns[i].recvLen <= RECV_BUF_SIZE
                                               && s.conns[i].sendOffset <= |s.conns[i].sendBuf|
  {
    hide ConnOk, IsRun;
    FromStart(capacity, run, s);
    RunSize(Start(capacity), run, s);
    LiveCountIsCardinality(s.conns);
    forall i, j | 0 <= i < |s.conns| && 0 <= j < |s.conns| && i != j && Live(s.conns[i]) && Live(s.conns[j])
      ensures s.conns[i].id != s.conns[j].id
    {
      assert i < j || j < i;
    }
    forall i | 0 <= i < |s.conns|
      ensures s.conns[i].recvLen <= RECV_BUF_SIZE && s.conns[i].sendOffset <= |s.conns[i].sendBuf| {
      if Live(s.conns[i]) { ConnOkBasics(s.conns[i], s.ops, s.sent, s.queued, s.stalled); }
    }
  }

  // ---- Isolation ----

  predicate IsCompletion(e: Event) { e.Received? || e.SendDone? || e.Closed? || e.TimedOut? }

  predicate LiveId(conns: seq<Conn>, id: nat) { exists i :: 0 <= i < |conns| && Live(conns[i]) && conns[i].id == id }

  /** `s'` is `s` up to the connection `id`, which slot `i` may hold. */
  ghost predicate OwnChange(s: Server, s': Server, i: nat, id: nat) {
    && SameElsewhere(s, s', id) && s'.nextId == s.nextId && |s'.conns| == |s.conns|
    && (if i < |s.conns| then s.conns[i].id == id && s'.conns == s.conns[i := s'.conns[i]]
                              && (Live(s'.conns[i]) ==> Live(s.conns[i]) && s'.conns[i].id == id)
        else s'.conns == s.conns)
  }

  lemma SendOwn(s: Server, i: nat, c: Conn, data: seq<byte>)
    requires i < |s.conns| && Live(s.conns[i]) && Live(c) && c.id == s.conns[i].id
    ensures OwnChange(s, s.(conns := s.conns[i := c], ops := s.ops + multiset{SendOp(c)},
                           queued := Append(s.queued, c.id, data)), i, c.id)
  {
  }

  lemma CloseOwn(s: Server, i: nat, c: Conn)
    requires i < |s.conns| && Live(s.conns[i]) && Live(c) && c.id == s.conns[i].id
    ensures OwnChange(s, s.(conns := s.conns[i := c], ops := s.ops + multiset{CloseOp(s.conns[i])}), i, c.id)
  {
  }

  lemma RecvOwn(s: Server, i: nat, timed: bool)
    requires i < |s.conns| && Live(s.conns[i])
    ensures OwnChange(s, ArmRecv(s, i, timed), i, s.conns[i].id)
  {
  }

  lemma StallOwn(s: Server, i: nat, c: Conn)
    requires i < |s.conns| && Live(s.conns[i]) && Live(c) && c.id == s.conns[i].id
    ensures OwnChange(s, s.(conns := s.conns[i := c], stalled := s.stalled + {c.id}), i, c.id)
    ensures OwnChange(s, s.(conns := s.conns[i := c]), i, c.id)
  {
  }

  lemma UpdateTwice(conns: seq<Conn>, i: nat, a: Conn, b: Conn)
    requires i < |conns|
    ensures conns[i := a][i := b] == conns[i := b]
  {
  }

  lemma OutcomeOwn(s: Server, i: nat, outcome: Outcome)
    requires i < |s.conns| && Live(s.conns[i])
    ensures OwnChange(s, OnOutcome(s, i, outcome), i, s.conns[i].id)
  {
    hide OwnChange, Append, ArmRecv;
    var c := s.conns[i];
    match outcome
    case WaitMore(timed) => RecvOwn(s, i, timed);
    case Refuse(response) =>
      var armed := c.(sendBuf := response, sendOffset := 0, sendActive := true);
      UpdateTwice(s.conns, i, armed, armed.(keepAlive := false));
      SendOwn(s, i, armed.(keepAlive := false), response);
      StallOwn(s, i, c.(keepAlive := false));
    case Serve(response, keepAlive, remaining) =>
      var armed := c.(sendBuf := response, sendOffset := 0, sendActive := true);
      UpdateTwice(s.conns, i, armed, armed.(keepAlive := keepAlive, recvLen := remaining));
      SendOwn(s, i, armed.(keepAlive := keepAlive, recvLen := remaining), response);
      UpdateTwice(s.conns, i, Transition(c, CLOSING), Transition(c, CLOSING).(recvLen := remaining));
      CloseOwn(s, i, Transition(c, CLOSING).(recvLen := remaining));
    case Unserializable(keepAlive, remaining) => StallOwn(s, i, c.(keepAlive := keepAlive, recvLen := remaining));
  }

  lemma SentOwn(s: Server, i: nat, res: nat, timed: bool)
    requires i < |s.conns| && Live(s.conns[i])
    ensures OwnChange(s, OnSent(s, i, res, timed), i, s.conns[i].id)
  {
  }

  lemma OwnChangeAfter(s: Server, s1: Server, s': Server, i: nat, id: nat)
    requires OwnChange(s, s1, i, id) && OwnChange(s1, s', i, id)
    ensures OwnChange(s, s', i, id)
  {
  }

  lemma ReceivedTouchesOwn(s: Server, op: Op, res: int, outcome: Outcome)
    requires op in s.ops
    ensures OwnChange(s, OnReceived(s, op, res, outcome), FindById(s.conns, op.id), op.id)
  {
    hide OnOutcome;
    var i := FindById(s.conns, op.id);
    if i < |s.conns| && res > 0 {
      var s1 := s.(ops := s.ops - multiset{op},
          conns := s.conns[i := s.conns[i].(recvLen := s.conns[i].recvLen + res)]);
      OutcomeOwn(s1, i, outcome);
      OwnChangeAfter(s, s1, OnOutcome(s1, i, outcome), i, op.id);
    }
  }

  lemma SendDoneTouchesOwn(s: Server, op: Op, res: int, timed: bool)
    requires op in s.ops && op.Send? && res <= |op.data|
    ensures OwnChange(s, OnSendDone(s, op, res, timed), FindById(s.conns, op.id), op.id)
  {
    hide OnSent, Taken;
    var i := FindById(s.conns, op.id);
    if i < |s.conns| && res >= 0 {
      var s1 := s.(ops := s.ops - multiset{op}, sent := Append(s.sent, op.id, Taken(op, res)),
                   conns := s.conns[i := s.conns[i].(sendActive := false)]);
      SentOwn(s1, i, res, timed);
      OwnChangeAfter(s, s1, OnSent(s1, i, res, timed), i, op.id);
    }
  }

  lemma ClosedTouchesOwn(s: Server, op: Op)
    ensures OwnChange(s, OnClosed(s, op), FindById(s.conns, op.id), op.id)
  {
  }

  lemma TimedOutTouchesOwn(s: Server, op: Op, fired: bool)
    ensures OwnChange(s, OnTimedOut(s, op, fired), FindById(s.conns, op.id), op.id)
  {
  }

  lemma CompletionOwn(s: Server, e: Event)
    requires Enabled(s, e) && IsCompletion(e)
    ensures OwnChange(s, Step(s, e), FindById(s.conns, e.op.id), e.op.id)
  {
    hide OwnChange, OnReceived, OnSendDone, OnClosed, OnTimedOut;
    match e
    case Received(op, res, outcome) => ReceivedTouchesOwn(s, op, res, outcome);
    case SendDone(op, res, timed) => SendDoneTouchesOwn(s, op, res, timed);
    case Closed(op) => ClosedTouchesOwn(s, op);
    case TimedOut(op, fired) => TimedOutTouchesOwn(s, op, fired);
  }

  /** A completion touches the live connection it names and nothing else. */
  lemma CompletionTouchesOwn(s: Server, e: Event)
    requires Enabled(s, e) && IsCompletion(e)
    ensures SameElsewhere(s, Step(s, e), e.op.id) && Step(s, e).nextId == s.nextId && |Step(s, e).conns| == |s.conns|
    ensures forall j :: 0 <= j < |s.conns| && !(Live(s.conns[j]) && s.conns[j].id == e.op.id)
                        ==> Step(s, e).conns[j] == s.conns[j]
    ensures forall j :: 0 <= j < |s.conns| && Live(Step(s, e).conns[j]) ==> Live(s.conns[j])
                                                                            && Step(s, e).conns[j].id == s.conns[j].id
  {
    CompletionOwn(s, e);
    hide Step, Enabled, SameElsewhere;
  }

  /** An id that has been issued and is no longer live is never live again. */
  lemma DeadStep(s: Server, e: Event, id: nat)
    requires Enabled(s, e) && id < s.nextId && !LiveId(s.conns, id)
    ensures id < Step(s, e).nextId && !LiveId(Step(s, e).conns, id)
  {
    if IsCompletion(e) {
      hide Step, Enabled, SameElsewhere;
      CompletionTouchesOwn(s, e);
    }
  }

  lemma {:induction false} DeadForever(s: Server, run: seq<Event>, s': Server, id: nat)
    requires IsRun(s, run, s') && id < s.nextId && !LiveId(s.conns, id)
    ensures id < s'.nextId && !LiveId(s'.conns, id)
    decreases |run|
  {
    hide Step, Enabled, LiveId;
    if run != [] {
      DeadStep(s, run[0], id);
      DeadForever(Step(s, run[0]), run[1..], s', id);
    }
  }

  /**
   A completion that arrives for a connection after it was freed, however many runs of accepts
   later and however often it was closed, leaves the whole pool as it is: the connection that
   now has its slot is not affected.
   */
  lemma LateCompletionIsolated(s: Server, run: seq<Event>, s': Server, e: Event)
    requires IsRun(s, run, s') && Enabled(s', e) && IsCompletion(e)
    requires e.op.id < s.nextId && !LiveId(s.conns, e.op.id)
    ensures Step(s', e).conns == s'.conns && Step(s', e).activeCount == s'.activeCount
    ensures Step(s', e).queued == s'.queued && Step(s', e).ops == s'.ops - multiset{e.op}
  {
    hide IsRun, Taken;
    DeadForever(s, run, s', e.op.id);
    assert FindById(s'.conns, e.op.id) == |s'.conns|;
  }

  // ---- Sending ----

  /**
   When a receive completes on a live connection no send is in flight, so handing over a response is never
   refused.
   */
  lemma ReceiveNeverBusy(capacity: nat, run: seq<Event>, s: Server, op: Op, i: nat)
    requires IsRun(Start(capacity), run, s) && op in s.ops && op.Recv?
    requires i < |s.conns| && Live(s.conns[i]) && s.conns[i].id == op.id
    ensures !s.conns[i].sendActive && op == RecvOp(s.conns[i]) && s.ops[op] == 1
    ensures forall o :: o in s.ops && o.id == op.id ==> !o.Send?
  {
    hide IsRun;
    FromStart(capacity, run, s);
    assert ConnOk(s.conns[i], s.ops, s.sent, s.queued, s.stalled);
  }

  /**
   At most one send is in flight for a live connection, `send_active` says exactly whether, it
   carries exactly the bytes not yet taken, and the bytes taken are those queued, in order.
   */
  lemma SendConservation(capacity: nat, run: seq<Event>, s: Server, i: nat)
    requires IsRun(Start(capacity), run, s) && i < |s.conns| && Live(s.conns[i])
    ensures
      var c := s.conns[i];
      && (c.sendActive <==> exists op :: op in s.ops && op.id == c.id && op.Send?)
      && (forall op :: op in s.ops && op.id == c.id && op.Send? ==> op == SendOp(c) && s.ops[op] == 1)
      && c.id in s.sent && c.id in s.queued && c.sendOffset <= |c.sendBuf|
      && (c.sendActive ==> s.queued[c.id] == s.sent[c.id] + c.sendBuf[c.sendOffset..])
      && (!c.sendActive && c.state != CLOSING ==> s.queued[c.id] == s.sent[c.id])
  {
    hide IsRun;
    FromStart(capacity, run, s);
    var c := s.conns[i];
    assert ConnOk(c, s.ops, s.sent, s.queued, s.stalled);
    assert c.sendActive ==> SendOp(c) in s.ops;
  }

  /** Of every connection ever accepted, live or gone, the kernel has taken a prefix of what was queued. */
  lemma SentIsPrefixOfQueued(capacity: nat, run: seq<Event>, s: Server, id: nat)
    requires IsRun(Start(capacity), run, s) && 0 < id < s.nextId
    ensures id in s.sent && id in s.queued && s.sent[id] <= s.queued[id]
    ensures forall op :: op in s.ops && op.id == id && op.Send? ==> s.ops[op] == 1
                                                                    && s.queued[id] == s.sent[id] + op.data
  {
    hide IsRun;
    FromStart(capacity, run, s);
    assert LogOk(id, s.ops, s.sent, s.queued);
  }

  /** A send that completes without error either submits another one, or it was the last. */
  lemma SentContinues(s: Server, i: nat, res: nat, timed: bool)
    requires i < |s.conns| && s.conns[i].sendOffset + res <= |s.conns[i].sendBuf| && !s.conns[i].sendActive
    ensures
      var s' := OnSent(s, i, res, timed);
      && |s'.conns| == |s.conns| && s'.sent == s.sent && s'.queued == s.queued
      && (s'.conns[i].sendActive <==> s.conns[i].sendOffset + res < |s.conns[i].sendBuf|)
      && (s'.conns[i].sendActive ==> s'.ops == s.ops + multiset{SendOp(s'.conns[i])})
  {
  }

  /**
   Keep-alive and close wait for the last byte: a send that completes without error is followed by another, or
   everything queued has been taken.
   */
  lemma AllSentBeforeMovingOn(capacity: nat, run: seq<Event>, s: Server, op: Op, res: nat, timed: bool)
    requires IsRun(Start(capacity), run, s) && Enabled(s, SendDone(op, res, timed)) && LiveId(s.conns, op.id)
    ensures
      var s' := OnSendDone(s, op, res, timed);
      var i := FindById(s.conns, op.id);
      && i < |s.conns| == |s'.conns|
      && if s'.conns[i].sendActive then s'.ops == s.ops - multiset{op} + multiset{SendOp(s'.conns[i])}
         else op.id in s'.sent && op.id in s'.queued && s'.sent[op.id] == s'.queued[op.id]
  {
    hide IsRun, OnSent;
    FromStart(capacity, run, s);
    var i := FindById(s.conns, op.id);
    var c := s.conns[i];
    assert ConnOk(c, s.ops, s.sent, s.queued, s.stalled);
    hide ConnOk, Inv;
    SendCompletes(c, op, s.ops, s.sent, s.queued, s.stalled);
    hide Idle;
    ConnOkBasics(c, s.ops, s.sent, s.queued, s.stalled);
    SendTaken(c, op, res, s.sent);
    var sent := Append(s.sent, op.id, Taken(op, res));
    hide Taken, SendOp, Append;
    var s1 := s.(ops := s.ops - multiset{op}, sent := sent, conns := s.conns[i := c.(sendActive := false)]);
    SentContinues(s1, i, res, timed);
    if c.sendOffset + res == |c.sendBuf| {
      assert c.sendBuf[c.sendOffset + res..] == [];
      assert sent[c.id] + [] == sent[c.id];
    }
  }

  /**
   A completed send shortens a connection's receive buffer if and only if it takes the last byte of a
   response, the connection is kept alive, and bytes stand behind the request: all of them are forgotten.
   */
  lemma KeepAliveForgets(capacity: nat, run: seq<Event>, s: Server, op: Op, res: int, timed: bool)
    requires IsRun(Start(capacity), run, s) && Enabled(s, SendDone(op, res, timed)) && LiveId(s.conns, op.id)
    ensures
      var s', i := OnSendDone(s, op, res, timed), FindById(s.conns, op.id);
      && i < |s.conns| == |s'.conns|
      && var c, c' := s.conns[i], s'.conns[i];
         var reused := res == |op.data| && c.keepAlive && c.state == HTTP_ACTIVE;
         && c'.recvLen == (if reused then 0 else c.recvLen)
         && (reused ==> Recv(op.id, c.fd, RECV_BUF_SIZE) in s'.ops)
         && (c'.recvLen < c.recvLen <==> reused && c.recvLen > 0)
  {
    hide IsRun, Taken, Append;
    FromStart(capacity, run, s);
    var i := FindById(s.conns, op.id);
    var c := s.conns[i];
    assert ConnOk(c, s.ops, s.sent, s.queued, s.stalled);
    hide Inv;
    SendCompletes(c, op, s.ops, s.sent, s.queued, s.stalled);
    ConnOkBasics(c, s.ops, s.sent, s.queued, s.stalled);
    hide ConnOk, Idle;
    SendIsRest(c, op);
    var s1 := s.(ops := s.ops - multiset{op}, sent := Append(s.sent, op.id, Taken(op, res)),
                 conns := s.conns[i := c.(sendActive := false)]);
    if res >= 0 {
      SentForgets(s1, i, res, timed);
    } else {
      CloseKeepsBuffer(s1, i);
    }
    hide OnSent, ArmClose, SendOp;
  }

  lemma SendIsRest(c: Conn, op: Op)
    requires op == SendOp(c) && c.sendOffset <= |c.sendBuf|
    ensures op.Send? && op.id == c.id && |op.data| == |c.sendBuf| - c.sendOffset
  {
  }

  lemma CloseKeepsBuffer(s: Server, i: nat)
    requires i < |s.conns|
    ensures |ArmClose(s, i).conns| == |s.conns| && ArmClose(s, i).conns[i].recvLen == s.conns[i].recvLen
  {
  }

  lemma SentForgets(s: Server, i: nat, res: nat, timed: bool)
    requires i < |s.conns|
    ensures
      var s', c := OnSent(s, i, res, timed), s.conns[i];
      var reused := c.sendOffset + res >= |c.sendBuf| && c.keepAlive && c.state == HTTP_ACTIVE;
      && |s'.conns| == |s.conns|
      && s'.conns[i].recvLen == (if reused then 0 else c.recvLen)
      && (reused ==> Recv(c.id, c.fd, RECV_BUF_SIZE) in s'.ops)
  {
  }

  // ---- Progress ----

  /** Nothing that could move the connection on is in flight for it. */
  ghost predicate NoneInFlight(s: Server, id: nat) {
    forall op :: op in s.ops && op.id == id ==> op.Timeout?
  }

  /** Only a response that could not be serialized leaves a connection with nothing in flight. */
  lemma OnlyUnserializableStrands(capacity: nat, run: seq<Event>, s: Server, i: nat)
    requires IsRun(Start(capacity), run, s) && i < |s.conns| && Live(s.conns[i])
    ensures NoneInFlight(s, s.conns[i].id) ==> s.conns[i].id in s.stalled
  {
    hide IsRun;
    FromStart(capacity, run, s);
    var c := s.conns[i];
    assert ConnOk(c, s.ops, s.sent, s.queued, s.stalled);
    assert !(RecvOp(c).Timeout? || SendOp(c).Timeout? || CloseOp(c).Timeout?);
  }

  /** It does so exactly then: after a receive, on a connection that is not already being closed. */
  lemma StrandsByOutcome(capacity: nat, run: seq<Event>, s: Server, op: Op, res: int, outcome: Outcome)
    requires IsRun(Start(capacity), run, s) && Enabled(s, Received(op, res, outcome)) && LiveId(s.conns, op.id)
    ensures NoneInFlight(Step(s, Received(op, res, outcome)), op.id)
            <==> res > 0 && outcome.Unserializable? && forall o :: o in s.ops && o.id == op.id ==> !o.Close?
  {
    hide IsRun;
    FromStart(capacity, run, s);
    var i := FindById(s.conns, op.id);
    var c := s.conns[i];
    assert ConnOk(c, s.ops, s.sent, s.queued, s.stalled);
    hide ConnOk, Inv;
    RecvCompletes(c, op, s.ops, s.sent, s.queued, s.stalled);
    hide Sound;
    ReceivedOps(s, op, res, outcome, i);
  }

  lemma ReceivedOps(s: Server, op: Op, res: int, outcome: Outcome, i: nat)
    requires Enabled(s, Received(op, res, outcome)) && i == FindById(s.conns, op.id) < |s.conns|
    requires !s.conns[i].sendActive && Idle(s.conns[i], s.ops - multiset{op})
    ensures NoneInFlight(OnReceived(s, op, res, outcome), op.id)
            <==> res > 0 && outcome.Unserializable? && forall o :: o in s.ops && o.id == op.id ==> !o.Close?
  {
    hide OnOutcome, NoneInFlight;
    var s1 := s.(ops := s.ops - multiset{op});
    if res <= 0 {
      Armed(s1, ArmClose(s1, i), CloseOp(s.conns[i]));
    } else {
      var s2 := s1.(conns := s1.conns[i := s.conns[i].(recvLen := s.conns[i].recvLen + res)]);
      OutcomeOps(s2, outcome, i);
      SameOps(s1, s2, op.id);
      IdleMeans(s, op, s2.conns[i]);
    }
  }

  lemma SameOps(s: Server, s': Server, id: nat)
    requires s.ops == s'.ops
    ensures NoneInFlight(s, id) <==> NoneInFlight(s', id)
  {
  }

  /** Without such a response, nothing is ever recorded as stalled. */
  lemma {:induction false} NothingStalls(s: Server, run: seq<Event>, s': Server)
    requires IsRun(s, run, s') && s.stalled == {} && forall e :: e in run
                                                                 ==> !(e.Received? && e.outcome.Unserializable?)
    ensures s'.stalled == {}
    decreases |run|
  {
    hide Step, Enabled;
    if run != [] {
      StepStalls(s, run[0]);
      NothingStalls(Step(s, run[0]), run[1..], s');
    }
  }

  lemma StepStalls(s: Server, e: Event)
    requires Enabled(s, e) && !(e.Received? && e.outcome.Unserializable?)
    ensures Step(s, e).stalled == s.stalled
  {
    hide Taken, Append;
  }

  /** Submitting anything but a timeout leaves something in flight. */
  lemma Armed(s: Server, s': Server, o: Op)
    requires o in s'.ops && !o.Timeout?
    ensures !NoneInFlight(s', o.id)
  {
  }

  lemma OutcomeOps(s: Server, outcome: Outcome, i: nat)
    requires i < |s.conns| && !s.conns[i].sendActive
    ensures NoneInFlight(OnOutcome(s, i, outcome), s.conns[i].id) <==> outcome.Unserializable?
                                                                       && NoneInFlight(s, s.conns[i].id)
  {
    var c, s' := s.conns[i], OnOutcome(s, i, outcome);
    match outcome
    case WaitMore(timed) => assert RecvOp(c) in s'.ops;
    case Refuse(response) => assert SendOp(c.(sendBuf := response, sendOffset := 0)) in s'.ops;
    case Serve(response, _, _) => assert SendOp(c.(sendBuf := response, sendOffset := 0)) in s'.ops;
    case Unserializable(_, _) =>
  }

  lemma IdleMeans(s: Server, op: Op, c: Conn)
    requires op in s.ops && op.Recv? && c.id == op.id && Idle(c, s.ops - multiset{op})
    ensures NoneInFlight(s.(ops := s.ops - multiset{op}), op.id) <==> forall o :: o in s.ops && o.id == op.id
                                                                                  ==> !o.Close?
  {
    var ops' := s.ops - multiset{op};
    forall o | o in s.ops && o != op ensures o in ops' { assert ops'[o] == s.ops[o]; }
    forall o | o in ops' ensures o in s.ops { assert ops'[o] <= s.ops[o]; }
  }

  /** And it is then stuck: until shutdown no completion, accept or drain frees the slot or submits anything for it. */
  ghost predicate Stranded(s: Server, i: nat, id: nat) {
    i < |s.conns| && Live(s.conns[i]) && s.conns[i].id == id && NoneInFlight(s, id)
  }

  lemma StrandedAccept(s: Server, fd: int, timed: bool, i: nat, id: nat)
    requires Stranded(s, i, id) && id < s.nextId
    ensures Stranded(OnAccept(s, fd, timed), i, id)
  {
  }

  lemma StrandedCompletion(s: Server, e: Event, i: nat, id: nat)
    requires Stranded(s, i, id) && Enabled(s, e) && IsCompletion(e) && e.op.id != id
    ensures Stranded(Step(s, e), i, id)
  {
    CompletionTouchesOwn(s, e);
    hide Step, Enabled;
    forall o | o in Step(s, e).ops && o.id == id ensures o in s.ops { assert Step(s, e).ops[o] == s.ops[o]; }
  }

  predicate Frees(e: Event, id: nat) { e.Shutdown? || (e.TimedOut? && e.fired && e.op.id == id) }

  lemma StrandedStep(s: Server, e: Event, i: nat, id: nat)
    requires Stranded(s, i, id) && id < s.nextId && Enabled(s, e) && !Frees(e, id)
    ensures Stranded(Step(s, e), i, id)
  {
    hide OnReceived, OnSendDone, OnClosed, OnAccept;
    if IsCompletion(e) && e.op.id != id {
      StrandedCompletion(s, e, i, id);
    } else if e.Accepted? {
      StrandedAccept(s, e.fd, e.timed, i, id);
    }
  }

  lemma {:induction false} StrandedUntilShutdown(s: Server, run: seq<Event>, s': Server, i: nat, id: nat)
    requires Inv(s) && IsRun(s, run, s') && Stranded(s, i, id) && forall e :: e in run ==> !Frees(e, id)
    ensures Stranded(s', i, id)
    decreases |run|
  {
    hide Step, Enabled, ConnOk, LogOk;
    if run != [] {
      StrandedStep(s, run[0], i, id);
      StepKeeps(s, run[0]);
      hide Inv, Stranded;
      StrandedUntilShutdown(Step(s, run[0]), run[1..], s', i, id);
    }
  }
}
