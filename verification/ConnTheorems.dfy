/**
 What holds in every run of accepts, completions, closes, drains and shutdowns: the pool's
 bookkeeping, the isolation of connections from late completions, conservation of the bytes
 sent, and which connections can get stuck.
 */
module ConnTheorems {
  import opened Bytes
  import opened ConnSpec

  predicate Live(c: Conn) { c.state != FREE }

  /** A live connection against the operations in flight and the logs. */
  ghost predicate ConnOk(c: Conn, ops: multiset<Op>, sent: map<nat, seq<byte>>, queued: map<nat, seq<byte>>,
                         stalled: set<nat>) {
    && (c.state == HTTP_ACTIVE || c.state == DRAINING || c.state == CLOSING)
    && c.recvLen <= RECV_BUF_SIZE && c.sendOffset <= |c.sendBuf|
    // every operation tagged with this connection is the one its fields describe
    && (forall op :: op in ops && op.id == c.id && op.Recv? ==> op == RecvOp(c))
    && (forall op :: op in ops && op.id == c.id && op.Send? ==> c.sendActive && op == SendOp(c))
    && (forall op :: op in ops && op.id == c.id && op.Close? ==> op == CloseOp(c))
    // one receive or one send, and `sendActive` says which
    && ops[RecvOp(c)] + ops[SendOp(c)] <= 1
    && (c.sendActive ==> ops[SendOp(c)] == 1)
    && (c.state == CLOSING ==> CloseOp(c) in ops)
    // nothing lost, repeated or reordered
    && c.id in sent && c.id in queued && sent[c.id] <= queued[c.id]
    && (c.sendActive ==> queued[c.id] == sent[c.id] + c.sendBuf[c.sendOffset..])
    && (!c.sendActive && (c.state != CLOSING || RecvOp(c) in ops) ==> queued[c.id] == sent[c.id])
    // something is still to happen
    && (c.id in stalled || CloseOp(c) in ops || ops[RecvOp(c)] + ops[SendOp(c)] == 1)
  }

  ghost predicate DistinctIds(conns: seq<Conn>) {
    forall i, j :: 0 <= i < j < |conns| && Live(conns[i]) && Live(conns[j]) ==> conns[i].id != conns[j].id
  }

  ghost predicate IdsIssued(s: Server) {
    && 0 < s.nextId
    && (forall i :: 0 <= i < |s.conns| && Live(s.conns[i]) ==> 0 < s.conns[i].id < s.nextId)
    && (forall op :: op in s.ops ==> 0 < op.id < s.nextId)
  }

  ghost predicate ConnsOk(s: Server) {
    forall i :: 0 <= i < |s.conns| && Live(s.conns[i]) ==> ConnOk(s.conns[i], s.ops, s.sent, s.queued, s.stalled)
  }

  /** The logs of connection `id`, live or gone: its one send, if any, carries exactly what is missing. */
  ghost predicate LogOk(id: nat, ops: multiset<Op>, sent: map<nat, seq<byte>>, queued: map<nat, seq<byte>>) {
    && id in sent && id in queued && sent[id] <= queued[id]
    && (forall op :: op in ops && op.id == id && op.Send? ==> ops[op] == 1 && queued[id] == sent[id] + op.data)
    && (forall op, op' :: op in ops && op' in ops && op.id == id == op'.id && op.Send? && op'.Send? ==> op == op')
  }

  ghost predicate LogsOk(s: Server) {
    forall id :: 0 < id < s.nextId ==> LogOk(id, s.ops, s.sent, s.queued)
  }

  ghost predicate Inv(s: Server) {
    && s.activeCount == LiveCount(s.conns)
    && DistinctIds(s.conns) && IdsIssued(s) && ConnsOk(s) && LogsOk(s)
    && (forall i :: 0 <= i < |s.conns| && !Live(s.conns[i]) ==> s.conns[i] == FREE_SLOT)
  }

  // ---- Counting ----

  lemma {:induction false} LiveCountUpdate(conns: seq<Conn>, i: nat, c: Conn)
    requires i < |conns|
    ensures LiveCount(conns[i := c]) ==
            LiveCount(conns) - (if Live(conns[i]) then 1 else 0) + (if Live(c) then 1 else 0)
    decreases |conns|
  {
    var n := |conns| - 1;
    if i == n {
      assert conns[i := c][..n] == conns[..n];
    } else {
      assert conns[i := c][..n] == conns[..n][i := c];
      LiveCountUpdate(conns[..n], i, c);
    }
  }

  lemma {:induction false} LiveCountSame(a: seq<Conn>, b: seq<Conn>)
    requires |a| == |b| && forall i :: 0 <= i < |a| ==> Live(a[i]) == Live(b[i])
    ensures LiveCount(a) == LiveCount(b)
    decreases |a|
  {
    if a != [] { LiveCountSame(a[..|a| - 1], b[..|b| - 1]); }
  }

  lemma {:induction false} LiveCountFree(conns: seq<Conn>)
    requires forall i :: 0 <= i < |conns| ==> !Live(conns[i])
    ensures LiveCount(conns) == 0
    decreases |conns|
  {
    if conns != [] { LiveCountFree(conns[..|conns| - 1]); }
  }

  // ---- One connection at a time ----

  /** The operations and logs of every connection but `id` are the same. */
  ghost predicate SameElsewhere(s: Server, s': Server, id: nat) {
    && (forall op: Op :: op.id != id ==> s'.ops[op] == s.ops[op])
    && (forall k :: k != id ==> (k in s.sent <==> k in s'.sent) && (k in s.queued <==> k in s'.queued)
                                && (k in s.stalled <==> k in s'.stalled))
    && (forall k :: k != id && k in s.sent ==> s'.sent[k] == s.sent[k])
    && (forall k :: k != id && k in s.queued ==> s'.queued[k] == s.queued[k])
  }

  lemma ConnOkElsewhere(c: Conn, s: Server, s': Server, id: nat)
    requires ConnOk(c, s.ops, s.sent, s.queued, s.stalled) && SameElsewhere(s, s', id) && c.id != id
    ensures ConnOk(c, s'.ops, s'.sent, s'.queued, s'.stalled)
  {
    forall op | op in s'.ops && op.id == c.id ensures op in s.ops { assert s'.ops[op] == s.ops[op]; }
    assert s'.ops[RecvOp(c)] == s.ops[RecvOp(c)] && s'.ops[SendOp(c)] == s.ops[SendOp(c)]
        && s'.ops[CloseOp(c)] == s.ops[CloseOp(c)];
  }

  lemma LogOkElsewhere(k: nat, s: Server, s': Server, id: nat)
    requires LogOk(k, s.ops, s.sent, s.queued) && SameElsewhere(s, s', id) && k != id
    ensures LogOk(k, s'.ops, s'.sent, s'.queued)
  {
    forall op | op in s'.ops && op.id == k
      ensures op in s.ops && s'.ops[op] == s.ops[op] { assert s'.ops[op] == s.ops[op]; }
  }

  lemma LogsOkElsewhere(s: Server, s': Server, id: nat)
    requires LogsOk(s) && SameElsewhere(s, s', id) && s.nextId <= s'.nextId
    requires LogOk(id, s'.ops, s'.sent, s'.queued)
    ensures forall k :: 0 < k < s.nextId ==> LogOk(k, s'.ops, s'.sent, s'.queued)
  {
    hide LogOk, SameElsewhere;
    forall k | 0 < k < s.nextId ensures LogOk(k, s'.ops, s'.sent, s'.queued) {
      if k != id { LogOkElsewhere(k, s, s', id); }
    }
  }

  /** What holds of a live connection settles its logs. */
  lemma LogOfConn(c: Conn, ops: multiset<Op>, sent: map<nat, seq<byte>>, queued: map<nat, seq<byte>>, stalled: set<nat>)
    requires ConnOk(c, ops, sent, queued, stalled)
    ensures LogOk(c.id, ops, sent, queued)
  {
  }

  lemma LogWithout(id: nat, op: Op, ops: multiset<Op>, sent: map<nat, seq<byte>>, queued: map<nat, seq<byte>>)
    requires LogOk(id, ops, sent, queued) && !op.Send?
    ensures LogOk(id, ops - multiset{op}, sent, queued)
  {
    var ops' := ops - multiset{op};
    forall o | o in ops' && o.Send? ensures o in ops && ops'[o] == ops[o] {}
  }

  /** The logs after a completion: of a receive, close or timeout, and of a send. */
  lemma LogAfter(s: Server, op: Op)
    requires Inv(s) && op in s.ops && !op.Send?
    ensures LogOk(op.id, s.ops - multiset{op}, s.sent, s.queued)
  {
    LogWithout(op.id, op, s.ops, s.sent, s.queued);
  }

  lemma LogAfterSend(s: Server, op: Op, res: int)
    requires Inv(s) && op in s.ops && op.Send? && res <= |op.data|
    ensures LogOk(op.id, s.ops - multiset{op}, Append(s.sent, op.id, Taken(op, res)), s.queued)
  {
    var ops', id := s.ops - multiset{op}, op.id;
    assert LogOk(id, s.ops, s.sent, s.queued);
    forall o | o in ops' ensures !(o.id == id && o.Send?) { assert o in s.ops; }
    assert s.queued[id] == s.sent[id] + Taken(op, res) + op.data[|Taken(op, res)|..];
  }

  /** A step that only concerns the live connection in slot `i`, or no live connection at all. */
  lemma SlotStep(s: Server, s': Server, i: nat, id: nat)
    requires Inv(s) && i < |s.conns| && Live(s.conns[i]) && s.conns[i].id == id
    requires |s'.conns| == |s.conns| && s'.conns == s.conns[i := s'.conns[i]] && s'.nextId == s.nextId
    requires SameElsewhere(s, s', id) && forall op :: op in s'.ops ==> 0 < op.id < s'.nextId
    requires if Live(s'.conns[i]) then s'.conns[i].id == id && s'.activeCount == s.activeCount
                                       && ConnOk(s'.conns[i], s'.ops, s'.sent, s'.queued, s'.stalled)
             else s'.conns[i] == FREE_SLOT && s'.activeCount == s.activeCount - 1
    requires LogOk(id, s'.ops, s'.sent, s'.queued)
    ensures Inv(s')
  {
    hide ConnOk, SameElsewhere, LogOk;
    LogsOkElsewhere(s, s', id);
    LiveCountUpdate(s.conns, i, s'.conns[i]);
    forall j | 0 <= j < |s'.conns| && Live(s'.conns[j])
      ensures ConnOk(s'.conns[j], s'.ops, s'.sent, s'.queued, s'.stalled) {
      if j != i {
        assert s'.conns[j] == s.conns[j];
        assert s.conns[j].id != id by { assert j < i || i < j; }
        ConnOkElsewhere(s.conns[j], s, s', id);
      }
    }
  }

  /** A completion that finds no live connection only empties the bag (and extends the log). */
  lemma StaleStep(s: Server, s': Server, id: nat)
    requires Inv(s) && FindById(s.conns, id) == |s.conns|
    requires s'.conns == s.conns && s'.nextId == s.nextId && s'.activeCount == s.activeCount
    requires SameElsewhere(s, s', id) && forall op :: op in s'.ops ==> 0 < op.id < s'.nextId
    requires LogOk(id, s'.ops, s'.sent, s'.queued)
    ensures Inv(s')
  {
    hide ConnOk, SameElsewhere, LogOk;
    LogsOkElsewhere(s, s', id);
    forall j | 0 <= j < |s'.conns| && Live(s'.conns[j])
      ensures ConnOk(s'.conns[j], s'.ops, s'.sent, s'.queued, s'.stalled) {
      ConnOkElsewhere(s.conns[j], s, s', id);
    }
  }

  // ---- A connection with neither receive nor send in flight ----

  ghost predicate Idle(c: Conn, ops: multiset<Op>) {
    forall op :: op in ops && op.id == c.id ==> op.Timeout? || op == CloseOp(c)
  }

  ghost predicate Sound(c: Conn, ops: multiset<Op>, sent: map<nat, seq<byte>>, queued: map<nat, seq<byte>>) {
    && (c.state == HTTP_ACTIVE || c.state == DRAINING || c.state == CLOSING)
    && c.recvLen <= RECV_BUF_SIZE && c.sendOffset <= |c.sendBuf| && !c.sendActive && Idle(c, ops)
    && (c.state == CLOSING ==> CloseOp(c) in ops)
    && c.id in sent && c.id in queued && queued[c.id] == sent[c.id]
  }

  lemma RecvCompletes(c: Conn, op: Op, ops: multiset<Op>, sent: map<nat, seq<byte>>, queued: map<nat, seq<byte>>,
                      stalled: set<nat>)
    requires ConnOk(c, ops, sent, queued, stalled) && op in ops && op.Recv? && op.id == c.id
    ensures op == RecvOp(c) && Sound(c, ops - multiset{op}, sent, queued)
  {
    var ops' := ops - multiset{op};
    forall o | o in ops' && o.id == c.id ensures o.Timeout? || o == CloseOp(c) {
      assert o in ops;
      assert o.Recv? ==> o == op;
    }
    assert ops'[CloseOp(c)] == ops[CloseOp(c)];
  }

  lemma SendCompletes(c: Conn, op: Op, ops: multiset<Op>, sent: map<nat, seq<byte>>, queued: map<nat, seq<byte>>,
                      stalled: set<nat>)
    requires ConnOk(c, ops, sent, queued, stalled) && op in ops && op.Send? && op.id == c.id
    ensures op == SendOp(c) && c.sendActive && Idle(c, ops - multiset{op})
    ensures c.state == CLOSING ==> CloseOp(c) in ops - multiset{op}
  {
    var ops' := ops - multiset{op};
    forall o | o in ops' && o.id == c.id ensures o.Timeout? || o == CloseOp(c) {
      assert o in ops;
      assert o.Send? ==> o == op;
    }
    assert ops'[CloseOp(c)] == ops[CloseOp(c)];
  }

  lemma RecvArmed(c: Conn, timed: bool, ops: multiset<Op>, sent: map<nat, seq<byte>>, queued: map<nat, seq<byte>>,
                  stalled: set<nat>)
    requires Sound(c, ops, sent, queued)
    ensures ConnOk(c, ops + multiset{RecvOp(c)} + (if timed then multiset{Timeout(c.id)} else multiset{}),
                   sent, queued, stalled)
  {
    var ops' := ops + multiset{RecvOp(c)} + if timed then multiset{Timeout(c.id)} else multiset{};
    forall o | o in ops' && o.id == c.id ensures o.Timeout? || o == CloseOp(c) || o == RecvOp(c) {
      if o in ops {} else { assert o == RecvOp(c) || o == Timeout(c.id); }
    }
    assert ops[RecvOp(c)] == 0 && ops[SendOp(c)] == 0;
    assert ops'[RecvOp(c)] == 1 && ops'[SendOp(c)] == 0;
  }

  lemma SendArmed(c: Conn, data: seq<byte>, ops: multiset<Op>, sent: map<nat, seq<byte>>, queued: map<nat, seq<byte>>,
                  stalled: set<nat>)
    requires Sound(c, ops, sent, queued)
    ensures
      var c' := c.(sendBuf := data, sendOffset := 0, sendActive := true);
      ConnOk(c', ops + multiset{SendOp(c')}, sent, Append(queued, c.id, data), stalled)
  {
    var c' := c.(sendBuf := data, sendOffset := 0, sendActive := true);
    InFlight(c', ops, sent, Append(queued, c.id, data), stalled);
  }

  /** A connection whose remaining bytes are exactly what its one send carries. */
  lemma InFlight(c: Conn, ops: multiset<Op>, sent: map<nat, seq<byte>>, queued: map<nat, seq<byte>>, stalled: set<nat>)
    requires c.state == HTTP_ACTIVE || c.state == DRAINING || c.state == CLOSING
    requires c.recvLen <= RECV_BUF_SIZE && c.sendOffset <= |c.sendBuf| && c.sendActive && Idle(c, ops)
    requires c.state == CLOSING ==> CloseOp(c) in ops
    requires c.id in sent && c.id in queued && queued[c.id] == sent[c.id] + c.sendBuf[c.sendOffset..]
    ensures ConnOk(c, ops + multiset{SendOp(c)}, sent, queued, stalled)
  {
    var ops' := ops + multiset{SendOp(c)};
    forall o | o in ops' && o.id == c.id ensures o.Timeout? || o == CloseOp(c) || o == SendOp(c) {
      if o in ops {} else { assert o == SendOp(c); }
    }
    assert ops[RecvOp(c)] == 0 && ops[SendOp(c)] == 0;
    assert ops'[RecvOp(c)] == 0 && ops'[SendOp(c)] == 1;
  }

  /** Submitting a close: `arm_close` may well run twice for one connection. */
  lemma CloseArmed(c: Conn, ops: multiset<Op>, sent: map<nat, seq<byte>>, queued: map<nat, seq<byte>>,
                   stalled: set<nat>)
    requires c.state == HTTP_ACTIVE || c.state == DRAINING || c.state == CLOSING
    requires ConnOk(c, ops, sent, queued, stalled) || (!c.sendActive && Idle(c, ops) && c.recvLen <= RECV_BUF_SIZE
             && c.sendOffset <= |c.sendBuf| && c.id in sent && c.id in queued && sent[c.id] <= queued[c.id])
    ensures ConnOk(Transition(c, CLOSING), ops + multiset{CloseOp(c)}, sent, queued, stalled)
  {
    var ops', c' := ops + multiset{CloseOp(c)}, Transition(c, CLOSING);
    assert RecvOp(c') == RecvOp(c) && SendOp(c') == SendOp(c) && CloseOp(c') == CloseOp(c);
    forall o | o in ops' && !o.Close? ensures o in ops {}
    forall o | o in ops' && o.id == c.id && o.Close? ensures o == CloseOp(c) {
      if o in ops {} else { assert o == CloseOp(c); }
    }
    assert ops'[RecvOp(c)] == ops[RecvOp(c)] && ops'[SendOp(c)] == ops[SendOp(c)];
  }

  lemma Stalls(c: Conn, ops: multiset<Op>, sent: map<nat, seq<byte>>, queued: map<nat, seq<byte>>, stalled: set<nat>)
    requires Sound(c, ops, sent, queued) && c.id in stalled
    ensures ConnOk(c, ops, sent, queued, stalled)
  {
    assert ops[RecvOp(c)] == 0 && ops[SendOp(c)] == 0;
  }

  // ---- Each event keeps the invariant ----

  lemma FoundIsLive(s: Server, id: nat)
    requires Inv(s) && FindById(s.conns, id) < |s.conns|
    ensures var c := s.conns[FindById(s.conns, id)]; Live(c) && c.id == id
                                                     && ConnOk(c, s.ops, s.sent, s.queued, s.stalled)
  {
  }

  lemma OpsIssued(s: Server)
    requires Inv(s)
    ensures 0 < s.nextId && forall op :: op in s.ops ==> 0 < op.id < s.nextId
  {
  }

  /** `Sound` says nothing of a change to `recvLen` within bounds or to `keepAlive`. */
  lemma SoundAt(c: Conn, c': Conn, ops: multiset<Op>, sent: map<nat, seq<byte>>, queued: map<nat, seq<byte>>)
    requires Sound(c, ops, sent, queued)
    requires c' == c.(recvLen := c'.recvLen, keepAlive := c'.keepAlive) && c'.recvLen <= RECV_BUF_SIZE
    ensures Sound(c', ops, sent, queued)
  {
    assert CloseOp(c') == CloseOp(c);
  }

  /**
   `s'` differs from `s` in slot `i`, whose connection stays live and right, and in that connection's operations
   and logs.
   */
  ghost predicate SlotChanged(s: Server, s': Server, i: nat)
    requires i < |s.conns|
  {
    && |s'.conns| == |s.conns| && s'.conns == s.conns[i := s'.conns[i]]
    && s'.nextId == s.nextId && s'.activeCount == s.activeCount
    && Live(s'.conns[i]) && s'.conns[i].id == s.conns[i].id
    && SameElsewhere(s, s', s.conns[i].id)
    && (forall op :: op in s'.ops ==> op in s.ops || op.id == s.conns[i].id)
    && ConnOk(s'.conns[i], s'.ops, s'.sent, s'.queued, s'.stalled)
  }

  lemma SlotChangedKeeps(s: Server, s1: Server, s': Server, i: nat)
    requires Inv(s) && i < |s.conns| == |s1.conns| && Live(s.conns[i]) && SlotChanged(s1, s', i)
    requires s1.conns == s.conns[i := s1.conns[i]] && s1.conns[i].id == s.conns[i].id
    requires s1.nextId == s.nextId && s1.activeCount == s.activeCount && SameElsewhere(s, s1, s.conns[i].id)
    requires forall op :: op in s1.ops ==> op in s.ops
    ensures Inv(s')
  {
    hide ConnOk, LogOk;
    LogOfConn(s'.conns[i], s'.ops, s'.sent, s'.queued, s'.stalled);
    SlotStep(s, s', i, s.conns[i].id);
  }

  lemma ArmCloseChanges(s: Server, i: nat)
    requires i < |s.conns|
    requires
      var c := s.conns[i];
      ConnOk(c, s.ops, s.sent, s.queued, s.stalled)
      || (!c.sendActive && Idle(c, s.ops) && c.recvLen <= RECV_BUF_SIZE && c.sendOffset <= |c.sendBuf|
         && c.id in s.sent && c.id in s.queued
          && s.sent[c.id] <= s.queued[c.id] && (c.state == HTTP_ACTIVE || c.state == DRAINING || c.state == CLOSING))
    ensures SlotChanged(s, ArmClose(s, i), i)
  {
    CloseArmed(s.conns[i], s.ops, s.sent, s.queued, s.stalled);
    hide ConnOk, Idle;
  }

  lemma ArmRecvChanges(s: Server, i: nat, timed: bool)
    requires i < |s.conns| && Sound(s.conns[i], s.ops, s.sent, s.queued)
    ensures SlotChanged(s, ArmRecv(s, i, timed), i)
  {
    hide ConnOk, Idle;
    RecvArmed(s.conns[i], timed, s.ops, s.sent, s.queued, s.stalled);
  }

  lemma OutcomeChanges(s: Server, i: nat, outcome: Outcome)
    requires i < |s.conns| && Sound(s.conns[i], s.ops, s.sent, s.queued)
    requires outcome.Serve? || outcome.Unserializable? ==> outcome.remaining <= RECV_BUF_SIZE
    ensures SlotChanged(s, OnOutcome(s, i, outcome), i)
  {
    hide ConnOk, Idle, SlotChanged;
    var c := s.conns[i];
    match outcome
    case WaitMore(timed) => ArmRecvChanges(s, i, timed);
    case Refuse(response) => RefuseChanges(s, i, response);
    case Serve(response, keepAlive, remaining) => ServeChanges(s, i, response, keepAlive, remaining);
    case Unserializable(keepAlive, remaining) =>
      var c' := c.(keepAlive := keepAlive, recvLen := remaining);
      SoundAt(c, c', s.ops, s.sent, s.queued);
      Stalls(c', s.ops, s.sent, s.queued, s.stalled + {c.id});
      StallChanges(s, i, c');
  }

  lemma StallChanges(s: Server, i: nat, c: Conn)
    requires i < |s.conns| && Live(c) && c.id == s.conns[i].id && ConnOk(c, s.ops, s.sent, s.queued, s.stalled + {c.id})
    ensures SlotChanged(s, s.(conns := s.conns[i := c], stalled := s.stalled + {c.id}), i)
  {
    hide ConnOk;
  }

  lemma RefuseChanges(s: Server, i: nat, response: seq<byte>)
    requires i < |s.conns| && Sound(s.conns[i], s.ops, s.sent, s.queued)
    ensures SlotChanged(s, OnOutcome(s, i, Refuse(response)), i)
  {
    hide ConnOk, Idle;
    var c := s.conns[i];
    var c' := c.(keepAlive := false);
    SoundAt(c, c', s.ops, s.sent, s.queued);
    SendArmed(c', response, s.ops, s.sent, s.queued, s.stalled);
  }

  lemma ServeChanges(s: Server, i: nat, response: seq<byte>, keepAlive: bool, remaining: nat)
    requires i < |s.conns| && Sound(s.conns[i], s.ops, s.sent, s.queued) && remaining <= RECV_BUF_SIZE
    ensures SlotChanged(s, OnOutcome(s, i, Serve(response, keepAlive, remaining)), i)
  {
    hide ConnOk, Idle;
    var c := s.conns[i];
    var c' := c.(keepAlive := keepAlive, recvLen := remaining);
    SoundAt(c, c', s.ops, s.sent, s.queued);
    SendArmed(c', response, s.ops, s.sent, s.queued, s.stalled);
  }

  lemma ReceivedKeeps(s: Server, op: Op, res: int, outcome: Outcome)
    requires Inv(s) && Enabled(s, Received(op, res, outcome))
    ensures Inv(OnReceived(s, op, res, outcome))
  {
    hide ConnOk, LogOk, Inv, Idle, SlotChanged, OnOutcome, ArmClose;
    var s1 := s.(ops := s.ops - multiset{op});
    var i := FindById(s.conns, op.id);
    OpsIssued(s);
    if i == |s.conns| {
      LogAfter(s, op);
      StaleStep(s, s1, op.id);
    } else {
      var c := s.conns[i];
      FoundIsLive(s, op.id);
      RecvCompletes(c, op, s.ops, s.sent, s.queued, s.stalled);
      if res <= 0 {
        ArmCloseChanges(s1, i);
        SlotChangedKeeps(s, s1, ArmClose(s1, i), i);
      } else {
        var c1 := c.(recvLen := c.recvLen + res);
        SoundAt(c, c1, s1.ops, s.sent, s.queued);
        var s2 := s1.(conns := s1.conns[i := c1]);
        OutcomeChanges(s2, i, outcome);
        SlotChangedKeeps(s, s2, OnOutcome(s2, i, outcome), i);
      }
    }
  }

  lemma SendDoneKeeps(s: Server, op: Op, res: int, timed: bool)
    requires Inv(s) && Enabled(s, SendDone(op, res, timed))
    ensures Inv(OnSendDone(s, op, res, timed))
  {
    hide ConnOk, LogOk, Inv, SlotChanged, OnSent, ArmClose, Taken;
    var s1 := s.(ops := s.ops - multiset{op}, sent := Append(s.sent, op.id, Taken(op, res)));
    var i := FindById(s.conns, op.id);
    OpsIssued(s);
    if i == |s.conns| {
      LogAfterSend(s, op, res);
      StaleStep(s, s1, op.id);
    } else {
      var c := s.conns[i];
      FoundIsLive(s, op.id);
      SendCompletes(c, op, s.ops, s.sent, s.queued, s.stalled);
      var s2 := s1.(conns := s1.conns[i := c.(sendActive := false)]);
      IdleAt(c, s2.conns[i], s2.ops);
      ConnOkBasics(c, s.ops, s.sent, s.queued, s.stalled);
      hide Idle, SendOp;
      if res < 0 {
        assert s2.sent[c.id] == s.sent[c.id] by { NoneTaken(s.sent, op, res); }
        ArmCloseChanges(s2, i);
        SlotChangedKeeps(s, s2, ArmClose(s2, i), i);
      } else {
        assert Sending(s2, i, c.sendBuf[c.sendOffset + res..]) by { SendTaken(c, op, res, s.sent); }
        OnSentChanges(s2, i, res, timed);
        SlotChangedKeeps(s, s2, OnSent(s2, i, res, timed), i);
      }
    }
  }

  lemma NoneTaken(sent: map<nat, seq<byte>>, op: Op, res: int)
    requires op.Send? && res < 0 && op.id in sent
    ensures Append(sent, op.id, Taken(op, res))[op.id] == sent[op.id]
  {
  }

  lemma IdleAt(c: Conn, c': Conn, ops: multiset<Op>)
    requires Idle(c, ops) && c'.id == c.id && c'.fd == c.fd
    ensures Idle(c', ops)
  {
    assert CloseOp(c') == CloseOp(c);
  }

  lemma ConnOkBasics(c: Conn, ops: multiset<Op>, sent: map<nat, seq<byte>>, queued: map<nat, seq<byte>>,
                     stalled: set<nat>)
    requires ConnOk(c, ops, sent, queued, stalled)
    ensures c.state == HTTP_ACTIVE || c.state == DRAINING || c.state == CLOSING
    ensures c.recvLen <= RECV_BUF_SIZE && c.sendOffset <= |c.sendBuf| && c.id in sent && c.id in queued
            && sent[c.id] <= queued[c.id]
    ensures c.sendActive ==> queued[c.id] == sent[c.id] + c.sendBuf[c.sendOffset..]
  {
  }

  /** The bytes taken from a send move from the rest of the buffer to the log. */
  lemma SendTaken(c: Conn, op: Op, res: nat, sent: map<nat, seq<byte>>)
    requires c.sendOffset <= |c.sendBuf| && op == SendOp(c) && res <= |op.data| && c.id in sent
    ensures c.sendOffset + res <= |c.sendBuf|
    ensures sent[c.id] + c.sendBuf[c.sendOffset..] ==
            Append(sent, c.id, Taken(op, res))[c.id] + c.sendBuf[c.sendOffset + res..]
  {
    assert op.data == op.data[..res] + op.data[res..];
    assert op.data[res..] == c.sendBuf[c.sendOffset + res..];
    assert Taken(op, res) == op.data[..res];
  }

  /** The connection in slot `i` after its last send has completed, `rest` still to go. */
  ghost predicate Sending(s: Server, i: nat, rest: seq<byte>)
    requires i < |s.conns|
  {
    var c := s.conns[i];
    && (c.state == HTTP_ACTIVE || c.state == DRAINING || c.state == CLOSING)
    && c.recvLen <= RECV_BUF_SIZE && !c.sendActive && Idle(c, s.ops)
    && (c.state == CLOSING ==> CloseOp(c) in s.ops)
    && c.id in s.sent && c.id in s.queued && s.queued[c.id] == s.sent[c.id] + rest
  }

  lemma ResendChanges(s: Server, i: nat, c: Conn)
    requires i < |s.conns| && c.sendOffset <= |c.sendBuf|
             && c == s.conns[i].(sendOffset := c.sendOffset, sendActive := true)
    requires Sending(s, i, c.sendBuf[c.sendOffset..])
    ensures SlotChanged(s, s.(conns := s.conns[i := c], ops := s.ops + multiset{SendOp(c)}), i)
  {
    hide ConnOk;
    IdleAt(s.conns[i], c, s.ops);
    InFlight(c, s.ops, s.sent, s.queued, s.stalled);
  }

  lemma AllSentChanges(s: Server, i: nat, c: Conn, timed: bool)
    requires i < |s.conns| && c == s.conns[i].(sendBuf := [], sendOffset := 0, recvLen := 0)
    requires Sending(s, i, [])
    ensures SlotChanged(s, ArmRecv(s.(conns := s.conns[i := c]), i, timed), i)
  {
    hide ConnOk, ArmRecv;
    IdleAt(s.conns[i], c, s.ops);
    var s1 := s.(conns := s.conns[i := c]);
    assert Sound(c, s1.ops, s1.sent, s1.queued) by { assert s.sent[c.id] + [] == s.sent[c.id]; }
    hide Sound, Idle;
    ArmRecvChanges(s1, i, timed);
    SlotChangedAgain(s, s1, ArmRecv(s1, i, timed), i);
  }

  lemma AllSentCloses(s: Server, i: nat, c: Conn)
    requires i < |s.conns| && c == s.conns[i].(sendBuf := [], sendOffset := 0)
    requires Sending(s, i, [])
    ensures SlotChanged(s, ArmClose(s.(conns := s.conns[i := c]), i), i)
  {
    hide ConnOk, ArmClose;
    IdleAt(s.conns[i], c, s.ops);
    var s1 := s.(conns := s.conns[i := c]);
    ArmCloseChanges(s1, i);
    SlotChangedAgain(s, s1, ArmClose(s1, i), i);
  }

  lemma SlotChangedAgain(s: Server, s1: Server, s': Server, i: nat)
    requires i < |s.conns| && s1 == s.(conns := s1.conns) && |s1.conns| == |s.conns|
             && s1.conns == s.conns[i := s1.conns[i]]
    requires s1.conns[i].id == s.conns[i].id && SlotChanged(s1, s', i)
    ensures SlotChanged(s, s', i)
  {
    hide ConnOk;
  }

  lemma OnSentChanges(s: Server, i: nat, res: nat, timed: bool)
    requires i < |s.conns| && s.conns[i].sendOffset + res <= |s.conns[i].sendBuf|
    requires Sending(s, i, s.conns[i].sendBuf[s.conns[i].sendOffset + res..])
    ensures SlotChanged(s, OnSent(s, i, res, timed), i)
  {
    hide SlotChanged, Sending, ArmRecv, ArmClose;
    var c := s.conns[i].(sendOffset := s.conns[i].sendOffset + res);
    if c.sendOffset < |c.sendBuf| {
      ResendChanges(s, i, c.(sendActive := true));
    } else {
      assert c.sendBuf[c.sendOffset..] == [];
      var c' := c.(sendBuf := [], sendOffset := 0);
      if c'.keepAlive && c'.state == HTTP_ACTIVE {
        AllSentChanges(s, i, c'.(recvLen := 0), timed);
      } else {
        AllSentCloses(s, i, c');
      }
    }
  }

  lemma TimedOutKeeps(s: Server, op: Op, fired: bool)
    requires Inv(s) && Enabled(s, TimedOut(op, fired))
    ensures Inv(OnTimedOut(s, op, fired))
  {
    hide ConnOk, LogOk, Inv, SlotChanged, ArmClose;
    var s1 := s.(ops := s.ops - multiset{op});
    var i := FindById(s.conns, op.id);
    OpsIssued(s);
    if i == |s.conns| {
      LogAfter(s, op);
      StaleStep(s, s1, op.id);
    } else {
      var c := s.conns[i];
      FoundIsLive(s, op.id);
      WithoutTimeout(c, op, s.ops, s.sent, s.queued, s.stalled);
      if fired {
        ArmCloseChanges(s1, i);
        SlotChangedKeeps(s, s1, ArmClose(s1, i), i);
      } else {
        LiveStep(s, s1, i);
      }
    }
  }

  lemma LiveStep(s: Server, s': Server, i: nat)
    requires Inv(s) && i < |s.conns| && Live(s.conns[i]) && s' == s.(ops := s'.ops)
    requires SameElsewhere(s, s', s.conns[i].id) && forall op :: op in s'.ops ==> op in s.ops
    requires ConnOk(s.conns[i], s'.ops, s.sent, s.queued, s.stalled)
    ensures Inv(s')
  {
    hide ConnOk, LogOk;
    LogOfConn(s'.conns[i], s'.ops, s'.sent, s'.queued, s'.stalled);
    SlotStep(s, s', i, s.conns[i].id);
  }

  lemma WithoutTimeout(c: Conn, op: Op, ops: multiset<Op>, sent: map<nat, seq<byte>>, queued: map<nat, seq<byte>>,
                       stalled: set<nat>)
    requires ConnOk(c, ops, sent, queued, stalled) && op.Timeout?
    ensures ConnOk(c, ops - multiset{op}, sent, queued, stalled)
  {
    var ops' := ops - multiset{op};
    forall o | o in ops' ensures o in ops {}
    assert ops'[RecvOp(c)] == ops[RecvOp(c)] && ops'[SendOp(c)] == ops[SendOp(c)]
        && ops'[CloseOp(c)] == ops[CloseOp(c)];
  }

  lemma ClosedKeeps(s: Server, op: Op)
    requires Inv(s) && Enabled(s, Closed(op))
    ensures Inv(OnClosed(s, op))
  {
    hide ConnOk, LogOk, Inv;
    var s1 := s.(ops := s.ops - multiset{op});
    var i := FindById(s.conns, op.id);
    OpsIssued(s);
    if i == |s.conns| {
      LogAfter(s, op);
      StaleStep(s, s1, op.id);
    } else {
      FoundIsLive(s, op.id);
      LogAfter(s, op);
      SlotStep(s, FreeConn(s1, i), i, op.id);
    }
  }

  /** A fresh connection with its first receive armed; no operation carries its id yet. */
  lemma FreshOk(s: Server, fd: int, timed: bool)
    requires forall op :: op in s.ops ==> 0 < op.id < s.nextId
    ensures
      var c := FREE_SLOT.(state := HTTP_ACTIVE, id := s.nextId, fd := fd);
      ConnOk(c, s.ops + multiset{RecvOp(c)} + (if timed then multiset{Timeout(c.id)} else multiset{}),
             s.sent[s.nextId := []], s.queued[s.nextId := []], s.stalled)
  {
    hide ConnOk;
    var c := FREE_SLOT.(state := HTTP_ACTIVE, id := s.nextId, fd := fd);
    RecvArmed(c, timed, s.ops, s.sent[s.nextId := []], s.queued[s.nextId := []], s.stalled);
  }

  lemma AcceptedLogs(s: Server, s': Server, c: Conn)
    requires LogsOk(s) && SameElsewhere(s, s', c.id) && c.id == s.nextId && s'.nextId == s.nextId + 1
    requires ConnOk(c, s'.ops, s'.sent, s'.queued, s'.stalled)
    ensures LogsOk(s')
  {
    LogOfConn(c, s'.ops, s'.sent, s'.queued, s'.stalled);
    hide ConnOk, LogOk, SameElsewhere;
    LogsOkElsewhere(s, s', c.id);
  }

  /** A step that fills the free slot `i` with the next connection. */
  lemma FillStep(s: Server, s': Server, i: nat)
    requires Inv(s) && i < |s.conns| == |s'.conns| && !Live(s.conns[i]) && s'.conns == s.conns[i := s'.conns[i]]
    requires Live(s'.conns[i]) && s'.conns[i].id == s.nextId && s'.nextId == s.nextId + 1
             && s'.activeCount == s.activeCount + 1
    requires SameElsewhere(s, s', s.nextId) && forall op :: op in s'.ops ==> 0 < op.id < s'.nextId
    requires ConnOk(s'.conns[i], s'.ops, s'.sent, s'.queued, s'.stalled)
    ensures Inv(s')
  {
    hide ConnOk, LogsOk, SameElsewhere;
    LiveCountUpdate(s.conns, i, s'.conns[i]);
    AcceptedLogs(s, s', s'.conns[i]);
    forall j | 0 <= j < |s'.conns| && Live(s'.conns[j])
      ensures ConnOk(s'.conns[j], s'.ops, s'.sent, s'.queued, s'.stalled) {
      if j != i { ConnOkElsewhere(s.conns[j], s, s', s.nextId); }
    }
  }

  lemma AcceptedKeeps(s: Server, fd: int, timed: bool)
    requires Inv(s)
    ensures Inv(OnAccept(s, fd, timed))
  {
    hide ConnOk, Inv;
    var i := FindFree(s.conns);
    if i < |s.conns| {
      OpsIssued(s);
      FreshOk(s, fd, timed);
      FillStep(s, OnAccept(s, fd, timed), i);
    }
  }

  lemma DrainedOk(c: Conn, ops: multiset<Op>, sent: map<nat, seq<byte>>, queued: map<nat, seq<byte>>, stalled: set<nat>)
    requires ConnOk(c, ops, sent, queued, stalled)
    ensures ConnOk(DrainConn(c), ops, sent, queued, stalled)
  {
    var c' := DrainConn(c);
    assert RecvOp(c') == RecvOp(c) && SendOp(c') == SendOp(c) && CloseOp(c') == CloseOp(c);
  }

  lemma DrainKeeps(s: Server)
    requires Inv(s)
    ensures Inv(s.(conns := DrainAll(s.conns)))
  {
    hide ConnOk, LogOk;
    var s' := s.(conns := DrainAll(s.conns));
    LiveCountSame(s.conns, s'.conns);
    forall i | 0 <= i < |s.conns| && Live(s'.conns[i]) ensures ConnOk(s'.conns[i], s.ops, s.sent, s.queued, s.stalled) {
      DrainedOk(s.conns[i], s.ops, s.sent, s.queued, s.stalled);
    }
  }

  lemma ShutdownKeeps(s: Server)
    requires Inv(s)
    ensures Inv(Step(s, Shutdown))
  {
    LiveCountFree(FreeAll(s.conns));
  }

  /** Every step keeps the invariant. */
  lemma StepKeeps(s: Server, e: Event)
    requires Inv(s) && Enabled(s, e)
    ensures Inv(Step(s, e))
  {
    hide Inv, OnOutcome, OnSent, FindFree, FindById;
    match e
    case Accepted(fd, timed) => AcceptedKeeps(s, fd, timed);
    case Received(op, res, outcome) => ReceivedKeeps(s, op, res, outcome);
    case SendDone(op, res, timed) => SendDoneKeeps(s, op, res, timed);
    case Closed(op) => ClosedKeeps(s, op);
    case TimedOut(op, fired) => TimedOutKeeps(s, op, fired);
    case Drain => DrainKeeps(s);
    case Shutdown => ShutdownKeeps(s);
  }
}
