/**
 The connection layer with the bytes it receives: each receive brings bytes, the receive handler decides on what its
 buffer then holds, and the application answers. In every run, what is queued for a connection is what its
 conversation gives.
 */
module Wire {
  import opened Bytes
  import opened ConnSpec
  import opened ConnTheorems
  import opened ConnRuns
  import opened ResponseSpec
  import opened ReceiveSpec
  import opened Conversation

  /** `app(id)(k)` is the application's response to the `k`-th request of connection `id`. */
  datatype World = World(lim: Limits, app: nat -> nat -> Response)

  /** What is in a connection's receive buffer, and so far: the receives that it handled and the requests served. */
  datatype Peer = Peer(buf: seq<byte>, heard: seq<seq<byte>>, served: nat)

  /** The peers of all connections ever accepted, by id. */
  datatype Net = Net(server: Server, peers: map<nat, Peer>)

  const NEW_PEER := Peer([], [], 0)

  function StartNet(capacity: nat): Net { Net(Start(capacity), map[]) }

  /** Bytes arrive, or anything else happens; a receive may also end without bytes. */
  datatype Input =
    | Data(op: Op, bytes: seq<byte>, timed: bool)
    | Other(e: Event)

  predicate Possible(n: Net, x: Input) {
    match x
    case Data(op, bytes, _) => op in n.server.ops && op.Recv? && 0 < |bytes| <= op.room
    case Other(e) => Enabled(n.server, e) && (e.Received? ==> e.res <= 0)
  }

  predicate IsLive(n: Net, id: nat) { FindById(n.server.conns, id) < |n.server.conns| && id in n.peers }

  /** The completion as the handlers see it. One that finds no live connection is dropped, whatever it brings. */
  function EventOf(w: World, n: Net, x: Input): Event {
    match x
    case Data(op, bytes, timed) =>
      if IsLive(n, op.id) then
        var p := n.peers[op.id];
        var got := p.buf + bytes;
        Received(op, |bytes|, OutcomeOf(Decide(w.lim, got), |got|, timed, w.app(op.id)(p.served)))
      else Received(op, |bytes|, WaitMore(timed))
    case Other(e) => e
  }

  /** A request that is dispatched is taken out of the buffer. */
  function PeerAfter(w: World, p: Peer, bytes: seq<byte>): Peer {
    var got := p.buf + bytes;
    var d := Decide(w.lim, got);
    if d.Dispatch? then Peer(got[d.used..], p.heard + [bytes], p.served + 1) else Peer(got, p.heard + [bytes], p.served)
  }

  /** The part of the buffer that still counts. */
  function Kept(p: Peer, s: Server, id: nat): Peer {
    var i := FindById(s.conns, id);
    if i < |s.conns| && s.conns[i].recvLen <= |p.buf| then p.(buf := p.buf[..s.conns[i].recvLen]) else p
  }

  function Advance(w: World, n: Net, x: Input): Net
    requires Enabled(n.server, EventOf(w, n, x))
  {
    var s := Step(n.server, EventOf(w, n, x));
    match x
    case Data(op, bytes, _) =>
      Net(s, if IsLive(n, op.id) then n.peers[op.id := PeerAfter(w, n.peers[op.id], bytes)] else n.peers)
    case Other(Accepted(_, _)) =>
      Net(s, if s.nextId != n.server.nextId then n.peers[n.server.nextId := NEW_PEER] else n.peers)
    case Other(SendDone(op, _, _)) =>
      Net(s, if op.id in n.peers then n.peers[op.id := Kept(n.peers[op.id], s, op.id)] else n.peers)
    case Other(_) => Net(s, n.peers)
  }

  ghost predicate IsNetRun(w: World, n: Net, run: seq<Input>, n': Net)
    decreases |run|
  {
    if run == [] then n' == n
    else
      && Possible(n, run[0]) && Enabled(n.server, EventOf(w, n, run[0]))
      && IsNetRun(w, Advance(w, n, run[0]), run[1..], n')
  }

  // ---- The invariant ----

  /** The bytes of all answers. */
  function Out(answers: seq<Answer>): seq<byte> {
    if answers == [] then [] else Out(answers[..|answers| - 1]) + answers[|answers| - 1].sent
  }

  function TalkOf(w: World, id: nat, p: Peer): Talk { Converse(w.lim, w.app(id), p.heard) }

  /** A live connection against its conversation. */
  ghost predicate PeerOk(w: World, c: Conn, ops: multiset<Op>, p: Peer) {
    var t := TalkOf(w, c.id, p);
    && |p.buf| == c.recvLen
    && (RecvOp(c) in ops ==> t.open && t.have == p.buf && p.served == |t.answers|)
    && (c.sendActive && c.keepAlive ==> t.open && t.have == [] && p.served == |t.answers|)
  }

  /** What was queued for a connection is what its conversation gives, over receives that can happen. */
  ghost predicate Logged(w: World, s: Server, id: nat, p: Peer) {
    id in s.queued && s.queued[id] == Out(TalkOf(w, id, p).answers) && Heard(w, id, p)
  }

  ghost predicate Heard(w: World, id: nat, p: Peer) { AreReceives(w.lim, w.app(id), p.heard) && AllNonEmpty(p.heard) }

  ghost predicate AllKnown(n: Net) { forall id :: id in n.peers <==> 0 < id < n.server.nextId }

  ghost predicate AllLogged(w: World, n: Net) { forall id :: id in n.peers ==> Logged(w, n.server, id, n.peers[id]) }

  ghost predicate AllOk(w: World, n: Net) {
    forall i :: 0 <= i < |n.server.conns| && Live(n.server.conns[i]) ==>
      n.server.conns[i].id in n.peers && PeerOk(w, n.server.conns[i], n.server.ops, n.peers[n.server.conns[i].id])
  }

  ghost predicate NetInv(w: World, n: Net) { Inv(n.server) && AllKnown(n) && AllLogged(w, n) && AllOk(w, n) }

  lemma PeerOkElsewhere(w: World, c: Conn, s: Server, s': Server, id: nat, p: Peer)
    requires PeerOk(w, c, s.ops, p) && SameElsewhere(s, s', id) && c.id != id
    ensures PeerOk(w, c, s'.ops, p)
  {
    hide TalkOf;
    assert s'.ops[RecvOp(c)] == s.ops[RecvOp(c)];
  }

  lemma LoggedElsewhere(w: World, s: Server, s': Server, id: nat, k: nat, p: Peer)
    requires Logged(w, s, k, p) && SameElsewhere(s, s', id) && k != id
    ensures Logged(w, s', k, p)
  {
    hide TalkOf, Out;
  }

  /** A step that concerns only connection `id`, which slot `i` may hold. */
  lemma OwnStep(w: World, n: Net, n': Net, i: nat, id: nat)
    requires NetInv(w, n) && Inv(n'.server) && OwnChange(n.server, n'.server, i, id) && id in n.peers && id in n'.peers
    requires n'.peers == n.peers[id := n'.peers[id]] && Logged(w, n'.server, id, n'.peers[id])
    requires forall j :: 0 <= j < |n.server.conns| && j != i && Live(n.server.conns[j]) ==> n.server.conns[j].id != id
    requires i < |n.server.conns| && Live(n'.server.conns[i])
             ==> PeerOk(w, n'.server.conns[i], n'.server.ops, n'.peers[id])
    ensures NetInv(w, n')
  {
    hide Inv, PeerOk, Logged;
    forall k | k in n'.peers ensures Logged(w, n'.server, k, n'.peers[k]) {
      if k != id { LoggedElsewhere(w, n.server, n'.server, id, k, n.peers[k]); }
    }
    forall j | 0 <= j < |n'.server.conns| && Live(n'.server.conns[j])
      ensures n'.server.conns[j].id in n'.peers
              && PeerOk(w, n'.server.conns[j], n'.server.ops, n'.peers[n'.server.conns[j].id])
    {
      if j != i {
        assert n'.server.conns[j] == n.server.conns[j];
        PeerOkElsewhere(w, n.server.conns[j], n.server, n'.server, id, n.peers[n.server.conns[j].id]);
      }
    }
  }

  lemma OthersDiffer(s: Server, id: nat)
    requires Inv(s)
    ensures
      var i := FindById(s.conns, id);
      forall j :: 0 <= j < |s.conns| && j != i && Live(s.conns[j]) ==> s.conns[j].id != id
  {
    hide ConnOk, LogOk;
    var i := FindById(s.conns, id);
    forall j | 0 <= j < |s.conns| && j != i && Live(s.conns[j]) ensures s.conns[j].id != id {
      assert j < i || i < j;
    }
  }

  // ---- Bytes arrive ----

  lemma OutAppend(answers: seq<Answer>, a: Answer)
    ensures Out(answers + [a]) == Out(answers) + a.sent
  {
    assert (answers + [a])[..|answers|] == answers;
  }

  lemma TalkHears(w: World, id: nat, p: Peer, bytes: seq<byte>)
    ensures TalkOf(w, id, PeerAfter(w, p, bytes)) == Hear(w.lim, w.app(id), TalkOf(w, id, p), bytes)
  {
    hide Hear, Decide;
    var heard := p.heard + [bytes];
    assert heard[..|heard| - 1] == p.heard;
  }

  /** The bytes that have arrived are one more receive. */
  lemma HeardMore(w: World, id: nat, p: Peer, bytes: seq<byte>)
    requires Heard(w, id, p) && bytes != [] && CanFollow(TalkOf(w, id, p), bytes)
    ensures Heard(w, id, PeerAfter(w, p, bytes))
  {
    hide Converse, Decide;
    var heard := p.heard + [bytes];
    forall k | 0 <= k < |heard| ensures CanFollow(Converse(w.lim, w.app(id), heard[..k]), heard[k]) {
      assert heard[..k] == p.heard[..k];
      assert p.heard[..|p.heard|] == p.heard;
    }
  }

  /** A conversation that goes on without an answer: the receive is armed again. */
  lemma WaitArrives(w: World, s: Server, i: nat, p: Peer, timed: bool)
    requires i < |s.conns| && !s.conns[i].sendActive && |p.buf| == s.conns[i].recvLen
    requires
      var t := TalkOf(w, s.conns[i].id, p);
      t.open && t.have == p.buf && p.served == |t.answers| && Logged(w, s, s.conns[i].id, p)
    ensures
      var s' := ArmRecv(s, i, timed);
      PeerOk(w, s'.conns[i], s'.ops, p) && Logged(w, s', s.conns[i].id, p)
  {
    hide TalkOf, Out, RecvOp, Heard;
  }

  /** An answer handed over for sending. */
  lemma SendArrives(w: World, s: Server, i: nat, c: Conn, data: seq<byte>, p: Peer, answers: seq<Answer>, d: Decision)
    requires i < |s.conns| && Idle(s.conns[i], s.ops) && c.id == s.conns[i].id && c.fd == s.conns[i].fd
    requires c.id in s.queued && s.queued[c.id] == Out(answers) && |p.buf| == c.recvLen && Heard(w, c.id, p)
    requires
      var t := TalkOf(w, c.id, p);
      && t.answers == answers + [Answer(d, data)]
      && (c.keepAlive ==> t.open && t.have == [] && p.served == |t.answers|)
    ensures
      var s' := s.(conns := s.conns[i := c], ops := s.ops + multiset{SendOp(c)},
                   queued := Append(s.queued, c.id, data));
      PeerOk(w, s'.conns[i], s'.ops, p) && Logged(w, s', c.id, p)
  {
    hide TalkOf, Out, Heard;
    var s' := s.(conns := s.conns[i := c], ops := s.ops + multiset{SendOp(c)}, queued := Append(s.queued, c.id, data));
    OutAppend(answers, Answer(d, data));
    IdleAt(s.conns[i], c, s.ops);
    NoRecv(s, s', c);
  }

  /** An answer that is too large: nothing is armed. */
  lemma StallArrives(w: World, s: Server, i: nat, c: Conn, p: Peer, answers: seq<Answer>, d: Decision)
    requires i < |s.conns| && Idle(s.conns[i], s.ops) && c.id == s.conns[i].id && c.fd == s.conns[i].fd
    requires c.id in s.queued && s.queued[c.id] == Out(answers) && |p.buf| == c.recvLen && !c.sendActive
    requires Heard(w, c.id, p)
    requires TalkOf(w, c.id, p).answers == answers + [Answer(d, [])]
    ensures
      var s' := s.(conns := s.conns[i := c], stalled := s.stalled + {c.id});
      PeerOk(w, s'.conns[i], s'.ops, p) && Logged(w, s', c.id, p)
  {
    hide TalkOf, Out, Heard;
    OutAppend(answers, Answer(d, []));
    IdleAt(s.conns[i], c, s.ops);
    NoRecv(s, s, c);
  }

  /** What one receive does to the connection, its operations and its log, and to the conversation. */
  lemma ArrivalOwn(w: World, s: Server, i: nat, p: Peer, bytes: seq<byte>, timed: bool)
    requires i < |s.conns| && Idle(s.conns[i], s.ops) && !s.conns[i].sendActive && s.conns[i].id in s.queued
    requires
      var t := TalkOf(w, s.conns[i].id, p);
      && t.open && t.have == p.buf && p.served == |t.answers|
      && s.conns[i].recvLen == |p.buf + bytes| && s.queued[s.conns[i].id] == Out(t.answers)
      && bytes != [] && |p.buf + bytes| <= RECV_BUF_SIZE && Heard(w, s.conns[i].id, p)
    ensures
      var id, got := s.conns[i].id, p.buf + bytes;
      var s' := OnOutcome(s, i, OutcomeOf(Decide(w.lim, got), |got|, timed, w.app(id)(p.served)));
      && |s'.conns| == |s.conns| && s'.conns[i].id == id
      && PeerOk(w, s'.conns[i], s'.ops, PeerAfter(w, p, bytes)) && Logged(w, s', id, PeerAfter(w, p, bytes))
  {
    var c, id, got := s.conns[i], s.conns[i].id, p.buf + bytes;
    var t, d := TalkOf(w, id, p), Decide(w.lim, got);
    TalkHears(w, id, p, bytes);
    HeardMore(w, id, p, bytes);
    var outcome, p' := OutcomeOf(d, |got|, timed, w.app(id)(p.served)), PeerAfter(w, p, bytes);
    hide Decide, Serialized, TalkOf, Out, PeerOk, Append, SendOp, RecvOp, ArmRecv, Idle, Heard;
    var armed := c.(sendBuf := if outcome.Serve? || outcome.Refuse? then outcome.response else [], sendOffset := 0,
                    sendActive := true);
    match outcome
    case WaitMore(_) =>
      assert TalkOf(w, id, p').answers == t.answers;
      WaitArrives(w, s, i, p', timed);
    case Refuse(response) =>
      UpdateTwice(s.conns, i, armed, armed.(keepAlive := false));
      SendArrives(w, s, i, armed.(keepAlive := false), response, p', t.answers, d);
      SendOpSame(armed, armed.(keepAlive := false));
    case Serve(response, keepAlive, remaining) =>
      var c' := armed.(keepAlive := keepAlive, recvLen := remaining);
      UpdateTwice(s.conns, i, armed, c');
      SendArrives(w, s, i, c', response, p', t.answers, d);
      SendOpSame(armed, c');
    case Unserializable(keepAlive, remaining) =>
      StallArrives(w, s, i, c.(keepAlive := keepAlive, recvLen := remaining), p', t.answers, d);
  }

  lemma SendOpSame(c: Conn, c': Conn)
    requires c' == c.(keepAlive := c'.keepAlive, recvLen := c'.recvLen)
    ensures SendOp(c') == SendOp(c)
  {
  }

  lemma NoRecv(s: Server, s': Server, c: Conn)
    requires Idle(c, s.ops) && (s'.ops == s.ops || exists o: Op :: !o.Recv? && s'.ops == s.ops + multiset{o})
    ensures RecvOp(c) !in s'.ops
  {
  }

  lemma LivePeer(w: World, n: Net, id: nat)
    requires NetInv(w, n) && FindById(n.server.conns, id) < |n.server.conns|
    ensures
      var c := n.server.conns[FindById(n.server.conns, id)];
      && Live(c) && c.id == id && ConnOk(c, n.server.ops, n.server.sent, n.server.queued, n.server.stalled)
      && id in n.peers && PeerOk(w, c, n.server.ops, n.peers[id]) && Logged(w, n.server, id, n.peers[id])
  {
    hide PeerOk, Logged, ConnOk, LogOk;
  }

  /** Whatever the kernel can deliver is a completion that the handlers allow for. */
  lemma PossibleEnabled(w: World, n: Net, x: Input)
    requires NetInv(w, n) && Possible(n, x)
    ensures Enabled(n.server, EventOf(w, n, x))
  {
    if x.Data? && IsLive(n, x.op.id) {
      LivePeer(w, n, x.op.id);
      hide Logged, NetInv;
      var p, c := n.peers[x.op.id], n.server.conns[FindById(n.server.conns, x.op.id)];
      assert x.op == RecvOp(c) && c.recvLen <= RECV_BUF_SIZE;
      hide ConnOk;
      OutcomeIsEnabled(n.server, x.op, |x.bytes|, w.lim, p.buf + x.bytes, x.timed, w.app(x.op.id)(p.served));
    }
  }

  /** The bytes that arrive fit behind those in the buffer. */
  lemma ArrivalFits(w: World, n: Net, op: Op, bytes: seq<byte>, timed: bool)
    requires NetInv(w, n) && Possible(n, Data(op, bytes, timed))
    ensures
      var i := FindById(n.server.conns, op.id);
      && (IsLive(n, op.id) <==> i < |n.server.conns|)
      && (i < |n.server.conns| ==> n.server.conns[i].recvLen == |n.peers[op.id].buf|
                                   && |n.peers[op.id].buf| + |bytes| <= RECV_BUF_SIZE)
  {
    var i := FindById(n.server.conns, op.id);
    if i < |n.server.conns| {
      LivePeer(w, n, op.id);
      hide NetInv, Logged;
      assert op == RecvOp(n.server.conns[i]);
    }
  }

  lemma OpIsKnown(w: World, n: Net, op: Op)
    requires NetInv(w, n) && op in n.server.ops
    ensures op.id in n.peers
  {
    hide PeerOk, Logged, ConnsOk, LogsOk;
  }

  lemma DataKeeps(w: World, n: Net, op: Op, bytes: seq<byte>, timed: bool)
    requires NetInv(w, n) && Possible(n, Data(op, bytes, timed))
             && Enabled(n.server, EventOf(w, n, Data(op, bytes, timed)))
    ensures NetInv(w, Advance(w, n, Data(op, bytes, timed)))
  {
    var x := Data(op, bytes, timed);
    var e, n', i := EventOf(w, n, x), Advance(w, n, x), FindById(n.server.conns, op.id);
    OpIsKnown(w, n, op);
    hide PeerOk, Logged, Decide, OnOutcome, PeerAfter, ConnOk;
    assert Inv(n.server);
    hide NetInv;
    StepKeeps(n.server, e);
    CompletionOwn(n.server, e);
    OthersDiffer(n.server, op.id);
    hide Inv, OwnChange;
    if i < |n.server.conns| {
      LivePeer(w, n, op.id);
      DataOwn(w, n, op, bytes, timed);
    } else {
      StaleLogged(w, n, n', op.id);
      assert n.peers == n.peers[op.id := n.peers[op.id]];
    }
    OwnStep(w, n, n', i, op.id);
  }

  lemma StaleLogged(w: World, n: Net, n': Net, id: nat)
    requires NetInv(w, n) && id in n.peers && n'.server.queued == n.server.queued
    ensures Logged(w, n'.server, id, n.peers[id])
  {
  }

  lemma DataOwn(w: World, n: Net, op: Op, bytes: seq<byte>, timed: bool)
    requires IsLive(n, op.id) && Possible(n, Data(op, bytes, timed))
             && Enabled(n.server, EventOf(w, n, Data(op, bytes, timed)))
    requires
      var c, p := n.server.conns[FindById(n.server.conns, op.id)], n.peers[op.id];
      && c.id == op.id && ConnOk(c, n.server.ops, n.server.sent, n.server.queued, n.server.stalled)
      && PeerOk(w, c, n.server.ops, p) && Logged(w, n.server, op.id, p)
    ensures
      var n', i := Advance(w, n, Data(op, bytes, timed)), FindById(n.server.conns, op.id);
      && |n'.server.conns| == |n.server.conns| && Logged(w, n'.server, op.id, n'.peers[op.id])
      && PeerOk(w, n'.server.conns[i], n'.server.ops, n'.peers[op.id])
  {
    hide Decide, OnOutcome, PeerAfter, OutcomeOf;
    var s, i, p := n.server, FindById(n.server.conns, op.id), n.peers[op.id];
    var c := s.conns[i];
    RecvCompletes(c, op, s.ops, s.sent, s.queued, s.stalled);
    hide ConnOk;
    var c1 := c.(recvLen := c.recvLen + |bytes|);
    var s1 := s.(ops := s.ops - multiset{op}, conns := s.conns[i := c1]);
    IdleAt(c, c1, s1.ops);
    hide Idle;
    ArrivalOwn(w, s1, i, p, bytes, timed);
  }

  // ---- Everything else ----

  lemma StillOk(w: World, c: Conn, c': Conn, ops: multiset<Op>, ops': multiset<Op>, p: Peer)
    requires PeerOk(w, c, ops, p) && c' == c.(state := c'.state) && (RecvOp(c) in ops' ==> RecvOp(c) in ops)
    ensures PeerOk(w, c', ops', p)
  {
    hide Converse;
    assert RecvOp(c') == RecvOp(c);
  }

  /** `s'` is `s` up to the state of the connection in slot `i`, if it is still live; no receive is added. */
  ghost predicate OnlyState(s: Server, s': Server, i: nat) {
    && |s'.conns| == |s.conns| && s'.queued == s.queued
    && (i < |s.conns| && Live(s'.conns[i]) ==> s'.conns[i] == s.conns[i].(state := s'.conns[i].state))
    && (forall o :: o in s'.ops && o.Recv? ==> o in s.ops)
  }

  lemma LessOps(s: Server, op: Op, i: nat)
    ensures OnlyState(s, s.(ops := s.ops - multiset{op}), i)
  {
    forall o | o in s.ops - multiset{op} ensures o in s.ops {}
  }

  lemma CloseQuiet(s: Server, op: Op, i: nat)
    requires i < |s.conns|
    ensures OnlyState(s, ArmClose(s.(ops := s.ops - multiset{op}), i), i)
  {
    var s' := ArmClose(s.(ops := s.ops - multiset{op}), i);
    forall o | o in s'.ops && o.Recv? ensures o in s.ops { assert o in s.ops - multiset{op}; }
  }

  lemma FreeQuiet(s: Server, op: Op, i: nat)
    requires i < |s.conns|
    ensures OnlyState(s, FreeConn(s.(ops := s.ops - multiset{op}), i), i)
  {
    forall o | o in s.ops - multiset{op} ensures o in s.ops {}
  }

  /** A completion other than of a send, and without bytes, changes no more than the state of a connection it finds. */
  lemma QuietStep(s: Server, e: Event)
    requires Enabled(s, e) && (e.Received? || e.Closed? || e.TimedOut?) && (e.Received? ==> e.res <= 0)
    ensures OnlyState(s, Step(s, e), FindById(s.conns, e.op.id))
  {
    hide OnOutcome, OnlyState, ArmClose, FreeConn;
    var i := FindById(s.conns, e.op.id);
    LessOps(s, e.op, i);
    if i < |s.conns| {
      CloseQuiet(s, e.op, i);
      FreeQuiet(s, e.op, i);
    }
  }

  lemma QuietOwn(w: World, n: Net, e: Event)
    requires NetInv(w, n) && Possible(n, Other(e)) && (e.Received? || e.Closed? || e.TimedOut?)
    ensures
      var n', i := Advance(w, n, Other(e)), FindById(n.server.conns, e.op.id);
      && |n'.server.conns| == |n.server.conns| && n'.server.queued == n.server.queued
      && (i < |n.server.conns| && Live(n'.server.conns[i])
          ==> e.op.id in n.peers && PeerOk(w, n'.server.conns[i], n'.server.ops, n.peers[e.op.id]))
  {
    var s, i := n.server, FindById(n.server.conns, e.op.id);
    QuietStep(s, e);
    hide Step;
    var s' := Step(s, e);
    if i < |s.conns| {
      LivePeer(w, n, e.op.id);
      hide NetInv, Logged, ConnOk, PeerOk;
      if Live(s'.conns[i]) { StillOk(w, s.conns[i], s'.conns[i], s.ops, s'.ops, n.peers[e.op.id]); }
    }
  }

  lemma SameSlot(conns: seq<Conn>, i: nat, id: nat, c: Conn)
    requires FindById(conns, id) == i < |conns| && Live(c) && c.id == id
    ensures FindById(conns[i := c], id) == i
  {
    var j := FindById(conns[i := c], id);
    assert conns[i := c][i] == c;
  }

  /** The slot of a connection whose last send has completed, and its peer. */
  ghost predicate Settled(w: World, s: Server, s': Server, i: nat, p: Peer) {
    && i < |s.conns| == |s'.conns| && s'.conns == s.conns[i := s'.conns[i]] && s'.queued == s.queued
    && Live(s'.conns[i]) && s'.conns[i].id == s.conns[i].id && s'.conns[i].recvLen <= |p.buf|
    && PeerOk(w, s'.conns[i], s'.ops, p.(buf := p.buf[..s'.conns[i].recvLen]))
  }

  lemma CloseSettles(w: World, s: Server, i: nat, p: Peer)
    requires i < |s.conns| && Live(s.conns[i]) && Idle(s.conns[i], s.ops) && !s.conns[i].sendActive
    requires |p.buf| == s.conns[i].recvLen
    ensures Settled(w, s, ArmClose(s, i), i, p)
  {
    hide Converse;
    var s' := ArmClose(s, i);
    NoRecv(s, s', s.conns[i]);
    assert RecvOp(s'.conns[i]) == RecvOp(s.conns[i]);
  }

  lemma ResendSettles(w: World, s: Server, i: nat, c: Conn, p: Peer)
    requires i < |s.conns| && Live(c) && Idle(s.conns[i], s.ops)
    requires c == s.conns[i].(sendOffset := c.sendOffset, sendActive := true) && |p.buf| == c.recvLen
    requires
      var t := TalkOf(w, c.id, p);
      c.keepAlive ==> t.open && t.have == [] && p.served == |t.answers|
    ensures Settled(w, s, s.(conns := s.conns[i := c], ops := s.ops + multiset{SendOp(c)}), i, p)
  {
    hide Converse;
    var s' := s.(conns := s.conns[i := c], ops := s.ops + multiset{SendOp(c)});
    IdleAt(s.conns[i], c, s.ops);
    NoRecv(s, s', c);
    assert p.buf[..c.recvLen] == p.buf;
  }

  lemma ReuseSettles(w: World, s: Server, i: nat, c: Conn, timed: bool, p: Peer)
    requires i < |s.conns| && Live(c) && c.id == s.conns[i].id && c.recvLen == 0 && !c.sendActive
    requires var t := TalkOf(w, c.id, p); t.open && t.have == [] && p.served == |t.answers|
    ensures Settled(w, s, ArmRecv(s.(conns := s.conns[i := c]), i, timed), i, p)
  {
    hide Converse, RecvOp;
    assert p.buf[..0] == [];
  }

  lemma SentSettles(w: World, s: Server, i: nat, res: nat, timed: bool, p: Peer)
    requires i < |s.conns| && Live(s.conns[i]) && Idle(s.conns[i], s.ops) && !s.conns[i].sendActive
    requires |p.buf| == s.conns[i].recvLen
    requires
      var t := TalkOf(w, s.conns[i].id, p);
      s.conns[i].keepAlive ==> t.open && t.have == [] && p.served == |t.answers|
    ensures Settled(w, s, OnSent(s, i, res, timed), i, p)
  {
    var c := s.conns[i].(sendOffset := s.conns[i].sendOffset + res);
    var c' := c.(sendBuf := [], sendOffset := 0);
    hide TalkOf, SendOp, RecvOp, ArmRecv, ArmClose, Settled;
    if c.sendOffset < |c.sendBuf| {
      ResendSettles(w, s, i, c.(sendActive := true), p);
    } else if c'.keepAlive && c'.state == HTTP_ACTIVE {
      ReuseSettles(w, s, i, c'.(recvLen := 0), timed, p);
    } else {
      var s1 := s.(conns := s.conns[i := c']);
      IdleAt(s.conns[i], c', s.ops);
      hide Idle;
      CloseSettles(w, s1, i, p);
      SettledFrom(w, s, s1, ArmClose(s1, i), i, p);
    }
  }

  lemma SettledFrom(w: World, s: Server, s1: Server, s': Server, i: nat, p: Peer)
    requires i < |s.conns| == |s1.conns| && s1 == s.(conns := s1.conns) && s1.conns == s.conns[i := s1.conns[i]]
    requires s1.conns[i].id == s.conns[i].id && Settled(w, s1, s', i, p)
    ensures Settled(w, s, s', i, p)
  {
    hide PeerOk;
  }

  lemma SendSettles(w: World, s: Server, op: Op, res: int, timed: bool, p: Peer)
    requires op in s.ops && op.Send? && res <= |op.data| && FindById(s.conns, op.id) < |s.conns|
    requires
      var c := s.conns[FindById(s.conns, op.id)];
      ConnOk(c, s.ops, s.sent, s.queued, s.stalled) && PeerOk(w, c, s.ops, p)
    ensures Settled(w, s, OnSendDone(s, op, res, timed), FindById(s.conns, op.id), p)
  {
    hide Taken, Append, Converse;
    var i := FindById(s.conns, op.id);
    var c := s.conns[i];
    SendCompletes(c, op, s.ops, s.sent, s.queued, s.stalled);
    hide ConnOk;
    var s1 := s.(ops := s.ops - multiset{op}, sent := Append(s.sent, op.id, Taken(op, res)),
                 conns := s.conns[i := c.(sendActive := false)]);
    IdleAt(c, s1.conns[i], s1.ops);
    hide Idle;
    if res < 0 { CloseSettles(w, s1, i, p); } else { SentSettles(w, s1, i, res, timed, p); }
    hide OnSent, ArmClose, PeerOk;
  }

  /** A completed send: the conversation goes on where the buffer is emptied and a receive armed. */
  lemma SendOwnPeer(w: World, n: Net, op: Op, res: int, timed: bool)
    requires NetInv(w, n) && Possible(n, Other(SendDone(op, res, timed))) && op.id in n.peers
    ensures
      var n', i := Advance(w, n, Other(SendDone(op, res, timed))), FindById(n.server.conns, op.id);
      && |n'.server.conns| == |n.server.conns| && n'.server.queued == n.server.queued
      && n'.peers[op.id].heard == n.peers[op.id].heard
      && (i < |n.server.conns| ==> PeerOk(w, n'.server.conns[i], n'.server.ops, n'.peers[op.id]))
  {
    hide PeerOk, OnSent, Taken;
    var s, n', i := n.server, Advance(w, n, Other(SendDone(op, res, timed))), FindById(n.server.conns, op.id);
    if i < |s.conns| {
      LivePeer(w, n, op.id);
      hide NetInv, Logged;
      SendSettles(w, s, op, res, timed, n.peers[op.id]);
      hide ConnOk, OnSendDone;
      SameSlot(s.conns, i, op.id, n'.server.conns[i]);
    }
  }

  lemma CompletionKeeps(w: World, n: Net, e: Event)
    requires NetInv(w, n) && Possible(n, Other(e)) && IsCompletion(e)
    ensures NetInv(w, Advance(w, n, Other(e)))
  {
    var n', i, id := Advance(w, n, Other(e)), FindById(n.server.conns, e.op.id), e.op.id;
    OpIsKnown(w, n, e.op);
    PeersAfter(w, n, e);
    if e.SendDone? { SendOwnPeer(w, n, e.op, e.res, e.timed); } else { QuietOwn(w, n, e); }
    hide PeerOk, Step, Advance;
    assert Inv(n.server) && AllLogged(w, n);
    hide NetInv;
    SameTalk(w, n, n', id);
    hide AllLogged, Logged;
    StepKeeps(n.server, e);
    CompletionOwn(n.server, e);
    OthersDiffer(n.server, id);
    hide Inv, OwnChange;
    OwnStep(w, n, n', i, id);
  }

  lemma PeersAfter(w: World, n: Net, e: Event)
    requires Enabled(n.server, e) && IsCompletion(e) && e.op.id in n.peers
    ensures
      var n', id := Advance(w, n, Other(e)), e.op.id;
      && n'.server == Step(n.server, e) && id in n'.peers && n'.peers == n.peers[id := n'.peers[id]]
      && n'.peers[id].heard == n.peers[id].heard && n'.peers[id].buf <= n.peers[id].buf
      && (!e.SendDone? ==> n'.peers == n.peers)
  {
    hide Step;
    assert n.peers == n.peers[e.op.id := n.peers[e.op.id]];
  }

  lemma SameTalk(w: World, n: Net, n': Net, id: nat)
    requires AllLogged(w, n) && id in n.peers && id in n'.peers && n'.server.queued == n.server.queued
    requires n'.peers[id].heard == n.peers[id].heard
    ensures Logged(w, n'.server, id, n'.peers[id])
  {
    hide Converse, Out;
    assert Logged(w, n.server, id, n.peers[id]);
  }

  /** A slot is filled with the next connection, or nothing happens. */
  lemma AcceptStep(s: Server, fd: int, timed: bool)
    ensures
      var s', i := OnAccept(s, fd, timed), FindFree(s.conns);
      if i == |s.conns| then s' == s
      else && |s'.conns| == |s.conns| && s'.conns == s.conns[i := s'.conns[i]] && s'.nextId == s.nextId + 1
           && s'.conns[i] == FREE_SLOT.(state := HTTP_ACTIVE, id := s.nextId, fd := fd)
           && SameElsewhere(s, s', s.nextId) && s.nextId in s'.queued && s'.queued[s.nextId] == []
  {
  }

  lemma AcceptKeeps(w: World, n: Net, fd: int, timed: bool)
    requires NetInv(w, n)
    ensures NetInv(w, Advance(w, n, Other(Accepted(fd, timed))))
  {
    var s := n.server;
    assert Inv(s);
    StepKeeps(s, Accepted(fd, timed));
    AcceptStep(s, fd, timed);
    hide OnAccept, NetInv, Inv;
    var n' := Advance(w, n, Other(Accepted(fd, timed)));
    if FindFree(s.conns) < |s.conns| { FillKeeps(w, n, n', FindFree(s.conns)); }
  }

  lemma FillKeeps(w: World, n: Net, n': Net, i: nat)
    requires NetInv(w, n) && Inv(n'.server) && i < |n.server.conns| == |n'.server.conns|
    requires
      var s, s' := n.server, n'.server;
      && n'.peers == n.peers[s.nextId := NEW_PEER] && s'.nextId == s.nextId + 1 && SameElsewhere(s, s', s.nextId)
      && s'.conns == s.conns[i := s'.conns[i]] && s'.conns[i].id == s.nextId && s'.conns[i].recvLen == 0
      && !s'.conns[i].sendActive && s.nextId in s'.queued && s'.queued[s.nextId] == []
    ensures NetInv(w, n')
  {
    var s, s', id := n.server, n'.server, n.server.nextId;
    OpsIssued(s);
    hide Inv, PeerOk, Logged, SameElsewhere;
    NewOk(w, s', s'.conns[i]);
    assert AllKnown(n');
    hide AllKnown;
    forall k | k in n'.peers ensures Logged(w, s', k, n'.peers[k]) {
      if k != id { LoggedElsewhere(w, s, s', id, k, n.peers[k]); }
    }
    forall j | 0 <= j < |s'.conns| && Live(s'.conns[j])
      ensures s'.conns[j].id in n'.peers && PeerOk(w, s'.conns[j], s'.ops, n'.peers[s'.conns[j].id])
    {
      if j != i {
        assert s'.conns[j] == s.conns[j];
        PeerOkElsewhere(w, s.conns[j], s, s', id, n.peers[s.conns[j].id]);
      }
    }
  }

  lemma NewOk(w: World, s: Server, c: Conn)
    requires c.recvLen == 0 && c.id in s.queued && s.queued[c.id] == []
    ensures PeerOk(w, c, s.ops, NEW_PEER) && Logged(w, s, c.id, NEW_PEER)
  {
  }

  lemma DrainOk(w: World, c: Conn, ops: multiset<Op>, p: Peer)
    requires PeerOk(w, c, ops, p)
    ensures PeerOk(w, DrainConn(c), ops, p)
  {
    hide Converse;
    assert RecvOp(DrainConn(c)) == RecvOp(c);
  }

  lemma DrainKeepsPeers(w: World, n: Net)
    requires NetInv(w, n)
    ensures NetInv(w, Advance(w, n, Other(Drain)))
  {
    var n' := Advance(w, n, Other(Drain));
    StepKeeps(n.server, Drain);
    hide Inv;
    assert n'.peers == n.peers && n'.server == n.server.(conns := DrainAll(n.server.conns));
    hide Advance;
    DrainsOk(w, n, n');
    SameLogs(w, n, n');
    hide AllOk, AllLogged;
  }

  lemma DrainsOk(w: World, n: Net, n': Net)
    requires AllOk(w, n) && n'.peers == n.peers && n'.server == n.server.(conns := DrainAll(n.server.conns))
    ensures AllOk(w, n')
  {
    hide PeerOk;
    var s, s' := n.server, n'.server;
    forall j | 0 <= j < |s'.conns| && Live(s'.conns[j])
      ensures s'.conns[j].id in n.peers && PeerOk(w, s'.conns[j], s'.ops, n.peers[s'.conns[j].id])
    {
      assert Live(s.conns[j]) && s'.conns[j].id == s.conns[j].id;
      DrainOk(w, s.conns[j], s.ops, n.peers[s.conns[j].id]);
    }
  }

  lemma SameLogs(w: World, n: Net, n': Net)
    requires AllLogged(w, n) && n'.peers == n.peers && n'.server.queued == n.server.queued
    ensures AllLogged(w, n')
  {
    hide TalkOf, Out;
  }

  lemma ShutdownKeepsPeers(w: World, n: Net)
    requires NetInv(w, n)
    ensures NetInv(w, Advance(w, n, Other(Shutdown)))
  {
    var n' := Advance(w, n, Other(Shutdown));
    StepKeeps(n.server, Shutdown);
    hide Inv;
    SameLogs(w, n, n');
    hide AllLogged;
    assert forall j :: 0 <= j < |n'.server.conns| ==> !Live(n'.server.conns[j]);
  }

  /** Every input keeps the invariant. */
  lemma AdvanceKeeps(w: World, n: Net, x: Input)
    requires NetInv(w, n) && Possible(n, x)
    ensures Enabled(n.server, EventOf(w, n, x)) && NetInv(w, Advance(w, n, x))
  {
    PossibleEnabled(w, n, x);
    hide NetInv, Advance, EventOf;
    match x
    case Data(op, bytes, timed) => DataKeeps(w, n, op, bytes, timed);
    case Other(e) =>
      match e
      case Accepted(fd, timed) => AcceptKeeps(w, n, fd, timed);
      case Drain => DrainKeepsPeers(w, n);
      case Shutdown => ShutdownKeepsPeers(w, n);
      case _ => CompletionKeeps(w, n, e);
  }

  /** A completion leaves all slots alone but the one of the connection it names. */
  lemma OtherSlots(w: World, n: Net, x: Input, id: nat)
    requires NetInv(w, n) && Enabled(n.server, EventOf(w, n, x)) && IsCompletion(EventOf(w, n, x))
    requires EventOf(w, n, x).op.id == id
    ensures
      var s, s', i := n.server, Advance(w, n, x).server, FindById(n.server.conns, id);
      && |s'.conns| == |s.conns|
      && (forall j :: 0 <= j < |s.conns| && j != i ==> s'.conns[j] == s.conns[j])
      && (forall j :: 0 <= j < |s.conns| && j != i && Live(s.conns[j]) ==> s.conns[j].id != id)
      && (i < |s.conns| && Live(s'.conns[i]) ==> s'.conns[i].id == id)
  {
    ServerAdvances(w, n, x);
    CompletionOwn(n.server, EventOf(w, n, x));
    OthersDiffer(n.server, id);
    hide NetInv, Advance, EventOf, SameElsewhere, Step, Enabled;
  }

  /** What the connection in slot `j` has in its buffer is a prefix of what it had; a new one has nothing. */
  ghost predicate Less(n: Net, n': Net, j: nat)
    requires j < |n.server.conns| == |n'.server.conns|
  {
    var c, c' := n.server.conns[j], n'.server.conns[j];
    Live(c') ==>
      && c'.id in n'.peers
      && (n'.peers[c'.id].buf == []
          || (Live(c) && c.id == c'.id && c.id in n.peers && n'.peers[c.id].buf <= n.peers[c.id].buf))
  }

  lemma LessFrom(n: Net, n': Net, j: nat, id: nat)
    requires j < |n.server.conns| == |n'.server.conns| && id in n.peers && id in n'.peers
    requires n'.peers == n.peers[id := n'.peers[id]] && n'.peers[id].buf <= n.peers[id].buf
    requires Live(n.server.conns[j]) ==> n.server.conns[j].id in n.peers
    requires Live(n'.server.conns[j]) ==> Live(n.server.conns[j]) && n'.server.conns[j].id == n.server.conns[j].id
    ensures Less(n, n', j)
  {
  }

  lemma LessCompletion(w: World, n: Net, e: Event, j: nat)
    requires NetInv(w, n) && Possible(n, Other(e)) && IsCompletion(e) && j < |n.server.conns|
    ensures |Advance(w, n, Other(e)).server.conns| == |n.server.conns| && Less(n, Advance(w, n, Other(e)), j)
  {
    assert e.op in n.server.ops;
    hide NetInv, Step, Enabled, Advance, Less;
    OpIsKnown(w, n, e.op);
    KnownPeer(w, n, j);
    PeersAfter(w, n, e);
    CompletionTouchesOwn(n.server, e);
    LessFrom(n, Advance(w, n, Other(e)), j, e.op.id);
  }

  lemma LessAccept(w: World, n: Net, fd: int, timed: bool, j: nat)
    requires NetInv(w, n) && j < |n.server.conns|
    ensures
      var n' := Advance(w, n, Other(Accepted(fd, timed)));
      |n'.server.conns| == |n.server.conns| && Less(n, n', j)
  {
    var s, i := n.server, FindFree(n.server.conns);
    KnownPeer(w, n, j);
    assert AllKnown(n);
    AcceptStep(s, fd, timed);
    hide NetInv, OnAccept, SameElsewhere, FindFree;
    var n' := Advance(w, n, Other(Accepted(fd, timed)));
    assert i < |s.conns| && j != i ==> n'.server.conns[j] == s.conns[j];
  }

  lemma LessOtherwise(w: World, n: Net, e: Event, j: nat)
    requires NetInv(w, n) && (e.Drain? || e.Shutdown?) && j < |n.server.conns|
    ensures |Advance(w, n, Other(e)).server.conns| == |n.server.conns| && Less(n, Advance(w, n, Other(e)), j)
  {
    KnownPeer(w, n, j);
    hide NetInv;
    var n' := Advance(w, n, Other(e));
    assert n'.peers == n.peers;
    assert e.Shutdown? ==> !Live(n'.server.conns[j]);
    assert e.Drain? ==> n'.server.conns[j] == DrainConn(n.server.conns[j]);
    hide Advance, LiveCount;
  }

  /** Without bytes arriving, no buffer holds more than before. */
  lemma LessInBuffer(w: World, n: Net, e: Event, j: nat)
    requires NetInv(w, n) && Possible(n, Other(e)) && j < |n.server.conns|
    ensures |Advance(w, n, Other(e)).server.conns| == |n.server.conns| && Less(n, Advance(w, n, Other(e)), j)
  {
    hide NetInv, Advance, Less;
    if IsCompletion(e) {
      LessCompletion(w, n, e, j);
    } else if e.Accepted? {
      LessAccept(w, n, e.fd, e.timed, j);
    } else {
      LessOtherwise(w, n, e, j);
    }
  }

  lemma KnownPeer(w: World, n: Net, j: nat)
    requires NetInv(w, n) && j < |n.server.conns|
    ensures Live(n.server.conns[j]) ==> n.server.conns[j].id in n.peers
  {
    hide PeerOk, Inv, Logged;
  }

  // ---- Every run ----

  lemma {:induction false} NetRunKeeps(w: World, n: Net, run: seq<Input>, n': Net)
    requires NetInv(w, n) && IsNetRun(w, n, run, n')
    ensures NetInv(w, n')
    decreases |run|
  {
    hide NetInv, Advance, EventOf, Possible;
    if run != [] {
      AdvanceKeeps(w, n, run[0]);
      NetRunKeeps(w, Advance(w, n, run[0]), run[1..], n');
    }
  }

  lemma StartValid(w: World, capacity: nat)
    ensures NetInv(w, StartNet(capacity))
  {
    StartInv(capacity);
    hide Inv;
  }

  lemma NetFromStart(w: World, capacity: nat, run: seq<Input>, n: Net)
    requires IsNetRun(w, StartNet(capacity), run, n)
    ensures NetInv(w, n)
  {
    hide IsNetRun, NetInv;
    StartValid(w, capacity);
    NetRunKeeps(w, StartNet(capacity), run, n);
  }

  lemma ServerAdvances(w: World, n: Net, x: Input)
    requires Enabled(n.server, EventOf(w, n, x))
    ensures Advance(w, n, x).server == Step(n.server, EventOf(w, n, x))
  {
    hide Step, EventOf, PeerAfter;
  }

  /** A run with its bytes is a run of the connection layer, so all that is said of those holds of it. */
  lemma {:induction false} RunProjects(w: World, n: Net, run: seq<Input>, n': Net) returns (events: seq<Event>)
    requires IsNetRun(w, n, run, n')
    ensures IsRun(n.server, events, n'.server) && |events| == |run|
    decreases |run|
  {
    hide Advance, EventOf, Possible, Step, Enabled;
    if run == [] {
      events := [];
    } else {
      ServerAdvances(w, n, run[0]);
      var rest := RunProjects(w, Advance(w, n, run[0]), run[1..], n');
      events := [EventOf(w, n, run[0])] + rest;
      assert events[1..] == rest;
    }
  }

  /** No input that the kernel can deliver stops a run. */
  lemma RunGoesOn(w: World, capacity: nat, run: seq<Input>, n: Net, x: Input)
    requires IsNetRun(w, StartNet(capacity), run, n) && Possible(n, x)
    ensures Enabled(n.server, EventOf(w, n, x))
  {
    hide IsNetRun, NetInv;
    NetFromStart(w, capacity, run, n);
    PossibleEnabled(w, n, x);
  }

  /**
   In every run, for every connection ever accepted, live or gone: what was queued for it is exactly what its
   conversation over the receives it handled gives, these are receives within its buffer on an open conversation,
   and the kernel has taken a prefix of what was queued.
   */
  lemma QueuedIsConversation(w: World, capacity: nat, run: seq<Input>, n: Net, id: nat)
    requires IsNetRun(w, StartNet(capacity), run, n) && 0 < id < n.server.nextId
    ensures id in n.peers && id in n.server.queued && id in n.server.sent
    ensures n.server.queued[id] == Out(Converse(w.lim, w.app(id), n.peers[id].heard).answers)
    ensures n.server.sent[id] <= n.server.queued[id]
    ensures AreReceives(w.lim, w.app(id), n.peers[id].heard) && AllNonEmpty(n.peers[id].heard)
  {
    hide IsNetRun, AreReceives;
    NetFromStart(w, capacity, run, n);
    assert LogOk(id, n.server.ops, n.server.sent, n.server.queued);
    hide Inv, PeerOk, Converse;
  }

  // ---- Requests and responses ----

  /** The responses to the first `k` requests, one behind the other. */
  function Responses(app: nat -> Response, k: nat): seq<byte> {
    if k == 0 then [] else Responses(app, k - 1) + Serialized(app(k - 1))
  }

  lemma {:induction false} OutOfAnswered(lim: Limits, app: nat -> Response, rs: seq<seq<byte>>, k: nat)
    requires k <= |rs|
    ensures Out(Answered(lim, app, rs)[..k]) == Responses(app, k)
    decreases k
  {
    hide Decide, Serialized;
    if k > 0 {
      OutOfAnswered(lim, app, rs, k - 1);
      AnsweredPrefix(lim, app, rs, k - 1);
      OutAppend(Answered(lim, app, rs)[..k - 1], Answered(lim, app, rs)[k - 1]);
    }
  }

  /**
   In every run, a connection whose receives bring whole requests, each ending where a receive ends, and whose
   responses fit, has exactly the responses to these requests queued, in order.
   */
  lemma RequestsServed(w: World, capacity: nat, run: seq<Input>, n: Net, id: nat, rs: seq<seq<byte>>)
    requires IsNetRun(w, StartNet(capacity), run, n) && 0 < id < n.server.nextId
    requires id in n.peers && AllWhole(w.lim, rs) && Flatten(n.peers[id].heard) == Flatten(rs)
    requires Aligned(n.peers[id].heard, rs) && AllFit(w.app(id), |rs|)
    ensures id in n.server.queued && id in n.server.sent && n.server.queued[id] == Responses(w.app(id), |rs|)
    ensures n.server.sent[id] <= Responses(w.app(id), |rs|)
  {
    hide IsNetRun, Converse, Decide, Serialized, Answered, Aligned, AllFit, AllWhole, Responses, AreReceives;
    hide AllNonEmpty;
    QueuedIsConversation(w, capacity, run, n, id);
    AlignedIsAnswered(w.lim, w.app(id), rs, n.peers[id].heard);
    OutOfAnswered(w.lim, w.app(id), rs, |rs|);
    AnsweredWhole(w.lim, w.app(id), rs);
  }
}
