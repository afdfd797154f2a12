/**
 Connections and their in-flight operations as a step system. The server is the pool and its
 completion handlers; the kernel is a bag of submitted operations that complete one at a time,
 in any order and with any result it may give. Connections are plaintext, a submission entry
 is always available, and fewer than 2^32 connections are accepted.
 */
module ConnSpec {
  import opened Bytes

  datatype ConnState = FREE | ACCEPTING | PROXY_HEADER | TLS_HANDSHAKE | HTTP_ACTIVE | WEBSOCKET | SSE | QUIC
                     | DRAINING | CLOSING

  const RECV_BUF_SIZE: nat := 8192

  datatype Conn = Conn(state: ConnState, id: nat, fd: int, recvLen: nat, sendBuf: seq<byte>, sendOffset: nat,
                       sendActive: bool, keepAlive: bool)

  /** A cleared slot. */
  const FREE_SLOT := Conn(FREE, 0, -1, 0, [], 0, false, false)

  /** The transition table. CLOSING is left only by freeing the slot. */
  predicate ValidTransition(src: ConnState, dst: ConnState) {
    match src
    case FREE => dst == ACCEPTING
    case ACCEPTING => dst == PROXY_HEADER || dst == TLS_HANDSHAKE || dst == HTTP_ACTIVE || dst == CLOSING
    case PROXY_HEADER => dst == TLS_HANDSHAKE || dst == HTTP_ACTIVE || dst == CLOSING
    case TLS_HANDSHAKE => dst == HTTP_ACTIVE || dst == CLOSING
    case HTTP_ACTIVE => dst == WEBSOCKET || dst == SSE || dst == DRAINING || dst == CLOSING
    case WEBSOCKET => dst == DRAINING || dst == CLOSING
    case SSE => dst == DRAINING || dst == CLOSING
    case QUIC => false
    case DRAINING => dst == CLOSING
    case CLOSING => false
  }

  function Transition(c: Conn, dst: ConnState): Conn {
    if ValidTransition(c.state, dst) then c.(state := dst) else c
  }

  /** Submitted operations, tagged with a connection id. */
  datatype Op =
    | Recv(id: nat, fd: int, room: nat)
    | Send(id: nat, fd: int, data: seq<byte>)
    | Close(id: nat, fd: int)
    | Timeout(id: nat)

  /**
   `sent` is what the kernel took from each connection's sends, `queued` the responses that
   were handed over for sending, both in order; `stalled` the connections whose response could
   not be serialized.
   */
  datatype Server = Server(conns: seq<Conn>, activeCount: int, nextId: nat, ops: multiset<Op>,
                           sent: map<nat, seq<byte>>, queued: map<nat, seq<byte>>, stalled: set<nat>)

  function Start(capacity: nat): Server {
    Server(seq(capacity, _ => FREE_SLOT), 0, 1, multiset{}, map[], map[], {})
  }

  // ---- The pool ----

  function FindFree(conns: seq<Conn>): (i: nat)
    ensures i <= |conns| && (i < |conns| ==> conns[i].state == FREE)
    ensures forall j :: 0 <= j < i ==> conns[j].state != FREE
  {
    if conns == [] || conns[0].state == FREE then 0 else 1 + FindFree(conns[1..])
  }

  function FindById(conns: seq<Conn>, id: nat): (i: nat)
    ensures i <= |conns| && (i < |conns| ==> conns[i].state != FREE && conns[i].id == id)
    ensures forall j :: 0 <= j < i ==> conns[j].state == FREE || conns[j].id != id
  {
    if conns == [] || (conns[0].state != FREE && conns[0].id == id) then 0 else 1 + FindById(conns[1..], id)
  }

  function LiveCount(conns: seq<Conn>): nat {
    if conns == [] then 0 else LiveCount(conns[..|conns| - 1]) + if conns[|conns| - 1].state == FREE then 0 else 1
  }

  function FreeConn(s: Server, i: nat): Server
    requires i < |s.conns|
  {
    s.(conns := s.conns[i := FREE_SLOT], activeCount := s.activeCount - 1)
  }

  // ---- Arming operations ----

  function RecvOp(c: Conn): Op { Recv(c.id, c.fd, if c.recvLen <= RECV_BUF_SIZE then RECV_BUF_SIZE - c.recvLen else 0) }

  function SendOp(c: Conn): Op {
    Send(c.id, c.fd, if c.sendOffset <= |c.sendBuf| then c.sendBuf[c.sendOffset..] else [])
  }

  function CloseOp(c: Conn): Op { Close(c.id, c.fd) }

  /** Receive into the free part of the buffer, with a linked timeout if one applies. */
  function ArmRecv(s: Server, i: nat, timed: bool): Server
    requires i < |s.conns|
  {
    var c := s.conns[i];
    s.(ops := s.ops + multiset{RecvOp(c)} + if timed then multiset{Timeout(c.id)} else multiset{})
  }

  function ArmClose(s: Server, i: nat): Server
    requires i < |s.conns|
  {
    var c := s.conns[i];
    s.(ops := s.ops + multiset{CloseOp(c)}, conns := s.conns[i := Transition(c, CLOSING)])
  }

  function Append(log: map<nat, seq<byte>>, id: nat, data: seq<byte>): map<nat, seq<byte>> {
    log[id := (if id in log then log[id] else []) + data]
  }

  /** Hand a response over for sending; refused while a send is in flight. */
  function ArmSend(s: Server, i: nat, data: seq<byte>): Server
    requires i < |s.conns| && !s.conns[i].sendActive
  {
    var c := s.conns[i].(sendBuf := data, sendOffset := 0, sendActive := true);
    s.(conns := s.conns[i := c], ops := s.ops + multiset{SendOp(c)}, queued := Append(s.queued, c.id, data))
  }

  // ---- Events ----

  /** What the server makes of the received bytes. */
  datatype Outcome =
    | WaitMore(timed: bool)
    | Refuse(response: seq<byte>)
    | Serve(response: seq<byte>, keepAlive: bool, remaining: nat)
    | Unserializable(keepAlive: bool, remaining: nat)

  datatype Event =
    | Accepted(fd: int, timed: bool)
    | Received(op: Op, res: int, outcome: Outcome)
    | SendDone(op: Op, res: int, timed: bool)
    | Closed(op: Op)
    | TimedOut(op: Op, fired: bool)
    | Drain
    | Shutdown

  /** The completions the kernel can deliver: of submitted operations, within their bounds. */
  predicate Enabled(s: Server, e: Event) {
    match e
    case Accepted(_, _) => true
    case Received(op, res, outcome) =>
      && op in s.ops && op.Recv? && res <= op.room
      && (outcome.Serve? ==> outcome.response != []) && (outcome.Refuse? ==> outcome.response != [])
      && (outcome.Serve? || outcome.Unserializable? ==> outcome.remaining <= RECV_BUF_SIZE)
    case SendDone(op, res, _) => op in s.ops && op.Send? && res <= |op.data|
    case Closed(op) => op in s.ops && op.Close?
    case TimedOut(op, _) => op in s.ops && op.Timeout?
    case Drain => true
    case Shutdown => true
  }

  function OnAccept(s: Server, fd: int, timed: bool): Server {
    var i := FindFree(s.conns);
    if i == |s.conns| then s
    else
      var c := Transition(FREE_SLOT.(state := ACCEPTING, id := s.nextId, fd := fd), HTTP_ACTIVE);
      var s' := s.(conns := s.conns[i := c], activeCount := s.activeCount + 1, nextId := s.nextId + 1,
                   sent := s.sent[s.nextId := []], queued := s.queued[s.nextId := []]);
      ArmRecv(s', i, timed)
  }

  function OnOutcome(s: Server, i: nat, outcome: Outcome): Server
    requires i < |s.conns|
  {
    var c := s.conns[i];
    match outcome
    case WaitMore(timed) => ArmRecv(s, i, timed)
    case Refuse(response) =>
      var s' := if c.sendActive then s else ArmSend(s, i, response);
      s'.(conns := s'.conns[i := s'.conns[i].(keepAlive := false)])
    case Serve(response, keepAlive, remaining) =>
      if c.sendActive then
        var s' := ArmClose(s, i);
        s'.(conns := s'.conns[i := s'.conns[i].(recvLen := remaining)])
      else
        var s' := ArmSend(s, i, response);
        s'.(conns := s'.conns[i := s'.conns[i].(keepAlive := keepAlive, recvLen := remaining)])
    case Unserializable(keepAlive, remaining) =>
      s.(conns := s.conns[i := c.(keepAlive := keepAlive, recvLen := remaining)], stalled := s.stalled + {c.id})
  }

  function OnReceived(s: Server, op: Op, res: int, outcome: Outcome): Server {
    var s := s.(ops := s.ops - multiset{op});
    var i := FindById(s.conns, op.id);
    if i == |s.conns| then s
    else if res <= 0 then ArmClose(s, i)
    else OnOutcome(s.(conns := s.conns[i := s.conns[i].(recvLen := s.conns[i].recvLen + res)]), i, outcome)
  }

  /** The bytes the kernel took. */
  function Taken(op: Op, res: int): seq<byte>
    requires op.Send? && res <= |op.data|
  {
    if res <= 0 then [] else op.data[..res]
  }

  function OnSent(s: Server, i: nat, res: nat, timed: bool): Server
    requires i < |s.conns|
  {
    var c := s.conns[i].(sendOffset := s.conns[i].sendOffset + res);
    if c.sendOffset < |c.sendBuf| then
      var c' := c.(sendActive := true);
      s.(conns := s.conns[i := c'], ops := s.ops + multiset{SendOp(c')})
    else
      var c' := c.(sendBuf := [], sendOffset := 0);
      if c'.keepAlive && c'.state == HTTP_ACTIVE then ArmRecv(s.(conns := s.conns[i := c'.(recvLen := 0)]), i, timed)
      else ArmClose(s.(conns := s.conns[i := c']), i)
  }

  function OnSendDone(s: Server, op: Op, res: int, timed: bool): Server
    requires op.Send? && res <= |op.data|
  {
    var s := s.(ops := s.ops - multiset{op}, sent := Append(s.sent, op.id, Taken(op, res)));
    var i := FindById(s.conns, op.id);
    if i == |s.conns| then s
    else
      var s' := s.(conns := s.conns[i := s.conns[i].(sendActive := false)]);
      if res < 0 then ArmClose(s', i) else OnSent(s', i, res, timed)
  }

  function OnClosed(s: Server, op: Op): Server {
    var s := s.(ops := s.ops - multiset{op});
    var i := FindById(s.conns, op.id);
    if i == |s.conns| then s else FreeConn(s, i)
  }

  function OnTimedOut(s: Server, op: Op, fired: bool): Server {
    var s := s.(ops := s.ops - multiset{op});
    var i := FindById(s.conns, op.id);
    if !fired || i == |s.conns| then s else ArmClose(s, i)
  }

  function DrainConn(c: Conn): Conn {
    if c.state == HTTP_ACTIVE then Transition(c, DRAINING).(keepAlive := false) else c
  }

  function DrainAll(conns: seq<Conn>): (r: seq<Conn>)
    ensures |r| == |conns| && forall i :: 0 <= i < |conns| ==> r[i] == DrainConn(conns[i])
  {
    seq(|conns|, i requires 0 <= i < |conns| => DrainConn(conns[i]))
  }

  function FreeAll(conns: seq<Conn>): (r: seq<Conn>)
    ensures |r| == |conns| && forall i :: 0 <= i < |conns|
                                          ==> r[i] == if conns[i].state == FREE then conns[i] else FREE_SLOT
  {
    seq(|conns|, i requires 0 <= i < |conns| => if conns[i].state == FREE then conns[i] else FREE_SLOT)
  }

  function Step(s: Server, e: Event): Server
    requires Enabled(s, e)
  {
    match e
    case Accepted(fd, timed) => OnAccept(s, fd, timed)
    case Received(op, res, outcome) => OnReceived(s, op, res, outcome)
    case SendDone(op, res, timed) => OnSendDone(s, op, res, timed)
    case Closed(op) => OnClosed(s, op)
    case TimedOut(op, fired) => OnTimedOut(s, op, fired)
    case Drain => s.(conns := DrainAll(s.conns))
    case Shutdown => s.(conns := FreeAll(s.conns), activeCount := s.activeCount - LiveCount(s.conns))
  }

  /** The server after a run, if every event was possible when it happened. */
  ghost predicate IsRun(s: Server, run: seq<Event>, s': Server)
    decreases |run|
  {
    if run == [] then s' == s
    else Enabled(s, run[0]) && IsRun(Step(s, run[0]), run[1..], s')
  }
}
