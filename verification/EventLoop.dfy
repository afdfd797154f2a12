/** The connection pool and the completion handlers as they run: slots updated in place. */
module EventLoop {
  import opened Bytes
  import opened ConnSpec

  class Loop {
    const pool: array<Conn>
    var activeCount: int
    var nextId: nat
    // The operations submitted and not yet completed.
    var ring: multiset<Op>
    ghost var sent: map<nat, seq<byte>>
    ghost var queued: map<nat, seq<byte>>
    ghost var stalled: set<nat>

    ghost function Value(): Server
      reads this, pool
    {
      Server(pool[..], activeCount, nextId, ring, sent, queued, stalled)
    }

    constructor (maxConns: nat)
      ensures Value() == Start(maxConns) && fresh(pool)
    {
      pool := new Conn[maxConns](_ => FREE_SLOT);
      activeCount, nextId, ring := 0, 1, multiset{};
      sent, queued, stalled := map[], map[], {};
      new;
      assert pool[..] == seq(maxConns, _ => FREE_SLOT);
    }

    // ---- The pool ----

    /** Take the first free slot; `pool.Length` if there is none. */
    method Alloc() returns (i: nat)
      modifies this`activeCount, this`nextId, pool
      ensures i == FindFree(old(pool[..])) <= pool.Length
      ensures if i == pool.Length then unchanged(this) && unchanged(pool)
              else pool[..] == old(pool[..])[i := FREE_SLOT.(state := ACCEPTING, id := old(nextId))]
                   && nextId == old(nextId) + 1 && activeCount == old(activeCount) + 1
    {
      i := 0;
      while i < pool.Length && pool[i].state != FREE
        invariant i <= pool.Length
        invariant forall j :: 0 <= j < i ==> pool[j].state != FREE
      {
        i := i + 1;
      }
      if i < pool.Length {
        pool[i] := FREE_SLOT.(state := ACCEPTING, id := nextId);
        nextId, activeCount := nextId + 1, activeCount + 1;
      }
    }

    method Free(i: nat)
      requires i < pool.Length
      modifies this`activeCount, pool
      ensures Value() == FreeConn(old(Value()), i)
    {
      pool[i] := FREE_SLOT;
      activeCount := activeCount - 1;
    }

    method FindConnById(id: nat) returns (i: nat)
      ensures i == FindById(pool[..], id)
      ensures i == pool.Length <==> forall j :: 0 <= j < pool.Length ==> pool[j].state == FREE || pool[j].id != id
    {
      i := 0;
      while i < pool.Length && !(pool[i].state != FREE && pool[i].id == id)
        invariant i <= pool.Length
        invariant forall j :: 0 <= j < i ==> pool[j].state == FREE || pool[j].id != id
      {
        i := i + 1;
      }
    }

    /** A transition outside the table is refused and changes nothing. */
    method TransitionTo(i: nat, dst: ConnState) returns (ok: bool)
      requires i < pool.Length
      modifies pool
      ensures ok == ValidTransition(old(pool[i]).state, dst)
      ensures pool[..] == old(pool[..])[i := Transition(old(pool[i]), dst)]
    {
      ok := ValidTransition(pool[i].state, dst);
      if ok { pool[i] := pool[i].(state := dst); }
    }

    // ---- Arming operations ----

    method ArmRecv(i: nat, timed: bool)
      requires i < pool.Length
      modifies this`ring
      ensures Value() == ConnSpec.ArmRecv(old(Value()), i, timed)
    {
      ring := ring + multiset{RecvOp(pool[i])};
      if timed { ring := ring + multiset{Timeout(pool[i].id)}; }
      assert timed || ring == ring + multiset{};
    }

    /** Refused while a send is in flight. */
    method ArmSend(i: nat, data: seq<byte>) returns (ok: bool)
      requires i < pool.Length
      modifies this`ring, this`queued, pool
      ensures ok == !old(pool[i]).sendActive
      ensures Value() == if ok then ConnSpec.ArmSend(old(Value()), i, data) else old(Value())
    {
      if pool[i].sendActive { return false; }
      pool[i] := pool[i].(sendBuf := data, sendOffset := 0, sendActive := true);
      ring := ring + multiset{SendOp(pool[i])};
      queued := Append(queued, pool[i].id, data);
      return true;
    }

    method ArmClose(i: nat)
      requires i < pool.Length
      modifies this`ring, pool
      ensures Value() == ConnSpec.ArmClose(old(Value()), i)
    {
      ring := ring + multiset{CloseOp(pool[i])};
      var _ := TransitionTo(i, CLOSING);
    }

    // ---- Completions ----

    method OnAccept(fd: int, timed: bool)
      modifies this, pool
      ensures Value() == ConnSpec.OnAccept(old(Value()), fd, timed)
    {
      hide ConnSpec.ArmRecv;
      var i := Alloc();
      if i < pool.Length {
        pool[i] := pool[i].(fd := fd);
        var _ := TransitionTo(i, HTTP_ACTIVE);
        assert pool[..] == old(pool[..])[i :=
              Transition(FREE_SLOT.(state := ACCEPTING, id := old(nextId), fd := fd), HTTP_ACTIVE)];
        hide Transition;
        sent, queued := sent[old(nextId) := []], queued[old(nextId) := []];
        ArmRecv(i, timed);
      }
    }

    method SendErrorResponse(i: nat, response: seq<byte>)
      requires i < pool.Length
      modifies this`ring, this`queued, pool
      ensures Value() == OnOutcome(old(Value()), i, Refuse(response))
    {
      var _ := ArmSend(i, response);
      pool[i] := pool[i].(keepAlive := false);
    }

    method DispatchRequest(i: nat, response: seq<byte>, keepAlive: bool, remaining: nat)
      requires i < pool.Length
      modifies this`ring, this`queued, pool
      ensures Value() == OnOutcome(old(Value()), i, Serve(response, keepAlive, remaining))
    {
      var ok := ArmSend(i, response);
      if ok {
        pool[i] := pool[i].(keepAlive := keepAlive);
      } else {
        ArmClose(i);
      }
      pool[i] := pool[i].(recvLen := remaining);
    }

    method HandleOutcome(i: nat, outcome: Outcome)
      requires i < pool.Length
      modifies this`ring, this`queued, this`stalled, pool
      ensures Value() == OnOutcome(old(Value()), i, outcome)
    {
      match outcome
      case WaitMore(timed) => ArmRecv(i, timed);
      case Refuse(response) => SendErrorResponse(i, response);
      case Serve(response, keepAlive, remaining) => DispatchRequest(i, response, keepAlive, remaining);
      case Unserializable(keepAlive, remaining) =>
        pool[i] := pool[i].(keepAlive := keepAlive, recvLen := remaining);
        stalled := stalled + {pool[i].id};
    }

    method OnRecv(op: Op, res: int, outcome: Outcome)
      modifies this`ring, this`queued, this`stalled, pool
      ensures Value() == OnReceived(old(Value()), op, res, outcome)
    {
      hide OnOutcome;
      ring := ring - multiset{op};
      var i := FindConnById(op.id);
      if i == pool.Length { return; }
      if res <= 0 {
        ArmClose(i);
        return;
      }
      pool[i] := pool[i].(recvLen := pool[i].recvLen + res);
      HandleOutcome(i, outcome);
    }

    method ContinueSend(i: nat, res: nat, timed: bool)
      requires i < pool.Length
      modifies this`ring, pool
      ensures Value() == OnSent(old(Value()), i, res, timed)
    {
      hide ConnSpec.ArmRecv, ConnSpec.ArmClose;
      pool[i] := pool[i].(sendOffset := pool[i].sendOffset + res);
      if pool[i].sendOffset < |pool[i].sendBuf| {
        pool[i] := pool[i].(sendActive := true);
        ring := ring + multiset{SendOp(pool[i])};
      } else {
        pool[i] := pool[i].(sendBuf := [], sendOffset := 0);
        if pool[i].keepAlive && pool[i].state == HTTP_ACTIVE {
          pool[i] := pool[i].(recvLen := 0);
          assert pool[..] == old(pool[..])[i := pool[i]];
          ArmRecv(i, timed);
        } else {
          assert pool[..] == old(pool[..])[i := pool[i]];
          ArmClose(i);
        }
      }
    }

    method OnSend(op: Op, res: int, timed: bool)
      requires op.Send? && res <= |op.data|
      modifies this`ring, this`sent, pool
      ensures Value() == OnSendDone(old(Value()), op, res, timed)
    {
      hide OnSent, Taken;
      ring := ring - multiset{op};
      sent := Append(sent, op.id, Taken(op, res));
      var i := FindConnById(op.id);
      if i == pool.Length { return; }
      pool[i] := pool[i].(sendActive := false);
      if res < 0 {
        ArmClose(i);
      } else {
        ContinueSend(i, res, timed);
      }
    }

    method OnClose(op: Op)
      modifies this`ring, this`activeCount, pool
      ensures Value() == OnClosed(old(Value()), op)
    {
      ring := ring - multiset{op};
      var i := FindConnById(op.id);
      if i < pool.Length { Free(i); }
    }

    method OnTimeout(op: Op, fired: bool)
      modifies this`ring, pool
      ensures Value() == OnTimedOut(old(Value()), op, fired)
    {
      ring := ring - multiset{op};
      if fired {
        var i := FindConnById(op.id);
        if i < pool.Length { ArmClose(i); }
      }
    }

    /** One completion, whatever it is. */
    method Handle(e: Event)
      requires Enabled(Value(), e)
      modifies this, pool
      ensures Value() == Step(old(Value()), e)
    {
      hide ConnSpec.OnAccept, OnReceived, OnSendDone, OnClosed, OnTimedOut;
      match e
      case Accepted(fd, timed) => OnAccept(fd, timed);
      case Received(op, res, outcome) => OnRecv(op, res, outcome);
      case SendDone(op, res, timed) => OnSend(op, res, timed);
      case Closed(op) => OnClose(op);
      case TimedOut(op, fired) => OnTimeout(op, fired);
      case Drain => BeginDrain();
      case Shutdown => CloseAll();
    }

    // ---- Shutdown ----

    method BeginDrain()
      modifies pool
      ensures Value() == old(Value()).(conns := DrainAll(old(pool[..])))
    {
      var i := 0;
      while i < pool.Length
        invariant i <= pool.Length
        invariant forall j :: 0 <= j < i ==> pool[j] == DrainConn(old(pool[j]))
        invariant forall j :: i <= j < pool.Length ==> pool[j] == old(pool[j])
      {
        if pool[i].state == HTTP_ACTIVE {
          pool[i] := pool[i].(state := DRAINING, keepAlive := false);
        }
        i := i + 1;
      }
      assert pool[..] == DrainAll(old(pool[..]));
    }

    /** Free every connection still live; free slots are left alone. */
    method CloseAll()
      modifies this`activeCount, pool
      ensures Value() == Step(old(Value()), Shutdown)
    {
      var i := 0;
      while i < pool.Length
        invariant i <= pool.Length
        invariant forall j :: 0 <= j < i ==> pool[j] == if old(pool[j]).state == FREE then old(pool[j]) else FREE_SLOT
        invariant forall j :: i <= j < pool.Length ==> pool[j] == old(pool[j])
        invariant activeCount == old(activeCount) - LiveCount(old(pool[..])[..i])
      {
        assert old(pool[..])[..i + 1][..i] == old(pool[..])[..i];
        if pool[i].state != FREE { Free(i); }
        i := i + 1;
      }
      assert old(pool[..])[..i] == old(pool[..]);
      assert pool[..] == FreeAll(old(pool[..]));
    }
  }
}
