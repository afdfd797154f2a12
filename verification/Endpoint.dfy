/** The server as it runs: the event loop and, for each slot of its pool, the buffer that bytes are received into. */
module Endpoint {
  import opened Bytes
  import opened ConnSpec
  import opened ConnTheorems
  import opened ResponseSpec
  import opened ReceiveSpec
  import opened Wire
  import EventLoop
  import Receive

  class Endpoint {
    const loop: EventLoop.Loop
    const bufs: seq<array<byte>>
    const lim: Limits
    ghost var peers: map<nat, Peer>

    ghost function Value(): Net
      reads this, loop, loop.pool
    {
      Net(loop.Value(), peers)
    }

    /** Each slot has a buffer of its own. */
    ghost predicate OwnBuffers() {
      && |bufs| == loop.pool.Length && (forall i :: 0 <= i < |bufs| ==> bufs[i].Length == RECV_BUF_SIZE)
      && (forall i, j :: 0 <= i < j < |bufs| ==> bufs[i] != bufs[j])
    }

    /** The buffer of slot `i` starts with the bytes of its connection. */
    ghost predicate Holds(i: nat)
      requires OwnBuffers() && i < |bufs|
      reads this, loop, loop.pool, bufs
    {
      var c := loop.pool[i];
      Live(c) ==> c.id in peers && |peers[c.id].buf| <= RECV_BUF_SIZE
                  && bufs[i][..|peers[c.id].buf|] == peers[c.id].buf
    }

    ghost predicate Valid(w: World)
      reads this, loop, loop.pool, bufs
    {
      && w.lim == lim && OwnBuffers() && NetInv(w, Value())
      && forall i :: 0 <= i < |bufs| ==> Holds(i)
    }

    constructor (maxConns: nat, lim: Limits, ghost w: World)
      requires w.lim == lim
      ensures this.lim == lim && Value() == StartNet(maxConns) && Valid(w)
      ensures fresh(loop) && fresh(loop.pool) && forall i :: 0 <= i < |bufs| ==> fresh(bufs[i])
    {
      var l := new EventLoop.Loop(maxConns);
      var bs: seq<array<byte>> := [];
      while |bs| < maxConns
        invariant |bs| <= maxConns && l.Value() == Start(maxConns) && fresh(l) && fresh(l.pool)
        invariant forall i :: 0 <= i < |bs| ==> fresh(bs[i]) && bs[i].Length == RECV_BUF_SIZE
        invariant forall i, j :: 0 <= i < j < |bs| ==> bs[i] != bs[j]
      {
        var b := new byte[RECV_BUF_SIZE];
        bs := bs + [b];
      }
      this.loop, this.bufs, this.lim, peers := l, bs, lim, map[];
      new;
      assert loop.pool[..] == Start(maxConns).conns;
      assert forall i :: 0 <= i < maxConns ==> !Live(loop.pool[..][i]);
      StartValid(w, maxConns);
    }

    /** The kernel's part of a receive: bytes are put behind those that are there. */
    method Fill(i: nat, at: nat, bytes: seq<byte>)
      requires OwnBuffers() && i < |bufs| && at + |bytes| <= RECV_BUF_SIZE
      modifies bufs[i]
      ensures bufs[i][..at + |bytes|] == old(bufs[i][..at]) + bytes
    {
      var k := 0;
      while k < |bytes|
        invariant k <= |bytes|
        invariant bufs[i][..at + k] == old(bufs[i][..at]) + bytes[..k]
      {
        bufs[i][at + k] := bytes[k];
        k := k + 1;
      }
      assert bytes[..|bytes|] == bytes;
    }

    /** A receive brings bytes; `resp` is the application's response, should it be asked for one. */
    method OnData(op: Op, bytes: seq<byte>, timed: bool, resp: Response, ghost w: World)
      requires Valid(w) && Possible(Value(), Data(op, bytes, timed))
      requires IsLive(Value(), op.id) ==> resp == w.app(op.id)(peers[op.id].served)
      modifies this`peers, loop, loop.pool, bufs
      ensures Enabled(old(Value()).server, EventOf(w, old(Value()), Data(op, bytes, timed)))
      ensures Value() == Advance(w, old(Value()), Data(op, bytes, timed)) && Valid(w)
    {
      hide NetInv, Decide, OutcomeOf, OnReceived, Enabled, FindById;
      ghost var n, x := Value(), Data(op, bytes, timed);
      AdvanceKeeps(w, n, x);
      ArrivalFits(w, n, op, bytes, timed);
      var i := loop.FindConnById(op.id);
      if i == loop.pool.Length {
        loop.OnRecv(op, |bytes|, WaitMore(timed));
      } else {
        var at := loop.pool[i].recvLen;
        ghost var p := peers[op.id];
        assert loop.Value().conns[i] == loop.pool[i];
        assert Holds(i);
        Fill(i, at, bytes);
        assert bufs[i][..at + |bytes|] == p.buf + bytes;
        var outcome := Receive.OutcomeOfReceive(lim, bufs[i], at + |bytes|, timed, resp);
        assert bufs[i][..|PeerAfter(w, p, bytes).buf|] == PeerAfter(w, p, bytes).buf;
        loop.OnRecv(op, |bytes|, outcome);
        peers := peers[op.id := PeerAfter(w, p, bytes)];
      }
      assert Value() == Advance(w, n, x);
      OtherSlots(w, n, x, op.id);
      hide Advance, EventOf, PeerAfter;
      forall j | 0 <= j < |bufs| ensures Holds(j) {
        assert loop.pool[j] == Value().server.conns[j] && old(loop.pool[j]) == n.server.conns[j];
        if j != i {
          assert old(Holds(j));
          assert i < |bufs| ==> bufs[j] != bufs[i] by { assert j < i || i < j; }
        }
      }
    }

    /** Anything else: the buffers are left alone, and a finished response may leave less in one of them. */
    method OnOther(e: Event, ghost w: World)
      requires Valid(w) && Possible(Value(), Other(e))
      modifies this`peers, loop, loop.pool
      ensures Enabled(old(Value()).server, e)
      ensures Value() == Advance(w, old(Value()), Other(e)) && Valid(w)
    {
      hide NetInv, Step;
      ghost var n := Value();
      AdvanceKeeps(w, n, Other(e));
      loop.Handle(e);
      peers := Advance(w, n, Other(e)).peers;
      ServerAdvances(w, n, Other(e));
      hide Advance, Enabled;
      forall j | 0 <= j < |bufs| ensures Holds(j) {
        assert old(Holds(j)) && loop.pool[j] == Value().server.conns[j] && old(loop.pool[j]) == n.server.conns[j];
        LessInBuffer(w, n, e, j);
      }
    }

    /** One input, whatever it is. */
    method Handle(x: Input, resp: Response, ghost w: World)
      requires Valid(w) && Possible(Value(), x)
      requires x.Data? && IsLive(Value(), x.op.id) ==> resp == w.app(x.op.id)(peers[x.op.id].served)
      modifies this`peers, loop, loop.pool, bufs
      ensures Enabled(old(Value()).server, EventOf(w, old(Value()), x))
      ensures Value() == Advance(w, old(Value()), x) && Valid(w)
    {
      hide NetInv, Advance, Valid;
      match x
      case Data(op, bytes, timed) => OnData(op, bytes, timed, resp, w);
      case Other(e) => OnOther(e, w);
    }
  }
}
