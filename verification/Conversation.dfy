/**
 A connection's conversation: what is received, one receive after the other, and what is answered.
 It settles which requests on a kept-alive connection are answered.
 */
module Conversation {
  import opened Bytes
  import opened ResponseSpec
  import opened ResponseTheorems
  import opened ReceiveSpec
  import ConnSpec

  /** What was decided and what was handed over for sending: nothing if the response is too large. */
  datatype Answer = Answer(decision: Decision, sent: seq<byte>)

  /** `open`: more is received; `have`: the bytes kept for the next decision. */
  datatype Talk = Talk(open: bool, have: seq<byte>, answers: seq<Answer>)

  const START := Talk(true, [], [])

  /**
   One receive, which never brings more than the buffer has room for; one without bytes ends the connection. `app`
   gives the application's response to each request in turn. Bytes behind a request that is answered are forgotten,
   and the connection stays open only as `OutcomeOf` says.
   */
  function Hear(lim: Limits, app: nat -> Response, t: Talk, data: seq<byte>): Talk {
    if !t.open || |t.have + data| > ConnSpec.RECV_BUF_SIZE then t
    else if data == [] then t.(open := false)
    else
      var got := t.have + data;
      var d := Decide(lim, got);
      match OutcomeOf(d, |got|, false, app(|t.answers|))
      case WaitMore(_) => t.(have := got)
      case Refuse(response) => Talk(false, got, t.answers + [Answer(d, response)])
      case Serve(response, keepAlive, _) => Talk(keepAlive, [], t.answers + [Answer(d, response)])
      case Unserializable(_, _) => Talk(false, [], t.answers + [Answer(d, [])])
  }

  function Converse(lim: Limits, app: nat -> Response, frags: seq<seq<byte>>): Talk
    decreases |frags|
  {
    if frags == [] then START
    else Hear(lim, app, Converse(lim, app, frags[..|frags| - 1]), frags[|frags| - 1])
  }

  /** What receives can bring: they happen only while the connection is open, and within the room of its buffer. */
  ghost predicate AreReceives(lim: Limits, app: nat -> Response, frags: seq<seq<byte>>) {
    forall k :: 0 <= k < |frags| ==> CanFollow(Converse(lim, app, frags[..k]), frags[k])
  }

  predicate CanFollow(t: Talk, data: seq<byte>) { t.open && |t.have + data| <= ConnSpec.RECV_BUF_SIZE }

  // ---- Which requests are answered ----

  /** A request that takes all of `a`. */
  predicate IsWhole(lim: Limits, a: seq<byte>) { Decide(lim, a).Dispatch? && Decide(lim, a).used == |a| }

  predicate AllWhole(lim: Limits, rs: seq<seq<byte>>) { forall i :: 0 <= i < |rs| ==> IsWhole(lim, rs[i]) }

  predicate Fits(resp: Response) { |Serialized(resp)| <= RESPONSE_BUFFER }

  /** Answering `a` with `resp` leaves the connection open. */
  predicate Continues(lim: Limits, a: seq<byte>, resp: Response) {
    Decide(lim, a).Dispatch? && Decide(lim, a).req.keepAlive && resp.status < 400 && Fits(resp)
  }

  /** Every request answered, in order. */
  function Answered(lim: Limits, app: nat -> Response, rs: seq<seq<byte>>): seq<Answer> {
    seq(|rs|, i requires 0 <= i < |rs| => Answer(Decide(lim, rs[i]), Serialized(app(i))))
  }

  function Length(frags: seq<seq<byte>>, k: nat): nat
    requires k <= |frags|
  {
    |Flatten(frags[..k])|
  }

  /** Every request ends where a receive ends. */
  ghost predicate Aligned(frags: seq<seq<byte>>, rs: seq<seq<byte>>) {
    forall j :: 0 <= j <= |rs| ==> EndsAt(frags, Length(rs, j))
  }

  ghost predicate EndsAt(frags: seq<seq<byte>>, n: nat) { exists k :: 0 <= k <= |frags| && Length(frags, k) == n }

  ghost predicate AllFit(app: nat -> Response, n: nat) { forall i :: 0 <= i < n ==> Fits(app(i)) }

  /** Every request finds room in the buffer. */
  predicate AllShort(rs: seq<seq<byte>>) { forall i :: 0 <= i < |rs| ==> |rs[i]| <= ConnSpec.RECV_BUF_SIZE }

  /** No response is too large, and every request but the last leaves the connection open. */
  ghost predicate AllContinue(lim: Limits, app: nat -> Response, rs: seq<seq<byte>>) {
    && AllFit(app, |rs|)
    && (forall i :: 0 <= i < |rs| - 1 ==> Continues(lim, rs[i], app(i)))
  }

  // ---- Joined texts ----

  lemma {:induction false} FlattenAppend(a: seq<seq<byte>>, b: seq<seq<byte>>)
    ensures Flatten(a + b) == Flatten(a) + Flatten(b)
    decreases |a|
  {
    if a == [] {
      assert a + b == b;
    } else {
      assert (a + b)[1..] == a[1..] + b;
      FlattenAppend(a[1..], b);
    }
  }

  lemma LengthStep(frags: seq<seq<byte>>, k: nat)
    requires k < |frags|
    ensures Length(frags, k + 1) == Length(frags, k) + |frags[k]|
    ensures Flatten(frags[..k + 1]) == Flatten(frags[..k]) + frags[k]
  {
    assert frags[..k + 1] == frags[..k] + [frags[k]];
    FlattenAppend(frags[..k], [frags[k]]);
    assert Flatten([frags[k]]) == frags[k] + [] == frags[k];
  }

  lemma {:induction false} LengthMonotone(frags: seq<seq<byte>>, i: nat, k: nat)
    requires i <= k <= |frags|
    ensures Length(frags, i) <= Length(frags, k)
    decreases k
  {
    hide Length;
    if i < k {
      LengthMonotone(frags, i, k - 1);
      LengthStep(frags, k - 1);
    }
  }

  lemma PrefixOf(frags: seq<seq<byte>>, k: nat)
    requires k <= |frags|
    ensures Length(frags, k) <= |Flatten(frags)| && Flatten(frags)[..Length(frags, k)] == Flatten(frags[..k])
    ensures Length(frags, 0) == 0 && Length(frags, |frags|) == |Flatten(frags)|
  {
    FlattenAppend(frags[..k], frags[k..]);
    assert frags == frags[..k] + frags[k..] && frags[..|frags|] == frags;
  }

  /** The `j`-th of the joined texts. */
  lemma PieceOf(rs: seq<seq<byte>>, j: nat)
    requires j < |rs|
    ensures Length(rs, j) <= Length(rs, j + 1) <= |Flatten(rs)|
    ensures Flatten(rs)[Length(rs, j)..Length(rs, j + 1)] == rs[j]
  {
    LengthStep(rs, j);
    PrefixOf(rs, j);
    PrefixOf(rs, j + 1);
    var s := Flatten(rs);
    assert s[Length(rs, j)..Length(rs, j + 1)] == s[..Length(rs, j + 1)][Length(rs, j)..];
  }

  // ---- Counting bytes ----

  function UsedBy(a: Answer): nat { if a.decision.Dispatch? then a.decision.used else 0 }

  /** The bytes of the requests answered. */
  function Used(answers: seq<Answer>): nat {
    if answers == [] then 0 else Used(answers[..|answers| - 1]) + UsedBy(answers[|answers| - 1])
  }

  lemma UsedAppend(answers: seq<Answer>, a: Answer)
    ensures Used(answers + [a]) == Used(answers) + UsedBy(a)
  {
    assert (answers + [a])[..|answers|] == answers;
  }

  /** A receive gives at most one answer, and neither uses nor keeps more bytes than there are. */
  lemma HearStep(lim: Limits, app: nat -> Response, t: Talk, data: seq<byte>)
    ensures
      var t' := Hear(lim, app, t, data);
      && Used(t'.answers) + |t'.have| <= Used(t.answers) + |t.have| + |data|
      && (t'.answers == t.answers
          || (t.open && |t'.answers| == |t.answers| + 1 && t'.answers[..|t.answers|] == t.answers
             && (t'.answers[|t.answers|].decision.Dispatch? ==> t'.have == [])))
      && (!t.open ==> t' == t)
  {
    hide Decide, Serialized, Used;
    var t' := Hear(lim, app, t, data);
    if t'.answers != t.answers { UsedAppend(t.answers, t'.answers[|t.answers|]); }
  }

  /** What an answered request says about its response. */
  lemma HearAnswer(lim: Limits, app: nat -> Response, t: Talk, data: seq<byte>)
    ensures
      var t', i := Hear(lim, app, t, data), |t.answers|;
      t'.answers != t.answers && t'.answers[i].decision.Dispatch?
      ==> && t'.answers[i].decision.used <= ConnSpec.RECV_BUF_SIZE
          && t'.answers[i].sent == (if Fits(app(i)) then Serialized(app(i)) else [])
          && (t'.open <==> t'.answers[i].decision.req.keepAlive && app(i).status < 400 && Fits(app(i)))
  {
    hide Decide, Serialized;
  }

  lemma ConversePrefix(lim: Limits, app: nat -> Response, frags: seq<seq<byte>>, k: nat)
    requires k < |frags|
    ensures Converse(lim, app, frags[..k + 1]) == Hear(lim, app, Converse(lim, app, frags[..k]), frags[k])
  {
    hide Hear;
    assert frags[..k + 1][..k] == frags[..k];
  }

  /** Bytes neither kept nor used for an answer are lost for good. */
  lemma {:induction false} LostForGood(lim: Limits, app: nat -> Response, frags: seq<seq<byte>>, k: nat, n: nat)
    requires k <= n <= |frags|
    ensures
      var t, t' := Converse(lim, app, frags[..k]), Converse(lim, app, frags[..n]);
      && Used(t'.answers) + |t'.have| - Length(frags, n) <= Used(t.answers) + |t.have| - Length(frags, k)
      && |t.answers| <= |t'.answers| && t'.answers[..|t.answers|] == t.answers
      && (!t.open ==> t' == t)
    decreases n
  {
    hide Hear, Converse, Used, Length;
    if k < n {
      LostForGood(lim, app, frags, k, n - 1);
      ConversePrefix(lim, app, frags, n - 1);
      LengthStep(frags, n - 1);
      HearStep(lim, app, Converse(lim, app, frags[..n - 1]), frags[n - 1]);
    }
  }

  /** The receive that brings the `j`-th answer. */
  lemma {:induction false} AnswerAt(lim: Limits, app: nat -> Response, frags: seq<seq<byte>>, n: nat, j: nat)
      returns (k: nat)
    requires n <= |frags| && 0 < j <= |Converse(lim, app, frags[..n]).answers|
    ensures k < n && |Converse(lim, app, frags[..k]).answers| == j - 1
    ensures |Converse(lim, app, frags[..k + 1]).answers| == j
    decreases n
  {
    hide Hear;
    assert frags[..0] == [];
    ConversePrefix(lim, app, frags, n - 1);
    HearStep(lim, app, Converse(lim, app, frags[..n - 1]), frags[n - 1]);
    hide Converse;
    k := n - 1;
    if j <= |Converse(lim, app, frags[..n - 1]).answers| { k := AnswerAt(lim, app, frags, n - 1, j); }
  }

  lemma {:induction false} UsedAnswered(lim: Limits, app: nat -> Response, rs: seq<seq<byte>>, j: nat)
    requires AllWhole(lim, rs) && j <= |rs|
    ensures Used(Answered(lim, app, rs)[..j]) == Length(rs, j)
    decreases j
  {
    hide Decide, Serialized, Length, Flatten;
    var all := Answered(lim, app, rs);
    if j == 0 {
      PrefixOf(rs, 0);
    } else {
      UsedAnswered(lim, app, rs, j - 1);
      LengthStep(rs, j - 1);
      assert all[..j] == all[..j - 1] + [all[j - 1]];
      UsedAppend(all[..j - 1], all[j - 1]);
      assert IsWhole(lim, rs[j - 1]);
    }
  }

  // ---- Answered: then aligned ----

  lemma AnswerEnds(lim: Limits, app: nat -> Response, rs: seq<seq<byte>>, frags: seq<seq<byte>>, j: nat)
    requires AllWhole(lim, rs) && |Flatten(frags)| <= |Flatten(rs)| && 0 < j <= |rs|
    requires Converse(lim, app, frags).answers == Answered(lim, app, rs)
    ensures EndsAt(frags, Length(rs, j)) && Fits(app(j - 1)) && (j < |rs| ==> Continues(lim, rs[j - 1], app(j - 1)))
    ensures |rs[j - 1]| <= ConnSpec.RECV_BUF_SIZE && |Flatten(frags)| == |Flatten(rs)|
  {
    hide Hear, Converse, Decide, Serialized, Used, Length, Flatten, Fits;
    var n, all := |frags|, Answered(lim, app, rs);
    assert frags[..n] == frags;
    var k := AnswerAt(lim, app, frags, n, j);
    var t, t' := Converse(lim, app, frags[..k]), Converse(lim, app, frags[..k + 1]);
    ConversePrefix(lim, app, frags, k);
    HearStep(lim, app, t, frags[k]);
    HearAnswer(lim, app, t, frags[k]);
    LostForGood(lim, app, frags, k + 1, n);
    LostForGood(lim, app, frags, 0, k + 1);
    assert IsWhole(lim, rs[j - 1]);
    assert t'.answers == all[..j] && t'.answers[j - 1] == all[j - 1];
    PrefixOf(frags, 0);
    PrefixOf(rs, 0);
    assert frags[..0] == [];
    NothingHeard(lim, app);
    UsedAnswered(lim, app, rs, j);
    UsedAnswered(lim, app, rs, |rs|);
    assert all[..|rs|] == all;
    assert Length(frags, k + 1) == Length(rs, j);
    ResponseNonEmpty(app(j - 1));
  }

  lemma NothingHeard(lim: Limits, app: nat -> Response)
    ensures Converse(lim, app, []) == START && Used([]) == 0
  {
  }

  lemma AnsweredIsAligned(lim: Limits, app: nat -> Response, rs: seq<seq<byte>>, frags: seq<seq<byte>>)
    requires AllWhole(lim, rs) && |Flatten(frags)| <= |Flatten(rs)|
    requires Converse(lim, app, frags).answers == Answered(lim, app, rs)
    ensures |Flatten(frags)| == |Flatten(rs)| && Aligned(frags, rs) && AllContinue(lim, app, rs) && AllShort(rs)
  {
    hide Converse, Decide, Fits, Length, Answered, Flatten, AllWhole, Continues;
    forall j | 0 <= j <= |rs| ensures EndsAt(frags, Length(rs, j)) {
      if j > 0 {
        AnswerEnds(lim, app, rs, frags, j);
      } else {
        PrefixOf(rs, 0);
        PrefixOf(frags, 0);
      }
    }
    forall i | 0 <= i < |rs|
      ensures Fits(app(i)) && (i < |rs| - 1 ==> Continues(lim, rs[i], app(i))) && |rs[i]| <= ConnSpec.RECV_BUF_SIZE
    {
      AnswerEnds(lim, app, rs, frags, i + 1);
    }
    if |rs| > 0 { AnswerEnds(lim, app, rs, frags, 1); } else { NoPieces(rs); }
  }

  lemma NoPieces(rs: seq<seq<byte>>)
    requires rs == []
    ensures |Flatten(rs)| == 0
  {
  }

  // ---- Aligned: then answered ----

  /** After `k` receives: `j` requests are answered, and what has come of the next one is kept. */
  ghost predicate Reached(lim: Limits, app: nat -> Response, rs: seq<seq<byte>>, frags: seq<seq<byte>>, k: nat, j: nat)
    requires k <= |frags| && j <= |rs|
  {
    var t := Converse(lim, app, frags[..k]);
    && Length(rs, j) <= Length(frags, k) <= |Flatten(rs)| && (j < |rs| ==> Length(frags, k) < Length(rs, j + 1))
    && t.answers == Answered(lim, app, rs)[..j] && t.have == Flatten(rs)[Length(rs, j)..Length(frags, k)]
  }

  lemma NonEmptyPiece(lim: Limits, rs: seq<seq<byte>>, j: nat)
    requires AllWhole(lim, rs) && j < |rs|
    ensures Length(rs, j) < Length(rs, j + 1)
  {
    hide Decide;
    assert IsWhole(lim, rs[j]);
    LengthStep(rs, j);
  }

  /** A request's own bytes: its strict prefixes wait, and the whole is answered. */
  lemma HearPiece(lim: Limits, app: nat -> Response, t: Talk, data: seq<byte>, a: seq<byte>)
    requires CanFollow(t, data) && data != [] && IsWhole(lim, a) && t.have + data <= a && Fits(app(|t.answers|))
    ensures
      var resp := app(|t.answers|);
      Hear(lim, app, t, data)
      == if t.have + data == a
         then Talk(Continues(lim, a, resp), [], t.answers + [Answer(Decide(lim, a), Serialized(resp))])
         else t.(have := t.have + data)
  {
    hide Decide, Serialized;
    var got := t.have + data;
    DispatchPrompt(lim, a, |got|);
    assert a[..|got|] == got;
  }

  lemma ReachedStep(lim: Limits, app: nat -> Response, rs: seq<seq<byte>>, frags: seq<seq<byte>>, k: nat, j: nat)
      returns (j': nat)
    requires AllWhole(lim, rs) && Flatten(frags) == Flatten(rs) && Aligned(frags, rs) && AllFit(app, |rs|)
    requires k < |frags| && CanFollow(Converse(lim, app, frags[..k]), frags[k])
    requires j <= |rs| && Reached(lim, app, rs, frags, k, j)
    ensures j' <= |rs| && Reached(lim, app, rs, frags, k + 1, j')
  {
    hide Hear, Converse, Decide, Serialized, Length, Flatten, Fits, Answered, Continues;
    var s, t := Flatten(rs), Converse(lim, app, frags[..k]);
    ConversePrefix(lim, app, frags, k);
    LengthStep(frags, k);
    PrefixOf(frags, k + 1);
    PrefixOf(frags, k);
    PrefixOf(rs, j);
    PrefixOf(rs, |rs|);
    j' := j;
    assert t.have + frags[k] == s[Length(rs, j)..Length(frags, k + 1)] by {
      assert s[..Length(frags, k + 1)] == s[..Length(frags, k)] + frags[k];
      Extend(s, Length(rs, j), Length(frags, k), frags[k]);
    }
    if frags[k] == [] {
      HearNothing(lim, app, t);
    } else {
      var a := rs[j];
      PieceOf(rs, j);
      EndsLater(frags, rs, k, j);
      assert IsWhole(lim, a);
      AnsweredPrefix(lim, app, rs, j);
      HearPiece(lim, app, t, frags[k], a);
      if Length(frags, k + 1) == Length(rs, j + 1) {
        j' := j + 1;
        if j' < |rs| { NonEmptyPiece(lim, rs, j'); }
      } else {
        assert |t.have + frags[k]| < |a|;
      }
    }
  }

  lemma Extend(s: seq<byte>, i: nat, k: nat, x: seq<byte>)
    requires i <= k && k + |x| <= |s| && s[..k + |x|] == s[..k] + x
    ensures s[i..k] + x == s[i..k + |x|]
  {
    assert s[i..k + |x|] == s[..k + |x|][i..];
  }

  lemma HearNothing(lim: Limits, app: nat -> Response, t: Talk)
    ensures Hear(lim, app, t, []).answers == t.answers && Hear(lim, app, t, []).have == t.have
  {
  }

  /** The next request does not end inside the next receive. */
  lemma EndsLater(frags: seq<seq<byte>>, rs: seq<seq<byte>>, k: nat, j: nat)
    requires Aligned(frags, rs) && k < |frags| && j < |rs| && Length(frags, k) < Length(rs, j + 1)
    ensures Length(frags, k + 1) <= Length(rs, j + 1)
  {
    hide Length;
    assert EndsAt(frags, Length(rs, j + 1));
    var i :| 0 <= i <= |frags| && Length(frags, i) == Length(rs, j + 1);
    if i <= k { LengthMonotone(frags, i, k); } else { LengthMonotone(frags, k + 1, i); }
  }

  lemma AnsweredPrefix(lim: Limits, app: nat -> Response, rs: seq<seq<byte>>, j: nat)
    requires j < |rs|
    ensures
      var all := Answered(lim, app, rs);
      |all[..j]| == j && all[..j + 1] == all[..j] + [Answer(Decide(lim, rs[j]), Serialized(app(j)))]
  {
    hide Decide, Serialized;
  }

  lemma {:induction false} ReachedAll(lim: Limits, app: nat -> Response, rs: seq<seq<byte>>, frags: seq<seq<byte>>,
                                      k: nat) returns (j: nat)
    requires AllWhole(lim, rs) && Flatten(frags) == Flatten(rs) && Aligned(frags, rs) && AllFit(app, |rs|)
    requires AreReceives(lim, app, frags) && k <= |frags|
    ensures j <= |rs| && Reached(lim, app, rs, frags, k, j)
    decreases k
  {
    hide Hear, Decide, Serialized, Length, Flatten, Aligned, AllFit, CanFollow;
    if k == 0 {
      j := 0;
      PrefixOf(rs, 0);
      PrefixOf(frags, 0);
      assert frags[..0] == [];
      if |rs| > 0 { NonEmptyPiece(lim, rs, 0); }
    } else {
      hide Converse, Reached, AllWhole;
      var i := ReachedAll(lim, app, rs, frags, k - 1);
      j := ReachedStep(lim, app, rs, frags, k - 1, i);
    }
  }

  lemma AlignedIsAnswered(lim: Limits, app: nat -> Response, rs: seq<seq<byte>>, frags: seq<seq<byte>>)
    requires AllWhole(lim, rs) && Flatten(frags) == Flatten(rs) && Aligned(frags, rs) && AllFit(app, |rs|)
    requires AreReceives(lim, app, frags)
    ensures Converse(lim, app, frags).answers == Answered(lim, app, rs)
  {
    hide Converse, Decide, Serialized, Length, Flatten, AllFit, Aligned, AllWhole, AreReceives;
    var j := ReachedAll(lim, app, rs, frags, |frags|);
    assert frags[..|frags|] == frags;
    PrefixOf(frags, |frags|);
    if j < |rs| { PrefixOf(rs, j + 1); }
    assert Answered(lim, app, rs)[..|rs|] == Answered(lim, app, rs);
  }

  /**
   Whole requests, of which receives bring a part or all: every request is answered, in order and with its response,
   if and only if all bytes are received, each request ends where a receive ends, every response fits, every request
   but the last leaves the connection open (it asks for that and its response has a status below 400), and every
   request finds room in the buffer of 8192 bytes.
   */
  lemma AnsweredExactly(lim: Limits, app: nat -> Response, rs: seq<seq<byte>>, frags: seq<seq<byte>>)
    requires AllWhole(lim, rs) && AreReceives(lim, app, frags) && Flatten(frags) <= Flatten(rs)
    ensures
      Converse(lim, app, frags).answers == Answered(lim, app, rs)
      <==> Flatten(frags) == Flatten(rs) && Aligned(frags, rs) && AllContinue(lim, app, rs) && AllShort(rs)
  {
    hide Converse, Answered, Aligned, AllWhole, AreReceives, Flatten, AllShort, AllFit, Continues;
    if Converse(lim, app, frags).answers == Answered(lim, app, rs) { AnsweredIsAligned(lim, app, rs, frags); }
    if Flatten(frags) == Flatten(rs) && Aligned(frags, rs) && AllContinue(lim, app, rs) {
      AlignedIsAnswered(lim, app, rs, frags);
    }
  }

  // ---- A request longer than the buffer ----

  /** It is never answered, however much of it is received, whatever the header limit. */
  lemma LongRequestLost(lim: Limits, app: nat -> Response, a: seq<byte>, frags: seq<seq<byte>>)
    requires IsWhole(lim, a) && |a| > ConnSpec.RECV_BUF_SIZE
    requires AreReceives(lim, app, frags) && Flatten(frags) <= a
    ensures Converse(lim, app, frags).answers == []
  {
    hide Converse, Decide, Flatten, AreReceives;
    LongWaits(lim, app, a, frags, |frags|);
    assert frags[..|frags|] == frags;
  }

  lemma {:induction false} LongWaits(lim: Limits, app: nat -> Response, a: seq<byte>, frags: seq<seq<byte>>, k: nat)
    requires IsWhole(lim, a) && |a| > ConnSpec.RECV_BUF_SIZE
    requires AreReceives(lim, app, frags) && Flatten(frags) <= a && k <= |frags|
    ensures
      var t := Converse(lim, app, frags[..k]);
      t.answers == [] && t.have == Flatten(frags[..k])
    decreases k
  {
    hide Decide, Hear;
    if k == 0 {
      assert frags[..0] == [];
    } else {
      hide Converse, Flatten;
      LongWaits(lim, app, a, frags, k - 1);
      var t := Converse(lim, app, frags[..k - 1]);
      assert CanFollow(t, frags[k - 1]);
      LengthStep(frags, k - 1);
      PrefixOf(frags, k);
      ConversePrefix(lim, app, frags, k - 1);
      assert t.have + frags[k - 1] <= a by { assert Flatten(frags)[..Length(frags, k)] <= a; }
      HearLong(lim, app, t, frags[k - 1], a);
    }
  }

  lemma HearLong(lim: Limits, app: nat -> Response, t: Talk, data: seq<byte>, a: seq<byte>)
    requires IsWhole(lim, a) && |a| > ConnSpec.RECV_BUF_SIZE && CanFollow(t, data) && t.have + data <= a
    ensures Hear(lim, app, t, data).answers == t.answers && Hear(lim, app, t, data).have == t.have + data
  {
    hide Decide, Serialized;
    var got := t.have + data;
    DispatchPrompt(lim, a, |got|);
    assert a[..|got|] == got;
  }

  /** An instance under a header limit of 20000: the buffer is filled, and the next receive gets nothing. */
  lemma LongExample(app: nat -> Response)
    ensures
      var lim, a := Limits(20000, 0), PrintedRequest(HostRequest(9000));
      && IsWhole(lim, a) && |a| == 9026
      && AreReceives(lim, app, [a[..8192], []])
      && Converse(lim, app, [a[..8192], []]) == Talk(false, a[..8192], [])
  {
    var lim, a := Limits(20000, 0), PrintedRequest(HostRequest(9000));
    hide Decide, PrintedRequest, Serialized;
    HostDecides(lim, 9000, []);
    assert a + [] == a;
    var frags := [a[..8192], []];
    assert frags[..0] == [] && frags[..1] == [a[..8192]] && [a[..8192]][..0] == [];
    assert [] + a[..8192] == a[..8192];
    HearLong(lim, app, START, a[..8192], a);
    StillOpen(lim, app, START, a[..8192], a);
  }

  lemma StillOpen(lim: Limits, app: nat -> Response, t: Talk, data: seq<byte>, a: seq<byte>)
    requires IsWhole(lim, a) && CanFollow(t, data) && data != [] && t.have + data <= a && |t.have + data| < |a|
    ensures Hear(lim, app, t, data).open
  {
    hide Decide, Serialized;
    var got := t.have + data;
    DispatchPrompt(lim, a, |got|);
    assert a[..|got|] == got;
  }

  // ---- Requests of their own, requests together ----

  lemma {:induction false} SeparateStep(lim: Limits, app: nat -> Response, rs: seq<seq<byte>>, k: nat)
    requires AllWhole(lim, rs) && AllContinue(lim, app, rs) && AllShort(rs) && k <= |rs|
    ensures Converse(lim, app, rs[..k])
            == Talk(k == 0 || Continues(lim, rs[k - 1], app(k - 1)), [], Answered(lim, app, rs)[..k])
    decreases k
  {
    hide Decide, Serialized, Hear, Fits;
    if k == 0 {
      assert rs[..0] == [];
    } else {
      SeparateStep(lim, app, rs, k - 1);
      ConversePrefix(lim, app, rs, k - 1);
      AnsweredPrefix(lim, app, rs, k - 1);
      hide Converse, Answered;
      var t, a := Converse(lim, app, rs[..k - 1]), rs[k - 1];
      assert IsWhole(lim, a) && |a| <= ConnSpec.RECV_BUF_SIZE && t.have + a == a;
      HearPiece(lim, app, t, a, a);
    }
  }

  /** Requests that each arrive in a receive of their own: only the responses and the buffer decide. */
  lemma SeparateAnswered(lim: Limits, app: nat -> Response, rs: seq<seq<byte>>)
    requires AllWhole(lim, rs)
    ensures Converse(lim, app, rs).answers == Answered(lim, app, rs) <==> AllContinue(lim, app, rs) && AllShort(rs)
  {
    hide Converse, Answered, AllContinue, AllWhole, AllShort, Length, Flatten;
    if Converse(lim, app, rs).answers == Answered(lim, app, rs) { AnsweredIsAligned(lim, app, rs, rs); }
    if AllContinue(lim, app, rs) && AllShort(rs) {
      SeparateStep(lim, app, rs, |rs|);
      assert rs[..|rs|] == rs;
      AnsweredWhole(lim, app, rs);
    }
  }

  lemma AnsweredWhole(lim: Limits, app: nat -> Response, rs: seq<seq<byte>>)
    ensures Answered(lim, app, rs)[..|rs|] == Answered(lim, app, rs)
  {
    hide Decide, Serialized;
  }

  /** Requests that one receive brings are all answered only if there is no more than one. */
  lemma PipelinedExactly(lim: Limits, app: nat -> Response, rs: seq<seq<byte>>)
    requires AllWhole(lim, rs) && |Flatten(rs)| <= ConnSpec.RECV_BUF_SIZE
    ensures Converse(lim, app, [Flatten(rs)]).answers == Answered(lim, app, rs)
            <==> |rs| == 0 || (|rs| == 1 && Fits(app(0)))
  {
    hide Converse, Answered, Fits, Continues, Flatten, AllWhole, Aligned;
    OnePiece(Flatten(rs));
    if Converse(lim, app, [Flatten(rs)]).answers == Answered(lim, app, rs) {
      AnsweredIsAligned(lim, app, rs, [Flatten(rs)]);
    }
    if |rs| > 1 {
      InsideOne(lim, rs, Flatten(rs));
    } else if |rs| == 1 {
      assert rs == [rs[0]];
      OnePiece(rs[0]);
      SeparateAnswered(lim, app, rs);
    } else {
      NothingToAnswer(lim, app, rs);
    }
  }

  lemma NothingToAnswer(lim: Limits, app: nat -> Response, rs: seq<seq<byte>>)
    requires rs == []
    ensures Converse(lim, app, [Flatten(rs)]).answers == [] == Answered(lim, app, rs)
  {
    hide Decide, Serialized;
    assert [Flatten(rs)][..0] == [];
    HearNothing(lim, app, START);
  }

  lemma InsideOne(lim: Limits, rs: seq<seq<byte>>, s: seq<byte>)
    requires AllWhole(lim, rs) && |rs| > 1 && s == Flatten(rs)
    ensures !Aligned([s], rs)
  {
    hide Flatten, AllWhole;
    NonEmptyPiece(lim, rs, 0);
    NonEmptyPiece(lim, rs, 1);
    PrefixOf(rs, 2);
    PrefixOf([s], 1);
    assert Flatten([s]) == s by { OnePiece(s); }
    hide Length;
    forall k | 0 <= k <= 1 ensures Length([s], k) != Length(rs, 1) {}
    assert !EndsAt([s], Length(rs, 1));
  }

  lemma OnePiece(s: seq<byte>)
    ensures Flatten([s]) == s
  {
    assert Flatten([s]) == s + [] == s;
  }

  // ---- A request that is begun too early ----

  /**
   Behind a request that is answered, in the same receive, the first `k` bytes of the next one: they are forgotten,
   and the next one is not read when the rest of it arrives.
   */
  lemma BegunRequestLost(lim: Limits, app: nat -> Response, a: seq<byte>, b: seq<byte>, k: nat)
    requires IsWhole(lim, a) && IsWhole(lim, b) && 0 < k <= |b|
    ensures |a| + k <= lim.maxHeaderSize && |a| + k <= ConnSpec.RECV_BUF_SIZE && Continues(lim, a, app(0))
            ==> Converse(lim, app, [a + b[..k]]) == Talk(true, [], [Answer(Decide(lim, a), Serialized(app(0)))])
    ensures Converse(lim, app, [a + b[..k], b[k..]]).answers != Answered(lim, app, [a, b])
  {
    hide Converse, Answered, Decide, Serialized, Length, Aligned, Fits, AllContinue;
    if |a| + k <= lim.maxHeaderSize && |a| + k <= ConnSpec.RECV_BUF_SIZE && Continues(lim, a, app(0)) {
      FirstAnswered(lim, app, a, b[..k]);
    }
    var rs, frags := [a, b], [a + b[..k], b[k..]];
    NotAligned(a, b, k);
    hide Flatten;
    if Converse(lim, app, frags).answers == Answered(lim, app, rs) { AnsweredIsAligned(lim, app, rs, frags); }
  }

  lemma NotAligned(a: seq<byte>, b: seq<byte>, k: nat)
    requires a != [] && 0 < k <= |b|
    ensures
      var rs, frags := [a, b], [a + b[..k], b[k..]];
      Flatten(frags) == Flatten(rs) && !Aligned(frags, rs)
  {
    hide Flatten;
    var rs, frags := [a, b], [a + b[..k], b[k..]];
    TwoPieces(a, b);
    TwoPieces(a + b[..k], b[k..]);
    assert a + b == a + b[..k] + b[k..];
    hide Length;
    forall i | 0 <= i <= 2 ensures Length(frags, i) != Length(rs, 1) {}
    assert !EndsAt(frags, Length(rs, 1));
  }

  lemma TwoPieces(a: seq<byte>, b: seq<byte>)
    ensures Flatten([a, b]) == a + b
    ensures Length([a, b], 0) == 0 && Length([a, b], 1) == |a| && Length([a, b], 2) == |a| + |b|
  {
    assert [a, b][1..] == [b];
    OnePiece(b);
    LengthStep([a, b], 0);
    LengthStep([a, b], 1);
    PrefixOf([a, b], 0);
  }

  lemma FirstAnswered(lim: Limits, app: nat -> Response, a: seq<byte>, rest: seq<byte>)
    requires IsWhole(lim, a) && |a| + |rest| <= lim.maxHeaderSize && |a| + |rest| <= ConnSpec.RECV_BUF_SIZE
    requires Continues(lim, a, app(0))
    ensures Converse(lim, app, [a + rest]) == Talk(true, [], [Answer(Decide(lim, a), Serialized(app(0)))])
  {
    hide Decide, Serialized;
    DecisionFinal(lim, a, a + rest);
    assert [a + rest][..0] == [] && [] + (a + rest) == a + rest;
  }

  /** Two complete requests in one receive: the second one is lost. */
  lemma PipelinedRequestLost(lim: Limits, app: nat -> Response, a: seq<byte>, b: seq<byte>)
    requires IsWhole(lim, a) && IsWhole(lim, b) && |a + b| <= lim.maxHeaderSize && |a + b| <= ConnSpec.RECV_BUF_SIZE
    requires Continues(lim, a, app(0))
    ensures Converse(lim, app, [a + b]) == Talk(true, [], [Answer(Decide(lim, a), Serialized(app(0)))])
  {
    FirstAnswered(lim, app, a, b);
  }

  /** An instance: the same small request twice, cut after the first byte of the second one. */
  lemma BegunExample()
    ensures
      var lim, a := Limits(54, 0), PrintedRequest(EXAMPLE);
      var app := (_: nat) => Response(200, [], seq(10, _ => 65), false);
      && IsWhole(lim, a)
      && Converse(lim, app, [a, a]).answers == Answered(lim, app, [a, a])
      && Converse(lim, app, [a + a[..1], a[1..]]).answers != Answered(lim, app, [a, a])
  {
    hide Decide, PrintedRequest, Serialized, Converse, Answered;
    var lim, a := Limits(54, 0), PrintedRequest(EXAMPLE);
    var resp := Response(200, [], seq(10, _ => 65), false);
    var app := (_: nat) => resp;
    ExampleDecides(lim, []);
    assert a + [] == a;
    SmallResponse(resp);
    SeparateAnswered(lim, app, [a, a]);
    BegunRequestLost(lim, app, a, a, 1);
  }

  lemma SmallResponse(resp: Response)
    requires resp.status == 200 && resp.headers == [] && |resp.body| == 10 && !resp.chunked
    ensures Fits(resp)
  {
    assert |Reason(200)| <= 32;
    hide Serialized, Reason;
    ErrorLength(200, resp.body);
    assert resp == Response(200, [], resp.body, false);
  }
}
