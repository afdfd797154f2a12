/** What every run of checks keeps, the token-bucket guarantee, and the table as a map. */
module RateTheorems {
  import opened Bytes
  import opened RateSpec

  // ---- Key buffers ----

  lemma {:induction false} TextPrefix(buf: seq<byte>, key: seq<byte>)
    requires |key| < |buf| && IsKey(key) && buf[..|key|] == key && buf[|key|] == 0
    ensures Text(buf) == key
    decreases |key|
  {
    if key != [] {
      assert buf[0] == key[0] && buf[0] in key;
      assert buf[1..][..|key| - 1] == key[1..];
      TextPrefix(buf[1..], key[1..]);
      assert key == [key[0]] + key[1..];
    }
  }

  lemma TextStored(key: seq<byte>)
    requires IsKey(key)
    ensures Text(Stored(key)) == Truncated(key)
  {
    TextPrefix(Stored(key), Truncated(key));
  }

  lemma {:induction false} TextShort(buf: seq<byte>, n: nat)
    requires n < |buf| && buf[n] == 0
    ensures |Text(buf)| <= n
    decreases n
  {
    if n > 0 && buf[0] != 0 { TextShort(buf[1..], n - 1); }
  }

  // ---- What every check keeps ----

  ghost predicate BucketOk(cfg: Config, b: Bucket, now: real) {
    b.inUse ==> |b.buf| == KEY_SIZE && b.buf[KEY_SIZE - 1] == 0 && 0.0 <= b.tokens <= cfg.burst as real && b.last <= now
  }

  ghost predicate TableOk(cfg: Config, table: Table, now: real) {
    forall j :: 0 <= j < BUCKETS ==> BucketOk(cfg, table[j], now)
  }

  lemma EarnedSum(cfg: Config, a: real, b: real)
    ensures Earned(cfg, a + b) == Earned(cfg, a) + Earned(cfg, b)
  {
  }

  lemma EarnedNonNegative(cfg: Config, a: real)
    requires 0.0 <= a
    ensures 0.0 <= Earned(cfg, a)
  {
  }

  lemma EarnedMonotone(cfg: Config, a: real, b: real)
    requires a <= b
    ensures Earned(cfg, a) <= Earned(cfg, b)
  {
    EarnedNonNegative(cfg, b - a);
    EarnedSum(cfg, a, b - a);
  }

  lemma TakeKeeps(cfg: Config, b: Bucket, now: real)
    requires b.inUse && BucketOk(cfg, b, now)
    ensures
      var (b', ok) := Take(cfg, b, now);
      BucketOk(cfg, b', now) && b'.inUse && b'.buf == b.buf && b'.last == now
  {
    hide Earned;
    if now > b.last { EarnedNonNegative(cfg, now - b.last); }
  }

  lemma CheckKeeps(cfg: Config, table: Table, key: seq<byte>, filled: real, now: real, before: real)
    requires TableOk(cfg, table, before) && before <= filled <= now
    ensures TableOk(cfg, Check(cfg, table, key, filled, now).0, now)
  {
    hide Take, Stored, Text;
    var i := Find(table, key, 0);
    if i < BUCKETS {
      var j := SlotAt(Home(key), i);
      var b := if table[j].inUse then table[j] else NewBucket(cfg, key, filled);
      TakeKeeps(cfg, b, now);
    }
  }

  // ---- Where a key's bucket is ----

  /** What a check does to the table: nothing, or one slot on the key's path. */
  lemma CheckTouches(cfg: Config, table: Table, key: seq<byte>, filled: real, now: real)
    ensures
      var table' := Check(cfg, table, key, filled, now).0;
      var i := Find(table, key, 0);
      if i == BUCKETS then table' == table
      else
        var j := SlotAt(Home(key), i);
        && table' == table[j := table'[j]] && table'[j].inUse
        && table'[j].buf == if table[j].inUse then table[j].buf else Stored(key)
  {
    hide Stored, Text;
  }

  /** A key that has a bucket keeps it, whatever is checked. */
  lemma FindStable(cfg: Config, table: Table, key: seq<byte>, other: seq<byte>, filled: real, now: real)
    requires Find(table, key, 0) < BUCKETS && table[SlotAt(Home(key), Find(table, key, 0))].inUse
    ensures
      var table' := Check(cfg, table, other, filled, now).0;
      var j := SlotAt(Home(key), Find(table, key, 0));
      Find(table', key, 0) == Find(table, key, 0) && table'[j].inUse && (key != other ==> table'[j] == table[j])
  {
    CheckTouches(cfg, table, other, filled, now);
    hide Check, Text, Stored, Home, SlotAt;
    var table' := Check(cfg, table, other, filled, now).0;
    var i, i' := Find(table, key, 0), Find(table', key, 0);
    forall k | 0 <= k < BUCKETS && table[SlotAt(Home(key), k)].inUse
      ensures Stops(table'[SlotAt(Home(key), k)], key) <==> Stops(table[SlotAt(Home(key), k)], key)
    {
    }
    assert i' <= i;
    assert i' >= i;
  }

  // ---- The guarantee ----

  /** The most a bucket can still allow in the window `[s, t]`. */
  ghost function Cap(cfg: Config, b: Bucket, s: real, t: real): real {
    if b.last < s then cfg.burst as real + Earned(cfg, t - s)
    else if b.last <= t then b.tokens + Earned(cfg, t - b.last)
    else 0.0
  }

  ghost function Bound(cfg: Config, s: real, t: real): real { cfg.burst as real + Earned(cfg, t - s) }

  lemma CapBounds(cfg: Config, b: Bucket, s: real, t: real, now: real)
    requires b.inUse && BucketOk(cfg, b, now) && s <= t
    ensures 0.0 <= Cap(cfg, b, s, t) <= Bound(cfg, s, t)
  {
    hide Earned;
    EarnedNonNegative(cfg, t - s);
    if s <= b.last <= t {
      EarnedNonNegative(cfg, t - b.last);
      EarnedMonotone(cfg, t - b.last, t - s);
    }
  }

  /** Taking a token inside the window uses up at least one unit of the cap. */
  lemma TakeUsesCap(cfg: Config, b: Bucket, now: real, s: real, t: real)
    requires b.inUse && BucketOk(cfg, b, now) && s <= t
    ensures
      var (b', ok) := Take(cfg, b, now);
      (if ok && s <= now <= t then 1.0 else 0.0) + Cap(cfg, b', s, t) <= Cap(cfg, b, s, t)
  {
    TakeKeeps(cfg, b, now);
    CapBounds(cfg, b, s, t, now);
    hide Earned;
    if s <= now <= t {
      if b.last < s {
        EarnedMonotone(cfg, t - now, t - s);
      } else {
        EarnedSum(cfg, t - now, now - b.last);
        assert (t - now) + (now - b.last) == t - b.last;
        EarnedNonNegative(cfg, now - b.last);
      }
    }
  }

  ghost function CapOf(cfg: Config, table: Table, key: seq<byte>, s: real, t: real): real {
    var i := Find(table, key, 0);
    if i < BUCKETS
        && table[SlotAt(Home(key), i)].inUse then Cap(cfg, table[SlotAt(Home(key), i)], s, t) else Bound(cfg, s, t)
  }

  lemma CheckUsesCap(cfg: Config, table: Table, rq: Request, before: real, key: seq<byte>, s: real, t: real)
    requires TableOk(cfg, table, before) && before <= rq.filled <= rq.now && IsKey(rq.key)
    requires |key| < KEY_SIZE && s <= t
    ensures
      var (table', ok) := Check(cfg, table, rq.key, rq.filled, rq.now);
      (if ok && rq.key == key
          && s <= rq.now <= t then 1.0 else 0.0) + CapOf(cfg, table', key, s, t) <= CapOf(cfg, table, key, s, t)
  {
    hide *;
    var i := Find(table, key, 0);
    if i < BUCKETS && table[SlotAt(Home(key), i)].inUse {
      PresentUsesCap(cfg, table, rq, before, key, s, t);
    } else if rq.key != key || i == BUCKETS {
      AbsentUsesNone(cfg, table, rq, before, key, s, t);
    } else {
      AbsentCap(cfg, table, key, s, t);
      NewUsesCap(cfg, table, rq, s, t);
    }
  }

  lemma AbsentCap(cfg: Config, table: Table, key: seq<byte>, s: real, t: real)
    requires !(Find(table, key, 0) < BUCKETS && table[SlotAt(Home(key), Find(table, key, 0))].inUse)
    ensures CapOf(cfg, table, key, s, t) == Bound(cfg, s, t)
  {
  }

  lemma CapOfBounds(cfg: Config, table: Table, key: seq<byte>, s: real, t: real, now: real)
    requires TableOk(cfg, table, now) && s <= t
    ensures 0.0 <= CapOf(cfg, table, key, s, t) <= Bound(cfg, s, t)
  {
    hide Cap, Text, Home, SlotAt, Earned;
    EarnedNonNegative(cfg, t - s);
    var i := Find(table, key, 0);
    if i < BUCKETS && table[SlotAt(Home(key), i)].inUse { CapBounds(cfg, table[SlotAt(Home(key), i)], s, t, now); }
  }

  lemma AbsentUsesNone(cfg: Config, table: Table, rq: Request, before: real, key: seq<byte>, s: real, t: real)
    requires TableOk(cfg, table, before) && before <= rq.filled <= rq.now && s <= t
    requires !(Find(table, key, 0) < BUCKETS && table[SlotAt(Home(key), Find(table, key, 0))].inUse)
    requires rq.key != key || Find(table, key, 0) == BUCKETS
    ensures
      var (table', ok) := Check(cfg, table, rq.key, rq.filled, rq.now);
      (if ok && rq.key == key
          && s <= rq.now <= t then 1.0 else 0.0) + CapOf(cfg, table', key, s, t) <= CapOf(cfg, table, key, s, t)
  {
    hide CapOf, Take, Home, SlotAt, Text, TableOk, Bound;
    AbsentCap(cfg, table, key, s, t);
    CheckKeeps(cfg, table, rq.key, rq.filled, rq.now, before);
    CapOfBounds(cfg, Check(cfg, table, rq.key, rq.filled, rq.now).0, key, s, t, rq.now);
  }

  lemma PresentUsesCap(cfg: Config, table: Table, rq: Request, before: real, key: seq<byte>, s: real, t: real)
    requires TableOk(cfg, table, before) && before <= rq.filled <= rq.now && s <= t
    requires Find(table, key, 0) < BUCKETS && table[SlotAt(Home(key), Find(table, key, 0))].inUse
    ensures
      var (table', ok) := Check(cfg, table, rq.key, rq.filled, rq.now);
      (if ok && rq.key == key
          && s <= rq.now <= t then 1.0 else 0.0) + CapOf(cfg, table', key, s, t) <= CapOf(cfg, table, key, s, t)
  {
    hide Take, Home, SlotAt, Text, Cap, Bound;
    FindStable(cfg, table, key, rq.key, rq.filled, rq.now);
    if rq.key == key { TakeUsesCap(cfg, table[SlotAt(Home(key), Find(table, key, 0))], rq.now, s, t); }
  }

  /** The first check of a key. */
  lemma NewUsesCap(cfg: Config, table: Table, rq: Request, s: real, t: real)
    requires |rq.key| < KEY_SIZE && IsKey(rq.key) && rq.filled <= rq.now && s <= t
    requires Find(table, rq.key, 0) < BUCKETS && !table[SlotAt(Home(rq.key), Find(table, rq.key, 0))].inUse
    ensures
      var (table', ok) := Check(cfg, table, rq.key, rq.filled, rq.now);
      (if ok && s <= rq.now <= t then 1.0 else 0.0) + CapOf(cfg, table', rq.key, s, t) <= Bound(cfg, s, t)
  {
    hide Take, Cap, Bound, Stored, Text, Home;
    var i := Find(table, rq.key, 0);
    var j := SlotAt(Home(rq.key), i);
    var b := NewBucket(cfg, rq.key, rq.filled);
    var (table', ok) := Check(cfg, table, rq.key, rq.filled, rq.now);
    TakeKeeps(cfg, b, rq.now);
    TakeUsesCap(cfg, b, rq.now, s, t);
    CapBounds(cfg, b, s, t, rq.now);
    TextStored(rq.key);
    FindFirst(table', rq.key, i);
  }

  lemma FindFirst(table: Table, key: seq<byte>, i: nat)
    requires i < BUCKETS && Stops(table[SlotAt(Home(key), i)], key)
    requires forall k :: 0 <= k < i ==> !Stops(table[SlotAt(Home(key), k)], key)
    ensures Find(table, key, 0) == i
  {
  }

  lemma {:induction false} AllowedWithinCap(cfg: Config, table: Table, run: seq<Request>, before: real,
                                            key: seq<byte>, s: real, t: real)
    requires TableOk(cfg, table, before) && Monotone(run, before) && |key| < KEY_SIZE && s <= t
    ensures Allowed(cfg, table, run, key, s, t) as real <= CapOf(cfg, table, key, s, t)
    decreases |run|
  {
    hide Check, CapOf, TableOk, Bound;
    if run == [] {
      CapOfBounds(cfg, table, key, s, t, before);
    } else {
      var rq := run[0];
      CheckUsesCap(cfg, table, rq, before, key, s, t);
      CheckKeeps(cfg, table, rq.key, rq.filled, rq.now, before);
      AllowedWithinCap(cfg, Check(cfg, table, rq.key, rq.filled, rq.now).0, run[1..], rq.now, key, s, t);
    }
  }

  /** For every key shorter than 128 bytes and every time window between resets, whatever other keys are checked. */
  lemma TokenBucketGuarantee(cfg: Config, run: seq<Request>, start: real, key: seq<byte>, s: real, t: real)
    requires Monotone(run, start) && |key| < KEY_SIZE && s <= t
    ensures Allowed(cfg, EmptyTable(), run, key, s, t) as real <= cfg.burst as real + Earned(cfg, t - s)
  {
    hide Allowed, CapOf;
    AllowedWithinCap(cfg, EmptyTable(), run, start, key, s, t);
    CapOfBounds(cfg, EmptyTable(), key, s, t, start);
  }

  lemma {:induction false} RunKeeps(cfg: Config, table: Table, run: seq<Request>, start: real) returns (end: real)
    requires TableOk(cfg, table, start) && Monotone(run, start)
    ensures start <= end && TableOk(cfg, After(cfg, table, run), end)
    decreases |run|
  {
    hide Check, TableOk;
    end := start;
    if run != [] {
      var rq := run[0];
      CheckKeeps(cfg, table, rq.key, rq.filled, rq.now, start);
      end := RunKeeps(cfg, Check(cfg, table, rq.key, rq.filled, rq.now).0, run[1..], rq.now);
    }
  }

  /** Tokens stay within 0 and the burst. */
  lemma TokensStayInRange(cfg: Config, run: seq<Request>, start: real, j: nat)
    requires Monotone(run, start) && j < BUCKETS && After(cfg, EmptyTable(), run)[j].inUse
    ensures 0.0 <= After(cfg, EmptyTable(), run)[j].tokens <= cfg.burst as real
  {
    hide After;
    var end := RunKeeps(cfg, EmptyTable(), run, start);
    assert BucketOk(cfg, After(cfg, EmptyTable(), run)[j], end);
  }

  // ---- Keys of 128 bytes and more ----

  /** No bucket ever matches such a key: every check takes a fresh slot, so only the table's size limits it. */
  lemma LongKeyTakesFreshSlot(cfg: Config, table: Table, key: seq<byte>, filled: real, now: real, before: real)
    requires TableOk(cfg, table, before) && filled <= now && |key| >= KEY_SIZE
    ensures
      var i := Find(table, key, 0);
      && (i < BUCKETS ==> !table[SlotAt(Home(key), i)].inUse)
      && Check(cfg, table, key, filled, now).1 == (i < BUCKETS && cfg.burst >= 1)
  {
    hide Text, Home, SlotAt, Stored, Earned;
    var i := Find(table, key, 0);
    if i < BUCKETS {
      var b := table[SlotAt(Home(key), i)];
      if b.inUse {
        assert BucketOk(cfg, b, before);
        TextShort(b.buf, KEY_SIZE - 1);
      }
      if now > filled { EarnedNonNegative(cfg, now - filled); }
    }
  }
}
