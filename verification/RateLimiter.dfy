/** The rate limiter as it runs: C strings, 32-bit hashing, and a bucket table changed in place. */
module RateLimiter {
  import opened Bytes
  import opened RateSpec
  import opened RateTheorems

  lemma WrapInside(a: int, b: int, m: int)
    requires m > 0
    ensures (a % m + b) % m == (a + b) % m
  {
    assert a + b == a % m + b + m * (a / m);
    AddMultiple(a % m + b, a / m, m);
  }

  /** Shift, add and add, each in 32 bits, is multiplication by 33. */
  lemma ShiftAdd(h: nat, c: nat)
    ensures ((32 * h % TWO_TO_THE_32 + h) % TWO_TO_THE_32 + c) % TWO_TO_THE_32 == (33 * h + c) % TWO_TO_THE_32
  {
    WrapInside(32 * h, h, TWO_TO_THE_32);
    WrapInside(33 * h, c, TWO_TO_THE_32);
  }

  method HashKey(key: seq<byte>) returns (slot: nat)
    ensures slot == Home(key)
  {
    var h: nat := 5381;
    var p := 0;
    while p < |key|
      invariant p <= |key| && Hash(h, key[p..]) == Hash(5381, key)
    {
      ShiftAdd(h, key[p]);
      assert key[p..][1..] == key[p + 1..];
      h := ((32 * h % TWO_TO_THE_32 + h) % TWO_TO_THE_32 + key[p]) % TWO_TO_THE_32;
      p := p + 1;
    }
    slot := h % BUCKETS;
  }

  lemma {:induction false} TextSplit(buf: seq<byte>, i: nat)
    requires i <= |buf| && 0 !in buf[..i]
    ensures Text(buf) == buf[..i] + Text(buf[i..])
    decreases i
  {
    if i == 0 {
      assert buf[0..] == buf;
    } else {
      assert buf[0] == buf[..i][0] && buf[1..][..i - 1] == buf[..i][1..] && buf[1..][i - 1..] == buf[i..];
      TextSplit(buf[1..], i - 1);
      assert buf[..i] == [buf[0]] + buf[1..][..i - 1];
    }
  }

  /** `strncmp(buf, key, sizeof buf) == 0` on a terminated buffer: the strings are equal. */
  method StrNCmp(buf: seq<byte>, key: seq<byte>) returns (eq: bool)
    requires |buf| == KEY_SIZE && buf[KEY_SIZE - 1] == 0 && IsKey(key)
    ensures eq == (Text(buf) == key)
  {
    var i := 0;
    while i < KEY_SIZE
      invariant i < KEY_SIZE && i <= |key| && buf[..i] == key[..i]
    {
      TextSplit(buf, i);
      var d: byte := if i < |key| then key[i] else 0;
      if buf[i] != d {
        assert i < |key| || buf[i] != 0;
        DifferAt(buf, key, i);
        return false;
      }
      if buf[i] == 0 {
        assert i == |key|;
        return true;
      }
      assert buf[..i + 1] == key[..i + 1];
      i := i + 1;
    }
  }

  lemma DifferAt(buf: seq<byte>, key: seq<byte>, i: nat)
    requires i < |buf| && i <= |key| && IsKey(key) && buf[..i] == key[..i] && buf[i] != if i < |key| then key[i] else 0
    ensures Text(buf) != key
  {
    TextSplit(buf, i);
    var rest := Text(buf[i..]);
    assert if buf[i] == 0 then rest == [] else rest[0] == buf[i];
    assert (key[..i] + rest)[i..] == rest;
  }

  /** `strncpy` of 127 bytes into a 128-byte buffer, then the final NUL. */
  method StoreKey(key: seq<byte>) returns (buf: seq<byte>)
    ensures buf == Stored(key)
  {
    buf := [];
    while |buf| < KEY_SIZE - 1
      invariant |buf| <= KEY_SIZE - 1 && buf == Stored(key)[..|buf|]
    {
      buf := buf + [if |buf| < |key| then key[|buf|] else 0];
    }
    buf := buf + [0];
  }

  class Limiter {
    const cfg: Config
    const buckets: array<Bucket>

    ghost predicate Valid(now: real)
      reads buckets
    {
      buckets.Length == BUCKETS && TableOk(cfg, buckets[..], now)
    }

    constructor (cfg: Config)
      ensures this.cfg == cfg && buckets.Length == BUCKETS && buckets[..] == EmptyTable() && fresh(buckets)
      ensures forall now :: Valid(now)
    {
      this.cfg := cfg;
      buckets := new Bucket[BUCKETS](_ => Bucket(seq(KEY_SIZE, _ => 0), 0.0, 0.0, false));
    }

    /** The key's bucket, or a new one, or 1024 if the table is full. */
    method FindBucket(key: seq<byte>, filled: real) returns (j: nat)
      requires Valid(filled) && IsKey(key)
      modifies buckets
      ensures
        var i := Find(old(buckets[..]), key, 0);
        if i == BUCKETS then j == BUCKETS && buckets[..] == old(buckets[..])
        else
          && j == SlotAt(Home(key), i)
          && j < BUCKETS
          && buckets[..] == if old(buckets[j]).inUse then old(buckets[..])
                            else old(buckets[..])[j := NewBucket(cfg, key, filled)]
      ensures Valid(filled)
    {
      hide Text, Home, SlotAt, Stored;
      ghost var table: Table := buckets[..];
      var home := HashKey(key);
      var i := 0;
      while i < BUCKETS
        invariant i <= BUCKETS && buckets[..] == table
        invariant Find(table, key, 0) == Find(table, key, i)
      {
        j := SlotAt(home, i);
        if !buckets[j].inUse {
          var buf := StoreKey(key);
          buckets[j] := Bucket(buf, cfg.burst as real, filled, true);
          NewKeepsTable(cfg, table, key, filled, j);
          return;
        }
        assert BucketOk(cfg, table[j], filled);
        var eq := StrNCmp(buckets[j].buf, key);
        if eq { return; }
        i := i + 1;
      }
      j := BUCKETS;
    }

    method RefillBucket(j: nat, now: real)
      requires j < buckets.Length
      modifies buckets
      ensures buckets[..] == old(buckets[..])[j := Refill(cfg, old(buckets[j]), now)]
    {
      var elapsed := now - buckets[j].last;
      if elapsed > 0.0 {
        var tokens := buckets[j].tokens + elapsed * cfg.rate as real;
        if tokens > cfg.burst as real { tokens := cfg.burst as real; }
        buckets[j] := buckets[j].(tokens := tokens, last := now);
      }
    }

    method CheckKey(key: seq<byte>, filled: real, now: real) returns (ok: bool)
      requires Valid(filled) && IsKey(key) && filled <= now
      modifies buckets
      ensures Valid(now)
      ensures (buckets[..], ok) == Check(cfg, old(buckets[..]), key, filled, now)
    {
      hide Text, Home, SlotAt, Stored, Refill, TableOk;
      ghost var table: Table := buckets[..];
      CheckKeeps(cfg, table, key, filled, now, filled);
      var j := FindBucket(key, filled);
      if j == BUCKETS { return false; }
      RefillBucket(j, now);
      ok := buckets[j].tokens >= 1.0;
      if ok { buckets[j] := buckets[j].(tokens := buckets[j].tokens - 1.0); }
      assert buckets[..] == table[j := buckets[j]];
    }

    method Reset()
      requires buckets.Length == BUCKETS
      modifies buckets
      ensures buckets[..] == EmptyTable() && forall now :: Valid(now)
    {
      var j := 0;
      while j < buckets.Length
        invariant j <= buckets.Length && forall k :: 0 <= k < j ==> buckets[k] == EmptyTable()[k]
      {
        buckets[j] := Bucket(seq(KEY_SIZE, _ => 0), 0.0, 0.0, false);
        assert EmptyTable()[j] == buckets[j];
        j := j + 1;
      }
      assert buckets[..] == EmptyTable();
    }
  }

  lemma NewKeepsTable(cfg: Config, table: Table, key: seq<byte>, filled: real, j: nat)
    requires TableOk(cfg, table, filled) && j < BUCKETS
    ensures TableOk(cfg, table[j := NewBucket(cfg, key, filled)], filled)
  {
  }
}
