/**
 The token-bucket rate limiter over a linear-probing table of 1024 buckets. Token counts and
 clock readings are idealised as reals. A check reads the clock up to twice: when it fills a new
 bucket and when it refills.
 */
module RateSpec {
  import opened Bytes

  const BUCKETS: nat := 1024
  const KEY_SIZE: nat := 128

  datatype Config = Config(rate: nat, burst: nat)

  /** `buf` is the bucket's 128-byte key buffer. */
  datatype Bucket = Bucket(buf: seq<byte>, tokens: real, last: real, inUse: bool)

  type Table = t: seq<Bucket> | |t| == BUCKETS witness seq(BUCKETS, _ => Bucket([], 0.0, 0.0, false))

  /** A key is a C string: no NUL inside. */
  predicate IsKey(key: seq<byte>) { 0 !in key }

  // ---- Key buffers ----

  /** The C string held in a buffer. */
  function Text(buf: seq<byte>): seq<byte> {
    if buf == [] || buf[0] == 0 then [] else [buf[0]] + Text(buf[1..])
  }

  function Truncated(key: seq<byte>): seq<byte> {
    if |key| < KEY_SIZE then key else key[..KEY_SIZE - 1]
  }

  /** `strncpy` of at most 127 bytes, padded with NULs, and a final NUL. */
  function Stored(key: seq<byte>): (buf: seq<byte>)
    ensures |buf| == KEY_SIZE && buf[KEY_SIZE - 1] == 0
  {
    Truncated(key) + seq(KEY_SIZE - |Truncated(key)|, _ => 0)
  }

  // ---- Hashing and probing ----

  function Hash(h: nat, key: seq<byte>): nat
    decreases |key|
  {
    if key == [] then h else Hash((33 * h + key[0]) % TWO_TO_THE_32, key[1..])
  }

  function Home(key: seq<byte>): (r: nat)
    ensures r < BUCKETS
  {
    Hash(5381, key) % BUCKETS
  }

  /** The `i`-th slot on the probe path from `home`. */
  function SlotAt(home: nat, i: nat): (j: nat)
    ensures j < BUCKETS
  {
    (home + i) % BUCKETS
  }

  predicate Stops(b: Bucket, key: seq<byte>) { !b.inUse || Text(b.buf) == key }

  /** Probing from step `i`: the first slot that is free or holds the key, or 1024. */
  function Find(table: Table, key: seq<byte>, i: nat): (r: nat)
    requires i <= BUCKETS
    ensures i <= r <= BUCKETS
    ensures forall k :: i <= k < r ==> !Stops(table[SlotAt(Home(key), k)], key)
    ensures r < BUCKETS ==> Stops(table[SlotAt(Home(key), r)], key)
    decreases BUCKETS - i
  {
    if i == BUCKETS || Stops(table[SlotAt(Home(key), i)], key) then i else Find(table, key, i + 1)
  }

  // ---- Checking ----

  function NewBucket(cfg: Config, key: seq<byte>, now: real): Bucket {
    Bucket(Stored(key), cfg.burst as real, now, true)
  }

  /** Tokens earned over a length of time. */
  function Earned(cfg: Config, elapsed: real): real { elapsed * cfg.rate as real }

  function Refill(cfg: Config, b: Bucket, now: real): Bucket {
    var elapsed := now - b.last;
    if elapsed > 0.0 then
      var tokens := b.tokens + Earned(cfg, elapsed);
      b.(tokens := if tokens > cfg.burst as real then cfg.burst as real else tokens, last := now)
    else b
  }

  /** Refill, then take a token if there is one. */
  function Take(cfg: Config, b: Bucket, now: real): (Bucket, bool) {
    var b' := Refill(cfg, b, now);
    if b'.tokens >= 1.0 then (b'.(tokens := b'.tokens - 1.0), true) else (b', false)
  }

  /** One check: `filled` is the clock when a new bucket is filled, `now` when it is refilled. */
  function Check(cfg: Config, table: Table, key: seq<byte>, filled: real, now: real): (Table, bool) {
    var i := Find(table, key, 0);
    if i == BUCKETS then (table, false)
    else
      var j := SlotAt(Home(key), i);
      var b := if table[j].inUse then table[j] else NewBucket(cfg, key, filled);
      var (b', ok) := Take(cfg, b, now);
      (table[j := b'], ok)
  }

  // ---- Runs ----

  datatype Request = Request(key: seq<byte>, filled: real, now: real)

  /** The clock never goes back. */
  ghost predicate Monotone(run: seq<Request>, start: real)
    decreases |run|
  {
    run == [] || (IsKey(run[0].key) && start <= run[0].filled <= run[0].now && Monotone(run[1..], run[0].now))
  }

  function After(cfg: Config, table: Table, run: seq<Request>): Table
    decreases |run|
  {
    if run == [] then table else After(cfg, Check(cfg, table, run[0].key, run[0].filled, run[0].now).0, run[1..])
  }

  /** How many checks of `key` in the window `[s, t]` are allowed. */
  function Allowed(cfg: Config, table: Table, run: seq<Request>, key: seq<byte>, s: real, t: real): nat
    decreases |run|
  {
    if run == [] then 0
    else
      var (table', ok) := Check(cfg, table, run[0].key, run[0].filled, run[0].now);
      (if ok && run[0].key == key && s <= run[0].now <= t then 1 else 0) + Allowed(cfg, table', run[1..], key, s, t)
  }

  /** The table after `ioh_ratelimit_create` or a reset. */
  function EmptyTable(): Table { seq(BUCKETS, _ => Bucket(seq(KEY_SIZE, _ => 0), 0.0, 0.0, false)) }
}
