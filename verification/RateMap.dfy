/** The linear-probing table against the map it stands for. */
module RateMap {
  import opened Bytes
  import opened RateSpec
  import opened RateTheorems

  // ---- Probe paths ----

  /** The step at which the path from `home` reaches slot `j`. */
  function StepTo(home: nat, j: nat): nat
    requires home < BUCKETS && j < BUCKETS
  {
    if j >= home then j - home else j + BUCKETS - home
  }

  /** A path visits every slot exactly once. */
  lemma PathIsBijection(home: nat, j: nat, i: nat)
    requires home < BUCKETS && j < BUCKETS && i < BUCKETS
    ensures StepTo(home, j) < BUCKETS && (SlotAt(home, i) == j <==> i == StepTo(home, j))
  {
    assert SlotAt(home, i) == if home + i < BUCKETS then home + i else home + i - BUCKETS;
  }

  ghost function UsedSlots(table: Table): set<nat> { set j: nat | j < BUCKETS && table[j].inUse }

  ghost predicate Holds(table: Table, key: seq<byte>,
                        j: nat) { j < BUCKETS && table[j].inUse && Text(table[j].buf) == key }

  /** Lookup fails exactly when the key is absent and all 1024 slots are used. */
  lemma FindFailsExactly(table: Table, key: seq<byte>)
    ensures Find(table, key, 0) == BUCKETS <==> forall j :: 0 <= j < BUCKETS ==> table[j].inUse
                                                                                 && Text(table[j].buf) != key
  {
    hide Text, Home, SlotAt;
    if Find(table, key, 0) == BUCKETS {
      forall j | 0 <= j < BUCKETS ensures table[j].inUse && Text(table[j].buf) != key {
        PathIsBijection(Home(key), j, 0);
        PathIsBijection(Home(key), j, StepTo(Home(key), j));
        assert !Stops(table[SlotAt(Home(key), StepTo(Home(key), j))], key);
      }
    }
  }

  // ---- At most one slot per key ----

  /**
   Every slot before a key's own on its probe path is used by another key. Keys of 128 bytes and
   more are stored cut to 127 bytes; `cut` is the set of those.
   */
  ghost predicate PathsOk(table: Table, cut: set<seq<byte>>) {
    forall j :: 0 <= j < BUCKETS && table[j].inUse && Text(table[j].buf) !in cut ==> PathOk(table, j)
  }

  ghost predicate PathOk(table: Table, j: nat)
    requires j < BUCKETS
  {
    var key := Text(table[j].buf);
    forall i :: 0 <= i < StepTo(Home(key), j) ==> table[SlotAt(Home(key), i)].inUse
                                                  && Text(table[SlotAt(Home(key), i)].buf) != key
  }

  function Cuts(key: seq<byte>): set<seq<byte>> { if |key| < KEY_SIZE then {} else {Truncated(key)} }

  /** In a table with sound paths a key is in at most one slot, and lookup finds it there. */
  lemma KnownKeyFound(table: Table, cut: set<seq<byte>>, key: seq<byte>, j: nat)
    requires PathsOk(table, cut) && key !in cut && Holds(table, key, j)
    ensures Find(table, key, 0) == StepTo(Home(key), j) < BUCKETS && SlotAt(Home(key), StepTo(Home(key), j)) == j
  {
    hide Text, Home, SlotAt, StepTo;
    var i := StepTo(Home(key), j);
    PathIsBijection(Home(key), j, 0);
    PathIsBijection(Home(key), j, i);
    forall k | 0 <= k < i ensures !Stops(table[SlotAt(Home(key), k)], key) {}
    FindFirst(table, key, i);
  }

  lemma OneSlotPerKey(table: Table, cut: set<seq<byte>>, key: seq<byte>, j: nat, j': nat)
    requires PathsOk(table, cut) && key !in cut && Holds(table, key, j) && Holds(table, key, j')
    ensures j == j'
  {
    KnownKeyFound(table, cut, key, j);
    KnownKeyFound(table, cut, key, j');
  }

  lemma CheckKeepsPaths(cfg: Config, table: Table, cut: set<seq<byte>>, key: seq<byte>, filled: real, now: real)
    requires PathsOk(table, cut) && IsKey(key)
    ensures PathsOk(Check(cfg, table, key, filled, now).0, cut + Cuts(key))
  {
    CheckTouches(cfg, table, key, filled, now);
    TextStored(key);
    hide Check, Text, Home, SlotAt, StepTo, Stored;
    var table' := Check(cfg, table, key, filled, now).0;
    var n := Find(table, key, 0);
    if n < BUCKETS {
      var slot := SlotAt(Home(key), n);
      PathIsBijection(Home(key), slot, n);
      forall j | 0 <= j < BUCKETS && table'[j].inUse && Text(table'[j].buf) !in cut + Cuts(key)
        ensures PathOk(table', j)
      {
        if j == slot && !table[j].inUse {
          NewPath(table, table', key, n);
        } else {
          assert table[j].inUse && Text(table[j].buf) == Text(table'[j].buf);
          OldPath(table, table', cut, slot, j);
        }
      }
    }
  }

  lemma NewPath(table: Table, table': Table, key: seq<byte>, n: nat)
    requires n == Find(table, key, 0) < BUCKETS && StepTo(Home(key), SlotAt(Home(key), n)) == n
    requires table' == table[SlotAt(Home(key), n) := table'[SlotAt(Home(key), n)]] && table'[SlotAt(Home(key), n)].inUse
    ensures forall i :: 0 <= i < n ==> table'[SlotAt(Home(key), i)].inUse
                                       && Text(table'[SlotAt(Home(key), i)].buf) != key
  {
    hide Text, Home, SlotAt, StepTo;
    var slot := SlotAt(Home(key), n);
    forall i | 0 <= i < n ensures table'[SlotAt(Home(key), i)].inUse && Text(table'[SlotAt(Home(key), i)].buf) != key {
      PathIsBijection(Home(key), slot, i);
      assert !Stops(table[SlotAt(Home(key), i)], key);
    }
  }

  lemma OldPath(table: Table, table': Table, cut: set<seq<byte>>, slot: nat, j: nat)
    requires PathsOk(table, cut) && slot < BUCKETS && j < BUCKETS && table[j].inUse && Text(table[j].buf) !in cut
    requires table' == table[slot := table'[slot]] && table'[slot].inUse
    requires table[slot].inUse ==> table'[slot].buf == table[slot].buf
    ensures
      var k := Text(table[j].buf);
      forall i :: 0 <= i < StepTo(Home(k), j) ==> table'[SlotAt(Home(k), i)].inUse
                                                  && Text(table'[SlotAt(Home(k), i)].buf) != k
  {
    hide Text, Home, SlotAt, StepTo;
  }

  /** The cut forms of the long keys checked so far. */
  ghost function AllCuts(run: seq<Request>): set<seq<byte>>
    decreases |run|
  {
    if run == [] then {} else Cuts(run[0].key) + AllCuts(run[1..])
  }

  lemma {:induction false} RunKeepsPaths(cfg: Config, table: Table, cut: set<seq<byte>>, run: seq<Request>, start: real)
    requires PathsOk(table, cut) && Monotone(run, start)
    ensures PathsOk(After(cfg, table, run), cut + AllCuts(run))
    decreases |run|
  {
    hide PathsOk, Check, Cuts;
    if run == [] {
      assert cut + {} == cut;
    } else {
      var rq := run[0];
      CheckKeepsPaths(cfg, table, cut, rq.key, rq.filled, rq.now);
      RunKeepsPaths(cfg, Check(cfg, table, rq.key, rq.filled, rq.now).0, cut + Cuts(rq.key), run[1..], rq.now);
      assert cut + Cuts(rq.key) + AllCuts(run[1..]) == cut + AllCuts(run);
    }
  }

  /** In every reachable table. */
  lemma ReachablePaths(cfg: Config, run: seq<Request>, start: real)
    requires Monotone(run, start)
    ensures PathsOk(After(cfg, EmptyTable(), run), AllCuts(run))
  {
    RunKeepsPaths(cfg, EmptyTable(), {}, run, start);
    assert {} + AllCuts(run) == AllCuts(run);
  }

  // ---- The map ----

  datatype Entry = Entry(tokens: real, last: real)

  type Limiter = map<seq<byte>, Entry>

  /** The limiter the table stands for: one entry per key, at most 1024 of them. */
  function CheckMap(cfg: Config, m: Limiter, key: seq<byte>, filled: real, now: real): (Limiter, bool) {
    if key !in m && |m| >= BUCKETS then (m, false)
    else
      var e := if key in m then m[key] else Entry(cfg.burst as real, filled);
      var (b, ok) := Take(cfg, Bucket([], e.tokens, e.last, true), now);
      (m[key := Entry(b.tokens, b.last)], ok)
  }

  ghost predicate Represents(m: Limiter, table: Table) {
    && (forall key :: key in m ==> exists j :: Holds(table, key, j))
    && (forall j ::
        0 <= j < BUCKETS && table[j].inUse ==> Text(table[j].buf) in m
                                               && m[Text(table[j].buf)] == Entry(table[j].tokens, table[j].last))
    && |m| == |UsedSlots(table)|
  }

  ghost function SlotsBelow(n: nat): (r: set<nat>)
    ensures |r| == n && forall j: nat :: j in r <==> j < n
  {
    if n == 0 then {} else SlotsBelow(n - 1) + {n - 1}
  }

  lemma SubsetCount<T>(a: set<T>, b: set<T>)
    requires a <= b
    ensures |a| <= |b| && (|a| == |b| ==> a == b)
  {
    assert b == a + (b - a);
  }

  lemma FullExactly(table: Table)
    ensures |UsedSlots(table)| <= BUCKETS
    ensures |UsedSlots(table)| == BUCKETS <==> forall j :: 0 <= j < BUCKETS ==> table[j].inUse
  {
    SubsetCount(UsedSlots(table), SlotsBelow(BUCKETS));
    if forall j :: 0 <= j < BUCKETS ==> table[j].inUse { assert UsedSlots(table) == SlotsBelow(BUCKETS); }
    if |UsedSlots(table)| == BUCKETS {
      forall j | 0 <= j < BUCKETS ensures table[j].inUse { assert j in SlotsBelow(BUCKETS); }
    }
  }

  /** A check on the table is the check on the map: same verdict, and the results still correspond. */
  lemma CheckRefinesMap(cfg: Config, m: Limiter, table: Table, key: seq<byte>, filled: real, now: real)
    requires PathsOk(table, {}) && Represents(m, table) && IsKey(key) && |key| < KEY_SIZE
    ensures Check(cfg, table, key, filled, now).1 == CheckMap(cfg, m, key, filled, now).1
    ensures Represents(CheckMap(cfg, m, key, filled, now).0, Check(cfg, table, key, filled, now).0)
  {
    hide Text, Home, SlotAt, StepTo, Stored, Take, PathsOk;
    FindFailsExactly(table, key);
    FullExactly(table);
    var i := Find(table, key, 0);
    if key in m {
      var j: nat :| Holds(table, key, j);
      KnownKeyFound(table, {}, key, j);
      TakeAgrees(cfg, table[j], now);
      UpdateRepresents(m, table, key, j, Check(cfg, table, key, filled, now).0[j]);
    } else if |m| < BUCKETS {
      assert i < BUCKETS;
      var j := SlotAt(Home(key), i);
      TakeAgrees(cfg, NewBucket(cfg, key, filled), now);
      TextStored(key);
      InsertRepresents(m, table, key, j, Check(cfg, table, key, filled, now).0[j]);
    }
  }

  /** Taking a token does not look at the key. */
  lemma TakeAgrees(cfg: Config, b: Bucket, now: real)
    requires b.inUse
    ensures
      var (b', ok) := Take(cfg, b, now);
      Take(cfg, Bucket([], b.tokens, b.last, true), now) == (Bucket([], b'.tokens, b'.last, true), ok)
          && b'.buf == b.buf && b'.inUse
  {
    hide Earned;
  }

  lemma UpdateRepresents(m: Limiter, table: Table, key: seq<byte>, j: nat, b: Bucket)
    requires PathsOk(table, {}) && Represents(m, table) && Holds(table, key, j) && b.inUse && b.buf == table[j].buf
    ensures Represents(m[key := Entry(b.tokens, b.last)], table[j := b])
  {
    hide Text, PathsOk;
    var m', table' := m[key := Entry(b.tokens, b.last)], table[j := b];
    assert UsedSlots(table') == UsedSlots(table);
    assert key in m && m'.Keys == m.Keys;
    forall k | k in m' ensures exists j' :: Holds(table', k, j') {
      var j': nat :| Holds(table, k, j');
      assert Holds(table', k, j');
    }
    forall j' | 0 <= j' < BUCKETS && table'[j'].inUse
      ensures m'[Text(table'[j'].buf)] == Entry(table'[j'].tokens, table'[j'].last) {
      if j' != j && Text(table[j'].buf) == key { OneSlotPerKey(table, {}, key, j, j'); }
    }
  }

  lemma InsertCount(m: Limiter, table: Table, key: seq<byte>, e: Entry, j: nat, b: Bucket)
    requires key !in m && j < BUCKETS && !table[j].inUse && b.inUse && |m| == |UsedSlots(table)|
    ensures |m[key := e]| == |UsedSlots(table[j := b])|
  {
    assert UsedSlots(table[j := b]) == UsedSlots(table) + {j};
    assert m[key := e].Keys == m.Keys + {key};
    assert |m[key := e]| == |m[key := e].Keys|;
  }

  lemma InsertRepresents(m: Limiter, table: Table, key: seq<byte>, j: nat, b: Bucket)
    requires Represents(m, table) && key !in m && j < BUCKETS && !table[j].inUse && b.inUse && Text(b.buf) == key
    ensures Represents(m[key := Entry(b.tokens, b.last)], table[j := b])
  {
    hide Text, UsedSlots;
    var m', table' := m[key := Entry(b.tokens, b.last)], table[j := b];
    InsertCount(m, table, key, Entry(b.tokens, b.last), j, b);
    assert Holds(table', key, j);
    forall k | k in m' ensures exists j' :: Holds(table', k, j') {
      if k != key {
        var j': nat :| Holds(table, k, j');
        assert Holds(table', k, j');
      }
    }
  }

  function AfterMap(cfg: Config, m: Limiter, run: seq<Request>): Limiter
    decreases |run|
  {
    if run == [] then m else AfterMap(cfg, CheckMap(cfg, m, run[0].key, run[0].filled, run[0].now).0, run[1..])
  }

  /** Verdicts, in order. */
  function Verdicts(cfg: Config, table: Table, run: seq<Request>): seq<bool>
    decreases |run|
  {
    if run == [] then []
    else
      var (table', ok) := Check(cfg, table, run[0].key, run[0].filled, run[0].now);
      [ok] + Verdicts(cfg, table', run[1..])
  }

  function MapVerdicts(cfg: Config, m: Limiter, run: seq<Request>): seq<bool>
    decreases |run|
  {
    if run == [] then []
    else
      var (m', ok) := CheckMap(cfg, m, run[0].key, run[0].filled, run[0].now);
      [ok] + MapVerdicts(cfg, m', run[1..])
  }

  ghost predicate ShortKeys(run: seq<Request>) { forall rq :: rq in run ==> IsKey(rq.key) && |rq.key| < KEY_SIZE }

  lemma {:induction false} RunRefinesMap(cfg: Config, m: Limiter, table: Table, run: seq<Request>)
    requires PathsOk(table, {}) && Represents(m, table) && ShortKeys(run)
    ensures Verdicts(cfg, table, run) == MapVerdicts(cfg, m, run)
    ensures Represents(AfterMap(cfg, m, run), After(cfg, table, run))
    decreases |run|
  {
    hide PathsOk, Represents, Check, CheckMap;
    if run != [] {
      var rq := run[0];
      CheckRefinesMap(cfg, m, table, rq.key, rq.filled, rq.now);
      CheckKeepsPaths(cfg, table, {}, rq.key, rq.filled, rq.now);
      assert {} + Cuts(rq.key) == {};
      RunRefinesMap(cfg, CheckMap(cfg, m, rq.key, rq.filled, rq.now).0,
                    Check(cfg, table, rq.key, rq.filled, rq.now).0, run[1..]);
    }
  }

  /** On keys shorter than 128 bytes, the table is a map of at most 1024 keys. */
  lemma TableIsMap(cfg: Config, run: seq<Request>)
    requires ShortKeys(run)
    ensures Verdicts(cfg, EmptyTable(), run) == MapVerdicts(cfg, map[], run)
    ensures Represents(AfterMap(cfg, map[], run), After(cfg, EmptyTable(), run))
  {
    assert UsedSlots(EmptyTable()) == {};
    RunRefinesMap(cfg, map[], EmptyTable(), run);
  }

  // ---- Keys of 128 bytes and more are not limited ----

  function Repeat(rq: Request, n: nat): seq<Request> { seq(n, _ => rq) }

  lemma {:induction false} LongKeyRun(cfg: Config, table: Table, rq: Request, n: nat, before: real)
    requires TableOk(cfg, table, before) && before <= rq.filled == rq.now && |rq.key| >= KEY_SIZE && IsKey(rq.key)
    requires cfg.burst >= 1 && n + |UsedSlots(table)| <= BUCKETS
    ensures Allowed(cfg, table, Repeat(rq, n), rq.key, rq.now, rq.now) == n
    decreases n
  {
    hide Text, Home, SlotAt, Stored, Take, BucketOk;
    if n > 0 {
      var (table', ok) := Check(cfg, table, rq.key, rq.filled, rq.now);
      FindFailsExactly(table, rq.key);
      FullExactly(table);
      LongKeyTakesFreshSlot(cfg, table, rq.key, rq.filled, rq.now, before);
      CheckTouches(cfg, table, rq.key, rq.filled, rq.now);
      CheckKeeps(cfg, table, rq.key, rq.filled, rq.now, before);
      assert UsedSlots(table') == UsedSlots(table) + {SlotAt(Home(rq.key), Find(table, rq.key, 0))};
      hide Check, Find, TableOk;
      assert Repeat(rq, n)[1..] == Repeat(rq, n - 1);
      LongKeyRun(cfg, table', rq, n - 1, rq.now);
    }
  }

  /**
   The guarantee fails for every key of 128 bytes or more, for every burst from 1 to
   1023: 1024 checks at one instant are all allowed.
   */
  lemma LongKeyEscapes(cfg: Config, rq: Request)
    requires rq.filled == rq.now && |rq.key| >= KEY_SIZE && IsKey(rq.key) && 1 <= cfg.burst < BUCKETS
    ensures Monotone(Repeat(rq, BUCKETS), rq.now)
    ensures Allowed(cfg, EmptyTable(), Repeat(rq, BUCKETS), rq.key, rq.now, rq.now) == BUCKETS
    ensures BUCKETS as real > cfg.burst as real + Earned(cfg, rq.now - rq.now)
  {
    assert UsedSlots(EmptyTable()) == {};
    LongKeyRun(cfg, EmptyTable(), rq, BUCKETS, rq.now);
    RepeatMonotone(rq, BUCKETS);
  }

  lemma {:induction false} RepeatMonotone(rq: Request, n: nat)
    requires rq.filled == rq.now && IsKey(rq.key)
    ensures Monotone(Repeat(rq, n), rq.now)
    decreases n
  {
    if n > 0 {
      assert Repeat(rq, n)[1..] == Repeat(rq, n - 1);
      RepeatMonotone(rq, n - 1);
    }
  }

  // ---- When the guarantee holds ----

  /** A used slot stays used. */
  lemma UsedGrows(cfg: Config, table: Table, key: seq<byte>, filled: real, now: real)
    ensures UsedSlots(table) <= UsedSlots(Check(cfg, table, key, filled, now).0)
  {
    hide Text, Home, SlotAt, Stored;
    CheckTouches(cfg, table, key, filled, now);
    hide Check;
  }

  /** A long key is allowed at most once per slot that was free before. */
  lemma LongKeyOnce(cfg: Config, table: Table, rq: Request, before: real)
    requires TableOk(cfg, table, before) && before <= rq.filled <= rq.now && |rq.key| >= KEY_SIZE
    ensures
      var (table', ok) := Check(cfg, table, rq.key, rq.filled, rq.now);
      && (ok ==> cfg.burst >= 1)
      && (if ok then 1 else 0) + |UsedSlots(table)| <= |UsedSlots(table')|
  {
    hide Text, Home, SlotAt, Stored, Take;
    var (table', ok) := Check(cfg, table, rq.key, rq.filled, rq.now);
    LongKeyTakesFreshSlot(cfg, table, rq.key, rq.filled, rq.now, before);
    CheckTouches(cfg, table, rq.key, rq.filled, rq.now);
    UsedGrows(cfg, table, rq.key, rq.filled, rq.now);
    SubsetCount(UsedSlots(table), UsedSlots(table'));
    hide Check;
    if ok {
      var j := SlotAt(Home(rq.key), Find(table, rq.key, 0));
      assert UsedSlots(table') == UsedSlots(table) + {j};
    }
  }

  lemma {:induction false} LongKeyBound(cfg: Config, table: Table, run: seq<Request>, before: real, key: seq<byte>,
                                        s: real, t: real)
    requires TableOk(cfg, table, before) && Monotone(run, before) && |key| >= KEY_SIZE
    ensures Allowed(cfg, table, run, key, s, t) + |UsedSlots(table)| <= BUCKETS
    ensures cfg.burst == 0 ==> Allowed(cfg, table, run, key, s, t) == 0
    decreases |run|
  {
    hide Check, TableOk, UsedSlots;
    if run == [] {
      FullExactly(table);
    } else {
      var rq := run[0];
      var table' := Check(cfg, table, rq.key, rq.filled, rq.now).0;
      CheckKeeps(cfg, table, rq.key, rq.filled, rq.now, before);
      UsedGrows(cfg, table, rq.key, rq.filled, rq.now);
      SubsetCount(UsedSlots(table), UsedSlots(table'));
      if rq.key == key { LongKeyOnce(cfg, table, rq, before); }
      LongKeyBound(cfg, table', run[1..], rq.now, key, s, t);
    }
  }

  /** The bound on what one window of one run allows. */
  ghost predicate WithinBound(cfg: Config, key: seq<byte>, run: seq<Request>, s: real, t: real) {
    Allowed(cfg, EmptyTable(), run, key, s, t) as real <= cfg.burst as real + Earned(cfg, t - s)
  }

  /** The token-bucket guarantee for one key: every run of checks, every window. */
  ghost predicate Guaranteed(cfg: Config, key: seq<byte>) {
    forall run, start, s, t :: Monotone(run, start) && s <= t ==> WithinBound(cfg, key, run, s, t)
  }

  lemma LongKeyWithin(cfg: Config, key: seq<byte>, run: seq<Request>, start: real, s: real, t: real)
    requires |key| >= KEY_SIZE && (cfg.burst == 0 || cfg.burst >= BUCKETS) && Monotone(run, start) && s <= t
    ensures WithinBound(cfg, key, run, s, t)
  {
    hide Allowed, Earned;
    LongKeyBound(cfg, EmptyTable(), run, start, key, s, t);
    EarnedNonNegative(cfg, t - s);
  }

  /**
   The guarantee holds for a key exactly if the key is shorter than 128 bytes, or nothing is ever
   allowed, or the burst alone allows a check for every slot of the table.
   */
  lemma GuaranteedExactly(cfg: Config, key: seq<byte>)
    requires IsKey(key)
    ensures Guaranteed(cfg, key) <==> |key| < KEY_SIZE || cfg.burst == 0 || cfg.burst >= BUCKETS
  {
    hide Allowed, Earned, Monotone;
    if |key| < KEY_SIZE || cfg.burst == 0 || cfg.burst >= BUCKETS {
      forall run, start, s, t | Monotone(run, start) && s <= t ensures WithinBound(cfg, key, run, s, t) {
        if |key| < KEY_SIZE {
          TokenBucketGuarantee(cfg, run, start, key, s, t);
        } else {
          LongKeyWithin(cfg, key, run, start, s, t);
        }
      }
    } else {
      var rq := Request(key, 0.0, 0.0);
      LongKeyEscapes(cfg, rq);
      assert !WithinBound(cfg, key, Repeat(rq, BUCKETS), 0.0, 0.0);
    }
  }
}
