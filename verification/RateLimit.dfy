/**
  The token bucket limiter: integer tokens refilled by elapsed time, kept in a bounded map that
  evicts its oldest creation. Rates are whole requests per minute; times are milliseconds.
 */
module RateLimit {
  import opened Basics
  import opened JsMaps

  datatype Bucket = Bucket(tokens: int, lastRefill: int)

  type Store = JsMap<string, Bucket>

  datatype Reply = Exempt | Admitted | Refused(retryAfterSeconds: int)

  const MINUTE := 60_000

  function Min(a: int, b: int): int { if a <= b then a else b }

  /** What an existing bucket becomes when it is fetched at `now`. */
  function Refill(b: Bucket, rpm: int, now: int): Bucket {
    var refill := (now - b.lastRefill) * rpm / MINUTE;
    if refill > 0 then Bucket(Min(rpm, b.tokens + refill), now) else b
  }

  /** Room for one more bucket: the oldest goes when the map is at its cap. */
  function Evict(m: Store, cap: int): Store {
    if |m.order| >= cap && m.order != [] then Delete(m, m.order[0]) else m
  }

  function GetOrCreate(m: Store, cap: int, key: string, rpm: int, now: int): Store {
    if key in m.at then Put(m, key, Refill(m.at[key], rpm, now))
    else Put(Evict(m, cap), key, Bucket(rpm, now))
  }

  /** `Math.ceil(60 / rpm)` */
  function RetryAfter(rpm: int): int
    requires rpm > 0
  {
    (60 + rpm - 1) / rpm
  }

  function ReplyTo(m: Store, cap: int, key: string, rpm: int, now: int): Reply {
    if rpm <= 0 then Exempt
    else if GetOrCreate(m, cap, key, rpm, now).at[key].tokens <= 0 then Refused(RetryAfter(rpm))
    else Admitted
  }

  /** The store after one request. */
  function After(m: Store, cap: int, key: string, rpm: int, now: int): Store {
    if rpm <= 0 then m
    else
      var n := GetOrCreate(m, cap, key, rpm, now);
      if n.at[key].tokens <= 0 then n
      else Put(n, key, n.at[key].(tokens := n.at[key].tokens - 1))
  }

  /** The module-level bucket map and the middleware over it. */
  class Limiter {
    var buckets: Store
    const maxBuckets: int

    constructor (maxBuckets: int)
      ensures buckets == JsMap([], map[]) && this.maxBuckets == maxBuckets
    {
      buckets, this.maxBuckets := JsMap([], map[]), maxBuckets;
    }

    method GetOrCreateBucket(key: string, rpm: int, now: int) returns (bucket: Bucket)
      modifies this
      ensures buckets == GetOrCreate(old(buckets), maxBuckets, key, rpm, now)
      ensures key in buckets.at && bucket == buckets.at[key]
    {
      if key !in buckets.at {
        if |buckets.order| >= maxBuckets && buckets.order != [] {
          var oldest := buckets.order[0];
          buckets := Delete(buckets, oldest);
        }
        bucket := Bucket(rpm, now);
        buckets := Put(buckets, key, bucket);
        return;
      }
      bucket := buckets.at[key];
      var refill := (now - bucket.lastRefill) * rpm / MINUTE;
      if refill > 0 {
        bucket := Bucket(Min(rpm, bucket.tokens + refill), now);
      }
      buckets := Put(buckets, key, bucket);
    }

    method Handle(key: string, rpm: int, now: int) returns (reply: Reply)
      modifies this
      ensures reply == ReplyTo(old(buckets), maxBuckets, key, rpm, now)
      ensures buckets == After(old(buckets), maxBuckets, key, rpm, now)
    {
      if rpm <= 0 {
        return Exempt;
      }
      var bucket := GetOrCreateBucket(key, rpm, now);
      if bucket.tokens <= 0 {
        return Refused(RetryAfter(rpm));
      }
      buckets := Put(buckets, key, bucket.(tokens := bucket.tokens - 1));
      reply := Admitted;
    }
  }

  // ---------------------------------------------------------------------------
  // Runs
  // ---------------------------------------------------------------------------

  datatype Request = Request(key: string, now: int)

  /** The configuration of a run: the cap and the fixed rate of each key. */
  datatype Config = Config(cap: int, rpm: string -> int)

  function Run(c: Config, rs: seq<Request>): Store {
    if rs == [] then JsMap([], map[])
    else
      var r := rs[|rs| - 1];
      After(Run(c, rs[..|rs| - 1]), c.cap, r.key, c.rpm(r.key), r.now)
  }

  /** The store when request `i` arrives. */
  function Before(c: Config, rs: seq<Request>, i: nat): Store
    requires i <= |rs|
  {
    Run(c, rs[..i])
  }

  function ReplyAt(c: Config, rs: seq<Request>, i: nat): Reply
    requires i < |rs|
  {
    ReplyTo(Before(c, rs, i), c.cap, rs[i].key, c.rpm(rs[i].key), rs[i].now)
  }

  ghost predicate ClockMonotone(rs: seq<Request>) {
    forall i, j | 0 <= i < j < |rs| :: rs[i].now <= rs[j].now
  }

  lemma BeforeNext(c: Config, rs: seq<Request>, i: nat)
    requires i < |rs|
    ensures Before(c, rs, i + 1) == After(Before(c, rs, i), c.cap, rs[i].key, c.rpm(rs[i].key), rs[i].now)
  {
    assert rs[..i + 1][..i] == rs[..i];
  }

  /** Tokens stay between zero and the rate, and no bucket is from the future. */
  ghost predicate Sound(c: Config, m: Store, now: int) {
    && m.Valid()
    && (forall k | k in m.at :: 0 <= m.at[k].tokens <= c.rpm(k) && m.at[k].lastRefill <= now)
  }

  lemma EvictKeeps(c: Config, m: Store, now: int)
    requires Sound(c, m, now)
    ensures Sound(c, Evict(m, c.cap), now)
    ensures forall k | k in Evict(m, c.cap).at :: k in m.at && Evict(m, c.cap).at[k] == m.at[k]
  {
    if m.order != [] { DeleteValid(m, m.order[0]); }
  }

  /** Tokens held plus time not yet turned into tokens, in units of one token per `MINUTE`. */
  function Credit(b: Bucket, rpm: int, now: int): int {
    b.tokens * MINUTE + (now - b.lastRefill) * rpm
  }

  lemma RefillFacts(b: Bucket, rpm: int, now: int)
    requires rpm > 0 && 0 <= b.tokens <= rpm && b.lastRefill <= now
    ensures var b' := Refill(b, rpm, now);
            && 0 <= b'.tokens <= rpm && b'.lastRefill <= now
            && Credit(b', rpm, now) <= Credit(b, rpm, now)
            && Credit(b', rpm, now) < (rpm + 1) * MINUTE
            && ((now - b.lastRefill) * rpm >= MINUTE ==> b'.tokens > 0)
  {
    hide Credit;
    var x := (now - b.lastRefill) * rpm;
    CreditIs(b, rpm, now, x);
    CreditIs(Bucket(Min(rpm, b.tokens + x / MINUTE), now), rpm, now, 0);
  }

  lemma CreditIs(b: Bucket, rpm: int, now: int, x: int)
    requires x == (now - b.lastRefill) * rpm
    ensures Credit(b, rpm, now) == b.tokens * MINUTE + x
  {
  }

  /** What fetching the requester's bucket does: its credit, and every other bucket. */
  lemma Fetched(c: Config, m: Store, key: string, now: int)
    requires Sound(c, m, now) && c.rpm(key) > 0
    ensures var rpm := c.rpm(key);
            var n := GetOrCreate(m, c.cap, key, rpm, now);
            && Sound(c, n, now) && key in n.at
            && (forall k | k in n.at && k != key :: k in m.at && n.at[k] == m.at[k])
            && Credit(n.at[key], rpm, now) < (rpm + 1) * MINUTE
            && (key in m.at ==> n.at[key] == Refill(m.at[key], rpm, now))
            && (key in m.at ==> Credit(n.at[key], rpm, now) <= Credit(m.at[key], rpm, now))
            && (key !in m.at ==> n.at[key].tokens == rpm)
  {
    var rpm := c.rpm(key);
    if key in m.at {
      RefillFacts(m.at[key], rpm, now);
      hide Refill, Credit;
      PutValid(m, key, Refill(m.at[key], rpm, now));
    } else {
      EvictKeeps(c, m, now);
      assert (now - now) * rpm == 0;
      PutValid(Evict(m, c.cap), key, Bucket(rpm, now));
    }
  }

  lemma Paid(b: Bucket, rpm: int, now: int)
    ensures Credit(b.(tokens := b.tokens - 1), rpm, now) == Credit(b, rpm, now) - MINUTE
  {
  }

  /** What one request does to the store: the requester's bucket, and every other bucket. */
  lemma OneRequest(c: Config, m: Store, key: string, now: int)
    requires Sound(c, m, now)
    ensures var rpm := c.rpm(key);
            var n := After(m, c.cap, key, rpm, now);
            var paid := if ReplyTo(m, c.cap, key, rpm, now) == Admitted then MINUTE else 0;
            && Sound(c, n, now)
            && (forall k | k in n.at && k != key :: k in m.at && n.at[k] == m.at[k])
            && (rpm > 0 ==>
                && key in n.at
                && Credit(n.at[key], rpm, now) + paid < (rpm + 1) * MINUTE
                && (key in m.at ==> Credit(n.at[key], rpm, now) + paid <= Credit(m.at[key], rpm, now)))
  {
    hide GetOrCreate, Credit;
    var rpm := c.rpm(key);
    if rpm > 0 {
      Fetched(c, m, key, now);
      var n := GetOrCreate(m, c.cap, key, rpm, now);
      Paid(n.at[key], rpm, now);
      PutValid(n, key, n.at[key].(tokens := n.at[key].tokens - 1));
    }
  }

  /** At every point of every run with a non-decreasing clock, tokens lie in 0..rpm. */
  lemma {:induction false} RunSound(c: Config, rs: seq<Request>, i: nat, now: int)
    requires ClockMonotone(rs) && i <= |rs| && (i > 0 ==> rs[i - 1].now <= now)
    ensures Sound(c, Before(c, rs, i), now)
  {
    if i > 0 {
      BeforeNext(c, rs, i - 1);
      RunSound(c, rs, i - 1, rs[i - 1].now);
      OneRequest(c, Before(c, rs, i - 1), rs[i - 1].key, rs[i - 1].now);
    }
  }

  // ---------------------------------------------------------------------------
  // The admission bound
  // ---------------------------------------------------------------------------

  /** Admissions of `key` among requests `i..j`. */
  function Admissions(c: Config, rs: seq<Request>, key: string, i: nat, j: nat): nat
    requires i <= j <= |rs|
  {
    if i == j then 0
    else Admissions(c, rs, key, i, j - 1) + (if rs[j - 1].key == key && ReplyAt(c, rs, j - 1) == Admitted then 1 else 0)
  }

  /** The bucket of `key` is never evicted while requests `i+1..j` are handled. */
  ghost predicate KeepsBucket(c: Config, rs: seq<Request>, key: string, i: nat, j: nat)
    requires j <= |rs|
  {
    forall t | i < t <= j :: key in Before(c, rs, t).at
  }

  /** Credit earned between two times. */
  function Earned(rpm: int, s: int, t: int): int { (t - s) * rpm }

  lemma EarnedFacts(rpm: int, s: int, t: int, u: int)
    ensures Earned(rpm, s, t) + Earned(rpm, t, u) == Earned(rpm, s, u)
    ensures rpm > 0 && s <= t ==> Earned(rpm, s, t) >= 0
    ensures Earned(rpm, s, s) == 0
  {
    assert (t - s) * rpm + (u - t) * rpm == (u - s) * rpm;
  }

  lemma CreditGrows(b: Bucket, rpm: int, s: int, t: int)
    ensures Credit(b, rpm, t) == Credit(b, rpm, s) + Earned(rpm, s, t)
    ensures rpm > 0 && b.tokens >= 0 && b.lastRefill <= t ==> Credit(b, rpm, t) >= 0
  {
    assert (t - b.lastRefill) * rpm == (s - b.lastRefill) * rpm + (t - s) * rpm;
  }

  /** One more request, of any key: admissions and credit together grow by no more than time earns. */
  lemma CreditStep(c: Config, rs: seq<Request>, key: string, j: nat, s: int)
    requires ClockMonotone(rs) && j < |rs| && c.rpm(key) > 0
    requires key in Before(c, rs, j).at && key in Before(c, rs, j + 1).at
    ensures var paid := if rs[j].key == key && ReplyAt(c, rs, j) == Admitted then MINUTE else 0;
            Credit(Before(c, rs, j + 1).at[key], c.rpm(key), rs[j].now) + paid
            <= Credit(Before(c, rs, j).at[key], c.rpm(key), s) + Earned(c.rpm(key), s, rs[j].now)
  {
    hide Credit, Earned, After, ReplyTo, Before, Sound;
    var m := Before(c, rs, j);
    RunSound(c, rs, j, rs[j].now);
    BeforeNext(c, rs, j);
    OneRequest(c, m, rs[j].key, rs[j].now);
    CreditGrows(m.at[key], c.rpm(key), s, rs[j].now);
  }

  lemma {:induction false} CreditBound(c: Config, rs: seq<Request>, key: string, i: nat, j: nat)
    requires ClockMonotone(rs) && i < j <= |rs| && rs[i].key == key && c.rpm(key) > 0
    requires KeepsBucket(c, rs, key, i, j)
    ensures MINUTE * Admissions(c, rs, key, i, j) + Credit(Before(c, rs, j).at[key], c.rpm(key), rs[j - 1].now)
          < (c.rpm(key) + 1) * MINUTE + Earned(c.rpm(key), rs[i].now, rs[j - 1].now)
    decreases j
  {
    hide Credit, Earned, After, ReplyTo, Before, Sound;
    var rpm := c.rpm(key);
    if j - 1 == i {
      RunSound(c, rs, i, rs[i].now);
      BeforeNext(c, rs, i);
      OneRequest(c, Before(c, rs, i), key, rs[i].now);
      EarnedFacts(rpm, rs[i].now, rs[i].now, rs[i].now);
      assert Admissions(c, rs, key, i, i) == 0;
    } else {
      CreditBound(c, rs, key, i, j - 1);
      CreditStep(c, rs, key, j - 1, rs[j - 2].now);
      EarnedFacts(rpm, rs[i].now, rs[j - 2].now, rs[j - 1].now);
    }
  }

  lemma EarnedIs(rpm: int, s: int, t: int)
    ensures Earned(rpm, s, t) == (t - s) * rpm
  {
  }

  lemma CreditNonNegative(c: Config, m: Store, key: string, now: int)
    requires Sound(c, m, now) && key in m.at && c.rpm(key) > 0
    ensures Credit(m.at[key], c.rpm(key), now) >= 0
  {
    assert (now - m.at[key].lastRefill) * c.rpm(key) >= 0;
  }

  /**
    While its bucket is not evicted, a key is admitted at most rpm + (t - s) * rpm / 60000 + 1 times
    in any window of requests from time s to time t (stated without the division).
   */
  lemma AdmissionBound(c: Config, rs: seq<Request>, key: string, i: nat, j: nat)
    requires ClockMonotone(rs) && i <= j < |rs| && rs[i].key == rs[j].key == key && c.rpm(key) > 0
    requires KeepsBucket(c, rs, key, i, j)
    ensures MINUTE * Admissions(c, rs, key, i, j + 1)
          < (c.rpm(key) + 1) * MINUTE + (rs[j].now - rs[i].now) * c.rpm(key)
  {
    hide Credit, Earned, After, ReplyTo, Before, Admissions, Sound;
    RunSound(c, rs, j, rs[j].now);
    BeforeNext(c, rs, j);
    OneRequest(c, Before(c, rs, j), key, rs[j].now);
    CreditBound(c, rs, key, i, j + 1);
    RunSound(c, rs, j + 1, rs[j].now);
    CreditNonNegative(c, Before(c, rs, j + 1), key, rs[j].now);
    EarnedIs(c.rpm(key), rs[i].now, rs[j].now);
  }

  // ---------------------------------------------------------------------------
  // The advertised retry time
  // ---------------------------------------------------------------------------

  /** Between two requests of `key`, its bucket is untouched or gone. */
  lemma {:induction false} BucketIdle(c: Config, rs: seq<Request>, key: string, i: nat, j: nat)
    requires ClockMonotone(rs) && i < j <= |rs| && c.rpm(key) > 0 && rs[i].key == key
    requires forall t | i < t < j :: rs[t].key != key
    ensures key in Before(c, rs, j).at ==>
              key in Before(c, rs, i + 1).at && Before(c, rs, j).at[key] == Before(c, rs, i + 1).at[key]
    decreases j
  {
    if j > i + 1 {
      BucketIdle(c, rs, key, i, j - 1);
      BeforeNext(c, rs, j - 1);
      RunSound(c, rs, j - 1, rs[j - 1].now);
      OneRequest(c, Before(c, rs, j - 1), rs[j - 1].key, rs[j - 1].now);
    }
  }

  /** A request is admitted when since the last one of its key time has earned a token, evicted meanwhile or not. */
  lemma PacedAdmitted(c: Config, rs: seq<Request>, key: string, i: nat, j: nat)
    requires ClockMonotone(rs) && i < j < |rs| && rs[i].key == rs[j].key == key && c.rpm(key) > 0
    requires forall t | i < t < j :: rs[t].key != key
    requires (rs[j].now - rs[i].now) * c.rpm(key) >= 60_000
    ensures ReplyAt(c, rs, j) == Admitted
  {
    hide Credit, Before, Refill, GetOrCreate;
    var rpm := c.rpm(key);
    RunSound(c, rs, i, rs[i].now);
    BeforeNext(c, rs, i);
    OneRequest(c, Before(c, rs, i), key, rs[i].now);
    RunSound(c, rs, j, rs[j].now);
    var m := Before(c, rs, j);
    Fetched(c, m, key, rs[j].now);
    if key in m.at {
      BucketIdle(c, rs, key, i, j);
      EarnedSince(m.at[key].lastRefill, rpm, rs[i].now, rs[j].now);
      RefillFacts(m.at[key], rpm, rs[j].now);
    }
  }

  lemma EarnedSince(last: int, rpm: int, now: int, later: int)
    requires rpm > 0 && last <= now && (later - now) * rpm >= 60_000
    ensures (later - last) * rpm >= MINUTE
  {
    assert (later - last) * rpm == (later - now) * rpm + (now - last) * rpm;
    assert (now - last) * rpm >= 0;
  }

  /** The advertised seconds are the fewest in which a token is earned. */
  lemma RetryAfterLeast(rpm: int)
    requires rpm > 0
    ensures RetryAfter(rpm) * rpm >= 60 && (RetryAfter(rpm) - 1) * rpm < 60
  {
  }

  /**
    A refused caller that waits the advertised seconds is admitted, if nothing else drew on its
    bucket meanwhile; whether the bucket survived or was evicted makes no difference.
   */
  lemma RetryAdmitted(c: Config, rs: seq<Request>, key: string, i: nat, j: nat)
    requires ClockMonotone(rs) && i < j < |rs| && rs[i].key == rs[j].key == key
    requires forall t | i < t < j :: rs[t].key != key
    requires ReplyAt(c, rs, i).Refused?
    requires rs[j].now >= rs[i].now + ReplyAt(c, rs, i).retryAfterSeconds * 1000
    ensures ReplyAt(c, rs, j) == Admitted
  {
    hide Before, GetOrCreate, RetryAfter;
    RetryInTime(c.rpm(key), rs[i].now, rs[j].now);
    PacedAdmitted(c, rs, key, i, j);
  }

  lemma RetryInTime(rpm: int, now: int, later: int)
    requires rpm > 0 && later >= now + RetryAfter(rpm) * 1000
    ensures (later - now) * rpm >= 60_000
  {
    RetryAfterLeast(rpm);
    assert (later - now) * rpm >= RetryAfter(rpm) * 1000 * rpm;
  }

  // ---------------------------------------------------------------------------
  // What is granted
  // ---------------------------------------------------------------------------

  /** Elapsed time adds the whole tokens it has earned, up to the rate, and restarts the clock when there are any. */
  lemma RefillIs(b: Bucket, rpm: int, now: int, k: int)
    requires k * 60_000 <= (now - b.lastRefill) * rpm < (k + 1) * 60_000
    ensures k > 0 ==> Refill(b, rpm, now) == Bucket(if b.tokens + k < rpm then b.tokens + k else rpm, now)
    ensures k <= 0 ==> Refill(b, rpm, now) == b
  {
    assert (now - b.lastRefill) * rpm / 60_000 == k;
  }

  /** A rate of zero or less exempts: nothing is refused and nothing is counted. */
  lemma ExemptIff(m: Store, cap: int, key: string, rpm: int, now: int)
    ensures ReplyTo(m, cap, key, rpm, now) == Exempt <==> rpm <= 0
    ensures rpm <= 0 ==> After(m, cap, key, rpm, now) == m
  {
  }

  /** The requests of `key` among `i..j`. */
  function RequestsOf(rs: seq<Request>, key: string, i: nat, j: nat): nat
    requires i <= j <= |rs|
  {
    if i == j then 0 else RequestsOf(rs, key, i, j - 1) + (if rs[j - 1].key == key then 1 else 0)
  }

  /** A refill never takes tokens away. */
  lemma RefillAdds(b: Bucket, rpm: int, now: int)
    requires rpm > 0 && b.tokens <= rpm
    ensures Refill(b, rpm, now).tokens >= b.tokens
  {
  }

  lemma TokensStep(c: Config, m: Store, key: string, r: Request)
    requires Sound(c, m, r.now) && c.rpm(key) > 0 && key in m.at
    ensures var n := After(m, c.cap, r.key, c.rpm(r.key), r.now);
            key in n.at ==> n.at[key].tokens >= m.at[key].tokens - (if r.key == key then 1 else 0)
  {
    OneRequest(c, m, r.key, r.now);
    RefillAdds(m.at[key], c.rpm(key), r.now);
    hide Refill;
  }

  /** A bucket created by request `i` and kept has at least what its requests have not drawn. */
  lemma {:induction false} TokensLeft(c: Config, rs: seq<Request>, key: string, i: nat, j: nat)
    requires ClockMonotone(rs) && i < j <= |rs| && rs[i].key == key && c.rpm(key) > 0
    requires key !in Before(c, rs, i).at && KeepsBucket(c, rs, key, i, j)
    ensures Before(c, rs, j).at[key].tokens >= c.rpm(key) - RequestsOf(rs, key, i, j)
    decreases j
  {
    hide Sound;
    RunSound(c, rs, j - 1, rs[j - 1].now);
    BeforeNext(c, rs, j - 1);
    hide Before;
    if j - 1 == i {
      hide After, GetOrCreate;
      FirstDraw(Before(c, rs, i), c, key, rs[i].now);
    } else {
      TokensLeft(c, rs, key, i, j - 1);
      TokensStep(c, Before(c, rs, j - 1), key, rs[j - 1]);
    }
  }

  lemma FirstDraw(m: Store, c: Config, key: string, now: int)
    requires Sound(c, m, now) && key !in m.at && c.rpm(key) > 0
    ensures var n := After(m, c.cap, key, c.rpm(key), now);
            key in n.at && n.at[key].tokens == c.rpm(key) - 1
  {
    hide Evict;
  }

  /** A caller new to the limiter is admitted as many times as its rate says, however fast they come, while its bucket is kept. */
  lemma BurstAdmitted(c: Config, rs: seq<Request>, key: string, i: nat, j: nat)
    requires ClockMonotone(rs) && i <= j < |rs| && rs[i].key == rs[j].key == key && c.rpm(key) > 0
    requires key !in Before(c, rs, i).at && KeepsBucket(c, rs, key, i, j)
    requires RequestsOf(rs, key, i, j + 1) <= c.rpm(key)
    ensures ReplyAt(c, rs, j) == Admitted
  {
    hide Before, Refill;
    var m := Before(c, rs, j);
    RunSound(c, rs, j, rs[j].now);
    Fetched(c, m, key, rs[j].now);
    if i < j {
      TokensLeft(c, rs, key, i, j);
      RefillAdds(m.at[key], c.rpm(key), rs[j].now);
    }
  }

  // ---------------------------------------------------------------------------
  // Which buckets are held
  // ---------------------------------------------------------------------------

  /** The keys for which buckets were created, in order. */
  function Creations(c: Config, rs: seq<Request>): seq<string> {
    if rs == [] then []
    else
      var r := rs[|rs| - 1];
      var m := Run(c, rs[..|rs| - 1]);
      Creations(c, rs[..|rs| - 1]) + (if c.rpm(r.key) > 0 && r.key !in m.at then [r.key] else [])
  }

  lemma EvictOrder(m: Store, cap: int)
    requires m.Valid()
    ensures Evict(m, cap).Valid()
    ensures forall k | k in Evict(m, cap).at :: k in m.at
    ensures Evict(m, cap).order == if |m.order| >= cap && m.order != [] then m.order[1..] else m.order
  {
    if m.order != [] { DeleteValid(m, m.order[0]); }
  }

  lemma FetchOrder(m: Store, cap: int, key: string, rpm: int, now: int)
    requires m.Valid()
    ensures var n := GetOrCreate(m, cap, key, rpm, now);
            && n.Valid() && key in n.at
            && n.order == if key !in m.at then Evict(m, cap).order + [key] else m.order
  {
    hide Refill, Evict;
    EvictOrder(m, cap);
    if key in m.at {
      PutValid(m, key, Refill(m.at[key], rpm, now));
    } else {
      PutValid(Evict(m, cap), key, Bucket(rpm, now));
    }
  }

  /** One request appends at most its own key to the creations, and drops at most the oldest. */
  lemma OrderAfter(c: Config, m: Store, key: string, now: int)
    requires m.Valid()
    ensures var rpm := c.rpm(key);
            var n := After(m, c.cap, key, rpm, now);
            && n.Valid()
            && n.order == (if rpm > 0 && key !in m.at then Evict(m, c.cap).order + [key] else m.order)
  {
    hide GetOrCreate, Evict;
    var rpm := c.rpm(key);
    if rpm > 0 {
      var n := GetOrCreate(m, c.cap, key, rpm, now);
      FetchOrder(m, c.cap, key, rpm, now);
      PutValid(n, key, n.at[key].(tokens := n.at[key].tokens - 1));
    }
  }

  lemma LastNAppend(xs: seq<string>, x: string, cap: int)
    ensures var order := LastN(xs, Kept(cap));
            LastN(xs + [x], Kept(cap))
            == (if |order| >= cap && order != [] then order[1..] else order) + [x]
  {
  }

  /** At every point the map holds exactly the last creations, oldest first. */
  lemma {:induction false} HoldsLastCreations(c: Config, rs: seq<Request>)
    ensures Run(c, rs).Valid()
    ensures Run(c, rs).order == LastN(Creations(c, rs), Kept(c.cap))
  {
    hide After, Evict, LastN;
    LastNEmpty(Kept(c.cap));
    if rs != [] {
      var front := rs[..|rs| - 1];
      var r := rs[|rs| - 1];
      HoldsLastCreations(c, front);
      OrderAfter(c, Run(c, front), r.key, r.now);
      EvictOrder(Run(c, front), c.cap);
      LastNAppend(Creations(c, front), r.key, c.cap);
      assert Creations(c, front) + [] == Creations(c, front);
    }
  }

  lemma LastNEmpty(n: nat)
    ensures LastN<string>([], n) == []
  {
  }

  /** The newest of the first `n` creations survives until `Kept(cap)` further ones have happened. */
  lemma BucketSurvives(c: Config, rs: seq<Request>, n: nat)
    requires n < |Creations(c, rs)| < n + 1 + Kept(c.cap)
    ensures Creations(c, rs)[n] in Run(c, rs).at
  {
    hide Run, Creations;
    HoldsLastCreations(c, rs);
    var all := Creations(c, rs);
    var m := Run(c, rs);
    var k := n - (|all| - |m.order|);
    assert all[n] == m.order[k];
    assert m.order[k] in m.at;
  }
}
