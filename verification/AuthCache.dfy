/**
  The cache of verified tokens: a bounded map in last-use order in front of an asynchronous
  signature check. A key is represented by the secret it was imported from.
 */
module AuthCache {
  import opened Basics
  import opened JsMaps

  /** `exp` is a NumericDate in seconds. */
  datatype Payload = Payload(exp: real, claims: int)

  datatype Entry = Entry(payload: Payload, expiresAtMs: real)

  type Cache = JsMap<string, Entry>

  /**
    What the signature check and decoding yield for a token of three parts under a key: the payload
    when the signature is valid and the payload has a numeric `exp`.
   */
  type Check = (string, string) -> Option<Payload>

  function Dots(token: string): nat {
    if token == [] then 0 else (if token[0] == '.' then 1 else 0) + Dots(token[1..])
  }

  /** `token.split(".").length === 3` */
  predicate ThreeParts(token: string) { Dots(token) == 2 }

  /** Verification without any cache, under a secret and at a time. */
  function Uncached(check: Check, secret: string, token: string, nowMs: int): Option<Payload> {
    if secret == "" || !ThreeParts(token) then None
    else
      match check(secret, token)
      case None => None
      case Some(p) => if p.exp * 1000.0 <= nowMs as real then None else Some(p)
  }

  // ---------------------------------------------------------------------------
  // The state and its steps
  // ---------------------------------------------------------------------------

  /** A verification that is awaiting the key import or the signature check. */
  datatype Pending =
    | AwaitKey(token: string, nowMs: int, secret: string)
    | AwaitVerify(token: string, nowMs: int, key: string)

  /** `uses` is the history that the order of the map is judged by: a hit and a store are uses of a token. */
  datatype State = State(
    env: string,
    cachedSecret: Option<string>,
    cachedKey: Option<string>,
    cache: Cache,
    pending: map<nat, Pending>,
    uses: seq<string>)

  datatype Config = Config(check: Check, max: int)

  /**
    A verification runs in steps, between which other verifications, and changes of the secret, may
    happen. `Begin` is what runs before the first await; `KeyReady` is the end of a key import, which
    is awaited when no key is cached; `Finish` is the end of the signature check, with the expiry check
    and the storing of the entry that follow it.
   */
  datatype Step =
    | Rotate(secret: string)
    | Begin(id: nat, token: string, nowMs: int)
    | KeyReady(id: nat)
    | Finish(id: nat)

  /** An answer given to a caller. */
  datatype Answer = Answer(token: string, nowMs: int, result: Option<Payload>)

  const NO_ENTRIES: Cache := JsMap([], map[])

  function Start(env: string): State {
    State(env, None, None, NO_ENTRIES, map[], [])
  }

  /** `getSecret`: a changed secret drops the key and every cached verification. */
  function GetSecret(s: State): State {
    if s.cachedSecret == Some(s.env) then s
    else s.(cachedSecret := Some(s.env), cachedKey := None, cache := NO_ENTRIES)
  }

  predicate Live(cache: Cache, token: string, nowMs: int) {
    token in cache.at && cache.at[token].expiresAtMs > nowMs as real
  }

  /** `cacheGet`: a live hit moves to the end, an expired entry goes. */
  function CacheGet(cache: Cache, token: string, nowMs: int): Cache {
    if token !in cache.at then cache
    else if Live(cache, token, nowMs) then Put(Delete(cache, token), token, cache.at[token])
    else Delete(cache, token)
  }

  /** Oldest entries go until one more fits. */
  function Evict(cache: Cache, max: int): Cache
    decreases |cache.order|
  {
    if |cache.order| >= max && cache.order != [] then Evict(Delete(cache, cache.order[0]), max) else cache
  }

  function CacheSet(cache: Cache, max: int, token: string, p: Payload): Cache {
    Put(Evict(cache, max), token, Entry(p, p.exp * 1000.0))
  }

  ghost predicate Enabled(s: State, step: Step) {
    match step
    case Rotate(_) => true
    case Begin(id, _, _) => id !in s.pending
    case KeyReady(id) => id in s.pending && s.pending[id].AwaitKey?
    case Finish(id) => id in s.pending && s.pending[id].AwaitVerify?
  }

  function BeginNext(c: Config, s0: State, id: nat, token: string, nowMs: int): (State, Option<Answer>) {
    var s := GetSecret(s0);
    if s.env == "" then (s, Some(Answer(token, nowMs, None)))
    else
      var t := s.(cache := CacheGet(s.cache, token, nowMs));
      if Live(s.cache, token, nowMs) then
        (t.(uses := s.uses + [token]), Some(Answer(token, nowMs, Some(s.cache.at[token].payload))))
      else if !ThreeParts(token) then (t, Some(Answer(token, nowMs, None)))
      else
        (t.(pending := s.pending[id :=
              if s.cachedKey.Some? then AwaitVerify(token, nowMs, s.cachedKey.value) else AwaitKey(token, nowMs, s.env)]),
         None)
  }

  function FinishNext(c: Config, s0: State, id: nat): (State, Option<Answer>)
    requires id in s0.pending && s0.pending[id].AwaitVerify?
  {
    var p := s0.pending[id];
    var s := s0.(pending := s0.pending - {id});
    match c.check(p.key, p.token)
    case None => (s, Some(Answer(p.token, p.nowMs, None)))
    case Some(payload) =>
      if payload.exp * 1000.0 <= p.nowMs as real then (s, Some(Answer(p.token, p.nowMs, None)))
      else
        (s.(cache := CacheSet(s.cache, c.max, p.token, payload), uses := s.uses + [p.token]),
         Some(Answer(p.token, p.nowMs, Some(payload))))
  }

  ghost function Next(c: Config, s: State, step: Step): (State, Option<Answer>)
    requires Enabled(s, step)
  {
    match step
    case Rotate(secret) => (s.(env := secret), None)
    case Begin(id, token, nowMs) => BeginNext(c, s, id, token, nowMs)
    case KeyReady(id) =>
      var p := s.pending[id];
      (s.(cachedKey := Some(p.secret), pending := s.pending[id := AwaitVerify(p.token, p.nowMs, p.secret)]), None)
    case Finish(id) => FinishNext(c, s, id)
  }

  // ---------------------------------------------------------------------------
  // The module's variables
  // ---------------------------------------------------------------------------

  class Verifier {
    const check: Check
    const max: int
    var env: string
    var cachedSecret: Option<string>
    var cachedKey: Option<string>
    var verifyCache: Cache
    var pending: map<nat, Pending>
    ghost var uses: seq<string>

    ghost function Now(): State
      reads this
    {
      State(env, cachedSecret, cachedKey, verifyCache, pending, uses)
    }

    constructor (check: Check, max: int, env: string)
      ensures this.check == check && this.max == max && Now() == Start(env)
    {
      this.check, this.max, this.env := check, max, env;
      cachedSecret, cachedKey, verifyCache, pending, uses := None, None, NO_ENTRIES, map[], [];
    }

    method ReadSecret() returns (secret: string)
      modifies this
      ensures Now() == GetSecret(old(Now())) && secret == env
    {
      secret := env;
      if Some(secret) != cachedSecret {
        cachedSecret := Some(secret);
        cachedKey := None;
        verifyCache := NO_ENTRIES;
      }
    }

    method GetCached(token: string, nowMs: int) returns (payload: Option<Payload>)
      modifies this`verifyCache, this`uses
      ensures var live := Live(old(verifyCache), token, nowMs);
              && verifyCache == CacheGet(old(verifyCache), token, nowMs)
              && payload == (if live then Some(old(verifyCache).at[token].payload) else None)
              && uses == (if live then old(uses) + [token] else old(uses))
    {
      if token !in verifyCache.at {
        return None;
      }
      var hit := verifyCache.at[token];
      if hit.expiresAtMs <= nowMs as real {
        verifyCache := Delete(verifyCache, token);
        return None;
      }
      verifyCache := Delete(verifyCache, token);
      verifyCache := Put(verifyCache, token, hit);
      uses := uses + [token];
      payload := Some(hit.payload);
    }

    method SetCached(token: string, payload: Payload)
      requires verifyCache.Valid()
      modifies this`verifyCache, this`uses
      ensures verifyCache == CacheSet(old(verifyCache), max, token, payload)
      ensures uses == old(uses) + [token]
    {
      while |verifyCache.order| >= max && verifyCache.order != []
        invariant verifyCache.Valid() && uses == old(uses)
        invariant Evict(verifyCache, max) == Evict(old(verifyCache), max)
        decreases |verifyCache.order|
      {
        var oldest := verifyCache.order[0];
        DeleteValid(verifyCache, oldest);
        verifyCache := Delete(verifyCache, oldest);
      }
      verifyCache := Put(verifyCache, token, Entry(payload, payload.exp * 1000.0));
      uses := uses + [token];
    }

    /** `verifyToken` up to its first await, or to its answer. */
    method BeginVerify(id: nat, token: string, nowMs: int) returns (answer: Option<Answer>)
      requires id !in pending
      modifies this
      ensures (Now(), answer) == BeginNext(Config(check, max), old(Now()), id, token, nowMs)
    {
      var secret := ReadSecret();
      if secret == "" {
        return Some(Answer(token, nowMs, None));
      }
      var cached := GetCached(token, nowMs);
      if cached.Some? {
        return Some(Answer(token, nowMs, cached));
      }
      if !ThreeParts(token) {
        return Some(Answer(token, nowMs, None));
      }
      pending := pending[id :=
        if cachedKey.Some? then AwaitVerify(token, nowMs, cachedKey.value) else AwaitKey(token, nowMs, secret)];
      answer := None;
    }

    method KeyImported(id: nat)
      requires id in pending && pending[id].AwaitKey?
      modifies this
      ensures (Now(), None) == Next(Config(check, max), old(Now()), KeyReady(id))
    {
      var p := pending[id];
      cachedKey := Some(p.secret);
      pending := pending[id := AwaitVerify(p.token, p.nowMs, p.secret)];
    }

    method Verified(id: nat) returns (answer: Option<Answer>)
      requires verifyCache.Valid() && id in pending && pending[id].AwaitVerify?
      modifies this
      ensures (Now(), answer) == FinishNext(Config(check, max), old(Now()), id)
    {
      var p := pending[id];
      pending := pending - {id};
      var result := check(p.key, p.token);
      if result.None? || result.value.exp * 1000.0 <= p.nowMs as real {
        return Some(Answer(p.token, p.nowMs, None));
      }
      SetCached(p.token, result.value);
      answer := Some(Answer(p.token, p.nowMs, result));
    }
  }

  // ---------------------------------------------------------------------------
  // Cached answers are uncached answers
  // ---------------------------------------------------------------------------

  /** The entry is what the secret's own verification of the token yields. */
  ghost predicate Faithful(c: Config, secret: string, token: string, e: Entry) {
    secret != "" && ThreeParts(token) && c.check(secret, token) == Some(e.payload) && e.expiresAtMs == e.payload.exp * 1000.0
  }

  /** The key a pending verification goes by. */
  function KeyOf(p: Pending): string { if p.AwaitKey? then p.secret else p.key }

  ghost predicate Consistent(c: Config, s: State) {
    && s.cache.Valid()
    && (s.cachedSecret.None? ==> s.cache == NO_ENTRIES && s.cachedKey.None? && s.pending == map[])
    && (s.cachedKey.Some? ==> s.cachedKey == s.cachedSecret)
    && (forall t | t in s.cache.at :: Faithful(c, s.cachedSecret.value, t, s.cache.at[t]))
    && (forall id | id in s.pending ::
          s.cachedSecret == Some(s.env) && s.env != "" && KeyOf(s.pending[id]) == s.env && ThreeParts(s.pending[id].token))
  }

  /** The secret does not change while a verification is awaiting. */
  ghost predicate Calm(s: State, step: Step) {
    step.Rotate? ==> s.pending == map[]
  }

  lemma EvictKeeps(cache: Cache, max: int)
    requires cache.Valid()
    ensures Evict(cache, max).Valid()
    ensures forall t | t in Evict(cache, max).at :: t in cache.at && Evict(cache, max).at[t] == cache.at[t]
    decreases |cache.order|
  {
    if |cache.order| >= max && cache.order != [] {
      DeleteValid(cache, cache.order[0]);
      EvictKeeps(Delete(cache, cache.order[0]), max);
    }
  }

  /** Eviction drops the oldest keys, and none more than it has to. */
  lemma EvictDropsOldest(cache: Cache, max: int) returns (n: nat)
    requires cache.Valid()
    ensures n <= |cache.order| && Evict(cache, max).order == cache.order[n..]
    ensures |cache.order| - n < Kept(max)
    ensures n > 0 ==> |cache.order| - n + 1 >= Kept(max)
    decreases |cache.order|
  {
    n := 0;
    if |cache.order| >= max && cache.order != [] {
      DeleteValid(cache, cache.order[0]);
      n := EvictDropsOldest(Delete(cache, cache.order[0]), max);
      assert cache.order[1..][n..] == cache.order[n + 1..];
      n := n + 1;
    }
  }

  lemma CacheGetKeeps(cache: Cache, token: string, nowMs: int)
    requires cache.Valid()
    ensures CacheGet(cache, token, nowMs).Valid()
    ensures forall t | t in CacheGet(cache, token, nowMs).at :: t in cache.at && CacheGet(cache, token, nowMs).at[t] == cache.at[t]
    ensures token in CacheGet(cache, token, nowMs).at <==> Live(cache, token, nowMs)
  {
    DeleteValid(cache, token);
    if token in cache.at { PutValid(Delete(cache, token), token, cache.at[token]); }
  }

  /** Resolving the secret drops whatever another secret vouched for. */
  lemma SecretResolved(c: Config, s: State)
    requires Consistent(c, s)
    ensures var t := GetSecret(s);
            && Consistent(c, t) && t.cachedSecret == Some(s.env) && t.env == s.env && t.pending == s.pending && t.uses == s.uses
  {
  }

  /** A live entry answers as its secret's own verification would. */
  lemma LiveAnswers(c: Config, secret: string, cache: Cache, token: string, nowMs: int)
    requires (forall t | t in cache.at :: Faithful(c, secret, t, cache.at[t])) && Live(cache, token, nowMs)
    ensures Uncached(c.check, secret, token, nowMs) == Some(cache.at[token].payload)
  {
    assert Faithful(c, secret, token, cache.at[token]);
  }

  /** A token that is not of three parts is refused under every secret. */
  lemma PartsRefused(check: Check, secret: string, token: string, nowMs: int)
    requires secret == "" || !ThreeParts(token)
    ensures Uncached(check, secret, token, nowMs) == None
  {
  }

  lemma BeginAnswers(c: Config, s0: State, id: nat, token: string, nowMs: int)
    requires Consistent(c, s0) && id !in s0.pending
    ensures var (t, a) := BeginNext(c, s0, id, token, nowMs);
            && Consistent(c, t)
            && (a.Some? ==> a.value.result == Uncached(c.check, s0.env, a.value.token, a.value.nowMs))
  {
    SecretResolved(c, s0);
    var s := GetSecret(s0);
    CacheGetKeeps(s.cache, token, nowMs);
    if Live(s.cache, token, nowMs) { LiveAnswers(c, s.env, s.cache, token, nowMs); }
    if s.env == "" || !ThreeParts(token) { PartsRefused(c.check, s.env, token, nowMs); }
    hide CacheGet, GetSecret, Faithful, Live, Uncached;
  }

  lemma PutKeeps(kept: Cache, token: string, e: Entry)
    requires kept.Valid()
    ensures var n := Put(kept, token, e);
            n.Valid() && token in n.at && n.at[token] == e && (forall t | t in n.at && t != token :: t in kept.at && n.at[t] == kept.at[t])
  {
    PutValid(kept, token, e);
  }

  lemma CacheSetKeeps(cache: Cache, max: int, token: string, p: Payload)
    requires cache.Valid()
    ensures var n := CacheSet(cache, max, token, p);
            && n.Valid() && token in n.at && n.at[token] == Entry(p, p.exp * 1000.0)
            && (forall t | t in n.at && t != token :: t in cache.at && n.at[t] == cache.at[t])
  {
    hide Evict, Put;
    EvictKeeps(cache, max);
    PutKeeps(Evict(cache, max), token, Entry(p, p.exp * 1000.0));
  }

  lemma FinishAnswers(c: Config, s: State, id: nat)
    requires Consistent(c, s) && id in s.pending && s.pending[id].AwaitVerify?
    ensures var (t, a) := FinishNext(c, s, id);
            && Consistent(c, t)
            && (a.Some? ==> a.value.result == Uncached(c.check, s.env, a.value.token, a.value.nowMs))
  {
    var p := s.pending[id];
    var r := c.check(p.key, p.token);
    if r.Some? {
      hide CacheSet;
      CacheSetKeeps(s.cache, c.max, p.token, r.value);
    }
  }

  /** A step keeps the cache consistent, and what it answers is what an uncached verification would. */
  lemma StepAnswersUncached(c: Config, s: State, step: Step)
    requires Consistent(c, s) && Enabled(s, step) && Calm(s, step)
    ensures Consistent(c, Next(c, s, step).0)
    ensures var a := Next(c, s, step).1;
            a.Some? ==> a.value.result == Uncached(c.check, s.env, a.value.token, a.value.nowMs)
  {
    match step
    case Rotate(secret) =>
    case Begin(id, token, nowMs) => BeginAnswers(c, s, id, token, nowMs);
    case KeyReady(id) =>
    case Finish(id) => FinishAnswers(c, s, id);
  }

  ghost predicate Possible(c: Config, s: State, steps: seq<Step>)
    decreases |steps|
  {
    steps != [] ==> Enabled(s, steps[0]) && Possible(c, Next(c, s, steps[0]).0, steps[1..])
  }

  ghost predicate AllCalm(c: Config, s: State, steps: seq<Step>)
    requires Possible(c, s, steps)
    decreases |steps|
  {
    steps != [] ==> Calm(s, steps[0]) && AllCalm(c, Next(c, s, steps[0]).0, steps[1..])
  }

  /** Every answer of the run is the uncached one under the secret of that moment. */
  ghost predicate AnswersUncached(c: Config, s: State, steps: seq<Step>)
    requires Possible(c, s, steps)
    decreases |steps|
  {
    steps != [] ==>
      var (t, a) := Next(c, s, steps[0]);
      && (a.Some? ==> a.value.result == Uncached(c.check, s.env, a.value.token, a.value.nowMs))
      && AnswersUncached(c, t, steps[1..])
  }

  lemma {:induction false} CalmRunsAnswerUncached(c: Config, s: State, steps: seq<Step>)
    requires Consistent(c, s) && Possible(c, s, steps) && AllCalm(c, s, steps)
    ensures AnswersUncached(c, s, steps)
    decreases |steps|
  {
    hide Next, Consistent, Enabled, Calm, Uncached;
    if steps != [] {
      StepAnswersUncached(c, s, steps[0]);
      CalmRunsAnswerUncached(c, Next(c, s, steps[0]).0, steps[1..]);
    }
  }

  lemma StartConsistent(c: Config, env: string)
    ensures Consistent(c, Start(env))
  {
  }

  /**
    Without that condition an answer can be wrong: whenever a check that will succeed is awaited, a
    change to a secret under which the token is invalid, one other request, and the end of the check
    leave an entry that answers for the new secret.
   */
  lemma RotationWhileAwaitingLeaks(c: Config, s: State, id: nat, other: nat, secret: string, nowMs: int)
    requires Consistent(c, s)
    requires id in s.pending && s.pending[id].AwaitVerify? && other !in s.pending
    requires var p := s.pending[id];
             && c.check(p.key, p.token).Some?
             && c.check(p.key, p.token).value.exp * 1000.0 > p.nowMs as real
             && c.check(p.key, p.token).value.exp * 1000.0 > nowMs as real
             && secret != "" && secret != s.env && c.check(secret, p.token).None?
    ensures var token := s.pending[id].token;
            var s1 := Next(c, s, Rotate(secret)).0;
            var s2 := Next(c, s1, Begin(other, "", nowMs)).0;
            var s3 := Next(c, s2, Finish(id)).0;
            var a := Next(c, s3, Begin(other, token, nowMs)).1;
            a.Some? && a.value.result.Some? && Uncached(c.check, s3.env, token, nowMs).None?
  {
    var p := s.pending[id];
    var s1 := Next(c, s, Rotate(secret)).0;
    var s2 := Next(c, s1, Begin(other, "", nowMs)).0;
    assert Dots("") == 0;
    assert s2.cachedSecret == Some(secret) && s2.pending == s.pending;
    CacheSetKeeps(s2.cache, c.max, p.token, c.check(p.key, p.token).value);
    hide CacheSet, CacheGet;
  }

  /** All that is cached, pending and imported goes by a key whose secret is no longer the current one. */
  ghost predicate Stale(c: Config, s: State, oldSecret: string) {
    && s.cache.Valid() && oldSecret != "" && s.env != "" && s.env != oldSecret
    && s.cachedSecret == Some(s.env) && s.cachedKey == Some(oldSecret)
    && (forall t | t in s.cache.at :: Faithful(c, oldSecret, t, s.cache.at[t]))
    && (forall id | id in s.pending :: KeyOf(s.pending[id]) == oldSecret && ThreeParts(s.pending[id].token))
  }

  /**
    A change of the secret while a key import is awaited is worse: whenever one is, a change to any
    other secret, one other request and the end of the import leave the old key beside the new secret.
   */
  lemma RotationWhileImportingStales(c: Config, s: State, id: nat, other: nat, secret: string, nowMs: int)
    requires Consistent(c, s)
    requires id in s.pending && s.pending[id].AwaitKey? && other !in s.pending
    requires secret != "" && secret != s.env
    ensures var s1 := Next(c, s, Rotate(secret)).0;
            var s2 := Next(c, s1, Begin(other, "", nowMs)).0;
            var s3 := Next(c, s2, KeyReady(id)).0;
            Stale(c, s3, s.env) && s3.env == secret
  {
    assert Dots("") == 0;
  }

  lemma StaleResolved(c: Config, s: State, oldSecret: string)
    requires Stale(c, s, oldSecret)
    ensures GetSecret(s) == s
  {
  }

  lemma StaleBegin(c: Config, s: State, oldSecret: string, id: nat, token: string, nowMs: int)
    requires Stale(c, s, oldSecret) && id !in s.pending
    ensures Stale(c, BeginNext(c, s, id, token, nowMs).0, oldSecret)
  {
    hide CacheGet, GetSecret, Faithful, Live, ThreeParts;
    StaleResolved(c, s, oldSecret);
    CacheGetKeeps(s.cache, token, nowMs);
  }

  lemma StaleBeginAnswers(c: Config, s: State, oldSecret: string, id: nat, token: string, nowMs: int)
    requires Stale(c, s, oldSecret) && id !in s.pending
    ensures var a := BeginNext(c, s, id, token, nowMs).1;
            a.Some? ==> a.value.result == Uncached(c.check, oldSecret, a.value.token, a.value.nowMs)
  {
    hide CacheGet, GetSecret, Faithful, Live, ThreeParts, Uncached;
    StaleResolved(c, s, oldSecret);
    if Live(s.cache, token, nowMs) { LiveAnswers(c, oldSecret, s.cache, token, nowMs); }
    if !ThreeParts(token) { PartsRefused(c.check, oldSecret, token, nowMs); }
  }

  lemma StaleFinish(c: Config, s: State, oldSecret: string, id: nat)
    requires Stale(c, s, oldSecret) && id in s.pending && s.pending[id].AwaitVerify?
    ensures var (t, a) := FinishNext(c, s, id);
            && Stale(c, t, oldSecret)
            && (a.Some? ==> a.value.result == Uncached(c.check, oldSecret, a.value.token, a.value.nowMs))
  {
    var p := s.pending[id];
    var r := c.check(p.key, p.token);
    if r.Some? {
      hide CacheSet;
      CacheSetKeeps(s.cache, c.max, p.token, r.value);
    }
  }

  ghost predicate NoRotation(steps: seq<Step>) {
    forall i | 0 <= i < |steps| :: !steps[i].Rotate?
  }

  /** Every answer of the run is the uncached one under a given secret. */
  ghost predicate AnswersUnder(c: Config, secret: string, s: State, steps: seq<Step>)
    requires Possible(c, s, steps)
    decreases |steps|
  {
    steps != [] ==>
      var (t, a) := Next(c, s, steps[0]);
      && (a.Some? ==> a.value.result == Uncached(c.check, secret, a.value.token, a.value.nowMs))
      && AnswersUnder(c, secret, t, steps[1..])
  }

  /** From then on, until the secret changes again, every answer is that of the secret given up. */
  lemma {:induction false} StaleRunsAnswerOld(c: Config, s: State, oldSecret: string, steps: seq<Step>)
    requires Stale(c, s, oldSecret) && Possible(c, s, steps) && NoRotation(steps)
    ensures AnswersUnder(c, oldSecret, s, steps)
    decreases |steps|
  {
    hide BeginNext, FinishNext, Uncached;
    if steps != [] {
      match steps[0] {
        case Begin(id, token, nowMs) =>
          StaleBegin(c, s, oldSecret, id, token, nowMs);
          StaleBeginAnswers(c, s, oldSecret, id, token, nowMs);
        case KeyReady(_) =>
        case Finish(id) => StaleFinish(c, s, oldSecret, id);
      }
      StaleRunsAnswerOld(c, Next(c, s, steps[0]).0, oldSecret, steps[1..]);
    }
  }

  // ---------------------------------------------------------------------------
  // Exactly when a change of the secret is harmless
  // ---------------------------------------------------------------------------

  /** What holds at every point of every run, however the secret changes. */
  ghost predicate Sound(s: State) {
    && s.cache.Valid() && (s.cachedKey == Some("") ==> s.cachedSecret == Some(""))
    && (forall t | t in s.cache.at :: s.cache.at[t].expiresAtMs == s.cache.at[t].payload.exp * 1000.0)
    && (forall id | id in s.pending :: KeyOf(s.pending[id]) != "" && ThreeParts(s.pending[id].token))
  }

  /** Two secrets give a token the same verdict at a time. */
  ghost predicate Agree(c: Config, a: string, b: string, token: string, nowMs: int) {
    Uncached(c.check, a, token, nowMs) == Uncached(c.check, b, token, nowMs)
  }

  ghost predicate AlwaysAgree(c: Config, a: string, b: string) {
    forall token, nowMs :: Agree(c, a, b, token, nowMs)
  }

  /**
    The verification's key gives its own token the secret's verdict and, if it is still being imported
    and there is a secret to sit beside, every token.
   */
  ghost predicate PendingAgrees(c: Config, p: Pending, secret: string) {
    && Agree(c, KeyOf(p), secret, p.token, p.nowMs)
    && (p.AwaitKey? && secret != "" ==> AlwaysAgree(c, KeyOf(p), secret))
  }

  /** What was cached for the secret is right for it. */
  ghost predicate CachedAgrees(c: Config, s: State) {
    s.cachedSecret == Some(s.env) && s.env != "" ==>
      && (forall t | t in s.cache.at :: Faithful(c, s.env, t, s.cache.at[t]))
      && (s.cachedKey.Some? ==> AlwaysAgree(c, s.cachedKey.value, s.env))
  }

  ghost predicate Harmless(c: Config, s: State) {
    CachedAgrees(c, s) && forall id | id in s.pending :: PendingAgrees(c, s.pending[id], s.env)
  }

  /** As long as the secret does not change again, every answer is the uncached one. */
  ghost predicate Safe(c: Config, s: State) {
    forall steps | Possible(c, s, steps) && NoRotation(steps) :: AnswersUncached(c, s, steps)
  }

  lemma ConsistentHarmless(c: Config, s: State)
    requires Consistent(c, s)
    ensures Sound(s) && Harmless(c, s)
  {
    hide Uncached, ThreeParts;
  }

  lemma BeginKeepsSound(c: Config, s0: State, id: nat, token: string, nowMs: int)
    requires Sound(s0) && id !in s0.pending
    ensures Sound(BeginNext(c, s0, id, token, nowMs).0)
  {
    hide CacheGet, ThreeParts, Live, GetSecret;
    SecretSound(s0);
    CacheGetKeeps(GetSecret(s0).cache, token, nowMs);
  }

  lemma SecretSound(s: State)
    requires Sound(s)
    ensures var t := GetSecret(s);
            Sound(t) && t.pending == s.pending && t.env == s.env && t.cachedSecret == Some(s.env)
  {
  }

  lemma FinishKeepsSound(c: Config, s: State, id: nat)
    requires Sound(s) && id in s.pending && s.pending[id].AwaitVerify?
    ensures Sound(FinishNext(c, s, id).0)
  {
    hide CacheSet, ThreeParts;
    var p := s.pending[id];
    var r := c.check(p.key, p.token);
    if r.Some? { CacheSetKeeps(s.cache, c.max, p.token, r.value); }
  }

  lemma StepKeepsSound(c: Config, s: State, step: Step)
    requires Sound(s) && Enabled(s, step)
    ensures Sound(Next(c, s, step).0)
  {
    hide BeginNext, FinishNext, ThreeParts;
    match step
    case Rotate(_) =>
    case Begin(id, token, nowMs) => BeginKeepsSound(c, s, id, token, nowMs);
    case KeyReady(_) =>
    case Finish(id) => FinishKeepsSound(c, s, id);
  }

  lemma ResolvedHarmless(c: Config, s: State)
    requires Sound(s) && Harmless(c, s)
    ensures var t := GetSecret(s);
            && Sound(t) && Harmless(c, t) && t.cachedSecret == Some(s.env) && t.env == s.env && t.pending == s.pending
  {
    hide PendingAgrees, AlwaysAgree, Faithful, ThreeParts;
  }

  lemma AgreeWithSelf(c: Config, secret: string, token: string, nowMs: int)
    ensures PendingAgrees(c, AwaitKey(token, nowMs, secret), secret)
  {
  }

  lemma HarmlessBegin(c: Config, s0: State, id: nat, token: string, nowMs: int)
    requires Sound(s0) && Harmless(c, s0) && id !in s0.pending
    ensures Harmless(c, BeginNext(c, s0, id, token, nowMs).0)
  {
    hide CacheGet, GetSecret, Live, Faithful, ThreeParts, Agree;
    ResolvedHarmless(c, s0);
    var s := GetSecret(s0);
    CacheGetKeeps(s.cache, token, nowMs);
    AgreeWithSelf(c, s.env, token, nowMs);
  }

  lemma HarmlessBeginAnswers(c: Config, s0: State, id: nat, token: string, nowMs: int)
    requires Sound(s0) && Harmless(c, s0) && id !in s0.pending
    ensures var a := BeginNext(c, s0, id, token, nowMs).1;
            a.Some? ==> a.value.result == Uncached(c.check, s0.env, a.value.token, a.value.nowMs)
  {
    hide CacheGet, GetSecret, Live, Faithful, ThreeParts, Uncached, Agree;
    ResolvedHarmless(c, s0);
    var s := GetSecret(s0);
    if s.env != "" && Live(s.cache, token, nowMs) { LiveAnswers(c, s.env, s.cache, token, nowMs); }
    if s.env == "" || !ThreeParts(token) { PartsRefused(c.check, s.env, token, nowMs); }
  }

  /** The end of a check answers by the verification's own key. */
  lemma FinishAnswersByKey(c: Config, s: State, id: nat)
    requires Sound(s) && id in s.pending && s.pending[id].AwaitVerify?
    ensures var p := s.pending[id];
            FinishNext(c, s, id).1 == Some(Answer(p.token, p.nowMs, Uncached(c.check, p.key, p.token, p.nowMs)))
  {
    hide ThreeParts;
  }

  lemma HarmlessFinish(c: Config, s: State, id: nat)
    requires Sound(s) && Harmless(c, s) && id in s.pending && s.pending[id].AwaitVerify?
    ensures Harmless(c, FinishNext(c, s, id).0)
  {
    hide ThreeParts, AlwaysAgree, CacheSet;
    var p := s.pending[id];
    var r := c.check(p.key, p.token);
    assert PendingAgrees(c, p, s.env);
    if r.Some? { CacheSetKeeps(s.cache, c.max, p.token, r.value); }
  }

  lemma HarmlessStep(c: Config, s: State, step: Step)
    requires Sound(s) && Harmless(c, s) && Enabled(s, step) && !step.Rotate?
    ensures Harmless(c, Next(c, s, step).0)
    ensures var a := Next(c, s, step).1;
            a.Some? ==> a.value.result == Uncached(c.check, s.env, a.value.token, a.value.nowMs)
  {
    hide BeginNext, FinishNext, Uncached, Faithful;
    match step
    case Begin(id, token, nowMs) =>
      HarmlessBegin(c, s, id, token, nowMs);
      HarmlessBeginAnswers(c, s, id, token, nowMs);
    case KeyReady(id) =>
      assert PendingAgrees(c, s.pending[id], s.env);
    case Finish(id) =>
      assert PendingAgrees(c, s.pending[id], s.env);
      HarmlessFinish(c, s, id);
      FinishAnswersByKey(c, s, id);
  }

  lemma {:induction false} HarmlessAnswersUncached(c: Config, s: State, steps: seq<Step>)
    requires Sound(s) && Harmless(c, s) && Possible(c, s, steps) && NoRotation(steps)
    ensures AnswersUncached(c, s, steps)
    decreases |steps|
  {
    hide Next, Sound, Harmless, Enabled, Uncached;
    if steps != [] {
      StepKeepsSound(c, s, steps[0]);
      HarmlessStep(c, s, steps[0]);
      HarmlessAnswersUncached(c, Next(c, s, steps[0]).0, steps[1..]);
    }
  }

  lemma SafeStep(c: Config, s: State, step: Step)
    requires Safe(c, s) && Enabled(s, step) && !step.Rotate?
    ensures Safe(c, Next(c, s, step).0)
    ensures var a := Next(c, s, step).1;
            a.Some? ==> a.value.result == Uncached(c.check, s.env, a.value.token, a.value.nowMs)
  {
    hide Next, Enabled, Uncached;
    var t := Next(c, s, step).0;
    forall steps | Possible(c, t, steps) && NoRotation(steps) ensures AnswersUncached(c, t, steps) {
      assert ([step] + steps)[1..] == steps;
      assert AnswersUncached(c, s, [step] + steps);
    }
    assert [step][1..] == [];
    assert Possible(c, t, []) && Possible(c, s, [step]) && NoRotation([step]);
    assert AnswersUncached(c, s, [step]);
  }

  lemma SafeCached(c: Config, s: State, t: string)
    requires Sound(s) && Safe(c, s) && s.cachedSecret == Some(s.env) && s.env != "" && t in s.cache.at
    ensures Faithful(c, s.env, t, s.cache.at[t])
  {
    hide Safe, CacheGet, ThreeParts;
    var id := Unused(s.pending.Keys);
    var nowMs := s.cache.at[t].expiresAtMs.Floor - 1;
    SafeStep(c, s, Begin(id, t, nowMs));
  }

  /** A request for a token that has no live entry leaves it without any. */
  lemma BeginMisses(c: Config, s: State, id: nat, token: string, nowMs: int)
    requires Sound(s) && s.cachedSecret == Some(s.env) && s.env != "" && s.cachedKey.Some? && id !in s.pending
    requires ThreeParts(token) && !Live(s.cache, token, nowMs)
    ensures var t := BeginNext(c, s, id, token, nowMs).0;
            && t == s.(cache := t.cache, pending := s.pending[id := AwaitVerify(token, nowMs, s.cachedKey.value)])
            && token !in t.cache.at
  {
    hide CacheGet, Live, ThreeParts;
    CacheGetKeeps(s.cache, token, nowMs);
  }

  /** Of a cached key every verdict can be brought to light: the token's entry, if any, is let expire first. */
  lemma SafeKey(c: Config, s: State, token: string, nowMs: int)
    requires Sound(s) && Safe(c, s) && s.cachedSecret == Some(s.env) && s.env != "" && s.cachedKey.Some?
    ensures Agree(c, s.cachedKey.value, s.env, token, nowMs)
  {
    hide Safe, BeginNext, FinishNext, CacheGet, ThreeParts, Sound;
    if !ThreeParts(token) {
      PartsRefused(c.check, s.cachedKey.value, token, nowMs);
      PartsRefused(c.check, s.env, token, nowMs);
    } else {
      var late := if token in s.cache.at then s.cache.at[token].expiresAtMs.Floor + 1 else 0;
      var first := Unused(s.pending.Keys);
      BeginMisses(c, s, first, token, late);
      SafeStep(c, s, Begin(first, token, late));
      StepKeepsSound(c, s, Begin(first, token, late));
      var t := BeginNext(c, s, first, token, late).0;
      var id := Unused(t.pending.Keys);
      BeginMisses(c, t, id, token, nowMs);
      SafeStep(c, t, Begin(id, token, nowMs));
      StepKeepsSound(c, t, Begin(id, token, nowMs));
      var u := BeginNext(c, t, id, token, nowMs).0;
      SafeStep(c, u, Finish(id));
      FinishAnswersByKey(c, u, id);
    }
  }

  lemma SafeVerdict(c: Config, s: State, id: nat)
    requires Sound(s) && Safe(c, s) && id in s.pending
    ensures var p := s.pending[id];
            Agree(c, KeyOf(p), s.env, p.token, p.nowMs)
  {
    hide Safe, FinishNext, Uncached, Sound;
    var t := s;
    if s.pending[id].AwaitKey? {
      SafeStep(c, s, KeyReady(id));
      StepKeepsSound(c, s, KeyReady(id));
      t := Next(c, s, KeyReady(id)).0;
    }
    SafeStep(c, t, Finish(id));
    FinishAnswersByKey(c, t, id);
  }

  /** Resolving the secret by a request that leaves nothing pending. */
  lemma BeginResolves(c: Config, s: State, id: nat)
    requires id !in s.pending
    ensures var t := BeginNext(c, s, id, "", 0).0;
            t.cachedSecret == Some(s.env) && t.env == s.env && t.pending == s.pending
  {
    hide CacheGet, Live;
    assert Dots("") == 0;
  }

  lemma SafeImport(c: Config, s: State, id: nat, token: string, nowMs: int)
    requires Sound(s) && Safe(c, s) && id in s.pending && s.pending[id].AwaitKey? && s.env != ""
    ensures Agree(c, KeyOf(s.pending[id]), s.env, token, nowMs)
  {
    hide Safe, BeginNext, Agree, Sound;
    var other := Unused(s.pending.Keys);
    BeginResolves(c, s, other);
    SafeStep(c, s, Begin(other, "", 0));
    StepKeepsSound(c, s, Begin(other, "", 0));
    var t := BeginNext(c, s, other, "", 0).0;
    SafeStep(c, t, KeyReady(id));
    StepKeepsSound(c, t, KeyReady(id));
    SafeKey(c, Next(c, t, KeyReady(id)).0, token, nowMs);
  }

  lemma SafeIsHarmless(c: Config, s: State)
    requires Sound(s) && Safe(c, s)
    ensures Harmless(c, s)
  {
    hide Safe, Agree, Faithful, Sound;
    forall id | id in s.pending ensures PendingAgrees(c, s.pending[id], s.env) {
      SafeVerdict(c, s, id);
      if s.pending[id].AwaitKey? && s.env != "" {
        forall token, nowMs ensures Agree(c, KeyOf(s.pending[id]), s.env, token, nowMs) {
          SafeImport(c, s, id, token, nowMs);
        }
      }
    }
    if s.cachedSecret == Some(s.env) && s.env != "" {
      forall t | t in s.cache.at ensures Faithful(c, s.env, t, s.cache.at[t]) { SafeCached(c, s, t); }
      if s.cachedKey.Some? {
        forall token, nowMs ensures Agree(c, s.cachedKey.value, s.env, token, nowMs) { SafeKey(c, s, token, nowMs); }
      }
    }
  }

  /**
    From any state, every answer until the next change of the secret is the uncached one if and only if
    whatever is cached for the secret is right for it, and every pending key agrees with it as far as
    it can still be used.
   */
  lemma SafeIff(c: Config, s: State)
    requires Sound(s)
    ensures Safe(c, s) <==> Harmless(c, s)
  {
    hide Sound, Harmless;
    if Safe(c, s) { SafeIsHarmless(c, s); }
    if Harmless(c, s) {
      forall steps | Possible(c, s, steps) && NoRotation(steps) ensures AnswersUncached(c, s, steps) {
        HarmlessAnswersUncached(c, s, steps);
      }
    }
  }

  /**
    A change of the secret is harmless if and only if the old and the new secret agree on the token of
    every pending verification and, while a key import is awaited, on every token.
   */
  lemma RotateSafeIff(c: Config, s: State, secret: string)
    requires Consistent(c, s)
    ensures Safe(c, Next(c, s, Rotate(secret)).0)
       <==> forall id | id in s.pending ::
              var p := s.pending[id];
              && Uncached(c.check, s.env, p.token, p.nowMs) == Uncached(c.check, secret, p.token, p.nowMs)
              && (p.AwaitKey? && secret != "" ==>
                    forall token, nowMs :: Uncached(c.check, s.env, token, nowMs) == Uncached(c.check, secret, token, nowMs))
  {
    hide Safe, Uncached, ThreeParts;
    var t := Next(c, s, Rotate(secret)).0;
    SafeIff(c, t);
    if s.cachedSecret == Some(secret) {
      assert CachedAgrees(c, t);
    }
    assert Harmless(c, t) <==> forall id | id in s.pending :: PendingAgrees(c, s.pending[id], secret);
    forall id | id in s.pending
      ensures PendingAgrees(c, s.pending[id], secret) <==>
              var p := s.pending[id];
              && Uncached(c.check, s.env, p.token, p.nowMs) == Uncached(c.check, secret, p.token, p.nowMs)
              && (p.AwaitKey? && secret != "" ==>
                    forall token, nowMs :: Uncached(c.check, s.env, token, nowMs) == Uncached(c.check, secret, token, nowMs))
    {
      AlwaysAgreeMeans(c, s.env, secret);
    }
  }

  lemma AlwaysAgreeMeans(c: Config, a: string, b: string)
    ensures AlwaysAgree(c, a, b) <==> forall token, nowMs :: Uncached(c.check, a, token, nowMs) == Uncached(c.check, b, token, nowMs)
  {
    hide Uncached;
    if AlwaysAgree(c, a, b) {
      forall token, nowMs ensures Uncached(c.check, a, token, nowMs) == Uncached(c.check, b, token, nowMs) {
        assert Agree(c, a, b, token, nowMs);
      }
    }
  }

  ghost predicate SafeThroughout(c: Config, s: State, steps: seq<Step>)
    requires Possible(c, s, steps)
    decreases |steps|
  {
    Safe(c, s) && (steps != [] ==> SafeThroughout(c, Next(c, s, steps[0]).0, steps[1..]))
  }

  /** Every change of the secret in the run is harmless. */
  ghost predicate RotatesHarmlessly(c: Config, s: State, steps: seq<Step>)
    requires Possible(c, s, steps)
    decreases |steps|
  {
    steps != [] ==>
      var t := Next(c, s, steps[0]).0;
      (steps[0].Rotate? ==> Harmless(c, t)) && RotatesHarmlessly(c, t, steps[1..])
  }

  /**
    A run is safe at every point, and so answers uncached, if and only if it starts from a harmless
    state and every change of the secret in it is harmless at its moment.
   */
  lemma {:induction false} RunSafeIff(c: Config, s: State, steps: seq<Step>)
    requires Sound(s) && Possible(c, s, steps)
    ensures SafeThroughout(c, s, steps) <==> Harmless(c, s) && RotatesHarmlessly(c, s, steps)
    ensures SafeThroughout(c, s, steps) ==> AnswersUncached(c, s, steps)
    decreases |steps|
  {
    hide Safe, Sound, Harmless, Enabled, Uncached, BeginNext, FinishNext;
    SafeIff(c, s);
    if steps != [] {
      StepKeepsSound(c, s, steps[0]);
      RunSafeIff(c, Next(c, s, steps[0]).0, steps[1..]);
      if Harmless(c, s) && !steps[0].Rotate? { HarmlessStep(c, s, steps[0]); }
    }
  }

  // ---------------------------------------------------------------------------
  // Capacity
  // ---------------------------------------------------------------------------

  ghost function After(c: Config, s: State, steps: seq<Step>): State
    requires Possible(c, s, steps)
    decreases |steps|
  {
    if steps == [] then s else After(c, Next(c, s, steps[0]).0, steps[1..])
  }

  lemma CacheSetFits(cache: Cache, max: int, token: string, p: Payload)
    requires cache.Valid()
    ensures |CacheSet(cache, max, token, p).order| <= Kept(max)
  {
    hide Evict;
    var n := EvictDropsOldest(cache, max);
  }

  lemma StepKeepsValid(c: Config, s: State, step: Step)
    requires s.cache.Valid() && Enabled(s, step)
    ensures Next(c, s, step).0.cache.Valid()
  {
    hide CacheSet, CacheGet;
    match step
    case Rotate(_) =>
    case Begin(_, token, nowMs) => CacheGetKeeps(GetSecret(s).cache, token, nowMs);
    case KeyReady(_) =>
    case Finish(id) =>
      var p := s.pending[id];
      var r := c.check(p.key, p.token);
      if r.Some? { CacheSetKeeps(s.cache, c.max, p.token, r.value); }
  }

  lemma StepKeepsCapacity(c: Config, s: State, step: Step)
    requires s.cache.Valid() && Enabled(s, step) && |s.cache.order| <= Kept(c.max)
    ensures |Next(c, s, step).0.cache.order| <= Kept(c.max)
  {
    hide CacheSet, CacheGet;
    match step
    case Rotate(_) =>
    case Begin(_, token, nowMs) => CacheGetOrder(GetSecret(s).cache, token, nowMs);
    case KeyReady(_) =>
    case Finish(id) =>
      var p := s.pending[id];
      var r := c.check(p.key, p.token);
      if r.Some? { CacheSetFits(s.cache, c.max, p.token, r.value); }
  }

  /** No run, whatever it interleaves, makes the cache exceed its capacity. */
  lemma {:induction false} RunsKeepCapacity(c: Config, s: State, steps: seq<Step>)
    requires s.cache.Valid() && Possible(c, s, steps) && |s.cache.order| <= Kept(c.max)
    ensures |After(c, s, steps).cache.order| <= Kept(c.max)
    decreases |steps|
  {
    hide Next, Enabled;
    if steps != [] {
      StepKeepsValid(c, s, steps[0]);
      StepKeepsCapacity(c, s, steps[0]);
      RunsKeepCapacity(c, Next(c, s, steps[0]).0, steps[1..]);
    }
  }

  // ---------------------------------------------------------------------------
  // Which tokens are accepted
  // ---------------------------------------------------------------------------

  /** The text is two dots around and between three parts without any. */
  ghost predicate Parted(token: string, header: string, payload: string, signature: string) {
    && token == header + "." + payload + "." + signature
    && '.' !in header && '.' !in payload && '.' !in signature
  }

  lemma {:induction false} DotsAppend(a: string, b: string)
    ensures Dots(a + b) == Dots(a) + Dots(b)
  {
    if a == [] {
      assert a + b == b;
    } else {
      assert (a + b)[1..] == a[1..] + b;
      DotsAppend(a[1..], b);
    }
  }

  lemma {:induction false} NoDots(s: string)
    ensures Dots(s) == 0 <==> '.' !in s
  {
    if s != [] {
      NoDots(s[1..]);
      assert s == [s[0]] + s[1..];
    }
  }

  lemma {:induction false} FirstDot(s: string) returns (part: string, rest: string)
    requires Dots(s) > 0
    ensures s == part + "." + rest && '.' !in part && Dots(rest) == Dots(s) - 1
  {
    if s[0] == '.' {
      part, rest := "", s[1..];
    } else {
      part, rest := FirstDot(s[1..]);
      part := [s[0]] + part;
      assert s == [s[0]] + s[1..];
    }
  }

  lemma ThreePartsIff(token: string)
    ensures ThreeParts(token) <==> exists header, payload, signature :: Parted(token, header, payload, signature)
  {
    if ThreeParts(token) {
      var header, rest := FirstDot(token);
      var payload, signature := FirstDot(rest);
      NoDots(signature);
      assert token == header + "." + payload + "." + signature;
      assert Parted(token, header, payload, signature);
    }
    forall header, payload, signature | Parted(token, header, payload, signature) ensures ThreeParts(token) {
      PartedHasTwoDots(token, header, payload, signature);
    }
  }

  lemma PartedHasTwoDots(token: string, header: string, payload: string, signature: string)
    requires Parted(token, header, payload, signature)
    ensures Dots(token) == 2
  {
    hide Dots;
    NoDots(header);
    NoDots(payload);
    NoDots(signature);
    OneDot();
    DotsAppend(header + "." + payload + ".", signature);
    DotsAppend(header + "." + payload, ".");
    DotsAppend(header + ".", payload);
    DotsAppend(header, ".");
  }

  lemma OneDot()
    ensures Dots(".") == 1
  {
    assert "."[1..] == "";
  }

  /**
    Verification accepts a payload if and only if there is a secret, the token has three parts, its check
    yields that payload, and it is not expired.
   */
  lemma UncachedIff(check: Check, secret: string, token: string, nowMs: int, p: Payload)
    ensures Uncached(check, secret, token, nowMs) == Some(p)
       <==> && secret != "" && (exists header, payload, signature :: Parted(token, header, payload, signature))
            && check(secret, token) == Some(p) && p.exp * 1000.0 > nowMs as real
  {
    hide ThreeParts, Parted;
    ThreePartsIff(token);
  }

  /** Without a secret, or for a token of another shape, the answer is a refusal at once. */
  lemma RefusedAtOnce(c: Config, env: string, id: nat, token: string, nowMs: int)
    requires env == "" || !exists header, payload, signature :: Parted(token, header, payload, signature)
    ensures Next(c, Start(env), Begin(id, token, nowMs)).1 == Some(Answer(token, nowMs, None))
  {
    hide ThreeParts, Parted;
    ThreePartsIff(token);
  }

  /**
    A first verification of a token of three parts awaits the key and the check, and then answers the
    payload if the check under the secret yields one that is not expired. Until it expires, a later
    request for the token is answered by it at once, and after that the token is checked again.
   */
  lemma FirstVerification(
    c: Config, env: string, id: nat, token: string, nowMs: int, header: string, payload: string, signature: string)
    requires env != "" && Parted(token, header, payload, signature)
    ensures var r := c.check(env, token);
            var valid := r.Some? && r.value.exp * 1000.0 > nowMs as real;
            var (s1, first) := Next(c, Start(env), Begin(id, token, nowMs));
            && first.None? && Enabled(s1, KeyReady(id))
            && var s2 := Next(c, s1, KeyReady(id)).0;
            && Enabled(s2, Finish(id))
            && var (s3, answer) := Next(c, s2, Finish(id));
            && answer == Some(Answer(token, nowMs, if valid then r else None))
            && s3.pending == map[]
            && (valid ==> forall later: int, other: nat ::
                  var (t, again) := Next(c, s3, Begin(other, token, later));
                  if later as real < r.value.exp * 1000.0 then again == Some(Answer(token, later, r))
                  else again.None? && t.pending == map[other := AwaitVerify(token, later, env)])
  {
    hide Parted, CacheSet, CacheGet, ThreeParts;
    ThreePartsIff(token);
    FirstBegin(c, env, id, token, nowMs);
    var s1 := Next(c, Start(env), Begin(id, token, nowMs)).0;
    var s2 := Next(c, s1, KeyReady(id)).0;
    var s3 := Next(c, s2, Finish(id)).0;
    var r := c.check(env, token);
    if r.Some? && r.value.exp * 1000.0 > nowMs as real {
      CacheSetKeeps(NO_ENTRIES, c.max, token, r.value);
      SameLater(c, s3, env, token, r.value);
    }
  }

  lemma FirstBegin(c: Config, env: string, id: nat, token: string, nowMs: int)
    requires env != "" && ThreeParts(token)
    ensures Next(c, Start(env), Begin(id, token, nowMs))
         == (State(env, Some(env), None, NO_ENTRIES, map[id := AwaitKey(token, nowMs, env)], []), None)
  {
    hide ThreeParts;
  }

  lemma SameLater(c: Config, s: State, env: string, token: string, p: Payload)
    requires env != "" && s.env == env && s.cachedSecret == Some(env) && s.cachedKey == Some(env) && s.pending == map[]
    requires token in s.cache.at && s.cache.at[token] == Entry(p, p.exp * 1000.0) && ThreeParts(token)
    ensures forall later: int, other: nat ::
              var (t, a) := Next(c, s, Begin(other, token, later));
              if later as real < p.exp * 1000.0 then a == Some(Answer(token, later, Some(p)))
              else a.None? && t.pending == map[other := AwaitVerify(token, later, env)]
  {
    hide ThreeParts, CacheGet;
  }

  // ---------------------------------------------------------------------------
  // Least recently used
  // ---------------------------------------------------------------------------

  /** The position of the last use of a token, or -1. */
  function LastUse(uses: seq<string>, token: string): (i: int)
    ensures -1 <= i < |uses|
    ensures i >= 0 ==> uses[i] == token
  {
    if uses == [] then -1
    else if uses[|uses| - 1] == token then |uses| - 1
    else LastUse(uses[..|uses| - 1], token)
  }

  lemma LastUseAppend(uses: seq<string>, token: string, t: string)
    ensures LastUse(uses + [token], t) == if t == token then |uses| else LastUse(uses, t)
  {
    assert (uses + [token])[..|uses|] == uses;
  }

  /** The cache's keys, oldest first, are in order of their last use. */
  ghost predicate LastUseOrder(order: seq<string>, uses: seq<string>) {
    forall i | 0 <= i < |order| ::
      LastUse(uses, order[i]) >= 0 && forall j | i < j < |order| :: LastUse(uses, order[i]) < LastUse(uses, order[j])
  }

  lemma WithoutOrder(order: seq<string>, token: string, uses: seq<string>)
    requires LastUseOrder(order, uses)
    ensures LastUseOrder(Without(order, token), uses)
  {
    hide LastUse, Without;
    var i := WithoutSplits(order, token);
    var rest := Without(order, token);
    if i < |order| {
      assert forall j | 0 <= j < |rest| :: rest[j] == order[if j < i then j else j + 1];
    }
  }

  /** A token used now and put last keeps the order. */
  lemma UseNow(order: seq<string>, token: string, uses: seq<string>)
    requires LastUseOrder(order, uses) && token !in order
    ensures LastUseOrder(order + [token], uses + [token])
  {
    forall i | 0 <= i < |order| ensures LastUse(uses + [token], order[i]) == LastUse(uses, order[i]) {
      assert order[i] in order;
      LastUseAppend(uses, token, order[i]);
    }
    LastUseAppend(uses, token, token);
  }

  /** No token is under verification twice, and none that is under verification is cached. */
  ghost predicate OnePerToken(s: State) {
    forall i | i in s.pending ::
      s.pending[i].token !in s.cache.at && forall j | j in s.pending && s.pending[i].token == s.pending[j].token :: i == j
  }

  ghost predicate FreshToken(s: State, step: Step) {
    step.Begin? ==> forall i | i in s.pending :: s.pending[i].token != step.token
  }

  ghost predicate Lru(c: Config, s: State) {
    OnePerToken(s) && LastUseOrder(s.cache.order, s.uses) && |s.cache.order| <= Kept(c.max)
  }

  lemma SuffixOrder(order: seq<string>, n: nat, uses: seq<string>)
    requires LastUseOrder(order, uses) && n <= |order|
    ensures LastUseOrder(order[n..], uses)
  {
  }

  /** Where a look-up leaves the keys: a live hit goes last, an expired one goes. */
  lemma CacheGetOrder(cache: Cache, token: string, nowMs: int)
    requires cache.Valid()
    ensures token !in Without(cache.order, token)
    ensures CacheGet(cache, token, nowMs).order
         == Without(cache.order, token) + if Live(cache, token, nowMs) then [token] else []
    ensures |CacheGet(cache, token, nowMs).order| <= |cache.order|
  {
    WithoutElements(cache.order, token);
    if token !in cache.at {
      assert token !in cache.order;
      var i := WithoutSplits(cache.order, token);
    }
  }

  lemma SecretLru(c: Config, s: State)
    requires s.cache.Valid() && Lru(c, s)
    ensures GetSecret(s).cache.Valid() && Lru(c, GetSecret(s))
    ensures GetSecret(s).pending == s.pending && GetSecret(s).env == s.env && GetSecret(s).uses == s.uses
  {
    hide LastUse;
  }

  lemma LookupLru(cache: Cache, token: string, nowMs: int, uses: seq<string>)
    requires cache.Valid() && LastUseOrder(cache.order, uses)
    ensures LastUseOrder(CacheGet(cache, token, nowMs).order, if Live(cache, token, nowMs) then uses + [token] else uses)
  {
    hide CacheGet, Live, LastUseOrder, LastUse, Without;
    CacheGetOrder(cache, token, nowMs);
    WithoutOrder(cache.order, token, uses);
    var rest := Without(cache.order, token);
    if Live(cache, token, nowMs) {
      UseNow(rest, token, uses);
    } else {
      assert rest + [] == rest;
    }
  }

  /** What the start of a verification does under the secret resolved. */
  lemma BeginCases(c: Config, s0: State, id: nat, token: string, nowMs: int)
    requires id !in s0.pending
    ensures var s, t := GetSecret(s0), BeginNext(c, s0, id, token, nowMs).0;
            && (s.env == "" ==> t == s)
            && (s.env != "" ==>
                && t.cache == CacheGet(s.cache, token, nowMs)
                && t.uses == (if Live(s.cache, token, nowMs) then s.uses + [token] else s.uses)
                && (t.pending == s.pending ||
                    (!Live(s.cache, token, nowMs) && exists p: Pending :: p.token == token && t.pending == s.pending[id := p])))
  {
    hide CacheGet, Live, GetSecret;
  }

  lemma BeginLru(c: Config, s0: State, id: nat, token: string, nowMs: int)
    requires s0.cache.Valid() && Lru(c, s0) && id !in s0.pending && (forall i | i in s0.pending :: s0.pending[i].token != token)
    ensures Lru(c, BeginNext(c, s0, id, token, nowMs).0)
  {
    hide CacheGet, Live, LastUseOrder, LastUse, GetSecret, BeginNext;
    SecretLru(c, s0);
    BeginCases(c, s0, id, token, nowMs);
    var s := GetSecret(s0);
    CacheGetKeeps(s.cache, token, nowMs);
    CacheGetOrder(s.cache, token, nowMs);
    LookupLru(s.cache, token, nowMs, s.uses);
  }

  lemma SetOrder(cache: Cache, max: int, token: string, p: Payload) returns (n: nat)
    requires cache.Valid() && token !in cache.at
    ensures n <= |cache.order| && CacheSet(cache, max, token, p).order == cache.order[n..] + [token]
    ensures |cache.order| - n < Kept(max) && (n > 0 ==> |cache.order| - n + 1 >= Kept(max))
  {
    hide Evict;
    EvictKeeps(cache, max);
    n := EvictDropsOldest(cache, max);
  }

  lemma SuffixUsed(order: seq<string>, n: nat, token: string, uses: seq<string>)
    requires LastUseOrder(order, uses) && n <= |order| && (forall i | 0 <= i < |order| :: order[i] != token)
    ensures LastUseOrder(order[n..] + [token], uses + [token])
  {
    hide LastUseOrder;
    SuffixOrder(order, n, uses);
    UseNow(order[n..], token, uses);
  }

  /** The entry put last is used later than all, and what was evicted before all that is kept. */
  lemma SetLru(cache: Cache, max: int, token: string, p: Payload, uses: seq<string>)
    requires cache.Valid() && |cache.order| <= Kept(max) && token !in cache.at && LastUseOrder(cache.order, uses)
    ensures var n := CacheSet(cache, max, token, p);
            && n.Valid() && |n.order| <= Kept(max) && LastUseOrder(n.order, uses + [token])
            && (forall t | t in n.at :: t in cache.at || t == token)
    ensures |cache.order| < Kept(max) ==> CacheSet(cache, max, token, p).order == cache.order + [token]
    ensures |cache.order| == Kept(max) ==> CacheSet(cache, max, token, p).order == cache.order[1..] + [token]
  {
    hide LastUseOrder, LastUse, CacheSet;
    CacheSetKeeps(cache, max, token, p);
    var n := SetOrder(cache, max, token, p);
    assert cache.order[0..] == cache.order;
    SuffixUsed(cache.order, n, token, uses);
  }

  lemma FinishLru(c: Config, s: State, id: nat)
    requires s.cache.Valid() && Lru(c, s) && id in s.pending && s.pending[id].AwaitVerify?
    ensures Lru(c, FinishNext(c, s, id).0)
  {
    hide LastUseOrder, LastUse, CacheSet;
    var p := s.pending[id];
    var r := c.check(p.key, p.token);
    if r.Some? { SetLru(s.cache, c.max, p.token, r.value, s.uses); }
  }

  /** Of two cached tokens the earlier in the map is the one whose last use is longer ago. */
  lemma StepLru(c: Config, s: State, step: Step)
    requires s.cache.Valid() && Lru(c, s) && Enabled(s, step) && FreshToken(s, step)
    ensures Lru(c, Next(c, s, step).0)
  {
    hide LastUseOrder, LastUse, BeginNext, FinishNext;
    match step
    case Rotate(_) =>
    case Begin(id, token, nowMs) => BeginLru(c, s, id, token, nowMs);
    case KeyReady(id) =>
    case Finish(id) => FinishLru(c, s, id);
  }

  ghost predicate AllFresh(c: Config, s: State, steps: seq<Step>)
    requires Possible(c, s, steps)
    decreases |steps|
  {
    steps != [] ==> FreshToken(s, steps[0]) && AllFresh(c, Next(c, s, steps[0]).0, steps[1..])
  }

  /** Over a whole run the cache stays within its capacity, its keys in order of last use. */
  lemma {:induction false} FreshRunsKeepLru(c: Config, s: State, steps: seq<Step>)
    requires s.cache.Valid() && Lru(c, s) && Possible(c, s, steps) && AllFresh(c, s, steps)
    ensures Lru(c, After(c, s, steps))
    decreases |steps|
  {
    hide Next, Lru, Enabled, FreshToken;
    if steps != [] {
      StepKeepsValid(c, s, steps[0]);
      StepLru(c, s, steps[0]);
      FreshRunsKeepLru(c, Next(c, s, steps[0]).0, steps[1..]);
    }
  }

  lemma StartLru(c: Config, env: string)
    ensures Lru(c, Start(env))
  {
  }

  /** A full cache loses its oldest entry alone. */
  lemma EvictsOldest(cache: Cache, max: int, gone: string)
    requires cache.Valid() && |cache.order| <= Kept(max) && gone in cache.at && gone !in Evict(cache, max).at
    ensures |cache.order| == Kept(max) && cache.order[0] == gone && Evict(cache, max).order == cache.order[1..]
  {
    hide Evict;
    EvictKeeps(cache, max);
    var n := EvictDropsOldest(cache, max);
    var i :| 0 <= i < |cache.order| && cache.order[i] == gone;
    if i >= n { InSuffix(cache.order, n, i); }
  }

  lemma InSuffix<T>(xs: seq<T>, n: int, i: int)
    requires 0 <= n <= i < |xs|
    ensures xs[i] in xs[n..]
  {
    assert xs[n..][i - n] == xs[i];
  }

  lemma OthersStay(cache: Cache, max: int, gone: string, kept: string, uses: seq<string>)
    requires cache.Valid() && |cache.order| <= Kept(max) && LastUseOrder(cache.order, uses)
    requires gone in cache.at && gone !in Evict(cache, max).at && kept in cache.at && kept != gone
    ensures kept in Evict(cache, max).at && LastUse(uses, gone) < LastUse(uses, kept)
  {
    hide Evict, LastUse;
    EvictsOldest(cache, max, gone);
    EvictKeeps(cache, max);
    var i :| 0 <= i < |cache.order| && cache.order[i] == kept;
    assert cache.order[1..][i - 1] == kept;
  }

  lemma SetKeepsEvicted(cache: Cache, max: int, token: string, p: Payload, t: string)
    ensures t in CacheSet(cache, max, token, p).at <==> t in Evict(cache, max).at || t == token
  {
    hide Evict;
  }

  /** An entry that goes for want of room is the least recently used one, and it alone goes. */
  lemma EvictedIsLeastRecentlyUsed(c: Config, s: State, id: nat)
    requires s.cache.Valid() && LastUseOrder(s.cache.order, s.uses) && |s.cache.order| <= Kept(c.max)
    requires id in s.pending && s.pending[id].AwaitVerify?
    ensures var t := FinishNext(c, s, id).0;
            forall gone | gone in s.cache.at && gone !in t.cache.at ::
              && (forall kept | kept in s.cache.at && kept != gone ::
                    kept in t.cache.at && LastUse(s.uses, gone) < LastUse(s.uses, kept))
              && |s.cache.order| == Kept(c.max)
  {
    hide LastUse, CacheSet, Evict, LastUseOrder;
    var p := s.pending[id];
    var r := c.check(p.key, p.token);
    if r.Some? {
      var n := CacheSet(s.cache, c.max, p.token, r.value);
      forall gone | gone in s.cache.at && gone !in n.at ensures gone !in Evict(s.cache, c.max).at && |s.cache.order| == Kept(c.max) {
        SetKeepsEvicted(s.cache, c.max, p.token, r.value, gone);
        EvictsOldest(s.cache, c.max, gone);
      }
      forall gone, kept | gone in s.cache.at && gone !in n.at && kept in s.cache.at && kept != gone
        ensures kept in n.at && LastUse(s.uses, gone) < LastUse(s.uses, kept)
      {
        OthersStay(s.cache, c.max, gone, kept, s.uses);
        SetKeepsEvicted(s.cache, c.max, p.token, r.value, kept);
      }
    }
  }

  // ---------------------------------------------------------------------------
  // Exactly when the order is that of last use
  // ---------------------------------------------------------------------------

  /** A key set again keeps its place, which is right only when it is the last. */
  lemma SetAgainOrder(order: seq<string>, token: string, uses: seq<string>)
    requires LastUseOrder(order, uses) && token in order
    ensures LastUseOrder(order, uses + [token]) <==> order[|order| - 1] == token
  {
    hide LastUse;
    var last := |order| - 1;
    var i :| 0 <= i < |order| && order[i] == token;
    forall j | 0 <= j < |order|
      ensures LastUse(uses + [token], order[j]) == if order[j] == token then |uses| else LastUse(uses, order[j])
    {
      LastUseAppend(uses, token, order[j]);
    }
  }

  lemma PutKeepsOrderIff(kept: Cache, token: string, e: Entry, uses: seq<string>)
    requires kept.Valid() && LastUseOrder(kept.order, uses)
    ensures LastUseOrder(Put(kept, token, e).order, uses + [token])
       <==> token !in kept.order || kept.order[|kept.order| - 1] == token
  {
    hide LastUseOrder, LastUse;
    if token in kept.at {
      SetAgainOrder(kept.order, token, uses);
    } else {
      forall i | 0 <= i < |kept.order| ensures kept.order[i] != token { assert kept.order[i] in kept.at; }
      UseNow(kept.order, token, uses);
    }
  }

  lemma EvictKeepsOrder(cache: Cache, max: int, uses: seq<string>)
    requires cache.Valid() && LastUseOrder(cache.order, uses)
    ensures Evict(cache, max).Valid() && LastUseOrder(Evict(cache, max).order, uses)
  {
    hide LastUseOrder, LastUse, Evict;
    EvictKeeps(cache, max);
    var n := EvictDropsOldest(cache, max);
    SuffixOrder(cache.order, n, uses);
  }

  lemma CacheSetPuts(cache: Cache, max: int, token: string, p: Payload) returns (e: Entry)
    ensures CacheSet(cache, max, token, p) == Put(Evict(cache, max), token, e)
  {
    hide Evict, Put;
    e := Entry(p, p.exp * 1000.0);
  }

  /**
    Storing a verified token keeps the keys in last-use order if and only if the token is not among
    the entries that stay, or is the last of them.
   */
  lemma SetKeepsOrderIff(cache: Cache, max: int, token: string, p: Payload, uses: seq<string>)
    requires cache.Valid() && LastUseOrder(cache.order, uses)
    ensures var kept := Evict(cache, max).order;
            LastUseOrder(CacheSet(cache, max, token, p).order, uses + [token])
            <==> token !in kept || kept[|kept| - 1] == token
  {
    hide LastUseOrder, LastUse, Evict, Put, CacheSet;
    EvictKeepsOrder(cache, max, uses);
    var e := CacheSetPuts(cache, max, token, p);
    PutKeepsOrderIff(Evict(cache, max), token, e, uses);
  }

  /** The step stores no token that stays in the cache at another place than the last. */
  ghost predicate InPlace(c: Config, s: State, step: Step)
    requires Enabled(s, step)
  {
    step.Finish? ==>
      var p, kept := s.pending[step.id], Evict(s.cache, c.max).order;
      var r := c.check(p.key, p.token);
      r.Some? && r.value.exp * 1000.0 > p.nowMs as real ==> p.token !in kept || kept[|kept| - 1] == p.token
  }

  lemma BeginKeepsOrder(c: Config, s0: State, id: nat, token: string, nowMs: int)
    requires s0.cache.Valid() && LastUseOrder(s0.cache.order, s0.uses) && id !in s0.pending
    ensures var t := BeginNext(c, s0, id, token, nowMs).0;
            LastUseOrder(t.cache.order, t.uses)
  {
    hide LastUse, CacheGet, Live, BeginNext;
    var s := GetSecret(s0);
    BeginCases(c, s0, id, token, nowMs);
    LookupLru(s.cache, token, nowMs, s.uses);
  }

  /** A step from a cache in last-use order leaves it so if and only if it is in place. */
  lemma StepKeepsOrderIff(c: Config, s: State, step: Step)
    requires s.cache.Valid() && LastUseOrder(s.cache.order, s.uses) && Enabled(s, step)
    ensures var t := Next(c, s, step).0;
            LastUseOrder(t.cache.order, t.uses) <==> InPlace(c, s, step)
  {
    hide LastUseOrder, LastUse, BeginNext, CacheSet, Evict;
    match step
    case Rotate(_) =>
    case Begin(id, token, nowMs) => BeginKeepsOrder(c, s, id, token, nowMs);
    case KeyReady(id) =>
    case Finish(id) =>
      var p := s.pending[id];
      var r := c.check(p.key, p.token);
      if r.Some? { SetKeepsOrderIff(s.cache, c.max, p.token, r.value, s.uses); }
  }

  ghost predicate AllInPlace(c: Config, s: State, steps: seq<Step>)
    requires Possible(c, s, steps)
    decreases |steps|
  {
    steps != [] ==> InPlace(c, s, steps[0]) && AllInPlace(c, Next(c, s, steps[0]).0, steps[1..])
  }

  /** The keys are in last-use order at every point of the run. */
  ghost predicate OrderThroughout(c: Config, s: State, steps: seq<Step>)
    requires Possible(c, s, steps)
    decreases |steps|
  {
    LastUseOrder(s.cache.order, s.uses) && (steps != [] ==> OrderThroughout(c, Next(c, s, steps[0]).0, steps[1..]))
  }

  /** A run keeps last-use order throughout if and only if all its steps are in place. */
  lemma {:induction false} RunKeepsOrderIff(c: Config, s: State, steps: seq<Step>)
    requires s.cache.Valid() && LastUseOrder(s.cache.order, s.uses) && Possible(c, s, steps)
    ensures OrderThroughout(c, s, steps) <==> AllInPlace(c, s, steps)
    decreases |steps|
  {
    hide Next, LastUseOrder, Enabled, InPlace;
    if steps != [] {
      var t := Next(c, s, steps[0]).0;
      StepKeepsValid(c, s, steps[0]);
      StepKeepsOrderIff(c, s, steps[0]);
      if LastUseOrder(t.cache.order, t.uses) { RunKeepsOrderIff(c, t, steps[1..]); }
    }
  }
}
