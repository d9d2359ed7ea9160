/**
  Retention in the log store: statements that each delete a bounded chunk of the rows a rule dooms,
  repeated until a pass deletes nothing. A table maps row ids to timestamps in milliseconds.
 */
module Retention {
  import opened Basics

  type Table = map<int, int>

  const PRUNE_CHUNK := 4000
  const DAY_MS := 86_400_000

  // ---------------------------------------------------------------------------
  // Windows
  // ---------------------------------------------------------------------------

  function Newer(m: Table, v: int): set<int> {
    set r | r in m && m[r] > v
  }

  /** The rows outside the newest `n`: those with at least `n` rows strictly newer. */
  function Outside(m: Table, n: int): set<int> {
    set r | r in m && |Newer(m, m[r])| >= n
  }

  /** The log rows are ranked by their ids. */
  function Ids(t: Table): Table {
    map r | r in t :: r
  }

  /** The least value among the `n` greatest, or 0 of an empty table. */
  ghost predicate IsCut(m: Table, n: int, c: int) {
    if m == map[] then c == 0
    else
      && (exists r :: r in m && m[r] == c)
      && |Newer(m, c)| < n
      && |Newer(m, c - 1)| >= (if n < |m| then n else |m|)
  }

  lemma SubsetSize<T(!new)>(a: set<T>, b: set<T>)
    requires forall x | x in a :: x in b
    ensures |a| <= |b|
    ensures a != b ==> |a| < |b|
  {
    assert a <= b;
    assert b == a + (b - a);
    if b - a == {} { assert a == b; }
  }

  lemma SameElements<T(!new)>(a: set<T>, b: set<T>)
    requires forall x :: x in a <==> x in b
    ensures a == b
  {
  }

  /** Deleting below the cut is deleting outside the window, ties on the cut staying in. */
  lemma CutBoundsWindow(m: Table, n: int, c: int)
    requires n > 0 && IsCut(m, n, c)
    ensures (set r | r in m && m[r] < c) == Outside(m, n)
  {
    forall r | r in m ensures m[r] < c <==> |Newer(m, m[r])| >= n {
      if m[r] < c {
        SubsetSize(Newer(m, c - 1), Newer(m, m[r]));
        assert Newer(m, c - 1) <= m.Keys && r in m.Keys && r !in Newer(m, c - 1);
        SubsetSize(Newer(m, c - 1), m.Keys);
      } else {
        SubsetSize(Newer(m, m[r]), Newer(m, c));
      }
    }
  }

  lemma GreatestExists(m: Table, rest: set<int>)
    requires rest != {} && forall r | r in rest :: r in m
    ensures exists r :: r in rest && forall x | x in rest :: m[x] <= m[r]
    decreases |rest|
  {
    var r := Member(rest);
    var others := rest - {r};
    var greatest := r;
    if others != {} {
      GreatestExists(m, others);
      var g :| g in others && forall x | x in others :: m[x] <= m[g];
      if m[r] <= m[g] { greatest := g; }
    }
    assert greatest in rest;
    forall x | x in rest ensures m[x] <= m[greatest] {
      if x != r { assert x in others; }
    }
  }

  /** The greatest rows have been taken, `c` the least value among them. */
  ghost predicate Taken(m: Table, c: int, taken: set<int>, rest: set<int>) {
    && (forall r :: r in m <==> r in taken || r in rest)
    && (forall r | r in taken :: r !in rest)
    && (taken == {} ==> c == 0)
    && (taken != {} ==> (exists r :: r in taken && m[r] == c) && forall r | r in rest :: m[r] <= c)
    && (forall r | r in taken :: m[r] >= c)
  }

  /** `SELECT COALESCE(MIN(v), 0) FROM (SELECT v … ORDER BY v DESC LIMIT n)` */
  method CutOf(m: Table, n: int) returns (c: int)
    requires n > 0
    ensures IsCut(m, n, c)
  {
    c := 0;
    var rest, taken := m.Keys, {};
    while rest != {} && |taken| < n
      invariant Taken(m, c, taken, rest) && |taken| <= n
      decreases rest
    {
      GreatestExists(m, rest);
      var r :| r in rest && forall x | x in rest :: m[x] <= m[r];
      taken, rest := taken + {r}, rest - {r};
      c := m[r];
    }
    CutTaken(m, n, c, taken, rest);
  }

  lemma CutTaken(m: Table, n: int, c: int, taken: set<int>, rest: set<int>)
    requires n > 0 && Taken(m, c, taken, rest) && |taken| <= n && (rest == {} || |taken| == n)
    ensures IsCut(m, n, c)
  {
    if taken == {} {
      forall x ensures x in m.Keys <==> x in rest {}
      SameElements(m.Keys, rest);
    } else {
      var r :| r in taken && m[r] == c;
      forall x | x in Newer(m, c) ensures x in taken - {r} {}
      SubsetSize(Newer(m, c), taken - {r});
      forall x | x in taken ensures x in Newer(m, c - 1) {}
      SubsetSize(taken, Newer(m, c - 1));
      SubsetSize(taken, m.Keys);
      if rest == {} {
        forall x ensures x in m.Keys <==> x in taken {}
        SameElements(m.Keys, taken);
      }
    }
  }

  // ---------------------------------------------------------------------------
  // Deletions
  // ---------------------------------------------------------------------------

  datatype Rule =
    | Expired(cutoff: int)
    | OverIds(n: int)
    | OverTimes(n: int)

  /** The rows a rule condemns in a table as it stands. */
  function Doomed(t: Table, rule: Rule): set<int> {
    match rule
    case Expired(cutoff) => set r | r in t && t[r] < cutoff
    case OverIds(n) => Outside(Ids(t), n)
    case OverTimes(n) => Outside(t, n)
  }

  /** One statement's effect: the rows gone, and the table they were doomed in. */
  datatype Deletion = Deletion(rule: Rule, before: Table, gone: set<int>)

  /** The deletions lead from one table to the other, each taking only rows doomed at that moment. */
  ghost predicate Chain(t0: Table, ds: seq<Deletion>, t1: Table) {
    if ds == [] then t0 == t1
    else
      && ds[0].before == t0 && ds[0].gone <= Doomed(t0, ds[0].rule)
      && Chain(t0 - ds[0].gone, ds[1..], t1)
  }

  lemma {:induction false} ChainJoins(t0: Table, ds: seq<Deletion>, t1: Table, es: seq<Deletion>, t2: Table)
    requires Chain(t0, ds, t1) && Chain(t1, es, t2)
    ensures Chain(t0, ds + es, t2)
  {
    if ds == [] {
      assert ds + es == es;
    } else {
      ChainJoins(t0 - ds[0].gone, ds[1..], t1, es, t2);
      assert (ds + es)[1..] == ds[1..] + es;
    }
  }

  ghost predicate Within(t1: Table, t0: Table) {
    forall r | r in t1 :: r in t0 && t0[r] == t1[r]
  }

  /** A row spared by a rule stays spared while other rows go. */
  lemma SparedStays(t0: Table, t1: Table, rule: Rule, r: int)
    requires Within(t1, t0) && r in t1 && r !in Doomed(t0, rule)
    ensures r !in Doomed(t1, rule)
  {
    match rule
    case Expired(_) =>
    case OverIds(_) => SubsetSize(Newer(Ids(t1), r), Newer(Ids(t0), r));
    case OverTimes(_) =>
      forall x | x in Newer(t1, t1[r]) ensures x in Newer(t0, t0[r]) {}
      SubsetSize(Newer(t1, t1[r]), Newer(t0, t0[r]));
  }

  /** A row that no rule of the run condemned at the outset is never deleted. */
  lemma {:induction false} SparedSurvives(t0: Table, ds: seq<Deletion>, t1: Table, r: int)
    requires Chain(t0, ds, t1) && r in t0 && forall i | 0 <= i < |ds| :: r !in Doomed(t0, ds[i].rule)
    ensures r in t1 && t1[r] == t0[r]
  {
    if ds != [] {
      var t := t0 - ds[0].gone;
      forall i | 0 <= i < |ds[1..]| ensures r !in Doomed(t, ds[1..][i].rule) {
        SparedStays(t0, t, ds[i + 1].rule, r);
      }
      SparedSurvives(t, ds[1..], t1, r);
    }
  }

  /** `DELETE … WHERE rowid IN (SELECT … LIMIT PRUNE_CHUNK)`: which of the doomed rows go is not said. */
  method DeleteChunk(t: Table, doomed: set<int>) returns (rest: Table, gone: set<int>)
    requires doomed <= t.Keys
    ensures gone <= doomed && |gone| == (if |doomed| < 4000 then |doomed| else 4000)
    ensures rest == t - gone && |rest| == |t| - |gone|
  {
    gone := {};
    var left := doomed;
    while left != {} && |gone| < PRUNE_CHUNK
      invariant left + gone == doomed && left !! gone && |gone| <= PRUNE_CHUNK
      invariant |left| + |gone| == |doomed|
      decreases left
    {
      ghost var some := Member(left);
      var r :| r in left;
      left, gone := left - {r}, gone + {r};
    }
    rest := t - gone;
  }

  /** A rule a table's deletions may go by at a time: age, or the table's own cap. */
  ghost predicate Permits(p: Policy, cap: Rule, rule: Rule, now: int) {
    || (p.retentionDays > 0 && rule.Expired? && rule.cutoff <= p.Cutoff(now))
    || (rule == cap && !cap.Expired? && cap.n > 0)
  }

  /** Between two moments a table lost, one statement after the other, only rows then doomed. */
  ghost predicate Went(p: Policy, cap: Rule, t0: Table, ds0: seq<Deletion>, t1: Table, ds1: seq<Deletion>, now: int) {
    && |ds0| <= |ds1| && ds1[..|ds0|] == ds0
    && Chain(t0, ds1[|ds0|..], t1)
    && forall i | |ds0| <= i < |ds1| :: Permits(p, cap, ds1[i].rule, now)
  }

  lemma WentNowhere(p: Policy, cap: Rule, t: Table, ds: seq<Deletion>, now: int)
    ensures Went(p, cap, t, ds, t, ds, now)
  {
  }

  lemma WentOn(p: Policy, cap: Rule, t0: Table, ds0: seq<Deletion>, t1: Table, ds1: seq<Deletion>, at: int,
               t2: Table, ds2: seq<Deletion>, now: int)
    requires Went(p, cap, t0, ds0, t1, ds1, at) && Went(p, cap, t1, ds1, t2, ds2, now) && at <= now
    ensures Went(p, cap, t0, ds0, t2, ds2, now)
  {
    ChainJoins(t0, ds1[|ds0|..], t1, ds2[|ds1|..], t2);
    assert ds2[|ds0|..] == ds1[|ds0|..] + ds2[|ds1|..] by { assert ds1 == ds2[..|ds1|]; }
    forall i | |ds0| <= i < |ds2| ensures Permits(p, cap, ds2[i].rule, now) {
      if i < |ds1| { assert ds2[i] == ds1[i]; }
    }
    assert ds2[..|ds0|] == ds0 by { assert ds2[..|ds1|][..|ds0|] == ds2[..|ds0|]; }
  }

  // ---------------------------------------------------------------------------
  // What a run of deletions leaves
  // ---------------------------------------------------------------------------

  datatype Policy = Policy(retentionDays: int, maxLogRows: int, maxInvocationRows: int) {

    function Cutoff(now: int): int { now - retentionDays * DAY_MS }
  }

  /** Every row missing was expired, or had at least `n` rows newer than itself, when it was deleted. */
  lemma {:induction false} DeletedWasDoomed(p: Policy, cap: Rule, t0: Table, ds0: seq<Deletion>, t1: Table, ds1: seq<Deletion>,
                                           now: int, r: int)
    requires Went(p, cap, t0, ds0, t1, ds1, now) && r in t0 && r !in t1
    ensures exists i | |ds0| <= i < |ds1| ::
              && r in ds1[i].gone && r in ds1[i].before
              && match ds1[i].rule
                 case Expired(cutoff) => ds1[i].before[r] < cutoff <= now - p.retentionDays * 86_400_000
                 case OverIds(n) => |Newer(Ids(ds1[i].before), r)| >= n > 0
                 case OverTimes(n) => |Newer(ds1[i].before, ds1[i].before[r])| >= n > 0
    decreases |ds1| - |ds0|
  {
    if ds1[|ds0|..] != [] {
      var d := ds1[|ds0|];
      assert Permits(p, cap, d.rule, now);
      if r !in d.gone {
        var ds := ds1[..|ds0| + 1];
        assert ds1[|ds0|..][1..] == ds1[|ds0| + 1..];
        DeletedWasDoomed(p, cap, t0 - d.gone, ds, t1, ds1, now, r);
      }
    }
  }

  /** No row that was unexpired and inside its window at the outset is missing. */
  lemma RecentSurvives(p: Policy, cap: Rule, t0: Table, ds0: seq<Deletion>, t1: Table, ds1: seq<Deletion>, now: int, r: int)
    requires Went(p, cap, t0, ds0, t1, ds1, now) && r in t0
    requires p.retentionDays > 0 ==> t0[r] >= now - p.retentionDays * 86_400_000
    requires !cap.Expired? && (cap.n > 0 ==> r !in Doomed(t0, cap))
    ensures r in t1 && t1[r] == t0[r]
  {
    var ds := ds1[|ds0|..];
    forall i | 0 <= i < |ds| ensures r !in Doomed(t0, ds[i].rule) {
      assert ds[i] == ds1[|ds0| + i];
      assert Permits(p, cap, ds[i].rule, now);
    }
    SparedSurvives(t0, ds, t1, r);
  }

  /** No rule has a row left to delete at a time. */
  ghost predicate Clean(p: Policy, logs: Table, invocations: Table, now: int) {
    && (p.retentionDays > 0 ==>
          Doomed(logs, Expired(p.Cutoff(now))) == {} && Doomed(invocations, Expired(p.Cutoff(now))) == {})
    && (p.maxLogRows > 0 ==> Doomed(logs, OverIds(p.maxLogRows)) == {})
    && (p.maxInvocationRows > 0 ==> Doomed(invocations, OverTimes(p.maxInvocationRows)) == {})
  }

  lemma LeastExists(m: Table)
    requires m != map[]
    ensures exists r :: r in m && forall x | x in m :: m[r] <= m[x]
  {
    var minus := map r | r in m :: -m[r];
    GreatestExists(minus, m.Keys);
    var r :| r in m.Keys && forall x | x in m.Keys :: minus[x] <= minus[r];
    forall x | x in m ensures m[r] <= m[x] { assert minus[x] <= minus[r]; }
  }

  /** All rows are at `cut` or newer, and without those at `cut` there are fewer than `n`. */
  ghost predicate ExcessTies(t: Table, n: int, cut: int) {
    (forall r | r in t :: t[r] >= cut) && |t| - |set r | r in t && t[r] == cut| < n
  }

  /**
    What `Clean` says of the tables: nothing expired; no more log rows than the cap; and no more
    invocation rows than the cap but for ties on the oldest timestamp.
   */
  lemma CleanMeans(p: Policy, logs: Table, invocations: Table, now: int)
    requires Clean(p, logs, invocations, now)
    ensures p.retentionDays > 0 ==> forall r | r in logs :: logs[r] >= now - p.retentionDays * 86_400_000
    ensures p.retentionDays > 0 ==> forall r | r in invocations :: invocations[r] >= now - p.retentionDays * 86_400_000
    ensures p.maxLogRows > 0 ==> |logs| <= p.maxLogRows
    ensures p.maxInvocationRows > 0 && invocations != map[] ==>
              exists cut :: ExcessTies(invocations, p.maxInvocationRows, cut)
  {
    if p.retentionDays > 0 {
      forall r | r in logs ensures logs[r] >= p.Cutoff(now) {
        assert r !in Doomed(logs, Expired(p.Cutoff(now)));
      }
      forall r | r in invocations ensures invocations[r] >= p.Cutoff(now) {
        assert r !in Doomed(invocations, Expired(p.Cutoff(now)));
      }
    }
    if p.maxLogRows > 0 && logs != map[] { IdsWithinCap(logs, p.maxLogRows); }
    if p.maxInvocationRows > 0 && invocations != map[] { TimesWithinCap(invocations, p.maxInvocationRows); }
  }

  lemma TimesWithinCap(t: Table, n: int)
    requires t != map[] && n > 0 && Outside(t, n) == {}
    ensures exists cut :: ExcessTies(t, n, cut)
  {
    LeastExists(t);
    var r :| r in t && forall x | x in t :: t[r] <= t[x];
    var ties := set x | x in t && t[x] == t[r];
    assert r !in Outside(t, n);
    forall x | x in t.Keys - ties ensures x in Newer(t, t[r]) { assert t[r] <= t[x]; }
    SubsetSize(t.Keys - ties, Newer(t, t[r]));
    assert t.Keys == (t.Keys - ties) + ties;
    assert ExcessTies(t, n, t[r]);
  }

  lemma IdsWithinCap(t: Table, n: int)
    requires t != map[] && n > 0 && Outside(Ids(t), n) == {}
    ensures |t| <= n
  {
    assert t.Keys == Ids(t).Keys;
    TimesWithinCap(Ids(t), n);
    var cut :| ExcessTies(Ids(t), n, cut);
    SubsetSize(set r | r in Ids(t) && Ids(t)[r] == cut, {cut});
  }

  // ---------------------------------------------------------------------------
  // The loop
  // ---------------------------------------------------------------------------

  class LogStore {
    const p: Policy
    var logs: Table
    var invocations: Table
    ghost var logsDeleted: seq<Deletion>
    ghost var invocationsDeleted: seq<Deletion>

    constructor (p: Policy, logs: Table, invocations: Table)
      ensures this.p == p && this.logs == logs && this.invocations == invocations
      ensures logsDeleted == [] && invocationsDeleted == []
    {
      this.p, this.logs, this.invocations := p, logs, invocations;
      logsDeleted, invocationsDeleted := [], [];
    }

    function LogCap(): Rule { OverIds(p.maxLogRows) }

    function InvocationCap(): Rule { OverTimes(p.maxInvocationRows) }

    method DeleteLogs(rule: Rule, doomed: set<int>, now: int) returns (changes: nat)
      requires doomed == Doomed(logs, rule) && Permits(p, LogCap(), rule, now)
      modifies this`logs, this`logsDeleted
      ensures Went(p, LogCap(), old(logs), old(logsDeleted), logs, logsDeleted, now)
      ensures |logs| == |old(logs)| - changes
      ensures changes == 0 ==> logs == old(logs) && Doomed(logs, rule) == {}
    {
      var rest, gone := DeleteChunk(logs, doomed);
      logsDeleted := logsDeleted + [Deletion(rule, logs, gone)];
      logs := rest;
      changes := |gone|;
    }

    method DeleteInvocations(rule: Rule, doomed: set<int>, now: int) returns (changes: nat)
      requires doomed == Doomed(invocations, rule) && Permits(p, InvocationCap(), rule, now)
      modifies this`invocations, this`invocationsDeleted
      ensures Went(p, InvocationCap(), old(invocations), old(invocationsDeleted), invocations, invocationsDeleted, now)
      ensures |invocations| == |old(invocations)| - changes
      ensures changes == 0 ==> invocations == old(invocations) && Doomed(invocations, rule) == {}
    {
      var rest, gone := DeleteChunk(invocations, doomed);
      invocationsDeleted := invocationsDeleted + [Deletion(rule, invocations, gone)];
      invocations := rest;
      changes := |gone|;
    }

    method PruneExpired(now: int) returns (changes: nat)
      requires p.retentionDays > 0
      modifies this
      ensures Went(p, LogCap(), old(logs), old(logsDeleted), logs, logsDeleted, now)
      ensures Went(p, InvocationCap(), old(invocations), old(invocationsDeleted), invocations, invocationsDeleted, now)
      ensures |logs| + |invocations| == |old(logs)| + |old(invocations)| - changes
      ensures changes == 0 ==>
                && logs == old(logs) && invocations == old(invocations)
                && Doomed(logs, Expired(p.Cutoff(now))) == {} && Doomed(invocations, Expired(p.Cutoff(now))) == {}
    {
      var cutoff := p.Cutoff(now);
      var a := DeleteLogs(Expired(cutoff), (set r | r in logs && logs[r] < cutoff), now);
      var b := DeleteInvocations(Expired(cutoff), (set r | r in invocations && invocations[r] < cutoff), now);
      changes := a + b;
    }

    method PruneLogs(now: int) returns (changes: nat)
      requires p.maxLogRows > 0
      modifies this`logs, this`logsDeleted
      ensures Went(p, LogCap(), old(logs), old(logsDeleted), logs, logsDeleted, now)
      ensures |logs| == |old(logs)| - changes
      ensures changes == 0 ==> logs == old(logs) && Doomed(logs, LogCap()) == {}
    {
      var cut := CutOf(Ids(logs), p.maxLogRows);
      CutBoundsWindow(Ids(logs), p.maxLogRows, cut);
      changes := DeleteLogs(LogCap(), (set r | r in Ids(logs) && Ids(logs)[r] < cut), now);
    }

    method PruneInvocations(now: int) returns (changes: nat)
      requires p.maxInvocationRows > 0
      modifies this`invocations, this`invocationsDeleted
      ensures Went(p, InvocationCap(), old(invocations), old(invocationsDeleted), invocations, invocationsDeleted, now)
      ensures |invocations| == |old(invocations)| - changes
      ensures changes == 0 ==> invocations == old(invocations) && Doomed(invocations, InvocationCap()) == {}
    {
      var cut := CutOf(invocations, p.maxInvocationRows);
      CutBoundsWindow(invocations, p.maxInvocationRows, cut);
      changes := DeleteInvocations(InvocationCap(), (set r | r in invocations && invocations[r] < cut), now);
    }

    /** One chunk of every rule in force. */
    method PruneStep(now: int) returns (more: bool)
      modifies this
      ensures Went(p, LogCap(), old(logs), old(logsDeleted), logs, logsDeleted, now)
      ensures Went(p, InvocationCap(), old(invocations), old(invocationsDeleted), invocations, invocationsDeleted, now)
      ensures more ==> |logs| + |invocations| < |old(logs)| + |old(invocations)|
      ensures !more ==> logs == old(logs) && invocations == old(invocations) && Clean(p, logs, invocations, now)
    {
      hide Went, Doomed;
      var deleted := 0;
      WentNowhere(p, LogCap(), logs, logsDeleted, now);
      WentNowhere(p, InvocationCap(), invocations, invocationsDeleted, now);
      if p.retentionDays > 0 {
        var a := PruneExpired(now);
        deleted := deleted + a;
      }
      ghost var logs1, gone1 := logs, logsDeleted;
      if p.maxLogRows > 0 {
        var a := PruneLogs(now);
        deleted := deleted + a;
        WentOn(p, LogCap(), old(logs), old(logsDeleted), logs1, gone1, now, logs, logsDeleted, now);
      }
      ghost var invocations1, gone2 := invocations, invocationsDeleted;
      if p.maxInvocationRows > 0 {
        var a := PruneInvocations(now);
        deleted := deleted + a;
        WentOn(p, InvocationCap(), old(invocations), old(invocationsDeleted), invocations1, gone2, now,
               invocations, invocationsDeleted, now);
      }
      more := deleted > 0;
    }

    /**
      The whole pass, the clock read once a step. It ends, with nothing left to delete at its last
      step; what it deleted was doomed when deleted, and what was recent at its start is all kept.
     */
    method Prune(clock: nat -> int) returns (ghost at: int)
      requires forall i: nat, j: nat | i <= j :: clock(i) <= clock(j)
      modifies this
      ensures exists k :: at == clock(k)
      ensures Went(p, LogCap(), old(logs), old(logsDeleted), logs, logsDeleted, at)
      ensures Went(p, InvocationCap(), old(invocations), old(invocationsDeleted), invocations, invocationsDeleted, at)
      ensures Clean(p, logs, invocations, at)
    {
      hide Went, Clean;
      var k: nat := 0;
      at := clock(0);
      var more := PruneStep(clock(0));
      while more
        invariant at == clock(k)
        invariant Went(p, LogCap(), old(logs), old(logsDeleted), logs, logsDeleted, at)
        invariant Went(p, InvocationCap(), old(invocations), old(invocationsDeleted), invocations, invocationsDeleted, at)
        invariant !more ==> Clean(p, logs, invocations, at)
        decreases |logs| + |invocations|, more
      {
        ghost var logs1, gone1, invocations1, gone2 := logs, logsDeleted, invocations, invocationsDeleted;
        k := k + 1;
        more := PruneStep(clock(k));
        WentOn(p, LogCap(), old(logs), old(logsDeleted), logs1, gone1, at, logs, logsDeleted, clock(k));
        WentOn(p, InvocationCap(), old(invocations), old(invocationsDeleted), invocations1, gone2, at,
               invocations, invocationsDeleted, clock(k));
        at := clock(k);
      }
    }
  }
}
