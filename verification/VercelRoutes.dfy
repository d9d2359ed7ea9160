/**
  Merging sub-path rewrites into a Vercel output config. `le` is locale comparison of names. A
  route's source is a regular expression; the subset the merge itself emits (an anchored literal
  followed by `.*$`) is interpreted here, every other route hits as `foreign` says.
 */
module VercelRoutes {
  import opened Basics
  import opened Sorting

  /** The `handle` key of a route entry: only a string marks a phase. */
  datatype Handle = Absent | Marker(phase: string) | Other(id: int)

  /** A route entry; `extra` stands for any further keys. */
  datatype Route = Route(handle: Handle, src: Option<string>, dest: Option<string>, extra: int)

  type Locale = (string, string) -> bool

  predicate IsMeta(c: char) {
    c == '.' || c == '*' || c == '+' || c == '?' || c == '^' || c == '$' || c == '{' || c == '}' ||
    c == '(' || c == ')' || c == '|' || c == '[' || c == ']' || c == '\\'
  }

  function EscapeRegExp(s: string): string {
    if s == [] then []
    else (if IsMeta(s[0]) then ['\\', s[0]] else [s[0]]) + EscapeRegExp(s[1..])
  }

  const ANYTHING := ".*$"

  function DestPrefix(prefix: string): string { "/" + prefix + "/" }

  /** The body of an emitted source, between `^` and the end. */
  function Body(prefix: string, name: string): string {
    "/" + EscapeRegExp(prefix) + "/" + EscapeRegExp(name) + "/" + ANYTHING
  }

  function RouteFor(prefix: string, name: string): Route {
    Route(Absent, Some("^" + Body(prefix, name)), Some(DestPrefix(prefix) + name), 0)
  }

  function Emit(prefix: string): string -> Route {
    (name: string) => RouteFor(prefix, name)
  }

  predicate IsOwnRoute(prefix: string, names: seq<string>, r: Route) {
    r.handle.Absent? && r.dest.Some? && DestPrefix(prefix) <= r.dest.value &&
    var name := r.dest.value[|DestPrefix(prefix)|..];
    name in names && r.src == RouteFor(prefix, name).src
  }

  function Foreign(prefix: string, names: seq<string>): Route -> bool {
    (r: Route) => !IsOwnRoute(prefix, names, r)
  }

  /** The routes before the first `handle` marker. */
  function Main(rs: seq<Route>): (m: seq<Route>)
    ensures |m| <= |rs| && m == rs[..|m|]
    ensures forall r | r in m :: !r.handle.Marker?
  {
    if rs == [] || rs[0].handle.Marker? then [] else [rs[0]] + Main(rs[1..])
  }

  /** The first `handle` marker and everything after it. */
  function Phases(rs: seq<Route>): seq<Route> {
    rs[|Main(rs)|..]
  }

  /** The routes emitted for a build: each name once, in locale order. */
  function Emitted(le: Locale, prefix: string, names: seq<string>): seq<Route> {
    Map(Emit(prefix), Sort(le, Dedup(names)))
  }

  function Merge(le: Locale, prefix: string, routes: seq<Route>, names: seq<string>): seq<Route> {
    var cleaned := Filter(Foreign(prefix, names), routes);
    Main(cleaned) + Emitted(le, prefix, names) + Phases(cleaned)
  }

  class OutputConfig {
    var version: Option<int>
    var routes: Option<seq<Route>>
    var deploymentId: Option<string>
    var written: bool

    /** A missing file reads as this. */
    constructor Fresh()
      ensures version == Some(3) && routes == Some([]) && deploymentId == None && !written
    {
      version, routes, deploymentId, written := Some(3), Some([]), None, false;
    }

    /** `mergeSubpathRoutes` on the parsed config. */
    method MergeSubpathRoutes(le: Locale, pathPrefix: string, functionNames: seq<string>, newId: Option<string>)
      returns (created: bool, routeCount: nat)
      modifies this
      ensures routes == Some(Merge(le, pathPrefix,
                                   if old(routes).Some? then old(routes).value else [], functionNames))
      ensures version == (if old(version).Some? then old(version) else Some(3))
      ensures deploymentId == (if newId.Some? then newId else old(deploymentId))
      ensures created == !old(written) && written && routeCount == |Dedup(functionNames)|
    {
      hide Filter, Foreign, Emitted, Main, Phases, Dedup;
      created := !written;
      if version.None? { version := Some(3); }
      var existing := if routes.Some? then routes.value else [];
      var cleaned := Filter(Foreign(pathPrefix, functionNames), existing);
      var subpathRoutes := Emitted(le, pathPrefix, functionNames);
      var markerIdx := 0;
      while markerIdx < |cleaned| && !cleaned[markerIdx].handle.Marker?
        invariant markerIdx <= |cleaned|
        invariant forall i | 0 <= i < markerIdx :: !cleaned[i].handle.Marker?
      {
        markerIdx := markerIdx + 1;
      }
      MainIs(cleaned, markerIdx);
      routes := Some(cleaned[..markerIdx] + subpathRoutes + cleaned[markerIdx..]);
      if newId.Some? { deploymentId := newId; }
      written := true;
      EmittedCount(le, pathPrefix, functionNames);
      routeCount := |subpathRoutes|;
    }
  }

  lemma EmittedCount(le: Locale, prefix: string, names: seq<string>)
    ensures |Emitted(le, prefix, names)| == |Dedup(names)|
  {
    SortPermutes(le, Dedup(names));
  }

  lemma {:induction false} MainIs(rs: seq<Route>, n: nat)
    requires n <= |rs| && forall i | 0 <= i < n :: !rs[i].handle.Marker?
    requires n < |rs| ==> rs[n].handle.Marker?
    ensures Main(rs) == rs[..n] && Phases(rs) == rs[n..]
  {
    if n > 0 { MainIs(rs[1..], n - 1); }
  }

  // ---------------------------------------------------------------------------
  // Own and foreign routes
  // ---------------------------------------------------------------------------

  lemma EmitInjective(prefix: string, a: string, b: string)
    requires RouteFor(prefix, a) == RouteFor(prefix, b)
    ensures a == b
  {
    assert (DestPrefix(prefix) + a)[|DestPrefix(prefix)|..] == a;
    assert (DestPrefix(prefix) + b)[|DestPrefix(prefix)|..] == b;
  }

  lemma FilterCons(p: Route -> bool, r: Route, rs: seq<Route>)
    ensures Filter(p, [r] + rs) == (if p(r) then [r] else []) + Filter(p, rs)
  {
    assert ([r] + rs)[1..] == rs;
  }

  lemma {:induction false} FilterAppend(p: Route -> bool, a: seq<Route>, b: seq<Route>)
    ensures Filter(p, a + b) == Filter(p, a) + Filter(p, b)
  {
    if a == [] {
      assert a + b == b;
    } else {
      var r, rest := a[0], a[1..];
      assert a == [r] + rest && a + b == [r] + (rest + b);
      FilterAppend(p, rest, b);
      hide Filter;
      FilterCons(p, r, rest);
      FilterCons(p, r, rest + b);
    }
  }

  lemma FilterThree(p: Route -> bool, a: seq<Route>, b: seq<Route>, c: seq<Route>)
    ensures Filter(p, a + b + c) == Filter(p, a) + Filter(p, b) + Filter(p, c)
  {
    hide Filter;
    FilterAppend(p, a + b, c);
    FilterAppend(p, a, b);
  }

  lemma {:induction false} FilterAll(p: Route -> bool, rs: seq<Route>, keep: bool)
    requires forall r | r in rs :: p(r) == keep
    ensures Filter(p, rs) == if keep then rs else []
  {
    if rs != [] {
      assert rs[0] in rs;
      FilterAll(p, rs[1..], keep);
      assert rs == [rs[0]] + rs[1..];
    }
  }

  lemma {:induction false} FilterMember(p: Route -> bool, rs: seq<Route>, r: Route)
    ensures r in Filter(p, rs) <==> r in rs && p(r)
  {
    if rs != [] {
      FilterMember(p, rs[1..], r);
      assert r in rs <==> r == rs[0] || r in rs[1..];
    }
  }

  lemma {:induction false} FilterTwice(p: Route -> bool, q: Route -> bool, pq: Route -> bool, rs: seq<Route>)
    requires forall r | r in rs :: pq(r) <==> p(r) && q(r)
    ensures Filter(q, Filter(p, rs)) == Filter(pq, rs)
  {
    if rs != [] {
      assert rs[0] in rs;
      FilterTwice(p, q, pq, rs[1..]);
      FilterAppend(q, if p(rs[0]) then [rs[0]] else [], Filter(p, rs[1..]));
      assert [rs[0]][1..] == [];
    }
  }

  lemma MainCons(r: Route, rs: seq<Route>)
    ensures Main([r] + rs) == (if r.handle.Marker? then [] else [r] + Main(rs))
    ensures Phases([r] + rs) == (if r.handle.Marker? then [r] + rs else Phases(rs))
  {
    assert ([r] + rs)[1..] == rs;
    assert !r.handle.Marker? ==> ([r] + rs)[1 + |Main(rs)|..] == rs[|Main(rs)|..];
  }

  lemma FilterPhasesCons(p: Route -> bool, r: Route, rest: seq<Route>)
    requires r.handle.Marker? ==> p(r)
    requires Main(Filter(p, rest)) == Filter(p, Main(rest)) && Phases(Filter(p, rest)) == Filter(p, Phases(rest))
    ensures Main(Filter(p, [r] + rest)) == Filter(p, Main([r] + rest))
    ensures Phases(Filter(p, [r] + rest)) == Filter(p, Phases([r] + rest))
  {
    hide Filter, Main, Phases;
    FilterNothing(p);
    MainCons(r, rest);
    FilterCons(p, r, rest);
    if p(r) {
      MainCons(r, Filter(p, rest));
      if !r.handle.Marker? { FilterCons(p, r, Main(rest)); }
    } else {
      FilterCons(p, r, Main(rest));
      assert [] + Filter(p, rest) == Filter(p, rest) && [] + Filter(p, Main(rest)) == Filter(p, Main(rest));
    }
  }

  /** A filter that keeps every marker filters the phases apart. */
  lemma {:induction false} FilterPhases(p: Route -> bool, rs: seq<Route>)
    requires forall r | r in rs && r.handle.Marker? :: p(r)
    ensures Main(Filter(p, rs)) == Filter(p, Main(rs))
    ensures Phases(Filter(p, rs)) == Filter(p, Phases(rs))
  {
    hide Filter, Main, Phases;
    FilterNothing(p);
    if rs != [] {
      FilterPhases(p, rs[1..]);
      FilterPhasesCons(p, rs[0], rs[1..]);
      assert rs == [rs[0]] + rs[1..];
    } else {
      assert Phases(rs) == [] by { PhasesOfNone(rs); }
    }
  }

  lemma PhasesOfNone(rs: seq<Route>)
    requires rs == []
    ensures Main(rs) == [] && Phases(rs) == []
  {
  }

  lemma FilterNothing(p: Route -> bool)
    ensures Filter(p, []) == [] && Main([]) == [] && Phases([]) == []
  {
  }

  lemma {:induction false} MainOfJoin(a: seq<Route>, b: seq<Route>)
    requires forall r | r in a :: !r.handle.Marker?
    ensures Main(a + b) == a + Main(b) && Phases(a + b) == Phases(b)
  {
    if a == [] {
      assert a + b == b;
    } else {
      assert a[0] in a;
      assert (a + b)[1..] == a[1..] + b;
      MainOfJoin(a[1..], b);
      assert Phases(a + b) == Phases((a + b)[1..]);
    }
  }

  lemma EmittedRoutes(le: Locale, prefix: string, names: seq<string>)
    ensures forall r :: r in Emitted(le, prefix, names) <==> exists n :: n in names && r == RouteFor(prefix, n)
    ensures Distinct(Emitted(le, prefix, names))
  {
    var order := Sort(le, Dedup(names));
    var es := Emitted(le, prefix, names);
    DedupElements(names);
    SortPermutes(le, Dedup(names));
    SameElements(Dedup(names), order);
    DistinctPermutes(Dedup(names), order);
    forall i | 0 <= i < |es| ensures es[i] == RouteFor(prefix, order[i]) && order[i] in names {
      MapAt(Emit(prefix), order, i);
      assert order[i] in order;
    }
    forall r ensures r in es <==> exists n :: n in names && r == RouteFor(prefix, n) {
      if n :| n in names && r == RouteFor(prefix, n) {
        assert n in order;
        var i :| 0 <= i < |order| && order[i] == n;
        assert es[i] == r;
      }
    }
    forall i, j | 0 <= i < j < |es| ensures es[i] != es[j] {
      if es[i] == es[j] { EmitInjective(prefix, order[i], order[j]); }
    }
  }

  lemma EmittedNoMarker(le: Locale, prefix: string, names: seq<string>, names': seq<string>)
    ensures forall r | r in Emitted(le, prefix, names) :: !r.handle.Marker?
    ensures (forall n | n in names :: n in names') ==>
              Filter(Foreign(prefix, names'), Emitted(le, prefix, names)) == []
  {
    EmittedRoutes(le, prefix, names);
    if forall n | n in names :: n in names' {
      forall r | r in Emitted(le, prefix, names) ensures !Foreign(prefix, names')(r) {
        var n :| n in names && r == RouteFor(prefix, n);
      }
      FilterAll(Foreign(prefix, names'), Emitted(le, prefix, names), false);
    }
  }

  /** Every foreign route stays, in its order and phase. */
  lemma MergeKeepsForeign(le: Locale, prefix: string, routes: seq<Route>, names: seq<string>)
    ensures Filter(Foreign(prefix, names), Merge(le, prefix, routes, names)) == Filter(Foreign(prefix, names), routes)
  {
    hide Filter, Main, Emitted, Foreign;
    var p := Foreign(prefix, names);
    var cleaned := Filter(p, routes);
    var es := Emitted(le, prefix, names);
    EmittedNoMarker(le, prefix, names, names);
    FilterKept(p, routes);
    FilterThree(p, Main(cleaned), es, Phases(cleaned));
    assert Main(cleaned) + [] + Phases(cleaned) == cleaned;
  }

  /** A route is one of the build's own if and only if it sends some function's pattern to that function. */
  lemma OwnIff(prefix: string, names: seq<string>, r: Route)
    ensures !Foreign(prefix, names)(r) <==>
            exists n :: n in names && r.handle == Absent && r.src == RouteFor(prefix, n).src && r.dest == Some("/" + prefix + "/" + n)
  {
    forall n | n in names && r.handle == Absent && r.src == RouteFor(prefix, n).src && r.dest == Some("/" + prefix + "/" + n)
      ensures IsOwnRoute(prefix, names, r)
    {
      assert ("/" + prefix + "/" + n)[|DestPrefix(prefix)|..] == n;
    }
    if IsOwnRoute(prefix, names, r) {
      var n := r.dest.value[|DestPrefix(prefix)|..];
      assert r.dest.value == "/" + prefix + "/" + n;
    }
  }

  /** The block of a build: one route for each function, in locale order, from its pattern to its path. */
  ghost predicate IsBlock(le: Locale, prefix: string, names: seq<string>, block: seq<Route>, order: seq<string>) {
    && Distinct(order) && SortedBy(le, order) && (forall n :: n in order <==> n in names)
    && |block| == |order|
    && forall i | 0 <= i < |block| ::
         block[i] == Route(Absent, RouteFor(prefix, order[i]).src, Some("/" + prefix + "/" + order[i]), 0)
  }

  lemma EmittedIsBlock(le: Locale, prefix: string, names: seq<string>)
    requires TotalPreorder(le)
    ensures IsBlock(le, prefix, names, Emitted(le, prefix, names), Sort(le, Dedup(names)))
  {
    var order := Sort(le, Dedup(names));
    DedupElements(names);
    SortSorts(le, Dedup(names));
    SortPermutes(le, Dedup(names));
    SameElements(Dedup(names), order);
    DistinctPermutes(Dedup(names), order);
    forall i | 0 <= i < |order| ensures Emitted(le, prefix, names)[i] == RouteFor(prefix, order[i]) {
      MapAt(Emit(prefix), order, i);
    }
  }

  lemma {:induction false} PhasesStartMarked(rs: seq<Route>)
    ensures Main(rs) + Phases(rs) == rs
    ensures Phases(rs) != [] ==> Phases(rs)[0].handle.Marker?
  {
    if rs != [] && !rs[0].handle.Marker? {
      PhasesStartMarked(rs[1..]);
      assert Phases(rs) == Phases(rs[1..]);
    }
  }

  /** The foreign routes stay as they are, with the build's block put in front of their first marker. */
  lemma MergeShape(le: Locale, prefix: string, routes: seq<Route>, names: seq<string>)
    returns (before: seq<Route>, block: seq<Route>, after: seq<Route>, order: seq<string>)
    requires TotalPreorder(le)
    ensures Merge(le, prefix, routes, names) == before + block + after
    ensures before + after == Filter(Foreign(prefix, names), routes)
    ensures (forall r | r in before :: !r.handle.Marker?) && (after != [] ==> after[0].handle.Marker?)
    ensures IsBlock(le, prefix, names, block, order)
  {
    hide Filter, Foreign, Main, Phases, Emitted, IsBlock, Sort, Dedup, TotalPreorder;
    var cleaned := Filter(Foreign(prefix, names), routes);
    before, block, after, order := Main(cleaned), Emitted(le, prefix, names), Phases(cleaned), Sort(le, Dedup(names));
    PhasesStartMarked(cleaned);
    EmittedIsBlock(le, prefix, names);
  }

  /** Filtering what was filtered, in either phase, changes nothing. */
  lemma FilterKept(p: Route -> bool, routes: seq<Route>)
    ensures var cleaned := Filter(p, routes);
            Filter(p, Main(cleaned)) == Main(cleaned) && Filter(p, Phases(cleaned)) == Phases(cleaned)
  {
    hide Filter, Main;
    var cleaned := Filter(p, routes);
    forall r | r in cleaned ensures p(r) { FilterMember(p, routes, r); }
    assert forall r | r in Main(cleaned) :: r in cleaned;
    assert forall r | r in Phases(cleaned) :: r in cleaned;
    FilterAll(p, Main(cleaned), true);
    FilterAll(p, Phases(cleaned), true);
  }

  /** Building the same functions twice changes nothing. */
  lemma MergeIdempotent(le: Locale, prefix: string, routes: seq<Route>, names: seq<string>)
    ensures Merge(le, prefix, Merge(le, prefix, routes, names), names) == Merge(le, prefix, routes, names)
  {
    hide Filter, Main, Emitted, Foreign;
    MergeKeepsForeign(le, prefix, routes, names);
  }

  // ---------------------------------------------------------------------------
  // Building A then B, and building A and B together
  // ---------------------------------------------------------------------------

  /** The own routes after building `a` and then `b`. */
  function InTurn(le: Locale, prefix: string, a: seq<string>, b: seq<string>): seq<Route> {
    Filter(Foreign(prefix, b), Emitted(le, prefix, a)) + Emitted(le, prefix, b)
  }

  lemma ForeignBoth(prefix: string, a: seq<string>, b: seq<string>, r: Route)
    ensures Foreign(prefix, a + b)(r) <==> Foreign(prefix, a)(r) && Foreign(prefix, b)(r)
  {
  }

  /** Incremental builds keep the layout: the same foreign routes around a block of own routes. */
  lemma MergeInTurn(le: Locale, prefix: string, routes: seq<Route>, a: seq<string>, b: seq<string>)
    ensures var kept := Filter(Foreign(prefix, a + b), routes);
            && Merge(le, prefix, Merge(le, prefix, routes, a), b) == Main(kept) + InTurn(le, prefix, a, b) + Phases(kept)
            && Merge(le, prefix, routes, a + b) == Main(kept) + Emitted(le, prefix, a + b) + Phases(kept)
  {
    hide Filter, Main, Emitted, Foreign, Phases;
    var pa, pb, pab := Foreign(prefix, a), Foreign(prefix, b), Foreign(prefix, a + b);
    var ca, es, kept := Filter(pa, routes), Emitted(le, prefix, a), Filter(pab, routes);
    CleanedTwice(prefix, routes, a, b);
    FilterThree(pb, Main(ca), es, Phases(ca));
    var own := Filter(pb, es);
    var cb := Filter(pb, Merge(le, prefix, routes, a));
    assert cb == Main(kept) + own + Phases(kept);
    OwnNoMarker(le, prefix, a, b);
    MainOfJoin(Main(kept) + own, Phases(kept));
    PhasesStart(kept);
    assert Main(cb) == Main(kept) + own && Phases(cb) == Phases(kept);
    assert Main(kept) + own + Emitted(le, prefix, b) == Main(kept) + (own + Emitted(le, prefix, b));
  }

  /** Cleaning for `a` and then `b`, phase by phase, is cleaning for both. */
  lemma CleanedTwice(prefix: string, routes: seq<Route>, a: seq<string>, b: seq<string>)
    ensures var ca, kept := Filter(Foreign(prefix, a), routes), Filter(Foreign(prefix, a + b), routes);
            Filter(Foreign(prefix, b), Main(ca)) == Main(kept) && Filter(Foreign(prefix, b), Phases(ca)) == Phases(kept)
  {
    hide Filter, Main;
    var pa, pb, pab := Foreign(prefix, a), Foreign(prefix, b), Foreign(prefix, a + b);
    forall r ensures pab(r) <==> pa(r) && pb(r) { ForeignBoth(prefix, a, b, r); }
    FilterTwice(pa, pb, pab, routes);
    FilterPhases(pb, Filter(pa, routes));
  }

  /** Own routes left over from `a` carry no marker; no own route does. */
  lemma OwnNoMarker(le: Locale, prefix: string, a: seq<string>, b: seq<string>)
    ensures var own := Filter(Foreign(prefix, b), Emitted(le, prefix, a));
            forall rs: seq<Route>, r | r in Main(rs) + own :: !r.handle.Marker?
  {
    hide Filter, Main;
    EmittedNoMarker(le, prefix, a, b);
    var own := Filter(Foreign(prefix, b), Emitted(le, prefix, a));
    forall rs: seq<Route>, r | r in Main(rs) + own ensures !r.handle.Marker? {
      FilterMember(Foreign(prefix, b), Emitted(le, prefix, a), r);
    }
  }

  lemma {:induction false} PhasesStart(rs: seq<Route>)
    ensures Main(Phases(rs)) == [] && Phases(Phases(rs)) == Phases(rs)
  {
    if rs != [] && !rs[0].handle.Marker? {
      assert Phases(rs) == Phases(rs[1..]);
      PhasesStart(rs[1..]);
    } else {
      assert Phases(rs) == rs;
    }
  }

  /** The two blocks of own routes are permutations of each other. */
  lemma OwnBlocksPermute(le: Locale, prefix: string, a: seq<string>, b: seq<string>)
    ensures multiset(InTurn(le, prefix, a, b)) == multiset(Emitted(le, prefix, a + b))
    ensures Distinct(InTurn(le, prefix, a, b))
    ensures forall r :: r in InTurn(le, prefix, a, b) <==> r in Emitted(le, prefix, a + b)
  {
    hide Emitted;
    var ea, eb, eab := Emitted(le, prefix, a), Emitted(le, prefix, b), Emitted(le, prefix, a + b);
    EmittedRoutes(le, prefix, a);
    EmittedRoutes(le, prefix, b);
    EmittedRoutes(le, prefix, a + b);
    var pb := Foreign(prefix, b);
    FilterDistinct(pb, ea);
    var fa := Filter(pb, ea);
    forall r ensures r in fa <==> r in ea && r !in eb {
      FilterMember(pb, ea, r);
      if r in ea {
        var n :| n in a && r == RouteFor(prefix, n);
        if r in eb {
          var m :| m in b && r == RouteFor(prefix, m);
          EmitInjective(prefix, n, m);
        }
      }
    }
    DistinctJoin(fa, eb);
    forall r ensures r in fa + eb <==> r in eab {
      assert r in fa + eb <==> r in ea || r in eb;
      if r in ea { var n :| n in a && r == RouteFor(prefix, n); assert n in a + b; }
      if r in eb { var n :| n in b && r == RouteFor(prefix, n); assert n in a + b; }
      if r in eab { var n :| n in a + b && r == RouteFor(prefix, n); assert n in a || n in b; }
    }
    DistinctMultiset(fa + eb, eab);
  }

  lemma {:induction false} FilterDistinct(p: Route -> bool, rs: seq<Route>)
    requires Distinct(rs)
    ensures Distinct(Filter(p, rs))
  {
    if rs != [] {
      FilterDistinct(p, rs[1..]);
      FilterMember(p, rs[1..], rs[0]);
      assert rs[0] !in rs[1..];
    }
  }

  lemma DistinctJoin(a: seq<Route>, b: seq<Route>)
    requires Distinct(a) && Distinct(b) && forall r | r in a :: r !in b
    ensures Distinct(a + b)
  {
    forall i, j | 0 <= i < j < |a + b| ensures (a + b)[i] != (a + b)[j] {
      if i < |a| <= j { assert a[i] in a && b[j - |a|] in b; }
    }
  }

  // ---------------------------------------------------------------------------
  // Which route a path takes
  // ---------------------------------------------------------------------------

  /** The meaning of a pattern body made of literals and a final `.*$`; None outside that subset. */
  function MatchBody(p: string, path: string): Option<bool>
    decreases |p|
  {
    if p == ".*$" then Some(true)
    else if p == [] then None
    else if p[0] == '\\' then
      if |p| < 2 then None
      else if path != [] && path[0] == p[1] then MatchBody(p[2..], path[1..]) else Some(false)
    else if IsMeta(p[0]) then None
    else if path != [] && path[0] == p[0] then MatchBody(p[1..], path[1..]) else Some(false)
  }

  type Oracle = (Route, string) -> bool

  function Hits(foreign: Oracle, r: Route, path: string): bool {
    if r.src.Some? && r.src.value != [] && r.src.value[0] == '^' && MatchBody(r.src.value[1..], path).Some? then
      MatchBody(r.src.value[1..], path).value
    else foreign(r, path)
  }

  function FirstMatch(foreign: Oracle, rs: seq<Route>, path: string): Option<Route> {
    if rs == [] then None
    else if Hits(foreign, rs[0], path) then Some(rs[0])
    else FirstMatch(foreign, rs[1..], path)
  }

  /** An escaped literal matches exactly that literal. */
  lemma {:induction false} MatchLiteral(s: string, rest: string, path: string)
    requires rest != [] && rest[0] == '/'
    ensures MatchBody(EscapeRegExp(s) + rest, path)
         == if s <= path then MatchBody(rest, path[|s|..]) else Some(false)
    decreases |s|
  {
    var p := EscapeRegExp(s) + rest;
    if s == [] {
      assert p == rest && path[0..] == path;
    } else {
      var tail := EscapeRegExp(s[1..]) + rest;
      if IsMeta(s[0]) {
        assert p == ['\\', s[0]] + tail;
        assert p[2..] == tail;
      } else {
        assert p == [s[0]] + tail;
        assert p[1..] == tail;
      }
      assert p[0] != '.';
      if path != [] && path[0] == s[0] {
        MatchLiteral(s[1..], rest, path[1..]);
        assert s == [s[0]] + s[1..] && path == [path[0]] + path[1..];
        assert s <= path <==> s[1..] <= path[1..];
        if s <= path { assert path[1..][|s| - 1..] == path[|s|..]; }
      } else {
        assert !(s <= path);
      }
    }
  }

  lemma MatchSlash(rest: string, path: string)
    ensures MatchBody("/" + rest, path) == if "/" <= path then MatchBody(rest, path[1..]) else Some(false)
  {
    assert ("/" + rest)[1..] == rest && ("/" + rest)[0] == '/';
  }

  /** The path `/<prefix>/<name>/…` */
  ghost predicate UnderFunction(prefix: string, name: string, path: string) {
    "/" + prefix + "/" + name + "/" <= path
  }

  /** An emitted route is hit exactly by the paths under its function, whatever its name contains. */
  lemma EmittedHits(foreign: Oracle, prefix: string, name: string, path: string)
    ensures Hits(foreign, RouteFor(prefix, name), path) <==> UnderFunction(prefix, name, path)
  {
    hide EscapeRegExp, MatchBody;
    var last := "/" + ANYTHING;
    var middle := "/" + (EscapeRegExp(name) + last);
    var body := "/" + (EscapeRegExp(prefix) + middle);
    BodyNests(prefix, name);
    MatchSlash(EscapeRegExp(prefix) + middle, path);
    if "/" <= path {
      var p1 := path[1..];
      MatchLiteral(prefix, middle, p1);
      if prefix <= p1 {
        var p2 := p1[|prefix|..];
        MatchSlash(EscapeRegExp(name) + last, p2);
        if "/" <= p2 {
          var p3 := p2[1..];
          MatchLiteral(name, last, p3);
          if name <= p3 {
            MatchSlash(ANYTHING, p3[|name|..]);
            MatchEnd(if "/" <= p3[|name|..] then p3[|name|..][1..] else []);
          }
        }
      }
    }
    assert RouteFor(prefix, name).src.value[1..] == Body(prefix, name);
  }

  lemma BodyNests(prefix: string, name: string)
    ensures Body(prefix, name) == "/" + (EscapeRegExp(prefix) + ("/" + (EscapeRegExp(name) + ("/" + ANYTHING))))
  {
    hide EscapeRegExp;
  }

  lemma MatchEnd(path: string)
    ensures MatchBody(ANYTHING, path) == Some(true)
  {
  }

  /** Slash-free names give disjoint patterns. */
  lemma DisjointPatterns(prefix: string, a: string, b: string, path: string)
    requires '/' !in a && '/' !in b
    requires UnderFunction(prefix, a, path) && UnderFunction(prefix, b, path)
    ensures a == b
  {
    var n := |DestPrefix(prefix)|;
    assert path[n..n + |a| + 1] == a + "/" && path[n..n + |b| + 1] == b + "/";
    NoLonger(path, n, a, b);
    NoLonger(path, n, b, a);
  }

  lemma NoLonger(path: string, n: nat, a: string, b: string)
    requires n + |a| < |path| && n + |b| <= |path| && path[n + |a|] == '/'
    requires forall k | 0 <= k < |b| :: path[n + k] == b[k]
    ensures |a| < |b| ==> '/' in b
  {
    if |a| < |b| { assert b[|a|] == path[n + |a|]; }
  }

  lemma {:induction false} FirstMatchAppend(foreign: Oracle, a: seq<Route>, b: seq<Route>, path: string)
    ensures FirstMatch(foreign, a + b, path)
         == if FirstMatch(foreign, a, path).Some? then FirstMatch(foreign, a, path) else FirstMatch(foreign, b, path)
  {
    if a == [] {
      assert a + b == b;
    } else {
      assert (a + b)[1..] == a[1..] + b;
      FirstMatchAppend(foreign, a[1..], b, path);
    }
  }

  lemma {:induction false} FirstMatchIs(foreign: Oracle, rs: seq<Route>, path: string)
    ensures var m := FirstMatch(foreign, rs, path);
            && (m.Some? ==> m.value in rs && Hits(foreign, m.value, path))
            && (m.None? ==> forall r | r in rs :: !Hits(foreign, r, path))
  {
    hide Hits;
    if rs != [] {
      FirstMatchIs(foreign, rs[1..], path);
      assert rs[0] in rs && forall r :: r in rs <==> r == rs[0] || r in rs[1..];
    }
  }

  /** In two blocks with the same routes, at most one of which is hit, the first match is the same. */
  lemma SameFirstMatch(foreign: Oracle, x: seq<Route>, y: seq<Route>, path: string)
    requires forall r :: r in x <==> r in y
    requires forall r, q | r in x && q in x && Hits(foreign, r, path) && Hits(foreign, q, path) :: r == q
    ensures FirstMatch(foreign, x, path) == FirstMatch(foreign, y, path)
  {
    hide Hits, FirstMatch;
    FirstMatchIs(foreign, x, path);
    FirstMatchIs(foreign, y, path);
  }

  lemma OneEmittedHit(foreign: Oracle, le: Locale, prefix: string, names: seq<string>, path: string)
    requires forall n | n in names :: '/' !in n
    ensures forall r, q | r in Emitted(le, prefix, names) && q in Emitted(le, prefix, names)
              && Hits(foreign, r, path) && Hits(foreign, q, path) :: r == q
  {
    hide Hits, UnderFunction, Emitted;
    EmittedRoutes(le, prefix, names);
    forall r, q | r in Emitted(le, prefix, names) && q in Emitted(le, prefix, names)
      && Hits(foreign, r, path) && Hits(foreign, q, path) ensures r == q
    {
      var n :| n in names && r == RouteFor(prefix, n);
      var m :| m in names && q == RouteFor(prefix, m);
      EmittedHits(foreign, prefix, n, path);
      EmittedHits(foreign, prefix, m, path);
      DisjointPatterns(prefix, n, m, path);
    }
  }

  /**
    Building `a` and then `b` gives the same routes as building both at once, up to the order of own
    routes, keeps the foreign routes in order, and sends every path to the same first match when
    function names are free of slashes.
   */
  lemma BuildsCompose(
    le: Locale, foreign: Oracle, prefix: string, routes: seq<Route>, a: seq<string>, b: seq<string>, path: string)
    ensures var inTurn := Merge(le, prefix, Merge(le, prefix, routes, a), b);
            var together := Merge(le, prefix, routes, a + b);
            && multiset(inTurn) == multiset(together)
            && Filter(Foreign(prefix, a + b), together) == Filter(Foreign(prefix, a + b), routes)
            && Filter(Foreign(prefix, a + b), inTurn) == Filter(Foreign(prefix, a + b), routes)
            && ((forall n | n in a + b :: '/' !in n) ==>
                  FirstMatch(foreign, inTurn, path) == FirstMatch(foreign, together, path))
  {
    hide Merge, Filter, Foreign, InTurn, Emitted, Hits, FirstMatch, Main, Phases;
    var p := Foreign(prefix, a + b);
    var kept := Filter(p, routes);
    var x, y := InTurn(le, prefix, a, b), Emitted(le, prefix, a + b);
    MergeInTurn(le, prefix, routes, a, b);
    OwnBlocksPermute(le, prefix, a, b);
    MergeKeepsForeign(le, prefix, routes, a + b);
    ForeignOfBlock(le, prefix, routes, a, b);
    if forall n | n in a + b :: '/' !in n {
      OneEmittedHit(foreign, le, prefix, a + b, path);
      SameFirstMatch(foreign, y, x, path);
      FirstMatchAppend(foreign, Main(kept) + x, Phases(kept), path);
      FirstMatchAppend(foreign, Main(kept), x, path);
      FirstMatchAppend(foreign, Main(kept) + y, Phases(kept), path);
      FirstMatchAppend(foreign, Main(kept), y, path);
    }
  }

  lemma ForeignOfBlock(le: Locale, prefix: string, routes: seq<Route>, a: seq<string>, b: seq<string>)
    ensures var p := Foreign(prefix, a + b);
            var kept := Filter(p, routes);
            Filter(p, Main(kept) + InTurn(le, prefix, a, b) + Phases(kept)) == kept
  {
    hide Filter, Main, Foreign, InTurn, Emitted;
    var p := Foreign(prefix, a + b);
    var kept := Filter(p, routes);
    var x := InTurn(le, prefix, a, b);
    OwnBlocksPermute(le, prefix, a, b);
    EmittedNoMarker(le, prefix, a + b, a + b);
    forall r | r in x ensures !p(r) {
      FilterMember(p, Emitted(le, prefix, a + b), r);
    }
    FilterAll(p, x, false);
    FilterKept(p, routes);
    FilterThree(p, Main(kept), x, Phases(kept));
    assert Main(kept) + [] + Phases(kept) == kept;
  }
}
