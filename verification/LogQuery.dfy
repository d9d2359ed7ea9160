/**
  The read side of the invocation log store: keyset pagination newest first, and the ascending tail.

  A table is a sequence of rows in storage order; a query filters it, sorts it and takes a prefix,
  as `WHERE`, `ORDER BY` and `LIMIT` do.
 */
module LogQuery {
  import opened Basics
  import opened JsText
  import opened Sorting

  const MAX_LIMIT := 200
  const DEFAULT_LIMIT := 50

  /** A `limit` argument: a JavaScript number or undefined. */
  datatype Limit = Absent | NotFinite | Finite(r: real)

  function ClampLimit(limit: Limit): nat {
    match limit
    case Finite(r) =>
      if r <= 0.0 then DEFAULT_LIMIT else if r.Floor < MAX_LIMIT then r.Floor else MAX_LIMIT
    case _ => DEFAULT_LIMIT
  }

  /** The only limits that clamp to an empty page are the positive ones below one. */
  lemma ClampZeroIff(limit: Limit)
    ensures ClampLimit(limit) <= MAX_LIMIT
    ensures ClampLimit(limit) == 0 <==> limit.Finite? && 0.0 < limit.r < 1.0
  {
  }

  /** What a limit clamps to: its whole part between 1 and 200, 200 above that, and 50 when it asks for nothing sensible. */
  lemma ClampLimitIs(limit: Limit)
    ensures limit.Absent? || limit.NotFinite? ==> ClampLimit(limit) == 50
    ensures limit.Finite? && limit.r <= 0.0 ==> ClampLimit(limit) == 50
    ensures limit.Finite? && limit.r >= 200.0 ==> ClampLimit(limit) == 200
    ensures limit.Finite? && 0.0 < limit.r < 200.0 ==>
              ClampLimit(limit) as real <= limit.r < ClampLimit(limit) as real + 1.0
  {
  }

  function Take<R>(rows: seq<R>, n: nat): seq<R> {
    if |rows| <= n then rows else rows[..n]
  }

  /** `WHERE p ORDER BY le` */
  function Ordered<R>(le: (R, R) -> bool, p: R -> bool, rows: seq<R>): seq<R> {
    Sort(le, Filter(p, rows))
  }

  lemma {:induction false} FilterMembers<R(!new)>(p: R -> bool, rows: seq<R>)
    requires Distinct(rows)
    ensures Distinct(Filter(p, rows))
    ensures forall r :: r in Filter(p, rows) <==> r in rows && p(r)
  {
    if rows != [] {
      FilterMembers(p, rows[1..]);
      assert forall r :: r in rows <==> r == rows[0] || r in rows[1..];
      assert rows[0] !in rows[1..];
    }
  }

  lemma OrderedMembers<R(!new)>(le: (R, R) -> bool, p: R -> bool, rows: seq<R>)
    requires TotalPreorder(le) && Distinct(rows)
    ensures Distinct(Ordered(le, p, rows)) && SortedBy(le, Ordered(le, p, rows))
    ensures forall r :: r in Ordered(le, p, rows) <==> r in rows && p(r)
  {
    FilterMembers(p, rows);
    var fs := Filter(p, rows);
    SortSorts(le, fs);
    SortPermutes(le, fs);
    SameElements(fs, Sort(le, fs));
    DistinctPermutes(fs, Sort(le, fs));
  }

  /** Rows strictly after `c` in output order. */
  predicate After<R>(le: (R, R) -> bool, c: R, r: R) {
    le(c, r) && !le(r, c)
  }

  /** In a listing without ties, the rows strictly after position `i` are the rest of the listing. */
  lemma AfterPosition<R(!new)>(le: (R, R) -> bool, full: seq<R>, i: nat)
    requires TotalPreorder(le) && SortedBy(le, full) && Distinct(full) && TiesEqual(le, full) && i < |full|
    ensures forall r | r in full :: After(le, full[i], r) <==> r in full[i + 1..]
  {
    forall j | 0 <= j < |full| ensures After(le, full[i], full[j]) <==> i < j {
      if i < j {
        assert full[i] != full[j] && full[i] in full && full[j] in full;
        assert !Tied(le, full[i], full[j]);
      }
    }
    forall r | r in full ensures After(le, full[i], r) <==> r in full[i + 1..] {
      var j :| 0 <= j < |full| && full[j] == r;
      if i < j { assert full[i + 1..][j - i - 1] == r; }
    }
  }

  /** Adding the cursor condition to the query drops exactly the rows up to the cursor. */
  lemma CursorSuffix<R(!new)>(le: (R, R) -> bool, p: R -> bool, q: R -> bool, rows: seq<R>, i: nat)
    requires TotalPreorder(le) && Distinct(rows) && TiesEqual(le, rows)
    requires i < |Ordered(le, p, rows)|
    requires forall r | r in rows :: q(r) <==> p(r) && After(le, Ordered(le, p, rows)[i], r)
    ensures Ordered(le, q, rows) == Ordered(le, p, rows)[i + 1..]
  {
    hide Ordered, TotalPreorder, After;
    OrderedMembers(le, p, rows);
    OrderedMembers(le, q, rows);
    var full := Ordered(le, p, rows);
    assert TiesEqual(le, full);
    AfterPosition(le, full, i);
    var rest := full[i + 1..];
    forall r ensures r in Ordered(le, q, rows) <==> r in rest {
      if r in rest { assert r in full; }
    }
    DistinctMultiset(rest, Ordered(le, q, rows));
    Reflexive(le);
    assert TiesEqual(le, rest);
    SortedPermutationsEqual(le, rest, Ordered(le, q, rows));
  }

  lemma Reflexive<R(!new)>(le: (R, R) -> bool)
    requires TotalPreorder(le)
    ensures forall x :: le(x, x)
  {
  }

  // ---------------------------------------------------------------------------
  // One page
  // ---------------------------------------------------------------------------

  datatype Page<R> = Page(items: seq<R>, next: Option<R>)

  /** Fetch one row too many; the cursor is the last row returned. */
  function PageOf<R>(le: (R, R) -> bool, q: R -> bool, rows: seq<R>, limit: nat): Page<R> {
    var fetched := Take(Ordered(le, q, rows), limit + 1);
    var items := Take(fetched, limit);
    Page(items, if |fetched| > limit && items != [] then Some(items[|items| - 1]) else None)
  }

  /** The filter with its cursor condition. */
  function WithCursor<R>(le: (R, R) -> bool, p: R -> bool, cursor: Option<R>): R -> bool {
    (r: R) => p(r) && (cursor.Some? ==> After(le, cursor.value, r))
  }

  /** Where a cursor stands in the full listing: before everything, or just after one of its rows. */
  ghost predicate At<R>(full: seq<R>, cursor: Option<R>, n: nat) {
    n <= |full| && (cursor == if n == 0 then None else Some(full[n - 1]))
  }

  lemma PageAt<R(!new)>(le: (R, R) -> bool, p: R -> bool, rows: seq<R>, cursor: Option<R>, n: nat, limit: nat)
    requires TotalPreorder(le) && Distinct(rows) && TiesEqual(le, rows)
    requires At(Ordered(le, p, rows), cursor, n)
    ensures var full := Ordered(le, p, rows);
            var page := PageOf(le, WithCursor(le, p, cursor), rows, limit);
            && Ordered(le, WithCursor(le, p, cursor), rows) == full[n..]
            && page.items == Take(full[n..], limit)
            && (page.next.Some? <==> 0 < limit < |full| - n)
            && (page.next.Some? ==> At(full, page.next, n + limit))
  {
    hide TiesEqual, TotalPreorder, Sort;
    var full := Ordered(le, p, rows);
    if n == 0 {
      SameFilter(le, p, WithCursor(le, p, cursor), rows);
      assert full[0..] == full;
    } else {
      CursorSuffix(le, p, WithCursor(le, p, cursor), rows, n - 1);
    }
  }

  lemma {:induction false} SameFilter<R>(le: (R, R) -> bool, p: R -> bool, q: R -> bool, rows: seq<R>)
    requires forall r | r in rows :: p(r) == q(r)
    ensures Filter(p, rows) == Filter(q, rows) && Ordered(le, p, rows) == Ordered(le, q, rows)
  {
    if rows != [] {
      assert rows[0] in rows;
      SameFilter(le, p, q, rows[1..]);
    }
  }

  // ---------------------------------------------------------------------------
  // Following cursors
  // ---------------------------------------------------------------------------

  lemma CursorAdvances<R(!new)>(le: (R, R) -> bool, p: R -> bool, rows: seq<R>, cursor: Option<R>, n: nat, limit: nat)
    requires TotalPreorder(le) && Distinct(rows) && TiesEqual(le, rows)
    requires At(Ordered(le, p, rows), cursor, n)
    ensures var next := PageOf(le, WithCursor(le, p, cursor), rows, limit).next;
            next.Some? ==> |Ordered(le, WithCursor(le, p, next), rows)| < |Ordered(le, WithCursor(le, p, cursor), rows)|
  {
    hide TiesEqual, TotalPreorder, Ordered, PageOf, WithCursor;
    PageAt(le, p, rows, cursor, n, limit);
    var next := PageOf(le, WithCursor(le, p, cursor), rows, limit).next;
    if next.Some? { PageAt(le, p, rows, next, n + limit, limit); }
  }

  ghost predicate Proper<R(!new)>(le: (R, R) -> bool, rows: seq<R>) {
    TotalPreorder(le) && Distinct(rows) && TiesEqual(le, rows)
  }

  /** All rows a client sees that follows cursors from `cursor` until there is none. */
  ghost function Walk<R(!new)>(le: (R, R) -> bool, p: R -> bool, rows: seq<R>, cursor: Option<R>, limit: nat): seq<R>
    requires Proper(le, rows)
    requires exists n: nat :: At(Ordered(le, p, rows), cursor, n)
    decreases |Ordered(le, WithCursor(le, p, cursor), rows)|
  {
    var page := PageOf(le, WithCursor(le, p, cursor), rows, limit);
    if page.next.None? then page.items
    else
      var n: nat :| At(Ordered(le, p, rows), cursor, n);
      PageAt(le, p, rows, cursor, n, limit);
      CursorAdvances(le, p, rows, cursor, n, limit);
      page.items + Walk(le, p, rows, page.next, limit)
  }

  lemma {:induction false} WalkFrom<R(!new)>(le: (R, R) -> bool, p: R -> bool, rows: seq<R>, cursor: Option<R>, n: nat, limit: nat)
    requires Proper(le, rows) && At(Ordered(le, p, rows), cursor, n)
    ensures limit > 0 ==> Walk(le, p, rows, cursor, limit) == Ordered(le, p, rows)[n..]
    ensures limit == 0 ==> Walk(le, p, rows, cursor, limit) == []
    decreases |Ordered(le, p, rows)| - n
  {
    hide Ordered, TiesEqual, TotalPreorder, PageOf, WithCursor;
    PageAt(le, p, rows, cursor, n, limit);
    var full := Ordered(le, p, rows);
    var page := PageOf(le, WithCursor(le, p, cursor), rows, limit);
    if page.next.Some? {
      WalkFrom(le, p, rows, page.next, n + limit, limit);
      assert full[n..] == full[n..n + limit] + full[n + limit..];
      assert full[n..][..limit] == full[n..n + limit];
    }
  }

  /**
    Following cursors from the first page enumerates exactly the filtered rows in order, without gap
    or repeat, if and only if the limit is not a fraction below one or there is nothing to list.
   */
  lemma WalkEnumerates<R(!new)>(le: (R, R) -> bool, p: R -> bool, rows: seq<R>, limit: Limit)
    requires Proper(le, rows)
    ensures At(Ordered(le, p, rows), None, 0)
    ensures Walk(le, p, rows, None, ClampLimit(limit)) == Ordered(le, p, rows)
            <==> !(limit.Finite? && 0.0 < limit.r < 1.0) || (forall r | r in rows :: !p(r))
  {
    hide Ordered, Walk, Proper;
    var full := Ordered(le, p, rows);
    assert Proper(le, rows);
    WalkFrom(le, p, rows, None, 0, ClampLimit(limit));
    ClampZeroIff(limit);
    assert full[0..] == full;
    OrderedEmpty(le, p, rows);
  }

  lemma OrderedEmpty<R(!new)>(le: (R, R) -> bool, p: R -> bool, rows: seq<R>)
    requires Proper(le, rows)
    ensures Ordered(le, p, rows) == [] <==> forall r | r in rows :: !p(r)
  {
    hide Ordered, TiesEqual, TotalPreorder;
    OrderedMembers(le, p, rows);
    var full := Ordered(le, p, rows);
    if full != [] { assert full[0] in full; }
  }

  // ---------------------------------------------------------------------------
  // Invocations: newest first by (ts_ms, id)
  // ---------------------------------------------------------------------------

  /** The columns paging looks at; `columns` is everything else. Ids are compared unit by unit. */
  datatype Invocation = Invocation(tsMs: int, id: Text, columns: int)

  datatype InvocationCursor = InvocationCursor(tsMs: int, id: Text)

  /** `ORDER BY ts_ms DESC, id DESC` */
  predicate NewerFirst(a: Invocation, b: Invocation) {
    a.tsMs > b.tsMs || (a.tsMs == b.tsMs && TextLe(b.id, a.id))
  }

  /** `ts_ms < ? OR (ts_ms = ? AND id < ?)` */
  predicate BelowCursor(r: Invocation, c: InvocationCursor) {
    r.tsMs < c.tsMs || (r.tsMs == c.tsMs && TextLe(r.id, c.id) && r.id != c.id)
  }

  function CursorOf(r: Invocation): InvocationCursor { InvocationCursor(r.tsMs, r.id) }

  lemma NewerFirstOrders()
    ensures TotalPreorder(NewerFirst)
    ensures forall a, b :: Tied(NewerFirst, a, b) ==> a.id == b.id
    ensures forall c, r :: BelowCursor(r, CursorOf(c)) <==> After(NewerFirst, c, r)
  {
    forall x, y ensures NewerFirst(x, y) || NewerFirst(y, x) { TextLeTotal(x.id, y.id); }
    forall x, y, z | NewerFirst(x, y) && NewerFirst(y, z) ensures NewerFirst(x, z) {
      if x.tsMs == y.tsMs == z.tsMs { TextLeTransitive(z.id, y.id, x.id); }
    }
    forall a, b | Tied(NewerFirst, a, b) ensures a.id == b.id { TextLeTotal(a.id, b.id); }
    forall c, r ensures BelowCursor(r, CursorOf(c)) <==> After(NewerFirst, c, r) { TextLeTotal(c.id, r.id); }
  }

  ghost predicate UniqueIds(rows: seq<Invocation>) {
    forall i, j | 0 <= i < j < |rows| :: rows[i].id != rows[j].id
  }

  datatype InvocationPage = InvocationPage(items: seq<Invocation>, nextCursor: Option<InvocationCursor>)

  /** `queryInvocations`, for the conjunction `p` of the filter's own conditions. */
  function QueryInvocations(rows: seq<Invocation>, p: Invocation -> bool, cursor: Option<InvocationCursor>, limit: Limit):
    InvocationPage
  {
    var where := (r: Invocation) => p(r) && (cursor.Some? ==> BelowCursor(r, cursor.value));
    var n := ClampLimit(limit);
    var fetched := Take(Ordered(NewerFirst, where, rows), n + 1);
    var items := Take(fetched, n);
    InvocationPage(items, if |fetched| > n && items != [] then Some(CursorOf(items[|items| - 1])) else None)
  }

  /** `x` comes before `r` in the list. */
  ghost predicate Precedes<R>(full: seq<R>, x: R, r: R) {
    exists i, j :: 0 <= i < j < |full| && full[i] == x && full[j] == r
  }

  /** What a prefix of a distinct list has, and what it leaves out. */
  lemma PrefixSplits<R(!new)>(full: seq<R>, n: nat)
    requires Distinct(full)
    ensures var items := Take(full, n);
            && |items| <= n && (|items| < n ==> items == full)
            && (forall r | r in items :: r in full)
            && (forall r, x | r in full && r !in items && x in items :: Precedes(full, x, r))
            && ((exists r :: r in full && r !in items) <==> |full| > n)
            && Take(Take(full, n + 1), n) == items && (|Take(full, n + 1)| > n <==> |full| > n)
  {
    var items := Take(full, n);
    forall r, x | r in full && r !in items && x in items ensures Precedes(full, x, r) {
      var i :| 0 <= i < |items| && items[i] == x;
      var j :| 0 <= j < |full| && full[j] == r;
      LeftOut(full, n, j);
    }
    if |full| > n { NotTaken(full, n); }
  }

  lemma LeftOut<R>(full: seq<R>, n: nat, j: int)
    requires 0 <= j < |full| && full[j] !in Take(full, n)
    ensures j >= n
  {
    if j < n { TakenAt(full, n, j); }
  }

  lemma TakenAt<R>(full: seq<R>, n: nat, j: int)
    requires 0 <= j < n && j < |full|
    ensures full[j] in Take(full, n)
  {
    assert Take(full, n)[j] == full[j];
  }

  lemma NotTaken<R>(full: seq<R>, n: nat)
    requires Distinct(full) && n < |full|
    ensures full[n] in full && full[n] !in Take(full, n)
  {
  }

  /** A row is to be listed. */
  ghost predicate Wanted(rows: seq<Invocation>, p: Invocation -> bool, cursor: Option<InvocationCursor>, r: Invocation) {
    && r in rows && p(r)
    && (cursor.Some? ==>
          r.tsMs < cursor.value.tsMs || (r.tsMs == cursor.value.tsMs && TextLe(r.id, cursor.value.id) && r.id != cursor.value.id))
  }

  ghost predicate Newer(a: Invocation, b: Invocation) {
    a.tsMs > b.tsMs || (a.tsMs == b.tsMs && TextLe(b.id, a.id) && a.id != b.id)
  }

  /**
    A page lists, newest first, rows that are wanted; as many as the limit takes, or all; none of those it
    leaves out is newer than one it lists; and it has a cursor, its last row's, exactly when it is not
    empty and leaves some out.
   */
  lemma InvocationPageIs(rows: seq<Invocation>, p: Invocation -> bool, cursor: Option<InvocationCursor>, limit: Limit)
    requires UniqueIds(rows)
    ensures var (page, n) := (QueryInvocations(rows, p, cursor, limit), ClampLimit(limit));
            && (forall r | r in page.items :: Wanted(rows, p, cursor, r))
            && (forall i, j | 0 <= i < j < |page.items| :: Newer(page.items[i], page.items[j]))
            && |page.items| <= n
            && (|page.items| < n ==> forall r | Wanted(rows, p, cursor, r) :: r in page.items)
            && (forall r, x | Wanted(rows, p, cursor, r) && r !in page.items && x in page.items :: Newer(x, r))
            && (page.nextCursor.Some? <==> page.items != [] && exists r :: Wanted(rows, p, cursor, r) && r !in page.items)
            && (page.nextCursor.Some? ==>
                  var last := page.items[|page.items| - 1];
                  page.nextCursor.value.tsMs == last.tsMs && page.nextCursor.value.id == last.id)
  {
    hide QueryInvocations, ClampLimit, UniqueIds, Wanted, Newer, Take, Precedes, Distinct;
    var full := AllInvocations(rows, p, cursor, limit);
    PrefixSplits(full, ClampLimit(limit));
    ListedNewer(rows, full, ClampLimit(limit));
  }

  /** Every wanted row, newest first, and a page as the first of them. */
  lemma AllInvocations(rows: seq<Invocation>, p: Invocation -> bool, cursor: Option<InvocationCursor>, limit: Limit)
    returns (full: seq<Invocation>)
    requires UniqueIds(rows)
    ensures forall r :: Wanted(rows, p, cursor, r) <==> r in full
    ensures SortedBy(NewerFirst, full) && Distinct(full) && forall r | r in full :: r in rows
    ensures var (page, items) := (QueryInvocations(rows, p, cursor, limit), Take(full, ClampLimit(limit)));
            && page.items == items
            && page.nextCursor
            == if |full| > ClampLimit(limit) && items != [] then
                 Some(InvocationCursor(items[|items| - 1].tsMs, items[|items| - 1].id))
               else None
  {
    hide Filter, Sort, NewerFirst, BelowCursor, TextLe, UniqueIds, Wanted, Newer, Take, Ordered, Precedes, Distinct;
    var where := (r: Invocation) => p(r) && (cursor.Some? ==> BelowCursor(r, cursor.value));
    InvocationsProper(rows);
    OrderedMembers(NewerFirst, where, rows);
    full := Ordered(NewerFirst, where, rows);
    PrefixSplits(full, ClampLimit(limit));
    forall r ensures Wanted(rows, p, cursor, r) <==> r in full { CursorMeans(rows, p, cursor, r); }
  }

  lemma CursorMeans(rows: seq<Invocation>, p: Invocation -> bool, cursor: Option<InvocationCursor>, r: Invocation)
    ensures Wanted(rows, p, cursor, r) <==> r in rows && p(r) && (cursor.Some? ==> BelowCursor(r, cursor.value))
  {
  }

  lemma ListedNewer(rows: seq<Invocation>, full: seq<Invocation>, n: nat)
    requires UniqueIds(rows) && SortedBy(NewerFirst, full) && Distinct(full) && (forall r | r in full :: r in rows)
    ensures forall x, r | Precedes(full, x, r) :: Newer(x, r)
    ensures var items := Take(full, n);
            forall i, j | 0 <= i < j < |items| :: Newer(items[i], items[j])
  {
    forall i, j | 0 <= i < j < |full| ensures Newer(full[i], full[j]) {
      assert NewerFirst(full[i], full[j]) && full[i] != full[j] && full[i] in rows && full[j] in rows;
      var a :| 0 <= a < |rows| && rows[a] == full[i];
      var b :| 0 <= b < |rows| && rows[b] == full[j];
    }
  }

  lemma InvocationsProper(rows: seq<Invocation>)
    requires UniqueIds(rows)
    ensures Proper(NewerFirst, rows)
  {
    NewerFirstOrders();
    forall x, y | x in rows && y in rows && Tied(NewerFirst, x, y) ensures x == y {
      var i :| 0 <= i < |rows| && rows[i] == x;
      var j :| 0 <= j < |rows| && rows[j] == y;
      assert x.id == y.id;
    }
  }

  function AsCursor(c: Option<Invocation>): Option<InvocationCursor> {
    match c case None => None case Some(r) => Some(CursorOf(r))
  }

  /** The concrete page is the abstract one, its cursor reduced to (ts, id). */
  lemma QueryIsPage(rows: seq<Invocation>, p: Invocation -> bool, cursor: Option<Invocation>, limit: Limit)
    ensures var page := PageOf(NewerFirst, WithCursor(NewerFirst, p, cursor), rows, ClampLimit(limit));
            QueryInvocations(rows, p, AsCursor(cursor), limit) == InvocationPage(page.items, AsCursor(page.next))
  {
    NewerFirstOrders();
    var c := AsCursor(cursor);
    var where := (r: Invocation) => p(r) && (c.Some? ==> BelowCursor(r, c.value));
    hide After, BelowCursor, NewerFirst, CursorOf;
    SameFilter(NewerFirst, where, WithCursor(NewerFirst, p, cursor), rows);
  }

  /** A client that fetched `pages`, each with the cursor the one before returned. */
  ghost predicate InvocationWalk(rows: seq<Invocation>, p: Invocation -> bool, limit: Limit, pages: seq<InvocationPage>, cursor: Option<InvocationCursor>)
    decreases |pages|
  {
    && pages != []
    && pages[0] == QueryInvocations(rows, p, cursor, limit)
    && (pages[0].nextCursor.None? ==> |pages| == 1)
    && (pages[0].nextCursor.Some? ==> InvocationWalk(rows, p, limit, pages[1..], pages[0].nextCursor))
  }

  ghost function AllItems(pages: seq<InvocationPage>): seq<Invocation> {
    if pages == [] then [] else pages[0].items + AllItems(pages[1..])
  }

  lemma {:induction false} InvocationWalkFrom(
    rows: seq<Invocation>, p: Invocation -> bool, limit: Limit, pages: seq<InvocationPage>, cursor: Option<Invocation>, n: nat)
    requires UniqueIds(rows) && At(Ordered(NewerFirst, p, rows), cursor, n)
    requires InvocationWalk(rows, p, limit, pages, AsCursor(cursor))
    ensures Proper(NewerFirst, rows)
    ensures AllItems(pages) == Walk(NewerFirst, p, rows, cursor, ClampLimit(limit))
    decreases |pages|
  {
    hide Ordered, QueryInvocations, PageOf, WithCursor, CursorOf, TotalPreorder, TiesEqual;
    InvocationsProper(rows);
    QueryIsPage(rows, p, cursor, limit);
    PageAt(NewerFirst, p, rows, cursor, n, ClampLimit(limit));
    var page := PageOf(NewerFirst, WithCursor(NewerFirst, p, cursor), rows, ClampLimit(limit));
    if page.next.Some? {
      InvocationWalkFrom(rows, p, limit, pages[1..], page.next, n + ClampLimit(limit));
    } else {
      assert pages[1..] == [];
    }
  }

  /** Such a client always gets to a last page. */
  lemma {:induction false} InvocationWalkExists(
    rows: seq<Invocation>, p: Invocation -> bool, limit: Limit, cursor: Option<Invocation>, n: nat)
    returns (pages: seq<InvocationPage>)
    requires UniqueIds(rows) && At(Ordered(NewerFirst, p, rows), cursor, n)
    ensures InvocationWalk(rows, p, limit, pages, AsCursor(cursor))
    decreases |Ordered(NewerFirst, p, rows)| - n
  {
    hide Ordered, QueryInvocations, PageOf, WithCursor, CursorOf, TotalPreorder, TiesEqual;
    InvocationsProper(rows);
    QueryIsPage(rows, p, cursor, limit);
    PageAt(NewerFirst, p, rows, cursor, n, ClampLimit(limit));
    var page := QueryInvocations(rows, p, AsCursor(cursor), limit);
    var next := PageOf(NewerFirst, WithCursor(NewerFirst, p, cursor), rows, ClampLimit(limit)).next;
    if next.None? {
      pages := [page];
    } else {
      var rest := InvocationWalkExists(rows, p, limit, next, n + ClampLimit(limit));
      pages := [page] + rest;
      assert pages[1..] == rest;
    }
  }

  /**
    Over a fixed store, the pages a client collects by following cursors are, concatenated, exactly
    the filtered invocations in (ts desc, id desc) order, for every limit but a fraction below one.
   */
  lemma InvocationPagesEnumerate(rows: seq<Invocation>, p: Invocation -> bool, limit: Limit, pages: seq<InvocationPage>)
    requires UniqueIds(rows) && InvocationWalk(rows, p, limit, pages, None)
    ensures AllItems(pages) == Ordered(NewerFirst, p, rows)
            <==> !(limit.Finite? && 0.0 < limit.r < 1.0) || (forall r | r in rows :: !p(r))
  {
    hide Ordered, QueryInvocations, Walk, InvocationWalk;
    InvocationsProper(rows);
    WalkEnumerates(NewerFirst, p, rows, limit);
    InvocationWalkFrom(rows, p, limit, pages, None, 0);
  }

  // ---------------------------------------------------------------------------
  // Log lines: newest first by id, and the ascending tail
  // ---------------------------------------------------------------------------

  datatype LogRow = LogRow(id: int, columns: int)

  datatype LogPage = LogPage(items: seq<LogRow>, nextBeforeId: Option<int>)

  /** `ORDER BY id DESC` */
  predicate HigherFirst(a: LogRow, b: LogRow) { a.id >= b.id }

  ghost predicate UniqueLogIds(rows: seq<LogRow>) {
    forall i, j | 0 <= i < j < |rows| :: rows[i].id != rows[j].id
  }

  /** `searchLogs`, for the conjunction `p` of the filter's own conditions. */
  function SearchLogs(rows: seq<LogRow>, p: LogRow -> bool, beforeId: Option<int>, limit: Limit): LogPage {
    var where := (r: LogRow) => p(r) && (beforeId.Some? ==> r.id < beforeId.value);
    var n := ClampLimit(limit);
    var fetched := Take(Ordered(HigherFirst, where, rows), n + 1);
    var items := Take(fetched, n);
    LogPage(items, if |fetched| > n && items != [] then Some(items[|items| - 1].id) else None)
  }

  ghost predicate WantedLog(rows: seq<LogRow>, p: LogRow -> bool, beforeId: Option<int>, r: LogRow) {
    r in rows && p(r) && (beforeId.Some? ==> r.id < beforeId.value)
  }

  /** Likewise for a page of log lines, by descending id. */
  lemma LogPageIs(rows: seq<LogRow>, p: LogRow -> bool, beforeId: Option<int>, limit: Limit)
    requires UniqueLogIds(rows)
    ensures var (page, n) := (SearchLogs(rows, p, beforeId, limit), ClampLimit(limit));
            && (forall r | r in page.items :: WantedLog(rows, p, beforeId, r))
            && (forall i, j | 0 <= i < j < |page.items| :: page.items[i].id > page.items[j].id)
            && |page.items| <= n
            && (|page.items| < n ==> forall r | WantedLog(rows, p, beforeId, r) :: r in page.items)
            && (forall r, x | WantedLog(rows, p, beforeId, r) && r !in page.items && x in page.items :: x.id > r.id)
            && (page.nextBeforeId.Some? <==> page.items != [] && exists r :: WantedLog(rows, p, beforeId, r) && r !in page.items)
            && (page.nextBeforeId.Some? ==> page.nextBeforeId.value == page.items[|page.items| - 1].id)
  {
    hide SearchLogs, ClampLimit, UniqueLogIds, Take, Precedes, Distinct, WantedLog;
    var full := AllLogs(rows, p, beforeId, limit);
    PrefixSplits(full, ClampLimit(limit));
    ListedHigher(rows, full, ClampLimit(limit));
  }

  /** Every wanted row, by descending id, and a page as the first of them. */
  lemma AllLogs(rows: seq<LogRow>, p: LogRow -> bool, beforeId: Option<int>, limit: Limit) returns (full: seq<LogRow>)
    requires UniqueLogIds(rows)
    ensures forall r :: WantedLog(rows, p, beforeId, r) <==> r in full
    ensures SortedBy(HigherFirst, full) && Distinct(full) && forall r | r in full :: r in rows
    ensures var (page, items) := (SearchLogs(rows, p, beforeId, limit), Take(full, ClampLimit(limit)));
            && page.items == items
            && page.nextBeforeId
            == if |full| > ClampLimit(limit) && items != [] then Some(items[|items| - 1].id) else None
  {
    hide Filter, Sort, HigherFirst, UniqueLogIds, Take, Ordered, Precedes, Distinct, WantedLog;
    var where := (r: LogRow) => p(r) && (beforeId.Some? ==> r.id < beforeId.value);
    LogsProper(rows);
    OrderedMembers(HigherFirst, where, rows);
    full := Ordered(HigherFirst, where, rows);
    PrefixSplits(full, ClampLimit(limit));
    forall r ensures WantedLog(rows, p, beforeId, r) <==> r in full { BeforeIdMeans(rows, p, beforeId, r); }
  }

  lemma BeforeIdMeans(rows: seq<LogRow>, p: LogRow -> bool, beforeId: Option<int>, r: LogRow)
    ensures WantedLog(rows, p, beforeId, r) <==> r in rows && p(r) && (beforeId.Some? ==> r.id < beforeId.value)
  {
  }

  lemma ListedHigher(rows: seq<LogRow>, full: seq<LogRow>, n: nat)
    requires UniqueLogIds(rows) && SortedBy(HigherFirst, full) && Distinct(full) && (forall r | r in full :: r in rows)
    ensures forall x, r | Precedes(full, x, r) :: x.id > r.id
    ensures var items := Take(full, n);
            forall i, j | 0 <= i < j < |items| :: items[i].id > items[j].id
  {
    forall i, j | 0 <= i < j < |full| ensures full[i].id > full[j].id {
      assert HigherFirst(full[i], full[j]) && full[i] != full[j] && full[i] in rows && full[j] in rows;
      var a :| 0 <= a < |rows| && rows[a] == full[i];
      var b :| 0 <= b < |rows| && rows[b] == full[j];
    }
  }

  lemma LogsProper(rows: seq<LogRow>)
    requires UniqueLogIds(rows)
    ensures Proper(HigherFirst, rows)
  {
    forall x, y | x in rows && y in rows && Tied(HigherFirst, x, y) ensures x == y {
      var i :| 0 <= i < |rows| && rows[i] == x;
      var j :| 0 <= j < |rows| && rows[j] == y;
    }
  }

  function AsBeforeId(c: Option<LogRow>): Option<int> {
    match c case None => None case Some(r) => Some(r.id)
  }

  lemma SearchIsPage(rows: seq<LogRow>, p: LogRow -> bool, cursor: Option<LogRow>, limit: Limit)
    ensures var page := PageOf(HigherFirst, WithCursor(HigherFirst, p, cursor), rows, ClampLimit(limit));
            SearchLogs(rows, p, AsBeforeId(cursor), limit) == LogPage(page.items, AsBeforeId(page.next))
  {
    var c := AsBeforeId(cursor);
    var where := (r: LogRow) => p(r) && (c.Some? ==> r.id < c.value);
    SameFilter(HigherFirst, where, WithCursor(HigherFirst, p, cursor), rows);
  }

  ghost predicate LogWalk(rows: seq<LogRow>, p: LogRow -> bool, limit: Limit, pages: seq<LogPage>, beforeId: Option<int>)
    decreases |pages|
  {
    && pages != []
    && pages[0] == SearchLogs(rows, p, beforeId, limit)
    && (pages[0].nextBeforeId.None? ==> |pages| == 1)
    && (pages[0].nextBeforeId.Some? ==> LogWalk(rows, p, limit, pages[1..], pages[0].nextBeforeId))
  }

  ghost function AllLogItems(pages: seq<LogPage>): seq<LogRow> {
    if pages == [] then [] else pages[0].items + AllLogItems(pages[1..])
  }

  lemma {:induction false} LogWalkFrom(
    rows: seq<LogRow>, p: LogRow -> bool, limit: Limit, pages: seq<LogPage>, cursor: Option<LogRow>, n: nat)
    requires UniqueLogIds(rows) && At(Ordered(HigherFirst, p, rows), cursor, n)
    requires LogWalk(rows, p, limit, pages, AsBeforeId(cursor))
    ensures Proper(HigherFirst, rows)
    ensures AllLogItems(pages) == Walk(HigherFirst, p, rows, cursor, ClampLimit(limit))
    decreases |pages|
  {
    hide Ordered, SearchLogs, PageOf, WithCursor, TotalPreorder, TiesEqual;
    LogsProper(rows);
    SearchIsPage(rows, p, cursor, limit);
    PageAt(HigherFirst, p, rows, cursor, n, ClampLimit(limit));
    var page := PageOf(HigherFirst, WithCursor(HigherFirst, p, cursor), rows, ClampLimit(limit));
    if page.next.Some? {
      LogWalkFrom(rows, p, limit, pages[1..], page.next, n + ClampLimit(limit));
    } else {
      assert pages[1..] == [];
    }
  }

  lemma {:induction false} LogWalkExists(
    rows: seq<LogRow>, p: LogRow -> bool, limit: Limit, cursor: Option<LogRow>, n: nat)
    returns (pages: seq<LogPage>)
    requires UniqueLogIds(rows) && At(Ordered(HigherFirst, p, rows), cursor, n)
    ensures LogWalk(rows, p, limit, pages, AsBeforeId(cursor))
    decreases |Ordered(HigherFirst, p, rows)| - n
  {
    hide Ordered, SearchLogs, PageOf, WithCursor, TotalPreorder, TiesEqual;
    LogsProper(rows);
    SearchIsPage(rows, p, cursor, limit);
    PageAt(HigherFirst, p, rows, cursor, n, ClampLimit(limit));
    var page := SearchLogs(rows, p, AsBeforeId(cursor), limit);
    var next := PageOf(HigherFirst, WithCursor(HigherFirst, p, cursor), rows, ClampLimit(limit)).next;
    if next.None? {
      pages := [page];
    } else {
      var rest := LogWalkExists(rows, p, limit, next, n + ClampLimit(limit));
      pages := [page] + rest;
      assert pages[1..] == rest;
    }
  }

  /** Likewise for log lines paged by `beforeId`. */
  lemma LogPagesEnumerate(rows: seq<LogRow>, p: LogRow -> bool, limit: Limit, pages: seq<LogPage>)
    requires UniqueLogIds(rows) && LogWalk(rows, p, limit, pages, None)
    ensures AllLogItems(pages) == Ordered(HigherFirst, p, rows)
            <==> !(limit.Finite? && 0.0 < limit.r < 1.0) || (forall r | r in rows :: !p(r))
  {
    hide Ordered, SearchLogs, Walk, LogWalk;
    LogsProper(rows);
    WalkEnumerates(HigherFirst, p, rows, limit);
    LogWalkFrom(rows, p, limit, pages, None, 0);
  }

  // ---------------------------------------------------------------------------
  // The ascending tail
  // ---------------------------------------------------------------------------

  /**
    The log table while it is appended to and pruned, and a poller. Ids are handed out in increasing
    order and never reused (`AUTOINCREMENT`), so rows are stored in ascending id order.
   */
  datatype Tail = Tail(table: seq<LogRow>, lastIssued: int, lastId: int, delivered: seq<LogRow>)

  datatype TailStep =
    | Append(row: LogRow)
    | Delete(gone: LogRow -> bool)
    | Poll(limit: Limit)

  ghost predicate Ascending(rows: seq<LogRow>) {
    forall i, j | 0 <= i < j < |rows| :: rows[i].id < rows[j].id
  }

  /** `logsSince`: `WHERE id > ? ORDER BY id ASC LIMIT ?` over rows stored in ascending order. */
  function LogsSince(table: seq<LogRow>, afterId: int, limit: Limit): seq<LogRow> {
    Take(Filter(NewerThan(afterId), table), ClampLimit(limit))
  }

  ghost predicate TailEnabled(t: Tail, step: TailStep) {
    step.Append? ==> step.row.id > t.lastIssued
  }

  function TailNext(t: Tail, step: TailStep): Tail {
    match step
    case Append(row) => t.(table := t.table + [row], lastIssued := row.id)
    case Delete(gone) => t.(table := Filter((r: LogRow) => !gone(r), t.table))
    case Poll(limit) =>
      var items := LogsSince(t.table, t.lastId, limit);
      t.(delivered := t.delivered + items, lastId := if items == [] then t.lastId else items[|items| - 1].id)
  }

  /**
    Deliveries ascend strictly, so none repeats, and every row in the table whose id the poller has
    passed since it started at `start` has been delivered.
   */
  ghost predicate TailInv(start: int, t: Tail) {
    && Ascending(t.table) && Ascending(t.delivered)
    && start <= t.lastId
    && (forall r | r in t.table :: r.id <= t.lastIssued && (start < r.id <= t.lastId ==> r in t.delivered))
    && (forall r | r in t.delivered :: start < r.id <= t.lastId && r.id <= t.lastIssued)
    && (if t.delivered == [] then t.lastId == start else t.lastId <= t.lastIssued)
  }

  lemma {:induction false} FilterAscending(p: LogRow -> bool, rows: seq<LogRow>)
    requires Ascending(rows)
    ensures Ascending(Filter(p, rows))
    ensures forall r :: r in Filter(p, rows) <==> r in rows && p(r)
  {
    if rows != [] {
      var rest := rows[1..];
      FilterAscending(p, rest);
      assert forall r :: r in rows <==> r == rows[0] || r in rest;
      forall r | r in rest ensures rows[0].id < r.id {
        var i :| 0 <= i < |rest| && rest[i] == r;
        assert rows[i + 1] == r;
      }
      var kept := Filter(p, rest);
      forall j | 0 <= j < |kept| ensures rows[0].id < kept[j].id { assert kept[j] in kept; }
    }
  }

  /** A prefix of an ascending sequence holds exactly the members up to its last id. */
  lemma PrefixMembers(all: seq<LogRow>, n: nat)
    requires Ascending(all) && n <= |all|
    ensures Ascending(all[..n])
    ensures n > 0 ==> forall r :: r in all[..n] <==> r in all && r.id <= all[n - 1].id
  {
    if n > 0 {
      forall r ensures r in all[..n] <==> r in all && r.id <= all[n - 1].id {
        if r in all[..n] {
          var i :| 0 <= i < n && all[..n][i] == r;
          assert all[i] == r;
        }
        if r in all && r.id <= all[n - 1].id {
          var i :| 0 <= i < |all| && all[i] == r;
          assert i < n;
          assert all[..n][i] == r;
        }
      }
    }
  }

  function NewerThan(id: int): LogRow -> bool { (r: LogRow) => r.id > id }

  /** One poll delivers every row in the table up to the new cursor, and only rows past the old one. */
  lemma PollFacts(t: Tail, limit: Limit)
    requires Ascending(t.table)
    ensures var items := LogsSince(t.table, t.lastId, limit);
            var lastId := TailNext(t, Poll(limit)).lastId;
            && Ascending(items) && t.lastId <= lastId
            && (forall r :: r in items <==> r in t.table && t.lastId < r.id <= lastId)
            && (|items| < ClampLimit(limit) ==> forall r | r in t.table :: r.id <= lastId)
  {
    hide Ascending, Filter;
    var newer := Filter(NewerThan(t.lastId), t.table);
    FilterAscending(NewerThan(t.lastId), t.table);
    var items := LogsSince(t.table, t.lastId, limit);
    assert items == newer[..|items|];
    PrefixMembers(newer, |items|);
    if items != [] { assert newer[|items| - 1] == items[|items| - 1] && newer[|items| - 1] in newer; }
    if |items| < ClampLimit(limit) { assert items == newer; }
    if ClampLimit(limit) == 0 || newer == [] { assert items == []; }
  }

  lemma AppendAscending(a: seq<LogRow>, b: seq<LogRow>, cut: int)
    requires Ascending(a) && Ascending(b)
    requires (forall r | r in a :: r.id <= cut) && (forall r | r in b :: cut < r.id)
    ensures Ascending(a + b)
  {
    forall i, j | 0 <= i < j < |a + b| ensures (a + b)[i].id < (a + b)[j].id {
      if i < |a| { assert a[i] in a; }
      if j >= |a| { assert b[j - |a|] in b; }
    }
  }

  lemma TailStepInv(start: int, t: Tail, step: TailStep)
    requires TailInv(start, t) && TailEnabled(t, step)
    ensures TailInv(start, TailNext(t, step))
  {
    hide Ascending, Filter, LogsSince;
    match step
    case Append(row) =>
      AppendAscending(t.table, [row], t.lastIssued);
      assert forall r :: r in t.table + [row] <==> r in t.table || r == row;
    case Delete(gone) => FilterAscending((r: LogRow) => !gone(r), t.table);
    case Poll(limit) =>
      var items := LogsSince(t.table, t.lastId, limit);
      PollFacts(t, limit);
      AppendAscending(t.delivered, items, t.lastId);
      assert forall r :: r in t.delivered + items <==> r in t.delivered || r in items;
      if items != [] { assert items[|items| - 1] in items; }
  }

  ghost predicate TailPossible(t: Tail, steps: seq<TailStep>)
    decreases |steps|
  {
    steps != [] ==> TailEnabled(t, steps[0]) && TailPossible(TailNext(t, steps[0]), steps[1..])
  }

  function TailRun(t: Tail, steps: seq<TailStep>): Tail
    decreases |steps|
  {
    if steps == [] then t else TailRun(TailNext(t, steps[0]), steps[1..])
  }

  lemma {:induction false} TailRunInv(start: int, t: Tail, steps: seq<TailStep>)
    requires TailInv(start, t) && TailPossible(t, steps)
    ensures TailInv(start, TailRun(t, steps))
    decreases |steps|
  {
    hide TailInv, TailNext, TailEnabled;
    if steps != [] {
      TailStepInv(start, t, steps[0]);
      TailRunInv(start, TailNext(t, steps[0]), steps[1..]);
    }
  }

  /**
    Polling from `start` while rows are appended and pruned: no row is delivered twice, every row
    still in the table that the cursor has passed was delivered, and after a poll that comes back
    short nothing newer is left undelivered.
   */
  lemma TailDeliversOnce(start: int, table: seq<LogRow>, lastIssued: int, steps: seq<TailStep>, limit: Limit)
    requires Ascending(table) && (forall r | r in table :: r.id <= lastIssued)
    requires TailPossible(Tail(table, lastIssued, start, []), steps)
    ensures var t := TailRun(Tail(table, lastIssued, start, []), steps);
            && (forall i, j | 0 <= i < j < |t.delivered| :: t.delivered[i].id < t.delivered[j].id)
            && (forall r | r in t.table && start < r.id <= t.lastId :: r in t.delivered)
            && (|LogsSince(t.table, t.lastId, limit)| < ClampLimit(limit) ==>
                  forall r | r in t.table && start < r.id :: r in TailNext(t, Poll(limit)).delivered)
  {
    var t := TailRun(Tail(table, lastIssued, start, []), steps);
    hide TailRun, TailPossible, LogsSince, Filter;
    TailRunInv(start, Tail(table, lastIssued, start, []), steps);
    PollFacts(t, limit);
    TailStepInv(start, t, Poll(limit));
  }
}
