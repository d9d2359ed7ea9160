/**
  Stable sorting by a caller-supplied comparison, as `Array.prototype.sort` does it, and the
  de-duplicating sort `[...new Set(values)].sort()`.

  The firmware fingerprint rests on what sorting forgets: the order of its input, as long as the
  comparison ties only equal elements (`SortIgnoresOrder`), and for the de-duplicating sort
  everything but the set of elements (`UniqueSortedBySet`). A stable sort keeps tied elements in
  their input order, so with other ties it forgets less.
 */
module Sorting {
  import opened Basics

  ghost predicate TotalPreorder<T(!new)>(le: (T, T) -> bool) {
    forall x, y :: (le(x, y) || le(y, x)) && forall z :: le(x, y) && le(y, z) ==> le(x, z)
  }

  ghost predicate TotalOrder<T(!new)>(le: (T, T) -> bool) {
    && TotalPreorder(le)
    && (forall x, y :: le(x, y) && le(y, x) ==> x == y)
  }

  ghost predicate SortedBy<T>(le: (T, T) -> bool, xs: seq<T>) {
    forall i, j | 0 <= i < j < |xs| :: le(xs[i], xs[j])
  }

  /** The comparison cannot tell `x` and `y` apart. */
  predicate Tied<T>(le: (T, T) -> bool, x: T, y: T) {
    le(x, y) && le(y, x)
  }

  /** Elements the comparison cannot tell apart are equal. */
  ghost predicate TiesEqual<T(!new)>(le: (T, T) -> bool, xs: seq<T>) {
    forall x, y | x in xs && y in xs && Tied(le, x, y) :: x == y
  }

  function Insert<T>(le: (T, T) -> bool, x: T, xs: seq<T>): seq<T> {
    if xs == [] then [x]
    else if le(x, xs[0]) then [x] + xs
    else [xs[0]] + Insert(le, x, xs[1..])
  }

  /** Stable sort. */
  function Sort<T>(le: (T, T) -> bool, xs: seq<T>): seq<T> {
    if xs == [] then [] else Insert(le, xs[0], Sort(le, xs[1..]))
  }

  /** The elements of `xs` tied with `c`, in order. */
  function TiedWith<T>(le: (T, T) -> bool, c: T, xs: seq<T>): seq<T> {
    if xs == [] then []
    else (if Tied(le, c, xs[0]) then [xs[0]] else []) + TiedWith(le, c, xs[1..])
  }

  /** First occurrences only, as a JavaScript `Set` built from `xs` iterates. */
  function Dedup<T(==)>(xs: seq<T>): seq<T> {
    if xs == [] then []
    else
      var front := Dedup(xs[..|xs| - 1]);
      var x := xs[|xs| - 1];
      if x in front then front else front + [x]
  }

  function UniqueSorted<T(==)>(le: (T, T) -> bool, xs: seq<T>): seq<T> {
    Sort(le, Dedup(xs))
  }

  lemma {:induction false} InsertPermutes<T>(le: (T, T) -> bool, x: T, xs: seq<T>)
    ensures multiset(Insert(le, x, xs)) == multiset([x] + xs)
  {
    if xs != [] && !le(x, xs[0]) {
      InsertPermutes(le, x, xs[1..]);
      assert xs == [xs[0]] + xs[1..];
    }
  }

  lemma {:induction false} SortPermutes<T>(le: (T, T) -> bool, xs: seq<T>)
    ensures multiset(Sort(le, xs)) == multiset(xs)
    ensures |Sort(le, xs)| == |xs|
  {
    if xs != [] {
      SortPermutes(le, xs[1..]);
      InsertPermutes(le, xs[0], Sort(le, xs[1..]));
      assert xs == [xs[0]] + xs[1..];
      assert multiset([xs[0]] + Sort(le, xs[1..])) == multiset(xs);
    }
    assert |multiset(Sort(le, xs))| == |multiset(xs)|;
  }

  lemma SameElements<T>(xs: seq<T>, ys: seq<T>)
    requires multiset(xs) == multiset(ys)
    ensures |xs| == |ys|
    ensures forall x :: x in xs <==> x in ys
  {
    assert |multiset(xs)| == |multiset(ys)|;
    forall x ensures x in xs <==> x in ys {
      assert x in xs <==> x in multiset(xs);
      assert x in ys <==> x in multiset(ys);
    }
  }

  lemma {:induction false} InsertSorts<T(!new)>(le: (T, T) -> bool, x: T, xs: seq<T>)
    requires TotalPreorder(le) && SortedBy(le, xs)
    ensures SortedBy(le, Insert(le, x, xs))
  {
    if xs != [] && !le(x, xs[0]) {
      InsertSorts(le, x, xs[1..]);
      var tail := Insert(le, x, xs[1..]);
      InsertPermutes(le, x, xs[1..]);
      SameElements(tail, [x] + xs[1..]);
      forall y | y in tail ensures le(xs[0], y) {
        assert y == x || y in xs[1..];
      }
    }
  }

  lemma {:induction false} SortSorts<T(!new)>(le: (T, T) -> bool, xs: seq<T>)
    requires TotalPreorder(le)
    ensures SortedBy(le, Sort(le, xs))
  {
    if xs != [] {
      SortSorts(le, xs[1..]);
      InsertSorts(le, xs[0], Sort(le, xs[1..]));
    }
  }

  lemma {:induction false} InsertStable<T(!new)>(le: (T, T) -> bool, c: T, x: T, xs: seq<T>)
    requires TotalPreorder(le) && SortedBy(le, xs)
    ensures TiedWith(le, c, Insert(le, x, xs)) == TiedWith(le, c, [x] + xs)
  {
    assert ([x] + xs)[1..] == xs;
    if xs != [] && !le(x, xs[0]) {
      InsertStable(le, c, x, xs[1..]);
      assert ([x] + xs[1..])[1..] == xs[1..];
      assert !(Tied(le, c, x) && Tied(le, c, xs[0]));
    }
  }

  /** Elements that tie keep their order. */
  lemma {:induction false} SortStable<T(!new)>(le: (T, T) -> bool, c: T, xs: seq<T>)
    requires TotalPreorder(le)
    ensures TiedWith(le, c, Sort(le, xs)) == TiedWith(le, c, xs)
  {
    if xs != [] {
      SortStable(le, c, xs[1..]);
      SortSorts(le, xs[1..]);
      InsertStable(le, c, xs[0], Sort(le, xs[1..]));
      assert ([xs[0]] + Sort(le, xs[1..]))[1..] == Sort(le, xs[1..]);
    }
  }

  lemma SortedHeadsEqual<T(!new)>(le: (T, T) -> bool, a: seq<T>, b: seq<T>)
    requires SortedBy(le, a) && SortedBy(le, b)
    requires forall x :: le(x, x)
    requires TiesEqual(le, a) && a != [] && b != []
    requires a[0] in b && b[0] in a
    ensures a[0] == b[0]
  {
    var i :| 0 <= i < |b| && b[i] == a[0];
    var j :| 0 <= j < |a| && a[j] == b[0];
    assert le(b[0], b[i]) && le(a[0], a[j]);
    assert Tied(le, a[0], b[0]);
  }

  lemma TailsPermute<T>(a: seq<T>, b: seq<T>)
    requires a != [] && b != [] && a[0] == b[0] && multiset(a) == multiset(b)
    ensures multiset(a[1..]) == multiset(b[1..])
  {
    assert a == [a[0]] + a[1..];
    assert b == [b[0]] + b[1..];
    assert multiset(a[1..]) == multiset(a) - multiset{a[0]};
    assert multiset(b[1..]) == multiset(b) - multiset{b[0]};
  }

  lemma {:induction false} SortedPermutationsEqual<T(!new)>(le: (T, T) -> bool, a: seq<T>, b: seq<T>)
    requires SortedBy(le, a) && SortedBy(le, b) && multiset(a) == multiset(b)
    requires forall x :: le(x, x)
    requires TiesEqual(le, a)
    ensures a == b
  {
    SameElements(a, b);
    if a != [] {
      SortedHeadsEqual(le, a, b);
      TailsPermute(a, b);
      SortedPermutationsEqual(le, a[1..], b[1..]);
      assert a == [a[0]] + a[1..] && b == [b[0]] + b[1..];
    }
  }

  lemma TiesEqualPermutes<T(!new)>(le: (T, T) -> bool, a: seq<T>, b: seq<T>)
    requires multiset(a) == multiset(b) && TiesEqual(le, a)
    ensures TiesEqual(le, b)
  {
    SameElements(a, b);
  }

  /** After equal prefixes, the first place two sequences differ shows in the class it falls in. */
  lemma {:induction false} TiedWithDiffers<T>(le: (T, T) -> bool, c: T, xs: seq<T>, ys: seq<T>, k: nat)
    requires k < |xs| && k < |ys| && xs[..k] == ys[..k]
    requires xs[k] != ys[k] && Tied(le, c, xs[k]) && Tied(le, c, ys[k])
    ensures TiedWith(le, c, xs) != TiedWith(le, c, ys)
  {
    if k == 0 {
      assert TiedWith(le, c, xs)[0] == xs[0];
      assert TiedWith(le, c, ys)[0] == ys[0];
    } else {
      assert xs[0] == xs[..k][0] == ys[..k][0] == ys[0];
      assert xs[1..][..k - 1] == xs[..k][1..] == ys[..k][1..] == ys[1..][..k - 1];
      TiedWithDiffers(le, c, xs[1..], ys[1..], k - 1);
      var n := if Tied(le, c, xs[0]) then 1 else 0;
      assert TiedWith(le, c, xs)[n..] == TiedWith(le, c, xs[1..]);
      assert TiedWith(le, c, ys)[n..] == TiedWith(le, c, ys[1..]);
    }
  }

  /** `xs` with the elements at `i` and `j` exchanged. */
  ghost function Exchange<T>(xs: seq<T>, i: nat, j: nat): seq<T>
    requires i < |xs| && j < |xs|
  {
    xs[i := xs[j]][j := xs[i]]
  }

  /** Two different elements that tie: exchanging them changes the sorted result. */
  lemma ExchangeShows<T(!new)>(le: (T, T) -> bool, xs: seq<T>, i: nat, j: nat)
    requires TotalPreorder(le)
    requires i < j < |xs| && Tied(le, xs[i], xs[j]) && xs[i] != xs[j]
    ensures multiset(Exchange(xs, i, j)) == multiset(xs)
    ensures Sort(le, Exchange(xs, i, j)) != Sort(le, xs)
  {
    var ys := Exchange(xs, i, j);
    assert Tied(le, xs[i], xs[i]);
    TiedWithDiffers(le, xs[i], xs, ys, i);
    SortStable(le, xs[i], xs);
    SortStable(le, xs[i], ys);
  }

  lemma TiesShow<T(!new)>(le: (T, T) -> bool, xs: seq<T>) returns (i: nat, j: nat)
    requires TotalPreorder(le) && !TiesEqual(le, xs)
    ensures i < |xs| && j < |xs| && multiset(Exchange(xs, i, j)) == multiset(xs)
    ensures Sort(le, Exchange(xs, i, j)) != Sort(le, xs)
  {
    var x, y :| x in xs && y in xs && Tied(le, x, y) && x != y;
    i :| 0 <= i < |xs| && xs[i] == x;
    j :| 0 <= j < |xs| && xs[j] == y;
    if j < i { i, j := j, i; }
    ExchangeShows(le, xs, i, j);
  }

  /** Sorting forgets the order of its input exactly when all ties are between equal elements. */
  lemma SortIgnoresOrder<T(!new)>(le: (T, T) -> bool, xs: seq<T>)
    requires TotalPreorder(le)
    ensures (forall ys | multiset(ys) == multiset(xs) :: Sort(le, ys) == Sort(le, xs)) <==> TiesEqual(le, xs)
  {
    if TiesEqual(le, xs) {
      forall ys | multiset(ys) == multiset(xs) ensures Sort(le, ys) == Sort(le, xs) {
        SortPermutes(le, xs);
        SortPermutes(le, ys);
        SortSorts(le, xs);
        SortSorts(le, ys);
        TiesEqualPermutes(le, xs, Sort(le, xs));
        SortedPermutationsEqual(le, Sort(le, xs), Sort(le, ys));
      }
    } else {
      var i, j := TiesShow(le, xs);
    }
  }

  lemma SortOfPermutation<T(!new)>(le: (T, T) -> bool, xs: seq<T>, ys: seq<T>)
    requires TotalPreorder(le) && TiesEqual(le, xs) && multiset(ys) == multiset(xs)
    ensures Sort(le, ys) == Sort(le, xs)
  {
    SortIgnoresOrder(le, xs);
  }

  lemma {:induction false} DedupElements<T>(xs: seq<T>)
    ensures Distinct(Dedup(xs))
    ensures forall x :: x in Dedup(xs) <==> x in xs
  {
    if xs != [] {
      DedupElements(xs[..|xs| - 1]);
      assert xs == xs[..|xs| - 1] + [xs[|xs| - 1]];
    }
  }

  lemma {:induction false} DistinctCount<T>(xs: seq<T>, x: T)
    requires Distinct(xs)
    ensures multiset(xs)[x] == if x in xs then 1 else 0
  {
    if xs != [] {
      DistinctCount(xs[1..], x);
      assert xs == [xs[0]] + xs[1..];
      assert x == xs[0] ==> x !in xs[1..];
    }
  }

  lemma DistinctMultiset<T(!new)>(xs: seq<T>, ys: seq<T>)
    requires Distinct(xs) && Distinct(ys)
    requires forall x :: x in xs <==> x in ys
    ensures multiset(xs) == multiset(ys)
  {
    forall x ensures multiset(xs)[x] == multiset(ys)[x] {
      DistinctCount(xs, x);
      DistinctCount(ys, x);
    }
  }

  /** `UniqueSorted` is the one strictly ascending listing of the set of its input's elements. */
  lemma UniqueSortedListing<T(!new)>(le: (T, T) -> bool, xs: seq<T>)
    requires TotalPreorder(le)
    ensures SortedBy(le, UniqueSorted(le, xs)) && Distinct(UniqueSorted(le, xs))
    ensures forall x :: x in UniqueSorted(le, xs) <==> x in xs
  {
    DedupElements(xs);
    SortSorts(le, Dedup(xs));
    SortPermutes(le, Dedup(xs));
    SameElements(Dedup(xs), Sort(le, Dedup(xs)));
    DistinctPermutes(Dedup(xs), Sort(le, Dedup(xs)));
  }

  lemma DistinctPermutes<T>(xs: seq<T>, ys: seq<T>)
    requires Distinct(xs) && multiset(xs) == multiset(ys)
    ensures Distinct(ys)
  {
    forall i, j | 0 <= i < j < |ys| ensures ys[i] != ys[j] {
      if ys[i] == ys[j] {
        var x := ys[i];
        assert ys == ys[..j] + ys[j..];
        assert ys[..j][i] == x && ys[j..][0] == x;
        assert x in multiset(ys[..j]) && x in multiset(ys[j..]);
        assert multiset(ys)[x] >= 2;
        DistinctCount(xs, x);
      }
    }
  }

  /** Only the set of elements matters to `UniqueSorted`. */
  lemma UniqueSortedBySet<T(!new)>(le: (T, T) -> bool, xs: seq<T>, ys: seq<T>)
    requires TotalOrder(le)
    requires forall x :: x in xs <==> x in ys
    ensures UniqueSorted(le, xs) == UniqueSorted(le, ys)
  {
    DedupElements(xs);
    DedupElements(ys);
    DistinctMultiset(Dedup(xs), Dedup(ys));
    assert TiesEqual(le, Dedup(xs));
    SortIgnoresOrder(le, Dedup(xs));
    assert Sort(le, Dedup(ys)) == Sort(le, Dedup(xs));
    assert UniqueSorted(le, xs) == Sort(le, Dedup(xs));
    assert UniqueSorted(le, ys) == Sort(le, Dedup(ys));
  }

  lemma SortedDistinctUnique<T(!new)>(le: (T, T) -> bool, xs: seq<T>, ys: seq<T>)
    requires TotalOrder(le)
    requires SortedBy(le, xs) && Distinct(xs) && SortedBy(le, ys) && Distinct(ys)
    requires forall x :: x in xs <==> x in ys
    ensures xs == ys
  {
    DistinctMultiset(xs, ys);
    SortedPermutationsEqual(le, xs, ys);
  }

  // ---------------------------------------------------------------------------
  // Mapping over permutations
  // ---------------------------------------------------------------------------

  function Map<T, U>(f: T -> U, xs: seq<T>): (ys: seq<U>)
    ensures |ys| == |xs|
  {
    if xs == [] then [] else [f(xs[0])] + Map(f, xs[1..])
  }

  lemma {:induction false} MapAt<T, U>(f: T -> U, xs: seq<T>, i: nat)
    requires i < |xs|
    ensures Map(f, xs)[i] == f(xs[i])
  {
    if i > 0 { MapAt(f, xs[1..], i - 1); }
  }

  lemma {:induction false} MapAppend<T, U>(f: T -> U, xs: seq<T>, ys: seq<T>)
    ensures Map(f, xs + ys) == Map(f, xs) + Map(f, ys)
  {
    if xs == [] {
      assert xs + ys == ys;
    } else {
      assert (xs + ys)[1..] == xs[1..] + ys;
      MapAppend(f, xs[1..], ys);
    }
  }

  lemma MapOne<T, U>(f: T -> U, x: T)
    ensures Map(f, [x]) == [f(x)]
  {
    assert [x][1..] == [];
  }

  lemma Removal<T>(xs: seq<T>, k: nat)
    requires k < |xs|
    ensures multiset(xs[..k] + xs[k + 1..]) == multiset(xs) - multiset{xs[k]}
  {
    assert xs == xs[..k] + [xs[k]] + xs[k + 1..];
  }

  lemma MapAround<T, U>(f: T -> U, a: seq<T>, y: T, b: seq<T>)
    ensures Map(f, a + [y] + b) == Map(f, a) + [f(y)] + Map(f, b)
    ensures Map(f, a + b) == Map(f, a) + Map(f, b)
  {
    hide Map;
    MapAppend(f, a, b);
    MapAppend(f, a, [y]);
    MapAppend(f, a + [y], b);
    MapOne(f, y);
  }

  lemma MapRemoval<T, U>(f: T -> U, a: seq<T>, y: T, b: seq<T>)
    ensures multiset(Map(f, a + [y] + b)) == multiset{f(y)} + multiset(Map(f, a + b))
  {
    hide Map;
    MapAround(f, a, y, b);
  }

  lemma {:induction false} MapTwice<T, U, V>(f: T -> U, g: U -> V, fg: T -> V, xs: seq<T>)
    requires forall x | x in xs :: fg(x) == g(f(x))
    ensures Map(fg, xs) == Map(g, Map(f, xs))
  {
    if xs != [] {
      assert xs[0] in xs;
      MapTwice(f, g, fg, xs[1..]);
    }
  }

  /** A function that keeps the comparison can be applied before or after sorting. */
  lemma {:induction false} MapSort<T(!new), U(!new)>(f: T -> U, le: (T, T) -> bool, le': (U, U) -> bool, xs: seq<T>)
    requires forall x, y :: le(x, y) == le'(f(x), f(y))
    ensures Map(f, Sort(le, xs)) == Sort(le', Map(f, xs))
  {
    if xs != [] {
      MapSort(f, le, le', xs[1..]);
      MapInsert(f, le, le', xs[0], Sort(le, xs[1..]));
    }
  }

  lemma {:induction false} MapInsert<T(!new), U(!new)>(f: T -> U, le: (T, T) -> bool, le': (U, U) -> bool, x: T, xs: seq<T>)
    requires forall x, y :: le(x, y) == le'(f(x), f(y))
    ensures Map(f, Insert(le, x, xs)) == Insert(le', f(x), Map(f, xs))
  {
    if xs != [] {
      MapInsert(f, le, le', x, xs[1..]);
      assert ([x] + xs)[1..] == xs;
      assert ([xs[0]] + Insert(le, x, xs[1..]))[1..] == Insert(le, x, xs[1..]);
    }
  }

  lemma ExchangePermutes<T>(xs: seq<T>, i: nat, j: nat)
    requires i < |xs| && j < |xs|
    ensures multiset(Exchange(xs, i, j)) == multiset(xs)
  {
  }

  lemma MapExchange<T, U>(f: T -> U, xs: seq<T>, i: nat, j: nat)
    requires i < |xs| && j < |xs|
    ensures Map(f, Exchange(xs, i, j)) == Exchange(Map(f, xs), i, j)
  {
    hide Map;
    var ys := Exchange(xs, i, j);
    forall k | 0 <= k < |xs| ensures Map(f, ys)[k] == Exchange(Map(f, xs), i, j)[k] {
      MapAt(f, ys, k);
      MapAt(f, xs, k);
      MapAt(f, xs, i);
      MapAt(f, xs, j);
    }
  }

  /** Mapping a permutation gives a permutation. */
  lemma {:induction false} MapPermutes<T, U>(f: T -> U, xs: seq<T>, ys: seq<T>)
    requires multiset(xs) == multiset(ys)
    ensures multiset(Map(f, xs)) == multiset(Map(f, ys))
    decreases |xs|
  {
    hide Map;
    assert xs != [] ==> xs == [xs[0]] + xs[1..];
    if xs == [] {
      SameElements(xs, ys);
    } else {
      var x, rest := xs[0], xs[1..];
      var a, b := FindIn(x, rest, ys);
      MapPermutes(f, rest, a + b);
      MapRemoval(f, [], x, rest);
      MapRemoval(f, a, x, b);
      assert xs == [] + [x] + rest && [] + rest == rest;
    }
  }

  lemma FindIn<T>(x: T, rest: seq<T>, ys: seq<T>) returns (a: seq<T>, b: seq<T>)
    requires multiset(ys) == multiset([x] + rest)
    ensures ys == a + [x] + b && multiset(a + b) == multiset(rest)
  {
    SameElements([x] + rest, ys);
    assert ([x] + rest)[0] == x;
    assert x in ys;
    var k :| 0 <= k < |ys| && ys[k] == x;
    a, b := ys[..k], ys[k + 1..];
    Removal(ys, k);
  }
}
