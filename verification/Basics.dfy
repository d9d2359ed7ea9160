/** Notions shared by the modules. */
module Basics {

  datatype Option<T> = None | Some(value: T)

  ghost predicate Distinct<T>(xs: seq<T>) {
    forall i, j | 0 <= i < j < |xs| :: xs[i] != xs[j]
  }

  function Filter<T>(p: T -> bool, xs: seq<T>): seq<T> {
    if xs == [] then [] else (if p(xs[0]) then [xs[0]] else []) + Filter(p, xs[1..])
  }

  /** The last `n` elements; none for a negative `n`. */
  function LastN<T>(xs: seq<T>, n: int): seq<T> {
    if n <= 0 then [] else if |xs| <= n then xs else xs[|xs| - n..]
  }

  lemma Regroup<T>(a: seq<T>, b: seq<T>, c: seq<T>)
    ensures a + (b + c) == (a + b) + c
  {
  }

  lemma Member<T>(s: set<T>) returns (x: T)
    requires s != {}
    ensures x in s
  {
    x :| x in s;
  }

  /** Some number is not in a finite set. */
  lemma Unused(s: set<nat>) returns (n: nat)
    ensures n !in s
  {
    n := Above(s);
  }

  lemma {:induction false} Above(s: set<nat>) returns (n: nat)
    ensures forall x | x in s :: x < n
  {
    n := 0;
    if s != {} {
      var x := Member(s);
      n := Above(s - {x});
      if n <= x { n := x + 1; }
      assert forall y | y in s :: y == x || y in s - {x};
    }
  }

  /** The elements of a finite set as a list. */
  lemma {:induction false} Listing<T(!new)>(s: set<T>) returns (xs: seq<T>)
    ensures forall x :: x in xs <==> x in s
  {
    xs := [];
    if s != {} {
      var x := Member(s);
      var rest := Listing(s - {x});
      xs := [x] + rest;
    }
  }
}
