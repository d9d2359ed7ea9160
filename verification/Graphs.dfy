/** Reachability in a finite directed graph, given by the list of nodes each node points to. */
module Graphs {

  /** Nodes without an entry point nowhere. */
  type Edges<T> = map<T, seq<T>>

  function Successors<T>(g: Edges<T>, a: T): seq<T> {
    if a in g then g[a] else []
  }

  ghost predicate Path<T>(g: Edges<T>, p: seq<T>) {
    p != [] && forall i | 0 <= i < |p| - 1 :: p[i + 1] in Successors(g, p[i])
  }

  ghost predicate PathFrom<T>(g: Edges<T>, a: T, p: seq<T>, b: T) {
    Path(g, p) && p[0] == a && p[|p| - 1] == b
  }

  ghost predicate CanReach<T(!new)>(g: Edges<T>, a: T, b: T) {
    exists p :: PathFrom(g, a, p, b)
  }

  /** Everything the nodes of `fs` point to is in `within`. */
  ghost predicate ClosedIn<T(!new)>(g: Edges<T>, fs: set<T>, within: set<T>) {
    forall f, d | f in fs && d in Successors(g, f) :: d in within
  }

  lemma ReachSelf<T(!new)>(g: Edges<T>, a: T)
    ensures CanReach(g, a, a)
  {
    assert PathFrom(g, a, [a], a);
  }

  lemma ReachStep<T(!new)>(g: Edges<T>, a: T, d: T, b: T)
    requires d in Successors(g, a) && CanReach(g, d, b)
    ensures CanReach(g, a, b)
  {
    var p :| PathFrom(g, d, p, b);
    var q := [a] + p;
    forall i | 0 <= i < |q| - 1 ensures q[i + 1] in Successors(g, q[i]) {
      if i > 0 { assert p[i] in Successors(g, p[i - 1]); }
    }
    assert PathFrom(g, a, q, b);
  }

  lemma PathTail<T>(g: Edges<T>, p: seq<T>)
    requires Path(g, p) && |p| > 1
    ensures Path(g, p[1..]) && p[1] in Successors(g, p[0])
  {
    assert p[0 + 1] in Successors(g, p[0]);
    forall i | 0 <= i < |p[1..]| - 1 ensures p[1..][i + 1] in Successors(g, p[1..][i]) {
      assert p[i + 1 + 1] in Successors(g, p[i + 1]);
    }
  }

  /** A set closed under the edges contains everything reachable from its members. */
  lemma {:induction false} ClosedContains<T(!new)>(g: Edges<T>, fs: set<T>, p: seq<T>, b: T)
    requires ClosedIn(g, fs, fs) && p != [] && p[0] in fs && PathFrom(g, p[0], p, b)
    ensures b in fs
  {
    if |p| > 1 {
      PathTail(g, p);
      ClosedContains(g, fs, p[1..], b);
    }
  }

  lemma ReachedIn<T(!new)>(g: Edges<T>, fs: set<T>, a: T, b: T)
    requires ClosedIn(g, fs, fs) && a in fs && CanReach(g, a, b)
    ensures b in fs
  {
    var p :| PathFrom(g, a, p, b);
    ClosedContains(g, fs, p, b);
  }

  lemma ReachOn<T(!new)>(g: Edges<T>, a: T, f: T, d: T)
    requires CanReach(g, a, f) && d in Successors(g, f)
    ensures CanReach(g, a, d)
  {
    var p :| PathFrom(g, a, p, f);
    var q := p + [d];
    forall i | 0 <= i < |q| - 1 ensures q[i + 1] in Successors(g, q[i]) {
      if i < |p| - 1 { assert p[i + 1] in Successors(g, p[i]); }
    }
    assert PathFrom(g, a, q, d);
  }

  /**
    What a node reaches is the least set with the node itself and with whatever the entries of its members
    point to.
   */
  lemma ReachIsLeast<T(!new)>(g: Edges<T>, a: T, within: set<T>)
    ensures CanReach(g, a, a)
    ensures forall f, d | CanReach(g, a, f) && f in g && d in g[f] :: CanReach(g, a, d)
    ensures a in within && (forall f, d | f in within && f in g && d in g[f] :: d in within) ==>
              forall b | CanReach(g, a, b) :: b in within
  {
    hide CanReach;
    ReachSelf(g, a);
    forall f, d | CanReach(g, a, f) && f in g && d in g[f] ensures CanReach(g, a, d) { ReachOn(g, a, f, d); }
    if a in within && forall f, d | f in within && f in g && d in g[f] :: d in within {
      forall b | CanReach(g, a, b) ensures b in within { ReachedIn(g, within, a, b); }
    }
  }
}
