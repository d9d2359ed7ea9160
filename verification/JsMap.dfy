/**
  The JavaScript `Map`: a dictionary that remembers insertion order. Setting a key that is present
  keeps its place; deleting and setting it again moves it to the end.
 */
module JsMaps {

  datatype JsMap<K, V> = JsMap(order: seq<K>, at: map<K, V>) {

    ghost predicate Valid() {
      && (forall i | 0 <= i < |order| :: order[i] in at && forall j | i < j < |order| :: order[i] != order[j])
      && (forall k | k in at :: k in order)
    }
  }

  function Without<K(==)>(order: seq<K>, k: K): seq<K> {
    if order == [] then []
    else if order[0] == k then order[1..]
    else [order[0]] + Without(order[1..], k)
  }

  function Put<K, V>(m: JsMap<K, V>, k: K, v: V): JsMap<K, V> {
    JsMap(if k in m.at then m.order else m.order + [k], m.at[k := v])
  }

  function Delete<K, V>(m: JsMap<K, V>, k: K): JsMap<K, V> {
    JsMap(Without(m.order, k), m.at - {k})
  }

  /** The entries left in a map that evicts while it is at its cap and then inserts: at least the new one. */
  function Kept(cap: int): nat { if cap < 1 then 1 else cap }

  lemma {:induction false} WithoutElements<K(!new)>(order: seq<K>, k: K)
    requires forall i, j | 0 <= i < j < |order| :: order[i] != order[j]
    ensures forall x :: x in Without(order, k) <==> x in order && x != k
    ensures forall i, j | 0 <= i < j < |Without(order, k)| :: Without(order, k)[i] != Without(order, k)[j]
    ensures |Without(order, k)| == |order| - (if k in order then 1 else 0)
  {
    if order != [] {
      assert order == [order[0]] + order[1..];
      if order[0] == k {
        assert k !in order[1..];
      } else {
        WithoutElements(order[1..], k);
        assert order[0] !in order[1..];
      }
    }
  }

  /** Removing a key closes its gap and moves nothing else. */
  lemma {:induction false} WithoutSplits<K(!new)>(order: seq<K>, k: K) returns (i: nat)
    ensures i <= |order| && forall j | 0 <= j < i :: order[j] != k
    ensures i == |order| ==> Without(order, k) == order
    ensures i < |order| ==> order[i] == k && Without(order, k) == order[..i] + order[i + 1..]
  {
    i := 0;
    if order != [] && order[0] != k {
      var j := WithoutSplits(order[1..], k);
      i := j + 1;
      assert order == [order[0]] + order[1..];
      forall m | 0 <= m < i ensures order[m] != k {
        if m > 0 { assert order[m] == order[1..][m - 1]; }
      }
      if i < |order| { assert order[..i] + order[i + 1..] == [order[0]] + (order[1..][..j] + order[1..][j + 1..]); }
    }
  }

  lemma PutValid<K(!new), V>(m: JsMap<K, V>, k: K, v: V)
    requires m.Valid()
    ensures Put(m, k, v).Valid()
  {
    var n := Put(m, k, v);
    forall x | x in n.at ensures x in n.order {
      if x == k && k !in m.at {
        assert n.order[|m.order|] == k;
      } else {
        assert x in m.order;
      }
    }
  }

  lemma DeleteValid<K(!new), V>(m: JsMap<K, V>, k: K)
    requires m.Valid()
    ensures Delete(m, k).Valid()
    ensures m.order != [] && k == m.order[0] ==> Delete(m, k).order == m.order[1..]
  {
    WithoutElements(m.order, k);
    var n := Delete(m, k);
    forall i | 0 <= i < |n.order| ensures n.order[i] in n.at {
      assert n.order[i] in n.order;
      assert n.order[i] in m.order;
    }
  }
}
