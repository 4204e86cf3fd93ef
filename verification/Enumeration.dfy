/** Ranging over a map: the keys in some order that is not specified, each exactly once. */
module Enumeration {

  ghost predicate Enumerates<K, V>(order: seq<K>, m: map<K, V>) {
    && (forall i :: 0 <= i < |order| ==> order[i] in m)
    && (forall k :: k in m ==> k in order)
    && (forall i, j :: 0 <= i < j < |order| ==> order[i] != order[j])
  }

  method RangeOver<K(==), V>(m: map<K, V>) returns (order: seq<K>)
    ensures Enumerates(order, m)
  {
    order := [];
    var left := m.Keys;
    while left != {}
      invariant left <= m.Keys
      invariant forall i :: 0 <= i < |order| ==> order[i] in m && order[i] !in left
      invariant forall k :: k in m ==> k in left || k in order
      invariant forall i, j :: 0 <= i < j < |order| ==> order[i] != order[j]
      decreases left
    {
      var k :| k in left;
      order, left := order + [k], left - {k};
    }
  }

  lemma {:induction false} EnumerationExists<K, V>(m: map<K, V>)
    ensures exists order :: Enumerates(order, m)
    decreases m.Keys
  {
    if m == map[] {
      assert Enumerates([], m);
    } else {
      var k :| k in m;
      EnumerationExists(m - {k});
      var order :| Enumerates(order, m - {k});
      assert Enumerates(order + [k], m);
    }
  }

  lemma {:induction false} EnumerationLength<K, V>(order: seq<K>, m: map<K, V>)
    requires Enumerates(order, m)
    ensures |order| == |m|
  {
    if order == [] {
      assert m == map[];
    } else {
      var n := |order| - 1;
      var rest := m - {order[n]};
      forall k | k in rest ensures k in order[..n] {
        var i :| 0 <= i < |order| && order[i] == k;
        assert order[..n][i] == k;
      }
      EnumerationLength(order[..n], rest);
      assert m.Keys == rest.Keys + {order[n]};
    }
  }
}
