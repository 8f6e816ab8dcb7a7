/** `sorted(range(n), key=lambda i: angles[i])`: the indices of a list in ascending order of their
    angle. Python's sort is stable, so equal angles keep ascending index order. */
module IndexSort {

  /** Index `x` comes before index `y` in the stable ascending order of `t`. */
  predicate Before(t: seq<real>, x: nat, y: nat)
    requires x < |t| && y < |t|
  {
    t[x] < t[y] || (t[x] == t[y] && x < y)
  }

  /** `order` lists indices of `t`, each strictly before the next in the stable order. */
  predicate Ascending(t: seq<real>, order: seq<nat>)
  {
    && (forall k :: 0 <= k < |order| ==> order[k] < |t|)
    && (forall k, l :: 0 <= k < l < |order| ==> Before(t, order[k], order[l]))
  }

  /** `order` is the result of the stable sort: every index of `t` exactly once, ascending. */
  predicate IsStableOrder(t: seq<real>, order: seq<nat>)
  {
    && |order| == |t|
    && Ascending(t, order)
    && forall x: nat :: x < |t| ==> x in order
  }

  /** Inserts index `x` into the ascending `order`, before the first index it precedes. */
  function Insert(t: seq<real>, x: nat, order: seq<nat>): (r: seq<nat>)
    requires x < |t| && Ascending(t, order) && x !in order
    ensures |r| == |order| + 1
    ensures forall y :: y in r <==> y == x || y in order
    ensures Ascending(t, r)
  {
    if |order| == 0 then [x]
    else if Before(t, x, order[0]) then
      assert forall k :: 0 < k < |order| ==> Before(t, order[0], order[k]);
      [x] + order
    else
      var rest := Insert(t, x, order[1..]);
      assert Ascending(t, order[1..]);
      assert forall y :: y in rest ==> Before(t, order[0], y) by {
        forall y | y in rest
          ensures Before(t, order[0], y)
        {
          if y != x {
            var k :| 0 <= k < |order[1..]| && order[1..][k] == y;
            assert order[k + 1] == y;
          }
        }
      }
      var r := [order[0]] + rest;
      assert forall k :: 0 < k < |r| ==> r[k] == rest[k - 1] && r[k] in rest;
      r
  }

  /** The indices `0 .. n-1` of `t` in stable ascending order. */
  function SortIndicesUpTo(t: seq<real>, n: nat): (r: seq<nat>)
    requires n <= |t|
    ensures |r| == n
    ensures Ascending(t, r)
    ensures forall y: nat :: y in r <==> y < n
  {
    if n == 0 then [] else Insert(t, n - 1, SortIndicesUpTo(t, n - 1))
  }

  /** The stable ascending order of all indices of `t`. */
  function SortIndices(t: seq<real>): (r: seq<nat>)
    ensures IsStableOrder(t, r)
  {
    SortIndicesUpTo(t, |t|)
  }

  /** In a stable order, position order and `Before` agree: the order is fully determined. */
  lemma PositionsFollowOrder(t: seq<real>, order: seq<nat>, u: nat, v: nat)
    requires Ascending(t, order) && u < |order| && v < |order|
    ensures Before(t, order[u], order[v]) <==> u < v
  {
    if v < u {
      assert Before(t, order[v], order[u]);
    }
  }

  /** A stable order never lists an index twice. */
  lemma OrderIsInjective(t: seq<real>, order: seq<nat>)
    requires Ascending(t, order)
    ensures forall u, v :: 0 <= u < v < |order| ==> order[u] != order[v]
  {
  }

  /** A stable order lists angles in non-decreasing order. */
  lemma OrderSortsAngles(t: seq<real>, order: seq<nat>)
    requires Ascending(t, order)
    ensures forall u, v :: 0 <= u <= v < |order| ==> t[order[u]] <= t[order[v]]
  {
    forall u, v | 0 <= u <= v < |order|
      ensures t[order[u]] <= t[order[v]]
    {
      if u < v {
        assert Before(t, order[u], order[v]);
      }
    }
  }

  /** There is only one stable order of a given list, so any stable sort (Python's included)
      produces exactly `SortIndices`. */
  lemma StableOrderIsUnique(t: seq<real>, o1: seq<nat>, o2: seq<nat>)
    requires IsStableOrder(t, o1) && IsStableOrder(t, o2)
    ensures o1 == o2
  {
    AscendingSameElements(t, o1, o2);
  }

  /** Two ascending orders listing the same indices are the same sequence. */
  lemma {:induction false} AscendingSameElements(t: seq<real>, o1: seq<nat>, o2: seq<nat>)
    requires Ascending(t, o1) && Ascending(t, o2)
    requires forall x :: x in o1 <==> x in o2
    ensures o1 == o2
    decreases |o1|
  {
    if |o1| == 0 {
      HeadIsListed(o2);
    } else {
      assert o1[0] in o2;
      assert o2[0] in o1;
      var m :| 0 <= m < |o2| && o2[m] == o1[0];
      var m' :| 0 <= m' < |o1| && o1[m'] == o2[0];
      PositionsFollowOrder(t, o2, 0, m);
      PositionsFollowOrder(t, o1, 0, m');
      assert o1[0] == o2[0];
      var h := o1[0];
      assert Ascending(t, o1[1..]) && Ascending(t, o2[1..]);
      forall x
        ensures x in o1[1..] <==> x in o2[1..]
      {
        InTail(t, o1, x);
        InTail(t, o2, x);
      }
      AscendingSameElements(t, o1[1..], o2[1..]);
      assert o1 == [h] + o1[1..] && o2 == [h] + o2[1..];
    }
  }

  lemma HeadIsListed(o: seq<nat>)
    ensures |o| > 0 ==> o[0] in o
  {
  }

  /** The tail of a non-empty ascending order holds every listed index except the head. */
  lemma InTail(t: seq<real>, o: seq<nat>, x: nat)
    requires Ascending(t, o) && |o| > 0
    ensures x in o[1..] <==> x in o && x != o[0]
  {
    if x in o[1..] {
      var k :| 0 <= k < |o[1..]| && o[1..][k] == x;
      assert o[k + 1] == x;
      assert Before(t, o[0], o[k + 1]);
    }
    if x in o && x != o[0] {
      var k :| 0 <= k < |o| && o[k] == x;
      assert o[1..][k - 1] == x;
    }
  }
}
