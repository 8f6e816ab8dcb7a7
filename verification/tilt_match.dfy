/** `match_tilts`: pairs alignment tilts with polished projection tilts by a dynamic program over
    both lists in ascending angle order, choosing an order-preserving matching of least total
    absolute angle difference, then rebuilds `{aln_index: proj_index}` by backtracking. */
module TiltMatch {
  import opened IndexSort

  /** A DP cell: a finite total, or Python's `float('inf')`. */
  datatype Cost = Finite(value: real) | Infinite

  function Abs(x: real): (r: real)
    ensures r >= 0.0 && (r == x || r == -x)
  {
    if x < 0.0 then -x else x
  }

  /** `c + d` where `c` may be `inf`. */
  function AddCost(c: Cost, d: real): Cost
  {
    match c
    case Infinite => Infinite
    case Finite(v) => Finite(v + d)
  }

  /** Python's strict `c < d` where either side may be `inf` (`inf < inf` is false). */
  predicate Cheaper(c: Cost, d: Cost)
  {
    c.Finite? && (d.Infinite? || c.value < d.value)
  }

  /** The angles of `t` listed in the order `order`. */
  function Arrange(t: seq<real>, order: seq<nat>): (r: seq<real>)
    requires forall k :: 0 <= k < |order| ==> order[k] < |t|
    ensures |r| == |order| && forall k :: 0 <= k < |order| ==> r[k] == t[order[k]]
  {
    seq(|order|, k requires 0 <= k < |order| => t[order[k]])
  }

  /** `dp[i][j]` for the sorted alignment angles `a` and sorted projection angles `p`:
      zero when no projection is left, `inf` when projections remain but no alignment tilt,
      otherwise the cheaper of skipping alignment tilt `j-1` and matching it with projection
      `i-1`; on a tie, skipping. */
  function Best(a: seq<real>, p: seq<real>, i: nat, j: nat): Cost
    requires i <= |p| && j <= |a|
    decreases j
  {
    if i == 0 then Finite(0.0)
    else if j == 0 then Infinite
    else
      var skip := Best(a, p, i, j - 1);
      var take := AddCost(Best(a, p, i - 1, j - 1), Abs(p[i - 1] - a[j - 1]));
      if Cheaper(take, skip) then take else skip
  }

  /** The cost of matching sorted projection `i-1` with sorted alignment tilt `j-1` after the
      best matching of the shorter prefixes. */
  function TakeCost(a: seq<real>, p: seq<real>, i: nat, j: nat): Cost
    requires 1 <= i <= |p| && 1 <= j <= |a|
  {
    AddCost(Best(a, p, i - 1, j - 1), Abs(p[i - 1] - a[j - 1]))
  }

  /** `backtrack[i][j] == 1`: matching is strictly cheaper than skipping. */
  predicate Takes(a: seq<real>, p: seq<real>, i: nat, j: nat)
    requires 1 <= i <= |p| && 1 <= j <= |a|
  {
    Cheaper(TakeCost(a, p, i, j), Best(a, p, i, j - 1))
  }

  /** The alignment positions the backtracking loop assigns to sorted projections `0 .. i-1`,
      starting from cell `(i, j)`. */
  function Trace(a: seq<real>, p: seq<real>, i: nat, j: nat): seq<nat>
    requires i <= |p| && j <= |a|
    decreases j
  {
    if i == 0 || j == 0 then []
    else if Takes(a, p, i, j) then Trace(a, p, i - 1, j - 1) + [j - 1]
    else Trace(a, p, i, j - 1)
  }

  /** `s` matches sorted projection `k` with sorted alignment tilt `s[k]`, for each of the first
      `i` projections, into the first `j` alignment tilts, preserving order. */
  predicate IsMonotoneMatching(s: seq<nat>, i: nat, j: nat)
  {
    && |s| == i
    && (forall k :: 0 <= k < i ==> s[k] < j)
    && (forall k, l :: 0 <= k < l < i ==> s[k] < s[l])
  }

  /** Total absolute angle difference of the matching `s`. */
  function TotalDiff(a: seq<real>, p: seq<real>, s: seq<nat>): (r: real)
    requires |s| <= |p| && forall k :: 0 <= k < |s| ==> s[k] < |a|
    ensures r >= 0.0
  {
    if |s| == 0 then 0.0
    else TotalDiff(a, p, s[..|s| - 1]) + Abs(p[|s| - 1] - a[s[|s| - 1]])
  }

  /** A cell is finite exactly when there are at least as many alignment tilts as projections. */
  lemma {:induction false} BestFiniteIff(a: seq<real>, p: seq<real>, i: nat, j: nat)
    requires i <= |p| && j <= |a|
    ensures Best(a, p, i, j).Finite? <==> i <= j
    decreases j
  {
    if i > 0 && j > 0 {
      BestFiniteIff(a, p, i, j - 1);
      BestFiniteIff(a, p, i - 1, j - 1);
    }
  }

  /** From a feasible cell the loop only skips when the smaller cell is still feasible. */
  lemma SkipStaysFeasible(a: seq<real>, p: seq<real>, i: nat, j: nat)
    requires 1 <= i <= j <= |a| && i <= |p|
    requires !Takes(a, p, i, j)
    ensures i <= j - 1
  {
    BestFiniteIff(a, p, i, j - 1);
    BestFiniteIff(a, p, i - 1, j - 1);
  }

  lemma TotalDiffSnoc(a: seq<real>, p: seq<real>, s: seq<nat>, x: nat)
    requires |s| < |p| && x < |a| && forall k :: 0 <= k < |s| ==> s[k] < |a|
    ensures TotalDiff(a, p, s + [x]) == TotalDiff(a, p, s) + Abs(p[|s|] - a[x])
  {
    assert (s + [x])[..|s|] == s;
  }

  /** One unfolding of `dp` and of the backtracking path at an inner cell. */
  lemma CellStep(a: seq<real>, p: seq<real>, i: nat, j: nat)
    requires 1 <= i <= |p| && 1 <= j <= |a|
    ensures Takes(a, p, i, j) ==> (Best(a, p, i, j) == TakeCost(a, p, i, j)
      && Trace(a, p, i, j) == Trace(a, p, i - 1, j - 1) + [j - 1])
    ensures !Takes(a, p, i, j) ==> (Best(a, p, i, j) == Best(a, p, i, j - 1)
      && Trace(a, p, i, j) == Trace(a, p, i, j - 1))
  {
  }

  /** Backtracking from cell `(i, j)` only names alignment positions below `j`. */
  lemma {:induction false} TraceBelow(a: seq<real>, p: seq<real>, i: nat, j: nat)
    requires i <= |p| && j <= |a|
    ensures forall k :: 0 <= k < |Trace(a, p, i, j)| ==> Trace(a, p, i, j)[k] < j
    decreases j
  {
    if i > 0 && j > 0 {
      CellStep(a, p, i, j);
      if Takes(a, p, i, j) {
        var t := Trace(a, p, i - 1, j - 1);
        TraceBelow(a, p, i - 1, j - 1);
        var u := t + [j - 1];
        assert Trace(a, p, i, j) == u;
        forall k | 0 <= k < |u|
          ensures u[k] < j
        {
          if k < |t| {
            assert u[k] == t[k];
          }
        }
      } else {
        TraceBelow(a, p, i, j - 1);
      }
    }
  }

  /** A tie between matching and skipping is not strictly cheaper, so the table keeps the skip:
      the cost comes from the cell to the left and alignment tilt `j-1` stays unmatched there. */
  lemma TieSkips(a: seq<real>, p: seq<real>, i: nat, j: nat)
    requires 1 <= i <= |p| && 1 <= j <= |a|
    requires TakeCost(a, p, i, j) == Best(a, p, i, j - 1)
    ensures !Takes(a, p, i, j)
    ensures Best(a, p, i, j) == Best(a, p, i, j - 1)
    ensures Trace(a, p, i, j) == Trace(a, p, i, j - 1)
    ensures j - 1 !in Trace(a, p, i, j)
  {
    CellStep(a, p, i, j);
    TraceBelow(a, p, i, j - 1);
  }

  /** From a feasible cell, backtracking matches every one of the `i` projections, in order. */
  lemma {:induction false} TraceIsMatching(a: seq<real>, p: seq<real>, i: nat, j: nat)
    requires i <= j && i <= |p| && j <= |a|
    ensures IsMonotoneMatching(Trace(a, p, i, j), i, j)
    decreases j
  {
    if i > 0 {
      CellStep(a, p, i, j);
      if Takes(a, p, i, j) {
        TraceIsMatching(a, p, i - 1, j - 1);
        ExtendMatching(Trace(a, p, i - 1, j - 1), i - 1, j - 1);
      } else {
        SkipStaysFeasible(a, p, i, j);
        TraceIsMatching(a, p, i, j - 1);
        WidenMatching(Trace(a, p, i, j - 1), i, j - 1);
      }
    }
  }

  /** From a feasible cell, the backtracked matching costs exactly the cell's value. */
  lemma {:induction false} TraceAttainsBest(a: seq<real>, p: seq<real>, i: nat, j: nat)
    requires i <= j && i <= |p| && j <= |a|
    ensures IsMonotoneMatching(Trace(a, p, i, j), i, j)
    ensures Best(a, p, i, j).Finite? && TotalDiff(a, p, Trace(a, p, i, j)) == Best(a, p, i, j).value
    decreases j
  {
    TraceIsMatching(a, p, i, j);
    BestFiniteIff(a, p, i, j);
    if i == 0 {
      assert Trace(a, p, i, j) == [];
    } else {
      CellStep(a, p, i, j);
      if Takes(a, p, i, j) {
        var t := Trace(a, p, i - 1, j - 1);
        TraceAttainsBest(a, p, i - 1, j - 1);
        TotalDiffSnoc(a, p, t, j - 1);
      } else {
        SkipStaysFeasible(a, p, i, j);
        TraceAttainsBest(a, p, i, j - 1);
      }
    }
  }

  lemma WidenMatching(t: seq<nat>, i: nat, j: nat)
    requires IsMonotoneMatching(t, i, j)
    ensures IsMonotoneMatching(t, i, j + 1)
  {
  }

  lemma ExtendMatching(t: seq<nat>, i: nat, j: nat)
    requires IsMonotoneMatching(t, i, j)
    ensures IsMonotoneMatching(t + [j], i + 1, j + 1)
  {
  }

  /** A cell is never worse than skipping its alignment tilt. */
  lemma BestBelowSkip(a: seq<real>, p: seq<real>, i: nat, j: nat, bound: real)
    requires 1 <= i <= |p| && 1 <= j <= |a|
    requires Best(a, p, i, j - 1).Finite? && Best(a, p, i, j - 1).value <= bound
    ensures Best(a, p, i, j).Finite? && Best(a, p, i, j).value <= bound
  {
  }

  /** A cell is never worse than matching its projection with its alignment tilt. */
  lemma BestBelowTake(a: seq<real>, p: seq<real>, i: nat, j: nat, bound: real)
    requires 1 <= i <= |p| && 1 <= j <= |a|
    requires Best(a, p, i - 1, j - 1).Finite?
    requires Best(a, p, i - 1, j - 1).value + Abs(p[i - 1] - a[j - 1]) <= bound
    ensures Best(a, p, i, j).Finite? && Best(a, p, i, j).value <= bound
  {
  }

  /** Dropping the last pair of a matching whose last alignment position is `j-1` leaves a
      matching of one projection fewer into `j-1` alignment tilts. */
  lemma DropLastPair(a: seq<real>, p: seq<real>, s: seq<nat>, i: nat, j: nat)
    requires 1 <= i <= |p| && 1 <= j <= |a|
    requires IsMonotoneMatching(s, i, j) && s[i - 1] == j - 1
    ensures IsMonotoneMatching(s[..i - 1], i - 1, j - 1)
    ensures TotalDiff(a, p, s) == TotalDiff(a, p, s[..i - 1]) + Abs(p[i - 1] - a[j - 1])
  {
    var s' := s[..i - 1];
    forall k | 0 <= k < i - 1
      ensures s'[k] < j - 1
    {
      assert s[k] < s[i - 1];
    }
  }

  /** A matching whose last alignment position is below `j-1` fits in `j-1` alignment tilts. */
  lemma NarrowMatching(s: seq<nat>, i: nat, j: nat)
    requires 1 <= i && 1 <= j
    requires IsMonotoneMatching(s, i, j) && s[i - 1] < j - 1
    ensures IsMonotoneMatching(s, i, j - 1)
  {
    forall k | 0 <= k < i
      ensures s[k] < j - 1
    {
      assert k == i - 1 || s[k] < s[i - 1];
    }
  }

  /** No order-preserving matching of the first `i` projections into the first `j` alignment
      tilts costs less than `dp[i][j]`. */
  lemma {:induction false} BestIsMinimal(a: seq<real>, p: seq<real>, i: nat, j: nat, s: seq<nat>)
    requires i <= |p| && j <= |a|
    requires IsMonotoneMatching(s, i, j)
    ensures Best(a, p, i, j).Finite? && Best(a, p, i, j).value <= TotalDiff(a, p, s)
    decreases j
  {
    if i == 0 {
      assert s == [];
    } else {
      assert s[0] < j;
      if s[i - 1] < j - 1 {
        NarrowMatching(s, i, j);
        BestIsMinimal(a, p, i, j - 1, s);
        BestBelowSkip(a, p, i, j, TotalDiff(a, p, s));
      } else {
        DropLastPair(a, p, s, i, j);
        BestIsMinimal(a, p, i - 1, j - 1, s[..i - 1]);
        BestBelowTake(a, p, i, j, TotalDiff(a, p, s));
      }
    }
  }

  /** `{aln_order[s[k]]: proj_order[k]}` for `k` from `from` up: the dictionary the backtracking
      loop has built once it has moved down to row `from`. */
  function Entries(alnOrder: seq<nat>, projOrder: seq<nat>, s: seq<nat>, from: nat): map<nat, nat>
    requires from <= |s| <= |projOrder|
    requires forall k :: 0 <= k < |s| ==> s[k] < |alnOrder|
    decreases |s| - from
  {
    if from == |s| then map[]
    else Entries(alnOrder, projOrder, s, from + 1)[alnOrder[s[from]] := projOrder[from]]
  }

  /** The pure reading of `match_tilts`: empty when there is no projection or more projections than
      alignment tilts, otherwise the backtracked optimal matching mapped back to original indices. */
  function MatchSpec(alnTilts: seq<real>, projTilts: seq<real>): map<nat, nat>
  {
    var nAln := |alnTilts|;
    var nProj := |projTilts|;
    if nProj == 0 || nAln < nProj then map[]
    else
      var alnOrder := SortIndices(alnTilts);
      var projOrder := SortIndices(projTilts);
      var a := Arrange(alnTilts, alnOrder);
      var p := Arrange(projTilts, projOrder);
      TraceIsMatching(a, p, nProj, nAln);
      Entries(alnOrder, projOrder, Trace(a, p, nProj, nAln), 0)
  }

  /** What `match_tilts` promises of its dictionary: indices in range, no projection used twice,
      and pairs in the same relative order on both sides (stable ascending angle order). */
  ghost predicate IsTiltMatching(alnTilts: seq<real>, projTilts: seq<real>, m: map<nat, nat>)
  {
    && (forall x :: x in m ==> x < |alnTilts| && m[x] < |projTilts|)
    && (forall x, y :: x in m && y in m && x != y ==> m[x] != m[y])
    && (forall x, y :: x in m && y in m ==> (Before(alnTilts, x, y) <==> Before(projTilts, m[x], m[y])))
  }

  /** Every projection index is matched: the case whenever the dictionary is not empty. */
  ghost predicate CoversProjections(projTilts: seq<real>, m: map<nat, nat>)
  {
    forall q: nat :: q < |projTilts| ==> q in m.Values
  }

  /** With an injective key order and a strictly increasing `s`, the dictionary holds exactly the
      pairs `aln_order[s[k]] -> proj_order[k]`. */
  lemma {:induction false} EntriesHold(alnOrder: seq<nat>, projOrder: seq<nat>, s: seq<nat>, from: nat)
    requires from <= |s| <= |projOrder|
    requires forall k :: 0 <= k < |s| ==> s[k] < |alnOrder|
    requires forall k, l :: from <= k < l < |s| ==> alnOrder[s[k]] != alnOrder[s[l]]
    ensures var m := Entries(alnOrder, projOrder, s, from);
      && (forall k :: from <= k < |s| ==> alnOrder[s[k]] in m && m[alnOrder[s[k]]] == projOrder[k])
      && (forall x :: x in m ==> exists k :: from <= k < |s| && x == alnOrder[s[k]])
    decreases |s| - from
  {
    if from < |s| {
      EntriesHold(alnOrder, projOrder, s, from + 1);
    }
  }

  /** The two orders are injective and `s` strictly increasing, so the keys
      `aln_order[s[k]]` are pairwise distinct. */
  lemma DistinctKeys(alnTilts: seq<real>, alnOrder: seq<nat>, s: seq<nat>, i: nat)
    requires Ascending(alnTilts, alnOrder)
    requires IsMonotoneMatching(s, i, |alnOrder|)
    ensures forall k, l :: 0 <= k < l < |s| ==> alnOrder[s[k]] != alnOrder[s[l]]
  {
    OrderIsInjective(alnTilts, alnOrder);
  }

  /** The premises shared by the facts about `Entries` below. */
  ghost predicate EntriesPremise(alnTilts: seq<real>, projTilts: seq<real>,
                                 alnOrder: seq<nat>, projOrder: seq<nat>, s: seq<nat>)
  {
    && IsStableOrder(alnTilts, alnOrder) && IsStableOrder(projTilts, projOrder)
    && IsMonotoneMatching(s, |projTilts|, |alnTilts|)
  }

  /** The keys of `Entries` are in-range alignment indices mapped to distinct in-range projection
      indices. */
  lemma EntriesInjective(alnTilts: seq<real>, projTilts: seq<real>,
                         alnOrder: seq<nat>, projOrder: seq<nat>, s: seq<nat>)
    requires EntriesPremise(alnTilts, projTilts, alnOrder, projOrder, s)
    ensures var m := Entries(alnOrder, projOrder, s, 0);
      && (forall x :: x in m ==> x < |alnTilts| && m[x] < |projTilts|)
      && (forall x, y :: x in m && y in m && x != y ==> m[x] != m[y])
  {
    var m := Entries(alnOrder, projOrder, s, 0);
    DistinctKeys(alnTilts, alnOrder, s, |projTilts|);
    EntriesHold(alnOrder, projOrder, s, 0);
    OrderIsInjective(projTilts, projOrder);
    forall x | x in m
      ensures x < |alnTilts| && m[x] < |projTilts|
    {
      var k :| 0 <= k < |s| && x == alnOrder[s[k]];
    }
    forall x, y | x in m && y in m && x != y
      ensures m[x] != m[y]
    {
      var k :| 0 <= k < |s| && x == alnOrder[s[k]];
      var l :| 0 <= l < |s| && y == alnOrder[s[l]];
      assert k != l;
    }
  }

  /** `Entries` pairs alignment and projection indices in the same stable order. */
  lemma EntriesKeepOrder(alnTilts: seq<real>, projTilts: seq<real>,
                         alnOrder: seq<nat>, projOrder: seq<nat>, s: seq<nat>)
    requires EntriesPremise(alnTilts, projTilts, alnOrder, projOrder, s)
    ensures var m := Entries(alnOrder, projOrder, s, 0);
      forall x, y :: x in m && y in m ==>
        x < |alnTilts| && y < |alnTilts| && m[x] < |projTilts| && m[y] < |projTilts|
        && (Before(alnTilts, x, y) <==> Before(projTilts, m[x], m[y]))
  {
    var m := Entries(alnOrder, projOrder, s, 0);
    DistinctKeys(alnTilts, alnOrder, s, |projTilts|);
    EntriesHold(alnOrder, projOrder, s, 0);
    forall x, y | x in m && y in m
      ensures x < |alnTilts| && y < |alnTilts| && m[x] < |projTilts| && m[y] < |projTilts|
      ensures Before(alnTilts, x, y) <==> Before(projTilts, m[x], m[y])
    {
      var k :| 0 <= k < |s| && x == alnOrder[s[k]];
      var l :| 0 <= l < |s| && y == alnOrder[s[l]];
      PositionsFollowOrder(alnTilts, alnOrder, s[k], s[l]);
      PositionsFollowOrder(projTilts, projOrder, k, l);
      assert s[k] < s[l] <==> k < l;
    }
  }

  /** `Entries` of a matching of all projections uses every projection index. */
  lemma EntriesCover(alnTilts: seq<real>, projTilts: seq<real>,
                     alnOrder: seq<nat>, projOrder: seq<nat>, s: seq<nat>)
    requires EntriesPremise(alnTilts, projTilts, alnOrder, projOrder, s)
    ensures CoversProjections(projTilts, Entries(alnOrder, projOrder, s, 0))
  {
    var m := Entries(alnOrder, projOrder, s, 0);
    DistinctKeys(alnTilts, alnOrder, s, |projTilts|);
    EntriesHold(alnOrder, projOrder, s, 0);
    forall q: nat | q < |projTilts|
      ensures q in m.Values
    {
      assert q in projOrder;
      var k :| 0 <= k < |projOrder| && projOrder[k] == q;
      assert m[alnOrder[s[k]]] == q;
    }
  }

  /** Mapping a full order-preserving matching of sorted positions back through both stable orders
      gives a tilt matching that uses every projection. */
  lemma EntriesAreTiltMatching(alnTilts: seq<real>, projTilts: seq<real>,
                               alnOrder: seq<nat>, projOrder: seq<nat>, s: seq<nat>)
    requires EntriesPremise(alnTilts, projTilts, alnOrder, projOrder, s)
    ensures IsTiltMatching(alnTilts, projTilts, Entries(alnOrder, projOrder, s, 0))
    ensures CoversProjections(projTilts, Entries(alnOrder, projOrder, s, 0))
  {
    EntriesInjective(alnTilts, projTilts, alnOrder, projOrder, s);
    EntriesKeepOrder(alnTilts, projTilts, alnOrder, projOrder, s);
    EntriesCover(alnTilts, projTilts, alnOrder, projOrder, s);
  }

  /** `match_tilts` returns a tilt matching; it is empty exactly when there is no projection or
      more projections than alignment tilts, and otherwise every projection is matched. */
  lemma MatchSpecProperties(alnTilts: seq<real>, projTilts: seq<real>)
    ensures IsTiltMatching(alnTilts, projTilts, MatchSpec(alnTilts, projTilts))
    ensures MatchSpec(alnTilts, projTilts) == map[] <==> |projTilts| == 0 || |alnTilts| < |projTilts|
    ensures 0 < |projTilts| <= |alnTilts| ==> CoversProjections(projTilts, MatchSpec(alnTilts, projTilts))
  {
    var nAln := |alnTilts|;
    var nProj := |projTilts|;
    if 0 < nProj <= nAln {
      var alnOrder := SortIndices(alnTilts);
      var projOrder := SortIndices(projTilts);
      var a := Arrange(alnTilts, alnOrder);
      var p := Arrange(projTilts, projOrder);
      var s := Trace(a, p, nProj, nAln);
      TraceIsMatching(a, p, nProj, nAln);
      EntriesAreTiltMatching(alnTilts, projTilts, alnOrder, projOrder, s);
      var m := MatchSpec(alnTilts, projTilts);
      assert m == Entries(alnOrder, projOrder, s, 0);
      assert 0 in m.Values;
    }
  }

  /** A list's angles in ascending stable order. */
  function Sorted(t: seq<real>): (r: seq<real>)
    ensures |r| == |t|
  {
    var order := SortIndices(t);
    Arrange(t, order)
  }

  /** `s` is an order-preserving matching of all of `p` into `a` whose total absolute difference
      is no larger than that of any other. */
  ghost predicate IsOptimalMatching(a: seq<real>, p: seq<real>, s: seq<nat>)
    requires |p| <= |a|
  {
    && IsMonotoneMatching(s, |p|, |a|)
    && forall t :: IsMonotoneMatching(t, |p|, |a|) ==> TotalDiff(a, p, s) <= TotalDiff(a, p, t)
  }

  /** The DP is correct: backtracking from the last cell yields an optimal matching. */
  lemma TraceIsOptimal(a: seq<real>, p: seq<real>)
    requires |p| <= |a|
    ensures IsOptimalMatching(a, p, Trace(a, p, |p|, |a|))
  {
    var s := Trace(a, p, |p|, |a|);
    TraceAttainsBest(a, p, |p|, |a|);
    forall t | IsMonotoneMatching(t, |p|, |a|)
      ensures TotalDiff(a, p, s) <= TotalDiff(a, p, t)
    {
      BestIsMinimal(a, p, |p|, |a|, t);
    }
  }

  /** The returned dictionary is an optimal order-preserving matching of the sorted angles, mapped
      back to the original indices. */
  lemma MatchSpecOptimal(alnTilts: seq<real>, projTilts: seq<real>)
    requires 0 < |projTilts| <= |alnTilts|
    ensures exists s :: (IsOptimalMatching(Sorted(alnTilts), Sorted(projTilts), s)
      && MatchSpec(alnTilts, projTilts) == Entries(SortIndices(alnTilts), SortIndices(projTilts), s, 0))
  {
    var a := Sorted(alnTilts);
    var p := Sorted(projTilts);
    TraceIsOptimal(a, p);
    var s := Trace(a, p, |projTilts|, |alnTilts|);
    assert MatchSpec(alnTilts, projTilts) == Entries(SortIndices(alnTilts), SortIndices(projTilts), s, 0);
  }

  /** A matching costs nothing exactly when every pair has equal angles. */
  lemma {:induction false} TotalDiffZeroIff(a: seq<real>, p: seq<real>, s: seq<nat>)
    requires |s| <= |p| && forall k :: 0 <= k < |s| ==> s[k] < |a|
    ensures TotalDiff(a, p, s) == 0.0 <==> forall k :: 0 <= k < |s| ==> p[k] == a[s[k]]
  {
    if |s| > 0 {
      var s' := s[..|s| - 1];
      TotalDiffZeroIff(a, p, s');
      assert forall k :: 0 <= k < |s'| ==> s'[k] == s[k];
    }
  }

  /** When the sorted projection angles occur, in order, among the sorted alignment angles,
      `match_tilts` pairs every projection with an alignment tilt of exactly the same angle. */
  lemma MatchSpecExact(alnTilts: seq<real>, projTilts: seq<real>, t: seq<nat>)
    requires 0 < |projTilts| <= |alnTilts|
    requires IsMonotoneMatching(t, |projTilts|, |alnTilts|)
    requires forall k :: 0 <= k < |projTilts| ==> Sorted(projTilts)[k] == Sorted(alnTilts)[t[k]]
    ensures forall x :: x in MatchSpec(alnTilts, projTilts) ==>
      x < |alnTilts| && MatchSpec(alnTilts, projTilts)[x] < |projTilts|
      && alnTilts[x] == projTilts[MatchSpec(alnTilts, projTilts)[x]]
  {
    var alnOrder := SortIndices(alnTilts);
    var projOrder := SortIndices(projTilts);
    var a := Sorted(alnTilts);
    var p := Sorted(projTilts);
    var m := MatchSpec(alnTilts, projTilts);
    MatchSpecOptimal(alnTilts, projTilts);
    var s :| IsOptimalMatching(a, p, s) && m == Entries(alnOrder, projOrder, s, 0);
    TotalDiffZeroIff(a, p, t);
    TotalDiffZeroIff(a, p, s);
    DistinctKeys(alnTilts, alnOrder, s, |projTilts|);
    EntriesHold(alnOrder, projOrder, s, 0);
    forall x | x in m
      ensures x < |alnTilts| && m[x] < |projTilts| && alnTilts[x] == projTilts[m[x]]
    {
      var k :| 0 <= k < |s| && x == alnOrder[s[k]];
      assert p[k] == a[s[k]];
    }
  }

  /** One row of the DP loop: `dp[i]` and `backtrack[i]` computed from `dp[i-1]`. Column 0 keeps its
      initial values, `inf` and 0. */
  method FillRow(alnTilts: seq<real>, projTilts: seq<real>, alnOrder: seq<nat>, projOrder: seq<nat>,
                 ghost a: seq<real>, ghost p: seq<real>, prev: seq<Cost>, i: nat)
    returns (row: seq<Cost>, choice: seq<bool>)
    requires IsStableOrder(alnTilts, alnOrder) && IsStableOrder(projTilts, projOrder)
    requires a == Arrange(alnTilts, alnOrder) && p == Arrange(projTilts, projOrder)
    requires 1 <= i <= |p| && |prev| == |a| + 1
    requires forall jj {:trigger prev[jj]} :: 0 <= jj <= |a| ==> prev[jj] == Best(a, p, i - 1, jj)
    ensures |row| == |choice| == |a| + 1
    ensures forall jj {:trigger row[jj]} :: 0 <= jj <= |a| ==> row[jj] == Best(a, p, i, jj)
    ensures forall jj {:trigger choice[jj]} :: 1 <= jj <= |a| ==> choice[jj] == Takes(a, p, i, jj)
  {
    row, choice := [Infinite], [false];
    var j := 1;
    while j <= |alnTilts|
      invariant 1 <= j <= |a| + 1
      invariant |row| == |choice| == j
      invariant forall jj {:trigger row[jj]} :: 0 <= jj < j ==> row[jj] == Best(a, p, i, jj)
      invariant forall jj {:trigger choice[jj]} :: 1 <= jj < j ==> choice[jj] == Takes(a, p, i, jj)
    {
      var skipCost := row[j - 1];
      var alnIdx := alnOrder[j - 1];
      var projIdx := projOrder[i - 1];
      var matchCost := AddCost(prev[j - 1], Abs(projTilts[projIdx] - alnTilts[alnIdx]));
      assert skipCost == Best(a, p, i, j - 1);
      assert matchCost == TakeCost(a, p, i, j);
      var takes := Cheaper(matchCost, skipCost);
      assert takes == Takes(a, p, i, j);
      var cell := if takes then matchCost else skipCost;
      assert cell == Best(a, p, i, j);
      row, choice := row + [cell], choice + [takes];
      j := j + 1;
    }
  }

  /** The DP fill: `dp[0]` all zero, then rows `1 .. n_proj`; returns the `backtrack` table, which
      holds exactly the cells where matching was strictly cheaper than skipping. */
  method FillTables(alnTilts: seq<real>, projTilts: seq<real>, alnOrder: seq<nat>, projOrder: seq<nat>,
                    ghost a: seq<real>, ghost p: seq<real>) returns (took: seq<seq<bool>>)
    requires IsStableOrder(alnTilts, alnOrder) && IsStableOrder(projTilts, projOrder)
    requires a == Arrange(alnTilts, alnOrder) && p == Arrange(projTilts, projOrder)
    ensures |took| == |p| + 1
    ensures forall ii :: 0 <= ii <= |p| ==> |took[ii]| == |a| + 1
    ensures forall ii, jj {:trigger took[ii][jj]} :: 1 <= ii <= |p| && 1 <= jj <= |a| ==> took[ii][jj] == Takes(a, p, ii, jj)
  {
    var nAln := |alnTilts|;
    var nProj := |projTilts|;
    var dp := seq(nAln + 1, _ => Finite(0.0));
    took := [seq(nAln + 1, _ => false)];
    var i := 1;
    while i <= nProj
      invariant 1 <= i <= nProj + 1
      invariant |dp| == nAln + 1
      invariant forall jj {:trigger dp[jj]} :: 0 <= jj <= nAln ==> dp[jj] == Best(a, p, i - 1, jj)
      invariant |took| == i
      invariant forall ii :: 0 <= ii < i ==> |took[ii]| == nAln + 1
      invariant forall ii, jj {:trigger took[ii][jj]} :: 1 <= ii < i && 1 <= jj <= nAln ==> took[ii][jj] == Takes(a, p, ii, jj)
    {
      var choice;
      dp, choice := FillRow(alnTilts, projTilts, alnOrder, projOrder, a, p, dp, i);
      took := took + [choice];
      i := i + 1;
    }
  }

  /** One step of the backtracking loop from cell `(i, j)` on the path of `s`: a matched cell
      records `s[i-1]` and moves diagonally, a skipped one moves left and stays feasible. */
  lemma BacktrackStep(alnOrder: seq<nat>, projOrder: seq<nat>, a: seq<real>, p: seq<real>,
                      s: seq<nat>, i: nat, j: nat)
    requires 1 <= i <= j <= |a| <= |alnOrder| && |p| <= |projOrder|
    requires IsMonotoneMatching(s, |p|, |a|) && i <= |p|
    requires Trace(a, p, i, j) == s[..i]
    ensures Takes(a, p, i, j) ==> (s[i - 1] == j - 1 && Trace(a, p, i - 1, j - 1) == s[..i - 1]
      && Entries(alnOrder, projOrder, s, i - 1)
        == Entries(alnOrder, projOrder, s, i)[alnOrder[j - 1] := projOrder[i - 1]])
    ensures !Takes(a, p, i, j) ==> i <= j - 1 && Trace(a, p, i, j - 1) == s[..i]
  {
    if Takes(a, p, i, j) {
      var t := Trace(a, p, i - 1, j - 1);
      assert s[..i] == t + [j - 1];
      assert s[..i - 1] == s[..i][..i - 1];
    } else {
      SkipStaysFeasible(a, p, i, j);
    }
  }

  /** The reconstruction loop of `match_tilts`: from `(n_proj, n_aln)`, a matched cell records
      `aln_order[j-1] -> proj_order[i-1]` and moves diagonally, any other cell moves left. */
  method Backtrack(alnOrder: seq<nat>, projOrder: seq<nat>, ghost a: seq<real>, ghost p: seq<real>,
                   took: seq<seq<bool>>) returns (m: map<nat, nat>)
    requires |p| <= |a| == |alnOrder| && |p| == |projOrder|
    requires |took| == |p| + 1 && forall ii :: 0 <= ii <= |p| ==> |took[ii]| == |a| + 1
    requires forall ii, jj {:trigger took[ii][jj]} :: 1 <= ii <= |p| && 1 <= jj <= |a| ==>
      took[ii][jj] == Takes(a, p, ii, jj)
    ensures IsMonotoneMatching(Trace(a, p, |p|, |a|), |p|, |a|)
    ensures m == Entries(alnOrder, projOrder, Trace(a, p, |p|, |a|), 0)
  {
    ghost var s := Trace(a, p, |p|, |a|);
    TraceIsMatching(a, p, |p|, |a|);
    assert s[..|p|] == s;
    m := map[];
    var i, j := |projOrder|, |alnOrder|;
    while i > 0 && j > 0
      invariant 0 <= i <= j <= |a| && i <= |p|
      invariant Trace(a, p, i, j) == s[..i]
      invariant m == Entries(alnOrder, projOrder, s, i)
      decreases j
    {
      BacktrackStep(alnOrder, projOrder, a, p, s, i, j);
      if took[i][j] {
        m := m[alnOrder[j - 1] := projOrder[i - 1]];
        i, j := i - 1, j - 1;
      } else {
        j := j - 1;
      }
    }
  }

  /** `match_tilts`: sorts both index lists, fills the DP table, then walks back from
      `(n_proj, n_aln)`. */
  method MatchTilts(alnTilts: seq<real>, projTilts: seq<real>) returns (m: map<nat, nat>)
    ensures m == MatchSpec(alnTilts, projTilts)
    ensures IsTiltMatching(alnTilts, projTilts, m)
    ensures m == map[] <==> |projTilts| == 0 || |alnTilts| < |projTilts|
  {
    MatchSpecProperties(alnTilts, projTilts);
    var nAln := |alnTilts|;
    var nProj := |projTilts|;
    if nProj == 0 || nAln < nProj {
      return map[];
    }
    var alnOrder := SortIndices(alnTilts);
    var projOrder := SortIndices(projTilts);
    ghost var a := Arrange(alnTilts, alnOrder);
    ghost var p := Arrange(projTilts, projOrder);
    var took := FillTables(alnTilts, projTilts, alnOrder, projOrder, a, p);
    m := Backtrack(alnOrder, projOrder, a, p, took);
  }
}
