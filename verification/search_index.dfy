/**
 * The cumulative `(value, lower, upper)` index built over a distribution and
 * the binary search over it. `choice` searches the index of the stored
 * distribution for a uniform draw; `percentile` searches the index of the
 * sorted support for `p * weight_sum`. Both run the same loop.
 */
module SearchIndex {
  import opened Wrappers
  import opened Distribution

  /** One node of the index: `value` owns the half-open interval `[lower, upper)`. */
  datatype SearchNode<T> = SearchNode(value: T, lower: real, upper: real)

  /**
   * The index loop with `cum` as its starting running total: one node per
   * entry, in order, each starting where the previous one ends.
   */
  function IndexFrom<T>(d: seq<Entry<T>>, cum: real): (r: seq<SearchNode<T>>)
    ensures |r| == |d|
    ensures forall i :: 0 <= i < |d| ==>
              r[i].value == d[i].value && r[i].lower == cum + Sum(d[..i]) && r[i].upper == cum + Sum(d[..i+1])
  {
    if |d| == 0 then []
    else
      var rest := IndexFrom(d[1..], cum + d[0].weight);
      var r := [SearchNode(d[0].value, cum, cum + d[0].weight)] + rest;
      assert forall i :: 0 <= i < |d| ==>
          r[i].value == d[i].value && r[i].lower == cum + Sum(d[..i]) && r[i].upper == cum + Sum(d[..i+1]) by {
        forall i | 0 <= i < |d|
          ensures r[i].value == d[i].value && r[i].lower == cum + Sum(d[..i]) && r[i].upper == cum + Sum(d[..i+1])
        {
          PrefixSumTail(d, i);
          if i == 0 {
            assert d[..0] == [];
          } else {
            PrefixSumTail(d, i - 1);
            assert r[i] == rest[i - 1];
          }
        }
      }
      r
  }

  /** The index `cum = 0; for val in dist: append (val, cum, cum + dist[val]); cum += dist[val]`. */
  function BuildIndex<T>(d: seq<Entry<T>>): seq<SearchNode<T>>
  {
    IndexFrom(d, 0.0)
  }

  /**
   * The shape the search relies on: the first interval starts at 0, no
   * interval is reversed, and each one starts where the previous one ends.
   */
  ghost predicate Contiguous<T>(nodes: seq<SearchNode<T>>)
  {
    && (|nodes| > 0 ==> nodes[0].lower == 0.0)
    && (forall i :: 0 <= i < |nodes| ==> nodes[i].lower <= nodes[i].upper)
    && (forall i :: 0 <= i < |nodes| - 1 ==> nodes[i].upper == nodes[i + 1].lower)
  }

  /**
   * The index of a distribution with non-negative weights is contiguous,
   * the width of every interval is the weight of its entry, and the last
   * interval ends at the total weight.
   */
  lemma BuildIndexShape<T>(d: seq<Entry<T>>)
    requires NonNegative(d)
    ensures Contiguous(BuildIndex(d))
    ensures forall i :: 0 <= i < |d| ==> BuildIndex(d)[i].upper - BuildIndex(d)[i].lower == d[i].weight
    ensures |d| > 0 ==> BuildIndex(d)[|d| - 1].upper == Sum(d)
  {
    var nodes := BuildIndex(d);
    forall i | 0 <= i < |d|
      ensures nodes[i].upper - nodes[i].lower == d[i].weight
    {
      PrefixSumStep(d, i);
    }
    assert d[..0] == [];
    if |d| > 0 {
      PrefixSumWhole(d);
    }
  }

  /** In a contiguous index no interval starts before an earlier one ends. */
  lemma {:induction false} UpperMonotone<T>(nodes: seq<SearchNode<T>>, i: nat, j: nat)
    requires Contiguous(nodes)
    requires i < j < |nodes|
    ensures nodes[i].upper <= nodes[j].lower
    decreases j - i
  {
    if i + 1 < j {
      UpperMonotone(nodes, i + 1, j);
    }
  }

  /**
   * The binary search of `choice` and `percentile`, for a target the caller
   * guarantees to be at least 0. Reading `nodes[ind]` past the end is the
   * `IndexError` the Python code raises when no interval holds the target;
   * it is reported as `None`. Otherwise the search stops at the one node
   * whose interval holds the target.
   */
  method Search<T>(nodes: seq<SearchNode<T>>, target: real) returns (found: Option<nat>)
    requires Contiguous(nodes)
    requires 0.0 <= target
    ensures found.Some? ==> found.value < |nodes|
    ensures found.Some? ==> nodes[found.value].lower <= target < nodes[found.value].upper
    ensures found.None? <==> |nodes| == 0 || nodes[|nodes| - 1].upper <= target
  {
    var n := |nodes|;
    var bot, top := 0, n;
    var ind := (bot + top) / 2;
    if ind >= n {
      return None;
    }
    var item := nodes[ind];
    while target < item.lower || target >= item.upper
      invariant 0 <= bot < top <= n
      invariant ind == (bot + top) / 2 && item == nodes[ind]
      invariant bot > 0 ==> nodes[bot - 1].upper <= target
      invariant top < n ==> target < nodes[top].lower
      decreases top - bot
    {
      if target < item.lower {
        top := ind;
      } else {
        bot := ind + 1;
      }
      ind := (bot + top) / 2;
      if ind >= n {
        return None;
      }
      item := nodes[ind];
    }
    if ind < n - 1 {
      UpperMonotone(nodes, ind, n - 1);
    }
    return Some(ind);
  }
}
