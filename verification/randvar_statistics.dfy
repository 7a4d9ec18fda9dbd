/**
 * `randvar/statistics.py`: summary statistics of a random variable over the
 * reals. The weight sum is the sum of the stored probabilities and iterating
 * a random variable yields its keys, in insertion order.
 */
module RandVarStatistics {
  import opened Wrappers
  import opened Distribution
  import opened SearchIndex
  import opened Product
  import opened RandVarCore
  import opened Moments

  /** The exceptions the statistics raise. */
  datatype StatError =
    | ValueError             // `max`/`min` of no values
    | ZeroDivisionError      // division by a weight sum of 0
    | IndexError             // `nodes[ind]` or `pairs[k - 1]` out of range
    | Raised(cause: Error)   // an exception of `rand_apply`

  // ---- mean at p = +inf and p = -inf ----

  /** The two infinite exponents `mean` handles without arithmetic. */
  datatype InfiniteExponent = PlusInfinity | MinusInfinity

  /**
   * `mean(var, float("inf"))` is the largest value of `var` and
   * `mean(var, float("-inf"))` the smallest; there is none to take when
   * `var` has no values.
   */
  function MeanAtInfinity(rv: RandomVariable<real>, p: InfiniteExponent): (r: Result<real, StatError>)
    ensures r.Err? <==> |rv.dist| == 0
    ensures r.Err? ==> r.error == ValueError
    ensures r.Ok? ==> HasKey(rv.dist, r.value)
    ensures r.Ok? && p == PlusInfinity ==> forall i :: 0 <= i < |rv.dist| ==> rv.dist[i].value <= r.value
    ensures r.Ok? && p == MinusInfinity ==> forall i :: 0 <= i < |rv.dist| ==> r.value <= rv.dist[i].value
  {
    if |rv.dist| == 0 then Err(ValueError)
    else
      var ks := Keys(rv.dist);
      assert forall i :: 0 <= i < |rv.dist| ==> rv.dist[i].value == ks[i] && ks[i] in ks;
      var m := if p == PlusInfinity then Max(ks) else Min(ks);
      assert m in ks;
      Ok(m)
  }

  // ---- expected_value ----

  /**
   * `expected_value(var)`: the probability-weighted sum of the values over
   * the weight sum, which must not be 0.
   */
  function ExpectedValue(rv: RandomVariable<real>): (r: Result<real, StatError>)
    ensures r.Err? <==> Sum(rv.dist) == 0.0
    ensures r.Err? ==> r.error == ZeroDivisionError
    ensures r.Ok? ==> MeanOf(r.value, Sum(rv.dist), Moment(rv.dist, Identity))
  {
    var w := Sum(rv.dist);
    if w == 0.0 then Err(ZeroDivisionError) else Ok(Moment(rv.dist, Identity) / w)
  }

  /**
   * The expected value lies between the smallest and the largest value,
   * the means at minus and plus infinity.
   */
  lemma ExpectedValueBetweenExtremes(rv: RandomVariable<real>)
    requires NonNegative(rv.dist)
    requires ExpectedValue(rv).Ok?
    ensures MeanAtInfinity(rv, MinusInfinity).Ok? && MeanAtInfinity(rv, PlusInfinity).Ok?
    ensures MeanAtInfinity(rv, MinusInfinity).value <= ExpectedValue(rv).value <= MeanAtInfinity(rv, PlusInfinity).value
  {
    var d := rv.dist;
    assert |d| > 0;
    var lo, hi := MeanAtInfinity(rv, MinusInfinity), MeanAtInfinity(rv, PlusInfinity);
    var e, w, m := ExpectedValue(rv).value, Sum(d), Moment(d, Identity);
    assert MeanOf(e, w, m);
    assert w != 0.0;
    assert forall i :: 0 <= i < |d| ==> lo.value <= d[i].value <= hi.value;
    WeightedMeanBounds(d, e, w, m, lo.value, hi.value);
  }

  /** The expected value of a constant is the constant. */
  lemma ExpectedValueOfPointMass(v: real, defaultViability: real)
    ensures ExpectedValue(PointMass(v, defaultViability)) == Ok(v)
  {
    var d := [Entry(v, 1.0)];
    assert d[1..] == [];
    assert Sum(d) == 1.0;
    assert Moment(d, Identity) == v * 1.0;
  }

  // ---- sorted(var) ----

  ghost predicate Ascending(s: seq<real>)
  {
    forall i, j :: 0 <= i < j < |s| ==> s[i] < s[j]
  }

  ghost predicate NonDescending(s: seq<real>)
  {
    forall i, j :: 0 <= i < j < |s| ==> s[i] <= s[j]
  }

  /** One step of insertion sort: `x` before the first element not below it. */
  function Insert(x: real, s: seq<real>): (r: seq<real>)
    requires NonDescending(s)
    ensures NonDescending(r)
    ensures multiset(r) == multiset(s) + multiset{x}
  {
    if |s| == 0 then [x]
    else if x <= s[0] then
      ConsNonDescending(x, s);
      [x] + s
    else
      var rest := Insert(x, s[1..]);
      assert s[0] <= rest[0] by {
        var y := rest[0];
        assert y in multiset(rest);
        if y != x {
          assert y in multiset(s[1..]);
          var k :| 0 <= k < |s[1..]| && s[1..][k] == y;
          assert s[k + 1] == y;
        }
      }
      ConsNonDescending(s[0], rest);
      assert s == [s[0]] + s[1..];
      [s[0]] + rest
  }

  lemma ConsNonDescending(x: real, s: seq<real>)
    requires NonDescending(s)
    requires |s| > 0 ==> x <= s[0]
    ensures NonDescending([x] + s)
  {
    var r := [x] + s;
    forall i, j | 0 <= i < j < |r|
      ensures r[i] <= r[j]
    {
      if i == 0 {
        assert s[0] <= s[j - 1];
      }
    }
  }

  /** Python's `sorted` on reals: the same values in non-descending order. */
  function SortAscending(s: seq<real>): (r: seq<real>)
    ensures NonDescending(r)
    ensures multiset(r) == multiset(s)
  {
    if |s| == 0 then []
    else
      assert s == [s[0]] + s[1..];
      Insert(s[0], SortAscending(s[1..]))
  }

  lemma {:induction false} InsertAscending(x: real, s: seq<real>)
    requires Ascending(s) && x !in s
    ensures Ascending(Insert(x, s))
  {
    if |s| > 0 {
      if x > s[0] {
        assert Ascending(s[1..]) && x !in s[1..];
        InsertAscending(x, s[1..]);
        var rest := Insert(x, s[1..]);
        assert s[0] < rest[0] by {
          var y := rest[0];
          assert y in multiset(rest);
          if y != x {
            assert y in multiset(s[1..]);
            var k :| 0 <= k < |s[1..]| && s[1..][k] == y;
            assert s[k + 1] == y;
          }
        }
        ConsAscending(s[0], rest);
      } else {
        assert x != s[0];
        ConsAscending(x, s);
      }
    } else {
      ConsAscending(x, s);
    }
  }

  lemma ConsAscending(x: real, s: seq<real>)
    requires Ascending(s)
    requires |s| > 0 ==> x < s[0]
    ensures Ascending([x] + s)
  {
    var r := [x] + s;
    forall i, j | 0 <= i < j < |r|
      ensures r[i] < r[j]
    {
      if i == 0 {
        assert s[0] <= s[j - 1];
      }
    }
  }

  /** Sorting values without repeats orders them strictly. */
  lemma {:induction false} SortAscendingStrict(s: seq<real>)
    requires NoDuplicates(s)
    ensures Ascending(SortAscending(s))
  {
    if |s| > 0 {
      assert forall k :: 0 <= k < |s| - 1 ==> s[1..][k] == s[k + 1];
      SortAscendingStrict(s[1..]);
      assert s[0] !in s[1..];
      assert s[0] !in SortAscending(s[1..]) by {
        assert s[0] !in multiset(s[1..]);
        assert multiset(SortAscending(s[1..])) == multiset(s[1..]);
      }
      InsertAscending(s[0], SortAscending(s[1..]));
    }
  }

  // ---- percentile ----

  /** The weight of the values strictly below `v`: where the interval of `v` starts in sorted order. */
  function MassBelow(d: seq<Entry<real>>, v: real): real
  {
    if |d| == 0 then 0.0
    else (if d[0].value < v then d[0].weight else 0.0) + MassBelow(d[1..], v)
  }

  lemma {:induction false} MassInBelow(d: seq<Entry<real>>, s: set<real>, v: real)
    requires forall i :: 0 <= i < |d| ==> (d[i].value in s <==> d[i].value < v)
    ensures MassIn(d, s) == MassBelow(d, v)
  {
    if |d| > 0 {
      MassInBelow(d[1..], s, v);
    }
  }

  /** The support of `var` in ascending order. */
  function SortedKeys(d: seq<Entry<real>>): seq<real>
  {
    SortAscending(Keys(d))
  }

  /** `nodes`: the cumulative index over the sorted support. */
  function PercentileNodes(d: seq<Entry<real>>): seq<SearchNode<real>>
  {
    BuildIndex(WeighKeys(d, SortedKeys(d)))
  }

  lemma KeysNoDuplicates(d: seq<Entry<real>>)
    requires DistinctKeys(d)
    ensures NoDuplicates(Keys(d))
  {
  }

  lemma SortedKeysFacts(d: seq<Entry<real>>)
    requires DistinctKeys(d)
    ensures |SortedKeys(d)| == |d|
    ensures Ascending(SortedKeys(d))
    ensures forall v :: v in SortedKeys(d) <==> v in Keys(d)
  {
    var ks := SortedKeys(d);
    KeysNoDuplicates(d);
    SortAscendingStrict(Keys(d));
    assert multiset(ks) == multiset(Keys(d));
    assert |ks| == |multiset(ks)| == |multiset(Keys(d))| == |d|;
    forall v
      ensures v in ks <==> v in Keys(d)
    {
      assert v in ks <==> v in multiset(ks);
      assert v in Keys(d) <==> v in multiset(Keys(d));
    }
  }

  /** The weights in sorted order are the stored probabilities, never negative. */
  lemma SortedWeights(d: seq<Entry<real>>)
    requires DistinctKeys(d) && Probabilities(d)
    ensures NonNegative(WeighKeys(d, SortedKeys(d)))
  {
    var es := WeighKeys(d, SortedKeys(d));
    forall j | 0 <= j < |es|
      ensures 0.0 <= es[j].weight
    {
      var v := SortedKeys(d)[j];
      if HasKey(d, v) {
        var i :| 0 <= i < |d| && d[i].value == v;
        assert es[j].weight == d[i].weight;
      }
    }
  }

  /** The interval of the `j`-th smallest value starts at the mass below it. */
  lemma SortedPrefixMass(d: seq<Entry<real>>, j: nat)
    requires DistinctKeys(d)
    requires j < |d|
    ensures j < |SortedKeys(d)|
    ensures Sum(WeighKeys(d, SortedKeys(d))[..j]) == MassBelow(d, SortedKeys(d)[j])
  {
    var ks := SortedKeys(d);
    SortedKeysFacts(d);
    var pre := ks[..j];
    assert WeighKeys(d, ks)[..j] == WeighKeys(d, pre);
    WeighKeysMass(d, pre);
    var s := set k | k in pre;
    forall i | 0 <= i < |d|
      ensures d[i].value in s <==> d[i].value < ks[j]
    {
      assert d[i].value in Keys(d);
      var m :| 0 <= m < |ks| && ks[m] == d[i].value;
      if d[i].value in s {
        var m' :| 0 <= m' < j && ks[m'] == d[i].value;
        assert m' == m;
      }
      if m < j {
        assert ks[m] in pre;
      }
    }
    MassInBelow(d, s, ks[j]);
  }

  /** The sorted weights add up to the weight sum. */
  lemma SortedTotal(d: seq<Entry<real>>)
    requires DistinctKeys(d)
    ensures Sum(WeighKeys(d, SortedKeys(d))) == Sum(d)
  {
    var ks := SortedKeys(d);
    SortedKeysFacts(d);
    WeighKeysMass(d, ks);
    forall i | 0 <= i < |d|
      ensures d[i].value in (set k | k in ks)
    {
      assert d[i].value in Keys(d);
    }
    MassInAll(d, set k | k in ks);
  }

  /** The percentile index is contiguous from 0 and ends at the weight sum. */
  lemma PercentileNodesShape(d: seq<Entry<real>>)
    requires DistinctKeys(d) && Probabilities(d)
    ensures Contiguous(PercentileNodes(d))
    ensures |PercentileNodes(d)| == |d|
    ensures |d| > 0 ==> PercentileNodes(d)[|d| - 1].upper == Sum(d)
  {
    var es := WeighKeys(d, SortedKeys(d));
    SortedKeysFacts(d);
    SortedWeights(d);
    BuildIndexShape(es);
    SortedTotal(d);
  }

  /**
   * Node `j` of the percentile index holds the `j`-th smallest value `v`,
   * and its interval runs from the mass below `v` for the probability of `v`.
   */
  lemma PercentileNodeAt(d: seq<Entry<real>>, j: nat)
    requires DistinctKeys(d) && Probabilities(d)
    requires j < |d|
    ensures j < |PercentileNodes(d)|
    ensures PercentileNodes(d)[j].value == SortedKeys(d)[j]
    ensures HasKey(d, PercentileNodes(d)[j].value)
    ensures PercentileNodes(d)[j].lower == MassBelow(d, PercentileNodes(d)[j].value)
    ensures PercentileNodes(d)[j].upper == MassBelow(d, PercentileNodes(d)[j].value) + Lookup(d, PercentileNodes(d)[j].value)
  {
    var ks := SortedKeys(d);
    var es := WeighKeys(d, ks);
    SortedKeysFacts(d);
    SortedWeights(d);
    BuildIndexShape(es);
    assert ks[j] in Keys(d);
    SortedPrefixMass(d, j);
  }

  /**
   * The search of `percentile` for a target the caller guarantees to be at
   * least 0. It succeeds exactly when the target is below the weight sum,
   * and then returns the value whose interval holds the target: the mass
   * below it is at most the target and the mass up to and including it is
   * more.
   */
  method PercentileSearch(rv: RandomVariable<real>, target: real) returns (r: Result<real, StatError>)
    requires Valid(rv)
    requires 0.0 <= target
    ensures r.Ok? <==> target < Sum(rv.dist)
    ensures r.Err? ==> r.error == StatError.IndexError
    ensures r.Ok? ==> HasKey(rv.dist, r.value) && Probability(rv, r.value) > 0.0
    ensures r.Ok? ==> MassBelow(rv.dist, r.value) <= target < MassBelow(rv.dist, r.value) + Probability(rv, r.value)
  {
    var d := rv.dist;
    var nodes := PercentileNodes(d);
    PercentileNodesShape(d);
    var found := Search(nodes, target);
    if found.None? {
      if |d| == 0 {
        SumEmpty(d);
      }
      return Err(StatError.IndexError);
    }
    var j := found.value;
    PercentileNodeAt(d, j);
    return Ok(nodes[j].value);
  }

  /**
   * `percentile(var, p)` as written: the search for `p * weight_sum`. For
   * a negative target the loop never ends, so the target must be at least
   * 0. The search fails with `IndexError` exactly when the target reaches
   * the weight sum, which `p = 1` always does.
   */
  method PercentileAsWritten(rv: RandomVariable<real>, p: real) returns (r: Result<real, StatError>)
    requires Valid(rv)
    requires 0.0 <= Target(rv, p)
    ensures r.Ok? <==> Target(rv, p) < Sum(rv.dist)
    ensures r.Err? ==> r.error == StatError.IndexError
    ensures r.Ok? ==> HasKey(rv.dist, r.value) && Probability(rv, r.value) > 0.0
    ensures r.Ok? ==> MassBelow(rv.dist, r.value) <= Target(rv, p) < MassBelow(rv.dist, r.value) + Probability(rv, r.value)
  {
    r := PercentileSearch(rv, Target(rv, p));
  }

  /** `target = p * var._weight_sum`. */
  function Target(rv: RandomVariable<real>, p: real): real
  {
    p * Sum(rv.dist)
  }

  /** At `p = 1` the target is the whole weight sum, which no half-open interval holds. */
  lemma PercentileTargetAtOne(rv: RandomVariable<real>)
    ensures Target(rv, 1.0) == Sum(rv.dist)
  {
  }

  lemma SumNonZero<T>(d: seq<Entry<T>>)
    requires Sum(d) != 0.0
    ensures |d| > 0
  {
  }

  lemma SumEmpty<T>(d: seq<Entry<T>>)
    requires |d| == 0
    ensures Sum(d) == 0.0
  {
  }

  /**
   * `percentile(var, p)` for `0 <= p <= 1` as its documentation states it:
   * as written for `p < 1`, and for `p = 1` the largest value of positive
   * probability, where the search ran off the end of the index. Only a
   * weight sum of 0 leaves nothing to return.
   */
  method Percentile(rv: RandomVariable<real>, p: real) returns (r: Result<real, StatError>)
    requires Valid(rv)
    requires 0.0 <= p <= 1.0
    ensures r.Ok? <==> Sum(rv.dist) > 0.0
    ensures r.Err? ==> r.error == StatError.IndexError
    ensures r.Ok? ==> HasKey(rv.dist, r.value) && Probability(rv, r.value) > 0.0
    ensures r.Ok? ==> MassBelow(rv.dist, r.value) <= Target(rv, p) <= MassBelow(rv.dist, r.value) + Probability(rv, r.value)
    ensures r.Ok? && p < 1.0 ==> Target(rv, p) < MassBelow(rv.dist, r.value) + Probability(rv, r.value)
  {
    var d := rv.dist;
    var w, t := Sum(d), Target(rv, p);
    assert NonNegative(d);
    SumNonNegative(d);
    ScaledTotal(p, w, t);
    if t < w {
      r := PercentileAsWritten(rv, p);
      return;
    }
    if w == 0.0 {
      return Err(StatError.IndexError);
    }
    // here `p = 1`
    var v := LastPositive(rv);
    return Ok(v);
  }

  /**
   * The backward scan for `p = 1`: the last node of positive width ends at
   * the weight sum, and its value is the largest of positive probability.
   */
  method LastPositive(rv: RandomVariable<real>) returns (v: real)
    requires Valid(rv)
    requires Sum(rv.dist) > 0.0
    ensures HasKey(rv.dist, v) && Probability(rv, v) > 0.0
    ensures MassBelow(rv.dist, v) + Probability(rv, v) == Sum(rv.dist)
  {
    var d := rv.dist;
    var nodes := PercentileNodes(d);
    PercentileNodesShape(d);
    SumNonZero(d);
    var k := |nodes| - 1;
    assert nodes[k].upper == Sum(d);
    while nodes[k].upper <= nodes[k].lower
      invariant 0 <= k < |nodes|
      invariant nodes[k].upper == Sum(d)
      decreases k
    {
      k := k - 1;
    }
    PercentileNodeAt(d, k);
    return nodes[k].value;
  }

  /** `median(var)`: `percentile(var, 0.5)`, which the off-by-one at `p = 1` does not reach. */
  method Median(rv: RandomVariable<real>) returns (r: Result<real, StatError>)
    requires Valid(rv)
    ensures r.Ok? <==> Sum(rv.dist) > 0.0
    ensures r.Err? ==> r.error == StatError.IndexError
    ensures r.Ok? ==> HasKey(rv.dist, r.value) && Probability(rv, r.value) > 0.0
    ensures r.Ok? ==> MassBelow(rv.dist, r.value) <= Sum(rv.dist) / 2.0 < MassBelow(rv.dist, r.value) + Probability(rv, r.value)
  {
    assert NonNegative(rv.dist);
    SumNonNegative(rv.dist);
    r := PercentileAsWritten(rv, 0.5);
  }

  // ---- mode ----

  /**
   * Entry `i` comes before entry `j` in
   * `sorted(keys, key=lambda val: var[val], reverse=True)`: the higher
   * probability first, and of equal probabilities the earlier key, since the
   * reversed sort is still stable.
   */
  predicate Before<T>(d: seq<Entry<T>>, i: nat, j: nat)
    requires i < |d| && j < |d|
  {
    d[i].weight > d[j].weight || (d[i].weight == d[j].weight && i < j)
  }

  /** `s` lists positions of `d`, each strictly before the next. */
  ghost predicate Ranked<T>(d: seq<Entry<T>>, s: seq<nat>)
  {
    && (forall k :: 0 <= k < |s| ==> s[k] < |d|)
    && (forall a, b :: 0 <= a < b < |s| ==> Before(d, s[a], s[b]))
  }

  /** Insertion of position `i`: ahead of the first position it comes before. */
  function InsertBy<T>(d: seq<Entry<T>>, i: nat, s: seq<nat>): (r: seq<nat>)
    requires i < |d|
    requires forall k :: 0 <= k < |s| ==> s[k] < |d|
    ensures |r| == |s| + 1
    ensures multiset(r) == multiset(s) + multiset{i}
    ensures forall k :: 0 <= k < |r| ==> r[k] < |d|
  {
    if |s| == 0 then [i]
    else if Before(d, i, s[0]) then [i] + s
    else
      assert s == [s[0]] + s[1..];
      [s[0]] + InsertBy(d, i, s[1..])
  }

  lemma {:induction false} InsertByRanked<T>(d: seq<Entry<T>>, i: nat, s: seq<nat>)
    requires i < |d| && i !in s
    requires Ranked(d, s)
    ensures Ranked(d, InsertBy(d, i, s))
  {
    if |s| > 0 && !Before(d, i, s[0]) {
      assert s[0] != i;
      assert Before(d, s[0], i);
      assert Ranked(d, s[1..]);
      InsertByRanked(d, i, s[1..]);
      var rest := InsertBy(d, i, s[1..]);
      forall k | 0 <= k < |rest|
        ensures Before(d, s[0], rest[k])
      {
        assert rest[k] in multiset(s[1..]) + multiset{i};
        if rest[k] != i {
          assert rest[k] in s[1..];
        }
      }
    }
  }

  /** Stable insertion sort of positions by descending probability. */
  function SortBy<T>(d: seq<Entry<T>>, s: seq<nat>): (r: seq<nat>)
    requires forall k :: 0 <= k < |s| ==> s[k] < |d|
    ensures |r| == |s|
    ensures multiset(r) == multiset(s)
    ensures forall k :: 0 <= k < |r| ==> r[k] < |d|
  {
    if |s| == 0 then []
    else
      assert s == [s[0]] + s[1..];
      InsertBy(d, s[0], SortBy(d, s[1..]))
  }

  lemma {:induction false} SortByRanked<T>(d: seq<Entry<T>>, s: seq<nat>)
    requires forall k :: 0 <= k < |s| ==> s[k] < |d|
    requires NoDuplicates(s)
    ensures Ranked(d, SortBy(d, s))
  {
    if |s| > 0 {
      assert forall k :: 0 <= k < |s| - 1 ==> s[1..][k] == s[k + 1];
      SortByRanked(d, s[1..]);
      assert s[0] !in s[1..];
      assert s[0] !in SortBy(d, s[1..]) by {
        assert s[0] !in multiset(s[1..]);
      }
      InsertByRanked(d, s[0], SortBy(d, s[1..]));
    }
  }

  /** The positions `0, 1, ..., n - 1`. */
  function Positions(n: nat): (r: seq<nat>)
    ensures |r| == n
    ensures forall k :: 0 <= k < n ==> r[k] == k
  {
    seq(n, k requires 0 <= k < n => k)
  }

  /** The positions of `d` in the order `mode` ranks them. */
  function ModeOrder<T>(d: seq<Entry<T>>): (r: seq<nat>)
    ensures |r| == |d|
  {
    SortBy(d, Positions(|d|))
  }

  /**
   * The ranking lists every position exactly once, each ahead of all the
   * positions after it.
   */
  lemma ModeOrderFacts<T>(d: seq<Entry<T>>)
    ensures Ranked(d, ModeOrder(d))
    ensures forall i :: 0 <= i < |d| ==> i in ModeOrder(d)
  {
    var ps := Positions(|d|);
    SortByRanked(d, ps);
    forall i | 0 <= i < |d|
      ensures i in ModeOrder(d)
    {
      assert ps[i] == i;
      assert i in multiset(ps);
    }
  }

  /** `pairs`: the keys in the ranked order. */
  function Pairs<T>(d: seq<Entry<T>>): (r: seq<T>)
    ensures |r| == |d|
  {
    var order := ModeOrder(d);
    seq(|d|, k requires 0 <= k < |d| => d[order[k]].value)
  }

  /**
   * `mode(var, k)`: `pairs[k - 1]` with Python's indexing, so `k - 1` may
   * also count back from the end; any other `k` raises `IndexError`.
   */
  function Mode<T>(rv: RandomVariable<T>, k: int): (r: Result<T, StatError>)
    ensures r.Ok? <==> -|rv.dist| <= k - 1 < |rv.dist|
    ensures r.Err? ==> r.error == StatError.IndexError
  {
    var pairs := Pairs(rv.dist);
    var n := |pairs|;
    if 0 <= k - 1 < n then Ok(pairs[k - 1])
    else if -n <= k - 1 < 0 then Ok(pairs[n + (k - 1)])
    else Err(StatError.IndexError)
  }

  /** A non-positive `k` counts from the end: `mode(var, k)` is `mode(var, k + len(var))`. */
  lemma ModeFromEnd<T>(rv: RandomVariable<T>, k: int)
    requires -|rv.dist| < k <= 0
    ensures Mode(rv, k) == Mode(rv, k + |rv.dist|)
  {
  }

  /** `mode(var, k)` for `1 <= k <= len(var)` is the key at rank `k`. */
  lemma ModeAtRank<T>(rv: RandomVariable<T>, k: int)
    requires 1 <= k <= |rv.dist|
    ensures ModeOrder(rv.dist)[k - 1] < |rv.dist|
    ensures Mode(rv, k) == Ok(rv.dist[ModeOrder(rv.dist)[k - 1]].value)
  {
    ModeOrderFacts(rv.dist);
  }

  /** `mode(var)`, the first-ranked key, has the largest probability of all. */
  lemma ModeIsMostProbable<T>(rv: RandomVariable<T>)
    requires Valid(rv)
    requires |rv.dist| > 0
    ensures Mode(rv, 1).Ok?
    ensures forall i :: 0 <= i < |rv.dist| ==> Probability(rv, rv.dist[i].value) <= Probability(rv, Mode(rv, 1).value)
  {
    var d := rv.dist;
    var order := ModeOrder(d);
    ModeOrderFacts(d);
    ModeAtRank(rv, 1);
    forall i | 0 <= i < |d|
      ensures d[i].weight <= d[order[0]].weight
    {
      assert i in order;
      var a :| 0 <= a < |order| && order[a] == i;
      if a > 0 {
        assert Before(d, order[0], order[a]);
      }
    }
  }

  /**
   * Ranks run by descending probability, and keys of equal probability
   * keep their insertion order: for `1 <= k < k2 <= len(var)` the `k`-th
   * mode is at least as probable as the `k2`-th, and when both are equally
   * probable it was inserted first.
   */
  lemma ModeDescending<T>(rv: RandomVariable<T>, k: int, k2: int)
    requires Valid(rv)
    requires 1 <= k < k2 <= |rv.dist|
    ensures Mode(rv, k).Ok? && Mode(rv, k2).Ok?
    ensures Probability(rv, Mode(rv, k2).value) <= Probability(rv, Mode(rv, k).value)
    ensures Probability(rv, Mode(rv, k2).value) == Probability(rv, Mode(rv, k).value) ==>
              exists i, j :: 0 <= i < j < |rv.dist| && rv.dist[i].value == Mode(rv, k).value && rv.dist[j].value == Mode(rv, k2).value
  {
    var d := rv.dist;
    var order := ModeOrder(d);
    ModeOrderFacts(d);
    ModeAtRank(rv, k);
    ModeAtRank(rv, k2);
    assert Before(d, order[k - 1], order[k2 - 1]);
  }

  /**
   * As `k` runs over `1..len(var)`, `mode(var, k)` visits every key: each
   * key is the mode at some rank, and no two ranks give the same key.
   */
  lemma ModeVisitsEach<T>(rv: RandomVariable<T>, i: nat)
    requires Valid(rv)
    requires i < |rv.dist|
    ensures exists k :: 1 <= k <= |rv.dist| && Mode(rv, k) == Ok(rv.dist[i].value)
  {
    var d := rv.dist;
    var order := ModeOrder(d);
    ModeOrderFacts(d);
    assert i in order;
    var a :| 0 <= a < |order| && order[a] == i;
    ModeAtRank(rv, a + 1);
  }

  lemma ModeRanksDistinct<T>(rv: RandomVariable<T>, k: int, k2: int)
    requires Valid(rv)
    requires 1 <= k < k2 <= |rv.dist|
    ensures Mode(rv, k).Ok? && Mode(rv, k2).Ok?
    ensures Mode(rv, k).value != Mode(rv, k2).value
  {
    var d := rv.dist;
    var order := ModeOrder(d);
    ModeOrderFacts(d);
    ModeAtRank(rv, k);
    ModeAtRank(rv, k2);
    assert Before(d, order[k - 1], order[k2 - 1]);
  }

  // ---- variance ----

  /** `sqr` as the function `rand_apply` receives: it is only ever given one argument. */
  function SquareArg(vs: seq<real>): real
  {
    if |vs| == 1 then Square(vs[0]) else 0.0
  }

  /**
   * `variance(var)`: `expected_value(rand_apply(sqr, var))` minus the square
   * of `expected_value(var)`, evaluated in that order; `rand_apply` is
   * called with its default viability argument `1.0`.
   */
  function Variance(rv: RandomVariable<real>, defaultViability: real): (r: Result<real, StatError>)
    requires 0.0 <= defaultViability
    ensures r.Err? && r.error.Raised? ==> r.error.cause.AssertionFailure? || r.error.cause.InviableRandomVariable?
    ensures r.Err? ==> r.error.Raised? || r.error == ZeroDivisionError
  {
    match RandApply(SquareArg, [Var(rv)], [], 1.0, defaultViability)
    case Err(e) => Err(Raised(e))
    case Ok(squared) =>
      match ExpectedValue(squared)
      case Err(e) => Err(e)
      case Ok(m2) =>
        match ExpectedValue(rv)
        case Err(e) => Err(e)
        case Ok(m1) => Ok(m2 - Square(m1))
  }

  /** Each entry with its value squared. */
  function Squares(d: seq<Entry<real>>): (r: seq<Entry<real>>)
    ensures |r| == |d|
    ensures forall i :: 0 <= i < |d| ==> r[i] == Entry(Square(d[i].value), d[i].weight)
  {
    seq(|d|, i requires 0 <= i < |d| => Entry(Square(d[i].value), d[i].weight))
  }

  /** `rand_apply(sqr, var)` enumerates the entries of `var` one by one. */
  lemma SquareCombinations(rv: RandomVariable<real>)
    ensures Combinations([rv], []) == Singletons(rv.dist)
  {
    var none: seq<RandomVariable<real>> := [];
    var noDists: seq<seq<Entry<real>>> := [];
    assert Dists(none) == noDists;
    assert Dists([rv]) == [rv.dist];
    assert [rv.dist][1..] == noDists;
    NestUnitRight(Singletons(rv.dist));
  }

  lemma SquareOutcomes(d: seq<Entry<real>>)
    ensures Outcomes(SquareArg, Singletons(d)) == Squares(d)
  {
    forall i | 0 <= i < |d|
      ensures Outcomes(SquareArg, Singletons(d))[i] == Squares(d)[i]
    {
      WeightSingle(d[i]);
      assert Keys([d[i]]) == [d[i].value];
    }
  }

  lemma {:induction false} MomentOfSquares(d: seq<Entry<real>>)
    ensures Moment(Squares(d), Identity) == Moment(d, Square)
  {
    if |d| > 0 {
      assert Squares(d)[1..] == Squares(d[1..]);
      MomentOfSquares(d[1..]);
    }
  }

  lemma {:induction false} SumOfSquares(d: seq<Entry<real>>)
    ensures Sum(Squares(d)) == Sum(d)
  {
    if |d| > 0 {
      assert Squares(d)[1..] == Squares(d[1..]);
      SumOfSquares(d[1..]);
    }
  }

  /**
   * The law of the unconscious statistician for `sqr`: the distribution of
   * the squares carries the second moment of `var` and the same mass.
   */
  lemma SquaredDistribution(rv: RandomVariable<real>)
    requires NonNegative(rv.dist)
    ensures Moment(PushForward(SquareArg, Combinations([rv], [])), Identity) == Moment(rv.dist, Square)
    ensures Sum(PushForward(SquareArg, Combinations([rv], []))) == Sum(rv.dist)
  {
    var d := rv.dist;
    var none: seq<Entry<real>> := [];
    SquareCombinations(rv);
    SquareOutcomes(d);
    assert NonNegative(Squares(d));
    AccumulateMoment(none, Squares(d), Identity);
    PositiveMomentOfNonNegative(Squares(d), Identity);
    PositiveSumOfNonNegative(Squares(d));
    MomentOfSquares(d);
    SumOfSquares(d);
  }

  /**
   * The second moment `expected_value(rand_apply(sqr, var))` is the
   * probability-weighted sum of the squared values over the weight sum.
   */
  lemma SecondMoment(rv: RandomVariable<real>, defaultViability: real)
    requires NonNegative(rv.dist) && 0.0 <= defaultViability
    ensures var r := RandApply(SquareArg, [Var(rv)], [], 1.0, defaultViability);
      r.Ok? ==> Sum(r.value.dist) == Sum(rv.dist) && Moment(r.value.dist, Identity) == Moment(rv.dist, Square)
  {
    var noArgs: seq<Arg<real>> := [];
    assert Resolved([Var(rv)], defaultViability) == [rv];
    assert Resolved(noArgs, defaultViability) == [];
    SquaredDistribution(rv);
  }

  /**
   * The variance `E[X^2] - E[X]^2` is the mean squared deviation from the
   * expected value: times the weight sum, the squared deviations from
   * `expected_value(var)`.
   */
  lemma VarianceIsCentralMoment(rv: RandomVariable<real>, defaultViability: real)
    requires NonNegative(rv.dist) && 0.0 <= defaultViability
    ensures var r := Variance(rv, defaultViability);
      r.Ok? ==> ExpectedValue(rv).Ok? && MeanOf(r.value, Sum(rv.dist), Moment(rv.dist, DeviationFrom(ExpectedValue(rv).value)))
  {
    var r := Variance(rv, defaultViability);
    if r.Ok? {
      VarianceSplit(rv, defaultViability);
      var mu := ExpectedValue(rv).value;
      var e2: real :| SquareMeanSplit(rv.dist, e2, mu, r.value);
      assert MeanOf(mu, Sum(rv.dist), Moment(rv.dist, Identity));
      CentralOfSplit(rv.dist, e2, mu, r.value);
    }
  }

  /** A variance splits as the mean square of the values less the square of their mean. */
  lemma VarianceSplit(rv: RandomVariable<real>, defaultViability: real)
    requires NonNegative(rv.dist) && 0.0 <= defaultViability
    ensures var r := Variance(rv, defaultViability);
      r.Ok? ==> ExpectedValue(rv).Ok? && exists e2: real :: SquareMeanSplit(rv.dist, e2, ExpectedValue(rv).value, r.value)
  {
    var r := Variance(rv, defaultViability);
    if r.Ok? {
      VarianceParts(rv, defaultViability);
      SecondMoment(rv, defaultViability);
      var sq := RandApply(SquareArg, [Var(rv)], [], 1.0, defaultViability).value;
      MeanCarriedOver(sq.dist, rv.dist, ExpectedValue(sq).value, Square, Identity);
      assert SquareMeanSplit(rv.dist, ExpectedValue(sq).value, ExpectedValue(rv).value, r.value);
    }
  }

  lemma VarianceParts(rv: RandomVariable<real>, defaultViability: real)
    requires 0.0 <= defaultViability
    ensures var r := Variance(rv, defaultViability);
      var s := RandApply(SquareArg, [Var(rv)], [], 1.0, defaultViability);
      r.Ok? ==> s.Ok? && ExpectedValue(s.value).Ok? && ExpectedValue(rv).Ok? &&
                r.value == ExpectedValue(s.value).value - Square(ExpectedValue(rv).value)
  {
  }

  /** A variance is never negative. */
  lemma VarianceNonNegative(rv: RandomVariable<real>, defaultViability: real)
    requires NonNegative(rv.dist) && 0.0 <= defaultViability
    ensures Variance(rv, defaultViability).Ok? ==> 0.0 <= Variance(rv, defaultViability).value
  {
    var r := Variance(rv, defaultViability);
    if r.Ok? {
      VarianceIsCentralMoment(rv, defaultViability);
      DeviationNonNegative(rv.dist, ExpectedValue(rv).value);
      SumNonNegative(rv.dist);
      SignOfQuotient(r.value, Sum(rv.dist), Moment(rv.dist, DeviationFrom(ExpectedValue(rv).value)));
    }
  }
}
