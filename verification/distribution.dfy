/**
 * Finite distributions as association lists: the model of a Python `dict`
 * from value to weight, in insertion order. Weights are exact reals, so the
 * floating-point rounding the Python code guards against does not arise
 * here; the guard itself (the viability check) is still modelled.
 */
module Distribution {

  /** One `value: weight` pair of a distribution mapping. */
  datatype Entry<T> = Entry(value: T, weight: real)

  /** The keys of `d`, in insertion order (iterating a dict). */
  function Keys<T>(d: seq<Entry<T>>): (ks: seq<T>)
    ensures |ks| == |d|
    ensures forall i :: 0 <= i < |d| ==> ks[i] == d[i].value
  {
    seq(|d|, i requires 0 <= i < |d| => d[i].value)
  }

  /** A dict never holds the same key twice. */
  ghost predicate DistinctKeys<T>(d: seq<Entry<T>>)
  {
    forall i, j :: 0 <= i < j < |d| ==> d[i].value != d[j].value
  }

  ghost predicate NonNegative<T>(d: seq<Entry<T>>)
  {
    forall i :: 0 <= i < |d| ==> 0.0 <= d[i].weight
  }

  /** Every weight is a probability, as both constructors assert. */
  predicate Probabilities<T>(d: seq<Entry<T>>)
  {
    forall i :: 0 <= i < |d| ==> 0.0 <= d[i].weight <= 1.0
  }

  /** `sum(dist.values())`. */
  function Sum<T>(d: seq<Entry<T>>): real
  {
    if |d| == 0 then 0.0 else d[0].weight + Sum(d[1..])
  }

  /** `sum(g(val) * weight for val, weight in dist.items())`. */
  function Moment<T>(d: seq<Entry<T>>, g: T -> real): real
  {
    if |d| == 0 then 0.0 else Contribution(d[0], g) + Moment(d[1..], g)
  }

  /** One term `g(val) * weight` of a moment. */
  function Contribution<T>(e: Entry<T>, g: T -> real): real
  {
    g(e.value) * e.weight
  }

  function Abs(x: real): real
  {
    if x < 0.0 then -x else x
  }

  /** Python's `min` over a non-empty sequence. */
  function Min(s: seq<real>): (m: real)
    requires |s| > 0
    ensures m in s
    ensures forall x :: x in s ==> m <= x
  {
    if |s| == 1 then s[0]
    else
      var rest := Min(s[1..]);
      assert forall x :: x in s ==> x == s[0] || x in s[1..];
      if s[0] <= rest then s[0] else rest
  }

  /** Python's `max` over a non-empty sequence. */
  function Max(s: seq<real>): (m: real)
    requires |s| > 0
    ensures m in s
    ensures forall x :: x in s ==> x <= m
  {
    if |s| == 1 then s[0]
    else
      var rest := Max(s[1..]);
      assert forall x :: x in s ==> x == s[0] || x in s[1..];
      if s[0] >= rest then s[0] else rest
  }

  lemma {:induction false} SumAppend<T>(a: seq<Entry<T>>, b: seq<Entry<T>>)
    ensures Sum(a + b) == Sum(a) + Sum(b)
  {
    if |a| == 0 {
      assert a + b == b;
    } else {
      assert (a + b)[1..] == a[1..] + b;
      SumAppend(a[1..], b);
    }
  }

  lemma {:induction false} SumNonNegative<T>(d: seq<Entry<T>>)
    requires NonNegative(d)
    ensures 0.0 <= Sum(d)
  {
    if |d| > 0 {
      SumNonNegative(d[1..]);
    }
  }

  /** Taking one more entry adds its weight to a prefix sum. */
  lemma PrefixSumStep<T>(d: seq<Entry<T>>, i: nat)
    requires i < |d|
    ensures Sum(d[..i+1]) == Sum(d[..i]) + d[i].weight
  {
    assert d[..i+1] == d[..i] + [d[i]];
    SumAppend(d[..i], [d[i]]);
  }

  /** A prefix sum of `d` is the head weight plus a prefix sum of the tail. */
  lemma PrefixSumTail<T>(d: seq<Entry<T>>, j: nat)
    requires j < |d|
    ensures Sum(d[..j+1]) == d[0].weight + Sum(d[1..][..j])
  {
    assert d[..j+1][1..] == d[1..][..j];
  }

  lemma PrefixSumMonotone<T>(d: seq<Entry<T>>, i: nat, j: nat)
    requires NonNegative(d)
    requires i <= j <= |d|
    ensures Sum(d[..i]) <= Sum(d[..j])
  {
    assert d[..j] == d[..i] + d[i..j];
    SumAppend(d[..i], d[i..j]);
    assert NonNegative(d[i..j]) by {
      forall k | 0 <= k < j - i
        ensures 0.0 <= d[i..j][k].weight
      {
        assert d[i..j][k] == d[i + k];
      }
    }
    SumNonNegative(d[i..j]);
  }

  lemma PrefixSumWhole<T>(d: seq<Entry<T>>)
    ensures Sum(d[..|d|]) == Sum(d)
  {
    assert d[..|d|] == d;
  }

  /**
   * Entry `j` owns the half-open interval `[Sum(d[..j]), Sum(d[..j+1]))` and
   * `x` lies in it: the draw `x` selects entry `j`.
   */
  ghost predicate Covers<T>(d: seq<Entry<T>>, j: int, x: real)
  {
    0 <= j < |d| && Sum(d[..j]) <= x < Sum(d[..j+1])
  }

  /** The intervals of the entries do not overlap. */
  lemma CoverIsUnique<T>(d: seq<Entry<T>>, j: int, k: int, x: real)
    requires NonNegative(d)
    requires Covers(d, j, x) && Covers(d, k, x)
    ensures j == k
  {
    if j < k {
      PrefixSumMonotone(d, j + 1, k);
    } else if k < j {
      PrefixSumMonotone(d, k + 1, j);
    }
  }

  /** An entry of weight zero owns an empty interval and is never selected. */
  lemma CoverHasPositiveWeight<T>(d: seq<Entry<T>>, j: int, x: real)
    requires Covers(d, j, x)
    ensures d[j].weight > 0.0
  {
    PrefixSumStep(d, j);
  }

  /** The intervals of the entries cover `[0, Sum(d))`. */
  lemma {:induction false} CoverExists<T>(d: seq<Entry<T>>, x: real)
    requires NonNegative(d)
    requires 0.0 <= x < Sum(d)
    ensures exists j :: Covers(d, j, x)
  {
    assert |d| > 0;
    PrefixSumTail(d, 0);
    assert d[..0] == [];
    if x < d[0].weight {
      assert Covers(d, 0, x);
    } else {
      CoverExists(d[1..], x - d[0].weight);
      var j :| Covers(d[1..], j, x - d[0].weight);
      PrefixSumTail(d, j);
      PrefixSumTail(d, j + 1);
      assert Covers(d, j + 1, x);
    }
  }

  /** `v in dist`. */
  ghost predicate HasKey<T>(d: seq<Entry<T>>, v: T)
  {
    exists i :: 0 <= i < |d| && d[i].value == v
  }

  /**
   * `dist[val]` if `val in dist` else `0.0`: the weight of the first entry
   * with value `v`, and zero for a value that is not a key.
   */
  function Lookup<T(==)>(d: seq<Entry<T>>, v: T): (w: real)
    ensures !HasKey(d, v) ==> w == 0.0
    ensures DistinctKeys(d) ==> forall i :: 0 <= i < |d| && d[i].value == v ==> w == d[i].weight
  {
    if |d| == 0 then 0.0
    else if d[0].value == v then d[0].weight
    else
      assert forall i :: 0 < i < |d| ==> d[1..][i - 1] == d[i];
      Lookup(d[1..], v)
  }

  /**
   * `if val not in dist: dist[val] = w` / `else: dist[val] += w`: a new key
   * goes to the end, an existing one keeps its place and gains `w`.
   */
  function AddTo<T(==)>(d: seq<Entry<T>>, v: T, w: real): (r: seq<Entry<T>>)
    ensures Sum(r) == Sum(d) + w
    ensures HasKey(r, v)
    ensures |r| == |d| || (|r| == |d| + 1 && r[|d|] == Entry(v, w) && !HasKey(d, v))
    ensures forall i :: 0 <= i < |r| ==> r[i].value == (if i < |d| then d[i].value else v)
    ensures forall i :: 0 <= i < |d| && d[i].value != v ==> r[i] == d[i]
  {
    if |d| == 0 then [Entry(v, w)]
    else if d[0].value == v then [Entry(v, d[0].weight + w)] + d[1..]
    else
      var rest := AddTo(d[1..], v, w);
      assert !HasKey(d[1..], v) ==> !HasKey(d, v);
      [d[0]] + rest
  }

  lemma {:induction false} AddToKeys<T>(d: seq<Entry<T>>, v: T, w: real, u: T)
    ensures HasKey(AddTo(d, v, w), u) <==> HasKey(d, u) || u == v
  {
    var r := AddTo(d, v, w);
    if HasKey(r, u) {
      var i :| 0 <= i < |r| && r[i].value == u;
      if i < |d| {
        assert d[i].value == u;
      }
    }
    if HasKey(d, u) {
      var i :| 0 <= i < |d| && d[i].value == u;
      assert r[i].value == u;
    }
  }

  lemma {:induction false} AddToDistinct<T>(d: seq<Entry<T>>, v: T, w: real)
    requires DistinctKeys(d)
    ensures DistinctKeys(AddTo(d, v, w))
  {
    var r := AddTo(d, v, w);
    forall i, j | 0 <= i < j < |r|
      ensures r[i].value != r[j].value
    {
      if j == |d| {
        assert r[j].value == v && !HasKey(d, v);
        assert r[i].value == d[i].value;
      }
    }
  }

  lemma {:induction false} AddToLookup<T>(d: seq<Entry<T>>, v: T, w: real, u: T)
    requires DistinctKeys(d)
    ensures Lookup(AddTo(d, v, w), u) == Lookup(d, u) + (if u == v then w else 0.0)
  {
    var r := AddTo(d, v, w);
    AddToDistinct(d, v, w);
    AddToKeys(d, v, w, u);
    if HasKey(d, u) {
      var i :| 0 <= i < |d| && d[i].value == u;
      assert r[i].value == u;
      if u != v {
        assert r[i] == d[i];
      } else {
        assert r[i].weight == d[i].weight + w by {
          AddToWeight(d, v, w, i);
        }
      }
    } else if u == v {
      assert r[|d|] == Entry(v, w);
    }
  }

  lemma {:induction false} AddToWeight<T>(d: seq<Entry<T>>, v: T, w: real, i: nat)
    requires i < |d| && d[i].value == v
    requires DistinctKeys(d)
    ensures AddTo(d, v, w)[i].weight == d[i].weight + w
  {
    if d[0].value != v {
      AddToWeight(d[1..], v, w, i - 1);
    }
  }

  lemma MomentCons<T>(e: Entry<T>, rest: seq<Entry<T>>, g: T -> real)
    ensures Moment([e] + rest, g) == Contribution(e, g) + Moment(rest, g)
  {
    assert ([e] + rest)[1..] == rest;
  }

  /** Merging two weights of the same value merges their contributions. */
  lemma ContributionSplit<T>(v: T, a: real, b: real, g: T -> real)
    ensures Contribution(Entry(v, a + b), g) == Contribution(Entry(v, a), g) + Contribution(Entry(v, b), g)
  {
    assert g(v) * (a + b) == g(v) * a + g(v) * b;
  }

  lemma {:induction false} AddToMoment<T>(d: seq<Entry<T>>, v: T, w: real, g: T -> real)
    ensures Moment(AddTo(d, v, w), g) == Moment(d, g) + Contribution(Entry(v, w), g)
  {
    var r := AddTo(d, v, w);
    if |d| == 0 {
      MomentCons(Entry(v, w), [], g);
      assert [Entry(v, w)] + [] == r;
    } else {
      var head, tail := d[0], d[1..];
      assert d == [head] + tail;
      MomentCons(head, tail, g);
      if head.value == v {
        var e := Entry(v, head.weight + w);
        assert r == [e] + tail;
        MomentCons(e, tail, g);
        ContributionSplit(v, head.weight, w, g);
        assert Moment(r, g) == Contribution(head, g) + Contribution(Entry(v, w), g) + Moment(tail, g);
      } else {
        var rest := AddTo(tail, v, w);
        AddToMoment(tail, v, w, g);
        assert r == [head] + rest;
        MomentCons(head, rest, g);
        assert Moment(r, g) == Contribution(head, g) + Moment(tail, g) + Contribution(Entry(v, w), g);
      }
    }
  }

  /** The total weight of the outcomes with positive weight. */
  function PositiveSum<T>(items: seq<Entry<T>>): real
  {
    if |items| == 0 then 0.0
    else (if items[0].weight > 0.0 then items[0].weight else 0.0) + PositiveSum(items[1..])
  }

  /** The total weight of the outcomes with positive weight whose value is `v`. */
  function MassOf<T(==)>(items: seq<Entry<T>>, v: T): real
  {
    if |items| == 0 then 0.0
    else (if items[0].weight > 0.0 && items[0].value == v then items[0].weight else 0.0) + MassOf(items[1..], v)
  }

  /** `Moment` restricted to the outcomes with positive weight. */
  function PositiveMoment<T>(items: seq<Entry<T>>, g: T -> real): real
  {
    if |items| == 0 then 0.0
    else (if items[0].weight > 0.0 then Contribution(items[0], g) else 0.0) + PositiveMoment(items[1..], g)
  }

  ghost predicate Reaches<T>(items: seq<Entry<T>>, v: T)
  {
    exists k :: 0 <= k < |items| && items[k].weight > 0.0 && items[k].value == v
  }

  /**
   * The accumulation loop of both combinators: every outcome of positive
   * weight is added into `d` with `AddTo`, in order; the others are skipped.
   */
  function Accumulate<T(==)>(d: seq<Entry<T>>, items: seq<Entry<T>>): (r: seq<Entry<T>>)
    ensures DistinctKeys(d) ==> DistinctKeys(r)
    ensures Sum(r) == Sum(d) + PositiveSum(items)
    decreases |items|
  {
    if |items| == 0 then d
    else if items[0].weight > 0.0 then
      AddToDistinctIfDistinct(d, items[0].value, items[0].weight);
      Accumulate(AddTo(d, items[0].value, items[0].weight), items[1..])
    else Accumulate(d, items[1..])
  }

  lemma {:induction false} AddToDistinctIfDistinct<T>(d: seq<Entry<T>>, v: T, w: real)
    ensures DistinctKeys(d) ==> DistinctKeys(AddTo(d, v, w))
  {
    if DistinctKeys(d) {
      AddToDistinct(d, v, w);
    }
  }

  /** After accumulation the weight of `u` has grown by exactly the mass of the outcomes equal to `u`. */
  lemma {:induction false} AccumulateLookup<T>(d: seq<Entry<T>>, items: seq<Entry<T>>, u: T)
    requires DistinctKeys(d)
    ensures Lookup(Accumulate(d, items), u) == Lookup(d, u) + MassOf(items, u)
    decreases |items|
  {
    if |items| > 0 {
      if items[0].weight > 0.0 {
        AddToLookup(d, items[0].value, items[0].weight, u);
        AddToDistinct(d, items[0].value, items[0].weight);
        AccumulateLookup(AddTo(d, items[0].value, items[0].weight), items[1..], u);
      } else {
        AccumulateLookup(d, items[1..], u);
      }
    }
  }

  /** The keys after accumulation are the old keys and the values of the positive outcomes. */
  lemma {:induction false} AccumulateKeys<T>(d: seq<Entry<T>>, items: seq<Entry<T>>, u: T)
    ensures HasKey(Accumulate(d, items), u) <==> HasKey(d, u) || Reaches(items, u)
    decreases |items|
  {
    if |items| > 0 {
      assert Reaches(items, u) <==> (items[0].weight > 0.0 && items[0].value == u) || Reaches(items[1..], u) by {
        if Reaches(items, u) {
          var k :| 0 <= k < |items| && items[k].weight > 0.0 && items[k].value == u;
          if k > 0 {
            assert items[1..][k - 1] == items[k];
          }
        }
        if Reaches(items[1..], u) {
          var k :| 0 <= k < |items[1..]| && items[1..][k].weight > 0.0 && items[1..][k].value == u;
          assert items[k + 1] == items[1..][k];
        }
      }
      if items[0].weight > 0.0 {
        AddToKeys(d, items[0].value, items[0].weight, u);
        AccumulateKeys(AddTo(d, items[0].value, items[0].weight), items[1..], u);
      } else {
        AccumulateKeys(d, items[1..], u);
      }
    }
  }

  lemma {:induction false} AccumulateMoment<T>(d: seq<Entry<T>>, items: seq<Entry<T>>, g: T -> real)
    ensures Moment(Accumulate(d, items), g) == Moment(d, g) + PositiveMoment(items, g)
    decreases |items|, 1
  {
    if |items| > 0 {
      if items[0].weight > 0.0 {
        AccumulateMomentAdd(d, items, g);
      } else {
        AccumulateMomentSkip(d, items, g);
      }
    }
  }

  lemma {:induction false} AccumulateMomentAdd<T>(d: seq<Entry<T>>, items: seq<Entry<T>>, g: T -> real)
    requires |items| > 0 && items[0].weight > 0.0
    ensures Moment(Accumulate(d, items), g) == Moment(d, g) + PositiveMoment(items, g)
    decreases |items|, 0
  {
    var d' := AddTo(d, items[0].value, items[0].weight);
    AccumulateStep(d, items);
    PositiveMomentStep(items, g);
    AddToMoment(d, items[0].value, items[0].weight, g);
    AccumulateMoment(d', items[1..], g);
  }

  lemma AccumulateStep<T>(d: seq<Entry<T>>, items: seq<Entry<T>>)
    requires |items| > 0 && items[0].weight > 0.0
    ensures Accumulate(d, items) == Accumulate(AddTo(d, items[0].value, items[0].weight), items[1..])
  {
  }

  lemma PositiveMomentStep<T>(items: seq<Entry<T>>, g: T -> real)
    requires |items| > 0 && items[0].weight > 0.0
    ensures PositiveMoment(items, g) == Contribution(items[0], g) + PositiveMoment(items[1..], g)
  {
  }

  lemma {:induction false} AccumulateMomentSkip<T>(d: seq<Entry<T>>, items: seq<Entry<T>>, g: T -> real)
    requires |items| > 0 && items[0].weight <= 0.0
    ensures Moment(Accumulate(d, items), g) == Moment(d, g) + PositiveMoment(items, g)
    decreases |items|, 0
  {
    AccumulateMoment(d, items[1..], g);
    assert Accumulate(d, items) == Accumulate(d, items[1..]);
    assert PositiveMoment(items, g) == PositiveMoment(items[1..], g);
  }

  lemma {:induction false} PositiveSumOfNonNegative<T>(items: seq<Entry<T>>)
    requires NonNegative(items)
    ensures PositiveSum(items) == Sum(items)
  {
    if |items| > 0 {
      PositiveSumOfNonNegative(items[1..]);
    }
  }

  lemma {:induction false} PositiveMomentOfNonNegative<T>(items: seq<Entry<T>>, g: T -> real)
    requires NonNegative(items)
    ensures PositiveMoment(items, g) == Moment(items, g)
  {
    if |items| > 0 {
      PositiveMomentOfNonNegative(items[1..], g);
    }
  }

  /** No outcome reaches `v` with more than the positive mass of all outcomes. */
  lemma {:induction false} MassOfAtMostPositiveSum<T>(items: seq<Entry<T>>, v: T)
    ensures 0.0 <= MassOf(items, v) <= PositiveSum(items)
  {
    if |items| > 0 {
      MassOfAtMostPositiveSum(items[1..], v);
    }
  }

  /** The outcome of the probability checks both constructors run. */
  datatype Check = Viable | OutOfRange | Deviates(error: real)

  /**
   * `assert 0 <= prob <= 1` for every weight, then
   * `err = abs(sum - 1.0)` and a failure when `err > viability`.
   */
  function CheckProbabilities<T>(d: seq<Entry<T>>, viability: real): (c: Check)
    ensures c == OutOfRange <==> !Probabilities(d)
    ensures c.Deviates? <==> Probabilities(d) && Abs(Sum(d) - 1.0) > viability
    ensures c.Deviates? ==> c.error == Abs(Sum(d) - 1.0)
  {
    if !Probabilities(d) then OutOfRange
    else
      var err := Abs(Sum(d) - 1.0);
      if err > viability then Deviates(err) else Viable
  }

  /** The keys `ks`, each paired with its weight in `d`. */
  function WeighKeys<T(==)>(d: seq<Entry<T>>, ks: seq<T>): (r: seq<Entry<T>>)
    ensures |r| == |ks|
    ensures forall i :: 0 <= i < |ks| ==> r[i] == Entry(ks[i], Lookup(d, ks[i]))
  {
    seq(|ks|, i requires 0 <= i < |ks| => Entry(ks[i], Lookup(d, ks[i])))
  }

  /** The total weight of the entries of `d` whose value is in `s`. */
  function MassIn<T>(d: seq<Entry<T>>, s: set<T>): real
  {
    if |d| == 0 then 0.0
    else (if d[0].value in s then d[0].weight else 0.0) + MassIn(d[1..], s)
  }

  ghost predicate NoDuplicates<T>(s: seq<T>)
  {
    forall i, j :: 0 <= i < j < |s| ==> s[i] != s[j]
  }

  lemma {:induction false} MassInSingleton<T>(d: seq<Entry<T>>, v: T)
    requires DistinctKeys(d)
    ensures MassIn(d, {v}) == Lookup(d, v)
  {
    if |d| > 0 {
      MassInSingleton(d[1..], v);
      if d[0].value == v {
        assert MassIn(d[1..], {v}) == 0.0 by {
          MassInNone(d[1..], {v});
        }
      }
    }
  }

  lemma {:induction false} MassInNone<T>(d: seq<Entry<T>>, s: set<T>)
    requires forall i :: 0 <= i < |d| ==> d[i].value !in s
    ensures MassIn(d, s) == 0.0
  {
    if |d| > 0 {
      MassInNone(d[1..], s);
    }
  }

  lemma {:induction false} MassInUnion<T>(d: seq<Entry<T>>, s: set<T>, t: set<T>)
    requires s !! t
    ensures MassIn(d, s + t) == MassIn(d, s) + MassIn(d, t)
  {
    if |d| > 0 {
      MassInUnion(d[1..], s, t);
    }
  }

  lemma {:induction false} MassInAll<T>(d: seq<Entry<T>>, s: set<T>)
    requires forall i :: 0 <= i < |d| ==> d[i].value in s
    ensures MassIn(d, s) == Sum(d)
  {
    if |d| > 0 {
      MassInAll(d[1..], s);
    }
  }

  /**
   * Looking up each of a list of distinct keys and adding the weights gives
   * the mass of those keys, whatever order the list is in.
   */
  lemma {:induction false} WeighKeysMass<T>(d: seq<Entry<T>>, ks: seq<T>)
    requires DistinctKeys(d)
    requires NoDuplicates(ks)
    ensures Sum(WeighKeys(d, ks)) == MassIn(d, set k | k in ks)
  {
    if |ks| == 0 {
      assert (set k | k in ks) == {};
      MassInNone(d, {});
    } else {
      var rest := ks[1..];
      assert WeighKeys(d, ks)[1..] == WeighKeys(d, rest);
      WeighKeysMass(d, rest);
      assert (set k | k in ks) == {ks[0]} + (set k | k in rest) by {
        assert forall k :: k in ks <==> k == ks[0] || k in rest;
      }
      assert ks[0] !in (set k | k in rest) by {
        forall i | 0 <= i < |rest|
          ensures rest[i] != ks[0]
        {
          assert rest[i] == ks[i + 1];
        }
      }
      MassInUnion(d, {ks[0]}, set k | k in rest);
      MassInSingleton(d, ks[0]);
    }
  }

  /** `f = g + a * h + b` at the argument `x`. */
  ghost predicate AffineAt<T>(f: T -> real, g: T -> real, h: T -> real, a: real, b: real, x: T)
  {
    f(x) == g(x) + a * h(x) + b
  }

  /** `f = g + a * h + b` at every argument. */
  ghost predicate AffineIn<T(!new)>(f: T -> real, g: T -> real, h: T -> real, a: real, b: real)
  {
    forall x :: AffineAt(f, g, h, a, b, x)
  }

  /** `c = p + a * q + b * w`: one moment written through two others and the mass. */
  ghost predicate Combines(c: real, p: real, q: real, w: real, a: real, b: real)
  {
    c == p + a * q + b * w
  }

  /**
   * A moment is linear in its function: `f = g + a * h + b` pointwise gives
   * the same relation between the moments, with the mass for the constant.
   */
  lemma {:induction false} MomentLinear<T(!new)>(d: seq<Entry<T>>, f: T -> real, g: T -> real, h: T -> real, a: real, b: real)
    requires AffineIn(f, g, h, a, b)
    ensures Combines(Moment(d, f), Moment(d, g), Moment(d, h), Sum(d), a, b)
  {
    if |d| > 0 {
      var rest := d[1..];
      MomentLinear(rest, f, g, h, a, b);
      assert AffineAt(f, g, h, a, b, d[0].value);
      ContributionLinear(d[0], f, g, h, a, b);
      GatherTerms();
    }
  }

  lemma ContributionLinear<T>(e: Entry<T>, f: T -> real, g: T -> real, h: T -> real, a: real, b: real)
    requires AffineAt(f, g, h, a, b, e.value)
    ensures Combines(Contribution(e, f), Contribution(e, g), Contribution(e, h), e.weight, a, b)
  {
    ScaleTerms(g(e.value), h(e.value), e.weight, a, b);
  }

  lemma ScaleTerms(p: real, q: real, w: real, a: real, b: real)
    ensures (p + a * q + b) * w == p * w + a * (q * w) + b * w
  {
  }

  /** Two relations `c = p + a * q + b * w` with the same coefficients add up. */
  lemma GatherTerms()
    ensures forall c0, p0, q0, w0, c, p, q, w, a, b ::
              Combines(c0, p0, q0, w0, a, b) && Combines(c, p, q, w, a, b) ==>
                Combines(c0 + c, p0 + p, q0 + q, w0 + w, a, b)
  {
  }

  /** `z` is the product `x * y`. */
  ghost predicate IsProduct(z: real, x: real, y: real)
  {
    z == x * y
  }

  /** Putting one factor `h` in front of both `rq` and `r` keeps `rq == r * q`. */
  lemma ScaleBoth()
    ensures forall hrq, rq, r, q, hr, h ::
              IsProduct(hrq, h, rq) && IsProduct(hr, h, r) && IsProduct(rq, r, q) ==> IsProduct(hrq, hr, q)
  {
    forall hrq, rq, r, q, hr, h | IsProduct(hrq, h, rq) && IsProduct(hr, h, r) && IsProduct(rq, r, q)
      ensures IsProduct(hrq, hr, q)
    {
      assert h * (r * q) == (h * r) * q;
    }
  }

  /** Products sharing a factor add up, on either side. */
  lemma AddProducts()
    ensures forall z1, z2, x, y1, y2 ::
              IsProduct(z1, x, y1) && IsProduct(z2, x, y2) ==> IsProduct(z1 + z2, x, y1 + y2)
    ensures forall z1, z2, x1, x2, y ::
              IsProduct(z1, x1, y) && IsProduct(z2, x2, y) ==> IsProduct(z1 + z2, x1 + x2, y)
  {
  }

  lemma ProductNonNegative(x: real, w: real)
    requires 0.0 <= x && 0.0 <= w
    ensures 0.0 <= x * w
  {
  }

  /** A non-negative function has a non-negative moment under non-negative weights. */
  lemma {:induction false} MomentNonNegative<T>(d: seq<Entry<T>>, g: T -> real)
    requires NonNegative(d)
    requires forall x :: 0.0 <= g(x)
    ensures 0.0 <= Moment(d, g)
  {
    if |d| > 0 {
      MomentNonNegative(d[1..], g);
      ProductNonNegative(g(d[0].value), d[0].weight);
    }
  }
}
