/**
 * `randvar/core.py`: a random variable with finite domain, stored as its
 * distribution, its viability (how far the total probability may stray from
 * 1) and the cumulative search index; drawing a value by binary search; and
 * `rand_apply`, the exact distribution of a function applied to independent
 * random arguments.
 *
 * The draw `random()` is a parameter `x`, and the module-level
 * `DEFAULT_VIABILITY` is the parameter `defaultViability`, which
 * `set_default_viability` only ever sets to a value of at least 0.
 */
module RandVarCore {
  import opened Wrappers
  import opened Distribution
  import opened Product
  import opened SearchIndex

  /** The exceptions the modelled code raises. */
  datatype Error =
    | AssertionFailure                   // `assert 0 <= prob <= 1`
    | InviableRandomVariable(error: real) // `InviableRandomVariableError(err)`
    | IndexError                         // `self._search[ind]` past the end
    | AttributeError                     // `kwargs[name]._dist` on a constant

  /** `RandomVariable`: `_dist`, `_viability` and `_search`. */
  datatype RandomVariable<T> = RandomVariable(dist: seq<Entry<T>>, viability: real, search: seq<SearchNode<T>>)

  /** What the constructor establishes about every random variable it returns. */
  ghost predicate Valid<T>(rv: RandomVariable<T>)
  {
    && DistinctKeys(rv.dist)
    && Probabilities(rv.dist)
    && Abs(Sum(rv.dist) - 1.0) <= rv.viability
    && rv.search == BuildIndex(rv.dist)
  }

  /** `viability=None` stands for the current default. */
  function ViabilityOrDefault(viability: Option<real>, defaultViability: real): real
  {
    if viability.Some? then viability.value else defaultViability
  }

  /**
   * `RandomVariable(dist, viability)`: every probability must lie in
   * `[0, 1]`, then the total may deviate from 1 by at most the viability;
   * otherwise the distribution is stored unchanged with its search index.
   */
  function New<T>(dist: seq<Entry<T>>, viability: Option<real>, defaultViability: real): (r: Result<RandomVariable<T>, Error>)
    requires DistinctKeys(dist)
    ensures r == Err(AssertionFailure) <==> !Probabilities(dist)
    ensures r.Ok? <==> Probabilities(dist) && Abs(Sum(dist) - 1.0) <= ViabilityOrDefault(viability, defaultViability)
    ensures r.Err? && Probabilities(dist) ==> r.error == InviableRandomVariable(Abs(Sum(dist) - 1.0))
    ensures r.Ok? ==> Valid(r.value) && r.value.dist == dist
    ensures r.Ok? ==> r.value.viability == ViabilityOrDefault(viability, defaultViability)
  {
    var v := ViabilityOrDefault(viability, defaultViability);
    match CheckProbabilities(dist, v)
    case OutOfRange => Err(AssertionFailure)
    case Deviates(err) => Err(InviableRandomVariable(err))
    case Viable => Ok(RandomVariable(dist, v, BuildIndex(dist)))
  }

  /** `rv[val]`: the stored probability of `val`, or 0.0 when `val` is not a key. */
  function Probability<T(==)>(rv: RandomVariable<T>, v: T): (p: real)
    ensures !HasKey(rv.dist, v) ==> p == 0.0
    ensures DistinctKeys(rv.dist) ==> forall i :: 0 <= i < |rv.dist| && rv.dist[i].value == v ==> p == rv.dist[i].weight
    ensures Valid(rv) ==> 0.0 <= p <= 1.0
  {
    Lookup(rv.dist, v)
  }

  /** The draw `x` selects `v`: the interval of an entry with value `v` holds `x`. */
  ghost predicate Selects<T>(rv: RandomVariable<T>, x: real, v: T)
  {
    exists j :: Covers(rv.dist, j, x) && rv.dist[j].value == v
  }

  /**
   * `choice()` with the draw `x = random()` as a parameter: the binary
   * search over the index. It succeeds exactly when `x` is below the total
   * probability (which may be below 1 within the viability) and then
   * returns the value whose interval holds `x`, never a value of
   * probability 0.
   */
  method Choice<T(==)>(rv: RandomVariable<T>, x: real) returns (r: Result<T, Error>)
    requires Valid(rv)
    requires 0.0 <= x
    ensures r.Ok? <==> x < Sum(rv.dist)
    ensures r.Ok? ==> Selects(rv, x, r.value) && Probability(rv, r.value) > 0.0
    ensures r.Err? ==> r.error == IndexError
  {
    assert NonNegative(rv.dist);
    BuildIndexShape(rv.dist);
    var found := Search(rv.search, x);
    if found.None? {
      assert !(x < Sum(rv.dist)) by {
        if |rv.dist| > 0 {
          assert rv.search[|rv.dist| - 1].upper <= x;
        }
      }
      return Err(IndexError);
    }
    var j := found.value;
    assert x < rv.search[|rv.dist| - 1].upper;
    assert Covers(rv.dist, j, x);
    CoverHasPositiveWeight(rv.dist, j, x);
    r := Ok(rv.search[j].value);
    assert Selects(rv, x, r.value);
  }

  /** A draw selects at most one value. */
  lemma SelectionIsUnique<T>(rv: RandomVariable<T>, x: real, v: T, w: T)
    requires Valid(rv)
    requires Selects(rv, x, v) && Selects(rv, x, w)
    ensures v == w
  {
    var j :| Covers(rv.dist, j, x) && rv.dist[j].value == v;
    var k :| Covers(rv.dist, k, x) && rv.dist[k].value == w;
    CoverIsUnique(rv.dist, j, k, x);
  }

  /** Every draw below the total probability selects some value. */
  lemma SelectionExists<T>(rv: RandomVariable<T>, x: real)
    requires Valid(rv)
    requires 0.0 <= x < Sum(rv.dist)
    ensures exists v :: Selects(rv, x, v)
  {
    CoverExists(rv.dist, x);
    var j :| Covers(rv.dist, j, x);
    assert Selects(rv, x, rv.dist[j].value);
  }

  /**
   * `sample(size)`: `size` calls of `choice`, the `i`-th consuming the draw
   * `draws[i]`; a negative size gives the empty list. The first draw at or
   * above the total probability raises the `IndexError` of `choice`.
   */
  method Sample<T(==)>(rv: RandomVariable<T>, size: int, draws: seq<real>) returns (r: Result<seq<T>, Error>)
    requires Valid(rv)
    requires size <= |draws|
    requires forall i :: 0 <= i < |draws| ==> 0.0 <= draws[i]
    ensures r.Ok? <==> forall i :: 0 <= i < size ==> draws[i] < Sum(rv.dist)
    ensures r.Ok? ==> |r.value| == (if size < 0 then 0 else size)
    ensures r.Ok? ==> forall i :: 0 <= i < |r.value| ==> Selects(rv, draws[i], r.value[i])
    ensures r.Err? ==> r.error == IndexError
  {
    var out: seq<T> := [];
    var i := 0;
    while i < size
      invariant 0 <= i <= |draws|
      invariant if size < 0 then i == 0 else i <= size
      invariant |out| == i
      invariant forall k :: 0 <= k < i ==> draws[k] < Sum(rv.dist)
      invariant forall k :: 0 <= k < i ==> Selects(rv, draws[k], out[k])
    {
      var c := Choice(rv, draws[i]);
      if c.Err? {
        assert !(draws[i] < Sum(rv.dist));
        return Err(IndexError);
      }
      forall k | 0 <= k < i + 1
        ensures draws[k] < Sum(rv.dist)
      {
      }
      var next := out + [c.value];
      forall k | 0 <= k < i + 1
        ensures Selects(rv, draws[k], next[k])
      {
        if k < i {
          assert next[k] == out[k];
        }
      }
      out, i := next, i + 1;
    }
    assert forall k :: 0 <= k < size ==> draws[k] < Sum(rv.dist);
    return Ok(out);
  }

  /** An argument of `rand_apply`: a random variable, or any other value. */
  datatype Arg<T> = Var(rv: RandomVariable<T>) | Const(value: T)

  /** `RandomVariable({arg: 1})`, built with the default viability. */
  function PointMass<T>(v: T, defaultViability: real): RandomVariable<T>
  {
    RandomVariable([Entry(v, 1.0)], defaultViability, BuildIndex([Entry(v, 1.0)]))
  }

  /** A constant is constructed without error as the one-point distribution. */
  lemma PointMassIsNew<T>(v: T, defaultViability: real)
    requires 0.0 <= defaultViability
    ensures New([Entry(v, 1.0)], None, defaultViability) == Ok(PointMass(v, defaultViability))
  {
    assert Sum([Entry(v, 1.0)]) == 1.0 + Sum([Entry(v, 1.0)][1..]);
  }

  /** Each argument as a random variable: constants become point masses. */
  function Resolve<T>(a: Arg<T>, defaultViability: real): RandomVariable<T>
  {
    match a
    case Var(rv) => rv
    case Const(v) => PointMass(v, defaultViability)
  }

  function Resolved<T>(args: seq<Arg<T>>, defaultViability: real): (r: seq<RandomVariable<T>>)
    ensures |r| == |args|
    ensures forall i :: 0 <= i < |args| ==> r[i] == Resolve(args[i], defaultViability)
  {
    seq(|args|, i requires 0 <= i < |args| => Resolve(args[i], defaultViability))
  }

  function Dists<T>(vars: seq<RandomVariable<T>>): (r: seq<seq<Entry<T>>>)
    ensures |r| == |vars|
    ensures forall i :: 0 <= i < |vars| ==> r[i] == vars[i].dist
  {
    seq(|vars|, i requires 0 <= i < |vars| => vars[i].dist)
  }

  function Viabilities<T>(vars: seq<RandomVariable<T>>): (r: seq<real>)
    ensures |r| == |vars|
    ensures forall i :: 0 <= i < |vars| ==> r[i] == vars[i].viability
  {
    seq(|vars|, i requires 0 <= i < |vars| => vars[i].viability)
  }

  /**
   * `min(chain([viability], ...))`: the least of the `viability` argument
   * and the viabilities of all positional and named arguments.
   */
  function MinViability<T>(viability: real, pos: seq<RandomVariable<T>>, named: seq<RandomVariable<T>>): (m: real)
    ensures m <= viability
    ensures forall i :: 0 <= i < |pos| ==> m <= pos[i].viability
    ensures forall i :: 0 <= i < |named| ==> m <= named[i].viability
    ensures m == viability || (exists i :: 0 <= i < |pos| && m == pos[i].viability)
                           || (exists i :: 0 <= i < |named| && m == named[i].viability)
  {
    var vp, vn := Viabilities(pos), Viabilities(named);
    var all := [viability] + vp + vn;
    assert forall x :: x in vp ==> x in all;
    assert forall x :: x in vn ==> x in all;
    var m := Min(all);
    assert m == viability || m in vp || m in vn;
    assert forall i :: 0 <= i < |pos| ==> vp[i] in vp;
    assert forall i :: 0 <= i < |named| ==> vn[i] in vn;
    m
  }

  /** `functools.reduce(operator.mul, probs, 1)`: the joint weight of a combination. */
  function Weight<T>(c: seq<Entry<T>>): real
  {
    if |c| == 0 then 1.0 else c[0].weight * Weight(c[1..])
  }

  /**
   * The two nested `itertools.product` loops: every combination of one
   * entry per positional argument followed by one entry per named argument,
   * the positional ones varying slowest.
   */
  function Combinations<T>(pos: seq<RandomVariable<T>>, named: seq<RandomVariable<T>>): seq<seq<Entry<T>>>
  {
    Nest(ItProd(Dists(pos)), ItProd(Dists(named)))
  }

  /** `func(*args_inst, **kwargs_inst)` with the joint weight, for every combination in order. */
  function Outcomes<T>(f: seq<T> -> T, combos: seq<seq<Entry<T>>>): (r: seq<Entry<T>>)
    ensures |r| == |combos|
    ensures forall i :: 0 <= i < |combos| ==> r[i] == Entry(f(Keys(combos[i])), Weight(combos[i]))
  {
    seq(|combos|, i requires 0 <= i < |combos| => Entry(f(Keys(combos[i])), Weight(combos[i])))
  }

  /**
   * The `dist` that `rand_apply` builds: outcomes of positive weight are
   * added in order, and outcomes that collide have their weights summed.
   */
  function PushForward<T(==)>(f: seq<T> -> T, combos: seq<seq<Entry<T>>>): (r: seq<Entry<T>>)
    ensures DistinctKeys(r)
  {
    Accumulate([], Outcomes(f, combos))
  }

  /**
   * `rand_apply(func, *args, viability=viability, **kwargs)`, with the named
   * arguments as further positions after the positional ones, in order.
   * The result is constructed with the least viability involved.
   */
  function RandApply<T(==)>(f: seq<T> -> T, pos: seq<Arg<T>>, named: seq<Arg<T>>, viability: real, defaultViability: real)
    : (r: Result<RandomVariable<T>, Error>)
    requires 0.0 <= defaultViability
    ensures r.Ok? ==> Valid(r.value)
    ensures r.Ok? ==>
              r.value.viability == MinViability(viability, Resolved(pos, defaultViability), Resolved(named, defaultViability))
    ensures r.Err? ==> r.error.AssertionFailure? || r.error.InviableRandomVariable?
  {
    var p, n := Resolved(pos, defaultViability), Resolved(named, defaultViability);
    New(PushForward(f, Combinations(p, n)), Some(MinViability(viability, p, n)), defaultViability)
  }

  /** Some named argument is not a random variable. */
  predicate HasConstant<T>(named: seq<Arg<T>>)
  {
    exists i :: 0 <= i < |named| && named[i].Const?
  }

  /**
   * `rand_apply` as written: the inner product reads `kwargs[name]._dist`,
   * the raw argument rather than its converted random variable, so a named
   * constant raises `AttributeError` as soon as the outer loop runs once.
   */
  function RandApplyAsWritten<T(==)>(f: seq<T> -> T, pos: seq<Arg<T>>, named: seq<Arg<T>>, viability: real, defaultViability: real)
    : (r: Result<RandomVariable<T>, Error>)
    requires 0.0 <= defaultViability
    ensures r == Err(AttributeError) <==>
              HasConstant(named) && |ItProd(Dists(Resolved(pos, defaultViability)))| > 0
    ensures r != Err(AttributeError) ==> r == RandApply(f, pos, named, viability, defaultViability)
  {
    if HasConstant(named) && |ItProd(Dists(Resolved(pos, defaultViability)))| > 0 then Err(AttributeError)
    else RandApply(f, pos, named, viability, defaultViability)
  }

  /** `randomable(func, viability)`: the wrapper that calls `rand_apply`. */
  function Randomable<T(==)>(f: seq<T> -> T, viability: real, defaultViability: real)
    : (g: (seq<Arg<T>>, seq<Arg<T>>) -> Result<RandomVariable<T>, Error>)
    requires 0.0 <= defaultViability
  {
    (pos: seq<Arg<T>>, named: seq<Arg<T>>) => RandApply(f, pos, named, viability, defaultViability)
  }

  /** `randomable(func, viability)(*args, **kwargs)` is `rand_apply(func, *args, viability=viability, **kwargs)`. */
  lemma RandomableIsRandApply<T>(f: seq<T> -> T, viability: real, defaultViability: real, pos: seq<Arg<T>>, named: seq<Arg<T>>)
    requires 0.0 <= defaultViability
    ensures Randomable(f, viability, defaultViability)(pos, named) == RandApply(f, pos, named, viability, defaultViability)
  {
  }

  // ---- The distribution `rand_apply` computes ----

  /**
   * The probability of `u` in the pushforward is the total weight of the
   * combinations of positive weight that `f` maps to `u`.
   */
  lemma PushForwardProbability<T>(f: seq<T> -> T, combos: seq<seq<Entry<T>>>, u: T)
    ensures Lookup(PushForward(f, combos), u) == MassOf(Outcomes(f, combos), u)
  {
    AccumulateLookup([], Outcomes(f, combos), u);
  }

  /** The values of the pushforward are the images of the combinations of positive weight. */
  lemma PushForwardSupport<T>(f: seq<T> -> T, combos: seq<seq<Entry<T>>>, u: T)
    ensures HasKey(PushForward(f, combos), u) <==> Reaches(Outcomes(f, combos), u)
  {
    AccumulateKeys([], Outcomes(f, combos), u);
  }

  /**
   * `rand_apply` gives `u` the summed product weight of every argument
   * combination with positive weight on which `f` returns `u`.
   */
  lemma ApplyProbability<T>(f: seq<T> -> T, pos: seq<Arg<T>>, named: seq<Arg<T>>, viability: real, defaultViability: real, u: T)
    requires 0.0 <= defaultViability
    ensures var r := RandApply(f, pos, named, viability, defaultViability);
      r.Ok? ==>
        Probability(r.value, u) == MassOf(Outcomes(f, Combinations(Resolved(pos, defaultViability), Resolved(named, defaultViability))), u)
  {
    PushForwardProbability(f, Combinations(Resolved(pos, defaultViability), Resolved(named, defaultViability)), u);
  }

  /** The support of the result of `rand_apply` is the image of the combinations of positive weight. */
  lemma ApplySupport<T>(f: seq<T> -> T, pos: seq<Arg<T>>, named: seq<Arg<T>>, viability: real, defaultViability: real, u: T)
    requires 0.0 <= defaultViability
    ensures var r := RandApply(f, pos, named, viability, defaultViability);
      r.Ok? ==> (HasKey(r.value.dist, u) <==>
        Reaches(Outcomes(f, Combinations(Resolved(pos, defaultViability), Resolved(named, defaultViability))), u))
  {
    PushForwardSupport(f, Combinations(Resolved(pos, defaultViability), Resolved(named, defaultViability)), u);
  }

  // ---- Conservation of mass ----

  /** The joint weight of two combinations side by side is the product of their weights. */
  lemma {:induction false} WeightAppend<T>(p: seq<Entry<T>>, q: seq<Entry<T>>)
    ensures IsProduct(Weight(p + q), Weight(p), Weight(q))
  {
    if |p| == 0 {
      assert p + q == q;
    } else {
      assert (p + q)[1..] == p[1..] + q;
      WeightAppend(p[1..], q);
      ScaleBoth();
      assert IsProduct(Weight(p + q), p[0].weight, Weight(p[1..] + q));
      assert IsProduct(Weight(p), p[0].weight, Weight(p[1..]));
      assert IsProduct(Weight(p[1..] + q), Weight(p[1..]), Weight(q));
    }
  }

  lemma WeightSingle<T>(e: Entry<T>)
    ensures Weight([e]) == e.weight
  {
    assert [e][1..] == [];
  }

  lemma {:induction false} WeightNonNegative<T>(c: seq<Entry<T>>)
    requires NonNegative(c)
    ensures 0.0 <= Weight(c)
    decreases |c|
  {
    if |c| > 0 {
      WeightNonNegative(c[1..]);
    }
  }

  /** The summed joint weight of a list of combinations. */
  function TotalWeight<T>(cs: seq<seq<Entry<T>>>): real
  {
    if |cs| == 0 then 0.0 else Weight(cs[0]) + TotalWeight(cs[1..])
  }

  /** The product of the total weights of the inputs. */
  function SumProduct<T>(ss: seq<seq<Entry<T>>>): real
  {
    if |ss| == 0 then 1.0 else Sum(ss[0]) * SumProduct(ss[1..])
  }

  lemma {:induction false} TotalWeightAppend<T>(a: seq<seq<Entry<T>>>, b: seq<seq<Entry<T>>>)
    ensures TotalWeight(a + b) == TotalWeight(a) + TotalWeight(b)
  {
    if |a| == 0 {
      assert a + b == b;
    } else {
      assert (a + b)[1..] == a[1..] + b;
      TotalWeightAppend(a[1..], b);
    }
  }

  lemma {:induction false} TotalWeightPrefix<T>(p: seq<Entry<T>>, qs: seq<seq<Entry<T>>>)
    ensures IsProduct(TotalWeight(Prefix(p, qs)), Weight(p), TotalWeight(qs))
  {
    if |qs| > 0 {
      var r := Prefix(p, qs);
      assert r[1..] == Prefix(p, qs[1..]);
      TotalWeightPrefix(p, qs[1..]);
      WeightAppend(p, qs[0]);
      AddProducts();
    }
  }

  lemma NestTotalStep<T>(ps: seq<seq<Entry<T>>>, qs: seq<seq<Entry<T>>>)
    requires |ps| > 0
    ensures TotalWeight(Nest(ps, qs)) == TotalWeight(Prefix(ps[0], qs)) + TotalWeight(Nest(ps[1..], qs))
  {
    assert Nest(ps, qs) == Prefix(ps[0], qs) + Nest(ps[1..], qs);
    TotalWeightAppend(Prefix(ps[0], qs), Nest(ps[1..], qs));
  }

  /** The nested loops multiply total weights. */
  lemma {:induction false} TotalWeightNest<T>(ps: seq<seq<Entry<T>>>, qs: seq<seq<Entry<T>>>)
    ensures IsProduct(TotalWeight(Nest(ps, qs)), TotalWeight(ps), TotalWeight(qs))
  {
    if |ps| > 0 {
      NestTotalStep(ps, qs);
      TotalWeightPrefix(ps[0], qs);
      TotalWeightNest(ps[1..], qs);
      AddProducts();
    }
  }

  lemma {:induction false} TotalWeightSingletons<T>(xs: seq<Entry<T>>)
    ensures TotalWeight(Singletons(xs)) == Sum(xs)
  {
    if |xs| > 0 {
      assert Singletons(xs)[1..] == Singletons(xs[1..]);
      TotalWeightSingletons(xs[1..]);
      WeightSingle(xs[0]);
    }
  }

  /** The combinations of independent arguments carry the product of their total weights. */
  lemma TotalWeightOfNoArguments<T>(ss: seq<seq<Entry<T>>>)
    requires |ss| == 0
    ensures TotalWeight(ItProd(ss)) == 1.0
  {
    var none: seq<Entry<T>> := [];
    assert ItProd(ss) == [none] && [none][1..] == [];
  }

  lemma {:induction false} TotalWeightItProd<T>(ss: seq<seq<Entry<T>>>)
    ensures TotalWeight(ItProd(ss)) == SumProduct(ss)
  {
    if |ss| == 0 {
      TotalWeightOfNoArguments(ss);
    } else {
      assert IsProduct(TotalWeight(ItProd(ss)), Sum(ss[0]), SumProduct(ss[1..])) by {
        TotalWeightNest(Singletons(ss[0]), ItProd(ss[1..]));
        TotalWeightSingletons(ss[0]);
        TotalWeightItProd(ss[1..]);
      }
    }
  }

  lemma {:induction false} SumOutcomes<T>(f: seq<T> -> T, combos: seq<seq<Entry<T>>>)
    ensures Sum(Outcomes(f, combos)) == TotalWeight(combos)
  {
    if |combos| > 0 {
      assert Outcomes(f, combos)[1..] == Outcomes(f, combos[1..]);
      SumOutcomes(f, combos[1..]);
    }
  }

  ghost predicate AllNonNegative<T>(ss: seq<seq<Entry<T>>>)
  {
    forall i :: 0 <= i < |ss| ==> NonNegative(ss[i])
  }

  lemma ItProdNonNegative<T>(ss: seq<seq<Entry<T>>>)
    requires AllNonNegative(ss)
    ensures AllNonNegative(ItProd(ss))
  {
    var r := ItProd(ss);
    forall k | 0 <= k < |r|
      ensures NonNegative(r[k])
    {
      assert r[k] in r;
      ItProdSound(ss, r[k]);
      forall i | 0 <= i < |r[k]|
        ensures 0.0 <= r[k][i].weight
      {
        assert r[k][i] in ss[i];
      }
    }
  }

  lemma NestNonNegative<T>(ps: seq<seq<Entry<T>>>, qs: seq<seq<Entry<T>>>)
    requires AllNonNegative(ps) && AllNonNegative(qs)
    ensures AllNonNegative(Nest(ps, qs))
  {
    var r := Nest(ps, qs);
    forall k | 0 <= k < |r|
      ensures NonNegative(r[k])
    {
      NestMember(ps, qs, r[k]);
      var a, b :| 0 <= a < |ps| && 0 <= b < |qs| && r[k] == ps[a] + qs[b];
      assert NonNegative(ps[a]) && NonNegative(qs[b]);
    }
  }

  lemma {:induction false} OutcomesNonNegative<T>(f: seq<T> -> T, combos: seq<seq<Entry<T>>>)
    requires AllNonNegative(combos)
    ensures NonNegative(Outcomes(f, combos))
  {
    forall i | 0 <= i < |combos|
      ensures 0.0 <= Outcomes(f, combos)[i].weight
    {
      WeightNonNegative(combos[i]);
    }
  }

  /** Every random-variable argument is one the constructor returned. */
  ghost predicate ArgsValid<T>(args: seq<Arg<T>>)
  {
    forall i :: 0 <= i < |args| ==> args[i].Var? ==> Valid(args[i].rv)
  }

  lemma ResolvedNonNegative<T>(args: seq<Arg<T>>, defaultViability: real)
    requires ArgsValid(args)
    ensures AllNonNegative(Dists(Resolved(args, defaultViability)))
  {
  }

  /**
   * The two nested products, positional arguments outside, enumerate the
   * same combinations as one product over all the arguments in order.
   */
  lemma CombinationsAsOneProduct<T>(p: seq<RandomVariable<T>>, n: seq<RandomVariable<T>>)
    ensures Combinations(p, n) == ItProd(Dists(p + n))
  {
    assert Dists(p + n) == Dists(p) + Dists(n);
    ItProdAppend(Dists(p), Dists(n));
  }

  /** The combinations of all arguments carry the product of the arguments' total weights. */
  lemma CombinationsTotal<T>(p: seq<RandomVariable<T>>, n: seq<RandomVariable<T>>)
    ensures TotalWeight(Combinations(p, n)) == SumProduct(Dists(p + n))
  {
    CombinationsAsOneProduct(p, n);
    TotalWeightItProd(Dists(p + n));
  }

  /** Skipping the combinations of weight 0 loses no mass. */
  lemma PushForwardMass<T>(f: seq<T> -> T, combos: seq<seq<Entry<T>>>)
    requires AllNonNegative(combos)
    ensures Sum(PushForward(f, combos)) == TotalWeight(combos)
  {
    OutcomesNonNegative(f, combos);
    PositiveSumOfNonNegative(Outcomes(f, combos));
    SumOutcomes(f, combos);
  }

  /**
   * Conservation of mass: the total probability of the result of
   * `rand_apply` is the product of the total probabilities of its
   * arguments, positional and named alike.
   */
  lemma ApplyConservesMass<T>(f: seq<T> -> T, pos: seq<Arg<T>>, named: seq<Arg<T>>, defaultViability: real)
    requires ArgsValid(pos) && ArgsValid(named)
    ensures var p, n := Resolved(pos, defaultViability), Resolved(named, defaultViability);
      Sum(PushForward(f, Combinations(p, n))) == SumProduct(Dists(p + n))
  {
    var p, n := Resolved(pos, defaultViability), Resolved(named, defaultViability);
    CombinationsNonNegative(pos, named, defaultViability);
    PushForwardMass(f, Combinations(p, n));
    CombinationsTotal(p, n);
  }

  /**
   * When `rand_apply` on valid arguments succeeds: the accumulated
   * probabilities pass the constructor's assertion, and the product of the
   * arguments' totals lies within the least viability of 1. With the
   * assertion passed, any failure is `InviableRandomVariableError` carrying
   * that product's distance from 1.
   */
  lemma RandApplyOutcome<T>(f: seq<T> -> T, pos: seq<Arg<T>>, named: seq<Arg<T>>, viability: real, defaultViability: real)
    requires 0.0 <= defaultViability
    requires ArgsValid(pos) && ArgsValid(named)
    ensures var p, n := Resolved(pos, defaultViability), Resolved(named, defaultViability);
      var r := RandApply(f, pos, named, viability, defaultViability);
      && (r.Ok? <==> Probabilities(PushForward(f, Combinations(p, n)))
                     && Abs(SumProduct(Dists(p + n)) - 1.0) <= MinViability(viability, p, n))
      && (r.Err? && Probabilities(PushForward(f, Combinations(p, n))) ==>
            r.error == InviableRandomVariable(Abs(SumProduct(Dists(p + n)) - 1.0)))
  {
    ApplyConservesMass(f, pos, named, defaultViability);
  }

  /** Every random-variable argument's probabilities sum to exactly 1. */
  ghost predicate TotalsOne<T>(args: seq<Arg<T>>)
  {
    forall i :: 0 <= i < |args| ==> args[i].Var? ==> Sum(args[i].rv.dist) == 1.0
  }

  /**
   * `rand_apply` succeeds on valid arguments whose totals are exactly 1,
   * with a `viability` argument of at least 0, and the result's total is 1.
   */
  lemma RandApplySucceeds<T>(f: seq<T> -> T, pos: seq<Arg<T>>, named: seq<Arg<T>>, viability: real, defaultViability: real)
    requires 0.0 <= defaultViability && 0.0 <= viability
    requires ArgsValid(pos) && ArgsValid(named)
    requires TotalsOne(pos) && TotalsOne(named)
    ensures RandApply(f, pos, named, viability, defaultViability).Ok?
    ensures Sum(RandApply(f, pos, named, viability, defaultViability).value.dist) == 1.0
  {
    var p, n := Resolved(pos, defaultViability), Resolved(named, defaultViability);
    ResolvedTotalsOne(pos, defaultViability);
    ResolvedTotalsOne(named, defaultViability);
    assert Dists(p + n) == Dists(p) + Dists(n);
    SumProductOfOnes(Dists(p + n));
    ApplyConservesMass(f, pos, named, defaultViability);
    var d := PushForward(f, Combinations(p, n));
    assert Sum(d) == 1.0;
    PushForwardProbabilities(f, Combinations(p, n));
    MinViabilityNonNegative(pos, named, viability, defaultViability);
    RandApplyOutcome(f, pos, named, viability, defaultViability);
  }

  /** Converted arguments with totals of 1 still have totals of 1. */
  lemma ResolvedTotalsOne<T>(args: seq<Arg<T>>, defaultViability: real)
    requires TotalsOne(args)
    ensures forall i :: 0 <= i < |args| ==> Sum(Dists(Resolved(args, defaultViability))[i]) == 1.0
  {
    forall i | 0 <= i < |args|
      ensures Sum(Dists(Resolved(args, defaultViability))[i]) == 1.0
    {
      if args[i].Const? {
        var e := [Entry(args[i].value, 1.0)];
        assert Sum(e) == 1.0 + Sum(e[1..]);
      }
    }
  }

  lemma {:induction false} SumProductOfOnes<T>(ss: seq<seq<Entry<T>>>)
    requires forall i :: 0 <= i < |ss| ==> Sum(ss[i]) == 1.0
    ensures SumProduct(ss) == 1.0
  {
    if |ss| > 0 {
      SumProductOfOnes(ss[1..]);
    }
  }

  /** No probability of an accumulated distribution exceeds its total. */
  lemma PushForwardProbabilities<T>(f: seq<T> -> T, combos: seq<seq<Entry<T>>>)
    requires Sum(PushForward(f, combos)) <= 1.0
    ensures Probabilities(PushForward(f, combos))
  {
    var d, items := PushForward(f, combos), Outcomes(f, combos);
    assert Sum(d) == PositiveSum(items);
    forall i | 0 <= i < |d|
      ensures 0.0 <= d[i].weight <= 1.0
    {
      PushForwardProbability(f, combos, d[i].value);
      MassOfAtMostPositiveSum(items, d[i].value);
    }
  }

  /** With a `viability` argument of at least 0, the least viability is at least 0. */
  lemma MinViabilityNonNegative<T>(pos: seq<Arg<T>>, named: seq<Arg<T>>, viability: real, defaultViability: real)
    requires 0.0 <= defaultViability && 0.0 <= viability
    requires ArgsValid(pos) && ArgsValid(named)
    ensures 0.0 <= MinViability(viability, Resolved(pos, defaultViability), Resolved(named, defaultViability))
  {
    var p, n := Resolved(pos, defaultViability), Resolved(named, defaultViability);
    assert forall i :: 0 <= i < |p| ==> 0.0 <= p[i].viability;
    assert forall i :: 0 <= i < |n| ==> 0.0 <= n[i].viability;
  }

  lemma CombinationsNonNegative<T>(pos: seq<Arg<T>>, named: seq<Arg<T>>, defaultViability: real)
    requires ArgsValid(pos) && ArgsValid(named)
    ensures AllNonNegative(Combinations(Resolved(pos, defaultViability), Resolved(named, defaultViability)))
  {
    var p, n := Resolved(pos, defaultViability), Resolved(named, defaultViability);
    ResolvedNonNegative(pos, defaultViability);
    ResolvedNonNegative(named, defaultViability);
    ItProdNonNegative(Dists(p));
    ItProdNonNegative(Dists(n));
    NestNonNegative(ItProd(Dists(p)), ItProd(Dists(n)));
  }

  /** The product over two lists of inputs is the product of the two products. */
  lemma {:induction false} SumProductAppend<T>(xs: seq<seq<Entry<T>>>, ys: seq<seq<Entry<T>>>)
    ensures IsProduct(SumProduct(xs + ys), SumProduct(xs), SumProduct(ys))
  {
    if |xs| == 0 {
      assert xs + ys == ys;
    } else {
      assert (xs + ys)[0] == xs[0] && (xs + ys)[1..] == xs[1..] + ys;
      SumProductAppend(xs[1..], ys);
      ScaleBoth();
      assert IsProduct(SumProduct(xs + ys), Sum(xs[0]), SumProduct(xs[1..] + ys));
      assert IsProduct(SumProduct(xs), Sum(xs[0]), SumProduct(xs[1..]));
      assert IsProduct(SumProduct(xs[1..] + ys), SumProduct(xs[1..]), SumProduct(ys));
    }
  }

  // ---- Constant arguments ----

  /** Every argument is a constant. */
  predicate AllConstant<T>(args: seq<Arg<T>>)
  {
    forall i :: 0 <= i < |args| ==> args[i].Const?
  }

  /** The constants themselves, in order. */
  function ConstValues<T>(args: seq<Arg<T>>): (vs: seq<T>)
    requires AllConstant(args)
    ensures |vs| == |args|
    ensures forall i :: 0 <= i < |args| ==> vs[i] == args[i].value
  {
    seq(|args|, i requires 0 <= i < |args| => args[i].value)
  }

  /** Each value with probability 1. */
  function Certain<T>(vs: seq<T>): (c: seq<Entry<T>>)
    ensures |c| == |vs|
    ensures forall i :: 0 <= i < |vs| ==> c[i] == Entry(vs[i], 1.0)
  {
    seq(|vs|, i requires 0 <= i < |vs| => Entry(vs[i], 1.0))
  }

  /** Each value as a one-point input. */
  function Points<T>(vs: seq<T>): (ss: seq<seq<Entry<T>>>)
    ensures |ss| == |vs|
    ensures forall i :: 0 <= i < |vs| ==> ss[i] == [Entry(vs[i], 1.0)]
  {
    seq(|vs|, i requires 0 <= i < |vs| => [Entry(vs[i], 1.0)])
  }

  /** The product of one-point inputs is the single tuple of their points. */
  lemma {:induction false} ItProdOfPoints<T>(vs: seq<T>)
    ensures ItProd(Points(vs)) == [Certain(vs)]
  {
    var ss := Points(vs);
    if |vs| > 0 {
      assert ss[1..] == Points(vs[1..]);
      ItProdOfPoints(vs[1..]);
      var t := Certain(vs[1..]);
      assert Singletons(ss[0]) == [[Entry(vs[0], 1.0)]];
      NestSingle([Entry(vs[0], 1.0)], [t]);
      assert [Entry(vs[0], 1.0)] + t == Certain(vs);
    }
  }

  lemma NestSingle<E>(p: seq<E>, qs: seq<seq<E>>)
    ensures Nest([p], qs) == Prefix(p, qs)
  {
    assert [p][1..] == [];
  }

  lemma {:induction false} WeightOfCertain<T>(vs: seq<T>)
    ensures Weight(Certain(vs)) == 1.0
  {
    if |vs| > 0 {
      assert Certain(vs)[1..] == Certain(vs[1..]);
      WeightOfCertain(vs[1..]);
    }
  }

  lemma CertainValues<T>(vs: seq<T>)
    ensures Keys(Certain(vs)) == vs
  {
  }

  /** Constant arguments give the single combination of their values, each with weight 1. */
  lemma ConstantCombinations<T>(pos: seq<Arg<T>>, named: seq<Arg<T>>, defaultViability: real)
    requires AllConstant(pos) && AllConstant(named)
    ensures Combinations(Resolved(pos, defaultViability), Resolved(named, defaultViability))
              == [Certain(ConstValues(pos) + ConstValues(named))]
  {
    var p, n := Resolved(pos, defaultViability), Resolved(named, defaultViability);
    var vs := ConstValues(pos) + ConstValues(named);
    CombinationsAsOneProduct(p, n);
    assert Dists(p + n) == Points(vs) by {
      forall i | 0 <= i < |vs|
        ensures Dists(p + n)[i] == Points(vs)[i]
      {
        if i < |pos| {
          assert (p + n)[i] == p[i];
        } else {
          assert (p + n)[i] == n[i - |pos|];
        }
      }
    }
    ItProdOfPoints(vs);
  }

  /** The single certain combination is pushed forward to the point mass at its image. */
  lemma PushForwardOfCertain<T>(f: seq<T> -> T, vs: seq<T>)
    ensures PushForward(f, [Certain(vs)]) == [Entry(f(vs), 1.0)]
    ensures Sum([Entry(f(vs), 1.0)]) == 1.0
  {
    WeightOfCertain(vs);
    CertainValues(vs);
    var e := Entry(f(vs), 1.0);
    var items := Outcomes(f, [Certain(vs)]);
    assert items == [e];
    var none: seq<Entry<T>> := [];
    assert AddTo(none, e.value, 1.0) == [e];
    assert items[1..] == [];
    assert Accumulate(none, items) == Accumulate([e], items[1..]);
    assert [e][1..] == [];
  }

  /** Constants bring the default viability, which is at least 0. */
  lemma ConstantViability<T>(pos: seq<Arg<T>>, named: seq<Arg<T>>, viability: real, defaultViability: real)
    requires 0.0 <= defaultViability && 0.0 <= viability
    requires AllConstant(pos) && AllConstant(named)
    ensures 0.0 <= MinViability(viability, Resolved(pos, defaultViability), Resolved(named, defaultViability))
  {
    var p, n := Resolved(pos, defaultViability), Resolved(named, defaultViability);
    var m := MinViability(viability, p, n);
    if m != viability {
      if exists i :: 0 <= i < |p| && m == p[i].viability {
        var i :| 0 <= i < |p| && m == p[i].viability;
        assert p[i] == PointMass(pos[i].value, defaultViability);
      } else {
        var i :| 0 <= i < |n| && m == n[i].viability;
        assert n[i] == PointMass(named[i].value, defaultViability);
      }
    }
  }

  /**
   * With only constants as arguments, `rand_apply` returns the point mass
   * at `func` of those constants, whenever the viability argument is at
   * least 0.
   */
  lemma RandApplyOfConstants<T>(f: seq<T> -> T, pos: seq<Arg<T>>, named: seq<Arg<T>>, viability: real, defaultViability: real)
    requires 0.0 <= defaultViability && 0.0 <= viability
    requires AllConstant(pos) && AllConstant(named)
    ensures var r := RandApply(f, pos, named, viability, defaultViability);
      r.Ok? && r.value.dist == [Entry(f(ConstValues(pos) + ConstValues(named)), 1.0)]
  {
    ConstantCombinations(pos, named, defaultViability);
    PushForwardOfCertain(f, ConstValues(pos) + ConstValues(named));
    ConstantViability(pos, named, viability, defaultViability);
  }

  /**
   * The named-argument fault: the same constant that is accepted
   * positionally raises `AttributeError` when passed by name, because the
   * inner product reads the raw argument rather than its conversion.
   */
  lemma NamedConstantRaises<T>(f: seq<T> -> T, v: T, defaultViability: real)
    requires 0.0 <= defaultViability
    ensures RandApplyAsWritten(f, [], [Const(v)], defaultViability, defaultViability) == Err(AttributeError)
    ensures RandApplyAsWritten(f, [Const(v)], [], defaultViability, defaultViability).Ok?
  {
    var none: seq<RandomVariable<T>> := [];
    var ss: seq<seq<Entry<T>>> := [];
    assert Resolved([], defaultViability) == none && Dists(none) == ss;
    assert |ItProd(ss)| == 1;
    assert [Const(v)][0].Const?;
    var noArgs: seq<Arg<T>> := [];
    assert !HasConstant(noArgs);
    RandApplyOfConstants(f, [Const(v)], [], defaultViability, defaultViability);
  }

  /**
   * The corrected `rand_apply` treats a named constant as the point mass the
   * conversion builds for it: the result is the point mass at `func(v)`.
   */
  lemma NamedConstantIsPointMass<T>(f: seq<T> -> T, v: T, defaultViability: real)
    requires 0.0 <= defaultViability
    ensures var r := RandApply(f, [], [Const(v)], defaultViability, defaultViability);
      r.Ok? && r.value.dist == [Entry(f([v]), 1.0)]
  {
    var noArgs: seq<Arg<T>> := [];
    var args := [Const(v)];
    assert ConstValues(noArgs) + ConstValues(args) == [v];
    RandApplyOfConstants(f, noArgs, args, defaultViability, defaultViability);
  }
}
