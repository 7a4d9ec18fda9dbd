/**
 * The earlier top-level `core.py`: `RandVar`, a random variable with finite
 * domain that stores only its distribution and viability, samples by a
 * linear scan, and whose `randomable` decorator enumerates argument
 * combinations with the recursive `_it_prod` (the `Product.ItProd` model).
 *
 * The draw `random()` is a parameter. Only positional arguments of the
 * decorated function are modelled.
 */
module LegacyCore {
  import opened Wrappers
  import opened Distribution
  import opened Product
  import SearchIndex
  import RandVarCore

  /** `DEFAULT_VIABILITY`, a module constant here. */
  const DefaultViability: real := 0.00001

  /** The exceptions the modelled code raises. */
  datatype Error =
    | AssertionFailure                // `assert 0.0 <= prob and prob <= 1.0`
    | FloatDegradation(error: real)   // `FloatDegradationError(err)`
    | ValueError                      // `min()` of no viabilities

  /** `RandVar`: `_dist` and `_viability`. */
  datatype RandVar<T> = RandVar(dist: seq<Entry<T>>, viability: real)

  /** What the constructor establishes about every `RandVar` it returns. */
  ghost predicate Valid<T>(rv: RandVar<T>)
  {
    && DistinctKeys(rv.dist)
    && Probabilities(rv.dist)
    && Abs(Sum(rv.dist) - 1.0) <= rv.viability
  }

  /**
   * `RandVar(dist, viability)`: every probability must lie in `[0, 1]`,
   * then the total may deviate from 1 by at most the viability.
   */
  function New<T>(dist: seq<Entry<T>>, viability: real): (r: Result<RandVar<T>, Error>)
    requires DistinctKeys(dist)
    ensures r == Err(AssertionFailure) <==> !Probabilities(dist)
    ensures r.Ok? <==> Probabilities(dist) && Abs(Sum(dist) - 1.0) <= viability
    ensures r.Err? && Probabilities(dist) ==> r.error == FloatDegradation(Abs(Sum(dist) - 1.0))
    ensures r.Ok? ==> Valid(r.value) && r.value == RandVar(dist, viability)
  {
    match CheckProbabilities(dist, viability)
    case OutOfRange => Err(AssertionFailure)
    case Deviates(err) => Err(FloatDegradation(err))
    case Viable => Ok(RandVar(dist, viability))
  }

  /** `rv[val]`: the stored probability of `val`, or 0.0 when `val` is not a key. */
  function Probability<T(==)>(rv: RandVar<T>, v: T): (p: real)
    ensures !HasKey(rv.dist, v) ==> p == 0.0
    ensures DistinctKeys(rv.dist) ==> forall i :: 0 <= i < |rv.dist| && rv.dist[i].value == v ==> p == rv.dist[i].weight
    ensures Valid(rv) ==> 0.0 <= p <= 1.0
  {
    Lookup(rv.dist, v)
  }

  /**
   * The outcome `o` of one scan with draw `x`: nothing when `x` is at or
   * above the total probability, otherwise the value whose interval holds `x`.
   */
  ghost predicate Picks<T>(d: seq<Entry<T>>, x: real, o: Option<T>)
  {
    && (o.None? <==> Sum(d) <= x)
    && (o.Some? ==> exists j :: Covers(d, j, x) && d[j].value == o.value)
  }

  /**
   * One draw of `sample()`: subtract each probability from `x = random()` in
   * turn and stop at the first value whose probability exceeds what is
   * left. When the scan runs off the end (`x` at or above the total, which
   * may be below 1 within the viability) the method falls through and
   * returns `None`.
   */
  method ScanSample<T>(rv: RandVar<T>, x: real) returns (r: Option<T>)
    requires Valid(rv)
    requires 0.0 <= x
    ensures Picks(rv.dist, x, r)
  {
    var d := rv.dist;
    assert NonNegative(d);
    var y, i := x, 0;
    assert d[..0] == [];
    while i < |d|
      invariant 0 <= i <= |d|
      invariant y == x - Sum(d[..i])
      invariant Sum(d[..i]) <= x
    {
      PrefixSumStep(d, i);
      if y < d[i].weight {
        assert Covers(d, i, x);
        PrefixSumMonotone(d, i + 1, |d|);
        PrefixSumWhole(d);
        return Some(d[i].value);
      }
      y, i := y - d[i].weight, i + 1;
    }
    PrefixSumWhole(d);
    return None;
  }

  /** A draw picks at most one value. */
  lemma PickIsUnique<T>(d: seq<Entry<T>>, x: real, v: T, w: T)
    requires NonNegative(d)
    requires Picks(d, x, Some(v)) && Picks(d, x, Some(w))
    ensures v == w
  {
    var j :| Covers(d, j, x) && d[j].value == v;
    var k :| Covers(d, k, x) && d[k].value == w;
    CoverIsUnique(d, j, k, x);
  }

  /**
   * The linear scan and the binary search of the later `choice` agree: on
   * the same distribution and draw, the scan picks the value `choice`
   * selects, and it picks nothing exactly when `choice` raises.
   */
  lemma ScanAgreesWithChoice<T>(rv: RandVar<T>, m: RandVarCore.RandomVariable<T>, x: real, o: Option<T>)
    requires Valid(rv) && RandVarCore.Valid(m) && m.dist == rv.dist
    requires 0.0 <= x
    requires Picks(rv.dist, x, o)
    ensures o.None? <==> !(exists v :: RandVarCore.Selects(m, x, v))
    ensures forall v :: RandVarCore.Selects(m, x, v) ==> o == Some(v)
  {
    var d := rv.dist;
    assert NonNegative(d);
    if o.Some? {
      var j :| Covers(d, j, x) && d[j].value == o.value;
      assert RandVarCore.Selects(m, x, o.value);
      forall v | RandVarCore.Selects(m, x, v)
        ensures o == Some(v)
      {
        RandVarCore.SelectionIsUnique(m, x, o.value, v);
      }
    } else {
      forall v | RandVarCore.Selects(m, x, v)
        ensures false
      {
        var j :| Covers(d, j, x) && d[j].value == v;
        PrefixSumMonotone(d, j + 1, |d|);
        PrefixSumWhole(d);
      }
    }
  }

  /**
   * What `sample(size)` returns: for `size == 1` the one-element list
   * `[val]` (`Some(val)`) or `None`; for any other size the list of `size`
   * results of `sample()`, each itself `[val]` or `None` (empty when `size`
   * is not positive).
   */
  datatype Sampled<T> = One(item: Option<T>) | Many(items: seq<Option<T>>)

  /**
   * `sample(size)`, the `i`-th call of the scan consuming the draw
   * `draws[i]`.
   */
  method Sample<T>(rv: RandVar<T>, size: int, draws: seq<real>) returns (s: Sampled<T>)
    requires Valid(rv)
    requires size <= |draws|
    requires forall i :: 0 <= i < |draws| ==> 0.0 <= draws[i]
    ensures s.One? <==> size == 1
    ensures s.One? ==> Picks(rv.dist, draws[0], s.item)
    ensures s.Many? ==> |s.items| == (if size < 0 then 0 else size)
    ensures s.Many? ==> forall i :: 0 <= i < |s.items| ==> Picks(rv.dist, draws[i], s.items[i])
  {
    if size == 1 {
      var o := ScanSample(rv, draws[0]);
      return One(o);
    }
    var out: seq<Option<T>> := [];
    var i := 0;
    while i < size
      invariant 0 <= i <= |draws|
      invariant if size < 0 then i == 0 else i <= size
      invariant |out| == i
      invariant forall k :: 0 <= k < i ==> Picks(rv.dist, draws[k], out[k])
    {
      var o := ScanSample(rv, draws[i]);
      var next := out + [o];
      forall k | 0 <= k < i + 1
        ensures Picks(rv.dist, draws[k], next[k])
      {
        if k < i {
          assert next[k] == out[k];
        }
      }
      out, i := next, i + 1;
    }
    return Many(out);
  }

  // ---- The decorator ----

  /** An argument of the decorated function: a `RandVar`, or any other value. */
  datatype Arg<T> = Var(rv: RandVar<T>) | Const(value: T)

  /** `RandVar({arg: 1.0})`, built with the default viability. */
  function Certainly<T>(v: T): RandVar<T>
  {
    RandVar([Entry(v, 1.0)], DefaultViability)
  }

  /** A constant is constructed without error as the one-point distribution. */
  lemma CertainlyIsNew<T>(v: T)
    ensures New([Entry(v, 1.0)], DefaultViability) == Ok(Certainly(v))
  {
    assert Sum([Entry(v, 1.0)]) == 1.0 + Sum([Entry(v, 1.0)][1..]);
  }

  /** The list `sargs`: each argument as a `RandVar`, constants as point masses. */
  function Converted<T>(args: seq<Arg<T>>): (r: seq<RandVar<T>>)
    ensures |r| == |args|
    ensures forall i :: 0 <= i < |args| ==> r[i] == (if args[i].Var? then args[i].rv else Certainly(args[i].value))
  {
    seq(|args|, i requires 0 <= i < |args| => if args[i].Var? then args[i].rv else Certainly(args[i].value))
  }

  function Dists<T>(vars: seq<RandVar<T>>): (r: seq<seq<Entry<T>>>)
    ensures |r| == |vars|
    ensures forall i :: 0 <= i < |vars| ==> r[i] == vars[i].dist
  {
    seq(|vars|, i requires 0 <= i < |vars| => vars[i].dist)
  }

  /**
   * `min(sarg._viability for sarg in sargs)`: the least viability of the
   * arguments; Python raises `ValueError` for no arguments.
   */
  function MinViability<T>(vars: seq<RandVar<T>>): (m: real)
    requires |vars| > 0
    ensures forall i :: 0 <= i < |vars| ==> m <= vars[i].viability
    ensures exists i :: 0 <= i < |vars| && m == vars[i].viability
  {
    var vs := seq(|vars|, i requires 0 <= i < |vars| => vars[i].viability);
    assert forall i :: 0 <= i < |vars| ==> vs[i] in vs && vs[i] == vars[i].viability;
    Min(vs)
  }

  /**
   * The two nested loops of `applied_to`: every combination of one entry
   * per argument from `_it_prod`, followed by the one empty combination of
   * the absent keyword arguments.
   */
  function Joint<T>(vars: seq<RandVar<T>>): seq<seq<Entry<T>>>
  {
    var none: seq<seq<Entry<T>>> := [];
    Nest(ItProd(Dists(vars)), ItProd(none))
  }

  /** The inner loop over no keyword arguments runs once and adds nothing. */
  lemma JointIsProduct<T>(vars: seq<RandVar<T>>)
    ensures Joint(vars) == ItProd(Dists(vars))
  {
    NestUnitRight(ItProd(Dists(vars)));
  }

  /** The `dist` that `applied_to` builds, with `func` applied to each combination. */
  function Pushed<T(==)>(f: seq<T> -> T, vars: seq<RandVar<T>>): (d: seq<Entry<T>>)
    ensures DistinctKeys(d)
  {
    RandVarCore.PushForward(f, Joint(vars))
  }

  /**
   * `randomable(func)(*args)`: constants become point masses, the least
   * viability of the arguments is taken (which raises for no arguments),
   * the outcomes of positive weight are accumulated, and the result is
   * constructed with that viability.
   */
  function AppliedTo<T(==)>(f: seq<T> -> T, args: seq<Arg<T>>): (r: Result<RandVar<T>, Error>)
    ensures r == Err(ValueError) <==> |args| == 0
    ensures r.Ok? ==> Valid(r.value) && r.value.viability == MinViability(Converted(args))
    ensures r.Ok? <==> |args| > 0 && Probabilities(Pushed(f, Converted(args)))
                       && Abs(Sum(Pushed(f, Converted(args))) - 1.0) <= MinViability(Converted(args))
  {
    if |args| == 0 then Err(ValueError)
    else
      var sargs := Converted(args);
      New(Pushed(f, sargs), MinViability(sargs))
  }

  /** `randomable(func)`: the wrapper that calls `applied_to`. */
  function Randomable<T(==)>(f: seq<T> -> T): (g: seq<Arg<T>> -> Result<RandVar<T>, Error>)
  {
    (args: seq<Arg<T>>) => AppliedTo(f, args)
  }

  /** `randomable(func)(*args)` is `applied_to(*args)`. */
  lemma RandomableIsAppliedTo<T>(f: seq<T> -> T, args: seq<Arg<T>>)
    ensures Randomable(f)(args) == AppliedTo(f, args)
  {
  }

  // ---- The distribution `applied_to` computes ----

  /**
   * `applied_to` gives `u` the summed product probability of every argument
   * combination with positive probability on which `func` returns `u`.
   */
  lemma AppliedToProbability<T>(f: seq<T> -> T, args: seq<Arg<T>>, u: T)
    ensures var r := AppliedTo(f, args);
      r.Ok? ==> Probability(r.value, u) == MassOf(RandVarCore.Outcomes(f, ItProd(Dists(Converted(args)))), u)
  {
    JointIsProduct(Converted(args));
    RandVarCore.PushForwardProbability(f, Joint(Converted(args)), u);
  }

  /** Every `RandVar` argument is one the constructor returned. */
  ghost predicate ArgsValid<T>(args: seq<Arg<T>>)
  {
    forall i :: 0 <= i < |args| ==> args[i].Var? ==> Valid(args[i].rv)
  }

  lemma ConvertedNonNegative<T>(args: seq<Arg<T>>)
    requires ArgsValid(args)
    ensures RandVarCore.AllNonNegative(Dists(Converted(args)))
  {
  }

  /**
   * Conservation of mass: the total probability of the distribution
   * `applied_to` builds is the product of the total probabilities of the
   * arguments.
   */
  lemma AppliedToConservesMass<T>(f: seq<T> -> T, args: seq<Arg<T>>)
    requires ArgsValid(args)
    ensures Sum(Pushed(f, Converted(args))) == RandVarCore.SumProduct(Dists(Converted(args)))
  {
    var ss := Dists(Converted(args));
    JointIsProduct(Converted(args));
    ConvertedNonNegative(args);
    RandVarCore.ItProdNonNegative(ss);
    RandVarCore.PushForwardMass(f, ItProd(ss));
    RandVarCore.TotalWeightItProd(ss);
  }

  /** Every argument is a constant. */
  predicate AllConstant<T>(args: seq<Arg<T>>)
  {
    forall i :: 0 <= i < |args| ==> args[i].Const?
  }

  /** The constants themselves, in order. */
  function ConstValues<T>(args: seq<Arg<T>>): (vs: seq<T>)
    requires AllConstant(args)
    ensures |vs| == |args|
    ensures forall i :: 0 <= i < |args| ==> vs[i] == args[i].value
  {
    seq(|args|, i requires 0 <= i < |args| => args[i].value)
  }

  /**
   * With at least one argument and only constants, `applied_to` returns the
   * point mass at `func` of those constants, with the default viability.
   */
  lemma AppliedToConstants<T>(f: seq<T> -> T, args: seq<Arg<T>>)
    requires |args| > 0 && AllConstant(args)
    ensures var r := AppliedTo(f, args);
      r == Ok(RandVar([Entry(f(ConstValues(args)), 1.0)], DefaultViability))
  {
    var sargs, vs := Converted(args), ConstValues(args);
    assert Dists(sargs) == RandVarCore.Points(vs);
    RandVarCore.ItProdOfPoints(vs);
    JointIsProduct(sargs);
    RandVarCore.PushForwardOfCertain(f, vs);
    assert sargs[0].viability == DefaultViability;
  }

  /** The arguments as the later `rand_apply` takes them, positionally. */
  function Modern<T>(args: seq<Arg<T>>): (r: seq<RandVarCore.Arg<T>>)
    ensures |r| == |args|
  {
    seq(|args|, i requires 0 <= i < |args| =>
      match args[i]
      case Var(rv) => RandVarCore.Var(RandVarCore.RandomVariable(rv.dist, rv.viability, SearchIndex.BuildIndex(rv.dist)))
      case Const(v) => RandVarCore.Const(v))
  }

  /**
   * The decorator of this file and the later `rand_apply`, given the same
   * positional arguments, build the same distribution.
   */
  lemma AppliedToAgreesWithRandApply<T>(f: seq<T> -> T, args: seq<Arg<T>>, defaultViability: real)
    ensures Pushed(f, Converted(args))
              == RandVarCore.PushForward(f, RandVarCore.Combinations(RandVarCore.Resolved(Modern(args), defaultViability), []))
  {
    var p := RandVarCore.Resolved(Modern(args), defaultViability);
    var none: seq<RandVarCore.RandomVariable<T>> := [];
    assert RandVarCore.Dists(p) == Dists(Converted(args));
    assert RandVarCore.Dists(none) == [];
  }
}
