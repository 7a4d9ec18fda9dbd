/**
 * Cartesian products of finite sequences, in the order both
 * `itertools.product` and the recursive `_it_prod` enumerate them: the first
 * input varies slowest. A tuple is a `seq<E>`.
 */
module Product {

  /** `p` followed by each of `qs` in turn. */
  function Prefix<E>(p: seq<E>, qs: seq<seq<E>>): (r: seq<seq<E>>)
    ensures |r| == |qs|
    ensures forall j :: 0 <= j < |qs| ==> r[j] == p + qs[j]
  {
    seq(|qs|, j requires 0 <= j < |qs| => p + qs[j])
  }

  /**
   * Two nested loops, `for p in ps: for q in qs: yield p + q`: every
   * concatenation of a tuple of `ps` with a tuple of `qs`.
   */
  function Nest<E>(ps: seq<seq<E>>, qs: seq<seq<E>>): seq<seq<E>>
  {
    if |ps| == 0 then [] else Prefix(ps[0], qs) + Nest(ps[1..], qs)
  }

  /** The nested loops run `|ps| * |qs|` times. */
  lemma {:induction false} NestLength<E>(ps: seq<seq<E>>, qs: seq<seq<E>>)
    ensures |Nest(ps, qs)| == |ps| * |qs|
  {
    if |ps| > 0 {
      NestLength(ps[1..], qs);
      BlockShift(|ps|, |qs|, 0);
    }
  }

  /** Each element of `xs` as a one-tuple `(x,)`. */
  function Singletons<E>(xs: seq<E>): (r: seq<seq<E>>)
    ensures |r| == |xs|
    ensures forall i :: 0 <= i < |xs| ==> r[i] == [xs[i]]
  {
    seq(|xs|, i requires 0 <= i < |xs| => [xs[i]])
  }

  /**
   * One level of `_it_prod_help`: `(m,) + t` for every `m` in `mine` and
   * every tuple `t` in `theirs`, `mine` varying slowest.
   */
  function Cross<E>(mine: seq<E>, theirs: seq<seq<E>>): seq<seq<E>>
  {
    Nest(Singletons(mine), theirs)
  }

  /** `t` has one component per input and its `i`-th component comes from `ss[i]`. */
  ghost predicate Fits<E>(t: seq<E>, ss: seq<seq<E>>)
  {
    |t| == |ss| && forall i :: 0 <= i < |ss| ==> t[i] in ss[i]
  }

  /** `_it_prod`: the Cartesian product of `ss`; for no inputs, the single empty tuple. */
  function ItProd<E>(ss: seq<seq<E>>): seq<seq<E>>
  {
    if |ss| == 0 then [[]] else Cross(ss[0], ItProd(ss[1..]))
  }

  /** Every enumerated tuple picks its `i`-th component from `ss[i]`. */
  lemma {:induction false} ItProdSound<E>(ss: seq<seq<E>>, t: seq<E>)
    requires t in ItProd(ss)
    ensures Fits(t, ss)
  {
    if |ss| > 0 {
      var theirs := ItProd(ss[1..]);
      NestMember(Singletons(ss[0]), theirs, t);
      var a, b :| 0 <= a < |ss[0]| && 0 <= b < |theirs| && t == [ss[0][a]] + theirs[b];
      ItProdSound(ss[1..], theirs[b]);
      forall i | 0 <= i < |ss|
        ensures t[i] in ss[i]
      {
        if i > 0 {
          assert t[i] == theirs[b][i - 1];
        }
      }
    }
  }

  /** The number of tuples in the product: the product of the input lengths. */
  function Card<E>(ss: seq<seq<E>>): nat
  {
    if |ss| == 0 then 1 else |ss[0]| * Card(ss[1..])
  }

  /** The product of `m` inputs has `|s_1| * ... * |s_m|` tuples. */
  lemma {:induction false} ItProdLength<E>(ss: seq<seq<E>>)
    ensures |ItProd(ss)| == Card(ss)
  {
    if |ss| > 0 {
      ItProdLength(ss[1..]);
      NestLength(Singletons(ss[0]), ItProd(ss[1..]));
    }
  }

  /** The tuples of `Nest(ps, qs)` are exactly the concatenations `ps[a] + qs[b]`. */
  lemma {:induction false} NestMember<E>(ps: seq<seq<E>>, qs: seq<seq<E>>, t: seq<E>)
    ensures t in Nest(ps, qs) <==>
              exists a, b :: 0 <= a < |ps| && 0 <= b < |qs| && t == ps[a] + qs[b]
  {
    if |ps| > 0 {
      NestMember(ps[1..], qs, t);
      var head := Prefix(ps[0], qs);
      assert Nest(ps, qs) == head + Nest(ps[1..], qs);
      if t in head {
        var b :| 0 <= b < |qs| && head[b] == t;
        assert t == ps[0] + qs[b];
      }
      if exists a, b :: 0 <= a < |ps| && 0 <= b < |qs| && t == ps[a] + qs[b] {
        var a, b :| 0 <= a < |ps| && 0 <= b < |qs| && t == ps[a] + qs[b];
        if a == 0 {
          assert head[b] == t;
        } else {
          assert t == ps[1..][a - 1] + qs[b];
        }
      }
    }
  }

  /** Position `a * |qs| + b` of `Nest(ps, qs)` holds `ps[a] + qs[b]`: `ps` varies slowest. */
  lemma {:induction false} NestIndex<E>(ps: seq<seq<E>>, qs: seq<seq<E>>, a: nat, b: nat)
    requires a < |ps| && b < |qs|
    ensures a * |qs| + b < |Nest(ps, qs)|
    ensures Nest(ps, qs)[a * |qs| + b] == ps[a] + qs[b]
  {
    var n, k := |qs|, a * |qs| + b;
    BlockBound(a, |ps|, n, b);
    NestLength(ps, qs);
    var head := Prefix(ps[0], qs);
    var rest := Nest(ps[1..], qs);
    assert Nest(ps, qs) == head + rest;
    if a > 0 {
      NestIndex(ps[1..], qs, a - 1, b);
      BlockShift(a, n, b);
      assert rest[k - n] == ps[a] + qs[b];
    }
  }

  lemma BlockBound(a: nat, m: nat, n: nat, b: nat)
    requires a < m && b < n
    ensures a * n + b < m * n
  {
    assert (a + 1) * n == a * n + n;
    assert (a + 1) * n <= m * n;
  }

  lemma BlockShift(a: nat, n: nat, b: nat)
    requires a > 0
    ensures a * n + b - n == (a - 1) * n + b
  {
  }

  /** Every tuple that picks its `i`-th component from `ss[i]` is enumerated. */
  lemma {:induction false} ItProdComplete<E>(ss: seq<seq<E>>, t: seq<E>)
    requires Fits(t, ss)
    ensures t in ItProd(ss)
  {
    if |ss| == 0 {
      assert t == [];
    } else {
      var tail := t[1..];
      assert Fits(tail, ss[1..]) by {
        forall i | 0 <= i < |ss| - 1
          ensures tail[i] in ss[1..][i]
        {
          assert tail[i] == t[i + 1];
        }
      }
      ItProdComplete(ss[1..], tail);
      var theirs := ItProd(ss[1..]);
      var a :| 0 <= a < |ss[0]| && ss[0][a] == t[0];
      var b :| 0 <= b < |theirs| && theirs[b] == tail;
      assert t == Singletons(ss[0])[a] + theirs[b];
      NestMember(Singletons(ss[0]), theirs, t);
    }
  }

  /**
   * `_it_prod` enumerates in lexicographic order: the tuples starting with
   * the `a`-th element of the first input form the `a`-th consecutive block,
   * each block listing the product of the remaining inputs in order.
   */
  lemma ItProdFirstSlowest<E>(ss: seq<seq<E>>, a: nat, b: nat)
    requires |ss| > 0 && a < |ss[0]| && b < |ItProd(ss[1..])|
    ensures a * |ItProd(ss[1..])| + b < |ItProd(ss)|
    ensures ItProd(ss)[a * |ItProd(ss[1..])| + b] == [ss[0][a]] + ItProd(ss[1..])[b]
  {
    NestIndex(Singletons(ss[0]), ItProd(ss[1..]), a, b);
  }

  lemma PrefixPrefix<E>(p: seq<E>, q: seq<E>, rs: seq<seq<E>>)
    ensures Prefix(p, Prefix(q, rs)) == Prefix(p + q, rs)
  {
    forall j | 0 <= j < |rs|
      ensures Prefix(p, Prefix(q, rs))[j] == Prefix(p + q, rs)[j]
    {
      assert p + (q + rs[j]) == (p + q) + rs[j];
    }
  }

  lemma PrefixAppend<E>(p: seq<E>, xs: seq<seq<E>>, ys: seq<seq<E>>)
    ensures Prefix(p, xs + ys) == Prefix(p, xs) + Prefix(p, ys)
  {
  }

  lemma {:induction false} NestAppendLeft<E>(xs: seq<seq<E>>, ys: seq<seq<E>>, rs: seq<seq<E>>)
    ensures Nest(xs + ys, rs) == Nest(xs, rs) + Nest(ys, rs)
  {
    if |xs| == 0 {
      assert xs + ys == ys;
    } else {
      assert (xs + ys)[1..] == xs[1..] + ys;
      NestAppendLeft(xs[1..], ys, rs);
    }
  }

  lemma {:induction false} NestPrefix<E>(p: seq<E>, qs: seq<seq<E>>, rs: seq<seq<E>>)
    ensures Nest(Prefix(p, qs), rs) == Prefix(p, Nest(qs, rs))
  {
    if |qs| > 0 {
      var pq := Prefix(p, qs);
      assert pq == [p + qs[0]] + Prefix(p, qs[1..]);
      NestAppendLeft([p + qs[0]], Prefix(p, qs[1..]), rs);
      assert Nest([p + qs[0]], rs) == Prefix(p + qs[0], rs) by {
        assert [p + qs[0]][1..] == [];
      }
      PrefixPrefix(p, qs[0], rs);
      NestPrefix(p, qs[1..], rs);
      PrefixAppend(p, Prefix(qs[0], rs), Nest(qs[1..], rs));
    }
  }

  /** Nesting the loops two ways enumerates the same tuples in the same order. */
  lemma {:induction false} NestAssoc<E>(ps: seq<seq<E>>, qs: seq<seq<E>>, rs: seq<seq<E>>)
    ensures Nest(Nest(ps, qs), rs) == Nest(ps, Nest(qs, rs))
  {
    if |ps| > 0 {
      NestAppendLeft(Prefix(ps[0], qs), Nest(ps[1..], qs), rs);
      NestPrefix(ps[0], qs, rs);
      NestAssoc(ps[1..], qs, rs);
    }
  }

  lemma NestUnitLeft<E>(qs: seq<seq<E>>)
    ensures Nest([[]], qs) == qs
  {
    var unit: seq<seq<E>> := [[]];
    assert unit[1..] == [];
    forall j | 0 <= j < |qs|
      ensures Prefix([], qs)[j] == qs[j]
    {
      assert [] + qs[j] == qs[j];
    }
  }

  /**
   * The product of two lists of inputs, one loop nested in the other, is
   * the product of all the inputs together: further loops nested inside
   * behave as further positions.
   */
  lemma {:induction false} ItProdAppend<E>(xs: seq<seq<E>>, ys: seq<seq<E>>)
    ensures ItProd(xs + ys) == Nest(ItProd(xs), ItProd(ys))
  {
    if |xs| == 0 {
      assert xs + ys == ys;
      NestUnitLeft(ItProd(ys));
    } else {
      assert (xs + ys)[0] == xs[0];
      assert (xs + ys)[1..] == xs[1..] + ys;
      ItProdAppend(xs[1..], ys);
      NestAssoc(Singletons(xs[0]), ItProd(xs[1..]), ItProd(ys));
    }
  }

  lemma {:induction false} NestUnitRight<E>(ps: seq<seq<E>>)
    ensures Nest(ps, [[]]) == ps
  {
    if |ps| > 0 {
      NestUnitRight(ps[1..]);
      assert ps[0] + [] == ps[0];
      assert Prefix(ps[0], [[]]) == [ps[0]];
    }
  }
}
