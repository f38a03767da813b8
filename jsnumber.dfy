/** JavaScript numbers as far as the allocator's formulas need them: an exact real, or NaN.
    NaN absorbs every arithmetic operation and makes every comparison false, as in
    JavaScript. Rounding of doubles is not modelled: the reals are exact. */
module JsNumber {

  datatype Num = Finite(v: real) | NaN

  function Add(a: Num, b: Num): (r: Num)
    ensures r.Finite? <==> a.Finite? && b.Finite?
  {
    if a.Finite? && b.Finite? then Finite(a.v + b.v) else NaN
  }

  function Sub(a: Num, b: Num): (r: Num)
    ensures r.Finite? <==> a.Finite? && b.Finite?
  {
    if a.Finite? && b.Finite? then Finite(a.v - b.v) else NaN
  }

  function Scale(a: Num, k: real): (r: Num)
    ensures r.Finite? <==> a.Finite?
  {
    if a.Finite? then Finite(a.v * k) else NaN
  }

  /** `a > b`: false as soon as either side is NaN. */
  predicate Gt(a: Num, b: Num) {
    a.Finite? && b.Finite? && a.v > b.v
  }

  /** `a >= b`: false as soon as either side is NaN. */
  predicate Ge(a: Num, b: Num) {
    a.Finite? && b.Finite? && a.v >= b.v
  }

  /** lodash `_.sumBy`: 0 for an empty list, otherwise the sum of the values. */
  function SumBy<T>(xs: seq<T>, f: T -> Num): Num {
    if xs == [] then Finite(0.0) else Add(f(xs[0]), SumBy(xs[1..], f))
  }

  /** A finite sum has only finite terms: one NaN poisons the whole sum. */
  lemma {:induction false} SumByFinite<T>(xs: seq<T>, f: T -> Num, i: nat)
    requires SumBy(xs, f).Finite?
    requires i < |xs|
    ensures f(xs[i]).Finite?
  {
    if i > 0 {
      SumByFinite(xs[1..], f, i - 1);
    }
  }

  lemma {:induction false} SumByConcat<T>(a: seq<T>, b: seq<T>, f: T -> Num)
    ensures SumBy(a + b, f) == Add(SumBy(a, f), SumBy(b, f))
  {
    if a == [] {
      assert a + b == b;
    } else {
      assert (a + b)[1..] == a[1..] + b;
      SumByConcat(a[1..], b, f);
    }
  }

  lemma MultisetRemoveAt<T>(b: seq<T>, i: nat)
    requires i < |b|
    ensures multiset(b[..i] + b[i + 1..]) == multiset(b) - multiset{b[i]}
  {
    assert b == b[..i] + [b[i]] + b[i + 1..];
    assert multiset(b) == multiset(b[..i]) + multiset{b[i]} + multiset(b[i + 1..]);
  }

  lemma SumByRemoveAt<T>(b: seq<T>, i: nat, f: T -> Num)
    requires i < |b|
    ensures SumBy(b, f) == Add(f(b[i]), SumBy(b[..i] + b[i + 1..], f))
  {
    var pre, x, post := b[..i], b[i], b[i + 1..];
    assert b == (pre + [x]) + post;
    SumByConcat(pre + [x], post, f);
    SumByConcat(pre, [x], f);
    SumByConcat(pre, post, f);
    assert SumBy([x], f) == Add(f(x), Finite(0.0));
    var u, v, w := SumBy(pre, f), f(x), SumBy(post, f);
    assert Add(Add(u, Add(v, Finite(0.0))), w) == Add(v, Add(u, w));
  }

  /** The sum does not depend on the order of the terms. */
  lemma {:induction false} SumByPermutation<T>(a: seq<T>, b: seq<T>, f: T -> Num)
    requires multiset(a) == multiset(b)
    ensures SumBy(a, f) == SumBy(b, f)
  {
    if a == [] {
      assert |b| == |multiset(b)| == 0;
    } else {
      var x := a[0];
      assert x in multiset(b);
      var i :| 0 <= i < |b| && b[i] == x;
      assert a == [x] + a[1..];
      assert multiset(a[1..]) == multiset(a) - multiset{x};
      MultisetRemoveAt(b, i);
      SumByPermutation(a[1..], b[..i] + b[i + 1..], f);
      SumByRemoveAt(b, i, f);
    }
  }

  lemma AddComm(a: Num, b: Num)
    ensures Add(a, b) == Add(b, a)
  {
  }

  lemma AddAssoc(a: Num, b: Num, c: Num)
    ensures Add(Add(a, b), c) == Add(a, Add(b, c))
  {
  }

  lemma AddZero(a: Num)
    ensures Add(a, Finite(0.0)) == a && Add(Finite(0.0), a) == a
  {
  }
}
