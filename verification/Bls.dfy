/** Aggregate signatures (crypto/bls/bls.go): keys and signatures form commutative
    monoids (inverses are not used), and for every message there is a homomorphism from keys to
    signatures. */
module Bls {
  const U32: nat := 0x1_0000_0000

  datatype Monoid<!T> = Monoid(zero: T, add: (T, T) -> T)

  ghost predicate IsMonoid<T(!new)>(g: Monoid<T>) {
    && (forall a, b, c {:trigger g.add(g.add(a, b), c)} :: g.add(g.add(a, b), c) == g.add(a, g.add(b, c)))
    && (forall a, b {:trigger g.add(a, b)} :: g.add(a, b) == g.add(b, a))
    && (forall a {:trigger g.add(g.zero, a)} :: g.add(g.zero, a) == a)
  }

  /** `verify` accepts a signature exactly when it is the image of the key. */
  datatype Scheme<!M, !K, !S> = Scheme(keys: Monoid<K>, sigs: Monoid<S>, image: (M, K) -> S)

  ghost predicate IsScheme<M(!new), K(!new), S(!new)>(b: Scheme<M, K, S>) {
    && IsMonoid(b.keys) && IsMonoid(b.sigs)
    && (forall m, x, y {:trigger b.image(m, b.keys.add(x, y))} ::
      b.image(m, b.keys.add(x, y)) == b.sigs.add(b.image(m, x), b.image(m, y)))
    && (forall m {:trigger b.image(m, b.keys.zero)} :: b.image(m, b.keys.zero) == b.sigs.zero)
  }

  predicate Verify<M, K, S(==)>(b: Scheme<M, K, S>, sig: S, m: M, key: K) {
    sig == b.image(m, key)
  }

  /** There are such schemes: the integers under addition, with messages as factors. */
  lemma SchemesExist()
    ensures IsScheme(Scheme(Monoid(0, (x: int, y: int) => x + y), Monoid(0, (x: int, y: int) => x + y), (m: nat, x: int) => m * x))
  {
  }

  // ---- the laws, one at a time -------------------------------------------------------

  lemma Assoc<T(!new)>(g: Monoid<T>, a: T, b: T, c: T)
    requires IsMonoid(g)
    ensures g.add(g.add(a, b), c) == g.add(a, g.add(b, c))
  {
  }

  lemma Comm<T(!new)>(g: Monoid<T>, a: T, b: T)
    requires IsMonoid(g)
    ensures g.add(a, b) == g.add(b, a)
  {
  }

  lemma Zero<T(!new)>(g: Monoid<T>, a: T)
    requires IsMonoid(g)
    ensures g.add(g.zero, a) == a && g.add(a, g.zero) == a
  {
    assert g.add(a, g.zero) == g.add(g.zero, a);
  }

  /** Pairs may be added crosswise. */
  lemma Interchange<T(!new)>(g: Monoid<T>, a: T, b: T, c: T, d: T)
    requires IsMonoid(g)
    ensures g.add(g.add(a, b), g.add(c, d)) == g.add(g.add(a, c), g.add(b, d))
  {
    hide IsMonoid;
    Assoc(g, a, b, g.add(c, d));
    Assoc(g, b, c, d);
    Comm(g, b, c);
    Assoc(g, c, b, d);
    Assoc(g, a, c, g.add(b, d));
  }

  lemma Image<M(!new), K(!new), S(!new)>(b: Scheme<M, K, S>, m: M, x: K, y: K)
    requires IsScheme(b)
    ensures b.image(m, b.keys.add(x, y)) == b.sigs.add(b.image(m, x), b.image(m, y))
    ensures b.image(m, b.keys.zero) == b.sigs.zero
  {
  }

  // ---- multiples ---------------------------------------------------------------------

  ghost function Times<T>(g: Monoid<T>, x: T, n: nat): T {
    if n == 0 then g.zero else g.add(Times(g, x, n - 1), x)
  }

  lemma {:induction false} TimesDouble<T(!new)>(g: Monoid<T>, x: T, n: nat)
    requires IsMonoid(g)
    ensures Times(g, g.add(x, x), n) == Times(g, x, 2 * n)
  {
    hide IsMonoid;
    if n > 0 {
      TimesDouble(g, x, n - 1);
      Assoc(g, Times(g, x, 2 * n - 2), x, x);
      assert Times(g, x, 2 * n - 1) == g.add(Times(g, x, 2 * n - 2), x);
    }
  }

  lemma {:induction false} TimesAdd<T(!new)>(g: Monoid<T>, x: T, m: nat, n: nat)
    requires IsMonoid(g)
    ensures Times(g, x, m + n) == g.add(Times(g, x, m), Times(g, x, n))
  {
    hide IsMonoid;
    if n == 0 {
      Zero(g, Times(g, x, m));
    } else {
      TimesAdd(g, x, m, n - 1);
      Assoc(g, Times(g, x, m), Times(g, x, n - 1), x);
    }
  }

  /** Double and add: as many additions as the exponent has bits. */
  method Multiply<T(!new)>(g: Monoid<T>, x: T, n: nat) returns (r: T)
    requires IsMonoid(g)
    ensures r == Times(g, x, n)
  {
    hide IsMonoid;
    r := g.zero;
    var c, exp := x, n;
    Zero(g, Times(g, x, n));
    while exp > 0
      invariant g.add(r, Times(g, c, exp)) == Times(g, x, n)
    {
      ghost var half := exp / 2;
      TimesDouble(g, c, half);
      if exp % 2 == 1 {
        TimesAdd(g, c, 1, 2 * half);
        Zero(g, c);
        assert Times(g, c, 1) == g.add(Times(g, c, 0), c);
        Assoc(g, r, c, Times(g, c, 2 * half));
        r := g.add(r, c);
      }
      exp := exp / 2;
      c := g.add(c, c);
    }
    Zero(g, r);
  }

  // ---- weighted sums -----------------------------------------------------------------

  /** The sum of the first `n` keys, each as often as its multiplicity says. */
  ghost function Weighted<T>(g: Monoid<T>, xs: seq<T>, ms: seq<nat>, n: nat): T
    requires n <= |xs| && n <= |ms|
  {
    if n == 0 then g.zero else g.add(Weighted(g, xs, ms, n - 1), Times(g, xs[n-1], ms[n-1]))
  }

  method AggregateVec<T(!new)>(g: Monoid<T>, xs: seq<T>, ms: seq<nat>) returns (r: T)
    requires IsMonoid(g) && |xs| == |ms|
    ensures r == Weighted(g, xs, ms, |xs|)
  {
    hide IsMonoid;
    r := g.zero;
    for i := 0 to |xs|
      invariant r == Weighted(g, xs, ms, i)
    {
      if ms[i] == 0 {
        Zero(g, r);
        continue;
      }
      var x := Multiply(g, xs[i], ms[i]);
      r := g.add(r, x);
    }
  }

  /** Sums of multiplicities give sums of keys. */
  lemma {:induction false} WeightedSum<T(!new)>(g: Monoid<T>, xs: seq<T>, a: seq<nat>, b: seq<nat>, c: seq<nat>, n: nat)
    requires IsMonoid(g) && n <= |xs| && n <= |a| && n <= |b| && n <= |c|
    requires forall i :: 0 <= i < n ==> c[i] == a[i] + b[i]
    ensures Weighted(g, xs, c, n) == g.add(Weighted(g, xs, a, n), Weighted(g, xs, b, n))
  {
    hide IsMonoid;
    if n == 0 {
      Zero(g, g.zero);
    } else {
      WeightedSum(g, xs, a, b, c, n - 1);
      TimesAdd(g, xs[n-1], a[n-1], b[n-1]);
      Interchange(g, Weighted(g, xs, a, n - 1), Weighted(g, xs, b, n - 1), Times(g, xs[n-1], a[n-1]), Times(g, xs[n-1], b[n-1]));
    }
  }

  /** Adding two signatures that verify gives one that verifies for the sum of the keys. */
  lemma SignaturesAdd<M(!new), K(!new), S(!new)>(b: Scheme<M, K, S>, m: M, s: S, x: K, t: S, y: K)
    requires IsScheme(b) && Verify(b, s, m, x) && Verify(b, t, m, y)
    ensures Verify(b, b.sigs.add(s, t), m, b.keys.add(x, y))
  {
    hide IsScheme;
    Image(b, m, x, y);
  }

  // ---- single signers ----------------------------------------------------------------

  /** Nobody, or one signer once. */
  ghost function Alone(n: nat, i: nat): seq<nat> {
    seq(n, k => if k == i then 1 else 0)
  }

  lemma {:induction false} WeightedNobody<T(!new)>(g: Monoid<T>, xs: seq<T>, ms: seq<nat>, n: nat)
    requires IsMonoid(g) && n <= |xs| && n <= |ms| && forall i :: 0 <= i < n ==> ms[i] == 0
    ensures Weighted(g, xs, ms, n) == g.zero
  {
    hide IsMonoid;
    if n > 0 {
      WeightedNobody(g, xs, ms, n - 1);
      Zero(g, g.zero);
    }
  }

  lemma {:induction false} WeightedAlone<T(!new)>(g: Monoid<T>, xs: seq<T>, i: nat, n: nat)
    requires IsMonoid(g) && i < |xs| && n <= |xs|
    ensures Weighted(g, xs, Alone(|xs|, i), n) == if i < n then xs[i] else g.zero
  {
    hide IsMonoid;
    if n > 0 {
      WeightedAlone(g, xs, i, n - 1);
      Zero(g, g.zero);
      Zero(g, xs[n-1]);
      Zero(g, xs[i]);
      assert Times(g, xs[n-1], 1) == g.add(Times(g, xs[n-1], 0), xs[n-1]);
    }
  }
}
