/** Polynomials modulo a prime: root counting, interpolation through given
    points, and the Lagrange formula at zero as the code evaluates it. */
module Polynomial {
  import opened Modular

  /** c[0] + c[1]*x + c[2]*x^2 + ... over the integers. */
  function Eval(c: seq<int>, x: int): int {
    if c == [] then 0 else c[0] + x * Eval(c[1..], x)
  }

  function Values(c: seq<int>, xs: seq<int>): (ys: seq<int>)
    ensures |ys| == |xs|
  {
    seq(|xs|, i requires 0 <= i < |xs| => Eval(c, xs[i]))
  }

  /** The quotient of synthetic division by x - a. */
  function Quotient(c: seq<int>, a: int): (q: seq<int>)
    ensures |q| == if c == [] then 0 else |c| - 1
  {
    if |c| <= 1 then [] else [Eval(c[1..], a)] + Quotient(c[1..], a)
  }

  lemma {:induction false} Factor(c: seq<int>, a: int, x: int)
    ensures Eval(c, x) == Eval(c, a) + (x - a) * Eval(Quotient(c, a), x)
  {
    if |c| == 1 {
      assert Eval(c[1..], x) == 0 && Eval(c[1..], a) == 0;
    } else if |c| > 1 {
      Factor(c[1..], a, x);
      var e, q := Eval(c[1..], a), Quotient(c[1..], a);
      assert Quotient(c, a)[1..] == q;
      FactorStep(c[0], e, Eval(q, x), a, x);
    }
  }

  lemma FactorStep(c0: int, e: int, q: int, a: int, x: int)
    ensures c0 + x * (e + (x - a) * q) == c0 + a * e + (x - a) * (e + x * q)
  {
  }

  /** Points that are pairwise different modulo p. */
  ghost predicate Distinct(xs: seq<int>, p: nat)
    requires p > 0
  {
    forall i, j :: 0 <= i < j < |xs| ==> !Cong(xs[j] - xs[i], 0, p)
  }

  ghost predicate AllCong(c: seq<int>, d: seq<int>, p: nat)
    requires p > 0
  {
    |c| == |d| && forall i :: 0 <= i < |c| ==> Cong(c[i], d[i], p)
  }

  lemma {:induction false} EvalCong(c: seq<int>, d: seq<int>, x: int, p: nat)
    requires p > 0 && AllCong(c, d, p)
    ensures Cong(Eval(c, x), Eval(d, x), p)
  {
    if c != [] {
      forall i | 0 <= i < |c| - 1
        ensures Cong(c[1..][i], d[1..][i], p)
      {
        assert Cong(c[i + 1], d[i + 1], p);
      }
      EvalCong(c[1..], d[1..], x, p);
      FromMultiple(x, x, 0, p);
      CongMul(x, x, Eval(c[1..], x), Eval(d[1..], x), p);
      CongAdd(c[0], d[0], x * Eval(c[1..], x), x * Eval(d[1..], x), p);
    } else {
      FromMultiple(0, 0, 0, p);
    }
  }

  // ------------------------------------------------------- Root counting

  lemma {:induction false} QuotientDetermines(c: seq<int>, d: seq<int>, a: int, p: nat)
    requires p > 0 && |c| == |d|
    requires Cong(Eval(c, a), Eval(d, a), p)
    requires AllCong(Quotient(c, a), Quotient(d, a), p)
    ensures AllCong(c, d, p)
  {
    if |c| == 0 {
    } else if |c| == 1 {
      assert Eval(c[1..], a) == 0 && Eval(d[1..], a) == 0;
    } else {
      var e, f := Eval(c[1..], a), Eval(d[1..], a);
      assert Cong(Quotient(c, a)[0], Quotient(d, a)[0], p);
      HeadCong(c[0], d[0], e, f, a, p);
      forall i | 0 <= i < |c| - 2
        ensures Cong(Quotient(c[1..], a)[i], Quotient(d[1..], a)[i], p)
      {
        assert Cong(Quotient(c, a)[i + 1], Quotient(d, a)[i + 1], p);
      }
      QuotientDetermines(c[1..], d[1..], a, p);
      forall i | 0 <= i < |c|
        ensures Cong(c[i], d[i], p)
      {
        if i > 0 {
          assert Cong(c[1..][i - 1], d[1..][i - 1], p);
        }
      }
    }
  }

  lemma HeadCong(c0: int, d0: int, e: int, f: int, a: int, p: nat)
    requires p > 0 && Cong(e, f, p) && Cong(c0 + a * e, d0 + a * f, p)
    ensures Cong(c0, d0, p)
  {
    FromMultiple(-a, -a, 0, p);
    CongMul(-a, -a, e, f, p);
    CongAdd(c0 + a * e, d0 + a * f, (-a) * e, (-a) * f, p);
    assert c0 + a * e + (-a) * e == c0 && d0 + a * f + (-a) * f == d0;
  }

  lemma QuotientsAgree(u: int, v: int, q: int, r: int, t: int, p: nat)
    requires IsPrime(p) && !Cong(t, 0, p)
    requires Cong(u, v, p) && Cong(u + t * q, v + t * r, p)
    ensures Cong(q, r, p)
  {
    CongSym(u, v, p);
    FromMultiple(-1, -1, 0, p);
    CongMul(-1, -1, u, v, p);
    CongAdd(u + t * q, v + t * r, -1 * u, -1 * v, p);
    assert u + t * q + -1 * u == q * t && v + t * r + -1 * v == r * t;
    Cancel(q, r, t, p);
  }

  lemma QuotientsAgreeAt(c: seq<int>, d: seq<int>, a: int, x: int, p: nat)
    requires IsPrime(p) && !Cong(x - a, 0, p)
    requires Cong(Eval(c, a), Eval(d, a), p) && Cong(Eval(c, x), Eval(d, x), p)
    ensures Cong(Eval(Quotient(c, a), x), Eval(Quotient(d, a), x), p)
  {
    Factor(c, a, x);
    Factor(d, a, x);
    QuotientsAgree(Eval(c, a), Eval(d, a), Eval(Quotient(c, a), x), Eval(Quotient(d, a), x), x - a, p);
  }

  /** Two polynomials with as many coefficients as there are distinct points on
      which they agree modulo the prime have congruent coefficients. */
  lemma {:induction false} AgreeingPolynomials(c: seq<int>, d: seq<int>, xs: seq<int>, p: nat)
    requires IsPrime(p) && |c| == |d| == |xs| && Distinct(xs, p)
    requires forall i :: 0 <= i < |xs| ==> Cong(Eval(c, xs[i]), Eval(d, xs[i]), p)
    ensures AllCong(c, d, p)
    decreases |xs|
  {
    if xs != [] {
      var a, rest := xs[0], xs[1..];
      var q, r := Quotient(c, a), Quotient(d, a);
      assert Cong(Eval(c, xs[0]), Eval(d, xs[0]), p);
      forall i | 0 <= i < |rest|
        ensures Cong(Eval(q, rest[i]), Eval(r, rest[i]), p)
      {
        assert Cong(Eval(c, xs[i + 1]), Eval(d, xs[i + 1]), p);
        QuotientsAgreeAt(c, d, a, xs[i + 1], p);
      }
      DistinctTail(xs, p);
      AgreeingPolynomials(q, r, rest, p);
      QuotientDetermines(c, d, a, p);
    }
  }

  lemma DistinctTail(xs: seq<int>, p: nat)
    requires p > 0 && xs != [] && Distinct(xs, p)
    ensures Distinct(xs[1..], p)
  {
  }

  lemma DistinctFront(xs: seq<int>, p: nat)
    requires p > 0 && xs != [] && Distinct(xs, p)
    ensures Distinct(xs[..|xs| - 1], p)
  {
  }

  // ------------------------------------------------------- Interpolation

  /** Coefficients of y + (x - a) * g(x). */
  function Extend(g: seq<int>, a: int, y: int): (c: seq<int>)
    ensures |c| == |g| + 1
  {
    if g == [] then [y] else [y - a * g[0]] + Extend(g[1..], a, g[0])
  }

  lemma {:induction false} ExtendEval(g: seq<int>, a: int, y: int, x: int)
    ensures Eval(Extend(g, a, y), x) == y + (x - a) * Eval(g, x)
  {
    if g == [] {
      assert Extend(g, a, y)[1..] == [];
      assert Eval([y], x) == y + x * 0;
    } else {
      ExtendEval(g[1..], a, g[0], x);
      assert Extend(g, a, y)[1..] == Extend(g[1..], a, g[0]);
      ExtendStep(y, g[0], Eval(g[1..], x), a, x);
    }
  }

  lemma ExtendStep(y: int, g0: int, e: int, a: int, x: int)
    ensures y - a * g0 + x * (g0 + (x - a) * e) == y + (x - a) * (g0 + x * e)
  {
  }

  /** Divided differences (ys[i] - ys[0]) / (xs[i] - xs[0]) for i >= 1. */
  function Divided(xs: seq<int>, ys: seq<int>, p: nat): (ds: seq<int>)
    requires p > 0 && |xs| == |ys| > 0
    ensures |ds| == |xs| - 1
  {
    seq(|xs| - 1, i requires 0 <= i < |xs| - 1 =>
      (ys[i + 1] - ys[0]) * ModInverse(xs[i + 1] - xs[0], p))
  }

  function Interpolant(xs: seq<int>, ys: seq<int>, p: nat): (c: seq<int>)
    requires p > 0 && |xs| == |ys|
    ensures |c| == |xs|
    decreases |xs|
  {
    if xs == [] then [] else Extend(Interpolant(xs[1..], Divided(xs, ys, p), p), xs[0], ys[0])
  }

  lemma {:induction false} InterpolantPasses(xs: seq<int>, ys: seq<int>, p: nat, i: nat)
    requires IsPrime(p) && |xs| == |ys| && Distinct(xs, p) && i < |xs|
    ensures Cong(Eval(Interpolant(xs, ys, p), xs[i]), ys[i], p)
    decreases |xs|
  {
    var ds := Divided(xs, ys, p);
    var g := Interpolant(xs[1..], ds, p);
    ExtendEval(g, xs[0], ys[0], xs[i]);
    if i == 0 {
      assert (xs[0] - xs[0]) * Eval(g, xs[0]) == 0;
      FromMultiple(ys[0], ys[0], 0, p);
    } else {
      DistinctTail(xs, p);
      InterpolantPasses(xs[1..], ds, p, i - 1);
      DividedStep(ys[0], ys[i], xs[i] - xs[0], Eval(g, xs[i]), p);
    }
  }

  lemma DividedStep(y0: int, yi: int, t: int, e: int, p: nat)
    requires IsPrime(p) && !Cong(t, 0, p) && Cong(e, (yi - y0) * ModInverse(t, p), p)
    ensures Cong(y0 + t * e, yi, p)
  {
    ResidueIsRemainder(t - 0, p);
    InverseCong(t, p);
    NewtonStep(y0, yi, t, ModInverse(t, p), e, p);
  }

  lemma NewtonStep(y0: int, yi: int, t: int, inv: int, e: int, p: nat)
    requires p > 0 && Cong(t * inv, 1, p) && Cong(e, (yi - y0) * inv, p)
    ensures Cong(y0 + t * e, yi, p)
  {
    FromMultiple(t, t, 0, p);
    CongMul(t, t, e, (yi - y0) * inv, p);
    CancelOne(yi - y0, t, inv, p);
    assert t * ((yi - y0) * inv) == (yi - y0) * t * inv;
    CongTrans(t * e, (yi - y0) * t * inv, yi - y0, p);
    FromMultiple(y0, y0, 0, p);
    CongAdd(y0, y0, t * e, yi - y0, p);
  }

  function Reduced(c: seq<int>, p: nat): (r: seq<int>)
    requires p > 0
    ensures |r| == |c| && forall i :: 0 <= i < |c| ==> 0 <= r[i] < p
  {
    seq(|c|, i requires 0 <= i < |c| => c[i] % p)
  }

  lemma ReducedCong(c: seq<int>, p: nat)
    requires p > 0
    ensures AllCong(Reduced(c, p), c, p)
  {
    forall i | 0 <= i < |c|
      ensures Cong(Reduced(c, p)[i], c[i], p)
    {
      CongMod(c[i], p);
    }
  }

  // ------------------------------------------------------- Lagrange at zero

  function Dot(ys: seq<int>, cs: seq<int>): int
    requires |ys| == |cs|
  {
    if ys == [] then 0 else ys[0] * cs[0] + Dot(ys[1..], cs[1..])
  }

  function Sum(cs: seq<int>): int {
    if cs == [] then 0 else cs[0] + Sum(cs[1..])
  }

  /** The product of all -z. */
  function NegProduct(zs: seq<int>): int {
    if zs == [] then 1 else NegProduct(zs[..|zs| - 1]) * -zs[|zs| - 1]
  }

  /** The product of all x - z. */
  function DiffProduct(x: int, zs: seq<int>): int {
    if zs == [] then 1 else DiffProduct(x, zs[..|zs| - 1]) * (x - zs[|zs| - 1])
  }

  function Others(xs: seq<int>, i: nat): (zs: seq<int>)
    requires i < |xs|
    ensures |zs| == |xs| - 1
  {
    xs[..i] + xs[i + 1..]
  }

  /** The weight `_lagrange_interpolation` gives to share i. */
  function Weight(xs: seq<int>, i: nat, p: nat): nat
    requires p > 0 && i < |xs|
  {
    (NegProduct(Others(xs, i)) % p * ModInverse(DiffProduct(xs[i], Others(xs, i)) % p, p)) % p
  }

  function Weights(xs: seq<int>, p: nat): (ws: seq<int>)
    requires p > 0
    ensures |ws| == |xs|
  {
    seq(|xs|, i requires 0 <= i < |xs| => Weight(xs, i, p))
  }

  lemma {:induction false} DiffProductNonZero(x: int, zs: seq<int>, p: nat)
    requires IsPrime(p) && forall z :: z in zs ==> !Cong(x - z, 0, p)
    ensures !Cong(DiffProduct(x, zs), 0, p)
  {
    if zs == [] {
      CongIffSameRemainder(1, 0, p);
    } else {
      var front := zs[..|zs| - 1];
      forall z | z in front
        ensures !Cong(x - z, 0, p)
      {
        assert z in zs;
      }
      DiffProductNonZero(x, front, p);
      assert zs[|zs| - 1] in zs;
      NonZeroProduct(DiffProduct(x, zs[..|zs| - 1]), x - zs[|zs| - 1], p);
    }
  }

  lemma OthersDiffer(xs: seq<int>, i: nat, p: nat)
    requires IsPrime(p) && Distinct(xs, p) && i < |xs|
    ensures !Cong(DiffProduct(xs[i], Others(xs, i)), 0, p)
  {
    var zs := Others(xs, i);
    forall z | z in zs
      ensures !Cong(xs[i] - z, 0, p)
    {
      var k :| 0 <= k < |zs| && zs[k] == z;
      PairDiffers(xs, i, if k < i then k else k + 1, p);
    }
    DiffProductNonZero(xs[i], zs, p);
  }

  lemma PairDiffers(xs: seq<int>, i: nat, j: nat, p: nat)
    requires p > 0 && Distinct(xs, p) && i < |xs| && j < |xs| && i != j
    ensures !Cong(xs[i] - xs[j], 0, p)
  {
    if i < j && Cong(xs[i] - xs[j], 0, p) {
      CongNeg(xs[i] - xs[j], p);
    }
  }

  lemma CongNeg(a: int, p: nat)
    requires p > 0 && Cong(a, 0, p)
    ensures Cong(-a, 0, p)
  {
    FromMultiple(-1, -1, 0, p);
    CongMul(-1, -1, a, 0, p);
  }

  /** The weight times the denominator is the numerator. */
  lemma WeightLaw(xs: seq<int>, i: nat, p: nat)
    requires IsPrime(p) && Distinct(xs, p) && i < |xs|
    ensures Cong(Weight(xs, i, p) * DiffProduct(xs[i], Others(xs, i)), NegProduct(Others(xs, i)), p)
  {
    OthersDiffer(xs, i, p);
    var d, n := DiffProduct(xs[i], Others(xs, i)), NegProduct(Others(xs, i));
    CongIffSameRemainder(d, 0, p);
    CongMod(d, p);
    CongIffSameRemainder(d % p, d, p);
    InverseCong(d % p, p);
    WeightTimesDenominator(n, d, ModInverse(d % p, p), p);
  }

  lemma WeightTimesDenominator(n: int, d: int, inv: int, p: nat)
    requires p > 0 && Cong(d % p * inv, 1, p)
    ensures Cong((n % p * inv) % p * d, n, p)
  {
    var w := (n % p * inv) % p;
    CongMod(d, p);
    CongSym(d % p, d, p);
    FromMultiple(inv, inv, 0, p);
    CongMul(d, d % p, inv, inv, p);
    CongTrans(d * inv, d % p * inv, 1, p);
    CongMod(n, p);
    CongMul(n % p, n, inv, inv, p);
    CongMod(n % p * inv, p);
    CongTrans(w, n % p * inv, n * inv, p);
    FromMultiple(d, d, 0, p);
    CongMul(w, n * inv, d, d, p);
    CancelOne(n, d, inv, p);
    SwapFactors(n, inv, d);
    CongTrans(w * d, n * d * inv, n, p);
  }

  /** Removing one more point b from the others multiplies weight and w' by the
      two factors that belong to b. */
  lemma RemovePoint(w: int, w': int, d: int, n: int, x: int, b: int, p: nat)
    requires IsPrime(p) && !Cong(d, 0, p)
    requires Cong(w * (d * (x - b)), n * -b, p) && Cong(w' * d, n, p)
    ensures Cong((x - b) * w, -b * w', p)
  {
    FromMultiple(-b, -b, 0, p);
    CongMul(w' * d, n, -b, -b, p);
    CongSym(w' * d * -b, n * -b, p);
    CongTrans(w * (d * (x - b)), n * -b, w' * d * -b, p);
    assert w * (d * (x - b)) == (x - b) * w * d by {
      assert d * (x - b) == (x - b) * d;
    }
    assert w' * d * -b == -b * w' * d by {
      assert w' * d * -b == -b * (w' * d);
    }
    Cancel((x - b) * w, -b * w', d, p);
  }

  lemma {:induction false} ProductsCons(x: int, z: int, zs: seq<int>)
    ensures DiffProduct(x, [z] + zs) == DiffProduct(x, zs) * (x - z)
    ensures NegProduct([z] + zs) == NegProduct(zs) * -z
  {
    var all := [z] + zs;
    if zs == [] {
      assert all[..0] == [];
    } else {
      var m := |zs| - 1;
      assert all[..|all| - 1] == [z] + zs[..m];
      ProductsCons(x, z, zs[..m]);
      SwapFactors(DiffProduct(x, zs[..m]), x - z, x - zs[m]);
      SwapFactors(NegProduct(zs[..m]), -z, -zs[m]);
    }
  }

  lemma ProductsSnoc(x: int, zs: seq<int>, z: int)
    ensures DiffProduct(x, zs + [z]) == DiffProduct(x, zs) * (x - z)
    ensures NegProduct(zs + [z]) == NegProduct(zs) * -z
  {
  }

  lemma SwapFactors(a: int, b: int, c: int)
    ensures a * b * c == a * c * b
  {
  }

  /** If ys is xs without the point b, the weights of a common point differ by
      the factors of b only. */
  lemma DropPoint(xs: seq<int>, i: nat, ys: seq<int>, j: nat, b: int, p: nat)
    requires IsPrime(p) && Distinct(xs, p) && Distinct(ys, p)
    requires i < |xs| && j < |ys| && xs[i] == ys[j]
    requires Others(xs, i) == [b] + Others(ys, j) || Others(xs, i) == Others(ys, j) + [b]
    ensures Cong((xs[i] - b) * Weight(xs, i, p), -b * Weight(ys, j, p), p)
  {
    var x, all, zs := xs[i], Others(xs, i), Others(ys, j);
    ProductsWith(x, b, zs, all);
    WeightLaw(xs, i, p);
    WeightLaw(ys, j, p);
    OthersDiffer(ys, j, p);
    RemoveFactor(Weight(xs, i, p), Weight(ys, j, p), DiffProduct(x, all), NegProduct(all),
                 DiffProduct(x, zs), NegProduct(zs), x, b, p);
  }

  lemma ProductsWith(x: int, b: int, zs: seq<int>, all: seq<int>)
    requires all == [b] + zs || all == zs + [b]
    ensures DiffProduct(x, all) == DiffProduct(x, zs) * (x - b)
    ensures NegProduct(all) == NegProduct(zs) * -b
  {
    if all == [b] + zs {
      ProductsCons(x, b, zs);
    } else {
      ProductsSnoc(x, zs, b);
    }
  }

  lemma RemoveFactor(w: int, w': int, d: int, n: int, d': int, n': int, x: int, b: int, p: nat)
    requires IsPrime(p) && !Cong(d', 0, p)
    requires d == d' * (x - b) && n == n' * -b
    requires Cong(w * d, n, p) && Cong(w' * d', n', p)
    ensures Cong((x - b) * w, -b * w', p)
  {
    RemovePoint(w, w', d', n', x, b, p);
  }

  lemma DropFirst(xs: seq<int>, i: nat, p: nat)
    requires IsPrime(p) && Distinct(xs, p) && 1 <= i < |xs|
    ensures Cong((xs[i] - xs[0]) * Weight(xs, i, p), -xs[0] * Weight(xs[1..], i - 1, p), p)
  {
    DistinctTail(xs, p);
    assert Others(xs, i) == [xs[0]] + Others(xs[1..], i - 1);
    DropPoint(xs, i, xs[1..], i - 1, xs[0], p);
  }

  lemma DropLast(xs: seq<int>, i: nat, p: nat)
    requires IsPrime(p) && Distinct(xs, p) && i < |xs| - 1
    ensures Cong((xs[i] - xs[|xs| - 1]) * Weight(xs, i, p),
                 -xs[|xs| - 1] * Weight(xs[..|xs| - 1], i, p), p)
  {
    var m := |xs| - 1;
    DistinctFront(xs, p);
    assert Others(xs, i) == Others(xs[..m], i) + [xs[m]];
    DropPoint(xs, i, xs[..m], i, xs[m], p);
  }

  /** The sequence (xs[i] - a) * cs[i]. */
  function Shifted(xs: seq<int>, a: int, cs: seq<int>): (r: seq<int>)
    requires |xs| == |cs|
    ensures |r| == |xs|
  {
    seq(|xs|, i requires 0 <= i < |xs| => (xs[i] - a) * cs[i])
  }

  lemma {:induction false} SumShifted(xs: seq<int>, a: int, cs: seq<int>)
    requires |xs| == |cs|
    ensures Sum(Shifted(xs, a, cs)) == Dot(xs, cs) - a * Sum(cs)
  {
    if xs != [] {
      SumShifted(xs[1..], a, cs[1..]);
      assert Shifted(xs, a, cs)[1..] == Shifted(xs[1..], a, cs[1..]);
      SumShiftedStep(xs[0], a, cs[0], Dot(xs[1..], cs[1..]), Sum(cs[1..]));
    }
  }

  lemma SumShiftedStep(x: int, a: int, c: int, d: int, s: int)
    ensures (x - a) * c + (d - a * s) == x * c + d - a * (c + s)
  {
  }

  lemma {:induction false} SumSnoc(cs: seq<int>, c: int)
    ensures Sum(cs + [c]) == Sum(cs) + c
  {
    if cs != [] {
      assert (cs + [c])[1..] == cs[1..] + [c];
      SumSnoc(cs[1..], c);
    } else {
      assert ([] + [c])[1..] == [];
    }
  }

  lemma {:induction false} ScaledSum(cs: seq<int>, ds: seq<int>, m: int, p: nat)
    requires p > 0 && |cs| == |ds|
    requires forall i :: 0 <= i < |cs| ==> Cong(cs[i], m * ds[i], p)
    ensures Cong(Sum(cs), m * Sum(ds), p)
  {
    if cs == [] {
      assert m * Sum(ds) == 0;
      FromMultiple(0, 0, 0, p);
    } else {
      ScaledSum(cs[1..], ds[1..], m, p);
      CongAdd(cs[0], m * ds[0], Sum(cs[1..]), m * Sum(ds[1..]), p);
      assert m * Sum(ds) == m * ds[0] + m * Sum(ds[1..]);
    }
  }

  lemma {:induction false} ScaledDot(ys: seq<int>, cs: seq<int>, ds: seq<int>, m: int, p: nat)
    requires p > 0 && |ys| == |cs| == |ds|
    requires forall i :: 0 <= i < |cs| ==> Cong(cs[i], m * ds[i], p)
    ensures Cong(Dot(ys, cs), m * Dot(ys, ds), p)
  {
    if ys == [] {
      assert m * Dot(ys, ds) == 0;
      FromMultiple(0, 0, 0, p);
    } else {
      ScaledDot(ys[1..], cs[1..], ds[1..], m, p);
      FromMultiple(ys[0], ys[0], 0, p);
      CongMul(ys[0], ys[0], cs[0], m * ds[0], p);
      assert ys[0] * (m * ds[0]) == m * (ys[0] * ds[0]);
      CongAdd(ys[0] * cs[0], m * (ys[0] * ds[0]), Dot(ys[1..], cs[1..]), m * Dot(ys[1..], ds[1..]), p);
      assert m * Dot(ys, ds) == m * (ys[0] * ds[0]) + m * Dot(ys[1..], ds[1..]);
    }
  }

  lemma ShiftedWeights(xs: seq<int>, p: nat)
    requires IsPrime(p) && Distinct(xs, p) && xs != []
    ensures var sh := Shifted(xs, xs[0], Weights(xs, p));
            sh[0] == 0
            && forall i :: 0 <= i < |xs| - 1 ==>
                 Cong(sh[1..][i], -xs[0] * Weights(xs[1..], p)[i], p)
  {
    var sh := Shifted(xs, xs[0], Weights(xs, p));
    assert 0 * Weights(xs, p)[0] == 0;
    forall i | 0 <= i < |xs| - 1
      ensures Cong(sh[1..][i], -xs[0] * Weights(xs[1..], p)[i], p)
    {
      DropFirst(xs, i + 1, p);
    }
  }

  lemma SumWithoutFirst(xs: seq<int>, p: nat)
    requires IsPrime(p) && Distinct(xs, p) && |xs| >= 2
    ensures Cong(Sum(Weights(xs[1..], p)), 1, p) ==> Cong(Sum(Shifted(xs, xs[0], Weights(xs, p))), -xs[0], p)
  {
    ShiftedWeights(xs, p);
    if Cong(Sum(Weights(xs[1..], p)), 1, p) {
      ZeroThenScaled(Shifted(xs, xs[0], Weights(xs, p)), Weights(xs[1..], p), -xs[0], p);
    }
  }

  lemma ZeroThenScaled(sh: seq<int>, vs: seq<int>, m: int, p: nat)
    requires p > 0 && |sh| == |vs| + 1 && sh[0] == 0 && Cong(Sum(vs), 1, p)
    requires forall i :: 0 <= i < |vs| ==> Cong(sh[1..][i], m * vs[i], p)
    ensures Cong(Sum(sh), m, p)
  {
    ScaledSum(sh[1..], vs, m, p);
    UnitScale(Sum(sh), Sum(vs), m, p);
  }

  lemma ScaledThenZero(sh: seq<int>, vs: seq<int>, m: int, p: nat)
    requires p > 0 && |sh| == |vs| + 1 && sh[|vs|] == 0 && Cong(Sum(vs), 1, p)
    requires forall i :: 0 <= i < |vs| ==> Cong(sh[..|vs|][i], m * vs[i], p)
    ensures Cong(Sum(sh), m, p)
  {
    ScaledSum(sh[..|vs|], vs, m, p);
    assert sh == sh[..|vs|] + [0];
    SumSnoc(sh[..|vs|], 0);
    UnitScale(Sum(sh), Sum(vs), m, p);
  }

  lemma UnitScale(s: int, t: int, m: int, p: nat)
    requires p > 0 && Cong(s, m * t, p) && Cong(t, 1, p)
    ensures Cong(s, m, p)
  {
    FromMultiple(m, m, 0, p);
    CongMul(m, m, t, 1, p);
    CongTrans(s, m * t, m, p);
  }

  lemma ShiftedWeightsFront(xs: seq<int>, p: nat)
    requires IsPrime(p) && Distinct(xs, p) && xs != []
    ensures var m := |xs| - 1;
            var sh := Shifted(xs, xs[m], Weights(xs, p));
            sh[m] == 0
            && forall i :: 0 <= i < m ==> Cong(sh[..m][i], -xs[m] * Weights(xs[..m], p)[i], p)
  {
    var m := |xs| - 1;
    var sh := Shifted(xs, xs[m], Weights(xs, p));
    assert 0 * Weights(xs, p)[m] == 0;
    forall i | 0 <= i < m
      ensures Cong(sh[..m][i], -xs[m] * Weights(xs[..m], p)[i], p)
    {
      DropLast(xs, i, p);
    }
  }

  lemma SumWithoutLast(xs: seq<int>, p: nat)
    requires IsPrime(p) && Distinct(xs, p) && |xs| >= 2
    ensures var m := |xs| - 1;
            Cong(Sum(Weights(xs[..m], p)), 1, p) ==> Cong(Sum(Shifted(xs, xs[m], Weights(xs, p))), -xs[m], p)
  {
    var m := |xs| - 1;
    ShiftedWeightsFront(xs, p);
    if Cong(Sum(Weights(xs[..m], p)), 1, p) {
      ScaledThenZero(Shifted(xs, xs[m], Weights(xs, p)), Weights(xs[..m], p), -xs[m], p);
    }
  }

  /** The weights of any distinct points add up to one. */
  lemma {:induction false} WeightsSumToOne(xs: seq<int>, p: nat)
    requires IsPrime(p) && Distinct(xs, p) && |xs| >= 1
    ensures Cong(Sum(Weights(xs, p)), 1, p)
    decreases |xs|
  {
    if |xs| == 1 {
      OneWeight(xs, p);
    } else {
      var m := |xs| - 1;
      DistinctTail(xs, p);
      WeightsSumToOne(xs[1..], p);
      DistinctFront(xs, p);
      WeightsSumToOne(xs[..m], p);
      SumWithoutFirst(xs, p);
      SumWithoutLast(xs, p);
      PairDiffers(xs, m, 0, p);
      UnitSum(xs, Weights(xs, p), p);
    }
  }

  lemma OneWeight(xs: seq<int>, p: nat)
    requires IsPrime(p) && Distinct(xs, p) && |xs| == 1
    ensures Cong(Sum(Weights(xs, p)), 1, p)
  {
    var ws := Weights(xs, p);
    WeightLaw(xs, 0, p);
    assert Others(xs, 0) == [];
    assert Sum(ws) == ws[0] + Sum(ws[1..]);
  }

  lemma UnitSum(xs: seq<int>, ws: seq<int>, p: nat)
    requires IsPrime(p) && |xs| == |ws| >= 2 && !Cong(xs[|xs| - 1] - xs[0], 0, p)
    requires Cong(Sum(Shifted(xs, xs[0], ws)), -xs[0], p)
    requires Cong(Sum(Shifted(xs, xs[|xs| - 1], ws)), -xs[|xs| - 1], p)
    ensures Cong(Sum(ws), 1, p)
  {
    var m := |xs| - 1;
    SumShifted(xs, xs[0], ws);
    SumShifted(xs, xs[m], ws);
    TwoEquations(Dot(xs, ws), Sum(ws), xs[0], xs[m], p);
  }

  lemma TwoEquations(e: int, s: int, a: int, b: int, p: nat)
    requires IsPrime(p) && !Cong(b - a, 0, p)
    requires Cong(e - a * s, -a, p) && Cong(e - b * s, -b, p)
    ensures Cong(s, 1, p)
  {
    FromMultiple(-1, -1, 0, p);
    CongMul(-1, -1, e - b * s, -b, p);
    CongAdd(e - a * s, -a, -1 * (e - b * s), -1 * -b, p);
    Difference(e, s, a, b);
    Cancel(s, 1, b - a, p);
  }

  lemma Difference(e: int, s: int, a: int, b: int)
    ensures e - a * s + -1 * (e - b * s) == s * (b - a)
    ensures -a + -1 * -b == 1 * (b - a)
  {
  }

  lemma {:induction false} DotSplits(c: seq<int>, a: int, xs: seq<int>, cs: seq<int>)
    requires |xs| == |cs|
    ensures Dot(Values(c, xs), cs)
         == Eval(c, a) * Sum(cs) + Dot(Values(Quotient(c, a), xs), Shifted(xs, a, cs))
  {
    if xs != [] {
      DotSplits(c, a, xs[1..], cs[1..]);
      var g := Quotient(c, a);
      assert Values(c, xs)[1..] == Values(c, xs[1..]);
      assert Values(g, xs)[1..] == Values(g, xs[1..]);
      assert Shifted(xs, a, cs)[1..] == Shifted(xs[1..], a, cs[1..]);
      Factor(c, a, xs[0]);
      SplitTerm(Eval(c, a), xs[0] - a, Eval(g, xs[0]), cs[0], Sum(cs[1..]));
    }
  }

  lemma SplitTerm(v: int, t: int, q: int, c: int, s: int)
    ensures (v + t * q) * c + v * s == v * (c + s) + q * (t * c)
  {
  }

  /** Lagrange's formula: for every polynomial with at most as many coefficients
      as points, the weighted sum of its values is its value at zero. */
  lemma {:induction false} LagrangeAtZero(c: seq<int>, xs: seq<int>, p: nat)
    requires IsPrime(p) && Distinct(xs, p) && |c| <= |xs|
    ensures Cong(Dot(Values(c, xs), Weights(xs, p)), Eval(c, 0), p)
    decreases |xs|
  {
    if xs == [] {
      FromMultiple(0, 0, 0, p);
    } else {
      var a, g, ws := xs[0], Quotient(c, xs[0]), Weights(xs, p);
      DistinctTail(xs, p);
      LagrangeAtZero(g, xs[1..], p);
      DotSplits(c, a, xs, ws);
      DotWithoutFirst(g, xs, p);
      WeightsSumToOne(xs, p);
      Factor(c, a, 0);
      CombineParts(Eval(c, a), Sum(ws), Dot(Values(g, xs), Shifted(xs, a, ws)),
                   Dot(Values(g, xs[1..]), Weights(xs[1..], p)), Eval(g, 0), a, p);
    }
  }

  lemma DotWithoutFirst(g: seq<int>, xs: seq<int>, p: nat)
    requires IsPrime(p) && Distinct(xs, p) && xs != []
    ensures Cong(Dot(Values(g, xs), Shifted(xs, xs[0], Weights(xs, p))),
                 -xs[0] * Dot(Values(g, xs[1..]), Weights(xs[1..], p)), p)
  {
    ShiftedWeights(xs, p);
    assert Values(g, xs)[1..] == Values(g, xs[1..]);
    DotZeroThenScaled(Values(g, xs), Shifted(xs, xs[0], Weights(xs, p)), Weights(xs[1..], p), -xs[0], p);
  }

  lemma DotZeroThenScaled(ys: seq<int>, sh: seq<int>, vs: seq<int>, m: int, p: nat)
    requires p > 0 && |ys| == |sh| == |vs| + 1 && sh[0] == 0
    requires forall i :: 0 <= i < |vs| ==> Cong(sh[1..][i], m * vs[i], p)
    ensures Cong(Dot(ys, sh), m * Dot(ys[1..], vs), p)
  {
    ScaledDot(ys[1..], sh[1..], vs, m, p);
    assert ys[0] * sh[0] == 0;
  }

  lemma CombineParts(v: int, s: int, d: int, d': int, e: int, a: int, p: nat)
    requires p > 0 && Cong(s, 1, p) && Cong(d, -a * d', p) && Cong(d', e, p)
    ensures Cong(v * s + d, v + (0 - a) * e, p)
  {
    FromMultiple(v, v, 0, p);
    CongMul(v, v, s, 1, p);
    FromMultiple(-a, -a, 0, p);
    CongMul(-a, -a, d', e, p);
    CongTrans(d, -a * d', -a * e, p);
    CongAdd(v * s, v * 1, d, -a * e, p);
  }
}
