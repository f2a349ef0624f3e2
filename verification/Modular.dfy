/** Integer congruences modulo a prime and the extended Euclid of the secret
    sharing code. Every identity is carried out over the integers; congruence is
    used only through explicit multiples. */
module Modular {

  /** The remainder of `n`, reached by adding or subtracting `p`. */
  ghost function Residue(n: int, p: int): int
    requires p > 0
    decreases if n < 0 then p - n else n
  {
    if n < 0 then Residue(n + p, p) else if n < p then n else Residue(n - p, p)
  }

  /** `a` and `b` differ by a multiple of `p`. */
  ghost predicate Cong(a: int, b: int, p: int)
    requires p > 0
  {
    Residue(a - b, p) == 0
  }

  ghost predicate IsPrime(p: int) {
    p > 1 && forall d :: 1 < d < p ==> p % d != 0
  }

  /** A multiple of `p` smaller than `p` in absolute value is zero. */
  lemma SmallMultiple(k: int, p: int)
    requires p > 0 && -p < k * p < p
    ensures k == 0
  {
  }

  lemma MultipleMod(k: int, p: int)
    requires p > 0
    ensures (k * p) % p == 0
  {
    var q, r := (k * p) / p, (k * p) % p;
    assert (k - q) * p == r;
    SmallMultiple(k - q, p);
  }

  lemma RemainderShift(n: int, p: int)
    requires p > 0
    ensures (n + p) % p == n % p
  {
    var q, q' := n / p, (n + p) / p;
    assert n + p == q' * p + (n + p) % p && n == q * p + n % p;
    assert (q + 1 - q') * p == (n + p) % p - n % p;
    SmallMultiple(q + 1 - q', p);
  }

  lemma {:induction false} ResidueIsRemainder(n: int, p: int)
    requires p > 0
    ensures Residue(n, p) == n % p
    decreases if n < 0 then p - n else n
  {
    if n < 0 {
      RemainderShift(n, p);
      ResidueIsRemainder(n + p, p);
    } else if n >= p {
      RemainderShift(n - p, p);
      ResidueIsRemainder(n - p, p);
    } else {
      var q := n / p;
      assert n == q * p + n % p;
      SmallMultiple(q, p);
    }
  }

  lemma FromMultiple(a: int, b: int, k: int, p: int)
    requires p > 0 && a == b + k * p
    ensures Cong(a, b, p)
  {
    MultipleMod(k, p);
    ResidueIsRemainder(a - b, p);
  }

  /** The multiple of `p` by which two congruent numbers differ. */
  ghost function Multiple(a: int, b: int, p: int): (k: int)
    requires p > 0 && Cong(a, b, p)
    ensures a == b + k * p
  {
    ResidueIsRemainder(a - b, p);
    (a - b) / p
  }

  lemma CongSym(a: int, b: int, p: int)
    requires p > 0 && Cong(a, b, p)
    ensures Cong(b, a, p)
  {
    var k := Multiple(a, b, p);
    assert b == a + (-k) * p;
    FromMultiple(b, a, -k, p);
  }

  lemma CongTrans(a: int, b: int, c: int, p: int)
    requires p > 0 && Cong(a, b, p) && Cong(b, c, p)
    ensures Cong(a, c, p)
  {
    var k, l := Multiple(a, b, p), Multiple(b, c, p);
    assert a == c + (k + l) * p;
    FromMultiple(a, c, k + l, p);
  }

  lemma CongAdd(a: int, b: int, c: int, d: int, p: int)
    requires p > 0 && Cong(a, b, p) && Cong(c, d, p)
    ensures Cong(a + c, b + d, p)
  {
    var k, l := Multiple(a, b, p), Multiple(c, d, p);
    assert a + c == b + d + (k + l) * p;
    FromMultiple(a + c, b + d, k + l, p);
  }

  lemma CongMul(a: int, b: int, c: int, d: int, p: int)
    requires p > 0 && Cong(a, b, p) && Cong(c, d, p)
    ensures Cong(a * c, b * d, p)
  {
    var k, l := Multiple(a, b, p), Multiple(c, d, p);
    var m := b * l + k * d + k * p * l;
    calc {
      a * c;
      (b + k * p) * (d + l * p);
      b * d + (b * l) * p + (k * d) * p + (k * p * l) * p;
      b * d + m * p;
    }
    FromMultiple(a * c, b * d, m, p);
  }

  lemma CongMod(a: int, p: int)
    requires p > 0
    ensures Cong(a % p, a, p)
  {
    assert a % p == a + (-(a / p)) * p;
    FromMultiple(a % p, a, -(a / p), p);
  }

  /** Congruent numbers have one remainder, and only they have. */
  lemma CongIffSameRemainder(a: int, b: int, p: int)
    requires p > 0
    ensures Cong(a, b, p) <==> a % p == b % p
  {
    CongMod(a, p);
    CongMod(b, p);
    if Cong(a, b, p) {
      CongTrans(a % p, a, b, p);
      CongSym(b % p, b, p);
      CongTrans(a % p, b, b % p, p);
      CongReduced(a % p, b % p, p);
    }
    if a % p == b % p {
      CongSym(a % p, a, p);
      CongTrans(a, a % p, b, p);
    }
  }

  lemma CongReduced(a: int, b: int, p: int)
    requires p > 0 && 0 <= a < p && 0 <= b < p && Cong(a, b, p)
    ensures a == b
  {
    SmallMultiple(Multiple(a, b, p), p);
  }

  // ---------------------------------------------------------------- Euclid

  /** `extended_gcd`: returns (gcd, x, y). */
  function ExtendedGcd(a: nat, b: nat): (r: (nat, int, int))
    decreases a
  {
    if a == 0 then
      (b, 0, 1)
    else
      var r := ExtendedGcd(b % a, a);
      (r.0, r.2 - (b / a) * r.1, r.1)
  }

  /** Bezout's identity, and the first result divides both arguments. */
  lemma {:induction false} ExtendedGcdBezout(a: nat, b: nat)
    requires a + b > 0
    ensures var r := ExtendedGcd(a, b);
            a * r.1 + b * r.2 == r.0 && r.0 > 0 && a % r.0 == 0 && b % r.0 == 0
    decreases a
  {
    if a > 0 {
      ExtendedGcdBezout(b % a, a);
      var r := ExtendedGcd(b % a, a);
      EuclidStep(a, b, r.0, r.1, r.2);
    } else {
      MultipleMod(0, b);
      MultipleMod(1, b);
    }
  }

  lemma EuclidStep(a: nat, b: nat, g: nat, x: int, y: int)
    requires a > 0 && g > 0
    requires (b % a) * x + a * y == g
    requires (b % a) % g == 0 && a % g == 0
    ensures a * (y - (b / a) * x) + b * x == g
    ensures b % g == 0
  {
    var q, r := b / a, b % a;
    assert b == q * a + r;
    calc {
      a * (y - q * x) + b * x;
      a * y - a * (q * x) + (q * a + r) * x;
      { assert a * (q * x) == (q * a) * x; }
      a * y + r * x;
    }
    var u, v := r / g, a / g;
    assert r == u * g && a == v * g;
    assert b == (q * v + u) * g by {
      assert q * (v * g) == (q * v) * g;
    }
    MultipleMod(q * v + u, g);
  }

  /** Number of nested calls `extended_gcd(a, b)` makes, itself included. */
  function EuclidCalls(a: nat, b: nat): nat
    decreases a
  {
    if a == 0 then 1 else 1 + EuclidCalls(b % a, a)
  }

  function Pow2(k: nat): (r: nat)
    ensures r >= 1
  {
    if k == 0 then 1 else 2 * Pow2(k - 1)
  }

  /** Every second call at least halves the first argument. */
  lemma {:induction false} EuclidCallsBound(a: nat, b: nat, k: nat)
    requires a < Pow2(k)
    ensures EuclidCalls(a, b) <= 2 * k + 1
    decreases k
  {
    if a > 0 {
      var r := b % a;
      if r > 0 {
        Halves(a, r);
        EuclidCallsBound(a % r, r, k - 1);
      }
    }
  }

  lemma Halves(a: nat, r: nat)
    requires 0 < r < a
    ensures 2 * (a % r) < a
  {
  }

  /** `_mod_inverse` */
  function ModInverse(a: int, p: nat): (r: nat)
    requires p > 0
    ensures r < p
  {
    (ExtendedGcd(a % p, p).1 % p + p) % p
  }

  lemma InverseIsBezout(a: int, p: nat)
    requires p > 0
    ensures Cong(ModInverse(a, p), ExtendedGcd(a % p, p).1, p)
  {
    var x := ExtendedGcd(a % p, p).1;
    CongMod(x % p + p, p);
    CongMod(x, p);
    FromMultiple(x % p + p, x % p, 1, p);
    CongTrans(x % p + p, x % p, x, p);
    CongTrans(ModInverse(a, p), x % p + p, x, p);
  }

  lemma DivisorBelowPrime(g: nat, a: nat, p: nat)
    requires IsPrime(p) && 0 < a < p
    requires g > 0 && a % g == 0 && p % g == 0
    ensures g == 1
  {
  }

  /** The Bezout coefficient of a residue prime to `p` inverts it. */
  lemma BezoutInverts(r: nat, p: nat)
    requires IsPrime(p) && 0 < r < p
    ensures Cong(r * ExtendedGcd(r, p).1, 1, p)
  {
    var e := ExtendedGcd(r, p);
    ExtendedGcdBezout(r, p);
    DivisorBelowPrime(e.0, r, p);
    assert r * e.1 == 1 + (-e.2) * p;
    FromMultiple(r * e.1, 1, -e.2, p);
  }

  lemma InverseCong(a: int, p: nat)
    requires IsPrime(p) && a % p != 0
    ensures Cong(a * ModInverse(a, p), 1, p)
  {
    var r := a % p;
    var x, inv := ExtendedGcd(r, p).1, ModInverse(a, p);
    BezoutInverts(r, p);
    InverseIsBezout(a, p);
    CongMod(a, p);
    CongSym(r, a, p);
    CongMul(a, r, inv, x, p);
    CongTrans(a * inv, r * x, 1, p);
  }

  /** For every `a` not divisible by the prime, the result is in [1, p), is the
      inverse of `a`, and for p <= 2^k takes at most 2k + 1 nested calls. */
  lemma ModInverseCorrect(a: int, p: nat)
    requires IsPrime(p) && a % p != 0
    ensures 1 <= ModInverse(a, p) < p
    ensures (a * ModInverse(a, p)) % p == 1
    ensures forall k: nat :: p <= Pow2(k) ==> EuclidCalls(a % p, p) <= 2 * k + 1
  {
    InverseCong(a, p);
    UnitInverse(a, ModInverse(a, p), p);
    forall k: nat | p <= Pow2(k)
      ensures EuclidCalls(a % p, p) <= 2 * k + 1
    {
      EuclidCallsBound(a % p, p, k);
    }
  }

  lemma UnitInverse(a: int, inv: nat, p: nat)
    requires p > 1 && Cong(a * inv, 1, p)
    ensures inv > 0 && (a * inv) % p == 1
  {
    CongIffSameRemainder(a * inv, 1, p);
    assert inv == 0 ==> a * inv == 0;
  }

  /** A non-zero factor modulo a prime can be cancelled. */
  lemma Cancel(a: int, b: int, c: int, p: nat)
    requires IsPrime(p) && !Cong(c, 0, p)
    requires Cong(a * c, b * c, p)
    ensures Cong(a, b, p)
  {
    var inv := ModInverse(c, p);
    ResidueIsRemainder(c - 0, p);
    InverseCong(c, p);
    FromMultiple(inv, inv, 0, p);
    CongMul(a * c, b * c, inv, inv, p);
    CancelOne(a, c, inv, p);
    CancelOne(b, c, inv, p);
    CongSym(a * c * inv, a, p);
    CongTrans(a, a * c * inv, b * c * inv, p);
    CongTrans(a, b * c * inv, b, p);
  }

  lemma CancelOne(a: int, c: int, inv: int, p: nat)
    requires p > 0 && Cong(c * inv, 1, p)
    ensures Cong(a * c * inv, a, p)
  {
    FromMultiple(a, a, 0, p);
    CongMul(a, a, c * inv, 1, p);
    assert a * c * inv == a * (c * inv);
  }

  /** A product is divisible by a prime only if a factor is. */
  lemma NonZeroProduct(a: int, b: int, p: nat)
    requires IsPrime(p) && !Cong(a, 0, p) && !Cong(b, 0, p)
    ensures !Cong(a * b, 0, p)
  {
    if Cong(a * b, 0, p) {
      assert 0 * b == 0;
      Cancel(a, 0, b, p);
    }
  }
}
