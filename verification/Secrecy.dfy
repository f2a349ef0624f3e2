/** Fewer than threshold shares determine nothing, and the facts about the prime
    the code uses. */
module Secrecy {
  import opened Text
  import opened Modular
  import opened Polynomial
  import opened Encoding
  import opened SecretSharing

  /** The random coefficients, with that secret in front, give these values. */
  ghost predicate Explains(coefficients: seq<nat>, secret: nat, xs: seq<int>, ys: seq<nat>, p: nat)
    requires p > 0 && |xs| == |ys|
  {
    && |coefficients| == |xs|
    && (forall i :: 0 <= i < |coefficients| ==> coefficients[i] < p)
    && forall i :: 0 <= i < |xs| ==> Eval([secret] + coefficients, xs[i]) % p == ys[i]
  }

  /** Share indices: pairwise different and between 1 and p - 1. */
  ghost predicate ShareIndices(xs: seq<int>, p: nat) {
    && (forall i :: 0 <= i < |xs| ==> 1 <= xs[i] < p)
    && forall i, j :: 0 <= i < j < |xs| ==> xs[i] != xs[j]
  }

  lemma IndicesWithZero(xs: seq<int>, p: nat)
    requires p > 0 && ShareIndices(xs, p)
    ensures Distinct([0] + xs, p)
  {
    var zs := [0] + xs;
    forall i, j | 0 <= i < j < |zs|
      ensures !Cong(zs[j] - zs[i], 0, p)
    {
      if Cong(zs[j] - zs[i], 0, p) {
        CongReduced(zs[j], zs[i], p);
      }
    }
  }

  /** Some choice of the coefficients explains any values for any secret. */
  lemma ExplanationExists(secret: nat, xs: seq<int>, ys: seq<nat>, p: nat) returns (coefficients: seq<nat>)
    requires IsPrime(p) && |xs| == |ys| && ShareIndices(xs, p) && secret < p
    requires forall i :: 0 <= i < |ys| ==> ys[i] < p
    ensures Explains(coefficients, secret, xs, ys, p)
  {
    var zs, vs: seq<int> := [0] + xs, [secret] + ys;
    IndicesWithZero(xs, p);
    var c := Interpolant(zs, vs, p);
    var r := Reduced(c, p);
    forall i | 0 <= i < |zs|
      ensures Eval(r, zs[i]) % p == vs[i]
    {
      InterpolantPasses(zs, vs, p, i);
      ReducedCong(c, p);
      EvalCong(r, c, zs[i], p);
      CongTrans(Eval(r, zs[i]), Eval(c, zs[i]), vs[i], p);
      CongIsValue(Eval(r, zs[i]), vs[i], p);
    }
    assert zs[0] == 0 && Eval(r, 0) == r[0] + 0 * Eval(r[1..], 0);
    SmallRemainder(r[0], p);
    coefficients := r[1..];
    assert r == [secret] + coefficients;
    forall i | 0 <= i < |xs|
      ensures Eval([secret] + coefficients, xs[i]) % p == ys[i]
    {
      assert zs[i + 1] == xs[i] && vs[i + 1] == ys[i];
    }
  }

  lemma SmallRemainder(a: int, p: nat)
    requires p > 0 && 0 <= a < p
    ensures a % p == a
  {
  }

  lemma CongIsValue(a: int, b: int, p: nat)
    requires p > 0 && 0 <= b < p && Cong(a, b, p)
    ensures a % p == b
  {
    CongIffSameRemainder(a, b, p);
    SmallRemainder(b, p);
  }

  lemma ExplanationUnique(secret: nat, xs: seq<int>, ys: seq<nat>, p: nat, c: seq<nat>, d: seq<nat>)
    requires IsPrime(p) && |xs| == |ys| && ShareIndices(xs, p) && secret < p
    requires Explains(c, secret, xs, ys, p) && Explains(d, secret, xs, ys, p)
    ensures c == d
  {
    var zs: seq<int> := [0] + xs;
    var c', d' := [secret] + c, [secret] + d;
    IndicesWithZero(xs, p);
    forall i | 0 <= i < |zs|
      ensures Cong(Eval(c', zs[i]), Eval(d', zs[i]), p)
    {
      if i == 0 {
        assert Eval(c', 0) == secret + 0 * Eval(c'[1..], 0) && Eval(d', 0) == secret + 0 * Eval(d'[1..], 0);
      } else {
        assert zs[i] == xs[i - 1];
      }
      CongIffSameRemainder(Eval(c', zs[i]), Eval(d', zs[i]), p);
    }
    AgreeingPolynomials(c', d', zs, p);
    forall i | 0 <= i < |c|
      ensures c[i] == d[i]
    {
      assert Cong(c'[i + 1], d'[i + 1], p);
      CongReduced(c[i], d[i], p);
    }
  }

  /** For any t - 1 share indices and values and every secret in the field,
      exactly one choice of the t - 1 random coefficients produces them. */
  lemma ExactlyOneExplanation(secret: nat, xs: seq<int>, ys: seq<nat>, p: nat)
    requires IsPrime(p) && |xs| == |ys| && ShareIndices(xs, p) && secret < p
    requires forall i :: 0 <= i < |ys| ==> ys[i] < p
    ensures exists c :: Explains(c, secret, xs, ys, p)
    ensures forall c, d :: Explains(c, secret, xs, ys, p) && Explains(d, secret, xs, ys, p) ==> c == d
  {
    var c := ExplanationExists(secret, xs, ys, p);
    forall c, d | Explains(c, secret, xs, ys, p) && Explains(d, secret, xs, ys, p)
      ensures c == d
    {
      ExplanationUnique(secret, xs, ys, p, c, d);
    }
  }

  // ------------------------------------------------------- Whole shares

  /** Two secrets, cut into chunks, give the same printed share values at xs. */
  ghost predicate SameShares(a: seq<Bytes>, rowsA: seq<seq<nat>>, b: seq<Bytes>, rowsB: seq<seq<nat>>, xs: seq<int>,
                             p: nat)
    requires p > 0 && |rowsA| == |a| && |rowsB| == |b|
  {
    forall i :: 0 <= i < |xs| ==> Join(Words(a, rowsA, xs[i], p), "|") == Join(Words(b, rowsB, xs[i], p), "|")
  }

  /** The values of one chunk's polynomial at the given indices. */
  function RowValues(chunk: Bytes, row: seq<nat>, xs: seq<int>, p: nat): (ys: seq<nat>)
    requires p > 0
    ensures |ys| == |xs| && forall i :: 0 <= i < |ys| ==> ys[i] < p
  {
    seq(|xs|, i requires 0 <= i < |xs| => Eval(ChunkPolynomial(chunk, row), xs[i]) % p)
  }

  /** Equal printed values mean that every chunk's coefficients explain the same
      numbers. */
  lemma SameSharesIff(a: seq<Bytes>, rowsA: seq<seq<nat>>, b: seq<Bytes>, rowsB: seq<seq<nat>>, xs: seq<int>,
                      p: nat, t: nat)
    requires p > 0 && |a| == |b| > 0 && t > 0 && |xs| == t - 1
    requires Drawn(rowsA, |a|, t, p) && Drawn(rowsB, |b|, t, p)
    ensures SameShares(a, rowsA, b, rowsB, xs, p) <==>
            forall k :: 0 <= k < |a| ==> RowValues(b[k], rowsB[k], xs, p) == RowValues(a[k], rowsA[k], xs, p)
  {
    if SameShares(a, rowsA, b, rowsB, xs, p) {
      forall k | 0 <= k < |a|
        ensures RowValues(b[k], rowsB[k], xs, p) == RowValues(a[k], rowsA[k], xs, p)
      {
        forall i | 0 <= i < |xs|
          ensures RowValues(b[k], rowsB[k], xs, p)[i] == RowValues(a[k], rowsA[k], xs, p)[i]
        {
          EqualJoins(Words(a, rowsA, xs[i], p), Words(b, rowsB, xs[i], p));
          EqualHex(RowValues(a[k], rowsA[k], xs, p)[i], RowValues(b[k], rowsB[k], xs, p)[i],
                   Words(a, rowsA, xs[i], p)[k], Words(b, rowsB, xs[i], p)[k]);
        }
      }
    }
    if forall k :: 0 <= k < |a| ==> RowValues(b[k], rowsB[k], xs, p) == RowValues(a[k], rowsA[k], xs, p) {
      forall i | 0 <= i < |xs|
        ensures Join(Words(a, rowsA, xs[i], p), "|") == Join(Words(b, rowsB, xs[i], p), "|")
      {
        forall k | 0 <= k < |a|
          ensures Words(a, rowsA, xs[i], p)[k] == Words(b, rowsB, xs[i], p)[k]
        {
          assert RowValues(b[k], rowsB[k], xs, p)[i] == RowValues(a[k], rowsA[k], xs, p)[i];
        }
        assert Words(a, rowsA, xs[i], p) == Words(b, rowsB, xs[i], p);
      }
    }
  }

  lemma EqualJoins(v: seq<string>, w: seq<string>)
    requires v != [] && w != [] && Join(v, "|") == Join(w, "|")
    requires forall k :: 0 <= k < |v| ==> '|' !in v[k]
    requires forall k :: 0 <= k < |w| ==> '|' !in w[k]
    ensures v == w
  {
    SplitJoin(v, "|", 0);
    SplitJoin(w, "|", 0);
  }

  lemma EqualHex(m: nat, n: nat, s: string, s': string)
    requires s == Hex(m) && s' == Hex(n) && s == s'
    ensures m == n
  {
    HexRoundTrip(m);
    HexRoundTrip(n);
  }

  /** Coefficients for secret b that hide behind the values of secret a. */
  lemma {:induction false} HidingRows(a: seq<Bytes>, rowsA: seq<seq<nat>>, b: seq<Bytes>, xs: seq<int>, p: nat, t: nat)
    returns (rowsB: seq<seq<nat>>)
    requires IsPrime(p) && HoldsChunks(p) && |a| == |b| && t > 0 && |xs| == t - 1 && ShareIndices(xs, p)
    requires |rowsA| == |a| && forall k :: 0 <= k < |b| ==> |b[k]| == CHUNK
    ensures Drawn(rowsB, |b|, t, p)
    ensures forall k :: 0 <= k < |a| ==> RowValues(b[k], rowsB[k], xs, p) == RowValues(a[k], rowsA[k], xs, p)
  {
    if b == [] {
      rowsB := [];
    } else {
      var m := |b| - 1;
      var front := HidingRows(a[..m], rowsA[..m], b[..m], xs, p, t);
      var ys := RowValues(a[m], rowsA[m], xs, p);
      assert FromBytes(b[m]) < p;
      var row := ExplanationExists(FromBytes(b[m]), xs, ys, p);
      rowsB := front + [row];
      assert RowValues(b[m], row, xs, p) == ys;
      forall k | 0 <= k < m
        ensures RowValues(b[k], rowsB[k], xs, p) == RowValues(a[k], rowsA[k], xs, p)
      {
        assert RowValues(b[..m][k], front[k], xs, p) == RowValues(a[..m][k], rowsA[..m][k], xs, p);
      }
    }
  }

  /** Perfect secrecy of the printed shares: whatever secret was split, any
      t - 1 share values fit every other secret with as many chunks, and each
      through exactly one choice of the random coefficients. */
  lemma SharesRevealNothing(a: seq<Bytes>, rowsA: seq<seq<nat>>, b: seq<Bytes>, xs: seq<int>, p: nat, t: nat)
    requires IsPrime(p) && HoldsChunks(p) && |a| == |b| > 0 && t > 0 && |xs| == t - 1 && ShareIndices(xs, p)
    requires Drawn(rowsA, |a|, t, p)
    requires forall k :: 0 <= k < |b| ==> |b[k]| == CHUNK
    ensures exists rowsB :: Drawn(rowsB, |b|, t, p) && SameShares(a, rowsA, b, rowsB, xs, p)
    ensures forall r, s ::
              (Drawn(r, |b|, t, p) && Drawn(s, |b|, t, p)
               && SameShares(a, rowsA, b, r, xs, p) && SameShares(a, rowsA, b, s, xs, p)) ==> r == s
  {
    var rowsB := HidingRows(a, rowsA, b, xs, p, t);
    SameSharesIff(a, rowsA, b, rowsB, xs, p, t);
    forall r, s | Drawn(r, |b|, t, p) && Drawn(s, |b|, t, p)
      && SameShares(a, rowsA, b, r, xs, p) && SameShares(a, rowsA, b, s, xs, p)
      ensures r == s
    {
      SameSharesIff(a, rowsA, b, r, xs, p, t);
      SameSharesIff(a, rowsA, b, s, xs, p, t);
      RowsUnique(a, rowsA, b, r, s, xs, p, t);
    }
  }

  /** Whole share records say more than their values: those of two directly split
      contents, under the same MAC key and identifier, agree if and only if the values
      and the content hashes do. */
  lemma RecordsAgreeIff(cr: Crypto, a: string, b: string, t: nat, n: nat, da: Draws, db: Draws, p: nat, x: nat)
    requires p > 0 && ValidDraws(cr, a, t, da, p) && ValidDraws(cr, b, t, db, p)
    requires |cr.utf8(a)| <= HYBRID_THRESHOLD_BYTES && |cr.utf8(b)| <= HYBRID_THRESHOLD_BYTES
    requires da.hmacKey == db.hmacKey && da.idBase == db.idBase
    ensures ShareAt(cr, a, t, n, da, p, x) == ShareAt(cr, b, t, n, db, p, x) <==>
            && ShareAt(cr, a, t, n, da, p, x).value == ShareAt(cr, b, t, n, db, p, x).value
            && cr.sha256(cr.utf8(a)) == cr.sha256(cr.utf8(b))
  {
  }

  lemma RowsUnique(a: seq<Bytes>, rowsA: seq<seq<nat>>, b: seq<Bytes>, r: seq<seq<nat>>, s: seq<seq<nat>>,
                   xs: seq<int>, p: nat, t: nat)
    requires IsPrime(p) && HoldsChunks(p) && |a| == |b| && t > 0 && |xs| == t - 1 && ShareIndices(xs, p)
    requires |rowsA| == |a| && Drawn(r, |b|, t, p) && Drawn(s, |b|, t, p)
    requires forall k :: 0 <= k < |b| ==> |b[k]| == CHUNK
    requires forall k :: 0 <= k < |a| ==> RowValues(b[k], r[k], xs, p) == RowValues(a[k], rowsA[k], xs, p)
    requires forall k :: 0 <= k < |a| ==> RowValues(b[k], s[k], xs, p) == RowValues(a[k], rowsA[k], xs, p)
    ensures r == s
  {
    forall k | 0 <= k < |b|
      ensures r[k] == s[k]
    {
      var ys := RowValues(a[k], rowsA[k], xs, p);
      ValuesExplain(b[k], r[k], xs, ys, p);
      ValuesExplain(b[k], s[k], xs, ys, p);
      assert FromBytes(b[k]) < p;
      ExplanationUnique(FromBytes(b[k]), xs, ys, p, r[k], s[k]);
    }
  }

  lemma ValuesExplain(chunk: Bytes, row: seq<nat>, xs: seq<int>, ys: seq<nat>, p: nat)
    requires p > 0 && |row| == |xs| && RowValues(chunk, row, xs, p) == ys
    requires forall i :: 0 <= i < |row| ==> row[i] < p
    ensures Explains(row, FromBytes(chunk), xs, ys, p)
  {
  }

  // ------------------------------------------------------- The prime of the code

  lemma {:induction false} FitsBelowPower(n: nat, k: nat)
    requires Fits(n, k)
    ensures n < Pow2(8 * k)
  {
    if k > 0 {
      FitsBelowPower(n / 256, k - 1);
      EightDoublings(8 * (k - 1));
    }
  }

  lemma EightDoublings(k: nat)
    ensures Pow2(k + 8) == 256 * Pow2(k)
  {
    assert Pow2(k + 8) == 2 * Pow2(k + 7) && Pow2(k + 7) == 2 * Pow2(k + 6) && Pow2(k + 6) == 2 * Pow2(k + 5);
    assert Pow2(k + 5) == 2 * Pow2(k + 4) && Pow2(k + 4) == 2 * Pow2(k + 3) && Pow2(k + 3) == 2 * Pow2(k + 2);
    assert Pow2(k + 2) == 2 * Pow2(k + 1) && Pow2(k + 1) == 2 * Pow2(k);
  }

  /** Chunks fit the field of the code, and inverting in it nests at most 513
      calls, within Python's default recursion limit of 1000. */
  lemma FieldOfTheCode()
    ensures PRIME() > 0 && HoldsChunks(PRIME())
    ensures forall a: int :: EuclidCalls(a % PRIME(), PRIME()) <= 513
  {
    var k := CHUNK;
    EightDoublings(8 * k);
    forall n: nat | Fits(n, CHUNK)
      ensures n < PRIME()
    {
      FitsBelowPower(n, CHUNK);
    }
    forall a: int
      ensures EuclidCalls(a % PRIME(), PRIME()) <= 513
    {
      EuclidCallsBound(a % PRIME(), PRIME(), 256);
    }
  }

  /** The round trip for the prime of the code, given that it is a prime. */
  lemma RoundTripInTheCode(cr: Crypto, content: string, t: nat, n: nat, draws: Draws, picked: seq<Share>,
                           key: Option<Bytes>)
    requires IsPrime(PRIME()) && 2 <= t <= n < PRIME()
    requires cr.Laws() && ValidDraws(cr, content, t, draws, PRIME())
    requires |picked| >= t && forall s :: s in picked ==> s in SplitResult(cr, content, t, n, draws, PRIME()).value
    requires forall i, j :: 0 <= i < j < t ==> picked[i].index != picked[j].index
    requires key == None || key == Some(draws.hmacKey)
    ensures Reconstruct(cr, picked, key, PRIME()) == Ok(Some(content))
  {
    FieldOfTheCode();
    SplitThenReconstruct(cr, content, t, n, draws, PRIME(), picked, key);
  }
}
