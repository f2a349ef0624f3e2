/** Shamir secret sharing as `split_secret` and `reconstruct_secret` compute it:
    31-byte chunks, one random polynomial per chunk, `0x..|0x..` share values,
    HMAC per share and AES for long content. The prime is a parameter; `PRIME`
    is the one the code uses. */
module SecretSharing {
  import opened Text
  import opened Modular
  import opened Polynomial
  import opened Encoding

  const HYBRID_THRESHOLD_BYTES: nat := 256

  /** 2**256 - 189 */
  function PRIME(): (p: int) {
    Pow2(256) - 189
  }

  datatype Result<+T> = Ok(value: T) | Err(error: Failure)

  datatype Failure =
    | ThresholdAboveShares | ThresholdBelowTwo | FewerThanTwoShares
    | NoShares | TooFewShares | DifferentSecrets | DifferentThresholds | DifferentHybridFlags
    | ShareIntegrity(shareId: string)
    | MalformedValue | MalformedHex | ChunkOverflow

  datatype Share = Share(
    index: int, value: string, shareId: string, contentHash: string, threshold: int,
    totalShares: int, mac: string, isHybrid: bool, ciphertext: string, nonce: string)

  /** The cryptographic libraries, as functions. */
  datatype Crypto = Crypto(
    sha256: Bytes -> string,
    hmac: (Bytes, string) -> string,
    encrypt: (Bytes, Bytes, Bytes) -> Bytes,
    decrypt: (Bytes, Bytes, Bytes) -> Option<Bytes>,
    utf8: string -> Bytes,
    fromUtf8: Bytes -> Option<string>)
  {
    /** What the libraries promise. */
    ghost predicate Laws() {
      && (forall key, nonce, m :: decrypt(key, nonce, encrypt(key, nonce, m)) == Some(m))
      && (forall s :: fromUtf8(utf8(s)) == Some(s))
      && (forall key, d :: hmac(key, d) != "")
    }
  }

  /** Everything one call of `split_secret` draws at random; `coefficients`
      holds the threshold - 1 random coefficients of each chunk. */
  datatype Draws = Draws(
    hmacKey: Bytes, aesKey: Bytes, aesNonce: Bytes, idBase: string, coefficients: seq<seq<nat>>)

  // ------------------------------------------------------- The two loops

  function Power(x: int, n: nat): int {
    if n == 0 then 1 else Power(x, n - 1) * x
  }

  lemma {:induction false} EvalSnoc(c: seq<int>, d: int, x: int)
    ensures Eval(c + [d], x) == Eval(c, x) + d * Power(x, |c|)
  {
    if c == [] {
      assert ([] + [d])[1..] == [];
      assert x * Eval([], x) == 0;
      assert Power(x, 0) == 1;
    } else {
      assert (c + [d])[1..] == c[1..] + [d];
      EvalSnoc(c[1..], d, x);
      PowerStep(x, |c| - 1, d);
    }
  }

  lemma PowerStep(x: int, n: nat, d: int)
    ensures x * (d * Power(x, n)) == d * Power(x, n + 1)
  {
  }

  /** One factor or summand may be reduced. */
  lemma ReduceSum(a: int, b: int, p: nat)
    requires p > 0
    ensures Cong(a % p + b, a + b, p)
  {
    CongMod(a, p);
    FromMultiple(b, b, 0, p);
    CongAdd(a % p, a, b, b, p);
  }

  lemma ReduceProduct(a: int, b: int, p: nat)
    requires p > 0
    ensures Cong(a % p * b, a * b, p)
  {
    CongMod(a, p);
    FromMultiple(b, b, 0, p);
    CongMul(a % p, a, b, b, p);
  }

  lemma ReduceTerm(e: int, coeff: int, power: int, p: nat)
    requires p > 0
    ensures Cong(e % p + coeff * (power % p), e + coeff * power, p)
  {
    CongMod(power, p);
    FromMultiple(coeff, coeff, 0, p);
    CongMul(coeff, coeff, power % p, power, p);
    CongMod(e, p);
    CongAdd(e % p, e, coeff * (power % p), coeff * power, p);
  }

  /** `_evaluate_polynomial`; `pow(x, i, prime)` is Power(x, i) % prime. */
  method EvaluatePolynomial(coefficients: seq<int>, x: int, prime: nat) returns (result: int)
    requires prime > 0
    ensures result == Eval(coefficients, x) % prime
  {
    result := 0;
    for i := 0 to |coefficients|
      invariant result == Eval(coefficients[..i], x) % prime
    {
      var coeff := coefficients[i];
      EvalSnoc(coefficients[..i], coeff, x);
      assert coefficients[..i + 1] == coefficients[..i] + [coeff];
      ReduceTerm(Eval(coefficients[..i], x), coeff, Power(x, i), prime);
      CongIffSameRemainder(result + coeff * (Power(x, i) % prime), Eval(coefficients[..i + 1], x), prime);
      result := (result + coeff * (Power(x, i) % prime)) % prime;
    }
    assert coefficients[..|coefficients|] == coefficients;
  }

  /** The value Lagrange's formula assigns at zero. */
  function Interpolate(xs: seq<int>, ys: seq<int>, p: nat): (r: nat)
    requires p > 0 && |xs| == |ys|
    ensures r < p
  {
    Dot(ys, Weights(xs, p)) % p
  }

  lemma {:induction false} DotSnoc(ys: seq<int>, cs: seq<int>, y: int, c: int)
    requires |ys| == |cs|
    ensures Dot(ys + [y], cs + [c]) == Dot(ys, cs) + y * c
  {
    if ys == [] {
      assert ([] + [y])[1..] == [] && ([] + [c])[1..] == [];
    } else {
      assert (ys + [y])[1..] == ys[1..] + [y] && (cs + [c])[1..] == cs[1..] + [c];
      DotSnoc(ys[1..], cs[1..], y, c);
    }
  }

  /** The inner loop: numerator and denominator of one share, reduced. */
  method WeightParts(xs: seq<int>, i: nat, prime: nat) returns (numerator: int, denominator: int)
    requires prime > 1 && i < |xs|
    ensures numerator == NegProduct(Others(xs, i)) % prime
    ensures denominator == DiffProduct(xs[i], Others(xs, i)) % prime
  {
    numerator, denominator := 1, 1;
    for j := 0 to |xs|
      invariant numerator == NegProduct(Before(xs, i, j)) % prime
      invariant denominator == DiffProduct(xs[i], Before(xs, i, j)) % prime
    {
      if i != j {
        WeightStep(xs, i, j, prime);
        CongIffSameRemainder(numerator * -xs[j], NegProduct(Before(xs, i, j + 1)), prime);
        CongIffSameRemainder(denominator * (xs[i] - xs[j]), DiffProduct(xs[i], Before(xs, i, j + 1)), prime);
        numerator := (numerator * -xs[j]) % prime;
        denominator := (denominator * (xs[i] - xs[j])) % prime;
      } else {
        assert Before(xs, i, j + 1) == Before(xs, i, j);
      }
    }
    assert Before(xs, i, |xs|) == Others(xs, i);
  }

  /** The first j points without point i. */
  function Before(xs: seq<int>, i: nat, j: nat): seq<int>
    requires i < |xs| && j <= |xs|
  {
    if j <= i then xs[..j] else xs[..i] + xs[i + 1..j]
  }

  lemma WeightStep(xs: seq<int>, i: nat, j: nat, p: nat)
    requires p > 0 && i < |xs| && j < |xs| && i != j
    ensures Cong(NegProduct(Before(xs, i, j)) % p * -xs[j], NegProduct(Before(xs, i, j + 1)), p)
    ensures Cong(DiffProduct(xs[i], Before(xs, i, j)) % p * (xs[i] - xs[j]),
                 DiffProduct(xs[i], Before(xs, i, j + 1)), p)
  {
    var zs := Before(xs, i, j);
    assert Before(xs, i, j + 1) == zs + [xs[j]];
    ProductsSnoc(xs[i], zs, xs[j]);
    ReduceProduct(NegProduct(zs), -xs[j], p);
    ReduceProduct(DiffProduct(xs[i], zs), xs[i] - xs[j], p);
  }

  /** `_lagrange_interpolation` */
  method LagrangeInterpolation(xs: seq<int>, ys: seq<int>, prime: nat) returns (secret: int)
    requires prime > 1 && |xs| == |ys|
    ensures secret == Interpolate(xs, ys, prime)
  {
    secret := 0;
    var ws := Weights(xs, prime);
    for i := 0 to |xs|
      invariant secret == Dot(ys[..i], ws[..i]) % prime
    {
      var numerator, denominator := WeightParts(xs, i, prime);
      var coeff := (numerator * ModInverse(denominator, prime)) % prime;
      assert coeff == ws[i];
      DotSnoc(ys[..i], ws[..i], ys[i], ws[i]);
      assert ys[..i + 1] == ys[..i] + [ys[i]] && ws[..i + 1] == ws[..i] + [ws[i]];
      ReduceSum(Dot(ys[..i], ws[..i]), ys[i] * coeff, prime);
      CongIffSameRemainder(secret + ys[i] * coeff, Dot(ys[..i + 1], ws[..i + 1]), prime);
      secret := (secret + ys[i] * coeff) % prime;
    }
    assert ys[..|xs|] == ys && ws[..|xs|] == ws;
  }

  /** Any distinct points on a polynomial, at least as many as it has
      coefficients, give its constant term back. */
  lemma InterpolateRecovers(c: seq<int>, xs: seq<int>, ys: seq<int>, p: nat)
    requires IsPrime(p) && Distinct(xs, p) && 0 < |c| <= |xs| == |ys| && 0 <= c[0] < p
    requires forall i :: 0 <= i < |xs| ==> ys[i] == Eval(c, xs[i]) % p
    ensures Interpolate(xs, ys, p) == c[0]
  {
    var vs, ws := Values(c, xs), Weights(xs, p);
    forall i | 0 <= i < |xs|
      ensures Cong(ys[i], vs[i], p)
    {
      CongMod(vs[i], p);
    }
    DotCong(ys, vs, ws, p);
    LagrangeAtZero(c, xs, p);
    CongTrans(Dot(ys, ws), Dot(vs, ws), Eval(c, 0), p);
    assert Eval(c, 0) == c[0] + 0 * Eval(c[1..], 0);
    CongIffSameRemainder(Dot(ys, ws), c[0], p);
    CongMod(c[0], p);
    CongReduced(c[0] % p, c[0], p);
  }

  lemma {:induction false} DotCong(ys: seq<int>, vs: seq<int>, ws: seq<int>, p: nat)
    requires p > 0 && |ys| == |vs| == |ws|
    requires forall i :: 0 <= i < |ys| ==> Cong(ys[i], vs[i], p)
    ensures Cong(Dot(ys, ws), Dot(vs, ws), p)
  {
    if ys == [] {
      FromMultiple(0, 0, 0, p);
    } else {
      DotCong(ys[1..], vs[1..], ws[1..], p);
      FromMultiple(ws[0], ws[0], 0, p);
      CongMul(ys[0], vs[0], ws[0], ws[0], p);
      CongAdd(ys[0] * ws[0], vs[0] * ws[0], Dot(ys[1..], ws[1..]), Dot(vs[1..], ws[1..]), p);
    }
  }

  // ------------------------------------------------------- Splitting

  /** The chunks of a secret behind their length header. */
  function Chunks(secret: Bytes): (chunks: seq<Bytes>)
    requires Fits(|secret|, 4)
    ensures |chunks| > 0
    ensures forall k :: 0 <= k < |chunks| ==> |chunks[k]| == CHUNK
  {
    [LengthChunk(|secret|)] + Blocks(secret)
  }

  /** Every number of 31 bytes is below p. */
  ghost predicate HoldsChunks(p: nat) {
    forall n: nat :: Fits(n, CHUNK) ==> n < p
  }

  /** Enough coefficients below p for every chunk. */
  ghost predicate Drawn(coefficients: seq<seq<nat>>, chunks: nat, t: nat, p: nat) {
    && |coefficients| == chunks
    && forall k :: 0 <= k < chunks ==>
         |coefficients[k]| == t - 1 && forall i :: 0 <= i < t - 1 ==> coefficients[k][i] < p
  }

  /** The polynomial of one chunk: the chunk's number, then random coefficients. */
  function ChunkPolynomial(chunk: Bytes, coefficients: seq<nat>): (c: seq<int>)
    ensures |c| == 1 + |coefficients|
  {
    [FromBytes(chunk)] + coefficients
  }

  /** One `0x..` word per chunk: the chunk's polynomial at x. */
  function Words(chunks: seq<Bytes>, coefficients: seq<seq<nat>>, x: int, p: nat): (words: seq<string>)
    requires p > 0 && |coefficients| == |chunks|
    ensures |words| == |chunks|
    ensures forall k :: 0 <= k < |words| ==> '|' !in words[k]
  {
    seq(|chunks|, k requires 0 <= k < |chunks| =>
      Hex(Eval(ChunkPolynomial(chunks[k], coefficients[k]), x) % p))
  }

  function Printed(n: nat): string {
    if n < 10 then ['0' + n as char] else Printed(n / 10) + ['0' + (n % 10) as char]
  }

  function PrintedInt(n: int): string {
    if n < 0 then "-" + Printed(-n) else Printed(n)
  }

  /** `_compute_share_mac` */
  function ShareMac(cr: Crypto, value: string, index: int, contentHash: string, key: Bytes): string {
    cr.hmac(key, PrintedInt(index) + "|" + value + "|" + contentHash)
  }

  /** What is split: the content itself, or the AES key of long content. */
  function SecretOf(cr: Crypto, content: string, draws: Draws): Bytes {
    if |cr.utf8(content)| > HYBRID_THRESHOLD_BYTES then draws.aesKey else cr.utf8(content)
  }

  /** The share with index x of one split. */
  function ShareAt(cr: Crypto, content: string, t: nat, n: nat, draws: Draws, p: nat, x: nat): (s: Share)
    requires p > 0 && Fits(|SecretOf(cr, content, draws)|, 4)
    requires |draws.coefficients| == |Chunks(SecretOf(cr, content, draws))|
    ensures s.index == x && s.threshold == t && s.contentHash == cr.sha256(cr.utf8(content))
  {
    ShareFrom(cr, content, t, n, draws, x,
              Join(Words(Chunks(SecretOf(cr, content, draws)), draws.coefficients, x, p), "|"))
  }

  function ShareFrom(cr: Crypto, content: string, t: nat, n: nat, draws: Draws, x: nat, value: string): (s: Share)
    ensures s.index == x && s.value == value && s.threshold == t && s.contentHash == cr.sha256(cr.utf8(content))
  {
    var data := cr.utf8(content);
    var hybrid := |data| > HYBRID_THRESHOLD_BYTES;
    Share(x, value, draws.idBase + "_" + Printed(x), cr.sha256(data), t, n,
          ShareMac(cr, value, x, cr.sha256(data), draws.hmacKey), hybrid,
          if hybrid then BytesToHex(cr.encrypt(draws.aesKey, draws.aesNonce, data)) else "",
          if hybrid then BytesToHex(draws.aesNonce) else "")
  }

  /** The draws a call of `split_secret` can make. */
  ghost predicate ValidDraws(cr: Crypto, content: string, t: nat, draws: Draws, p: nat) {
    && |draws.aesKey| == 32 && |draws.aesNonce| == 12
    && Fits(|SecretOf(cr, content, draws)|, 4)
    && Drawn(draws.coefficients, |Chunks(SecretOf(cr, content, draws))|, t, p)
  }

  lemma SecretIsShort(cr: Crypto, content: string, draws: Draws)
    requires |draws.aesKey| == 32
    ensures |SecretOf(cr, content, draws)| <= 256 && Fits(|SecretOf(cr, content, draws)|, 4)
  {
  }

  lemma {:induction false} ZeroFits(length: nat)
    ensures Fits(0, length)
  {
    if length > 0 {
      ZeroFits(length - 1);
    }
  }

  /** `split_secret`: every error case and every share of the result. */
  ghost function SplitResult(cr: Crypto, content: string, t: int, n: int, draws: Draws, p: nat): (r: Result<seq<Share>>)
    requires p > 0 && (2 <= t <= n ==> ValidDraws(cr, content, t, draws, p))
    ensures r.Ok? <==> 2 <= t <= n
  {
    if t > n then Err(ThresholdAboveShares)
    else if t < 2 then Err(ThresholdBelowTwo)
    else Ok(seq(n, i requires 0 <= i < n => ShareAt(cr, content, t, n, draws, p, i + 1)))
  }

  /** The two loops of `split_secret`: values chunk by chunk, then shares. */
  method SplitSecret(cr: Crypto, content: string, threshold: int, numShares: int, draws: Draws, prime: nat)
    returns (r: Result<seq<Share>>)
    requires prime > 0 && (2 <= threshold <= numShares ==> ValidDraws(cr, content, threshold, draws, prime))
    ensures r == SplitResult(cr, content, threshold, numShares, draws, prime)
  {
    if threshold > numShares {
      return Err(ThresholdAboveShares);
    }
    if threshold < 2 {
      return Err(ThresholdBelowTwo);
    }
    if numShares < 2 {
      return Err(FewerThanTwoShares);
    }
    var secret := SecretOf(cr, content, draws);
    SecretIsShort(cr, content, draws);
    var chunked := SplitIntoChunks(secret);
    var chunks := chunked.value;
    assert chunks == Chunks(secret);
    var table := ValueTable(chunks, draws.coefficients, numShares, prime);
    var shares: seq<Share> := [];
    for i := 0 to numShares
      invariant |shares| == i
      invariant forall j :: 0 <= j < i ==> shares[j] == ShareAt(cr, content, threshold, numShares, draws, prime, j + 1)
    {
      TableWordsAreWords(chunks, draws.coefficients, table, i, prime);
      shares := shares + [ShareFrom(cr, content, threshold, numShares, draws, i + 1, Join(TableWords(table, i), "|"))];
    }
    r := Ok(shares);
    assert shares == SplitResult(cr, content, threshold, numShares, draws, prime).value;
  }

  /** One row of the share loop: the i-th value of every chunk, printed. */
  function TableWords(table: seq<seq<nat>>, i: nat): (words: seq<string>)
    requires forall m :: 0 <= m < |table| ==> i < |table[m]|
    ensures |words| == |table| && forall m :: 0 <= m < |words| ==> words[m] == Hex(table[m][i])
  {
    seq(|table|, m requires 0 <= m < |table| => Hex(table[m][i]))
  }

  lemma TableWordsAreWords(chunks: seq<Bytes>, coefficients: seq<seq<nat>>, table: seq<seq<nat>>, i: nat, p: nat)
    requires p > 0 && |coefficients| == |chunks| == |table| && forall m :: 0 <= m < |table| ==> i < |table[m]|
    ensures (forall m :: 0 <= m < |chunks| ==>
               table[m][i] == Eval(ChunkPolynomial(chunks[m], coefficients[m]), i + 1) % p)
            ==> TableWords(table, i) == Words(chunks, coefficients, i + 1, p)
  {
  }

  method ValueTable(chunks: seq<Bytes>, coefficients: seq<seq<nat>>, n: nat, prime: nat) returns (table: seq<seq<nat>>)
    requires prime > 0 && |coefficients| == |chunks|
    ensures |table| == |chunks|
    ensures forall m :: 0 <= m < |chunks| ==> |table[m]| == n
    ensures forall m, i :: 0 <= m < |chunks| && 0 <= i < n ==>
              table[m][i] == Eval(ChunkPolynomial(chunks[m], coefficients[m]), i + 1) % prime
  {
    table := [];
    for k := 0 to |chunks|
      invariant |table| == k
      invariant forall m :: 0 <= m < k ==> |table[m]| == n
      invariant forall m, i :: 0 <= m < k && 0 <= i < n ==>
        table[m][i] == Eval(ChunkPolynomial(chunks[m], coefficients[m]), i + 1) % prime
    {
      var row := ChunkValues(chunks[k], coefficients[k], n, prime);
      table := table + [row];
    }
  }

  method ChunkValues(chunk: Bytes, coefficients: seq<nat>, n: nat, prime: nat) returns (row: seq<nat>)
    requires prime > 0
    ensures |row| == n
    ensures forall i :: 0 <= i < n ==> row[i] == Eval(ChunkPolynomial(chunk, coefficients), i + 1) % prime
  {
    row := [];
    for i := 0 to n
      invariant |row| == i
      invariant forall j :: 0 <= j < i ==> row[j] == Eval(ChunkPolynomial(chunk, coefficients), j + 1) % prime
    {
      var y := EvaluatePolynomial(ChunkPolynomial(chunk, coefficients), i + 1, prime);
      row := row + [y];
    }
  }

  // ------------------------------------------------------- Reconstruction

  /** `verify_share_mac` */
  predicate MacValid(cr: Crypto, s: Share, key: Bytes) {
    s.mac != "" && s.mac == ShareMac(cr, s.value, s.index, s.contentHash, key)
  }

  /** The checks of one share against the first. */
  function ShareFailure(cr: Crypto, s: Share, first: Share, key: Option<Bytes>): Option<Failure> {
    if s.contentHash != first.contentHash then Some(DifferentSecrets)
    else if s.threshold != first.threshold then Some(DifferentThresholds)
    else if s.isHybrid != first.isHybrid then Some(DifferentHybridFlags)
    else if key.Some? && !MacValid(cr, s, key.value) then Some(ShareIntegrity(s.shareId))
    else None
  }

  /** The first failing share decides. */
  function FirstFailure(cr: Crypto, shares: seq<Share>, first: Share, key: Option<Bytes>): (f: Option<Failure>)
    ensures f.None? <==> forall s :: s in shares ==> ShareFailure(cr, s, first, key).None?
  {
    if shares == [] then None
    else if ShareFailure(cr, shares[0], first, key).Some? then ShareFailure(cr, shares[0], first, key)
    else
      assert shares == [shares[0]] + shares[1..];
      FirstFailure(cr, shares[1..], first, key)
  }

  function Indices(shares: seq<Share>): (xs: seq<int>)
    ensures |xs| == |shares|
  {
    seq(|shares|, i requires 0 <= i < |shares| => shares[i].index)
  }

  function WordAt(s: Share, k: nat): Option<nat> {
    var words := Split(s.value, "|");
    if k < |words| then ParseHex(words[k]) else None
  }

  /** The k-th value of every share. */
  function Column(shares: seq<Share>, k: nat): (ys: Option<seq<nat>>)
    ensures ys.Some? ==> |ys.value| == |shares|
    ensures ys.Some? ==> forall i :: 0 <= i < |shares| ==> WordAt(shares[i], k) == Some(ys.value[i])
  {
    if shares == [] then Some([])
    else
      var y, rest := WordAt(shares[0], k), Column(shares[1..], k);
      if y.Some? && rest.Some? then Some([y.value] + rest.value) else None
  }

  /** One chunk from the shares used. */
  function ChunkFrom(used: seq<Share>, k: nat, p: nat): (r: Result<Bytes>)
    requires p > 0
    ensures r.Ok? ==> |r.value| == CHUNK
    ensures r.Err? ==> r.error == MalformedValue || r.error == ChunkOverflow
  {
    var ys := Column(used, k);
    if ys.None? then Err(MalformedValue)
    else
      var secret := Interpolate(Indices(used), ys.value, p);
      if Fits(secret, CHUNK) then Ok(ToBytes(secret, CHUNK)) else Err(ChunkOverflow)
  }

  function ChunkResults(used: seq<Share>, n: nat, p: nat): (rs: seq<Result<Bytes>>)
    requires p > 0
    ensures |rs| == n
    ensures forall k :: 0 <= k < n && rs[k].Ok? ==> |rs[k].value| == CHUNK
    ensures forall k :: 0 <= k < n && rs[k].Err? ==> rs[k].error == MalformedValue || rs[k].error == ChunkOverflow
  {
    seq(n, k requires 0 <= k < n => ChunkFrom(used, k, p))
  }

  /** All values, or the first error. */
  function Collect<T>(rs: seq<Result<T>>): (r: Result<seq<T>>)
    ensures r.Ok? ==> |r.value| == |rs| && forall k :: 0 <= k < |rs| ==> rs[k] == Ok(r.value[k])
    ensures r.Err? ==> exists k :: 0 <= k < |rs| && rs[k] == Err(r.error)
  {
    if rs == [] then Ok([])
    else if rs[0].Err? then Err(rs[0].error)
    else
      var rest := Collect(rs[1..]);
      if rest.Err? then rest else Ok([rs[0].value] + rest.value)
  }

  lemma {:induction false} CollectGood<T>(rs: seq<Result<T>>, vs: seq<T>)
    requires |rs| == |vs| && forall k :: 0 <= k < |rs| ==> rs[k] == Ok(vs[k])
    ensures Collect(rs) == Ok(vs)
  {
    if rs != [] {
      CollectGood(rs[1..], vs[1..]);
      assert vs == [vs[0]] + vs[1..];
    }
  }

  lemma {:induction false} CollectBad<T>(rs: seq<Result<T>>, j: nat)
    requires j < |rs| && rs[j].Err? && forall k :: 0 <= k < j ==> rs[k].Ok?
    ensures Collect(rs) == Err(rs[j].error)
  {
    if j > 0 {
      CollectBad(rs[1..], j - 1);
    }
  }

  function Decoded(cr: Crypto, data: Bytes, contentHash: string): Option<string> {
    var content := cr.fromUtf8(data);
    if content.Some? && cr.sha256(data) == contentHash then content else None
  }

  /** From the chunks to the content. */
  function ContentFrom(cr: Crypto, first: Share, chunks: seq<Bytes>): (r: Result<Option<string>>)
    requires |chunks| > 0 && |chunks[0]| == CHUNK
    ensures r.Err? ==> r.error == MalformedHex
  {
    var secret := TakeUpTo(Concat(chunks[1..]), FromBytes(chunks[0][..4]));
    if first.isHybrid then
      var ciphertext, nonce := HexToBytes(first.ciphertext), HexToBytes(first.nonce);
      if ciphertext.None? || nonce.None? then Err(MalformedHex)
      else
        var data := cr.decrypt(secret, nonce.value, ciphertext.value);
        Ok(if data.None? then None else Decoded(cr, data.value, first.contentHash))
    else Ok(Decoded(cr, secret, first.contentHash))
  }

  /** `reconstruct_secret`; exceptions are Err, `None` is Ok(None). */
  function Reconstruct(cr: Crypto, shares: seq<Share>, key: Option<Bytes>, p: nat): Result<Option<string>>
    requires p > 0
  {
    if shares == [] then Err(NoShares)
    else if |shares| < shares[0].threshold then Err(TooFewShares)
    else
      var failure := FirstFailure(cr, shares, shares[0], key);
      if failure.Some? then Err(failure.value)
      else Rebuilt(cr, shares[0], TakeUpTo(shares, shares[0].threshold), |Split(shares[0].value, "|")|, p)
  }

  /** What remains after the checks: interpolate every chunk, then decode. */
  function Rebuilt(cr: Crypto, first: Share, used: seq<Share>, numChunks: nat, p: nat): (r: Result<Option<string>>)
    requires p > 0 && numChunks > 0
    ensures r.Err? ==> r.error in {MalformedValue, ChunkOverflow, MalformedHex}
  {
    var chunks := Collect(ChunkResults(used, numChunks, p));
    if chunks.Err? then Err(chunks.error) else ContentFrom(cr, first, chunks.value)
  }

  /** The loops of `reconstruct_secret` compute Reconstruct. */
  method ReconstructSecret(cr: Crypto, shares: seq<Share>, key: Option<Bytes>, prime: nat)
    returns (r: Result<Option<string>>)
    requires prime > 1
    ensures r == Reconstruct(cr, shares, key, prime)
  {
    if shares == [] {
      return Err(NoShares);
    }
    var first := shares[0];
    if |shares| < first.threshold {
      return Err(TooFewShares);
    }
    var failure := CheckShares(cr, shares, first, key);
    if failure.Some? {
      return Err(failure.value);
    }
    var chunks := RebuildChunks(TakeUpTo(shares, first.threshold), |Split(first.value, "|")|, prime);
    if chunks.Err? {
      return Err(chunks.error);
    }
    r := ContentFrom(cr, first, chunks.value);
  }

  method CheckShares(cr: Crypto, shares: seq<Share>, first: Share, key: Option<Bytes>) returns (f: Option<Failure>)
    ensures f == FirstFailure(cr, shares, first, key)
  {
    for i := 0 to |shares|
      invariant FirstFailure(cr, shares, first, key) == FirstFailure(cr, shares[i..], first, key)
    {
      assert shares[i..][1..] == shares[i + 1..];
      f := ShareFailure(cr, shares[i], first, key);
      if f.Some? {
        return;
      }
    }
    f := None;
  }

  method RebuildChunks(used: seq<Share>, numChunks: nat, prime: nat) returns (r: Result<seq<Bytes>>)
    requires prime > 1
    ensures r == Collect(ChunkResults(used, numChunks, prime))
  {
    ghost var rs := ChunkResults(used, numChunks, prime);
    var chunks: seq<Bytes> := [];
    for k := 0 to numChunks
      invariant |chunks| == k
      invariant forall m :: 0 <= m < k ==> rs[m] == Ok(chunks[m])
    {
      var chunk := RebuildChunk(used, k, prime);
      if chunk.Err? {
        CollectBad(rs, k);
        return Err(chunk.error);
      }
      chunks := chunks + [chunk.value];
    }
    CollectGood(rs, chunks);
    r := Ok(chunks);
  }

  method RebuildChunk(used: seq<Share>, k: nat, prime: nat) returns (r: Result<Bytes>)
    requires prime > 1
    ensures r == ChunkFrom(used, k, prime)
  {
    var ys := Column(used, k);
    if ys.None? {
      return Err(MalformedValue);
    }
    var secret := LagrangeInterpolation(Indices(used), ys.value, prime);
    if !Fits(secret, CHUNK) {
      return Err(ChunkOverflow);
    }
    r := Ok(ToBytes(secret, CHUNK));
  }

  // ------------------------------------------------------- Main results

  /** Every listed share is a share of the split. */
  ghost predicate FromSplit(cr: Crypto, content: string, t: nat, n: nat, draws: Draws, p: nat, picked: seq<Share>)
    requires p > 0 && ValidDraws(cr, content, t, draws, p)
  {
    forall i :: 0 <= i < |picked| ==>
      1 <= picked[i].index <= n && picked[i] == ShareAt(cr, content, t, n, draws, p, picked[i].index)
  }

  lemma SplitSharesAreFromSplit(cr: Crypto, content: string, t: nat, n: nat, draws: Draws, p: nat, picked: seq<Share>)
    requires p > 0 && 2 <= t <= n && ValidDraws(cr, content, t, draws, p)
    requires forall s :: s in picked ==> s in SplitResult(cr, content, t, n, draws, p).value
    ensures FromSplit(cr, content, t, n, draws, p, picked)
  {
    var all := SplitResult(cr, content, t, n, draws, p).value;
    forall i | 0 <= i < |picked|
      ensures 1 <= picked[i].index <= n && picked[i] == ShareAt(cr, content, t, n, draws, p, picked[i].index)
    {
      assert picked[i] in all;
      var j :| 0 <= j < |all| && all[j] == picked[i];
    }
  }

  lemma WordsOfShare(cr: Crypto, content: string, t: nat, n: nat, draws: Draws, p: nat, x: nat)
    requires p > 0 && ValidDraws(cr, content, t, draws, p)
    ensures Split(ShareAt(cr, content, t, n, draws, p, x).value, "|")
         == Words(Chunks(SecretOf(cr, content, draws)), draws.coefficients, x, p)
  {
    SplitJoin(Words(Chunks(SecretOf(cr, content, draws)), draws.coefficients, x, p), "|", 0);
  }

  lemma WordIsValue(cr: Crypto, content: string, t: nat, n: nat, draws: Draws, p: nat, x: nat, k: nat)
    requires p > 0 && ValidDraws(cr, content, t, draws, p)
    requires k < |Chunks(SecretOf(cr, content, draws))|
    ensures WordAt(ShareAt(cr, content, t, n, draws, p, x), k)
         == Some(Eval(ChunkPolynomial(Chunks(SecretOf(cr, content, draws))[k], draws.coefficients[k]), x) % p)
  {
    WordsOfShare(cr, content, t, n, draws, p, x);
    HexRoundTrip(Eval(ChunkPolynomial(Chunks(SecretOf(cr, content, draws))[k], draws.coefficients[k]), x) % p);
  }

  lemma {:induction false} ColumnOf(shares: seq<Share>, k: nat, ys: seq<nat>)
    requires |ys| == |shares| && forall i :: 0 <= i < |shares| ==> WordAt(shares[i], k) == Some(ys[i])
    ensures Column(shares, k) == Some(ys)
  {
    if shares != [] {
      ColumnOf(shares[1..], k, ys[1..]);
      assert ys == [ys[0]] + ys[1..];
    }
  }

  /** Different indices below p are different modulo p. */
  lemma IndicesDistinct(xs: seq<int>, n: nat, p: nat)
    requires n < p && forall i :: 0 <= i < |xs| ==> 1 <= xs[i] <= n
    requires forall i, j :: 0 <= i < j < |xs| ==> xs[i] != xs[j]
    ensures Distinct(xs, p)
  {
    forall i, j | 0 <= i < j < |xs|
      ensures !Cong(xs[j] - xs[i], 0, p)
    {
      if Cong(xs[j] - xs[i], 0, p) {
        CongReduced(xs[j], xs[i], p);
      }
    }
  }

  /** Any t shares with different indices rebuild any chunk, and its number fits
      31 bytes. */
  lemma ChunkRebuilt(cr: Crypto, content: string, t: nat, n: nat, draws: Draws, p: nat, used: seq<Share>, k: nat)
    requires IsPrime(p) && HoldsChunks(p) && 2 <= t <= n < p && ValidDraws(cr, content, t, draws, p)
    requires FromSplit(cr, content, t, n, draws, p, used) && |used| == t
    requires forall i, j :: 0 <= i < j < |used| ==> used[i].index != used[j].index
    requires k < |Chunks(SecretOf(cr, content, draws))|
    ensures ChunkFrom(used, k, p) == Ok(Chunks(SecretOf(cr, content, draws))[k])
  {
    var c := ChunkPolynomial(Chunks(SecretOf(cr, content, draws))[k], draws.coefficients[k]);
    var ys: seq<nat> := seq(t, i requires 0 <= i < t => Eval(c, used[i].index) % p);
    forall i | 0 <= i < t
      ensures WordAt(used[i], k) == Some(ys[i])
    {
      WordIsValue(cr, content, t, n, draws, p, used[i].index, k);
    }
    ColumnOf(used, k, ys);
    var xs := Indices(used);
    IndicesDistinct(xs, n, p);
    InterpolateRecovers(c, xs, ys, p);
    ChunkFromColumn(used, k, ys, Chunks(SecretOf(cr, content, draws))[k], p);
  }

  lemma ChunkFromColumn(used: seq<Share>, k: nat, ys: seq<nat>, chunk: Bytes, p: nat)
    requires p > 0 && |chunk| == CHUNK && |ys| == |used|
    ensures Column(used, k) == Some(ys) && Interpolate(Indices(used), ys, p) == FromBytes(chunk) ==>
              ChunkFrom(used, k, p) == Ok(chunk)
  {
    BytesRoundTrip(chunk);
  }

  lemma ChecksPass(cr: Crypto, content: string, t: nat, n: nat, draws: Draws, p: nat, picked: seq<Share>,
                   key: Option<Bytes>)
    requires p > 0 && cr.Laws() && ValidDraws(cr, content, t, draws, p)
    requires FromSplit(cr, content, t, n, draws, p, picked) && picked != []
    requires key == None || key == Some(draws.hmacKey)
    ensures FirstFailure(cr, picked, picked[0], key).None?
  {
    forall s | s in picked
      ensures ShareFailure(cr, s, picked[0], key).None?
    {
      var i :| 0 <= i < |picked| && picked[i] == s;
      ShareAtPasses(cr, content, t, n, draws, p, s.index, picked[0].index, key);
    }
  }

  lemma ShareAtPasses(cr: Crypto, content: string, t: nat, n: nat, draws: Draws, p: nat, x: nat, y: nat,
                      key: Option<Bytes>)
    requires p > 0 && cr.Laws() && ValidDraws(cr, content, t, draws, p)
    requires key == None || key == Some(draws.hmacKey)
    ensures ShareFailure(cr, ShareAt(cr, content, t, n, draws, p, x),
                         ShareAt(cr, content, t, n, draws, p, y), key).None?
  {
  }

  /** The chunks of a secret give the secret back. */
  lemma SecretFromChunks(secret: Bytes)
    requires Fits(|secret|, 4)
    ensures TakeUpTo(Concat(Chunks(secret)[1..]), FromBytes(Chunks(secret)[0][..4])) == secret
  {
    assert Chunks(secret)[1..] == Blocks(secret);
    assert LengthChunk(|secret|)[..4] == ToBytes(|secret|, 4);
    BlocksKeepData(secret);
  }

  lemma ContentRestored(cr: Crypto, content: string, t: nat, n: nat, draws: Draws, p: nat, x: nat)
    requires p > 0 && cr.Laws() && ValidDraws(cr, content, t, draws, p)
    ensures ContentFrom(cr, ShareAt(cr, content, t, n, draws, p, x), Chunks(SecretOf(cr, content, draws)))
         == Ok(Some(content))
  {
    SecretFromChunks(SecretOf(cr, content, draws));
    BytesHexRoundTrip(cr.encrypt(draws.aesKey, draws.aesNonce, cr.utf8(content)));
    BytesHexRoundTrip(draws.aesNonce);
  }

  /** For every content, every 2 <= t <= n < p and every random choice: any list
      of at least t shares of the split, in any order, whose first t indices
      differ, reconstructs exactly the content, with or without the HMAC key. */
  lemma SplitThenReconstruct(cr: Crypto, content: string, t: nat, n: nat, draws: Draws, p: nat,
                             picked: seq<Share>, key: Option<Bytes>)
    requires IsPrime(p) && HoldsChunks(p) && 2 <= t <= n < p
    requires cr.Laws() && ValidDraws(cr, content, t, draws, p)
    requires |picked| >= t && forall s :: s in picked ==> s in SplitResult(cr, content, t, n, draws, p).value
    requires forall i, j :: 0 <= i < j < t ==> picked[i].index != picked[j].index
    requires key == None || key == Some(draws.hmacKey)
    ensures Reconstruct(cr, picked, key, p) == Ok(Some(content))
  {
    SplitSharesAreFromSplit(cr, content, t, n, draws, p, picked);
    ChecksPass(cr, content, t, n, draws, p, picked, key);
    FirstValueHasAllChunks(cr, content, t, n, draws, p, picked);
    AllChunksRebuilt(cr, content, t, n, draws, p, picked[..t]);
    ReconstructPasses(cr, picked, t, key, Chunks(SecretOf(cr, content, draws)), p);
    ContentRestored(cr, content, t, n, draws, p, picked[0].index);
  }

  lemma FirstValueHasAllChunks(cr: Crypto, content: string, t: nat, n: nat, draws: Draws, p: nat, picked: seq<Share>)
    requires p > 0 && ValidDraws(cr, content, t, draws, p)
    requires FromSplit(cr, content, t, n, draws, p, picked) && picked != []
    ensures picked[0].threshold == t
    ensures |Split(picked[0].value, "|")| == |Chunks(SecretOf(cr, content, draws))|
  {
    WordsOfShare(cr, content, t, n, draws, p, picked[0].index);
  }

  lemma ReconstructPasses(cr: Crypto, shares: seq<Share>, t: nat, key: Option<Bytes>, chunks: seq<Bytes>, p: nat)
    requires p > 0 && shares != [] && |shares| >= shares[0].threshold == t
    requires |chunks| == |Split(shares[0].value, "|")| > 0
    ensures FirstFailure(cr, shares, shares[0], key).None?
            && Collect(ChunkResults(shares[..t], |chunks|, p)) == Ok(chunks) ==>
              |chunks[0]| == CHUNK && Reconstruct(cr, shares, key, p) == ContentFrom(cr, shares[0], chunks)
  {
    assert TakeUpTo(shares, t) == shares[..t];
    if Collect(ChunkResults(shares[..t], |chunks|, p)) == Ok(chunks) {
      assert ChunkResults(shares[..t], |chunks|, p)[0] == Ok(chunks[0]);
    }
  }

  lemma AllChunksRebuilt(cr: Crypto, content: string, t: nat, n: nat, draws: Draws, p: nat, used: seq<Share>)
    requires IsPrime(p) && HoldsChunks(p) && 2 <= t <= n < p && ValidDraws(cr, content, t, draws, p)
    requires FromSplit(cr, content, t, n, draws, p, used) && |used| == t
    requires forall i, j :: 0 <= i < j < |used| ==> used[i].index != used[j].index
    ensures var chunks := Chunks(SecretOf(cr, content, draws));
            Collect(ChunkResults(used, |chunks|, p)) == Ok(chunks)
  {
    var chunks := Chunks(SecretOf(cr, content, draws));
    forall k | 0 <= k < |chunks|
      ensures ChunkResults(used, |chunks|, p)[k] == Ok(chunks[k])
    {
      ChunkRebuilt(cr, content, t, n, draws, p, used, k);
    }
    CollectGood(ChunkResults(used, |chunks|, p), chunks);
  }

  ghost predicate FirstTampered(cr: Crypto, shares: seq<Share>, key: Bytes, i: nat) {
    i < |shares| && !MacValid(cr, shares[i], key) && forall j :: 0 <= j < i ==> MacValid(cr, shares[j], key)
  }

  /** With a key and shares that are otherwise consistent, reconstruction raises the
      integrity error exactly when some share carries a MAC that is not the HMAC of
      its own index, value and hash. */
  lemma TamperingIsReported(cr: Crypto, shares: seq<Share>, key: Bytes, p: nat)
    requires p > 0 && shares != [] && |shares| >= shares[0].threshold
    requires forall s :: s in shares ==> ShareFailure(cr, s, shares[0], None).None?
    ensures (exists s :: s in shares && !MacValid(cr, s, key)) <==>
            Reconstruct(cr, shares, Some(key), p).Err? && Reconstruct(cr, shares, Some(key), p).error.ShareIntegrity?
  {
    MacFailureFound(cr, shares, shares[0], key);
  }

  /** The error names the first such share. */
  lemma FirstTamperedIsNamed(cr: Crypto, shares: seq<Share>, key: Bytes, p: nat, i: nat)
    requires p > 0 && FirstTampered(cr, shares, key, i) && |shares| >= shares[0].threshold
    requires forall s :: s in shares ==> ShareFailure(cr, s, shares[0], None).None?
    ensures Reconstruct(cr, shares, Some(key), p) == Err(ShareIntegrity(shares[i].shareId))
  {
    FirstIsNamed(cr, shares, shares[0], key, i);
  }

  lemma {:induction false} FirstIsNamed(cr: Crypto, shares: seq<Share>, first: Share, key: Bytes, i: nat)
    requires FirstTampered(cr, shares, key, i)
    requires forall s :: s in shares ==> ShareFailure(cr, s, first, None).None?
    ensures FirstFailure(cr, shares, first, Some(key)) == Some(ShareIntegrity(shares[i].shareId))
  {
    assert ShareFailure(cr, shares[0], first, None).None?;
    if i > 0 {
      FirstIsNamed(cr, shares[1..], first, key, i - 1);
    }
  }

  lemma {:induction false} MacFailureFound(cr: Crypto, shares: seq<Share>, first: Share, key: Bytes)
    requires forall s :: s in shares ==> ShareFailure(cr, s, first, None).None?
    ensures (exists s :: s in shares && !MacValid(cr, s, key)) <==> FirstFailure(cr, shares, first, Some(key)).Some?
    ensures var f := FirstFailure(cr, shares, first, Some(key)); f.Some? ==> f.value.ShareIntegrity?
  {
    if shares != [] {
      assert shares == [shares[0]] + shares[1..];
      assert ShareFailure(cr, shares[0], first, None).None?;
      MacFailureFound(cr, shares[1..], first, key);
    }
  }
}
