/** What `reconstruct_secret` answers on shares of any origin: the exact condition of
    each answer, over the fields of the shares. */
module Integrity {
  import opened Text
  import opened Encoding
  import opened SecretSharing

  // ------------------------------------------------------- The checks

  /** Both shares claim to belong to one split. */
  ghost predicate SameSplit(s: Share, first: Share) {
    s.contentHash == first.contentHash && s.threshold == first.threshold && s.isHybrid == first.isHybrid
  }

  /** The MAC is the HMAC of the share's own index, value and hash. */
  ghost predicate Authentic(cr: Crypto, s: Share, key: Option<Bytes>) {
    key.Some? ==> s.mac != "" && s.mac == cr.hmac(key.value, PrintedInt(s.index) + "|" + s.value + "|" + s.contentHash)
  }

  /** Enough shares, of one split, and with a key all of them authentic. */
  ghost predicate Admissible(cr: Crypto, shares: seq<Share>, key: Option<Bytes>) {
    && shares != [] && |shares| >= shares[0].threshold
    && forall s :: s in shares ==> SameSplit(s, shares[0]) && Authentic(cr, s, key)
  }

  lemma ChecksIff(cr: Crypto, shares: seq<Share>, first: Share, key: Option<Bytes>)
    ensures FirstFailure(cr, shares, first, key).None? <==>
            forall s :: s in shares ==> SameSplit(s, first) && Authentic(cr, s, key)
  {
  }

  /** Share i is the first one that a check rejects. */
  ghost predicate FirstRejected(cr: Crypto, shares: seq<Share>, first: Share, key: Option<Bytes>, i: nat) {
    && i < |shares| && !(SameSplit(shares[i], first) && Authentic(cr, shares[i], key))
    && forall j :: 0 <= j < i ==> SameSplit(shares[j], first) && Authentic(cr, shares[j], key)
  }

  /** The first rejected share decides the error; its hash is compared before its
      threshold, its threshold before its flag, and its MAC last. */
  lemma RejectedIsReported(cr: Crypto, shares: seq<Share>, key: Option<Bytes>, p: nat, i: nat)
    requires p > 0 && shares != [] && |shares| >= shares[0].threshold
    requires FirstRejected(cr, shares, shares[0], key, i)
    ensures var s, first := shares[i], shares[0];
            Reconstruct(cr, shares, key, p) ==
              Err(if s.contentHash != first.contentHash then DifferentSecrets
                  else if s.threshold != first.threshold then DifferentThresholds
                  else if s.isHybrid != first.isHybrid then DifferentHybridFlags
                  else ShareIntegrity(s.shareId))
  {
    RejectedFound(cr, shares, shares[0], key, i);
  }

  lemma {:induction false} RejectedFound(cr: Crypto, shares: seq<Share>, first: Share, key: Option<Bytes>, i: nat)
    requires FirstRejected(cr, shares, first, key, i)
    ensures FirstFailure(cr, shares, first, key) == ShareFailure(cr, shares[i], first, key)
  {
    if i > 0 {
      assert SameSplit(shares[0], first) && Authentic(cr, shares[0], key);
      RejectedFound(cr, shares[1..], first, key, i - 1);
    }
  }

  /** No shares, or fewer than the first one asks for, are reported before anything
      else, and only then. */
  lemma TooFewIff(cr: Crypto, shares: seq<Share>, key: Option<Bytes>, p: nat)
    requires p > 0
    ensures Reconstruct(cr, shares, key, p) == Err(NoShares) <==> shares == []
    ensures Reconstruct(cr, shares, key, p) == Err(TooFewShares) <==> shares != [] && |shares| < shares[0].threshold
  {
    if shares != [] {
      FailureIsOfShare(cr, shares, shares[0], key);
    }
  }

  lemma {:induction false} FailureIsOfShare(cr: Crypto, shares: seq<Share>, first: Share, key: Option<Bytes>)
    ensures var f := FirstFailure(cr, shares, first, key);
            f.Some? ==> f.value != NoShares && f.value != TooFewShares
  {
    if shares != [] {
      FailureIsOfShare(cr, shares[1..], first, key);
    }
  }

  // ------------------------------------------------------- What the shares carry

  /** The chunk is what the k-th values of the shares used interpolate to. */
  ghost predicate IsChunk(used: seq<Share>, k: nat, p: nat, chunk: Bytes)
    requires p > 0
  {
    && |chunk| == CHUNK
    && exists ys: seq<nat> :: Values(used, k, ys) && FromBytes(chunk) == Interpolate(Indices(used), ys, p)
  }

  ghost predicate HasChunk(used: seq<Share>, k: nat, p: nat)
    requires p > 0
  {
    exists chunk :: IsChunk(used, k, p, chunk)
  }

  ghost predicate Values(used: seq<Share>, k: nat, ys: seq<nat>) {
    |ys| == |used| && forall i :: 0 <= i < |used| ==> WordAt(used[i], k) == Some(ys[i])
  }

  /** One chunk per value of the first share, from the first threshold shares. */
  ghost predicate AreChunks(shares: seq<Share>, p: nat, chunks: seq<Bytes>)
    requires p > 0 && shares != []
  {
    && |chunks| == |Split(shares[0].value, "|")|
    && forall k :: 0 <= k < |chunks| ==> IsChunk(TakeUpTo(shares, shares[0].threshold), k, p, chunks[k])
  }

  /** The first four bytes tell how many of the bytes that follow are the secret. */
  ghost function SecretIn(chunks: seq<Bytes>): Bytes
    requires |chunks| > 0 && |chunks[0]| == CHUNK
  {
    TakeUpTo(Concat(chunks[1..]), FromBytes(chunks[0][..4]))
  }

  /** The bytes behind a secret: the secret itself, or what it decrypts, where
      Some(None) is a ciphertext that AES refuses and None malformed hexadecimal. */
  ghost function Opened(cr: Crypto, first: Share, secret: Bytes): Option<Option<Bytes>> {
    if !first.isHybrid then Some(Some(secret))
    else if HexToBytes(first.ciphertext).None? || HexToBytes(first.nonce).None? then None
    else Some(cr.decrypt(secret, HexToBytes(first.nonce).value, HexToBytes(first.ciphertext).value))
  }

  /** The shares carry these bytes. */
  ghost predicate Carries(cr: Crypto, shares: seq<Share>, p: nat, data: Option<Bytes>)
    requires p > 0 && shares != []
  {
    exists chunks :: && |chunks| > 0 && AreChunks(shares, p, chunks)
                     && Opened(cr, shares[0], SecretIn(chunks)) == Some(data)
  }

  /** The bytes are the text whose hash the shares name. */
  ghost predicate Stands(cr: Crypto, data: Option<Bytes>, contentHash: string, text: string) {
    data.Some? && cr.fromUtf8(data.value) == Some(text) && cr.sha256(data.value) == contentHash
  }

  lemma ChunkIff(used: seq<Share>, k: nat, p: nat, chunk: Bytes)
    requires p > 0
    ensures IsChunk(used, k, p, chunk) <==> ChunkFrom(used, k, p) == Ok(chunk)
  {
    if IsChunk(used, k, p, chunk) {
      var ys: seq<nat> :| Values(used, k, ys) && FromBytes(chunk) == Interpolate(Indices(used), ys, p);
      ColumnOf(used, k, ys);
      ChunkFromColumn(used, k, ys, chunk, p);
    }
    if ChunkFrom(used, k, p) == Ok(chunk) {
      assert Values(used, k, Column(used, k).value);
    }
  }

  lemma ChunksIff(shares: seq<Share>, p: nat, chunks: seq<Bytes>)
    requires p > 0 && shares != []
    ensures AreChunks(shares, p, chunks) <==>
            Collect(ChunkResults(TakeUpTo(shares, shares[0].threshold), |Split(shares[0].value, "|")|, p)) == Ok(chunks)
  {
    var used, n := TakeUpTo(shares, shares[0].threshold), |Split(shares[0].value, "|")|;
    forall k | 0 <= k < |chunks|
      ensures IsChunk(used, k, p, chunks[k]) <==> ChunkFrom(used, k, p) == Ok(chunks[k])
    {
      ChunkIff(used, k, p, chunks[k]);
    }
    var rs := ChunkResults(used, n, p);
    if AreChunks(shares, p, chunks) {
      CollectGood(rs, chunks);
    }
    if Collect(rs) == Ok(chunks) {
      forall k | 0 <= k < n
        ensures IsChunk(used, k, p, chunks[k])
      {
        assert rs[k] == Ok(chunks[k]);
      }
    }
  }

  lemma ContentIs(cr: Crypto, first: Share, chunks: seq<Bytes>)
    requires |chunks| > 0 && |chunks[0]| == CHUNK
    ensures var r, data := ContentFrom(cr, first, chunks), Opened(cr, first, SecretIn(chunks));
            if data.None? then r == Err(MalformedHex)
            else if exists text :: Stands(cr, data.value, first.contentHash, text)
            then r.Ok? && r.value.Some? && Stands(cr, data.value, first.contentHash, r.value.value)
            else r == Ok(None)
  {
    var data := Opened(cr, first, SecretIn(chunks));
    if data.Some? && data.value.Some? && cr.fromUtf8(data.value.value).Some? {
      var text := cr.fromUtf8(data.value.value).value;
      assert cr.sha256(data.value.value) == first.contentHash ==> Stands(cr, data.value, first.contentHash, text);
    }
  }

  lemma RefusedOrRebuilt(cr: Crypto, shares: seq<Share>, key: Option<Bytes>, p: nat)
    requires p > 0
    ensures !Admissible(cr, shares, key) ==> Reconstruct(cr, shares, key, p).Err?
    ensures Admissible(cr, shares, key) ==>
              Reconstruct(cr, shares, key, p)
              == Rebuilt(cr, shares[0], TakeUpTo(shares, shares[0].threshold), |Split(shares[0].value, "|")|, p)
  {
    if shares != [] {
      ChecksIff(cr, shares, shares[0], key);
    }
  }

  /** What remains after the checks depends on the chunks only. */
  lemma RebuiltIs(cr: Crypto, shares: seq<Share>, p: nat, chunks: seq<Bytes>)
    requires p > 0 && shares != []
    ensures var r := Rebuilt(cr, shares[0], TakeUpTo(shares, shares[0].threshold), |Split(shares[0].value, "|")|, p);
            && (AreChunks(shares, p, chunks) ==>
                  |chunks| > 0 && |chunks[0]| == CHUNK && r == ContentFrom(cr, shares[0], chunks))
            && (r.Ok? ==> exists cs :: AreChunks(shares, p, cs))
  {
    ChunksIff(shares, p, chunks);
    var collected := Collect(ChunkResults(TakeUpTo(shares, shares[0].threshold), |Split(shares[0].value, "|")|, p));
    if collected.Ok? {
      ChunksIff(shares, p, collected.value);
    }
  }

  /** There is only one list of chunks. */
  lemma OneList(shares: seq<Share>, p: nat, a: seq<Bytes>, b: seq<Bytes>)
    requires p > 0 && shares != [] && AreChunks(shares, p, a) && AreChunks(shares, p, b)
    ensures a == b
  {
    ChunksIff(shares, p, a);
    ChunksIff(shares, p, b);
  }

  // ------------------------------------------------------- Main results

  /** For every list of shares: a text is returned exactly when the shares pass all
      checks and carry bytes that are this text and hash to the hash the shares name. */
  lemma ReturnedIff(cr: Crypto, shares: seq<Share>, key: Option<Bytes>, p: nat, text: string)
    requires p > 0
    ensures Reconstruct(cr, shares, key, p) == Ok(Some(text)) <==>
            && Admissible(cr, shares, key)
            && exists data :: Carries(cr, shares, p, data) && Stands(cr, data, shares[0].contentHash, text)
  {
    RefusedOrRebuilt(cr, shares, key, p);
    if Admissible(cr, shares, key) {
      CarriedIff(cr, shares, p, text);
    }
  }

  /** Nothing is returned, without an error, exactly when the shares pass all checks
      and carry bytes that AES refuses, that are no text, or that hash to another
      hash. */
  lemma NothingIff(cr: Crypto, shares: seq<Share>, key: Option<Bytes>, p: nat)
    requires p > 0
    ensures Reconstruct(cr, shares, key, p) == Ok(None) <==>
            && Admissible(cr, shares, key)
            && exists data :: Carries(cr, shares, p, data) && forall t :: !Stands(cr, data, shares[0].contentHash, t)
  {
    RefusedOrRebuilt(cr, shares, key, p);
    if Admissible(cr, shares, key) {
      CarriedIff(cr, shares, p, "");
    }
  }

  lemma CarriedIff(cr: Crypto, shares: seq<Share>, p: nat, text: string)
    requires p > 0 && shares != []
    ensures var r := Rebuilt(cr, shares[0], TakeUpTo(shares, shares[0].threshold), |Split(shares[0].value, "|")|, p);
            && (r == Ok(Some(text)) <==>
                  exists data :: Carries(cr, shares, p, data) && Stands(cr, data, shares[0].contentHash, text))
            && (r == Ok(None) <==>
                  exists data :: && Carries(cr, shares, p, data)
                                 && forall t :: !Stands(cr, data, shares[0].contentHash, t))
  {
    if chunks :| AreChunks(shares, p, chunks) {
      RebuiltIs(cr, shares, p, chunks);
      ContentIs(cr, shares[0], chunks);
      OnlyCarries(cr, shares, p, chunks);
    } else {
      RebuiltIs(cr, shares, p, []);
    }
  }

  lemma OnlyCarries(cr: Crypto, shares: seq<Share>, p: nat, chunks: seq<Bytes>)
    requires p > 0 && shares != [] && |chunks| > 0 && AreChunks(shares, p, chunks)
    ensures forall data :: Carries(cr, shares, p, data) <==> Opened(cr, shares[0], SecretIn(chunks)) == Some(data)
  {
    forall data | Carries(cr, shares, p, data)
      ensures Opened(cr, shares[0], SecretIn(chunks)) == Some(data)
    {
      var cs :| |cs| > 0 && AreChunks(shares, p, cs) && Opened(cr, shares[0], SecretIn(cs)) == Some(data);
      OneList(shares, p, chunks, cs);
    }
  }

  /** After the checks, the first chunk that cannot be rebuilt decides the error: a
      value is missing or no number, or the interpolated number is too large. */
  lemma FirstBadChunk(cr: Crypto, shares: seq<Share>, key: Option<Bytes>, p: nat, k: nat)
    requires p > 0 && Admissible(cr, shares, key) && k < |Split(shares[0].value, "|")|
    requires var used := TakeUpTo(shares, shares[0].threshold);
             !HasChunk(used, k, p) && forall j :: 0 <= j < k ==> HasChunk(used, j, p)
    ensures Reconstruct(cr, shares, key, p) ==
              Err(if exists ys :: Values(TakeUpTo(shares, shares[0].threshold), k, ys) then ChunkOverflow
                  else MalformedValue)
  {
    var used, n := TakeUpTo(shares, shares[0].threshold), |Split(shares[0].value, "|")|;
    RefusedOrRebuilt(cr, shares, key, p);
    forall j | 0 <= j < k
      ensures ChunkFrom(used, j, p).Ok?
    {
      ChunkError(used, j, p);
    }
    ChunkError(used, k, p);
    CollectBad(ChunkResults(used, n, p), k);
  }

  lemma ChunkError(used: seq<Share>, k: nat, p: nat)
    requires p > 0
    ensures HasChunk(used, k, p) <==> ChunkFrom(used, k, p).Ok?
    ensures !HasChunk(used, k, p) ==>
              ChunkFrom(used, k, p) == Err(if exists ys :: Values(used, k, ys) then ChunkOverflow else MalformedValue)
  {
    if chunk :| IsChunk(used, k, p, chunk) {
      ChunkIff(used, k, p, chunk);
    }
    if ChunkFrom(used, k, p).Ok? {
      ChunkIff(used, k, p, ChunkFrom(used, k, p).value);
    }
    if ys :| Values(used, k, ys) {
      ColumnOf(used, k, ys);
    } else if Column(used, k).Some? {
      assert Values(used, k, Column(used, k).value);
    }
  }

  /** Chunks that can all be rebuilt lead to an error only by malformed hexadecimal. */
  lemma MalformedHexIff(cr: Crypto, shares: seq<Share>, key: Option<Bytes>, p: nat, chunks: seq<Bytes>)
    requires p > 0 && Admissible(cr, shares, key) && |chunks| > 0 && AreChunks(shares, p, chunks)
    ensures Reconstruct(cr, shares, key, p).Err? <==>
            shares[0].isHybrid && (HexToBytes(shares[0].ciphertext).None? || HexToBytes(shares[0].nonce).None?)
    ensures Reconstruct(cr, shares, key, p).Err? ==> Reconstruct(cr, shares, key, p) == Err(MalformedHex)
  {
    RefusedOrRebuilt(cr, shares, key, p);
    RebuiltIs(cr, shares, p, chunks);
    ContentIs(cr, shares[0], chunks);
  }

  // ------------------------------------------------------- What the MAC covers

  lemma {:induction false} PrintedShape(n: nat)
    ensures Printed(n) != "" && forall c :: c in Printed(n) ==> '0' <= c <= '9'
  {
    if n >= 10 {
      PrintedShape(n / 10);
    }
  }

  lemma PrintedEnds(n: nat)
    ensures var s := Printed(n);
            && |s| >= 1 && s[|s| - 1] == '0' + (n % 10) as char
            && s[..|s| - 1] == if n < 10 then "" else Printed(n / 10)
  {
  }

  lemma DigitsDiffer(a: nat, b: nat)
    requires a < 10 && b < 10 && '0' + a as char == '0' + b as char
    ensures a == b
  {
  }

  lemma {:induction false} PrintedInjective(m: nat, n: nat)
    requires Printed(m) == Printed(n)
    ensures m == n
  {
    PrintedEnds(m);
    PrintedEnds(n);
    DigitsDiffer(m % 10, n % 10);
    PrintedShape(m / 10);
    PrintedShape(n / 10);
    if m >= 10 && n >= 10 {
      PrintedInjective(m / 10, n / 10);
    }
  }

  lemma PrintedIntShape(n: int)
    ensures '|' !in PrintedInt(n) && PrintedInt(n) != "" && (PrintedInt(n)[0] == '-' <==> n < 0)
  {
    PrintedShape(if n < 0 then -n else n);
    assert n >= 0 ==> Printed(n)[0] in Printed(n);
  }

  lemma PrintedIntInjective(m: int, n: int)
    requires PrintedInt(m) == PrintedInt(n)
    ensures m == n
  {
    PrintedIntShape(m);
    PrintedIntShape(n);
    if m < 0 {
      assert PrintedInt(m)[1..] == Printed(-m) && PrintedInt(n)[1..] == Printed(-n);
      PrintedInjective(-m, -n);
    } else {
      PrintedInjective(m, n);
    }
  }

  lemma HeadsAgree(a: string, x: string, b: string, y: string)
    requires '|' !in a && '|' !in b && a + "|" + x == b + "|" + y
    ensures a == b && x == y
  {
    var s := a + "|" + x;
    assert s[|a|] == '|' && s[|b|] == '|';
    assert |a| == |b|;
    assert a == s[..|a|] && x == s[|a| + 1..] && y == s[|b| + 1..];
  }

  /** A share that carries the MAC of an authentic share is authentic exactly if its
      index is the same and so is its value followed by its hash; under one hash,
      exactly if index and value are the same. */
  lemma MacCovers(cr: Crypto, s: Share, other: Share, key: Bytes)
    requires forall k, d, e :: cr.hmac(k, d) == cr.hmac(k, e) ==> d == e
    requires Authentic(cr, s, Some(key)) && other.mac == s.mac
    ensures Authentic(cr, other, Some(key)) <==>
            other.index == s.index && other.value + "|" + other.contentHash == s.value + "|" + s.contentHash
    ensures other.contentHash == s.contentHash ==>
              (Authentic(cr, other, Some(key)) <==> other.index == s.index && other.value == s.value)
  {
    var a, b := PrintedInt(s.index), PrintedInt(other.index);
    var x, y := s.value + "|" + s.contentHash, other.value + "|" + other.contentHash;
    assert a + "|" + s.value + "|" + s.contentHash == a + "|" + x;
    assert b + "|" + other.value + "|" + other.contentHash == b + "|" + y;
    if Authentic(cr, other, Some(key)) {
      PrintedIntShape(s.index);
      PrintedIntShape(other.index);
      HeadsAgree(a, x, b, y);
      PrintedIntInjective(s.index, other.index);
    }
    if x == y && other.contentHash == s.contentHash {
      assert s.value == x[..|s.value|] && other.value == y[..|other.value|];
    }
  }

  /** The shares of one split have different identifiers, so an error names one share. */
  lemma ShareIdsDiffer(cr: Crypto, content: string, t: nat, n: nat, draws: Draws, p: nat, x: nat, y: nat)
    requires p > 0 && ValidDraws(cr, content, t, draws, p) && x != y
    ensures ShareAt(cr, content, t, n, draws, p, x).shareId != ShareAt(cr, content, t, n, draws, p, y).shareId
  {
    var a, b := draws.idBase + "_" + Printed(x), draws.idBase + "_" + Printed(y);
    assert a[|draws.idBase| + 1..] == Printed(x) && b[|draws.idBase| + 1..] == Printed(y);
    if a == b {
      PrintedInjective(x, y);
    }
  }
}
