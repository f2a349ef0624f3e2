/** Replay protection of deletion tokens: the cache of processed tokens with
    eviction after twice the validity period, and the expiry check, under an
    explicit clock. */
module TokenCache {
  import opened Text

  type TokenHash = string

  const CLEANUP_INTERVAL: real := 60.0

  datatype Cache = Cache(processed: map<TokenHash, real>, lastCleanup: real)

  /** `_maybe_cleanup` with the age limit `2 * validity`. */
  function Clean(c: Cache, now: real, validity: real): Cache {
    if now - c.lastCleanup < CLEANUP_INTERVAL then c
    else Cache(map h | h in c.processed && c.processed[h] > now - 2.0 * validity :: c.processed[h], now)
  }

  /** `is_expired`; a timestamp that does not parse counts as expired. */
  predicate Expired(stamp: Option<real>, now: real, validity: real) {
    stamp.None? || now - stamp.value > validity
  }

  /** One presentation of a token, with the clock as `process_token` reads it:
      cleanup, expiry check, mark, cleanup. */
  datatype Attempt = Attempt(token: TokenHash, stamp: Option<real>, clean1: real, check: real, mark: real, clean2: real)

  datatype Verdict = Replayed | TooOld | Accepted

  function VerdictOf(c: Cache, a: Attempt, validity: real): Verdict {
    if a.token in Clean(c, a.clean1, validity).processed then Replayed
    else if Expired(a.stamp, a.check, validity) then TooOld
    else Accepted
  }

  function Marked(c: Cache, a: Attempt, validity: real): Cache {
    var b := Clean(c, a.clean1, validity);
    Cache(b.processed[a.token := a.mark], b.lastCleanup)
  }

  function After(c: Cache, a: Attempt, validity: real): Cache {
    if VerdictOf(c, a, validity) == Accepted then Clean(Marked(c, a, validity), a.clean2, validity)
    else Clean(c, a.clean1, validity)
  }

  class ProcessedTokenCache {
    var processed: map<TokenHash, real>
    var lastCleanup: real
    const validity: real

    function State(): Cache
      reads this
    {
      Cache(processed, lastCleanup)
    }

    constructor (validity: real, now: real)
      ensures State() == Cache(map[], now) && this.validity == validity
    {
      processed, lastCleanup, this.validity := map[], now, validity;
    }

    method MaybeCleanup(now: real)
      modifies this
      ensures State() == Clean(old(State()), now, validity)
      ensures now - old(lastCleanup) < 60.0 ==> State() == old(State())
      ensures now - old(lastCleanup) >= 60.0 ==> lastCleanup == now
      ensures now - old(lastCleanup) >= 60.0 ==>
                forall h :: h in processed <==> h in old(processed) && now - old(processed)[h] < 2.0 * validity
    {
      if now - lastCleanup < CLEANUP_INTERVAL {
        return;
      }
      var cutoff := now - 2.0 * validity;
      processed := map h | h in processed && processed[h] > cutoff :: processed[h];
      lastCleanup := now;
    }

    /** The two checks at the head of `process_token`, and the mark. */
    method Admit(a: Attempt) returns (v: Verdict)
      modifies this
      ensures v == VerdictOf(old(State()), a, validity) && State() == After(old(State()), a, validity)
    {
      MaybeCleanup(a.clean1);
      if a.token in processed {
        return Replayed;
      }
      if Expired(a.stamp, a.check, validity) {
        return TooOld;
      }
      processed := processed[a.token := a.mark];
      MaybeCleanup(a.clean2);
      v := Accepted;
    }
  }

  // ------------------------------------------------------- Runs

  ghost predicate InOrder(a: Attempt) {
    a.clean1 <= a.check <= a.mark <= a.clean2
  }

  /** Presentations to one peer on a clock that never goes back; the cache is not
      cleared by hand. */
  ghost predicate Run(caches: seq<Cache>, attempts: seq<Attempt>, validity: real) {
    && |caches| == |attempts| + 1
    && (forall k :: 0 <= k < |attempts| ==>
         InOrder(attempts[k]) && caches[k + 1] == After(caches[k], attempts[k], validity))
    && forall k, l :: 0 <= k < l < |attempts| ==> attempts[k].clean2 <= attempts[l].clean1
  }

  /** The mark made at time m is there, or twice the validity has passed. */
  ghost predicate Remembers(c: Cache, h: TokenHash, m: real, now: real, validity: real) {
    (h in c.processed && c.processed[h] == m) || now >= m + 2.0 * validity
  }

  lemma CleanRemembers(c: Cache, h: TokenHash, m: real, past: real, now: real, validity: real)
    requires Remembers(c, h, m, past, validity) && past <= now
    ensures Remembers(Clean(c, now, validity), h, m, now, validity)
  {
  }

  lemma AttemptRemembers(c: Cache, a: Attempt, h: TokenHash, m: real, past: real, validity: real)
    requires InOrder(a)
    requires Remembers(c, h, m, past, validity) && past <= a.clean1
    requires a.token == h ==> a.stamp.None? || a.stamp.value < m + validity
    ensures a.token == h ==> VerdictOf(c, a, validity) != Accepted
    ensures Remembers(After(c, a, validity), h, m, a.clean2, validity)
  {
  }

  lemma {:induction false} StaysRemembered(caches: seq<Cache>, attempts: seq<Attempt>, validity: real, i: nat, j: nat)
    requires Run(caches, attempts, validity) && i < j <= |attempts|
    requires VerdictOf(caches[i], attempts[i], validity) == Accepted
    requires forall k :: i < k < |attempts| && attempts[k].token == attempts[i].token ==>
               attempts[k].stamp.None? || attempts[k].stamp.value < attempts[i].mark + validity
    ensures Remembers(caches[j], attempts[i].token, attempts[i].mark, attempts[j - 1].clean2, validity)
  {
    var a := attempts[i];
    if j == i + 1 {
      CleanRemembers(Marked(caches[i], a, validity), a.token, a.mark, a.mark, a.clean2, validity);
    } else {
      StaysRemembered(caches, attempts, validity, i, j - 1);
      AttemptRemembers(caches[j - 1], attempts[j - 1], a.token, a.mark, attempts[j - 2].clean2, validity);
    }
  }

  /** Over every run a token passes the replay and expiry checks of a peer at most
      once, if it is stamped less than the validity period ahead of the time it
      was first marked. */
  lemma AcceptedAtMostOnce(caches: seq<Cache>, attempts: seq<Attempt>, validity: real, i: nat, j: nat)
    requires Run(caches, attempts, validity) && i <= j < |attempts| && attempts[i].token == attempts[j].token
    requires VerdictOf(caches[i], attempts[i], validity) == Accepted
    requires VerdictOf(caches[j], attempts[j], validity) == Accepted
    requires forall k :: i < k < |attempts| && attempts[k].token == attempts[i].token ==>
               attempts[k].stamp.None? || attempts[k].stamp.value < attempts[i].mark + validity
    ensures i == j
  {
    if i < j {
      StaysRemembered(caches, attempts, validity, i, j);
      AttemptRemembers(caches[j], attempts[j], attempts[i].token, attempts[i].mark, attempts[j - 1].clean2, validity);
    }
  }

  function AttemptAt(h: TokenHash, stamp: real, now: real): Attempt {
    Attempt(h, Some(stamp), now, now, now, now)
  }

  /** Both presentations, at m and at t, are accepted. */
  ghost predicate AcceptedTwice(c0: Cache, h: TokenHash, stamp: real, m: real, t: real, validity: real) {
    var a, b := AttemptAt(h, stamp, m), AttemptAt(h, stamp, t);
    var c1 := After(c0, a, validity);
    m <= t && VerdictOf(c0, a, validity) == Accepted && VerdictOf(c1, b, validity) == Accepted
  }

  /** A token marked at time m can be accepted again if and only if it is stamped
      at least the validity period ahead of m. */
  lemma SecondAcceptanceIff(h: TokenHash, stamp: real, m: real, validity: real)
    requires validity > 0.0
    ensures stamp >= m + validity <==> exists c0, t :: AcceptedTwice(c0, h, stamp, m, t, validity)
  {
    if stamp >= m + validity {
      TwiceWhenAhead(h, stamp, m, validity);
    } else {
      forall c0, t
        ensures !AcceptedTwice(c0, h, stamp, m, t, validity)
      {
        if AcceptedTwice(c0, h, stamp, m, t, validity) {
          NotTwice(c0, h, stamp, m, t, validity);
        }
      }
    }
  }

  lemma NotTwice(c0: Cache, h: TokenHash, stamp: real, m: real, t: real, validity: real)
    requires AcceptedTwice(c0, h, stamp, m, t, validity)
    ensures stamp >= m + validity
  {
  }

  lemma TwiceWhenAhead(h: TokenHash, stamp: real, m: real, validity: real)
    requires validity > 0.0 && stamp >= m + validity
    ensures exists c0, t :: AcceptedTwice(c0, h, stamp, m, t, validity)
  {
    var t := m + 2.0 * validity;
    var last := if validity < CLEANUP_INTERVAL then m - CLEANUP_INTERVAL + validity else m;
    var c0 := Cache(map[], last);
    var a := AttemptAt(h, stamp, m);
    assert Clean(c0, m, validity) == c0;
    assert After(c0, a, validity) == Cache(map[h := m], last);
    assert h !in Clean(Cache(map[h := m], last), t, validity).processed;
    assert AcceptedTwice(c0, h, stamp, m, t, validity);
  }

  // ------------------------------------------------------- Verdicts over runs

  ghost predicate AcceptedAt(caches: seq<Cache>, attempts: seq<Attempt>, validity: real, k: nat, h: TokenHash)
    requires |caches| == |attempts| + 1
  {
    k < |attempts| && attempts[k].token == h && VerdictOf(caches[k], attempts[k], validity) == Accepted
  }

  /** Every mark was made by an earlier acceptance. */
  lemma {:induction false} MarksAreAcceptances(caches: seq<Cache>, attempts: seq<Attempt>, validity: real, j: nat,
                                               h: TokenHash)
    requires Run(caches, attempts, validity) && caches[0].processed == map[] && j <= |attempts|
    requires h in caches[j].processed
    ensures exists k: nat :: k < j && AcceptedAt(caches, attempts, validity, k, h)
                             && caches[j].processed[h] == attempts[k].mark
  {
    if j > 0 {
      MarkOrigin(caches[j - 1], attempts[j - 1], h, validity);
      if h in caches[j - 1].processed && caches[j - 1].processed[h] == caches[j].processed[h] {
        MarksAreAcceptances(caches, attempts, validity, j - 1, h);
      } else {
        assert AcceptedAt(caches, attempts, validity, j - 1, h);
      }
    }
  }

  lemma MarkOrigin(c: Cache, a: Attempt, h: TokenHash, validity: real)
    requires h in After(c, a, validity).processed
    ensures (h in c.processed && c.processed[h] == After(c, a, validity).processed[h])
         || (a.token == h && VerdictOf(c, a, validity) == Accepted && After(c, a, validity).processed[h] == a.mark)
  {
  }

  /** A mark that is twice the validity and one cleanup interval old is gone by the
      next presentation. */
  ghost predicate Swept(c: Cache, validity: real) {
    forall h :: h in c.processed ==> c.processed[h] > c.lastCleanup - 2.0 * validity
  }

  lemma {:induction false} RunsSweep(caches: seq<Cache>, attempts: seq<Attempt>, validity: real, j: nat)
    requires Run(caches, attempts, validity) && validity > 0.0 && j <= |attempts|
    requires caches[0].processed == map[] && (attempts != [] ==> caches[0].lastCleanup <= attempts[0].clean1)
    ensures Swept(caches[j], validity)
    ensures forall k :: j <= k < |attempts| ==> caches[j].lastCleanup <= attempts[k].clean1
  {
    if j > 0 {
      RunsSweep(caches, attempts, validity, j - 1);
      AfterSwept(caches[j - 1], attempts[j - 1], validity);
    }
  }

  lemma AfterSwept(c: Cache, a: Attempt, validity: real)
    requires validity > 0.0 && InOrder(a) && Swept(c, validity) && c.lastCleanup <= a.clean1
    ensures Swept(After(c, a, validity), validity) && After(c, a, validity).lastCleanup <= a.clean2
  {
  }

  lemma {:induction false} AcceptedStays(caches: seq<Cache>, attempts: seq<Attempt>, validity: real, i: nat, j: nat,
                                         h: TokenHash)
    requires Run(caches, attempts, validity) && i < j <= |attempts| && AcceptedAt(caches, attempts, validity, i, h)
    ensures (h in caches[j].processed && caches[j].processed[h] >= attempts[i].mark)
         || attempts[j - 1].clean2 >= attempts[i].mark + 2.0 * validity
  {
    if j > i + 1 {
      AcceptedStays(caches, attempts, validity, i, j - 1, h);
    }
  }

  /** Over every run from an empty cache: a token is accepted or too old, as its
      timestamp says, unless it was accepted before and is still remembered. It is
      remembered for twice the validity, and at most one cleanup interval longer. */
  lemma VerdictOverRun(caches: seq<Cache>, attempts: seq<Attempt>, validity: real, j: nat)
    requires Run(caches, attempts, validity) && validity > 0.0 && j < |attempts|
    requires caches[0].processed == map[] && caches[0].lastCleanup <= attempts[0].clean1
    ensures var a, v := attempts[j], VerdictOf(caches[j], attempts[j], validity);
            && (v == Accepted ==> a.stamp.Some? && a.check - a.stamp.value <= validity)
            && (v == TooOld ==> a.stamp.None? || a.check - a.stamp.value > validity)
            && ((exists i: nat :: i < j && AcceptedAt(caches, attempts, validity, i, a.token)
                                  && a.clean1 < attempts[i].mark + 2.0 * validity) ==> v == Replayed)
            && (v == Replayed ==>
                  exists i: nat :: i < j && AcceptedAt(caches, attempts, validity, i, a.token)
                                   && a.clean1 < attempts[i].mark + 2.0 * validity + 60.0)
  {
    var a := attempts[j];
    forall i: nat | i < j && AcceptedAt(caches, attempts, validity, i, a.token)
                    && a.clean1 < attempts[i].mark + 2.0 * validity
      ensures VerdictOf(caches[j], a, validity) == Replayed
    {
      AcceptedStays(caches, attempts, validity, i, j, a.token);
    }
    if VerdictOf(caches[j], a, validity) == Replayed {
      RunsSweep(caches, attempts, validity, j);
      MarksAreAcceptances(caches, attempts, validity, j, a.token);
    }
  }
}
