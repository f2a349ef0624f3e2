/** `unlock_proposal` with its time-lock branch: shares, then the lock. */
module TimedUnlock {
  import opened Text
  import opened Encoding
  import B = Boardroom
  import S = SecretSharing
  import T = TimeLock
  import L = LockStatus

  /** What is split for a time-locked proposal, once parsed. */
  datatype Sealed = Sealed(ciphertext: Bytes, nonce: Bytes, lockId: T.LockId, contentHash: string)

  datatype Json = Json(dump: Sealed -> string, parse: string -> Option<Sealed>)
  {
    ghost predicate Laws() {
      forall x :: parse(dump(x)) == Some(x) && dump(x) != ""
    }
  }

  /** A lock that `create_proposal` made. */
  datatype Lock = Lock(id: T.LockId, key: T.Key, nonce: Bytes, ttl: real, made: real)

  function Seal(cr: S.Crypto, text: string, lock: Lock): Sealed {
    Sealed(cr.encrypt(lock.key, lock.nonce, cr.utf8(text)), lock.nonce, lock.id, cr.sha256(cr.utf8(text)))
  }

  /** `decrypt`, given the key it found. */
  function Decrypted(cr: S.Crypto, sealed: Sealed, key: Option<T.Key>): Option<string> {
    if key.None? then None
    else
      var data := cr.decrypt(key.value, sealed.nonce, sealed.ciphertext);
      if data.None? || cr.fromUtf8(data.value).None? || cr.sha256(data.value) != sealed.contentHash then None
      else cr.fromUtf8(data.value)
  }

  datatype Outcome =
    | Refused(yielded: nat) | NotReconstructed | Expired | Destroyed | NotDecrypted | Content(text: string)

  /** The time-lock branch: the status at one time, the key a moment later. */
  function Unsealed(text: string, cr: S.Crypto, json: Json, e: T.Engine, id: T.LockId, look: real,
                    open: real): Outcome {
    match T.StatusOf(e, id, look)
    case Expired => Outcome.Expired
    case Destroyed => Outcome.Destroyed
    case Active =>
      var sealed := json.parse(text);
      if sealed.None? then NotDecrypted
      else
        var keys := T.Apply(e, T.GetStatus(id), look).keys;
        var content := Decrypted(cr, sealed.value, T.KeyOf(keys, sealed.value.lockId, open));
        if content.None? then Outcome.Expired else Content(content.value)
  }

  /** `unlock_proposal`, up to the watermark. */
  function UnlockProposal(s: B.State, cr: S.Crypto, p: nat, json: Json, e: T.Engine, lock: Option<T.LockId>,
                          look: real, open: real): Outcome
    requires p > 0
  {
    match B.Unlock(s, cr, p)
    case Forbidden(n) => Refused(n)
    case ReconstructionFailed => NotReconstructed
    case Content(text) => if lock.None? then Content(text) else Unsealed(text, cr, json, e, lock.value, look, open)
  }

  /** The branch for a sealed text: the original comes back, also when it is empty,
      exactly while the key is live; a destroyed lock and an expired one differ. */
  lemma UnsealedIff(cr: S.Crypto, json: Json, text: string, lock: Lock, e: T.Engine, look: real, open: real)
    requires cr.Laws() && json.Laws() && T.Recorded(e) && look <= open
    requires T.KeyOf(e.keys, lock.id, open).Some? ==> T.KeyOf(e.keys, lock.id, open).value == lock.key
    ensures Unsealed(json.dump(Seal(cr, text, lock)), cr, json, e, lock.id, look, open) ==
              if T.KeyOf(e.keys, lock.id, open).Some? then Content(text)
              else if T.StatusOf(e, lock.id, look) == T.Destroyed then Outcome.Destroyed else Outcome.Expired
  {
  }

  /** The engine after the lock was made and a run without another lock of that
      identifier. */
  ghost predicate Locked(e: T.Engine, e0: T.Engine, lock: Lock, run: seq<T.Timed>, look: real) {
    && e == T.RunOf(T.Apply(e0, T.Encrypt(lock.id, lock.key, lock.ttl), lock.made), run)
    && T.Recorded(e0) && T.Monotone(run, lock.made, look)
    && L.NotMade(run, lock.id)
  }

  /** The deadline the lock has reached in that run, if it was not destroyed. */
  ghost function Life(lock: Lock, run: seq<T.Timed>): Option<T.Slot> {
    T.LifeOf(Some(T.Slot(lock.key, lock.made + lock.ttl)), lock.id, run)
  }

  /** A destroy in that run met the key still stored. */
  ghost predicate WasDestroyed(lock: Lock, run: seq<T.Timed>) {
    L.DestroyedIn(Some(T.Slot(lock.key, lock.made + lock.ttl)), lock.id, run)
  }

  lemma LockedKey(e: T.Engine, e0: T.Engine, lock: Lock, run: seq<T.Timed>, look: real, open: real)
    requires Locked(e, e0, lock, run, look) && look <= open
    ensures T.Recorded(e)
    ensures T.KeyOf(e.keys, lock.id, open) == if T.AsOf(Life(lock, run), open).Some? then Some(lock.key) else None
  {
    var e1 := T.Apply(e0, T.Encrypt(lock.id, lock.key, lock.ttl), lock.made);
    T.ApplyRecorded(e0, T.Encrypt(lock.id, lock.key, lock.ttl), lock.made);
    T.RunsKeepRecords(e1, run);
    T.EveryRunFollowsLives(e1, Some(T.Slot(lock.key, lock.made + lock.ttl)), lock.id, run, lock.made, look);
    T.LifeKeepsKey(Some(T.Slot(lock.key, lock.made + lock.ttl)), lock.id, lock.key, run);
    LaterLive(e.keys, lock.id, Life(lock, run), look, open);
  }

  lemma LaterLive(keys: T.Keys, id: T.LockId, slot: Option<T.Slot>, look: real, open: real)
    requires look <= open && T.Live(keys, id, look) == T.AsOf(slot, look)
    ensures T.Live(keys, id, open) == T.AsOf(slot, open)
  {
  }

  /** After every run of the engine since the lock was made. */
  lemma UnsealedSince(cr: S.Crypto, json: Json, text: string, lock: Lock, e: T.Engine, e0: T.Engine,
                      run: seq<T.Timed>, look: real, open: real)
    requires cr.Laws() && json.Laws() && Locked(e, e0, lock, run, look) && look <= open
    ensures Unsealed(json.dump(Seal(cr, text, lock)), cr, json, e, lock.id, look, open) ==
              if T.AsOf(Life(lock, run), open).Some? then Content(text)
              else if WasDestroyed(lock, run) then Outcome.Destroyed else Outcome.Expired
  {
    LockedKey(e, e0, lock, run, look, open);
    L.StatusSince(e0, lock.id, lock.key, lock.ttl, lock.made, run, look);
    UnsealedIff(cr, json, text, lock, e, look, open);
  }

  /** In every reachable state of a proposal, and after every run of the engine since
      the lock was made: below the threshold it is refused; with enough shares the
      original content comes back, empty or not, exactly while the lock's deadline is
      not over and the lock is not destroyed; afterwards it is reported as destroyed
      exactly if a destroy met its key still stored, and else as expired. */
  lemma TimedUnlockIff(s: B.State, events: seq<B.Event>, j: B.Job, json: Json, text: string, lock: Lock,
                       e: T.Engine, e0: T.Engine, run: seq<T.Timed>, look: real, open: real)
    requires B.Fresh(s) && B.ValidJob(j) && s.threshold == j.t
    requires B.AllAllowed(s, events) && B.AllHandOut(s, events, B.JobShares(j))
    requires json.Laws() && j.content == json.dump(Seal(j.cr, text, lock))
    requires Locked(e, e0, lock, run, look) && look <= open
    ensures var r := B.RunOf(s, events);
            UnlockProposal(r, j.cr, j.p, json, e, Some(lock.id), look, open) ==
              if B.Count(r.rows) < j.t then Refused(B.Count(r.rows))
              else if T.AsOf(Life(lock, run), open).Some? then Content(text)
              else if WasDestroyed(lock, run) then Outcome.Destroyed else Outcome.Expired
  {
    B.UnlockIffThreshold(s, events, j);
    UnsealedSince(j.cr, json, text, lock, e, e0, run, look, open);
  }

  /** Without a time-lock an empty content is never returned. */
  lemma PlainUnlockIff(s: B.State, events: seq<B.Event>, j: B.Job, json: Json, e: T.Engine, look: real, open: real)
    requires B.Fresh(s) && B.ValidJob(j) && s.threshold == j.t
    requires B.AllAllowed(s, events) && B.AllHandOut(s, events, B.JobShares(j))
    ensures var r := B.RunOf(s, events);
            UnlockProposal(r, j.cr, j.p, json, e, None, look, open) ==
              if B.Count(r.rows) < j.t then Refused(B.Count(r.rows))
              else if j.content == "" then NotReconstructed else Content(j.content)
  {
    B.UnlockIffThreshold(s, events, j);
  }

  // ------------------------------------------------------- Shares and texts of any origin

  /** The lock is recorded, not destroyed, and its key can be had. */
  ghost predicate Open(e: T.Engine, id: T.LockId, at: real) {
    && id in e.metadata && e.metadata[id].status != T.Destroyed
    && id in e.keys && at <= e.keys[id].expiry
  }

  /** With that key the sealed bytes are this text, and they hash to the sealed hash. */
  ghost predicate Holds(cr: S.Crypto, sealed: Sealed, key: T.Key, text: string) {
    exists data :: cr.decrypt(key, sealed.nonce, sealed.ciphertext) == Some(data)
                   && cr.fromUtf8(data) == Some(text) && cr.sha256(data) == sealed.contentHash
  }

  /** What a reconstructed text stands for behind an open lock. */
  ghost predicate Yields(cr: S.Crypto, json: Json, e: T.Engine, inner: string, open: real, text: string) {
    exists sealed :: && json.parse(inner) == Some(sealed)
                     && sealed.lockId in e.keys && open <= e.keys[sealed.lockId].expiry
                     && Holds(cr, sealed, e.keys[sealed.lockId].key, text)
  }

  /** Whatever was split and sealed, by whomever: behind a time-lock a text is returned
      exactly when the lock is open at the look, and the reconstructed text parses to
      bytes that the stored key opens to this text and that hash to the sealed hash. */
  lemma UnsealedReturnsIff(inner: string, cr: S.Crypto, json: Json, e: T.Engine, id: T.LockId, look: real, open: real,
                           text: string)
    ensures Unsealed(inner, cr, json, e, id, look, open) == Content(text) <==>
            Open(e, id, look) && Yields(cr, json, e, inner, open, text)
    ensures Unsealed(inner, cr, json, e, id, look, open) == NotDecrypted <==>
            Open(e, id, look) && json.parse(inner) == None
  {
  }

  /** What the request makes of a reconstruction. */
  ghost predicate Shown(r: S.Result<Option<string>>, cr: S.Crypto, json: Json, e: T.Engine, lock: Option<T.LockId>,
                        look: real, open: real, text: string) {
    && r.Ok? && r.value.Some? && r.value.value != ""
    && if lock.None? then text == r.value.value
       else Open(e, lock.value, look) && Yields(cr, json, e, r.value.value, open, text)
  }

  lemma UnlockIs(s: B.State, cr: S.Crypto, p: nat)
    requires p > 0
    ensures var yielded := B.Submitted(B.Fetched(s.rows));
            B.Unlock(s, cr, p) ==
              if |yielded| < s.threshold then B.Forbidden(|yielded|)
              else B.Answer(S.Reconstruct(cr, B.SharesOf(yielded[..s.threshold]), None, p))
  {
    var yielded := B.Submitted(B.Fetched(s.rows));
    if |yielded| >= s.threshold {
      B.FirstOf(yielded, s.threshold);
    }
  }

  lemma AnswerShown(s: B.State, r: S.Result<Option<string>>, cr: S.Crypto, p: nat, json: Json, e: T.Engine,
                    lock: Option<T.LockId>, look: real, open: real, text: string)
    requires p > 0
    ensures B.Unlock(s, cr, p) == B.Answer(r) ==>
              (UnlockProposal(s, cr, p, json, e, lock, look, open) == Content(text) <==>
                 Shown(r, cr, json, e, lock, look, open, text))
  {
    if lock.Some? && r.Ok? && r.value.Some? {
      UnsealedReturnsIff(r.value.value, cr, json, e, lock.value, look, open, text);
    }
  }

  /** The whole request, in every state of a proposal and of the engine: a text is
      returned exactly when enough shares are submitted and the first threshold ones
      reconstruct to it, or to what an open lock and the stored key turn into it. */
  lemma UnlockReturnsIff(s: B.State, cr: S.Crypto, p: nat, json: Json, e: T.Engine, lock: Option<T.LockId>, look: real,
                         open: real, text: string)
    requires p > 0
    ensures var yielded := B.Submitted(B.Fetched(s.rows));
            UnlockProposal(s, cr, p, json, e, lock, look, open) == Content(text) <==>
              && |yielded| >= s.threshold
              && Shown(S.Reconstruct(cr, B.SharesOf(yielded[..s.threshold]), None, p), cr, json, e, lock, look, open,
                       text)
  {
    var yielded := B.Submitted(B.Fetched(s.rows));
    UnlockIs(s, cr, p);
    if |yielded| >= s.threshold {
      AnswerShown(s, S.Reconstruct(cr, B.SharesOf(yielded[..s.threshold]), None, p), cr, p, json, e, lock, look, open,
                  text);
    }
  }
}
