/** The status of a time-lock as its own history tells it: destroyed, expired or
    active after every run of the engine. */
module LockStatus {
  import opened Text
  import opened TimeLock

  /** No operation of the run makes a lock of that identifier. */
  ghost predicate NotMade(run: seq<Timed>, id: LockId) {
    forall t :: t in run ==> !(t.action.Encrypt? && t.action.id == id)
  }

  // ------------------------------------------------------- Until when a key is stored

  /** The stored slot of one lock. One that is past its deadline stays until a cleanup
      pass or a request for its key meets it. */
  function NextKept(slot: Option<Slot>, a: Action, id: LockId, now: real): Option<Slot> {
    match a
    case Encrypt(x, key, ttl) => if x == id then Some(Slot(key, now + ttl)) else slot
    case Destroy(x) => if x == id then None else slot
    case ExtendTtl(x, seconds) =>
      if x != id then slot
      else if AsOf(slot, now).Some? then Some(Slot(slot.value.key, slot.value.expiry + seconds)) else None
    case Decrypt(x) => if x == id then AsOf(slot, now) else slot
    case GetStatus(x) => if x == id then AsOf(slot, now) else slot
    case RemoveExpired => AsOf(slot, now)
  }

  function KeptOf(slot: Option<Slot>, id: LockId, run: seq<Timed>): Option<Slot>
    decreases |run|
  {
    if run == [] then slot else KeptOf(NextKept(slot, run[0].action, id, run[0].at), id, run[1..])
  }

  lemma StepKeeps(e: Engine, a: Action, id: LockId, now: real)
    requires Recorded(e)
    ensures Stored(Apply(e, a, now).keys, id) == NextKept(Stored(e.keys, id), a, id, now)
  {
  }

  /** Every run stores and drops each key as that lock's own history says. */
  lemma {:induction false} EveryRunKeeps(e: Engine, id: LockId, run: seq<Timed>)
    requires Recorded(e)
    ensures Stored(RunOf(e, run).keys, id) == KeptOf(Stored(e.keys, id), id, run)
    decreases |run|
  {
    if run != [] {
      StepKeeps(e, run[0].action, id, run[0].at);
      ApplyRecorded(e, run[0].action, run[0].at);
      EveryRunKeeps(Apply(e, run[0].action, run[0].at), id, run[1..]);
    }
  }

  // ------------------------------------------------------- Destroyed

  /** A destroy of the run meets the key still stored. */
  ghost predicate DestroyedIn(slot: Option<Slot>, id: LockId, run: seq<Timed>) {
    exists i :: 0 <= i < |run| && run[i].action == Destroy(id) && KeptOf(slot, id, run[..i]).Some?
  }

  /** A decrypt of the run does not get the key. */
  ghost predicate MissedIn(slot: Option<Slot>, id: LockId, run: seq<Timed>) {
    exists i :: 0 <= i < |run| && run[i].action == Decrypt(id) && AsOf(KeptOf(slot, id, run[..i]), run[i].at).None?
  }

  lemma HistoryCons(slot: Option<Slot>, id: LockId, run: seq<Timed>)
    requires run != []
    ensures var next := NextKept(slot, run[0].action, id, run[0].at);
            && (DestroyedIn(slot, id, run) <==>
                  (run[0].action == Destroy(id) && slot.Some?) || DestroyedIn(next, id, run[1..]))
            && (MissedIn(slot, id, run) <==>
                  (run[0].action == Decrypt(id) && AsOf(slot, run[0].at).None?) || MissedIn(next, id, run[1..]))
  {
    var next := NextKept(slot, run[0].action, id, run[0].at);
    forall i | 0 < i < |run|
      ensures run[i] == run[1..][i - 1] && KeptOf(slot, id, run[..i]) == KeptOf(next, id, run[1..][..i - 1])
    {
      assert run[..i][1..] == run[1..][..i - 1];
    }
    assert KeptOf(slot, id, run[..0]) == slot;
    if DestroyedIn(next, id, run[1..]) {
      var j :| 0 <= j < |run[1..]| && run[1..][j].action == Destroy(id) && KeptOf(next, id, run[1..][..j]).Some?;
      assert run[j + 1].action == Destroy(id);
    }
    if MissedIn(next, id, run[1..]) {
      var j :| 0 <= j < |run[1..]| && run[1..][j].action == Decrypt(id)
               && AsOf(KeptOf(next, id, run[1..][..j]), run[1..][j].at).None?;
      assert run[j + 1].action == Decrypt(id);
    }
  }

  /** The recorded status says whether a destroy met the key or a decrypt missed it. */
  lemma {:induction false} RecordedStatus(e: Engine, id: LockId, run: seq<Timed>)
    requires Recorded(e) && id in e.metadata && NotMade(run, id)
    ensures id in RunOf(e, run).metadata
    ensures var kept, status := Stored(e.keys, id), e.metadata[id].status;
            RunOf(e, run).metadata[id].status ==
              if status == Destroyed || DestroyedIn(kept, id, run) then Destroyed
              else if status == Expired || MissedIn(kept, id, run) then Expired else Active
    ensures RunOf(e, run).metadata[id].createdAt == e.metadata[id].createdAt
    decreases |run|
  {
    if run != [] {
      var e1 := Apply(e, run[0].action, run[0].at);
      assert run[0] in run && NotMade(run[1..], id);
      ApplyRecorded(e, run[0].action, run[0].at);
      StepKeeps(e, run[0].action, id, run[0].at);
      StepStatus(e, run[0].action, id, run[0].at);
      RecordedStatus(e1, id, run[1..]);
      HistoryCons(Stored(e.keys, id), id, run);
    }
  }

  lemma StepStatus(e: Engine, a: Action, id: LockId, now: real)
    requires Recorded(e) && id in e.metadata && !(a.Encrypt? && a.id == id)
    ensures id in Apply(e, a, now).metadata
    ensures Apply(e, a, now).metadata[id].createdAt == e.metadata[id].createdAt
    ensures Apply(e, a, now).metadata[id].status ==
              if a == Destroy(id) && Stored(e.keys, id).Some? then Destroyed
              else if a == Decrypt(id) && e.metadata[id].status != Destroyed && Live(e.keys, id, now).None? then Expired
              else e.metadata[id].status
  {
  }

  // ------------------------------------------------------- The status

  /** Since it was made, and as long as its identifier is not used again, a lock is
      destroyed if a destroy met its key, else active up to its deadline, else expired. */
  lemma StatusSince(e: Engine, id: LockId, key: Key, ttl: real, made: real, run: seq<Timed>, until: real)
    requires Recorded(e) && NotMade(run, id) && Monotone(run, made, until)
    ensures var slot := Some(Slot(key, made + ttl));
            StatusOf(RunOf(Apply(e, Encrypt(id, key, ttl), made), run), id, until) ==
              if DestroyedIn(slot, id, run) then Destroyed
              else if AsOf(LifeOf(slot, id, run), until).Some? then Active else Expired
  {
    var e1, slot := Apply(e, Encrypt(id, key, ttl), made), Some(Slot(key, made + ttl));
    ApplyRecorded(e, Encrypt(id, key, ttl), made);
    RecordedStatus(e1, id, run);
    RunsKeepRecords(e1, run);
    EveryRunFollowsLives(e1, slot, id, run, made, until);
    assert Live(RunOf(e1, run).keys, id, until) == AsOf(LifeOf(slot, id, run), until);
  }

  lemma {:induction false} NeverMade(e: Engine, id: LockId, run: seq<Timed>)
    requires Recorded(e) && id !in e.metadata && NotMade(run, id)
    ensures id !in RunOf(e, run).metadata
    decreases |run|
  {
    if run != [] {
      assert run[0] in run && NotMade(run[1..], id);
      ApplyRecorded(e, run[0].action, run[0].at);
      NeverMade(Apply(e, run[0].action, run[0].at), id, run[1..]);
    }
  }

  lemma {:induction false} RunOfParts(e: Engine, run: seq<Timed>, k: nat)
    requires k < |run|
    ensures RunOf(e, run) == RunOf(Apply(RunOf(e, run[..k]), run[k].action, run[k].at), run[k + 1..])
    decreases |run|
  {
    if k > 0 {
      RunOfParts(Apply(e, run[0].action, run[0].at), run[1..], k - 1);
      assert run[1..][..k - 1] == run[..k][1..] && run[1..][k..] == run[k + 1..];
    }
  }

  lemma {:induction false} MonotoneRest(run: seq<Timed>, k: nat, from: real, until: real)
    requires k < |run| && Monotone(run, from, until)
    ensures Monotone(run[k + 1..], run[k].at, until)
    decreases |run|
  {
    if k > 0 {
      MonotoneRest(run[1..], k - 1, run[0].at, until);
      assert run[1..][k..] == run[k + 1..];
    }
  }

  /** Operation k is the last to make a lock of that identifier. */
  ghost predicate LastMade(run: seq<Timed>, id: LockId, k: nat) {
    k < |run| && run[k].action.Encrypt? && run[k].action.id == id && NotMade(run[k + 1..], id)
  }

  /** After every run of a new engine: a lock that was never made is reported as
      destroyed; any other is destroyed exactly if a destroy since then met its key,
      expired exactly if none did and its deadline is over, and active otherwise. */
  lemma StatusAfterRun(run: seq<Timed>, id: LockId, from: real, until: real)
    requires Monotone(run, from, until)
    ensures NotMade(run, id) ==> StatusOf(RunOf(Engine(map[], map[]), run), id, until) == Destroyed
    ensures forall k: nat :: LastMade(run, id, k) ==>
              var slot := Some(Slot(run[k].action.key, run[k].at + run[k].action.ttl));
              var status := StatusOf(RunOf(Engine(map[], map[]), run), id, until);
              && (status == Destroyed <==> DestroyedIn(slot, id, run[k + 1..]))
              && (status == Expired <==>
                    !DestroyedIn(slot, id, run[k + 1..]) && AsOf(LifeOf(slot, id, run[k + 1..]), until).None?)
  {
    var empty := Engine(map[], map[]);
    if NotMade(run, id) {
      NeverMade(empty, id, run);
    }
    forall k: nat | LastMade(run, id, k)
      ensures var slot := Some(Slot(run[k].action.key, run[k].at + run[k].action.ttl));
              StatusOf(RunOf(empty, run), id, until) ==
                if DestroyedIn(slot, id, run[k + 1..]) then Destroyed
                else if AsOf(LifeOf(slot, id, run[k + 1..]), until).Some? then Active else Expired
    {
      RunOfParts(empty, run, k);
      MonotoneRest(run, k, from, until);
      RunsKeepRecords(empty, run[..k]);
      StatusSince(RunOf(empty, run[..k]), id, run[k].action.key, run[k].action.ttl, run[k].at, run[k + 1..], until);
    }
  }
}
