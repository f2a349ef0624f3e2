/** The time-lock key store and engine with an explicit clock. */
module TimeLock {
  import opened Text
  import Encoding

  type LockId = string
  type Key = Encoding.Bytes

  datatype Slot = Slot(key: Key, expiry: real)

  type Keys = map<LockId, Slot>

  datatype Status = Active | Expired | Destroyed

  datatype Metadata = Metadata(createdAt: real, expiresAt: real, ttl: real, status: Status)

  /** Keys and metadata of the engine. */
  datatype Engine = Engine(keys: Keys, metadata: map<LockId, Metadata>)

  // ------------------------------------------------------- Operations on values

  /** `_cleanup_expired` */
  function Cleanup(keys: Keys, now: real): Keys {
    map id | id in keys && now <= keys[id].expiry :: keys[id]
  }

  predicate IsLive(keys: Keys, id: LockId, now: real) {
    id in keys && now <= keys[id].expiry
  }

  /** What `get_key` returns. */
  function KeyOf(keys: Keys, id: LockId, now: real): Option<Key> {
    if IsLive(keys, id, now) then Some(keys[id].key) else None
  }

  /** `get_key` drops the entry it finds expired. */
  function AfterGet(keys: Keys, id: LockId, now: real): Keys {
    if IsLive(keys, id, now) then keys else keys - {id}
  }

  datatype Action =
    | Encrypt(id: LockId, key: Key, ttl: real)
    | Decrypt(id: LockId)
    | Destroy(id: LockId)
    | ExtendTtl(id: LockId, seconds: real)
    | GetStatus(id: LockId)
    | RemoveExpired

  function SetStatus(m: map<LockId, Metadata>, id: LockId, status: Status): map<LockId, Metadata> {
    if id in m then m[id := m[id].(status := status)] else m
  }

  /** Each operation of the engine as one step at time `now`. */
  function Apply(e: Engine, a: Action, now: real): Engine {
    match a
    case Encrypt(id, key, ttl) =>
      Engine(e.keys[id := Slot(key, now + ttl)], e.metadata[id := Metadata(now, now + ttl, ttl, Active)])
    case Decrypt(id) =>
      var keys := AfterGet(e.keys, id, now);
      if IsLive(e.keys, id, now) || id !in e.metadata || e.metadata[id].status == Destroyed
      then Engine(keys, e.metadata)
      else Engine(keys, SetStatus(e.metadata, id, Expired))
    case Destroy(id) =>
      if id in e.keys then Engine(e.keys - {id}, SetStatus(e.metadata, id, Destroyed)) else e
    case ExtendTtl(id, seconds) =>
      if !IsLive(e.keys, id, now) then e.(keys := AfterGet(e.keys, id, now))
      else
        var expiry := e.keys[id].expiry + seconds;
        Engine(e.keys[id := e.keys[id].(expiry := expiry)],
               if id in e.metadata
               then e.metadata[id := e.metadata[id].(expiresAt := expiry, ttl := e.metadata[id].ttl + seconds)]
               else e.metadata)
    case GetStatus(id) =>
      if id !in e.metadata || e.metadata[id].status == Destroyed then e else e.(keys := AfterGet(e.keys, id, now))
    case RemoveExpired => e.(keys := Cleanup(e.keys, now))
  }

  function StatusOf(e: Engine, id: LockId, now: real): Status {
    if id !in e.metadata || e.metadata[id].status == Destroyed then Destroyed
    else if IsLive(e.keys, id, now) then Active else Expired
  }

  // ------------------------------------------------------- The engine as a class

  class TimeLockEngine {
    var keys: Keys
    var metadata: map<LockId, Metadata>

    function State(): Engine
      reads this
    {
      Engine(keys, metadata)
    }

    constructor ()
      ensures State() == Engine(map[], map[]) && Recorded(State())
    {
      keys, metadata := map[], map[];
    }

    /** Collects the expired identifiers, then wipes and deletes each. */
    method CleanupExpired(now: real)
      modifies this
      ensures State() == Apply(old(State()), RemoveExpired, now)
    {
      var expired := set id | id in keys && now > keys[id].expiry;
      ghost var before := keys;
      while expired != {}
        invariant metadata == old(metadata)
        invariant forall id :: id in keys <==> id in before && (id in expired || now <= before[id].expiry)
        invariant forall id :: id in expired ==> id in before && now > before[id].expiry
        invariant forall id :: id in keys ==> keys[id] == before[id]
        decreases expired
      {
        var id :| id in expired;
        keys := keys - {id};
        expired := expired - {id};
      }
      assert keys == Cleanup(before, now);
    }

    method GetKey(id: LockId, now: real) returns (key: Option<Key>)
      modifies this`keys
      ensures key == KeyOf(old(keys), id, now) && keys == AfterGet(old(keys), id, now)
    {
      if id !in keys {
        assert keys - {id} == keys;
        return None;
      }
      if now > keys[id].expiry {
        keys := keys - {id};
        return None;
      }
      key := Some(keys[id].key);
    }

    method EncryptWith(id: LockId, key: Key, ttl: real, now: real)
      modifies this
      ensures State() == Apply(old(State()), Encrypt(id, key, ttl), now)
    {
      keys := keys[id := Slot(key, now + ttl)];
      metadata := metadata[id := Metadata(now, now + ttl, ttl, Active)];
    }

    /** The key with which `decrypt` decrypts. */
    method DecryptKey(id: LockId, now: real) returns (key: Option<Key>)
      modifies this
      ensures key == KeyOf(old(keys), id, now) && State() == Apply(old(State()), Decrypt(id), now)
    {
      key := GetKey(id, now);
      if key.None? && id in metadata && metadata[id].status != Destroyed {
        metadata := metadata[id := metadata[id].(status := Expired)];
      }
    }

    method DestroyLock(id: LockId, now: real) returns (success: bool)
      modifies this
      ensures success <==> id in old(keys)
      ensures State() == Apply(old(State()), Destroy(id), now)
    {
      success := id in keys;
      if success {
        keys := keys - {id};
        if id in metadata {
          metadata := metadata[id := metadata[id].(status := Destroyed)];
        }
      }
    }

    method Extend(id: LockId, seconds: real, now: real) returns (success: bool)
      modifies this
      ensures success <==> IsLive(old(keys), id, now)
      ensures State() == Apply(old(State()), ExtendTtl(id, seconds), now)
    {
      var key := GetKey(id, now);
      if key.None? {
        return false;
      }
      var expiry := keys[id].expiry + seconds;
      keys := keys[id := Slot(key.value, expiry)];
      if id in metadata {
        metadata := metadata[id := metadata[id].(expiresAt := expiry, ttl := metadata[id].ttl + seconds)];
      }
      success := true;
    }

    method Status(id: LockId, now: real) returns (status: Status)
      modifies this
      ensures status == StatusOf(old(State()), id, now) && State() == Apply(old(State()), GetStatus(id), now)
    {
      if id !in metadata || metadata[id].status == Destroyed {
        return Destroyed;
      }
      var key := GetKey(id, now);
      status := if key.Some? then Active else Expired;
    }
  }

  // ------------------------------------------------------- One lock at a time

  function Stored(keys: Keys, id: LockId): Option<Slot> {
    if id in keys then Some(keys[id]) else None
  }

  /** A slot counts up to and including its expiry. */
  function AsOf(slot: Option<Slot>, now: real): Option<Slot> {
    if slot.Some? && now <= slot.value.expiry then slot else None
  }

  function Live(keys: Keys, id: LockId, now: real): Option<Slot> {
    AsOf(Stored(keys, id), now)
  }

  /** The life of one lock: it begins with `encrypt`, ends with `destroy`, and moves
      its deadline when `extend_ttl` comes in time. */
  function Next(slot: Option<Slot>, a: Action, id: LockId, now: real): Option<Slot> {
    match a
    case Encrypt(x, key, ttl) => if x == id then Some(Slot(key, now + ttl)) else slot
    case Destroy(x) => if x == id then None else slot
    case ExtendTtl(x, seconds) =>
      if x == id && AsOf(slot, now).Some? then Some(Slot(slot.value.key, slot.value.expiry + seconds)) else slot
    case _ => slot
  }

  /** An operation on the engine moves each lock as that lock's own life does. */
  lemma StepIsLocal(e: Engine, a: Action, id: LockId, now: real)
    ensures Live(Apply(e, a, now).keys, id, now) == AsOf(Next(Live(e.keys, id, now), a, id, now), now)
  {
  }

  // ------------------------------------------------------- Runs

  datatype Timed = Timed(action: Action, at: real)

  ghost predicate Monotone(run: seq<Timed>, from: real, until: real) {
    && from <= until
    && (run != [] ==> from <= run[0].at && Monotone(run[1..], run[0].at, until))
  }

  function RunOf(e: Engine, run: seq<Timed>): Engine
    decreases |run|
  {
    if run == [] then e else RunOf(Apply(e, run[0].action, run[0].at), run[1..])
  }

  function LifeOf(slot: Option<Slot>, id: LockId, run: seq<Timed>): Option<Slot>
    decreases |run|
  {
    if run == [] then slot else LifeOf(Next(slot, run[0].action, id, run[0].at), id, run[1..])
  }

  /** After every run, at every later time, the store holds a live key for a lock
      exactly when that lock's own life does, with the same deadline. */
  lemma {:induction false} EveryRunFollowsLives(e: Engine, slot: Option<Slot>, id: LockId, run: seq<Timed>,
                                                from: real, until: real)
    requires Monotone(run, from, until) && Live(e.keys, id, from) == AsOf(slot, from)
    ensures Live(RunOf(e, run).keys, id, until) == AsOf(LifeOf(slot, id, run), until)
    decreases |run|
  {
    if run != [] {
      var x, now := run[0].action, run[0].at;
      StepIsLocal(e, x, id, now);
      EveryRunFollowsLives(Apply(e, x, now), Next(slot, x, id, now), id, run[1..], now, until);
    }
  }

  /** A key that has expired or was destroyed never comes back, as long as its lock
      identifier is not used for another lock. */
  lemma {:induction false} DeadStaysDead(e: Engine, id: LockId, run: seq<Timed>, from: real, until: real)
    requires KeyOf(e.keys, id, from) == None && Monotone(run, from, until)
    requires forall t :: t in run ==> !(t.action.Encrypt? && t.action.id == id)
    ensures KeyOf(RunOf(e, run).keys, id, until) == None
  {
    EveryRunFollowsLives(e, None, id, run, from, until);
    NoLifeWithoutEncrypt(id, run);
  }

  lemma {:induction false} NoLifeWithoutEncrypt(id: LockId, run: seq<Timed>)
    requires forall t :: t in run ==> !(t.action.Encrypt? && t.action.id == id)
    ensures LifeOf(None, id, run) == None
    decreases |run|
  {
    if run != [] {
      assert run[0] in run;
      NoLifeWithoutEncrypt(id, run[1..]);
    }
  }

  /** The same holds from the moment of `destroy` on. */
  lemma DestroyedStaysDead(e: Engine, id: LockId, at: real, run: seq<Timed>, until: real)
    requires Monotone(run, at, until)
    requires forall t :: t in run ==> !(t.action.Encrypt? && t.action.id == id)
    ensures KeyOf(RunOf(Apply(e, Destroy(id), at), run).keys, id, until) == None
  {
    StepIsLocal(e, Destroy(id), id, at);
    DeadStaysDead(Apply(e, Destroy(id), at), id, run, at, until);
  }

  /** As long as the identifier is not used again, a lock keeps its key. */
  lemma {:induction false} LifeKeepsKey(slot: Option<Slot>, id: LockId, key: Key, run: seq<Timed>)
    requires slot.Some? ==> slot.value.key == key
    requires forall t :: t in run ==> !(t.action.Encrypt? && t.action.id == id)
    ensures LifeOf(slot, id, run).Some? ==> LifeOf(slot, id, run).value.key == key
    decreases |run|
  {
    if run != [] {
      assert run[0] in run;
      LifeKeepsKey(Next(slot, run[0].action, id, run[0].at), id, key, run[1..]);
    }
  }

  // ------------------------------------------------------- Metadata

  /** Stored keys are recorded as active with their own deadline, and every recorded
      deadline is the creation time plus the time to live. */
  ghost predicate Recorded(e: Engine) {
    && (forall id :: id in e.keys ==>
          && id in e.metadata && e.metadata[id].status == Active && e.metadata[id].expiresAt == e.keys[id].expiry)
    && forall id :: id in e.metadata ==> e.metadata[id].expiresAt == e.metadata[id].createdAt + e.metadata[id].ttl
  }

  lemma ApplyRecorded(e: Engine, a: Action, now: real)
    requires Recorded(e)
    ensures Recorded(Apply(e, a, now))
  {
  }

  /** Over every run keys and metadata agree, and the status is active exactly while
      the key can be had. */
  lemma {:induction false} RunsKeepRecords(e: Engine, run: seq<Timed>)
    requires Recorded(e)
    ensures Recorded(RunOf(e, run))
    ensures forall id, now :: StatusOf(RunOf(e, run), id, now) == Active <==> KeyOf(RunOf(e, run).keys, id, now).Some?
    decreases |run|
  {
    if run != [] {
      ApplyRecorded(e, run[0].action, run[0].at);
      RunsKeepRecords(Apply(e, run[0].action, run[0].at), run[1..]);
    }
  }

  // ------------------------------------------------------- Cleanup passes

  /** What the key requests of a run return, in order: those of `decrypt` and of
      `extend_ttl`. */
  function Requests(e: Engine, run: seq<Timed>): seq<Option<Key>>
    decreases |run|
  {
    if run == [] then []
    else
      (if run[0].action.Decrypt? || run[0].action.ExtendTtl? then [KeyOf(e.keys, run[0].action.id, run[0].at)] else [])
      + Requests(Apply(e, run[0].action, run[0].at), run[1..])
  }

  lemma {:induction false} RunOfSnoc(e: Engine, run: seq<Timed>, x: Timed)
    ensures RunOf(e, run + [x]) == Apply(RunOf(e, run), x.action, x.at)
    ensures Requests(e, run + [x]) ==
              Requests(e, run) + if x.action.Decrypt? || x.action.ExtendTtl?
                                 then [KeyOf(RunOf(e, run).keys, x.action.id, x.at)] else []
    decreases |run|
  {
    if run == [] {
      assert [x][1..] == [] && run + [x] == [x];
    } else {
      assert (run + [x])[1..] == run[1..] + [x];
      RunOfSnoc(Apply(e, run[0].action, run[0].at), run[1..], x);
    }
  }

  /** The next request is answered as the lock's own life says. */
  lemma RequestFollowsLife(e: Engine, run: seq<Timed>, x: Timed, from: real)
    requires Monotone(run, from, x.at) && (x.action.Decrypt? || x.action.ExtendTtl?)
    ensures var slot := AsOf(LifeOf(Stored(e.keys, x.action.id), x.action.id, run), x.at);
            Requests(e, run + [x]) == Requests(e, run) + [if slot.Some? then Some(slot.value.key) else None]
  {
    var id := x.action.id;
    RunOfSnoc(e, run, x);
    EveryRunFollowsLives(e, Stored(e.keys, id), id, run, from, x.at);
    assert Live(RunOf(e, run).keys, id, x.at) == AsOf(LifeOf(Stored(e.keys, id), id, run), x.at);
  }

  function WithoutCleanups(run: seq<Timed>): seq<Timed> {
    if run == [] then []
    else if run[0].action.RemoveExpired? then WithoutCleanups(run[1..])
    else [run[0]] + WithoutCleanups(run[1..])
  }

  /** The same keys are live, with the same expiry. */
  ghost predicate SameLive(a: Keys, b: Keys, now: real) {
    forall id :: Live(a, id, now) == Live(b, id, now)
  }

  lemma SameLiveKept(a: Engine, b: Engine, x: Action, from: real, now: real)
    requires SameLive(a.keys, b.keys, from) && from <= now
    ensures SameLive(a.keys, b.keys, now)
    ensures SameLive(Apply(a, x, now).keys, Apply(b, x, now).keys, now)
    ensures x.RemoveExpired? ==> SameLive(Apply(a, x, now).keys, b.keys, now)
  {
    forall id
      ensures Live(a.keys, id, now) == Live(b.keys, id, now)
    {
      assert Live(a.keys, id, from) == Live(b.keys, id, from);
    }
    forall id
      ensures Live(Apply(a, x, now).keys, id, now) == Live(Apply(b, x, now).keys, id, now)
      ensures x.RemoveExpired? ==> Live(Apply(a, x, now).keys, id, now) == Live(b.keys, id, now)
    {
      StepIsLocal(a, x, id, now);
      StepIsLocal(b, x, id, now);
      assert Live(a.keys, id, now) == Live(b.keys, id, now);
    }
  }

  /** Removing every cleanup pass from a run changes no key request. */
  lemma {:induction false} CleanupsDoNotMatter(a: Engine, b: Engine, run: seq<Timed>, from: real, until: real)
    requires Monotone(run, from, until) && SameLive(a.keys, b.keys, from)
    ensures Requests(a, run) == Requests(b, WithoutCleanups(run))
    decreases |run|
  {
    if run != [] {
      var x, now := run[0].action, run[0].at;
      SameLiveKept(a, b, x, from, now);
      if x.RemoveExpired? {
        CleanupsDoNotMatter(Apply(a, x, now), b, run[1..], now, until);
      } else {
        CleanupsDoNotMatter(Apply(a, x, now), Apply(b, x, now), run[1..], now, until);
        assert WithoutCleanups(run)[1..] == WithoutCleanups(run[1..]);
        if x.Decrypt? || x.ExtendTtl? {
          assert Live(a.keys, x.id, now) == Live(b.keys, x.id, now);
        }
      }
    }
  }

  /** So two runs that differ in cleanup passes only return the same keys. */
  lemma RunsUpToCleanup(e: Engine, run: seq<Timed>, other: seq<Timed>, from: real, until: real)
    requires Monotone(run, from, until) && Monotone(other, from, until)
    requires WithoutCleanups(run) == WithoutCleanups(other)
    ensures Requests(e, run) == Requests(e, other)
  {
    CleanupsDoNotMatter(e, e, run, from, until);
    CleanupsDoNotMatter(e, e, other, from, until);
  }

  /** What a cleanup pass can change is the answer of `destroy` and the status it
      leaves behind: exactly when the key is still stored past its expiry. */
  lemma DestroySeesCleanupIff(e: Engine, id: LockId, now: real)
    ensures var cleaned := Apply(e, RemoveExpired, now);
            var late := id in e.keys && now > e.keys[id].expiry;
            && ((id in e.keys) != (id in cleaned.keys) <==> late)
            && (StatusOf(Apply(e, Destroy(id), now), id, now) != StatusOf(Apply(cleaned, Destroy(id), now), id, now)
                <==> late && id in e.metadata && e.metadata[id].status != Destroyed)
  {
  }
}
