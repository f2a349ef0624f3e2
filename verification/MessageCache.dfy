/** Duplicate suppression of gossip messages: the cache of seen identifiers with
    timed cleanup, and the checks around it, under an explicit clock. */
module MessageCache {

  type MsgId = string

  const CACHE_TTL: real := 300.0
  const MAX_AGE: real := 300.0
  const MAX_FUTURE: real := 60.0
  const CLEANUP_INTERVAL: real := 60.0

  datatype Cache = Cache(entries: map<MsgId, real>, lastCleanup: real)

  /** The entries that are not older than the TTL. */
  function Live(entries: map<MsgId, real>, now: real): map<MsgId, real> {
    map k | k in entries && entries[k] >= now - CACHE_TTL :: entries[k]
  }

  /** `_maybe_cleanup`: expired entries go, then the evicted ones. */
  function Clean(c: Cache, now: real, evicted: set<MsgId>): Cache {
    if Due(c, now) then Cache(Live(c.entries, now) - evicted, now) else c
  }

  /** What a cleanup evicts: nothing while the live entries fit, otherwise the
      oldest ones, as many as are too many. */
  ghost predicate Evicts(entries: map<MsgId, real>, evicted: set<MsgId>, maxSize: nat) {
    && evicted <= entries.Keys
    && |evicted| == (if |entries| <= maxSize then 0 else |entries| - maxSize)
    && forall d, k :: d in evicted && k in entries && k !in evicted ==> entries[d] <= entries[k]
  }

  /** The cleanup takes place: a minute has passed since the last one. */
  predicate Due(c: Cache, now: real) {
    now - c.lastCleanup >= CLEANUP_INTERVAL
  }

  ghost predicate EvictsAt(c: Cache, now: real, evicted: set<MsgId>, maxSize: nat) {
    Due(c, now) ==> Evicts(Live(c.entries, now), evicted, maxSize)
  }

  class MessageCache {
    var entries: map<MsgId, real>
    var lastCleanup: real
    const maxSize: nat

    function State(): Cache
      reads this
    {
      Cache(entries, lastCleanup)
    }

    constructor (maxSize: nat, now: real)
      ensures State() == Cache(map[], now) && this.maxSize == maxSize
    {
      entries, lastCleanup, this.maxSize := map[], now, maxSize;
    }

    method Oldest(excess: nat) returns (evicted: set<MsgId>)
      requires |entries| == maxSize + excess
      ensures Evicts(entries, evicted, maxSize)
    {
      evicted := {};
      var left := entries.Keys;
      for n := 0 to excess
        invariant left == entries.Keys - evicted && evicted <= entries.Keys && |evicted| == n && |left| == |entries| - n
        invariant forall d, k :: d in evicted && k in left ==> entries[d] <= entries[k]
      {
        assert left != {};
        var d := EarliestOf(left);
        evicted, left := evicted + {d}, left - {d};
      }
    }

    method EarliestOf(keys: set<MsgId>) returns (d: MsgId)
      requires keys != {} && keys <= entries.Keys
      ensures d in keys && forall k :: k in keys ==> entries[d] <= entries[k]
    {
      d :| d in keys;
      var left := keys - {d};
      while left != {}
        invariant d in keys && left <= keys && forall k :: k in keys - left ==> entries[d] <= entries[k]
        decreases left
      {
        var k :| k in left;
        if entries[k] < entries[d] {
          d := k;
        }
        left := left - {k};
      }
    }

    method MaybeCleanup(now: real) returns (ghost evicted: set<MsgId>)
      modifies this
      ensures State() == Clean(old(State()), now, evicted)
      ensures EvictsAt(old(State()), now, evicted, maxSize)
    {
      ghost var live := Live(entries, now);
      evicted := {};
      if now - lastCleanup < CLEANUP_INTERVAL {
        return;
      }
      entries := Live(entries, now);
      if |entries| > maxSize {
        var dropped := Oldest(|entries| - maxSize);
        evicted := dropped;
        entries := entries - dropped;
      }
      assert live - {} == live;
      lastCleanup := now;
    }

    /** `has_seen`; a stale entry is removed on the way. */
    method HasSeen(id: MsgId, clean: real, look: real) returns (seen: bool, ghost evicted: set<MsgId>)
      modifies this
      ensures EvictsAt(old(State()), clean, evicted, maxSize)
      ensures State() == Looked(old(State()), id, clean, look, evicted)
      ensures seen <==> id in entries
    {
      evicted := MaybeCleanup(clean);
      if id !in entries {
        return false, evicted;
      }
      if look - entries[id] > CACHE_TTL {
        entries := entries - {id};
        return false, evicted;
      }
      return true, evicted;
    }

    method MarkSeen(id: MsgId, mark: real, clean: real) returns (ghost evicted: set<MsgId>)
      modifies this
      ensures EvictsAt(Cache(old(entries)[id := mark], old(lastCleanup)), clean, evicted, maxSize)
      ensures State() == Clean(Cache(old(entries)[id := mark], old(lastCleanup)), clean, evicted)
    {
      entries := entries[id := mark];
      evicted := MaybeCleanup(clean);
    }
  }

  // ------------------------------------------------------- Arrivals

  /** The cache after `has_seen`. */
  function Looked(c: Cache, id: MsgId, clean: real, look: real, evicted: set<MsgId>): Cache {
    var c1 := Clean(c, clean, evicted);
    if id in c1.entries && look - c1.entries[id] > CACHE_TTL then Cache(c1.entries - {id}, c1.lastCleanup) else c1
  }

  /** `validate_timestamp` */
  predicate StampValid(stamp: real, now: real) {
    now - stamp <= MAX_AGE && now - stamp >= -MAX_FUTURE
  }

  /** One arrival of an envelope: what the signature check says, and the clock as
      `_handle_received` reads it, with what its cleanups evict. */
  datatype Arrival = Arrival(
    id: MsgId, stamp: real, authentic: bool, clean1: real, look: real, check: real, mark: real, clean2: real,
    evicted1: set<MsgId>, evicted2: set<MsgId>)

  function Before(c: Cache, a: Arrival): Cache {
    Looked(c, a.id, a.clean1, a.look, a.evicted1)
  }

  /** The message reaches its handler. */
  predicate Dispatches(c: Cache, a: Arrival) {
    a.id !in Before(c, a).entries && a.authentic && StampValid(a.stamp, a.check)
  }

  function Marked(c: Cache, a: Arrival): Cache {
    MarkedWith(Before(c, a), a.id, a.mark)
  }

  function After(c: Cache, a: Arrival): Cache {
    if Dispatches(c, a) then Clean(Marked(c, a), a.clean2, a.evicted2) else Before(c, a)
  }

  // ------------------------------------------------------- Events

  /** An envelope arrives, or the peer marks a message of its own (`gossip`). */
  datatype Event =
    | Receive(arrival: Arrival)
    | Originate(id: MsgId, mark: real, clean: real, evicted: set<MsgId>)

  function Next(c: Cache, e: Event): Cache {
    match e
    case Receive(a) => After(c, a)
    case Originate(id, mark, clean, evicted) => Clean(MarkedWith(c, id, mark), clean, evicted)
  }

  function MarkedWith(c: Cache, id: MsgId, mark: real): Cache {
    Cache(c.entries[id := mark], c.lastCleanup)
  }

  function Start(e: Event): real {
    match e
    case Receive(a) => a.clean1
    case Originate(_, mark, _, _) => mark
  }

  function End(e: Event): real {
    match e
    case Receive(a) => a.clean2
    case Originate(_, _, clean, _) => clean
  }

  ghost predicate InOrder(e: Event) {
    match e
    case Receive(a) => a.clean1 <= a.look <= a.check <= a.mark <= a.clean2
    case Originate(_, mark, clean, _) => mark <= clean
  }

  /** The evictions are those of the code. */
  ghost predicate Faithful(c: Cache, e: Event, maxSize: nat) {
    match e
    case Receive(a) =>
      && EvictsAt(c, a.clean1, a.evicted1, maxSize)
      && (Dispatches(c, a) ==> EvictsAt(Marked(c, a), a.clean2, a.evicted2, maxSize))
    case Originate(id, mark, clean, evicted) => EvictsAt(MarkedWith(c, id, mark), clean, evicted, maxSize)
  }

  /** A cleanup that takes place drops the identifier for lack of room. */
  ghost predicate DropsAt(c: Cache, now: real, evicted: set<MsgId>, id: MsgId) {
    Due(c, now) && id in evicted
  }

  ghost predicate Drops(c: Cache, e: Event, id: MsgId) {
    match e
    case Receive(a) =>
      DropsAt(c, a.clean1, a.evicted1, id) || (Dispatches(c, a) && DropsAt(Marked(c, a), a.clean2, a.evicted2, id))
    case Originate(x, mark, clean, evicted) => DropsAt(MarkedWith(c, x, mark), clean, evicted, id)
  }

  ghost predicate FitsAt(c: Cache, now: real, maxSize: nat) {
    Due(c, now) ==> |Live(c.entries, now)| <= maxSize
  }

  /** The live entries fit at every cleanup. */
  ghost predicate Fits(c: Cache, e: Event, maxSize: nat) {
    match e
    case Receive(a) =>
      && FitsAt(c, a.clean1, maxSize)
      && (Dispatches(c, a) ==> FitsAt(Marked(c, a), a.clean2, maxSize))
    case Originate(id, mark, clean, _) => FitsAt(MarkedWith(c, id, mark), clean, maxSize)
  }

  /** With room for all, nothing is dropped. */
  lemma FitsDropsNothing(c: Cache, e: Event, maxSize: nat, id: MsgId)
    requires Faithful(c, e, maxSize) && Fits(c, e, maxSize)
    ensures !Drops(c, e, id)
  {
  }

  /** Events at one peer, on a clock that never goes back. */
  ghost predicate Run(caches: seq<Cache>, events: seq<Event>, maxSize: nat) {
    && |caches| == |events| + 1
    && (forall k :: 0 <= k < |events| ==> Happens(caches[k], events[k], caches[k + 1], maxSize))
    && forall k, l :: 0 <= k < l < |events| ==> End(events[k]) <= Start(events[l])
  }

  ghost predicate Happens(c: Cache, e: Event, c': Cache, maxSize: nat) {
    InOrder(e) && Faithful(c, e, maxSize) && c' == Next(c, e)
  }

  /** The message with that identifier is dispatched. */
  predicate DispatchesId(c: Cache, e: Event, id: MsgId) {
    e.Receive? && e.arrival.id == id && Dispatches(c, e.arrival)
  }

  /** An entry made at time m or later is still there, or m is older than the TTL. */
  ghost predicate Remembers(c: Cache, id: MsgId, m: real, now: real) {
    m <= now && ((id in c.entries && c.entries[id] >= m) || now - m > CACHE_TTL)
  }

  lemma CleanRemembers(c: Cache, id: MsgId, m: real, past: real, now: real, evicted: set<MsgId>)
    requires Remembers(c, id, m, past) && past <= now && !DropsAt(c, now, evicted, id)
    ensures Remembers(Clean(c, now, evicted), id, m, now)
  {
  }

  /** A remembered message is not dispatched unless it is stamped later than it
      was marked; and it stays remembered. */
  lemma ArrivalRemembers(c: Cache, a: Arrival, id: MsgId, m: real, past: real)
    requires InOrder(Receive(a)) && !Drops(c, Receive(a), id)
    requires Remembers(c, id, m, past) && past <= a.clean1
    requires a.id == id ==> a.stamp <= m
    ensures a.id == id ==> !Dispatches(c, a)
    ensures Remembers(After(c, a), id, m, a.clean2)
  {
  }

  lemma EventRemembers(c: Cache, e: Event, id: MsgId, m: real, past: real)
    requires InOrder(e) && !Drops(c, e, id) && Remembers(c, id, m, past) && past <= Start(e)
    requires e.Receive? && e.arrival.id == id ==> e.arrival.stamp <= m
    ensures !DispatchesId(c, e, id)
    ensures Remembers(Next(c, e), id, m, End(e))
  {
  }

  lemma DispatchRemembers(c: Cache, a: Arrival)
    requires InOrder(Receive(a)) && Dispatches(c, a) && !Drops(c, Receive(a), a.id)
    ensures Remembers(After(c, a), a.id, a.mark, a.clean2)
  {
  }

  /** From event i to before event j no cleanup drops the identifier for lack of
      room. */
  ghost predicate Kept(caches: seq<Cache>, events: seq<Event>, id: MsgId, i: nat, j: nat)
    requires |caches| == |events| + 1 && j <= |events|
  {
    forall k :: i <= k < j ==> !Drops(caches[k], events[k], id)
  }

  /** No envelope with that identifier is stamped later than m between i and j. */
  ghost predicate NotAhead(events: seq<Event>, id: MsgId, m: real, i: nat, j: nat)
    requires j <= |events|
  {
    forall k :: i < k < j && events[k].Receive? && events[k].arrival.id == id ==> events[k].arrival.stamp <= m
  }

  lemma StepFacts(caches: seq<Cache>, events: seq<Event>, maxSize: nat, id: MsgId, m: real, i: nat, j: nat, k: nat)
    requires Run(caches, events, maxSize) && i <= k < j <= |events|
    requires Kept(caches, events, id, i, j) && NotAhead(events, id, m, i, j)
    ensures Happens(caches[k], events[k], caches[k + 1], maxSize) && !Drops(caches[k], events[k], id)
    ensures i < k ==> End(events[k - 1]) <= Start(events[k])
    ensures i < k && events[k].Receive? && events[k].arrival.id == id ==> events[k].arrival.stamp <= m
  {
  }

  lemma Shorter(caches: seq<Cache>, events: seq<Event>, id: MsgId, m: real, i: nat, j: nat)
    requires |caches| == |events| + 1 && 0 < j <= |events|
    requires Kept(caches, events, id, i, j) && NotAhead(events, id, m, i, j)
    ensures Kept(caches, events, id, i, j - 1) && NotAhead(events, id, m, i, j - 1)
  {
  }

  lemma {:induction false} StaysRemembered(caches: seq<Cache>, events: seq<Event>, maxSize: nat, id: MsgId, m: real,
                                           i: nat, j: nat)
    requires Run(caches, events, maxSize) && i < j <= |events|
    requires DispatchesId(caches[i], events[i], id) && m == events[i].arrival.mark
    requires Kept(caches, events, id, i, j) && NotAhead(events, id, m, i, j)
    ensures Remembers(caches[j], id, m, End(events[j - 1]))
  {
    StepFacts(caches, events, maxSize, id, m, i, j, j - 1);
    if j == i + 1 {
      DispatchRemembers(caches[i], events[i].arrival);
    } else {
      Shorter(caches, events, id, m, i, j);
      StaysRemembered(caches, events, maxSize, id, m, i, j - 1);
      EventRemembers(caches[j - 1], events[j - 1], id, m, End(events[j - 2]));
    }
  }

  /** Over every run of arrivals and own messages on a monotone clock, a message is
      dispatched again only if an envelope of it is stamped ahead of the clock that
      first marked it, or a cleanup in between dropped it for lack of room. */
  lemma SecondDispatchNeeds(caches: seq<Cache>, events: seq<Event>, maxSize: nat, id: MsgId, i: nat, j: nat)
    requires Run(caches, events, maxSize) && i < j < |events|
    requires DispatchesId(caches[i], events[i], id) && DispatchesId(caches[j], events[j], id)
    ensures !NotAhead(events, id, events[i].arrival.mark, i, j + 1) || !Kept(caches, events, id, i, j + 1)
  {
    var m := events[i].arrival.mark;
    if NotAhead(events, id, m, i, j + 1) && Kept(caches, events, id, i, j + 1) {
      StaysRemembered(caches, events, maxSize, id, m, i, j);
      StepFacts(caches, events, maxSize, id, m, i, j + 1, j);
      EventRemembers(caches[j], events[j], id, m, End(events[j - 1]));
    }
  }

  ghost predicate NeverOverfull(caches: seq<Cache>, events: seq<Event>, maxSize: nat)
    requires |caches| == |events| + 1
  {
    forall k :: 0 <= k < |events| ==> Fits(caches[k], events[k], maxSize)
  }

  /** So a message that is never stamped ahead is dispatched at most once while the
      live entries fit. */
  lemma DispatchedAtMostOnce(caches: seq<Cache>, events: seq<Event>, maxSize: nat, id: MsgId, i: nat, j: nat)
    requires Run(caches, events, maxSize) && NeverOverfull(caches, events, maxSize) && i <= j < |events|
    requires DispatchesId(caches[i], events[i], id) && DispatchesId(caches[j], events[j], id)
    requires NotAhead(events, id, events[i].arrival.mark, i, j + 1)
    ensures i == j
  {
    if i < j {
      forall k | i <= k < j + 1
        ensures !Drops(caches[k], events[k], id)
      {
        assert Happens(caches[k], events[k], caches[k + 1], maxSize) && Fits(caches[k], events[k], maxSize);
        FitsDropsNothing(caches[k], events[k], maxSize, id);
      }
      SecondDispatchNeeds(caches, events, maxSize, id, i, j);
    }
  }

  /** All readings of one arrival at the same time, with room in the cache. */
  function ArrivalAt(id: MsgId, stamp: real, now: real): Arrival {
    Arrival(id, stamp, true, now, now, now, now, now, {}, {})
  }

  /** An envelope marked at time m arrives twice and is dispatched twice, without being
      dropped for lack of room. */
  ghost predicate DispatchedTwice(c: Cache, a: Arrival, b: Arrival, stamp: real, m: real, maxSize: nat) {
    var c' := After(c, a);
    && a.id == b.id && a.stamp == stamp == b.stamp && a.mark == m && a.clean2 <= b.clean1
    && Happens(c, Receive(a), c', maxSize) && Happens(c', Receive(b), After(c', b), maxSize)
    && Dispatches(c, a) && Dispatches(c', b)
    && !Drops(c, Receive(a), a.id) && !Drops(c', Receive(b), a.id)
  }

  /** Unless it is dropped for lack of room, a message marked at time m can be
      dispatched again later if and only if it is stamped ahead of m: its entry then
      leaves the cache while the stamp is still young enough. */
  lemma SecondDispatchIff(stamp: real, m: real, maxSize: nat)
    requires StampValid(stamp, m)
    ensures stamp > m <==> exists c, a, b :: DispatchedTwice(c, a, b, stamp, m, maxSize)
  {
    if stamp > m {
      TwiceWhenAhead("x", stamp, m, maxSize);
    } else {
      forall c, a, b
        ensures !DispatchedTwice(c, a, b, stamp, m, maxSize)
      {
        if DispatchedTwice(c, a, b, stamp, m, maxSize) {
          DispatchRemembers(c, a);
          ArrivalRemembers(After(c, a), b, a.id, m, a.clean2);
        }
      }
    }
  }

  lemma TwiceWhenAhead(id: MsgId, stamp: real, m: real, maxSize: nat)
    requires StampValid(stamp, m) && stamp > m
    ensures exists c, a, b :: DispatchedTwice(c, a, b, stamp, m, maxSize)
  {
    var t := stamp + MAX_AGE;
    var a, b := ArrivalAt(id, stamp, m), ArrivalAt(id, stamp, t);
    var c, c' := Cache(map[], m), Cache(map[id := m], m);
    assert Before(c, a) == c && After(c, a) == c';
    assert Live(c'.entries, t) == map[];
    assert Before(c', b) == Cache(map[], t);
    assert DispatchedTwice(c, a, b, stamp, m, maxSize);
  }

  const C0 := Cache(map[], 0.0)
  const C1 := Cache(map["x" := 0.0], 0.0)
  const C2 := Cache(map["x" := 0.0, "y" := 60.0], 60.0)
  const C3 := Cache(map["y" := 60.0, "x" := 120.0], 120.0)
  const FIRST := ArrivalAt("x", 0.0, 0.0)
  const OTHER := ArrivalAt("y", 60.0, 60.0)
  const AGAIN := ArrivalAt("x", 0.0, 120.0).(evicted1 := {"x"})

  lemma FirstArrives()
    ensures Happens(C0, Receive(FIRST), C1, 1) && DispatchesId(C0, Receive(FIRST), "x")
  {
  }

  lemma OtherArrives()
    ensures Happens(C1, Receive(OTHER), C2, 1)
  {
    assert Live(C1.entries, 60.0) == C1.entries && |C1.entries| == 1;
    assert Before(C1, OTHER) == Cache(C1.entries, 60.0);
    assert Marked(C1, OTHER) == C2;
  }

  lemma FirstArrivesAgain()
    ensures Happens(C2, Receive(AGAIN), C3, 1) && DispatchesId(C2, Receive(AGAIN), "x")
  {
    assert Live(C2.entries, 120.0) == C2.entries && |C2.entries| == 2;
    assert C2.entries - {"x"} == map["y" := 60.0];
    assert Before(C2, AGAIN) == Cache(map["y" := 60.0], 120.0);
    assert Marked(C2, AGAIN) == C3;
  }

  /** The size proviso is needed: in a cache for one entry, a second message makes
      the first one dispatched again, though it is not stamped ahead. */
  lemma OverfullDispatchesTwice()
    ensures Run([C0, C1, C2, C3], [Receive(FIRST), Receive(OTHER), Receive(AGAIN)], 1)
    ensures DispatchesId(C0, Receive(FIRST), "x") && DispatchesId(C2, Receive(AGAIN), "x") && AGAIN.stamp <= FIRST.mark
  {
    FirstArrives();
    OtherArrives();
    FirstArrivesAgain();
  }
}
