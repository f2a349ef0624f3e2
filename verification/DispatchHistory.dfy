/** When a gossip message reaches its handler, told from the history of the peer. */
module DispatchHistory {
  import opened MessageCache

  /** The event puts the identifier into the cache. */
  predicate Marks(c: Cache, e: Event, id: MsgId) {
    (e.Originate? && e.id == id) || DispatchesId(c, e, id)
  }

  function MarkTime(e: Event): real {
    match e
    case Receive(a) => a.mark
    case Originate(_, mark, _, _) => mark
  }

  // ------------------------------------------------------- What is marked is remembered

  lemma EventKeeps(c: Cache, e: Event, id: MsgId, m: real, past: real)
    requires InOrder(e) && !Drops(c, e, id) && Remembers(c, id, m, past) && past <= Start(e)
    ensures Remembers(Next(c, e), id, m, End(e))
  {
  }

  lemma MarkKeeps(c: Cache, e: Event, id: MsgId)
    requires InOrder(e) && !Drops(c, e, id) && Marks(c, e, id)
    ensures Remembers(Next(c, e), id, MarkTime(e), End(e))
  {
  }

  lemma {:induction false} StaysMarked(caches: seq<Cache>, events: seq<Event>, maxSize: nat, id: MsgId, i: nat, j: nat)
    requires Run(caches, events, maxSize) && i < j <= |events|
    requires Marks(caches[i], events[i], id) && Kept(caches, events, id, i, j)
    ensures Remembers(caches[j], id, MarkTime(events[i]), End(events[j - 1]))
  {
    assert Happens(caches[j - 1], events[j - 1], caches[j - 1 + 1], maxSize);
    if j == i + 1 {
      MarkKeeps(caches[i], events[i], id);
    } else {
      StaysMarked(caches, events, maxSize, id, i, j - 1);
      EventKeeps(caches[j - 1], events[j - 1], id, MarkTime(events[i]), End(events[j - 2]));
    }
  }

  // ------------------------------------------------------- What is remembered was marked

  /** An earlier event marked the identifier at that time. */
  ghost predicate MarkedAt(caches: seq<Cache>, events: seq<Event>, j: nat, id: MsgId, m: real)
    requires |caches| == |events| + 1 && j <= |events|
  {
    exists k :: 0 <= k < j && Marks(caches[k], events[k], id) && MarkTime(events[k]) == m
  }

  lemma EntryOrigin(c: Cache, e: Event, id: MsgId)
    requires id in Next(c, e).entries
    ensures (id in c.entries && c.entries[id] == Next(c, e).entries[id])
         || (Marks(c, e, id) && MarkTime(e) == Next(c, e).entries[id])
  {
  }

  lemma {:induction false} EntriesWereMarked(caches: seq<Cache>, events: seq<Event>, maxSize: nat, id: MsgId, j: nat)
    requires Run(caches, events, maxSize) && caches[0].entries == map[] && j <= |events|
    requires id in caches[j].entries
    ensures MarkedAt(caches, events, j, id, caches[j].entries[id])
  {
    if j > 0 {
      assert Happens(caches[j - 1], events[j - 1], caches[j - 1 + 1], maxSize);
      EntryOrigin(caches[j - 1], events[j - 1], id);
      if id in caches[j - 1].entries {
        EntriesWereMarked(caches, events, maxSize, id, j - 1);
      }
    }
  }

  // ------------------------------------------------------- Main result

  lemma LooksBack(c: Cache, a: Arrival, m: real, past: real)
    requires InOrder(Receive(a)) && !DropsAt(c, a.clean1, a.evicted1, a.id)
    requires Remembers(c, a.id, m, past) && past <= a.clean1 && a.look - m <= CACHE_TTL
    ensures a.id in Before(c, a).entries
  {
  }

  lemma StillThere(c: Cache, a: Arrival)
    requires a.id in Before(c, a).entries
    ensures a.id in c.entries && a.look - c.entries[a.id] <= CACHE_TTL
  {
  }

  /** Some earlier event marked the identifier within the TTL before the look-up. */
  ghost predicate SeenLately(caches: seq<Cache>, events: seq<Event>, j: nat, id: MsgId, look: real)
    requires |caches| == |events| + 1 && j <= |events|
  {
    exists k :: 0 <= k < j && Marks(caches[k], events[k], id) && look - MarkTime(events[k]) <= CACHE_TTL
  }

  /** Over every run from an empty cache, an envelope whose identifier was not dropped
      for lack of room reaches its handler if and only if its signature and timestamp
      are good and it was neither dispatched nor originated within the TTL before. */
  lemma DispatchedIff(caches: seq<Cache>, events: seq<Event>, maxSize: nat, j: nat, a: Arrival)
    requires Run(caches, events, maxSize) && caches[0].entries == map[]
    requires j < |events| && events[j] == Receive(a)
    requires Kept(caches, events, a.id, 0, j) && !DropsAt(caches[j], a.clean1, a.evicted1, a.id)
    ensures Dispatches(caches[j], a) <==>
            && a.authentic && -60.0 <= a.check - a.stamp <= 300.0
            && !SeenLately(caches, events, j, a.id, a.look)
  {
    assert Happens(caches[j], events[j], caches[j + 1], maxSize);
    if k :| 0 <= k < j && Marks(caches[k], events[k], a.id) && a.look - MarkTime(events[k]) <= CACHE_TTL {
      StaysMarked(caches, events, maxSize, a.id, k, j);
      LooksBack(caches[j], a, MarkTime(events[k]), End(events[j - 1]));
    } else if a.id in Before(caches[j], a).entries {
      StillThere(caches[j], a);
      EntriesWereMarked(caches, events, maxSize, a.id, j);
    }
  }
}
