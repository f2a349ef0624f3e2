/** What one delivered token may do, whatever its age, signature and originator, and
    what runs of such deliveries can never do. */
module DeletionSafety {
  import opened Text
  import opened Storage
  import opened Deletion
  import opened DeletionRuns
  import C = Cascade

  /** Not processed before by its receiver, and young enough. */
  ghost predicate Current(w: World, m: Message, expired: bool) {
    m.token !in Seen(w, m.to) && !expired
  }

  /** Current, signed by a registered originator, and about a node that is stored. */
  ghost predicate Effective(w: World, m: Message, expired: bool, signed: bool) {
    && Current(w, m, expired) && signed && m.token.originator in w.stores
    && m.to in w.stores && m.token.node in w.stores[m.to].nodes
  }

  /** A delivery changes the stores exactly if the token is effective, and then only
      by deleting its node at its receiver; it is remembered exactly if it is current;
      and a token that is not effective makes nobody send anything. */
  lemma DeliveryIff(w: World, m: Message, expired: bool, signed: bool, order: seq<Hash>)
    requires m.to in w.stores && OrderFor(w, m, order)
    ensures var w' := Deliver(w, m, expired, signed, order);
            && (w'.stores != w.stores <==> Effective(w, m, expired, signed))
            && (Effective(w, m, expired, signed) ==>
                  w'.stores == w.stores[m.to := Delete(w.stores[m.to], m.token.node)])
            && (!Effective(w, m, expired, signed) ==>
                  w'.inFlight == w.inFlight - multiset{m} && w'.next == w.next)
            && (AnswerTo(w, m, expired, signed) == Deleted <==> w'.stores != w.stores)
            && (AnswerTo(w, m, expired, signed) == ReplayAttack <==> m.token in Seen(w, m.to))
            && (AnswerTo(w, m, expired, signed) == TokenExpired <==> m.token !in Seen(w, m.to) && expired)
            && (Seen(w', m.to) != Seen(w, m.to) <==> Current(w, m, expired))
            && forall q :: Seen(w', q) == Seen(w, q) + if q == m.to && Current(w, m, expired) then {m.token} else {}
  {
  }

  /** How often the announcement of these nodes sends this message: its nonce tells
      which node it announces, and each listing of a registered recipient counts. */
  ghost function TimesSent(w: World, p: PeerId, nodes: seq<Node>, n: Message): nat {
    var k := n.token.nonce - w.next;
    if 0 <= k < |nodes| && n.token == Token(nodes[k].hash, p, n.token.nonce) && n.to in w.stores
    then multiset(nodes[k].recipients)[n.to] else 0
  }

  lemma {:induction false} AddressedTimes(rs: seq<PeerId>, t: Token, peers: set<PeerId>, n: Message)
    ensures Addressed(rs, t, peers)[n] == if n.token == t && n.to in peers then multiset(rs)[n.to] else 0
  {
    if rs != [] {
      AddressedTimes(rs[1..], t, peers, n);
      assert rs == [rs[0]] + rs[1..];
    }
  }

  lemma OneTimes(w: World, p: PeerId, node: Node, n: Message)
    ensures TimesSent(w, p, [node], n) ==
              if n.token == Token(node.hash, p, w.next) && n.to in w.stores then multiset(node.recipients)[n.to] else 0
  {
  }

  lemma IssuedTimes(w: World, p: PeerId, node: Node, n: Message)
    ensures Issue(w, p, node).inFlight[n] == w.inFlight[n] + TimesSent(w, p, [node], n)
  {
    OneTimes(w, p, node, n);
    AddressedTimes(node.recipients, Token(node.hash, p, w.next), w.stores.Keys, n);
  }

  lemma TimesSentCons(w: World, w1: World, p: PeerId, nodes: seq<Node>, n: Message)
    requires nodes != [] && w1.next == w.next + 1 && w1.stores == w.stores
    ensures TimesSent(w, p, nodes, n) == TimesSent(w, p, [nodes[0]], n) + TimesSent(w1, p, nodes[1..], n)
  {
  }

  lemma {:induction false} AnnouncedTimes(w: World, p: PeerId, nodes: seq<Node>, n: Message)
    ensures Announce(w, p, nodes).inFlight[n] == w.inFlight[n] + TimesSent(w, p, nodes, n)
    decreases |nodes|
  {
    if nodes != [] {
      var w1 := Issue(w, p, nodes[0]);
      IssuedTimes(w, p, nodes[0], n);
      TimesSentCons(w, w1, p, nodes, n);
      AnnouncedTimes(w1, p, nodes[1..], n);
    }
  }

  /** An effective token leaves in flight what was there without it, and for each owned
      child one new token, once for each listing of a registered recipient. */
  lemma SentByDelivery(w: World, m: Message, order: seq<Hash>, n: Message)
    requires Effective(w, m, false, true) && OrderFor(w, m, order)
    ensures Deliver(w, m, false, true, order).inFlight[n]
         == (w.inFlight - multiset{m})[n] + TimesSent(w, m.to, NodesOf(w.stores[m.to], order), n)
  {
    EffectiveAnnounces(w, m, order);
    AnnouncedTimes(Marked(w, m), m.to, NodesOf(w.stores[m.to], order), n);
    SameTimes(w, Marked(w, m), m.to, NodesOf(w.stores[m.to], order), n);
  }

  lemma EffectiveAnnounces(w: World, m: Message, order: seq<Hash>)
    requires Effective(w, m, false, true) && OrderFor(w, m, order)
    ensures Deliver(w, m, false, true, order) == Announce(Marked(w, m), m.to, NodesOf(w.stores[m.to], order))
  {
  }

  lemma SameTimes(w: World, w1: World, p: PeerId, nodes: seq<Node>, n: Message)
    requires w1.next == w.next && w1.stores.Keys == w.stores.Keys
    ensures TimesSent(w1, p, nodes, n) == TimesSent(w, p, nodes, n)
  {
  }

  // ------------------------------------------------------- Runs with any verdicts

  /** Delivery of a token in flight, whatever its age and signature. */
  ghost predicate AnyStep(w: World, w': World, m: Message, order: seq<Hash>) {
    && m in w.inFlight && m.to in w.stores && OrderFor(w, m, order)
    && exists expired, signed :: w' == Deliver(w, m, expired, signed, order)
  }

  ghost predicate AnyRun(run: seq<World>, ms: seq<Message>, orders: seq<seq<Hash>>) {
    && |run| == |ms| + 1 == |orders| + 1
    && forall i :: 0 <= i < |ms| ==> AnyStep(run[i], run[i + 1], ms[i], orders[i])
  }

  /** Stores are originals with some nodes purged, and whatever is gone or on its way
      belongs to the cascade. */
  ghost predicate Safe(S: map<PeerId, Store>, root: Node, w: World) {
    && StoresIndexed(S) && Shrunk(S, w.stores)
    && (forall a :: a in Air(w) ==> C.Reached(GraphOf(S, root), a))
    && forall a :: a in Stored(S) && a !in Stored(w.stores) ==> C.Reached(GraphOf(S, root), a)
  }

  lemma EffectiveIsStep(w: World, w': World, m: Message, order: seq<Hash>)
    requires AnyStep(w, w', m, order)
    ensures Step(w, w', m, order) || (w'.stores == w.stores && w'.inFlight == w.inFlight - multiset{m})
  {
  }

  lemma StepSafe(S: map<PeerId, Store>, root: Node, w: World, w': World, m: Message, order: seq<Hash>)
    requires Safe(S, root, w) && Step(w, w', m, order)
    ensures Safe(S, root, w')
  {
    ShrunkFacts(S, w);
    StepShrunk(S, w, w', m, order);
    StepKeepsOthers(w, w', m, order);
    forall b | b in Air(w')
      ensures C.Reached(GraphOf(S, root), b)
    {
      StepAirReached(S, root, w, w', m, order, b);
    }
  }

  lemma StepKeepsOthers(w: World, w': World, m: Message, order: seq<Hash>)
    requires Step(w, w', m, order)
    ensures C.Pair(m.to, m.token.node) in Air(w)
    ensures Stored(w.stores) <= Stored(w'.stores) + {C.Pair(m.to, m.token.node)}
  {
  }

  lemma StepAirReached(S: map<PeerId, Store>, root: Node, w: World, w': World, m: Message, order: seq<Hash>, b: C.Pair)
    requires Step(w, w', m, order) && StoresIndexed(w.stores) && SubNodes(S, w) && b in Air(w')
    requires forall a :: a in Air(w) ==> C.Reached(GraphOf(S, root), a)
    ensures C.Reached(GraphOf(S, root), b)
  {
    StepAir(S, root, w, w', m, order, b);
    if b !in Air(w) {
      assert C.Pair(m.to, m.token.node) in Air(w);
      C.EdgeReached(GraphOf(S, root), C.Pair(m.to, m.token.node), b);
    }
  }

  lemma AnyStepSafe(S: map<PeerId, Store>, root: Node, w: World, w': World, m: Message, order: seq<Hash>)
    requires Safe(S, root, w) && AnyStep(w, w', m, order)
    ensures Safe(S, root, w')
  {
    EffectiveIsStep(w, w', m, order);
    if Step(w, w', m, order) {
      StepSafe(S, root, w, w', m, order);
    }
  }

  lemma AnyRunStep(run: seq<World>, ms: seq<Message>, orders: seq<seq<Hash>>, i: nat)
    requires AnyRun(run, ms, orders) && i < |ms|
    ensures AnyStep(run[i], run[i + 1], ms[i], orders[i])
  {
  }

  lemma {:induction false} RunSafe(S: map<PeerId, Store>, root: Node, run: seq<World>, ms: seq<Message>,
                                   orders: seq<seq<Hash>>, i: nat)
    requires AnyRun(run, ms, orders) && Safe(S, root, run[0]) && i < |run|
    ensures Safe(S, root, run[i])
  {
    if i > 0 {
      RunSafe(S, root, run, ms, orders, i - 1);
      AnyRunStep(run, ms, orders, i - 1);
      AnyStepSafe(S, root, run[i - 1], run[i], ms[i - 1], orders[i - 1]);
    }
  }

  lemma InitiateSafe(w: World, root: Node, w1: World)
    requires Quiet(w) && Initiate(w, root.owner, root) == Some(w1)
    ensures Safe(w.stores, root, w1)
  {
    var w2 := Issue(w, root.owner, root);
    assert [root][1..] == [] && Initiate(w, root.owner, root).value == Announce(w2, root.owner, []) == w2;
    ShrunkSelf(w.stores);
    InitialAir(w, root);
    forall a | a in Air(w1)
      ensures C.Reached(GraphOf(w.stores, root), a)
    {
      C.StartReached(GraphOf(w.stores, root), a);
    }
  }

  /** From one initiated deletion, whatever is delivered in whatever order, and whether
      or not tokens expire or fail their checks: at every moment each store is the
      original one with nodes of the cascade purged, and no others. */
  lemma NothingElseIsDeleted(w: World, root: Node, run: seq<World>, ms: seq<Message>, orders: seq<seq<Hash>>, i: nat,
                             p: PeerId)
    requires Quiet(w) && AnyRun(run, ms, orders) && Initiate(w, root.owner, root) == Some(run[0])
    requires i < |run| && p in w.stores
    ensures p in run[i].stores
    ensures var gone := w.stores[p].nodes.Keys - run[i].stores[p].nodes.Keys;
            run[i].stores[p] == Purged(w.stores[p], gone) && gone <= Doomed(w.stores, root, p)
  {
    InitiateSafe(w, root, run[0]);
    RunSafe(w.stores, root, run, ms, orders, i);
    var gone := w.stores[p].nodes.Keys - run[i].stores[p].nodes.Keys;
    forall h | h in gone
      ensures h in Doomed(w.stores, root, p)
    {
      assert C.Pair(p, h) in Stored(w.stores) && C.Pair(p, h) !in Stored(run[i].stores);
    }
  }
}
