/** What every delivery order of the deletion protocol does: it terminates, and
    in the same stores, with exactly the cascade set gone. */
module DeletionRuns {
  import opened Text
  import opened Storage
  import opened Deletion
  import C = Cascade

  // ------------------------------------------------------- Messages of one announcement

  ghost predicate SentFor(m: Message, w: World, p: PeerId, node: Node) {
    && m.token.node == node.hash && m.token.originator == p && m.token.nonce >= w.next
    && m.to in node.recipients && m.to in w.stores
  }

  lemma {:induction false} AnnounceOrigin(w: World, p: PeerId, nodes: seq<Node>, m: Message)
    requires m in Announce(w, p, nodes).inFlight && m !in w.inFlight
    ensures exists k :: 0 <= k < |nodes| && SentFor(m, w, p, nodes[k])
    decreases |nodes|
  {
    var w1 := Issue(w, p, nodes[0]);
    if m in w1.inFlight {
      assert SentFor(m, w, p, nodes[0]);
    } else {
      AnnounceOrigin(w1, p, nodes[1..], m);
      var k :| 0 <= k < |nodes[1..]| && SentFor(m, w1, p, nodes[1..][k]);
      assert SentFor(m, w, p, nodes[k + 1]);
    }
  }

  /** A token for that node is on its way to that peer. */
  ghost predicate InAir(w: World, r: PeerId, h: Hash) {
    exists m :: m in w.inFlight && m.to == r && m.token.node == h
  }

  lemma {:induction false} AnnounceSends(w: World, p: PeerId, nodes: seq<Node>, k: nat, r: PeerId)
    requires k < |nodes| && r in nodes[k].recipients && r in w.stores
    ensures InAir(Announce(w, p, nodes), r, nodes[k].hash)
    decreases |nodes|
  {
    var w1 := Issue(w, p, nodes[0]);
    if k == 0 {
      var m := Message(r, Token(nodes[0].hash, p, w.next));
      assert m in w1.inFlight && m in Announce(w1, p, nodes[1..]).inFlight;
    } else {
      AnnounceSends(w1, p, nodes[1..], k - 1, r);
    }
  }

  // ------------------------------------------------------- One delivery

  ghost predicate StoresIndexed(S: map<PeerId, Store>) {
    forall p :: p in S ==> Indexed(S[p])
  }

  /** Delivery of a token in flight, unexpired and signed by a known peer. */
  ghost predicate Step(w: World, w': World, m: Message, order: seq<Hash>) {
    && m in w.inFlight && m.to in w.stores && m.token.originator in w.stores && OrderFor(w, m, order)
    && w' == Deliver(w, m, false, true, order)
  }

  /** The delivery removes a node. */
  ghost predicate Removes(w: World, m: Message) {
    m.to in w.stores && m.token !in Seen(w, m.to) && m.token.node in w.stores[m.to].nodes
  }

  lemma StepStores(w: World, w': World, m: Message, order: seq<Hash>)
    requires Step(w, w', m, order)
    ensures w'.stores == if Removes(w, m) then w.stores[m.to := Delete(w.stores[m.to], m.token.node)] else w.stores
    ensures w.inFlight - multiset{m} <= w'.inFlight
    ensures !Removes(w, m) ==> w'.inFlight == w.inFlight - multiset{m}
    ensures forall p :: Seen(w', p) <= Seen(w, p) + if p == m.to then {m.token} else {}
    ensures w'.next >= w.next
  {
  }

  /** A message that appears was sent for an owned child of the removed node. */
  lemma StepSends(w: World, w': World, m: Message, order: seq<Hash>, n: Message)
    requires Step(w, w', m, order) && StoresIndexed(w.stores)
    requires n in w'.inFlight && n !in w.inFlight
    ensures Removes(w, m) && n.to in w.stores && n.token.originator == m.to && n.token.nonce >= w.next
    ensures n.token.node in OwnedChildren(w.stores[m.to], m.token.node, m.to)
    ensures n.to in w.stores[m.to].nodes[n.token.node].recipients
  {
    var s := w.stores[m.to];
    StepStores(w, w', m, order);
    assert Removes(w, m);
    var marked := Marked(w, m);
    AnnounceOrigin(marked, m.to, NodesOf(s, order), n);
    var k :| 0 <= k < |order| && SentFor(n, marked, m.to, NodesOf(s, order)[k]);
    assert order[k] in order && s.nodes[order[k]].hash == order[k];
  }

  /** The world `process_token` announces children in. */
  ghost function Marked(w: World, m: Message): World
    requires Removes(w, m)
  {
    World(w.stores[m.to := Delete(w.stores[m.to], m.token.node)],
          w.processed[m.to := Seen(w, m.to) + {m.token}], w.inFlight - multiset{m}, w.next)
  }

  /** Every registered recipient of every owned child is sent a token. */
  lemma StepCovers(w: World, w': World, m: Message, order: seq<Hash>, c: Hash, r: PeerId)
    requires Step(w, w', m, order) && StoresIndexed(w.stores) && Removes(w, m)
    requires c in OwnedChildren(w.stores[m.to], m.token.node, m.to)
    requires r in w.stores[m.to].nodes[c].recipients && r in w.stores
    ensures InAir(w', r, c)
  {
    var s := w.stores[m.to];
    assert c in order;
    var k :| 0 <= k < |order| && order[k] == c;
    AnnounceSends(Marked(w, m), m.to, NodesOf(s, order), k, r);
  }

  // ------------------------------------------------------- The cascade of a deletion

  /** Deleting a.node at a.peer reaches the registered recipients of the children
      that this peer stores and owns. */
  ghost predicate Demands(S: map<PeerId, Store>, a: C.Pair, b: C.Pair) {
    && a.peer in S && a.node in S[a.peer].nodes && b.node in S[a.peer].nodes[a.node].children
    && b.node in S[a.peer].nodes && S[a.peer].nodes[b.node].owner == a.peer
    && b.peer in S[a.peer].nodes[b.node].recipients && b.peer in S
  }

  ghost function Stored(S: map<PeerId, Store>): (ps: set<C.Pair>)
    ensures forall a :: a in ps <==> a.peer in S && a.node in S[a.peer].nodes
  {
    set p, h | p in S && h in S[p].nodes :: C.Pair(p, h)
  }

  /** All pairs of a registered peer and a node listed by some stored child set. */
  ghost function Edges(S: map<PeerId, Store>): (es: set<(C.Pair, C.Pair)>)
    ensures forall a, b :: (a, b) in es <==> Demands(S, a, b)
  {
    var es := set a, q, h | a in Stored(S) && q in S && h in OwnedChildren(S[a.peer], a.node, a.peer)
                            && Demands(S, a, C.Pair(q, h)) :: (a, C.Pair(q, h));
    assert forall a, b :: Demands(S, a, b) ==> b == C.Pair(b.peer, b.node);
    es
  }

  ghost function Recipients(S: map<PeerId, Store>, h: Hash): set<PeerId> {
    set q, r | q in S && r in S && h in S[q].nodes && r in S[q].nodes[h].recipients :: r
  }

  ghost function GraphOf(S: map<PeerId, Store>, root: Node): C.Graph {
    C.Graph(set r | r in root.recipients && r in S :: C.Pair(r, root.hash), Edges(S),
            map a | a in Stored(S) :: a.node := Recipients(S, a.node))
  }

  /** Copies of one node list the same recipients: they are part of what the
      node hash is computed from. */
  ghost predicate RecipientsAgree(S: map<PeerId, Store>, root: Node) {
    && (forall p, q, h, r :: p in S && q in S && h in S[p].nodes && h in S[q].nodes && r in S[p].nodes[h].recipients ==>
         r in S[q].nodes[h].recipients)
    && (forall p, r :: p in S && root.hash in S[p].nodes && r in S[p].nodes[root.hash].recipients ==>
          r in root.recipients)
  }

  lemma GraphWellFormed(S: map<PeerId, Store>, root: Node)
    requires RecipientsAgree(S, root)
    ensures C.WellFormed(GraphOf(S, root), Stored(S))
  {
  }

  ghost function Air(w: World): set<C.Pair> {
    set m | m in w.inFlight :: C.Pair(m.to, m.token.node)
  }

  ghost function StateOf(w: World): C.State {
    C.State(Stored(w.stores), Air(w))
  }

  // ------------------------------------------------------- Invariant of a run

  /** Every store is the original one with some nodes purged. */
  ghost predicate Shrunk(S: map<PeerId, Store>, stores: map<PeerId, Store>) {
    stores.Keys == S.Keys && forall p :: p in S ==> PurgedOf(S[p], stores[p])
  }

  /** What is left is what was there. */
  ghost predicate SubNodes(S: map<PeerId, Store>, w: World) {
    && w.stores.Keys == S.Keys
    && forall p, h :: p in S && h in w.stores[p].nodes ==> h in S[p].nodes && w.stores[p].nodes[h] == S[p].nodes[h]
  }

  /** A token of this run that a peer has processed has done its work. */
  ghost predicate SeenIsDone(w: World, first: nat) {
    forall p, t :: p in w.stores && t in Seen(w, p) && t.nonce >= first ==> t.node !in w.stores[p].nodes
  }

  /** Tokens in flight belong to this run, between registered peers. */
  ghost predicate OwnTokens(w: World, first: nat) {
    && first <= w.next
    && forall m :: m in w.inFlight ==> m.token.nonce >= first && m.to in w.stores && m.token.originator in w.stores
  }

  ghost predicate Inv(S: map<PeerId, Store>, root: Node, w: World, first: nat) {
    && StoresIndexed(S) && Shrunk(S, w.stores) && SeenIsDone(w, first) && OwnTokens(w, first)
    && C.Inv(GraphOf(S, root), Stored(S), StateOf(w))
  }

  lemma ShrunkFacts(S: map<PeerId, Store>, w: World)
    requires StoresIndexed(S) && Shrunk(S, w.stores)
    ensures StoresIndexed(w.stores) && SubNodes(S, w)
  {
    forall p | p in S
      ensures Indexed(w.stores[p])
      ensures forall h :: h in w.stores[p].nodes ==> h in S[p].nodes && w.stores[p].nodes[h] == S[p].nodes[h]
    {
      PurgedIndexed(S[p], S[p].nodes.Keys - w.stores[p].nodes.Keys);
    }
  }

  lemma StepShrunk(S: map<PeerId, Store>, w: World, w': World, m: Message, order: seq<Hash>)
    requires StoresIndexed(S) && Shrunk(S, w.stores) && Step(w, w', m, order)
    ensures Shrunk(S, w'.stores)
  {
    StepStores(w, w', m, order);
    if Removes(w, m) {
      ShrunkDelete(S, w.stores, m.to, m.token.node);
    }
  }

  lemma ShrunkDelete(S: map<PeerId, Store>, stores: map<PeerId, Store>, p: PeerId, h: Hash)
    requires StoresIndexed(S) && Shrunk(S, stores) && p in stores && h in stores[p].nodes
    ensures Shrunk(S, stores[p := Delete(stores[p], h)])
  {
    DeletePurges(S[p], stores[p], h);
  }

  /** After a delivery its node is absent at its destination, nothing else is. */
  lemma StepPresent(w: World, w': World, m: Message, order: seq<Hash>, first: nat)
    requires Step(w, w', m, order) && SeenIsDone(w, first) && OwnTokens(w, first)
    ensures Stored(w'.stores) == Stored(w.stores) - {C.Pair(m.to, m.token.node)}
  {
  }

  lemma StepSeenIsDone(w: World, w': World, m: Message, order: seq<Hash>, first: nat)
    requires Step(w, w', m, order) && SeenIsDone(w, first) && OwnTokens(w, first)
    ensures SeenIsDone(w', first)
  {
  }

  lemma StepOwnTokens(w: World, w': World, m: Message, order: seq<Hash>, first: nat)
    requires Step(w, w', m, order) && StoresIndexed(w.stores) && OwnTokens(w, first)
    ensures OwnTokens(w', first)
  {
    StepStores(w, w', m, order);
    forall n | n in w'.inFlight
      ensures n.token.nonce >= first && n.to in w'.stores && n.token.originator in w'.stores
    {
      if n !in w.inFlight {
        StepSends(w, w', m, order, n);
      }
    }
  }

  lemma StepAir(S: map<PeerId, Store>, root: Node, w: World, w': World, m: Message, order: seq<Hash>, b: C.Pair)
    requires Step(w, w', m, order) && StoresIndexed(w.stores) && SubNodes(S, w) && b in Air(w')
    ensures b in Air(w) || (C.Pair(m.to, m.token.node) in Stored(w.stores)
                            && (C.Pair(m.to, m.token.node), b) in GraphOf(S, root).edges)
  {
    var n :| n in w'.inFlight && C.Pair(n.to, n.token.node) == b;
    if n !in w.inFlight {
      StepSends(w, w', m, order, n);
      assert Demands(S, C.Pair(m.to, m.token.node), b);
    }
  }

  lemma StepSendsDemands(S: map<PeerId, Store>, root: Node, w: World, w': World, m: Message, order: seq<Hash>,
                         b: C.Pair)
    requires Step(w, w', m, order) && StoresIndexed(w.stores) && SubNodes(S, w) && Removes(w, m)
    requires (C.Pair(m.to, m.token.node), b) in GraphOf(S, root).edges && b.node in w.stores[m.to].nodes
    ensures b in Air(w')
  {
    assert Demands(S, C.Pair(m.to, m.token.node), b);
    StepCovers(w, w', m, order, b.node, b.peer);
  }

  /** A delivery of the protocol is a delivery of the cascade. */
  lemma StepRefines(S: map<PeerId, Store>, root: Node, w: World, w': World, m: Message, order: seq<Hash>, first: nat)
    requires Step(w, w', m, order) && StoresIndexed(w.stores) && SubNodes(S, w)
    requires SeenIsDone(w, first) && OwnTokens(w, first)
    ensures C.Step(GraphOf(S, root), StateOf(w), StateOf(w'), C.Pair(m.to, m.token.node))
  {
    var g, a := GraphOf(S, root), C.Pair(m.to, m.token.node);
    StepPresent(w, w', m, order, first);
    forall b | b in Air(w')
      ensures b in Air(w) || (a in Stored(w.stores) && (a, b) in g.edges)
    {
      StepAir(S, root, w, w', m, order, b);
    }
    forall b | a in Stored(w.stores) && (a, b) in g.edges && C.Pair(a.peer, b.node) in Stored(w.stores)
      ensures b in Air(w')
    {
      StepSendsDemands(S, root, w, w', m, order, b);
    }
    StepKeepsAir(w, w', m, order);
  }

  lemma StepKeepsAir(w: World, w': World, m: Message, order: seq<Hash>)
    requires Step(w, w', m, order)
    ensures Air(w) - {C.Pair(m.to, m.token.node)} <= Air(w')
  {
  }

  /** Every delivery keeps the invariant. */
  lemma StepKeepsInvariant(S: map<PeerId, Store>, root: Node, w: World, w': World, m: Message, order: seq<Hash>,
                           first: nat)
    requires Inv(S, root, w, first) && Step(w, w', m, order)
    ensures Inv(S, root, w', first)
  {
    ShrunkFacts(S, w);
    StepShrunk(S, w, w', m, order);
    StepSeenIsDone(w, w', m, order, first);
    StepOwnTokens(w, w', m, order, first);
    StepRefines(S, root, w, w', m, order, first);
    C.StepKeepsInvariant(GraphOf(S, root), Stored(S), StateOf(w), StateOf(w'), C.Pair(m.to, m.token.node));
  }

  // ------------------------------------------------------- Whole runs

  /** The nodes of one peer that the cascade reaches. */
  ghost function Doomed(S: map<PeerId, Store>, root: Node, p: PeerId): set<Hash>
    requires p in S
  {
    set h | h in S[p].nodes && C.Reached(GraphOf(S, root), C.Pair(p, h))
  }

  /** The stores every complete delivery ends in. */
  ghost function Outcome(S: map<PeerId, Store>, root: Node): map<PeerId, Store> {
    map p | p in S :: Purged(S[p], Doomed(S, root, p))
  }

  /** A quiet network before a deletion: no token in flight, all nonces used. */
  ghost predicate Quiet(w: World) {
    && StoresIndexed(w.stores) && w.inFlight == multiset{}
    && forall p, t :: t in Seen(w, p) ==> t.nonce < w.next
  }

  lemma InitiateInvariant(w: World, root: Node)
    requires Quiet(w) && root.owner in w.stores && RecipientsAgree(w.stores, root)
    ensures Initiate(w, root.owner, root).Some?
    ensures Inv(w.stores, root, Initiate(w, root.owner, root).value, w.next)
  {
    var S := w.stores;
    var w1 := Issue(w, root.owner, root);
    assert [root][1..] == [];
    assert Initiate(w, root.owner, root).value == Announce(w1, root.owner, []) == w1;
    var g := GraphOf(S, root);
    ShrunkSelf(S);
    InitialAir(w, root);
    GraphWellFormed(S, root);
    C.InitialInvariant(g, Stored(S), StateOf(w1));
    InitialTokens(w, root);
  }

  lemma ShrunkSelf(S: map<PeerId, Store>)
    requires StoresIndexed(S)
    ensures Shrunk(S, S)
  {
    forall p | p in S
      ensures PurgedOf(S[p], S[p])
    {
      PurgeNothing(S[p]);
      assert S[p].nodes.Keys - S[p].nodes.Keys == {};
    }
  }

  lemma InitialTokens(w: World, root: Node)
    requires Quiet(w) && root.owner in w.stores
    ensures SeenIsDone(Issue(w, root.owner, root), w.next) && OwnTokens(Issue(w, root.owner, root), w.next)
  {
    var w1 := Issue(w, root.owner, root);
    forall p, t | t in Seen(w1, p)
      ensures t.nonce < w.next
    {
      assert t in Seen(w, p);
    }
  }

  lemma InitialAir(w: World, root: Node)
    requires w.inFlight == multiset{}
    ensures Air(Issue(w, root.owner, root)) == GraphOf(w.stores, root).start
  {
    var w1 := Issue(w, root.owner, root);
    forall r | r in root.recipients && r in w.stores
      ensures C.Pair(r, root.hash) in Air(w1)
    {
      assert Message(r, Token(root.hash, root.owner, w.next)) in w1.inFlight;
    }
  }

  /** When no token is left, the stores are the outcome. */
  lemma DrainedIsOutcome(S: map<PeerId, Store>, root: Node, w: World, first: nat)
    requires Inv(S, root, w, first) && w.inFlight == multiset{}
    ensures w.stores == Outcome(S, root)
  {
    assert Air(w) == {};
    C.DrainedIsCascade(GraphOf(S, root), Stored(S), StateOf(w));
    StoresAreOutcome(S, root, w.stores, StateOf(w).present);
  }

  lemma StoresAreOutcome(S: map<PeerId, Store>, root: Node, stores: map<PeerId, Store>, present: set<C.Pair>)
    requires Shrunk(S, stores) && present == Stored(stores)
    requires forall a :: a in present <==> a in Stored(S) && !C.Reached(GraphOf(S, root), a)
    ensures stores == Outcome(S, root)
  {
    forall p | p in S
      ensures stores[p] == Outcome(S, root)[p]
    {
      PeerOutcome(S, root, stores, p);
    }
  }

  lemma PeerOutcome(S: map<PeerId, Store>, root: Node, stores: map<PeerId, Store>, p: PeerId)
    requires p in S && p in stores && PurgedOf(S[p], stores[p])
    requires forall a :: a in Stored(stores) <==> a in Stored(S) && !C.Reached(GraphOf(S, root), a)
    ensures stores[p] == Purged(S[p], Doomed(S, root, p))
  {
    forall h | h in S[p].nodes
      ensures h in stores[p].nodes <==> h !in Doomed(S, root, p)
    {
      assert C.Pair(p, h) in Stored(S);
      assert C.Pair(p, h) in Stored(stores) <==> h in stores[p].nodes;
    }
    assert S[p].nodes.Keys - stores[p].nodes.Keys == Doomed(S, root, p);
  }

  /** Deliveries one after another, in any order. */
  ghost predicate DeliveryRun(run: seq<World>, ms: seq<Message>, orders: seq<seq<Hash>>) {
    && |run| == |ms| + 1 == |orders| + 1
    && forall i :: 0 <= i < |ms| ==> Step(run[i], run[i + 1], ms[i], orders[i])
  }

  lemma RunStep(run: seq<World>, ms: seq<Message>, orders: seq<seq<Hash>>, i: nat)
    requires DeliveryRun(run, ms, orders) && i < |ms|
    ensures Step(run[i], run[i + 1], ms[i], orders[i])
  {
  }

  lemma {:induction false} RunKeepsInvariant(S: map<PeerId, Store>, root: Node, run: seq<World>, ms: seq<Message>,
                                             orders: seq<seq<Hash>>, first: nat, i: nat)
    requires DeliveryRun(run, ms, orders) && Inv(S, root, run[0], first) && i < |run|
    ensures Inv(S, root, run[i], first)
  {
    if i > 0 {
      RunKeepsInvariant(S, root, run, ms, orders, first, i - 1);
      RunStep(run, ms, orders, i - 1);
      StepKeepsInvariant(S, root, run[i - 1], run[i], ms[i - 1], orders[i - 1], first);
    }
  }

  /** From one initiated deletion, every order of deliveries that leaves nothing
      in flight ends in the same stores: exactly the pairs of the cascade set
      are gone, and content and tombstones follow from that alone. */
  lemma EveryOrderSameOutcome(w: World, root: Node, run: seq<World>, ms: seq<Message>, orders: seq<seq<Hash>>)
    requires Quiet(w) && root.owner in w.stores && RecipientsAgree(w.stores, root)
    requires DeliveryRun(run, ms, orders) && Initiate(w, root.owner, root) == Some(run[0])
    ensures forall i :: 0 <= i < |run| && run[i].inFlight == multiset{} ==> run[i].stores == Outcome(w.stores, root)
  {
    InitiateInvariant(w, root);
    forall i | 0 <= i < |run| && run[i].inFlight == multiset{}
      ensures run[i].stores == Outcome(w.stores, root)
    {
      RunKeepsInvariant(w.stores, root, run, ms, orders, w.next, i);
      DrainedIsOutcome(w.stores, root, run[i], w.next);
    }
  }

  /** A delivery removes a stored node or at least takes its token out of flight. */
  lemma StepDecreases(w: World, w': World, m: Message, order: seq<Hash>)
    requires Step(w, w', m, order)
    ensures Stored(w'.stores) < Stored(w.stores)
         || (Stored(w'.stores) == Stored(w.stores) && |w'.inFlight| < |w.inFlight|)
  {
  }

  // ------------------------------------------------------- The engine as a program

  /** The simulated network: the peers' storages, the engine's token caches and
      the deliveries that are pending. */
  class Network {
    var stores: map<PeerId, Store>
    var processed: map<PeerId, set<Token>>
    var inFlight: multiset<Message>
    var next: nat

    function State(): World
      reads this
    {
      World(stores, processed, inFlight, next)
    }

    constructor (stores: map<PeerId, Store>)
      requires StoresIndexed(stores)
      ensures State() == World(stores, map[], multiset{}, 0) && Quiet(State())
    {
      this.stores, processed, inFlight, next := stores, map[], multiset{}, 0;
    }

    /** The loop of `initiate_deletion` over the recipients of a node. */
    method SendToken(originator: PeerId, node: Node)
      modifies this`inFlight, this`next
      ensures State() == Issue(old(State()), originator, node)
    {
      var token := Token(node.hash, originator, next);
      var messages := MessagesTo(node.recipients, token, stores.Keys);
      inFlight := inFlight + messages;
      next := next + 1;
    }

    method InitiateDeletion(p: PeerId, node: Node) returns (permitted: bool)
      modifies this
      ensures permitted <==> node.owner == p
      ensures Initiate(old(State()), p, node) == if permitted then Some(State()) else None
      ensures !permitted ==> State() == old(State())
    {
      if node.owner != p {
        return false;
      }
      ghost var w := State();
      SendToken(p, node);
      AnnounceSnoc(w, p, [], node);
      assert [] + [node] == [node];
      permitted := true;
    }

    /** `process_token`; children are taken from their set in some order. */
    method ProcessToken(m: Message, expired: bool, signed: bool) returns (answer: Answer, ghost order: seq<Hash>)
      requires m in inFlight && m.to in stores
      modifies this
      ensures OrderFor(old(State()), m, order) && State() == Deliver(old(State()), m, expired, signed, order)
      ensures answer == AnswerTo(old(State()), m, expired, signed)
    {
      ghost var before := State();
      inFlight := inFlight - multiset{m};
      var cache := if m.to in processed then processed[m.to] else {};
      var listing := [];
      if m.token.node in stores[m.to].nodes {
        listing := ListingOf(OwnedChildren(stores[m.to], m.token.node, m.to));
      }
      order := listing;
      if m.token in cache {
        return ReplayAttack, listing;
      }
      if expired {
        return TokenExpired, listing;
      }
      processed := processed[m.to := cache + {m.token}];
      if m.token.originator !in stores || !signed || m.token.node !in stores[m.to].nodes {
        return Refused, listing;
      }
      DeleteAndAnnounce(m.to, m.token.node, listing);
      answer := Deleted;
    }

    method DeleteAndAnnounce(p: PeerId, h: Hash, children: seq<Hash>)
      requires p in stores && h in stores[p].nodes && forall c :: c in children ==> c in stores[p].nodes
      modifies this
      ensures State() == Cascade(old(State()), p, h, children)
    {
      var store := stores[p];
      var childrenToDelete := NodesOf(store, children);
      stores := stores[p := Delete(store, h)];
      AnnounceAll(p, childrenToDelete);
    }

    method AnnounceAll(p: PeerId, children: seq<Node>)
      modifies this`inFlight, this`next
      ensures State() == Announce(old(State()), p, children)
    {
      for i := 0 to |children|
        invariant State() == Announce(old(State()), p, children[..i])
      {
        AnnounceSnoc(old(State()), p, children[..i], children[i]);
        assert children[..i + 1] == children[..i] + [children[i]];
        SendToken(p, children[i]);
      }
      assert children[..|children|] == children;
    }

    /** Deliver whatever is in flight, in any order, until nothing is: this ends,
        and always in the outcome. */
    method Drain(ghost S: map<PeerId, Store>, ghost root: Node, ghost first: nat)
      requires Inv(S, root, State(), first)
      modifies this
      ensures inFlight == multiset{} && stores == Outcome(S, root)
    {
      while inFlight != multiset{}
        invariant Inv(S, root, State(), first)
        decreases Stored(stores), |inFlight|
      {
        ghost var w := State();
        var m :| m in inFlight;
        var _, order := ProcessToken(m, false, true);
        assert Step(w, State(), m, order);
        StepKeepsInvariant(S, root, w, State(), m, order, first);
        StepDecreases(w, State(), m, order);
      }
      DrainedIsOutcome(S, root, State(), first);
    }
  }

  lemma {:induction false} AnnounceSnoc(w: World, p: PeerId, nodes: seq<Node>, n: Node)
    ensures Announce(w, p, nodes + [n]) == Issue(Announce(w, p, nodes), p, n)
    decreases |nodes|
  {
    if nodes == [] {
      assert ([] + [n])[1..] == [];
    } else {
      assert (nodes + [n])[1..] == nodes[1..] + [n];
      AnnounceSnoc(Issue(w, p, nodes[0]), p, nodes[1..], n);
    }
  }

  /** The loop over recipients; `route_message` drops unregistered ones. */
  method MessagesTo(rs: seq<PeerId>, token: Token, peers: set<PeerId>) returns (ms: multiset<Message>)
    ensures ms == Addressed(rs, token, peers)
  {
    ms := multiset{};
    for i := 0 to |rs|
      invariant ms == Addressed(rs[..i], token, peers)
    {
      AddressedSnoc(rs[..i], rs[i], token, peers);
      assert rs[..i + 1] == rs[..i] + [rs[i]];
      if rs[i] in peers {
        ms := ms + multiset{Message(rs[i], token)};
      }
    }
    assert rs[..|rs|] == rs;
  }

  lemma {:induction false} AddressedSnoc(rs: seq<PeerId>, r: PeerId, t: Token, peers: set<PeerId>)
    ensures Addressed(rs + [r], t, peers)
         == Addressed(rs, t, peers) + if r in peers then multiset{Message(r, t)} else multiset{}
  {
    if rs == [] {
      assert ([] + [r])[1..] == [];
    } else {
      assert (rs + [r])[1..] == rs[1..] + [r];
      AddressedSnoc(rs[1..], r, t, peers);
    }
  }

  lemma ListsSnoc(order: seq<Hash>, all: set<Hash>, c: Hash)
    requires Lists(order, all) && c !in all
    ensures Lists(order + [c], all + {c})
  {
  }

  /** A set comes out in some order. */
  method ListingOf(all: set<Hash>) returns (order: seq<Hash>)
    ensures Lists(order, all)
  {
    var left := all;
    order := [];
    while left != {}
      invariant left <= all && Lists(order, all - left)
      decreases left
    {
      var c :| c in left;
      ListsSnoc(order, all - left, c);
      assert all - (left - {c}) == all - left + {c};
      order := order + [c];
      left := left - {c};
    }
    assert all - left == all;
  }
}
