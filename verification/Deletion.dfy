/** The cascading deletion protocol: `initiate_deletion`, `issue_token`,
    `process_token` and the network that carries tokens, as steps on a world of
    stores and tokens in flight. */
module Deletion {
  import opened Text
  import opened Storage

  datatype Token = Token(node: Hash, originator: PeerId, nonce: nat)

  datatype Message = Message(to: PeerId, token: Token)

  /** Registered peers with their storage, tokens each peer has processed, tokens
      in flight, and the next unused nonce. */
  datatype World = World(
    stores: map<PeerId, Store>, processed: map<PeerId, set<Token>>, inFlight: multiset<Message>, next: nat)

  function Seen(w: World, p: PeerId): set<Token> {
    if p in w.processed then w.processed[p] else {}
  }

  // ------------------------------------------------------- Steps

  /** One message per listed recipient that is registered; others are dropped. */
  function Addressed(rs: seq<PeerId>, t: Token, peers: set<PeerId>): (ms: multiset<Message>)
    ensures forall m :: m in ms <==> m.token == t && m.to in rs && m.to in peers
  {
    if rs == [] then multiset{}
    else
      var rest := Addressed(rs[1..], t, peers);
      assert rs == [rs[0]] + rs[1..];
      if rs[0] in peers then multiset{Message(rs[0], t)} + rest else rest
  }

  /** A fresh token for each node, sent to that node's recipients. */
  function Announce(w: World, p: PeerId, nodes: seq<Node>): (r: World)
    ensures r.stores == w.stores && r.processed == w.processed && r.next == w.next + |nodes|
    ensures w.inFlight <= r.inFlight
    decreases |nodes|
  {
    if nodes == [] then w else Announce(Issue(w, p, nodes[0]), p, nodes[1..])
  }

  /** `issue_token` and the loop that sends the token. */
  function Issue(w: World, p: PeerId, node: Node): (r: World)
    ensures r.stores == w.stores && r.processed == w.processed && r.next == w.next + 1
  {
    var sent := Addressed(node.recipients, Token(node.hash, p, w.next), w.stores.Keys);
    w.(inFlight := w.inFlight + sent, next := w.next + 1)
  }

  /** `initiate_deletion`; None is the PermissionError of `issue_token`. */
  function Initiate(w: World, p: PeerId, node: Node): Option<World> {
    if node.owner != p then None else Some(Announce(w, p, [node]))
  }

  /** The children a peer stores and owns. */
  function OwnedChildren(s: Store, h: Hash, p: PeerId): set<Hash>
    requires h in s.nodes
  {
    set c | c in s.nodes[h].children && c in s.nodes && s.nodes[c].owner == p
  }

  /** A listing of a set, in the order in which it happens to be iterated. */
  ghost predicate Lists(order: seq<Hash>, all: set<Hash>) {
    && (forall c :: c in order <==> c in all)
    && forall i, j :: 0 <= i < j < |order| ==> order[i] != order[j]
  }

  function NodesOf(s: Store, order: seq<Hash>): (ns: seq<Node>)
    requires forall c :: c in order ==> c in s.nodes
    ensures |ns| == |order| && forall i :: 0 <= i < |ns| ==> ns[i] == s.nodes[order[i]]
  {
    seq(|order|, i requires 0 <= i < |order| => s.nodes[order[i]])
  }

  /** Everything after the checks: delete, then announce the owned children. */
  function Cascade(w: World, p: PeerId, h: Hash, order: seq<Hash>): World
    requires p in w.stores && h in w.stores[p].nodes
    requires forall c :: c in order ==> c in w.stores[p].nodes
  {
    Announce(w.(stores := w.stores[p := Delete(w.stores[p], h)]), p, NodesOf(w.stores[p], order))
  }

  ghost predicate OrderFor(w: World, m: Message, order: seq<Hash>)
    requires m.to in w.stores
  {
    if m.token.node in w.stores[m.to].nodes
    then Lists(order, OwnedChildren(w.stores[m.to], m.token.node, m.to))
    else order == []
  }

  /** `receive_message` and `process_token` for one token in flight: the replay,
      expiry, originator, signature and missing-node branches, then the
      cascade. */
  ghost function Deliver(w: World, m: Message, expired: bool, signed: bool, order: seq<Hash>): World
    requires m.to in w.stores && OrderFor(w, m, order)
  {
    var taken := w.(inFlight := w.inFlight - multiset{m});
    if m.token in Seen(w, m.to) || expired then taken
    else
      var marked := taken.(processed := taken.processed[m.to := Seen(w, m.to) + {m.token}]);
      if m.token.originator !in w.stores || !signed || m.token.node !in w.stores[m.to].nodes then marked
      else Cascade(marked, m.to, m.token.node, order)
  }

  /** What `process_token` raises, or False and True. */
  datatype Answer = ReplayAttack | TokenExpired | Refused | Deleted

  function AnswerTo(w: World, m: Message, expired: bool, signed: bool): Answer
    requires m.to in w.stores
  {
    if m.token in Seen(w, m.to) then ReplayAttack
    else if expired then TokenExpired
    else if m.token.originator !in w.stores || !signed || m.token.node !in w.stores[m.to].nodes then Refused
    else Deleted
  }

  // ------------------------------------------------------- Purged stores

  function ContentHashes(nodes: map<Hash, Node>): set<Hash> {
    set h | h in nodes :: nodes[h].contentHash
  }

  /** Content of removed nodes that no remaining node carries. */
  function Dead(s: Store, gone: set<Hash>): set<Hash> {
    set c | c in ContentHashes(s.nodes) && Carriers(s.nodes, c) <= gone
  }

  /** A store after the nodes `gone` were deleted, in whatever order. */
  function Purged(s: Store, gone: set<Hash>): Store {
    var nodes := s.nodes - gone;
    Store(nodes, s.content - Dead(s, gone),
          map c | c in ContentHashes(nodes) :: Carriers(nodes, c), s.tombstones + Dead(s, gone))
  }

  lemma PurgeNothing(s: Store)
    requires Indexed(s)
    ensures Purged(s, {}) == s
  {
    assert s.nodes - {} == s.nodes;
    var refs := Purged(s, {}).refs;
    assert Dead(s, {}) == {};
    assert refs.Keys == s.refs.Keys by {
      forall c | c in s.refs
        ensures c in ContentHashes(s.nodes)
      {
        var h :| h in s.refs[c];
        assert h in Carriers(s.nodes, c);
      }
    }
    assert refs == s.refs;
  }

  lemma PurgedIndexed(s: Store, gone: set<Hash>)
    requires Indexed(s)
    ensures Indexed(Purged(s, gone))
  {
    var r := Purged(s, gone);
    forall c | c in r.refs
      ensures r.refs[c] != {} && r.refs[c] == Carriers(r.nodes, c)
    {
      var h :| h in r.nodes && r.nodes[h].contentHash == c;
      assert h in Carriers(r.nodes, c);
    }
  }

  lemma SameIndex(s: Store, t: Store)
    requires Indexed(s) && Indexed(t) && s.nodes == t.nodes
    ensures s.refs == t.refs
  {
  }

  lemma DeadGrows(s: Store, gone: set<Hash>, h: Hash)
    requires h in s.nodes && h !in gone
    ensures var c := s.nodes[h].contentHash;
            Dead(s, gone + {h}) == Dead(s, gone) + if Carriers(s.nodes - (gone + {h}), c) == {} then {c} else {}
  {
    var c := s.nodes[h].contentHash;
    var gone' := gone + {h};
    assert h in Carriers(s.nodes, c) * gone';
    assert Carriers(s.nodes - gone', c) == Carriers(s.nodes, c) - gone';
    forall d | d != c
      ensures d in Dead(s, gone') <==> d in Dead(s, gone)
    {
      assert h !in Carriers(s.nodes, d);
      assert Carriers(s.nodes, d) * gone' == Carriers(s.nodes, d) * gone;
    }
    assert c !in Dead(s, gone);
    assert c in Dead(s, gone') <==> Carriers(s.nodes, c) - gone' == {};
  }

  lemma PurgeStepNodes(s: Store, gone: set<Hash>, h: Hash)
    requires Indexed(s) && h in s.nodes && h !in gone
    ensures var r := RemoveNode(Purged(s, gone), h);
            Indexed(r) && r.nodes == s.nodes - (gone + {h}) && r.refs == Purged(s, gone + {h}).refs
  {
    PurgedIndexed(s, gone);
    RemoveNodeIndexed(Purged(s, gone), h);
    PurgedIndexed(s, gone + {h});
    assert (s.nodes - gone) - {h} == s.nodes - (gone + {h});
    SameIndex(RemoveNode(Purged(s, gone), h), Purged(s, gone + {h}));
  }

  lemma PurgedContent(s: Store, gone: set<Hash>, h: Hash)
    requires h in s.nodes && h !in gone
    ensures var c := s.nodes[h].contentHash;
            var last := Carriers(s.nodes - (gone + {h}), c) == {};
            && Purged(s, gone + {h}).content == Purged(s, gone).content - (if last then {c} else {})
            && Purged(s, gone + {h}).tombstones == Purged(s, gone).tombstones + if last then {c} else {}
  {
    DeadGrows(s, gone, h);
  }

  lemma DeleteFields(t: Store, h: Hash, target: Store)
    requires h in t.nodes
    requires var c, r := t.nodes[h].contentHash, RemoveNode(t, h);
             && r.nodes == target.nodes && r.refs == target.refs
             && target.content == t.content - (if IsContentReferenced(r, c) then {} else {c})
             && target.tombstones == t.tombstones + if IsContentReferenced(r, c) then {} else {c}
    ensures Delete(t, h) == target
  {
  }

  /** Deleting one more node of a purged store purges one more node. */
  lemma PurgeStep(s: Store, gone: set<Hash>, h: Hash)
    requires Indexed(s) && h in s.nodes && h !in gone
    ensures Delete(Purged(s, gone), h) == Purged(s, gone + {h})
  {
    var t, c := Purged(s, gone), s.nodes[h].contentHash;
    PurgeStepNodes(s, gone, h);
    PurgedContent(s, gone, h);
    LookupIsEmpty(RemoveNode(t, h), c);
    assert t.nodes[h].contentHash == c;
    DeleteFields(t, h, Purged(s, gone + {h}));
  }

  lemma LookupIsEmpty(s: Store, c: Hash)
    requires Indexed(s)
    ensures !IsContentReferenced(s, c) <==> Carriers(s.nodes, c) == {}
  {
  }

  /** t is s with the nodes it lacks purged. */
  ghost predicate PurgedOf(s: Store, t: Store) {
    t == Purged(s, s.nodes.Keys - t.nodes.Keys)
  }

  lemma DeletePurges(s: Store, t: Store, h: Hash)
    requires Indexed(s) && PurgedOf(s, t) && h in t.nodes
    ensures PurgedOf(s, Delete(t, h))
  {
    var gone := s.nodes.Keys - t.nodes.Keys;
    PurgeStep(s, gone, h);
    assert s.nodes.Keys - (s.nodes - (gone + {h})).Keys == gone + {h};
  }
}
