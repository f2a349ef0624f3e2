/** `InMemoryStorage` with its reverse index, and the peer operations that write
    to it. `Store` is the value of one storage; the class updates its fields the
    way the code does and is proved against the functions on `Store`. */
module Storage {
  import opened Text

  type Hash = string
  type PeerId = string

  datatype Node = Node(
    hash: Hash, contentHash: Hash, owner: PeerId, recipients: seq<PeerId>,
    parent: Option<Hash>, children: set<Hash>, depth: int)

  datatype Store = Store(
    nodes: map<Hash, Node>, content: map<Hash, string>, refs: map<Hash, set<Hash>>, tombstones: set<Hash>)

  // ------------------------------------------------------- What the index means

  /** The nodes that carry a content hash, by a full scan: the SQL query of the
      other backend. */
  function Carriers(nodes: map<Hash, Node>, c: Hash): set<Hash> {
    set h | h in nodes && nodes[h].contentHash == c
  }

  /** The index is the inverse of the node map: no empty and no missing entry. */
  ghost predicate Indexed(s: Store) {
    && (forall h :: h in s.nodes ==> s.nodes[h].hash == h && s.nodes[h].contentHash in s.refs)
    && (forall c :: c in s.refs ==> s.refs[c] != {} && s.refs[c] == Carriers(s.nodes, c))
  }

  /** Every stored node has its content. */
  ghost predicate Backed(s: Store) {
    forall h :: h in s.nodes ==> s.nodes[h].contentHash in s.content
  }

  // ------------------------------------------------------- Storage operations

  /** The set of one key without h; an emptied key disappears. */
  function Discard(refs: map<Hash, set<Hash>>, c: Hash, h: Hash): map<Hash, set<Hash>> {
    if c in refs then
      var left := refs[c] - {h};
      if left == {} then refs - {c} else refs[c := left]
    else refs
  }

  function RemoveNode(s: Store, h: Hash): (r: Store)
    ensures r.content == s.content && r.tombstones == s.tombstones
    ensures r.nodes == s.nodes - {h}
  {
    if h in s.nodes then
      s.(nodes := s.nodes - {h}, refs := Discard(s.refs, s.nodes[h].contentHash, h))
    else s
  }

  /** An existing node of that hash leaves the index before the new one enters. */
  function AddNode(s: Store, n: Node): (r: Store)
    ensures r.content == s.content && r.tombstones == s.tombstones
    ensures r.nodes == s.nodes[n.hash := n]
  {
    Insert(RemoveNode(s, n.hash), n)
  }

  function Insert(s: Store, n: Node): (r: Store) {
    var held := if n.contentHash in s.refs then s.refs[n.contentHash] else {};
    s.(nodes := s.nodes[n.hash := n], refs := s.refs[n.contentHash := held + {n.hash}])
  }

  predicate IsContentReferenced(s: Store, c: Hash) {
    c in s.refs && |s.refs[c]| > 0
  }

  lemma InsertIndexed(s: Store, n: Node)
    requires Indexed(s) && n.hash !in s.nodes
    ensures Indexed(Insert(s, n))
  {
  }

  lemma RemoveNodeIndexed(s: Store, h: Hash)
    requires Indexed(s)
    ensures Indexed(RemoveNode(s, h))
  {
  }

  lemma AddNodeIndexed(s: Store, n: Node)
    requires Indexed(s)
    ensures Indexed(AddNode(s, n))
  {
    RemoveNodeIndexed(s, n.hash);
    InsertIndexed(RemoveNode(s, n.hash), n);
  }

  /** The constant-time lookup answers what the full scan answers. */
  lemma LookupIsScan(s: Store, c: Hash)
    requires Indexed(s)
    ensures IsContentReferenced(s, c) <==> exists h :: h in s.nodes && s.nodes[h].contentHash == c
  {
  }

  // ------------------------------------------------------- Peer operations

  function CreateRoot(s: Store, n: Node, text: string): Store {
    var r := AddNode(s, n);
    r.(content := r.content[n.contentHash := text])
  }

  /** `forward_coc_message`: the child, then the parent that lists it. */
  function Forward(s: Store, parent: Node, child: Node): Store {
    AddNode(AddNode(s, Forwarded(parent, child)), WithChild(parent, child.hash))
  }

  /** The new node: the parent's content, one level deeper. */
  function Forwarded(parent: Node, child: Node): Node {
    Below(parent, child.(contentHash := parent.contentHash))
  }

  function WithChild(parent: Node, h: Hash): Node {
    parent.(children := parent.children + {h})
  }

  /** The `coc_data` branch of `receive_message`. */
  function Receive(s: Store, n: Node, text: string): Store {
    var r := CreateRoot(s, n, text);
    if n.parent.Some? && n.parent.value in r.nodes then LinkParent(r, n, n.parent.value) else r
  }

  /** `parent.add_child(n)`: one more child, and n one level deeper. */
  function LinkParent(s: Store, n: Node, p: Hash): Store
    requires p in s.nodes
  {
    AddNode(AddNode(s, Below(s.nodes[p], n)), WithChild(AddNode(s, Below(s.nodes[p], n)).nodes[p], n.hash))
  }

  function Below(parent: Node, n: Node): Node {
    n.(depth := parent.depth + 1)
  }

  /** The storage part of `process_token`: node, then unreferenced content. */
  function Delete(s: Store, h: Hash): (r: Store)
    requires h in s.nodes
    ensures r.nodes == s.nodes - {h}
  {
    var c := s.nodes[h].contentHash;
    var r := RemoveNode(s, h);
    if IsContentReferenced(r, c) then r
    else r.(content := r.content - {c}, tombstones := r.tombstones + {c})
  }

  datatype Operation =
    | DoCreate(node: Node, text: string)
    | DoForward(parentNode: Node, child: Node)
    | DoReceive(node: Node, text: string)
    | DoDelete(h: Hash)

  function Apply(s: Store, op: Operation): Store {
    match op
    case DoCreate(n, text) => CreateRoot(s, n, text)
    case DoForward(p, c) => Forward(s, p, c)
    case DoReceive(n, text) => Receive(s, n, text)
    case DoDelete(h) => if h in s.nodes then Delete(s, h) else s
  }

  function Run(s: Store, ops: seq<Operation>): Store
    decreases |ops|
  {
    if ops == [] then s else Run(Apply(s, ops[0]), ops[1..])
  }

  /** A forward finds the content of the node it forwards. */
  ghost predicate Forwardable(s: Store, op: Operation) {
    op.DoForward? ==> op.parentNode.contentHash in s.content
  }

  ghost predicate RunForwardable(s: Store, ops: seq<Operation>)
    decreases |ops|
  {
    ops == [] || (Forwardable(s, ops[0]) && RunForwardable(Apply(s, ops[0]), ops[1..]))
  }

  lemma CreateRootIndexed(s: Store, n: Node, text: string)
    requires Indexed(s)
    ensures Indexed(CreateRoot(s, n, text))
  {
    AddNodeIndexed(s, n);
  }

  lemma TwoAddsIndexed(s: Store, m: Node, n: Node)
    requires Indexed(s)
    ensures Indexed(AddNode(AddNode(s, m), n))
  {
    AddNodeIndexed(s, m);
    AddNodeIndexed(AddNode(s, m), n);
  }

  lemma LinkParentIndexed(s: Store, n: Node, p: Hash)
    requires Indexed(s) && p in s.nodes
    ensures Indexed(LinkParent(s, n, p))
  {
    TwoAddsIndexed(s, Below(s.nodes[p], n), WithChild(AddNode(s, Below(s.nodes[p], n)).nodes[p], n.hash));
  }

  lemma ForwardIndexed(s: Store, p: Node, c: Node)
    requires Indexed(s)
    ensures Indexed(Forward(s, p, c))
  {
    TwoAddsIndexed(s, Forwarded(p, c), WithChild(p, c.hash));
  }

  lemma ReceiveIndexed(s: Store, n: Node, text: string)
    requires Indexed(s)
    ensures Indexed(Receive(s, n, text))
  {
    var r := CreateRoot(s, n, text);
    CreateRootIndexed(s, n, text);
    if n.parent.Some? && n.parent.value in r.nodes {
      LinkParentIndexed(r, n, n.parent.value);
      assert Receive(s, n, text) == LinkParent(r, n, n.parent.value);
    }
  }

  lemma ApplyIndexed(s: Store, op: Operation)
    requires Indexed(s)
    ensures Indexed(Apply(s, op))
  {
    match op
    case DoCreate(n, text) =>
      CreateRootIndexed(s, n, text);
    case DoForward(p, c) =>
      ForwardIndexed(s, p, c);
    case DoReceive(n, text) =>
      ReceiveIndexed(s, n, text);
    case DoDelete(h) =>
      RemoveNodeIndexed(s, h);
  }

  /** One operation keeps every node's content, exactly when a forward finds the
      content it forwards. */
  lemma ApplyBackedIff(s: Store, op: Operation)
    requires Indexed(s) && Backed(s)
    ensures Backed(Apply(s, op)) <==> Forwardable(s, op)
  {
    match op
    case DoCreate(n, text) =>
    case DoForward(p, c) =>
      var r := Apply(s, op);
      assert p.hash in r.nodes && r.nodes[p.hash].contentHash == p.contentHash;
    case DoReceive(n, text) =>
    case DoDelete(h) =>
      if h in s.nodes {
        RemoveNodeIndexed(s, h);
        LookupIsScan(RemoveNode(s, h), s.nodes[h].contentHash);
      }
  }

  /** A node that is still held can be forwarded after its content was deleted; then
      nodes without content are stored. */
  lemma ForwardAfterDelete(n: Node, text: string, child: Node)
    ensures !Backed(Run(Store(map[], map[], map[], {}), [DoCreate(n, text), DoDelete(n.hash), DoForward(n, child)]))
  {
    var s0 := Store(map[], map[], map[], {});
    var ops := [DoCreate(n, text), DoDelete(n.hash), DoForward(n, child)];
    var s1 := Apply(s0, ops[0]);
    var s2 := Apply(s1, ops[1]);
    CreateRootIndexed(s0, n, text);
    assert s1.nodes == map[n.hash := n] && s1.content == map[n.contentHash := text];
    ApplyIndexed(s1, ops[1]);
    assert s2.nodes == map[];
    RemoveNodeIndexed(s1, n.hash);
    LookupIsScan(RemoveNode(s1, n.hash), n.contentHash);
    assert n.contentHash !in s2.content;
    ApplyBackedIff(s2, ops[2]);
    assert ops[1..][1..] == [ops[2]] && [ops[2]][1..] == [];
    assert Run(s0, ops) == Run(s1, ops[1..]) == Run(s2, [ops[2]]) == Apply(s2, ops[2]);
  }

  /** Over every run the index stays the inverse of the node map, so lookups
      agree with scans, and content is never missing. */
  lemma {:induction false} RunsKeepIndexAndContent(s: Store, ops: seq<Operation>)
    requires Indexed(s) && Backed(s) && RunForwardable(s, ops)
    ensures Indexed(Run(s, ops)) && Backed(Run(s, ops))
    ensures forall c :: IsContentReferenced(Run(s, ops), c) <==>
              exists h :: h in Run(s, ops).nodes && Run(s, ops).nodes[h].contentHash == c
    decreases |ops|
  {
    if ops == [] {
      forall c
        ensures IsContentReferenced(s, c) <==> exists h :: h in s.nodes && s.nodes[h].contentHash == c
      {
        LookupIsScan(s, c);
      }
    } else {
      ApplyIndexed(s, ops[0]);
      ApplyBackedIff(s, ops[0]);
      RunsKeepIndexAndContent(Apply(s, ops[0]), ops[1..]);
    }
  }

  // ------------------------------------------------------- No content left behind

  /** Every stored content is carried by a node. */
  ghost predicate NoOrphans(s: Store) {
    forall c :: c in s.content ==> Carriers(s.nodes, c) != {}
  }

  /** A stored node of that hash has the same content hash: node hashes cover it. */
  ghost predicate SameContent(s: Store, n: Node) {
    n.hash in s.nodes ==> s.nodes[n.hash].contentHash == n.contentHash
  }

  ghost predicate HashesAgree(s: Store, op: Operation) {
    match op
    case DoCreate(n, _) => SameContent(s, n)
    case DoForward(p, c) => SameContent(s, p) && SameContent(s, Forwarded(p, c))
    case DoReceive(n, _) => SameContent(s, n)
    case DoDelete(_) => true
  }

  ghost predicate RunHashesAgree(s: Store, ops: seq<Operation>)
    decreases |ops|
  {
    ops == [] || (HashesAgree(s, ops[0]) && RunHashesAgree(Apply(s, ops[0]), ops[1..]))
  }

  lemma AddNodeCarriers(s: Store, n: Node, c: Hash)
    requires SameContent(s, n)
    ensures Carriers(AddNode(s, n).nodes, c) == Carriers(s.nodes, c) + if c == n.contentHash then {n.hash} else {}
  {
  }

  lemma AddNodeNoOrphans(s: Store, n: Node)
    requires NoOrphans(s) && SameContent(s, n)
    ensures NoOrphans(AddNode(s, n))
  {
  }

  lemma CreateNoOrphans(s: Store, n: Node, text: string)
    requires NoOrphans(s) && SameContent(s, n)
    ensures NoOrphans(CreateRoot(s, n, text))
  {
    AddNodeNoOrphans(s, n);
    AddNodeCarriers(s, n, n.contentHash);
  }

  lemma LinkNoOrphans(s: Store, n: Node, p: Hash)
    requires Indexed(s) && NoOrphans(s) && SameContent(s, n) && p in s.nodes
    ensures NoOrphans(LinkParent(s, n, p))
  {
    var below := Below(s.nodes[p], n);
    AddNodeNoOrphans(s, below);
    var r := AddNode(s, below);
    AddNodeNoOrphans(r, WithChild(r.nodes[p], n.hash));
  }

  lemma DeleteNoOrphans(s: Store, h: Hash)
    requires Indexed(s) && NoOrphans(s) && h in s.nodes
    ensures NoOrphans(Delete(s, h))
  {
    var r, d := RemoveNode(s, h), s.nodes[h].contentHash;
    RemoveNodeIndexed(s, h);
    LookupIsScan(r, d);
    forall c | c in Delete(s, h).content
      ensures Carriers(Delete(s, h).nodes, c) != {}
    {
      var k :| k in Carriers(s.nodes, c);
      if c == d {
        var l :| l in r.nodes && r.nodes[l].contentHash == d;
        assert l in Carriers(r.nodes, c);
      } else {
        assert k in Carriers(r.nodes, c);
      }
    }
  }

  lemma ApplyNoOrphans(s: Store, op: Operation)
    requires Indexed(s) && NoOrphans(s) && HashesAgree(s, op)
    ensures NoOrphans(Apply(s, op))
  {
    match op
    case DoCreate(n, text) =>
      CreateNoOrphans(s, n, text);
    case DoForward(p, c) =>
      AddNodeNoOrphans(s, Forwarded(p, c));
      AddNodeNoOrphans(AddNode(s, Forwarded(p, c)), WithChild(p, c.hash));
    case DoReceive(n, text) =>
      CreateNoOrphans(s, n, text);
      CreateRootIndexed(s, n, text);
      if n.parent.Some? && n.parent.value in CreateRoot(s, n, text).nodes {
        LinkNoOrphans(CreateRoot(s, n, text), n, n.parent.value);
      }
    case DoDelete(h) =>
      if h in s.nodes {
        DeleteNoOrphans(s, h);
      }
  }

  /** Over every run a content is stored exactly as long as a node carries it. */
  lemma {:induction false} ContentIffCarried(s: Store, ops: seq<Operation>)
    requires Indexed(s) && Backed(s) && NoOrphans(s) && RunForwardable(s, ops) && RunHashesAgree(s, ops)
    ensures forall c :: c in Run(s, ops).content <==> Carriers(Run(s, ops).nodes, c) != {}
    decreases |ops|
  {
    if ops != [] {
      ApplyIndexed(s, ops[0]);
      ApplyBackedIff(s, ops[0]);
      ApplyNoOrphans(s, ops[0]);
      ContentIffCarried(Apply(s, ops[0]), ops[1..]);
    }
  }

  // ------------------------------------------------------- The class

  class InMemoryStorage {
    var nodes: map<Hash, Node>
    var content: map<Hash, string>
    var contentRefs: map<Hash, set<Hash>>
    var tombstones: set<Hash>

    function State(): Store
      reads this
    {
      Store(nodes, content, contentRefs, tombstones)
    }

    constructor ()
      ensures State() == Store(map[], map[], map[], {}) && Indexed(State()) && Backed(State())
    {
      nodes, content, contentRefs, tombstones := map[], map[], map[], {};
    }

    method DiscardRef(c: Hash, h: Hash)
      modifies this`contentRefs
      ensures contentRefs == Discard(old(contentRefs), c, h)
    {
      if c in contentRefs {
        contentRefs := contentRefs[c := contentRefs[c] - {h}];
        if contentRefs[c] == {} {
          contentRefs := contentRefs - {c};
        }
      }
    }

    method Add(node: Node)
      requires Indexed(State())
      modifies this
      ensures State() == AddNode(old(State()), node) && Indexed(State())
    {
      ghost var before := State();
      AddNodeIndexed(before, node);
      ghost var cleared := RemoveNode(before, node.hash);
      if node.hash in nodes {
        DiscardRef(nodes[node.hash].contentHash, node.hash);
      }
      assert contentRefs == cleared.refs;
      nodes := nodes[node.hash := node];
      EnterRef(node.contentHash, node.hash);
      assert State() == Insert(cleared, node);
    }

    method EnterRef(c: Hash, h: Hash)
      modifies this`contentRefs
      ensures contentRefs == old(contentRefs)[c := (if c in old(contentRefs) then old(contentRefs)[c] else {}) + {h}]
    {
      if c !in contentRefs {
        contentRefs := contentRefs[c := {}];
      }
      contentRefs := contentRefs[c := contentRefs[c] + {h}];
    }

    method Remove(h: Hash)
      requires Indexed(State())
      modifies this
      ensures State() == RemoveNode(old(State()), h) && Indexed(State())
    {
      RemoveNodeIndexed(State(), h);
      if h in nodes {
        DiscardRef(nodes[h].contentHash, h);
        nodes := nodes - {h};
      }
    }

    method IsReferenced(c: Hash) returns (r: bool)
      requires Indexed(State())
      ensures r <==> exists h :: h in nodes && nodes[h].contentHash == c
    {
      LookupIsScan(State(), c);
      r := c in contentRefs && |contentRefs[c]| > 0;
    }

    method AddContent(c: Hash, text: string)
      modifies this`content
      ensures content == old(content)[c := text]
    {
      content := content[c := text];
    }

    method DeleteNode(h: Hash)
      requires Indexed(State()) && h in nodes
      modifies this
      ensures State() == Delete(old(State()), h) && Indexed(State())
      ensures old(Backed(State())) ==> Backed(State())
    {
      ApplyIndexed(State(), DoDelete(h));
      if Backed(State()) {
        ApplyBackedIff(State(), DoDelete(h));
      }
      var c := nodes[h].contentHash;
      Remove(h);
      LookupIsScan(State(), c);
      var referenced := IsReferenced(c);
      if !referenced {
        content := content - {c};
        tombstones := tombstones + {c};
      }
    }

    method CreateCocRoot(node: Node, text: string)
      requires Indexed(State())
      modifies this
      ensures State() == CreateRoot(old(State()), node, text) && Indexed(State())
      ensures nodes == old(nodes)[node.hash := node] && content == old(content)[node.contentHash := text]
    {
      Add(node);
      AddContent(node.contentHash, text);
    }

    method ForwardCocMessage(parent: Node, child: Node)
      requires Indexed(State())
      modifies this
      ensures State() == Forward(old(State()), parent, child) && Indexed(State())
      ensures child.hash != parent.hash ==> nodes == old(nodes)[
                child.hash := child.(contentHash := parent.contentHash, depth := parent.depth + 1)][
                parent.hash := parent.(children := parent.children + {child.hash})]
      ensures content == old(content)
    {
      Add(Forwarded(parent, child));
      Add(WithChild(parent, child.hash));
    }

    method ReceiveCocData(node: Node, text: string)
      requires Indexed(State())
      modifies this
      ensures State() == Receive(old(State()), node, text) && Indexed(State())
      ensures node.hash in nodes
      ensures nodes[node.hash].contentHash == node.contentHash && content == old(content)[node.contentHash := text]
      ensures node.parent.Some? && node.parent.value in old(nodes) && node.parent.value != node.hash ==>
                && nodes[node.hash].depth == nodes[node.parent.value].depth + 1
                && nodes[node.parent.value].children == old(nodes)[node.parent.value].children + {node.hash}
    {
      Add(node);
      AddContent(node.contentHash, text);
      if node.parent.Some? && node.parent.value in nodes {
        Add(Below(nodes[node.parent.value], node));
        Add(WithChild(nodes[node.parent.value], node.hash));
      }
    }
  }
}
