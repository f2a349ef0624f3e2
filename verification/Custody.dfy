/** The custody forest of documents: uploads create roots, shares create children
    one level deeper, and a peer sees the whole trees it has a part in. */
module Custody {
  import opened Text
  import P = PathSearch

  type Hash = string
  type PeerId = string

  /** One row of the node table. */
  datatype Row = Row(parent: Option<Hash>, owner: PeerId, recipients: set<PeerId>, depth: nat)

  type Table = map<Hash, Row>

  // ------------------------------------------------------- Building the table

  datatype Event =
    | Upload(node: Hash, owner: PeerId, recipients: set<PeerId>)
    | Share(node: Hash, owner: PeerId, recipients: set<PeerId>, parent: Hash)

  /** `ON CONFLICT DO NOTHING`; recipients are added either way. */
  function InsertRow(t: Table, h: Hash, r: Row): Table {
    if h in t then t[h := t[h].(recipients := t[h].recipients + r.recipients)] else t[h := r]
  }

  /** `create_document_node` and `share_document`; the shared node was looked up,
      so a missing one changes nothing. */
  function Apply(t: Table, e: Event): Table {
    match e
    case Upload(h, o, rs) => InsertRow(t, h, Row(None, o, rs, 0))
    case Share(h, o, rs, p) =>
      if p !in t then t else AddRecipients(InsertRow(t, h, Row(Some(p), o, rs, t[p].depth + 1)), p, rs)
  }

  /** The shared node's recipients grow too. */
  function AddRecipients(t: Table, p: Hash, rs: set<PeerId>): Table
    requires p in t
  {
    t[p := t[p].(recipients := t[p].recipients + rs)]
  }

  function Build(events: seq<Event>): Table {
    if events == [] then map[] else Apply(Build(events[..|events| - 1]), events[|events| - 1])
  }

  /** Every parent is a row exactly one level up. */
  ghost predicate Forest(t: Table) {
    forall h :: h in t ==>
      match t[h].parent
      case None => t[h].depth == 0
      case Some(p) => p in t && t[h].depth == t[p].depth + 1
  }

  lemma {:induction false} BuildIsForest(events: seq<Event>)
    ensures Forest(Build(events))
  {
    if events != [] {
      BuildIsForest(events[..|events| - 1]);
      ApplyKeepsForest(Build(events[..|events| - 1]), events[|events| - 1]);
    }
  }

  lemma InsertKeepsForest(t: Table, h: Hash, r: Row)
    requires Forest(t)
    requires match r.parent case None => r.depth == 0 case Some(p) => p in t && r.depth == t[p].depth + 1
    ensures Forest(InsertRow(t, h, r)) && t.Keys <= InsertRow(t, h, r).Keys
  {
  }

  lemma RecipientsKeepForest(t: Table, p: Hash, rs: set<PeerId>)
    requires Forest(t) && p in t
    ensures Forest(AddRecipients(t, p, rs))
  {
  }

  lemma ApplyKeepsForest(t: Table, e: Event)
    requires Forest(t)
    ensures Forest(Apply(t, e))
  {
    match e
    case Upload(h, o, rs) =>
      InsertKeepsForest(t, h, Row(None, o, rs, 0));
    case Share(h, o, rs, p) =>
      if p in t {
        ShareKeepsForest(t, h, o, rs, p);
      }
  }

  lemma ShareKeepsForest(t: Table, h: Hash, o: PeerId, rs: set<PeerId>, p: Hash)
    requires Forest(t) && p in t
    ensures var u := InsertRow(t, h, Row(Some(p), o, rs, t[p].depth + 1)); p in u && Forest(AddRecipients(u, p, rs))
  {
    var r := Row(Some(p), o, rs, t[p].depth + 1);
    InsertKeepsForest(t, h, r);
    var u := InsertRow(t, h, r);
    assert p in u.Keys;
    RecipientsKeepForest(u, p, rs);
  }

  /** A row and its ancestors, nearest first, one level up each time. */
  ghost function Lineage(t: Table, h: Hash): (hs: seq<Hash>)
    requires Forest(t) && h in t
    ensures |hs| >= 1 && hs[0] == h
    decreases t[h].depth
  {
    if t[h].parent.None? then [h] else [h] + Lineage(t, t[h].parent.value)
  }

  lemma {:induction false} LineageAt(t: Table, h: Hash, i: nat)
    requires Forest(t) && h in t && i < |Lineage(t, h)|
    ensures Lineage(t, h)[i] in t && t[Lineage(t, h)[i]].depth == t[h].depth - i
    decreases i
  {
    if i > 0 {
      LineageAt(t, t[h].parent.value, i - 1);
    }
  }

  /** No row is its own ancestor, in every table that uploads and shares build. */
  lemma ParentsAreAcyclic(events: seq<Event>)
    ensures Forest(Build(events))
    ensures forall h :: h in Build(events) ==> h !in Lineage(Build(events), h)[1..]
  {
    BuildIsForest(events);
    var t := Build(events);
    forall h | h in t
      ensures h !in Lineage(t, h)[1..]
    {
      forall i | 1 <= i < |Lineage(t, h)|
        ensures Lineage(t, h)[i] != h
      {
        LineageAt(t, h, i);
      }
    }
  }

  // ------------------------------------------------------- A peer's graph

  ghost function Root(t: Table, h: Hash): (r: Hash)
    requires Forest(t) && h in t
    ensures r in t && t[r].parent.None?
    decreases t[h].depth
  {
    if t[h].parent.None? then h else Root(t, t[h].parent.value)
  }

  function Children(t: Table, h: Hash): set<Hash> {
    set c | c in t && t[c].parent == Some(h)
  }

  predicate Involved(t: Table, peer: PeerId, h: Hash)
    requires h in t
  {
    t[h].owner == peer || peer in t[h].recipients
  }

  /** The climb to the root; a parent that is not a row would stop it. */
  method ClimbToRoot(t: Table, h: Hash) returns (r: Hash)
    requires Forest(t) && h in t
    ensures r == Root(t, h)
  {
    r := h;
    while t[r].parent.Some? && t[r].parent.value in t
      invariant r in t && Root(t, r) == Root(t, h)
      decreases t[r].depth
    {
      r := t[r].parent.value;
    }
  }

  /** The nodes collected so far, with every edge to their children. */
  ghost predicate EdgesOf(t: Table, nodes: set<Hash>, edges: seq<P.RawEdge>) {
    forall e :: e in edges <==> exists a, b :: a in nodes && b in Children(t, a) && e == P.RawEdge(Some(a), Some(b))
  }

  /** The rows below one root. */
  ghost function Tree(t: Table, root: Hash): set<Hash>
    requires Forest(t)
  {
    set h | h in t && Root(t, h) == root
  }

  lemma TreeFacts(t: Table, root: Hash)
    requires Forest(t)
    ensures forall a, b :: a in Tree(t, root) && b in Children(t, a) ==> b in Tree(t, root)
    ensures root in t && t[root].parent.None? ==> root in Tree(t, root)
  {
  }

  /** Step 3 for one root: everything below it, by a stack. Other trees in
      `nodes0` are untouched. */
  method CollectTree(t: Table, root: Hash, nodes0: set<Hash>, edges0: seq<P.RawEdge>)
    returns (nodes: set<Hash>, edges: seq<P.RawEdge>)
    requires Forest(t) && root in t && t[root].parent.None?
    requires EdgesOf(t, nodes0, edges0) && nodes0 !! Tree(t, root)
    ensures nodes == nodes0 + Tree(t, root) && EdgesOf(t, nodes, edges)
  {
    nodes, edges := nodes0, edges0;
    var stack := [root];
    TreeFacts(t, root);
    while stack != []
      invariant Collecting(t, Tree(t, root), root, nodes0, nodes, stack) && EdgesOf(t, nodes, edges)
      decreases t.Keys - nodes, |stack|
    {
      var current := stack[|stack| - 1];
      if current !in nodes {
        var more, below := ChildEdges(t, current);
        CollectStep(t, Tree(t, root), root, nodes0, nodes, stack, below);
        EdgesGrow(t, nodes, edges, current, more);
        nodes, edges, stack := nodes + {current}, edges + more, stack[..|stack| - 1] + below;
      } else {
        SkipStep(t, Tree(t, root), root, nodes0, nodes, stack);
        stack := stack[..|stack| - 1];
      }
    }
    CollectedAll(t, root, nodes0, nodes);
  }

  lemma CollectedAll(t: Table, root: Hash, nodes0: set<Hash>, nodes: set<Hash>)
    requires Forest(t) && root in t && t[root].parent.None? && nodes0 !! Tree(t, root)
    requires Collecting(t, Tree(t, root), root, nodes0, nodes, [])
    ensures nodes == nodes0 + Tree(t, root)
  {
    forall h | h in Tree(t, root)
      ensures h in nodes
    {
      ClosedTree(t, root, nodes, nodes0, h);
    }
  }

  /** Collected and stacked nodes belong to the tree, and what hangs below a
      collected node is collected or stacked. */
  ghost predicate Collecting(t: Table, tree: set<Hash>, root: Hash, nodes0: set<Hash>, nodes: set<Hash>,
                             stack: seq<Hash>) {
    && (forall h :: h in stack ==> h in tree && h in t)
    && nodes0 <= nodes <= nodes0 + tree
    && (root in nodes || root in stack)
    && forall a, b :: a in nodes && a !in nodes0 && b in Children(t, a) ==> b in nodes || b in stack
  }

  lemma CollectStep(t: Table, tree: set<Hash>, root: Hash, nodes0: set<Hash>, nodes: set<Hash>, stack: seq<Hash>,
                    below: seq<Hash>)
    requires stack != [] && Collecting(t, tree, root, nodes0, nodes, stack)
    requires forall a, b :: a in tree && b in Children(t, a) ==> b in tree
    requires forall b :: b in below <==> b in Children(t, stack[|stack| - 1])
    ensures Collecting(t, tree, root, nodes0, nodes + {stack[|stack| - 1]}, stack[..|stack| - 1] + below)
  {
  }

  lemma SkipStep(t: Table, tree: set<Hash>, root: Hash, nodes0: set<Hash>, nodes: set<Hash>, stack: seq<Hash>)
    requires stack != [] && Collecting(t, tree, root, nodes0, nodes, stack) && stack[|stack| - 1] in nodes
    ensures Collecting(t, tree, root, nodes0, nodes, stack[..|stack| - 1])
  {
  }

  lemma EdgesGrow(t: Table, nodes: set<Hash>, edges: seq<P.RawEdge>, h: Hash, more: seq<P.RawEdge>)
    requires EdgesOf(t, nodes, edges)
    requires forall e :: e in more <==> exists b :: b in Children(t, h) && e == P.RawEdge(Some(h), Some(b))
    ensures EdgesOf(t, nodes + {h}, edges + more)
  {
  }

  lemma {:induction false} ClosedTree(t: Table, root: Hash, nodes: set<Hash>, nodes0: set<Hash>, h: Hash)
    requires Forest(t) && root in nodes && h in t && Root(t, h) == root
    requires nodes0 !! Tree(t, root)
    requires forall a, b :: a in nodes && a !in nodes0 && b in Children(t, a) ==> b in nodes
    ensures h in nodes
    decreases t[h].depth
  {
    if t[h].parent.Some? {
      var p := t[h].parent.value;
      ClosedTree(t, root, nodes, nodes0, p);
      assert h in Children(t, p);
    }
  }

  /** The loop over a node's children. */
  method ChildEdges(t: Table, h: Hash) returns (edges: seq<P.RawEdge>, below: seq<Hash>)
    ensures forall e :: e in edges <==> exists b :: b in Children(t, h) && e == P.RawEdge(Some(h), Some(b))
    ensures forall b :: b in below <==> b in Children(t, h)
  {
    edges, below := [], [];
    var left := Children(t, h);
    while left != {}
      invariant left <= Children(t, h)
      invariant forall e :: e in edges <==> exists b :: b in Children(t, h) - left && e == P.RawEdge(Some(h), Some(b))
      invariant forall b :: b in below <==> b in Children(t, h) - left
      decreases left
    {
      var c :| c in left;
      edges, below, left := edges + [P.RawEdge(Some(h), Some(c))], below + [c], left - {c};
    }
  }

  /** h shares its root with a node the peer owns or receives. */
  ghost predicate Visible(t: Table, peer: PeerId, h: Hash)
    requires Forest(t)
  {
    h in t && exists v :: v in t && Involved(t, peer, v) && Root(t, v) == Root(t, h)
  }

  /** Steps 1 and 2: the roots of the nodes a peer has a part in. */
  method RootsFor(t: Table, peer: PeerId) returns (roots: set<Hash>)
    requires Forest(t)
    ensures forall r :: r in roots <==> exists v :: v in t && Involved(t, peer, v) && Root(t, v) == r
  {
    roots := {};
    var left := t.Keys;
    while left != {}
      invariant left <= t.Keys
      invariant forall r :: r in roots <==> exists v :: v in t && v !in left && Involved(t, peer, v) && Root(t, v) == r
      decreases left
    {
      var v :| v in left;
      left := left - {v};
      if Involved(t, peer, v) {
        var r := ClimbToRoot(t, v);
        roots := roots + {r};
      }
    }
  }

  /** `get_graph_for_peer`: exactly the nodes that share a root with a node the
      peer owns or receives, with all edges between them. */
  method GraphForPeer(t: Table, peer: PeerId) returns (nodes: set<Hash>, edges: seq<P.RawEdge>)
    requires Forest(t)
    ensures forall h :: h in nodes <==> Visible(t, peer, h)
    ensures EdgesOf(t, nodes, edges)
  {
    var roots := RootsFor(t, peer);
    nodes, edges := {}, [];
    var left := roots;
    while left != {}
      invariant left <= roots
      invariant forall h :: h in nodes <==> h in t && Root(t, h) in roots - left
      invariant EdgesOf(t, nodes, edges)
      decreases left
    {
      var r :| r in left;
      left := left - {r};
      nodes, edges := CollectTree(t, r, nodes, edges);
    }
  }

  // ------------------------------------------------------- Paths in a forest

  lemma StepIsParent(t: Table, nodes: set<Hash>, edges: seq<P.RawEdge>, a: Hash, b: Hash)
    requires EdgesOf(t, nodes, edges) && "" !in t
    ensures P.Listed(edges, a, b) <==> a != "" && a in nodes && b in t && t[b].parent == Some(a)
  {
  }

  lemma RouteFront(edges: seq<P.RawEdge>, p: seq<Hash>, a: Hash, b: Hash, n: int)
    requires P.Route(edges, p, a, b, n) && |p| > 1
    ensures P.Route(edges, p[..|p| - 1], a, p[|p| - 2], n) && P.Listed(edges, p[|p| - 2], b)
  {
  }

  lemma ReversedCons(front: seq<Hash>, above: seq<Hash>, b: Hash)
    requires |front| <= |above| && front == P.Reversed(above[..|front|])
    ensures front + [b] == P.Reversed(([b] + above)[..|front| + 1])
  {
  }

  /** A route read backwards is the beginning of the lineage of its end. */
  lemma {:induction false} RouteIsLineage(t: Table, nodes: set<Hash>, edges: seq<P.RawEdge>, p: seq<Hash>, a: Hash,
                                          b: Hash, n: int)
    requires Forest(t) && EdgesOf(t, nodes, edges) && "" !in t && b in t && P.Route(edges, p, a, b, n)
    ensures |p| <= |Lineage(t, b)| && p == P.Reversed(Lineage(t, b)[..|p|])
    decreases |p|
  {
    var m := |p| - 1;
    if m == 0 {
      assert p == [b];
    } else {
      RouteFront(edges, p, a, b, n);
      StepIsParent(t, nodes, edges, p[m - 1], b);
      RouteIsLineage(t, nodes, edges, p[..m], a, p[m - 1], n);
      ReversedCons(p[..m], Lineage(t, p[m - 1]), b);
      assert p == p[..m] + [b];
    }
  }

  /** Between two nodes of the forest there is at most one route: the chain of
      ancestors. */
  lemma AtMostOneRoute(t: Table, nodes: set<Hash>, edges: seq<P.RawEdge>, p: seq<Hash>, q: seq<Hash>, a: Hash,
                       b: Hash, n: int)
    requires Forest(t) && EdgesOf(t, nodes, edges) && "" !in t && b in t
    requires P.Route(edges, p, a, b, n) && P.Route(edges, q, a, b, n)
    ensures p == q
  {
    RouteIsLineage(t, nodes, edges, p, a, b, n);
    RouteIsLineage(t, nodes, edges, q, a, b, n);
    assert Lineage(t, b)[|p| - 1] == a && Lineage(t, b)[|q| - 1] == a;
    LineageAt(t, b, |p| - 1);
    LineageAt(t, b, |q| - 1);
  }

  lemma RoutesAreSimple(t: Table, nodes: set<Hash>, edges: seq<P.RawEdge>, p: seq<Hash>, a: Hash, b: Hash, n: int)
    requires Forest(t) && EdgesOf(t, nodes, edges) && "" !in t && b in t && P.Route(edges, p, a, b, n)
    ensures P.Simple(p)
  {
    RouteIsLineage(t, nodes, edges, p, a, b, n);
    LineageIsSimple(t, b);
    ReversedIsSimple(Lineage(t, b), p);
  }

  lemma LineageIsSimple(t: Table, b: Hash)
    requires Forest(t) && b in t
    ensures P.Simple(Lineage(t, b))
  {
    var hs := Lineage(t, b);
    forall i, j | 0 <= i < j < |hs|
      ensures hs[i] != hs[j]
    {
      LineageAt(t, b, i);
      LineageAt(t, b, j);
    }
  }

  lemma ReversedIsSimple(hs: seq<Hash>, p: seq<Hash>)
    requires P.Simple(hs) && |p| <= |hs| && p == P.Reversed(hs[..|p|])
    ensures P.Simple(p)
  {
  }

  /** Each entry of a chain is followed by its parent. */
  ghost predicate StepUp(t: Table, chain: seq<Hash>, k: nat)
    requires k + 1 < |chain|
  {
    chain[k] in t && t[chain[k]].parent == Some(chain[k + 1])
  }

  ghost predicate Linked(t: Table, chain: seq<Hash>) {
    forall k :: 0 <= k < |chain| - 1 ==> StepUp(t, chain, k)
  }

  lemma LinkedCons(t: Table, b: Hash, chain: seq<Hash>)
    requires chain != [] && Linked(t, chain) && b in t && t[b].parent == Some(chain[0])
    ensures Linked(t, [b] + chain)
  {
    forall k | 0 <= k < |chain|
      ensures StepUp(t, [b] + chain, k)
    {
      assert k > 0 ==> StepUp(t, chain, k - 1);
    }
  }

  lemma {:induction false} LineageLinked(t: Table, b: Hash)
    requires Forest(t) && b in t
    ensures Linked(t, Lineage(t, b))
    decreases t[b].depth
  {
    if t[b].parent.Some? {
      LineageLinked(t, t[b].parent.value);
      LinkedCons(t, b, Lineage(t, t[b].parent.value));
    }
  }

  /** A chain of parents inside the graph, read downwards, is a route. */
  lemma ChainIsRoute(t: Table, nodes: set<Hash>, edges: seq<P.RawEdge>, chain: seq<Hash>, i: nat)
    requires EdgesOf(t, nodes, edges) && "" !in t && Linked(t, chain) && i < |chain|
    requires forall k :: 1 <= k <= i ==> chain[k] in nodes && chain[k] in t
    ensures P.Route(edges, P.Reversed(chain[..i + 1]), chain[i], chain[0], i)
  {
    var p := P.Reversed(chain[..i + 1]);
    forall m | 0 < m < |p|
      ensures P.Listed(edges, p[m - 1], p[m])
    {
      assert p[m - 1] == chain[i - m + 1] && p[m] == chain[i - m];
      assert StepUp(t, chain, i - m);
      StepIsParent(t, nodes, edges, chain[i - m + 1], chain[i - m]);
    }
  }

  lemma {:induction false} LineageSharesRoot(t: Table, b: Hash, i: nat)
    requires Forest(t) && b in t && i < |Lineage(t, b)|
    ensures Lineage(t, b)[i] in t && Root(t, Lineage(t, b)[i]) == Root(t, b)
    decreases t[b].depth
  {
    if i > 0 {
      LineageSharesRoot(t, t[b].parent.value, i - 1);
    }
  }

  /** source is an ancestor of target, at most n levels up. */
  ghost predicate AncestorWithin(t: Table, source: Hash, target: Hash, n: int)
    requires Forest(t) && target in t
  {
    exists i :: 1 <= i < |Lineage(t, target)| && i <= n && Lineage(t, target)[i] == source
  }

  lemma LineageIsVisible(t: Table, peer: PeerId, target: Hash, k: nat)
    requires Forest(t) && Visible(t, peer, target) && k < |Lineage(t, target)|
    ensures Visible(t, peer, Lineage(t, target)[k])
  {
    LineageSharesRoot(t, target, k);
  }

  lemma AncestorHasRoute(t: Table, peer: PeerId, nodes: set<Hash>, edges: seq<P.RawEdge>, target: Hash, i: nat, n: int)
    requires Forest(t) && EdgesOf(t, nodes, edges) && "" !in t && target in nodes
    requires forall h :: h in nodes <==> Visible(t, peer, h)
    requires target in t && i < |Lineage(t, target)| && i <= n
    ensures P.Route(edges, P.Reversed(Lineage(t, target)[..i + 1]), Lineage(t, target)[i], target, n)
  {
    var chain := Lineage(t, target);
    forall k | 1 <= k <= i
      ensures chain[k] in nodes && chain[k] in t
    {
      LineageIsVisible(t, peer, target, k);
    }
    LineageLinked(t, target);
    ChainIsRoute(t, nodes, edges, chain, i);
  }

  lemma RouteGivesAncestor(t: Table, nodes: set<Hash>, edges: seq<P.RawEdge>, p: seq<Hash>, source: Hash,
                           target: Hash, n: int)
    requires Forest(t) && EdgesOf(t, nodes, edges) && "" !in t && target in t && source != target
    requires P.Route(edges, p, source, target, n)
    ensures AncestorWithin(t, source, target, n)
  {
    RouteIsLineage(t, nodes, edges, p, source, target, n);
    assert Lineage(t, target)[|p| - 1] == source;
  }

  lemma RouteIffAncestor(t: Table, peer: PeerId, nodes: set<Hash>, edges: seq<P.RawEdge>, source: Hash, target: Hash,
                         n: int)
    requires Forest(t) && EdgesOf(t, nodes, edges) && "" !in t && target in t && target in nodes && source != target
    requires forall h :: h in nodes <==> Visible(t, peer, h)
    ensures (exists p :: P.Route(edges, p, source, target, n)) <==> AncestorWithin(t, source, target, n)
  {
    if AncestorWithin(t, source, target, n) {
      var i :| 1 <= i < |Lineage(t, target)| && i <= n && Lineage(t, target)[i] == source;
      AncestorHasRoute(t, peer, nodes, edges, target, i, n);
    }
    if exists p :: P.Route(edges, p, source, target, n) {
      var p :| P.Route(edges, p, source, target, n);
      RouteGivesAncestor(t, nodes, edges, p, source, target, n);
    }
  }

  /** `get_graph_paths_for_peer`. None: source or target is not visible. In both
      modes at most one path comes back, the ancestor chain of the target down from
      the source, and it does exactly when source is an ancestor of target at most
      max_depth levels up. */
  method GraphPathsForPeer(t: Table, peer: PeerId, source: Hash, target: Hash, mode: string, maxPaths: int,
                           maxDepth: int)
    returns (r: Option<P.Answer>)
    requires Forest(t) && "" !in t
    ensures r.None? <==> !Visible(t, peer, source) || !Visible(t, peer, target)
    ensures r.Some? ==> (r.value == P.InvalidMode <==> mode != "shortest" && mode != "all")
    ensures r.Some? && r.value.Paths? && source == target ==> r.value == P.Paths([[source]], false)
    ensures r.Some? && r.value.Paths? && source != target ==>
              && |r.value.paths| <= 1
              && (|r.value.paths| == 1 <==> AncestorWithin(t, source, target, P.Clamp(maxDepth, 1, 64)))
              && (r.value.truncated <==> mode == "all" && |r.value.paths| == 1 && maxPaths <= 1)
    ensures r.Some? && r.value.Paths? && source != target ==>
              forall p :: p in r.value.paths ==>
                0 < |p| <= |Lineage(t, target)| && p[0] == source && p == P.Reversed(Lineage(t, target)[..|p|])
  {
    var nodes, edges := GraphForPeer(t, peer);
    if source !in nodes || target !in nodes {
      return None;
    }
    var answer := P.FindPaths(edges, source, target, mode, maxPaths, maxDepth);
    if source != target && answer.Paths? {
      ForestAnswer(t, peer, nodes, edges, source, target, P.Clamp(maxDepth, 1, 64), mode, maxPaths, answer);
    }
    r := Some(answer);
  }

  lemma PathsAreLineages(t: Table, nodes: set<Hash>, edges: seq<P.RawEdge>, a: Hash, b: Hash, n: int,
                         paths: seq<seq<Hash>>)
    requires Forest(t) && EdgesOf(t, nodes, edges) && "" !in t && b in t
    requires forall p :: p in paths ==> P.Route(edges, p, a, b, n)
    ensures forall p :: p in paths ==> 0 < |p| <= |Lineage(t, b)| && p[0] == a && p == P.Reversed(Lineage(t, b)[..|p|])
  {
    forall p | p in paths
      ensures 0 < |p| <= |Lineage(t, b)| && p[0] == a && p == P.Reversed(Lineage(t, b)[..|p|])
    {
      RouteIsLineage(t, nodes, edges, p, a, b, n);
    }
  }

  /** What either mode answers on the graph of a peer. */
  lemma ForestAnswer(t: Table, peer: PeerId, nodes: set<Hash>, edges: seq<P.RawEdge>, source: Hash, target: Hash,
                     n: int, mode: string, maxPaths: int, r: P.Answer)
    requires Forest(t) && EdgesOf(t, nodes, edges) && "" !in t && (forall h :: h in nodes <==> Visible(t, peer, h))
    requires target in t && target in nodes && source != target && n >= 1 && (mode == "shortest" || mode == "all")
    requires mode == "shortest" ==> P.AnswersShortest(edges, source, target, n, r)
    requires mode == "all" ==> P.AnswersAll(edges, source, target, n, P.Clamp(maxPaths, 1, 200), r)
    ensures r.Paths? && |r.paths| <= 1 && (|r.paths| == 1 <==> AncestorWithin(t, source, target, n))
    ensures r.truncated <==> mode == "all" && |r.paths| == 1 && maxPaths <= 1
    ensures forall p :: p in r.paths ==>
              0 < |p| <= |Lineage(t, target)| && p[0] == source && p == P.Reversed(Lineage(t, target)[..|p|])
  {
    RouteIffAncestor(t, peer, nodes, edges, source, target, n);
    OneRouteOnly(t, nodes, edges, source, target, n, r.paths);
    SomePath(edges, source, target, n, r, mode, maxPaths);
    PathsAreLineages(t, nodes, edges, source, target, n, r.paths);
  }

  /** Routes between the same ends: simple, and at most one without repeats. */
  lemma OneRouteOnly(t: Table, nodes: set<Hash>, edges: seq<P.RawEdge>, a: Hash, b: Hash, n: int, paths: seq<seq<Hash>>)
    requires Forest(t) && EdgesOf(t, nodes, edges) && "" !in t && b in t
    ensures forall p :: P.Route(edges, p, a, b, n) ==> P.Simple(p)
    ensures P.SimpleRoutes(edges, paths, a, b, n) ==> |paths| <= 1
  {
    forall p | P.Route(edges, p, a, b, n)
      ensures P.Simple(p)
    {
      RoutesAreSimple(t, nodes, edges, p, a, b, n);
    }
    if P.SimpleRoutes(edges, paths, a, b, n) && |paths| >= 2 {
      assert paths[0] in paths && paths[1] in paths;
      AtMostOneRoute(t, nodes, edges, paths[0], paths[1], a, b, n);
    }
  }

  lemma SomePath(edges: seq<P.RawEdge>, source: Hash, target: Hash, n: int, r: P.Answer, mode: string, maxPaths: int)
    requires mode == "shortest" || mode == "all"
    requires mode == "shortest" ==> P.AnswersShortest(edges, source, target, n, r)
    requires mode == "all" ==> P.AnswersAll(edges, source, target, n, P.Clamp(maxPaths, 1, 200), r)
    requires forall p :: P.Route(edges, p, source, target, n) ==> P.Simple(p)
    ensures |r.paths| >= 1 <==> exists p :: P.Route(edges, p, source, target, n)
    ensures forall p :: p in r.paths ==> P.Route(edges, p, source, target, n)
  {
    if mode == "all" && |r.paths| >= 1 {
      assert r.paths[0] in r.paths;
    }
  }
}
