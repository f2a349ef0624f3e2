/** `find_paths_in_edges`: bounded breadth-first search for one shortest path and
    bounded depth-first search for all simple paths. */
module PathSearch {
  import opened Text

  type Vertex = string
  type Graph = map<Vertex, set<Vertex>>

  /** An edge as given: either end may be missing or empty, and is then skipped. */
  datatype RawEdge = RawEdge(from: Option<string>, to: Option<string>)

  predicate Usable(e: RawEdge) {
    e.from.Some? && e.to.Some? && e.from.value != "" && e.to.value != ""
  }

  function Next(g: Graph, v: Vertex): set<Vertex> {
    if v in g then g[v] else {}
  }

  function AddEdge(g: Graph, e: RawEdge): (r: Graph)
    ensures forall a, b :: b in Next(r, a) <==> b in Next(g, a) || (Usable(e) && a == e.from.value && b == e.to.value)
  {
    if Usable(e) then g[e.from.value := Next(g, e.from.value) + {e.to.value}] else g
  }

  /** The adjacency sets hold exactly the usable edges. */
  method BuildAdjacency(edges: seq<RawEdge>) returns (g: Graph)
    ensures forall a, b :: b in Next(g, a) <==> Listed(edges, a, b)
  {
    g := map[];
    for i := 0 to |edges|
      invariant forall a, b :: b in Next(g, a) <==> Listed(edges[..i], a, b)
    {
      assert edges[..i + 1] == edges[..i] + [edges[i]];
      g := AddEdge(g, edges[i]);
    }
    assert edges[..|edges|] == edges;
  }

  ghost predicate Listed(edges: seq<RawEdge>, a: Vertex, b: Vertex) {
    a != "" && b != "" && RawEdge(Some(a), Some(b)) in edges
  }

  // ------------------------------------------------------- Paths

  ghost predicate IsPath(g: Graph, p: seq<Vertex>) {
    |p| > 0 && forall i :: 0 < i < |p| ==> p[i] in Next(g, p[i - 1])
  }

  /** A path from a to b of at most n edges. */
  ghost predicate Connects(g: Graph, p: seq<Vertex>, a: Vertex, b: Vertex, n: int) {
    IsPath(g, p) && p[0] == a && p[|p| - 1] == b && |p| - 1 <= n
  }

  ghost predicate NoPath(g: Graph, a: Vertex, b: Vertex, n: int) {
    forall p :: !Connects(g, p, a, b, n)
  }

  ghost predicate Simple(p: seq<Vertex>) {
    forall i, j :: 0 <= i < j < |p| ==> p[i] != p[j]
  }

  function Clamp(n: int, low: int, high: int): (r: int)
    requires low <= high
    ensures low <= r <= high && (r < n ==> r == high) && (r > n ==> r == low)
  {
    if n < low then low else if n > high then high else n
  }

  // ------------------------------------------------------- Breadth-first search

  ghost function Universe(g: Graph, source: Vertex): set<Vertex> {
    {source} + set a, b | a in g && b in g[a] :: b
  }

  /** Parents and depths of the visited vertices form a tree rooted at source. */
  ghost predicate Tree(g: Graph, source: Vertex, parents: map<Vertex, Vertex>, depth: map<Vertex, nat>) {
    && source in depth && depth[source] == 0
    && parents.Keys == depth.Keys - {source}
    && forall v :: v in parents ==> parents[v] in depth && v in Next(g, parents[v]) && depth[v] == depth[parents[v]] + 1
  }

  /** Successors of v are visited, at most one level deeper. */
  ghost predicate Expanded(g: Graph, depth: map<Vertex, nat>, v: Vertex)
    requires v in depth
  {
    forall n :: n in Next(g, v) ==> n in depth && depth[n] <= depth[v] + 1
  }

  /** Queued vertices are visited, level d or d + 1, in order of level, and no
      visited vertex is deeper. */
  ghost predicate Layered(queue: seq<Vertex>, depth: map<Vertex, nat>, d: nat) {
    && (forall v :: v in depth ==> depth[v] <= d + 1)
    && (forall i :: 0 <= i < |queue| ==> queue[i] in depth && d <= depth[queue[i]] <= d + 1)
    && forall i, j :: 0 <= i < j < |queue| ==> depth[queue[i]] <= depth[queue[j]]
  }

  /** Everything visited at a level below n is expanded. */
  ghost predicate ExpandedBelow(g: Graph, depth: map<Vertex, nat>, n: int) {
    forall v :: v in depth && depth[v] < n ==> Expanded(g, depth, v)
  }

  /** Walking along a path, each vertex is visited no later than the walk. */
  lemma {:induction false} WalkIsVisited(g: Graph, source: Vertex, depth: map<Vertex, nat>, n: int, p: seq<Vertex>,
                                         i: nat)
    requires source in depth && depth[source] == 0 && ExpandedBelow(g, depth, n)
    requires IsPath(g, p) && p[0] == source && i < |p| && i <= n
    ensures p[i] in depth && depth[p[i]] <= i
  {
    if i > 0 {
      WalkIsVisited(g, source, depth, n, p, i - 1);
      assert Expanded(g, depth, p[i - 1]);
      assert p[i] in Next(g, p[i - 1]);
    }
  }

  /** If everything below level n is expanded and the target is not visited, no
      path of at most n edges leads to it. */
  lemma Unvisited(g: Graph, source: Vertex, target: Vertex, depth: map<Vertex, nat>, n: int)
    requires source in depth && depth[source] == 0 && ExpandedBelow(g, depth, n) && target !in depth
    ensures NoPath(g, source, target, n)
  {
    forall p | Connects(g, p, source, target, n)
      ensures false
    {
      WalkIsVisited(g, source, depth, n, p, |p| - 1);
    }
  }

  /** The state between two turns of the outer loop. */
  ghost predicate Searching(g: Graph, source: Vertex, target: Vertex, n: int,
                            queue: seq<Vertex>, parents: map<Vertex, Vertex>, depth: map<Vertex, nat>) {
    && Tree(g, source, parents, depth) && target !in depth
    && depth.Keys <= Universe(g, source)
    && (exists d: nat :: Layered(queue, depth, d))
    && (forall v :: v in depth && v !in queue && depth[v] < n ==> Expanded(g, depth, v))
    && forall v :: v in depth ==> depth[v] <= n
  }

  /** The target was reached, at a level below which everything is expanded. */
  ghost predicate Found(g: Graph, source: Vertex, target: Vertex, n: int, parents: map<Vertex, Vertex>,
                        depth: map<Vertex, nat>) {
    && Tree(g, source, parents, depth) && target in parents && depth[target] <= n
    && NoPath(g, source, target, depth[target] - 1)
  }

  ghost predicate Extends(depth: map<Vertex, nat>, depth': map<Vertex, nat>) {
    forall v :: v in depth ==> v in depth' && depth'[v] == depth[v]
  }

  /** One vertex taken from the front of the queue, with what is known then. */
  ghost predicate Turn(g: Graph, source: Vertex, target: Vertex, n: int, current: Vertex,
                       queue: seq<Vertex>, parents: map<Vertex, Vertex>, depth: map<Vertex, nat>) {
    && Tree(g, source, parents, depth) && target !in depth && depth.Keys <= Universe(g, source)
    && current in depth && depth[current] < n && Layered(queue, depth, depth[current])
    && (forall v :: v in depth && v !in queue && v != current && depth[v] < n ==> Expanded(g, depth, v))
    && forall v :: v in depth ==> depth[v] <= n
  }

  lemma TurnBelow(g: Graph, source: Vertex, target: Vertex, n: int, current: Vertex,
                  queue: seq<Vertex>, parents: map<Vertex, Vertex>, depth: map<Vertex, nat>)
    requires Turn(g, source, target, n, current, queue, parents, depth)
    ensures NoPath(g, source, target, depth[current])
  {
    forall v | v in depth && depth[v] < depth[current]
      ensures Expanded(g, depth, v)
    {
      assert v !in queue;
    }
    Unvisited(g, source, target, depth, depth[current]);
  }

  /** The inner loop: visit the unvisited successors of one vertex, and stop the
      whole search when the target is among them. */
  method Expand(g: Graph, source: Vertex, target: Vertex, n: int, current: Vertex,
                queue0: seq<Vertex>, parents0: map<Vertex, Vertex>, depth0: map<Vertex, nat>)
    returns (queue: seq<Vertex>, parents: map<Vertex, Vertex>, depth: map<Vertex, nat>, found: bool)
    requires source != target && Turn(g, source, target, n, current, queue0, parents0, depth0)
    ensures Extends(depth0, depth) && depth.Keys <= Universe(g, source)
    ensures depth.Keys == depth0.Keys ==> |queue| <= |queue0|
    ensures found ==> queue == [] && Found(g, source, target, n, parents, depth)
    ensures !found ==> Searching(g, source, target, n, queue, parents, depth)
  {
    queue, parents, depth, found := queue0, parents0, depth0, false;
    var remaining := Next(g, current);
    while remaining != {}
      invariant remaining <= Next(g, current)
      invariant Growing(g, source, target, n, current, queue0, depth0, queue, parents, depth)
      invariant forall v :: v in Next(g, current) - remaining ==> v in depth
      decreases remaining
    {
      var nxt :| nxt in remaining;
      remaining := remaining - {nxt};
      if nxt in depth {
        continue;
      }
      if nxt == target {
        FoundTarget(g, source, target, n, current, queue0, parents0, depth0, parents, depth);
        parents, depth := parents[nxt := current], depth[nxt := depth[current] + 1];
        queue, found := [], true;
        return;
      }
      GrowingStep(g, source, target, n, current, queue0, depth0, queue, parents, depth, nxt);
      parents, depth := parents[nxt := current], depth[nxt := depth[current] + 1];
      queue := queue + [nxt];
    }
    ExpandedTurn(g, source, target, n, current, queue0, parents0, depth0, queue, parents, depth);
  }

  /** Within a turn: the new vertices are exactly the ones queued behind. */
  ghost predicate Growing(g: Graph, source: Vertex, target: Vertex, n: int, current: Vertex,
                          queue0: seq<Vertex>, depth0: map<Vertex, nat>,
                          queue: seq<Vertex>, parents: map<Vertex, Vertex>, depth: map<Vertex, nat>) {
    && current in depth0 && depth0[current] < n
    && Tree(g, source, parents, depth) && depth.Keys <= Universe(g, source)
    && target !in depth && Layered(queue, depth, depth0[current])
    && NewOnes(queue0, depth0, queue, depth, depth0[current] + 1)
    && forall v :: v in depth ==> depth[v] <= n
  }

  /** The vertices that came in are queued behind, all on one level. */
  ghost predicate NewOnes(queue0: seq<Vertex>, depth0: map<Vertex, nat>, queue: seq<Vertex>, depth: map<Vertex, nat>,
                          level: nat) {
    && Extends(depth0, depth) && queue0 <= queue
    && (forall v :: v in depth && v !in depth0 ==> v in queue && depth[v] == level)
    && (depth.Keys == depth0.Keys ==> queue == queue0)
  }

  lemma NewOnesStep(queue0: seq<Vertex>, depth0: map<Vertex, nat>, queue: seq<Vertex>, depth: map<Vertex, nat>,
                    level: nat, nxt: Vertex)
    requires NewOnes(queue0, depth0, queue, depth, level) && nxt !in depth
    ensures NewOnes(queue0, depth0, queue + [nxt], depth[nxt := level], level)
  {
  }

  lemma GrowingStep(g: Graph, source: Vertex, target: Vertex, n: int, current: Vertex,
                    queue0: seq<Vertex>, depth0: map<Vertex, nat>,
                    queue: seq<Vertex>, parents: map<Vertex, Vertex>, depth: map<Vertex, nat>, nxt: Vertex)
    requires Growing(g, source, target, n, current, queue0, depth0, queue, parents, depth)
    requires nxt in Next(g, current) && nxt !in depth && nxt != target
    ensures Growing(g, source, target, n, current, queue0, depth0,
                    queue + [nxt], parents[nxt := current], depth[nxt := depth[current] + 1])
  {
    assert current in depth && depth[current] == depth0[current];
    TreeStep(g, source, parents, depth, current, nxt);
    LayeredStep(queue, depth, depth[current], nxt);
    NewOnesStep(queue0, depth0, queue, depth, depth[current] + 1, nxt);
  }

  lemma TreeStep(g: Graph, source: Vertex, parents: map<Vertex, Vertex>, depth: map<Vertex, nat>, current: Vertex,
                 nxt: Vertex)
    requires Tree(g, source, parents, depth) && current in depth && nxt in Next(g, current) && nxt !in depth
    ensures Tree(g, source, parents[nxt := current], depth[nxt := depth[current] + 1])
    ensures nxt in Universe(g, source)
  {
  }

  lemma LayeredStep(queue: seq<Vertex>, depth: map<Vertex, nat>, d: nat, nxt: Vertex)
    requires Layered(queue, depth, d) && nxt !in depth
    ensures Layered(queue + [nxt], depth[nxt := d + 1], d)
  {
  }

  lemma FoundTarget(g: Graph, source: Vertex, target: Vertex, n: int, current: Vertex,
                    queue0: seq<Vertex>, parents0: map<Vertex, Vertex>, depth0: map<Vertex, nat>,
                    parents: map<Vertex, Vertex>, depth: map<Vertex, nat>)
    requires source != target && Turn(g, source, target, n, current, queue0, parents0, depth0)
    requires Tree(g, source, parents, depth) && Extends(depth0, depth)
    requires target in Next(g, current) && target !in depth
    ensures Found(g, source, target, n, parents[target := current], depth[target := depth[current] + 1])
  {
    TurnBelow(g, source, target, n, current, queue0, parents0, depth0);
    assert current in depth && depth[current] == depth0[current];
    TreeStep(g, source, parents, depth, current, target);
  }

  lemma ExpandedTurn(g: Graph, source: Vertex, target: Vertex, n: int, current: Vertex,
                     queue0: seq<Vertex>, parents0: map<Vertex, Vertex>, depth0: map<Vertex, nat>,
                     queue: seq<Vertex>, parents: map<Vertex, Vertex>, depth: map<Vertex, nat>)
    requires Turn(g, source, target, n, current, queue0, parents0, depth0)
    requires Growing(g, source, target, n, current, queue0, depth0, queue, parents, depth)
    requires forall v :: v in Next(g, current) ==> v in depth
    ensures Searching(g, source, target, n, queue, parents, depth)
  {
  }

  /** The search loop of shortest mode. */
  method BreadthFirst(g: Graph, source: Vertex, target: Vertex, maxDepth: int)
    returns (parents: map<Vertex, Vertex>, ghost depthOf: map<Vertex, nat>)
    requires source != target && maxDepth >= 1
    ensures Tree(g, source, parents, depthOf)
    ensures target in parents ==> Found(g, source, target, maxDepth, parents, depthOf)
    ensures target !in parents ==> NoPath(g, source, target, maxDepth)
  {
    var queue := [source];
    parents := map[];
    var depth: map<Vertex, nat> := map[source := 0];
    var found := false;
    StartSearch(g, source, target, maxDepth);
    while queue != []
      invariant found ==> queue == [] && Found(g, source, target, maxDepth, parents, depth)
      invariant !found ==> Searching(g, source, target, maxDepth, queue, parents, depth)
      decreases Universe(g, source) - depth.Keys, |queue|
    {
      var current := queue[0];
      NextTurn(g, source, target, maxDepth, queue, parents, depth);
      queue := queue[1..];
      if depth[current] >= maxDepth {
        continue;
      }
      ghost var depth0 := depth;
      queue, parents, depth, found := Expand(g, source, target, maxDepth, current, queue, parents, depth);
      LessLeft(Universe(g, source), depth0, depth);
    }
    depthOf := depth;
    if !found {
      SearchedAll(g, source, target, maxDepth, parents, depth);
    }
  }

  lemma StartSearch(g: Graph, source: Vertex, target: Vertex, n: int)
    requires source != target && n >= 1
    ensures Searching(g, source, target, n, [source], map[], map[source := 0])
  {
    assert Layered([source], map[source := 0], 0);
  }

  lemma LessLeft(all: set<Vertex>, depth0: map<Vertex, nat>, depth: map<Vertex, nat>)
    requires Extends(depth0, depth) && depth.Keys <= all
    ensures all - depth.Keys < all - depth0.Keys || depth.Keys == depth0.Keys
  {
  }

  /** Taking the front of the queue: a vertex at the bound is passed over, any other
      is expanded. */
  lemma NextTurn(g: Graph, source: Vertex, target: Vertex, n: int,
                 queue: seq<Vertex>, parents: map<Vertex, Vertex>, depth: map<Vertex, nat>)
    requires queue != [] && Searching(g, source, target, n, queue, parents, depth)
    ensures queue[0] in depth
    ensures depth[queue[0]] < n ==> Turn(g, source, target, n, queue[0], queue[1..], parents, depth)
    ensures depth[queue[0]] >= n ==> Searching(g, source, target, n, queue[1..], parents, depth)
  {
    FrontLayer(queue, depth);
    assert queue == [queue[0]] + queue[1..];
  }

  lemma SearchedAll(g: Graph, source: Vertex, target: Vertex, n: int, parents: map<Vertex, Vertex>,
                    depth: map<Vertex, nat>)
    requires Searching(g, source, target, n, [], parents, depth)
    ensures NoPath(g, source, target, n)
  {
    assert ExpandedBelow(g, depth, n);
    Unvisited(g, source, target, depth, n);
  }

  lemma FrontLayer(queue: seq<Vertex>, depth: map<Vertex, nat>)
    requires queue != [] && exists d: nat :: Layered(queue, depth, d)
    ensures queue[0] in depth && Layered(queue[1..], depth, depth[queue[0]])
  {
  }

  function Reversed<T>(s: seq<T>): (r: seq<T>)
    ensures |r| == |s| && forall i :: 0 <= i < |s| ==> r[i] == s[|s| - 1 - i]
  {
    seq(|s|, i requires 0 <= i < |s| => s[|s| - 1 - i])
  }

  /** Following parents from the target always ends at the source. */
  method WalkBack(g: Graph, source: Vertex, target: Vertex, parents: map<Vertex, Vertex>, ghost depth: map<Vertex, nat>)
    returns (path: seq<Vertex>)
    requires Tree(g, source, parents, depth) && target in parents
    ensures Connects(g, path, source, target, depth[target]) && |path| - 1 == depth[target]
  {
    var nodes, cursor := [target], target;
    while cursor in parents
      invariant cursor in depth && nodes != [] && nodes[0] == target && nodes[|nodes| - 1] == cursor
      invariant |nodes| - 1 == depth[target] - depth[cursor]
      invariant forall i :: 0 < i < |nodes| ==> nodes[i - 1] in Next(g, nodes[i])
      decreases depth[cursor]
    {
      cursor := parents[cursor];
      nodes := nodes + [cursor];
    }
    path := Reversed(nodes);
    forall i | 0 < i < |path|
      ensures path[i] in Next(g, path[i - 1])
    {
      var j := |nodes| - i;
      assert nodes[j - 1] in Next(g, nodes[j]);
    }
  }

  /** Shortest mode: a path comes back exactly when the target is reachable in at
      most max_depth edges, and then no path is shorter. */
  method ShortestPath(g: Graph, source: Vertex, target: Vertex, maxDepth: int) returns (r: Option<seq<Vertex>>)
    requires source != target && maxDepth >= 1
    ensures r.Some? <==> exists p :: Connects(g, p, source, target, maxDepth)
    ensures r.Some? ==> Connects(g, r.value, source, target, maxDepth)
    ensures r.Some? ==> forall p :: Connects(g, p, source, target, maxDepth) ==> |r.value| <= |p|
  {
    var parents, depth := BreadthFirst(g, source, target, maxDepth);
    if target !in parents {
      return None;
    }
    var path := WalkBack(g, source, target, parents, depth);
    assert Connects(g, path, source, target, maxDepth);
    forall p | Connects(g, p, source, target, maxDepth)
      ensures |path| <= |p|
    {
      assert !Connects(g, p, source, target, depth[target] - 1);
    }
    r := Some(path);
  }

  // ------------------------------------------------------- Depth-first search

  /** A simple path that starts with the trail, ends at the target and has at
      most n edges. */
  ghost predicate Completes(g: Graph, trail: seq<Vertex>, target: Vertex, n: int, p: seq<Vertex>) {
    IsPath(g, p) && Simple(p) && trail <= p && p[|p| - 1] == target && |p| - 1 <= n
  }

  /** The vertex a path takes after the trail. */
  ghost predicate Via(trail: seq<Vertex>, p: seq<Vertex>, vs: set<Vertex>) {
    |trail| < |p| && p[|trail|] in vs
  }

  lemma ThroughNext(g: Graph, trail: seq<Vertex>, target: Vertex, n: int, p: seq<Vertex>)
    requires trail != [] && trail[|trail| - 1] != target && Completes(g, trail, target, n, p)
    ensures |p| > |trail| && Completes(g, trail + [p[|trail|]], target, n, p)
    ensures p[|trail|] in Next(g, trail[|trail| - 1]) && p[|trail|] !in trail
  {
  }

  lemma OnlyItself(g: Graph, trail: seq<Vertex>, target: Vertex, n: int, p: seq<Vertex>)
    requires trail != [] && trail[|trail| - 1] == target && Completes(g, trail, target, n, p)
    ensures p == trail
  {
  }

  /** The paths after the first k complete the trail through `vs`, without
      repeats. */
  ghost predicate Added(g: Graph, target: Vertex, n: int, all: seq<seq<Vertex>>, k: nat, trail: seq<Vertex>,
                        vs: set<Vertex>) {
    && k <= |all|
    && (forall i :: k <= i < |all| ==> Completes(g, trail, target, n, all[i]) && Via(trail, all[i], vs))
    && forall i, j :: k <= i < j < |all| ==> all[i] != all[j]
  }

  /** Every completion of the trail through `vs` is there. */
  ghost predicate AddedAll(g: Graph, target: Vertex, n: int, all: seq<seq<Vertex>>, k: nat, trail: seq<Vertex>,
                           vs: set<Vertex>)
    requires k <= |all|
  {
    forall p :: Completes(g, trail, target, n, p) && Via(trail, p, vs) ==> p in all[k..]
  }

  /** New entries complete the trail, without repeats. */
  ghost predicate AddedFor(g: Graph, target: Vertex, n: int, all: seq<seq<Vertex>>, k: nat, trail: seq<Vertex>) {
    && k <= |all|
    && (forall i :: k <= i < |all| ==> Completes(g, trail, target, n, all[i]))
    && forall i, j :: k <= i < j < |all| ==> all[i] != all[j]
  }

  ghost predicate AddedAllFor(g: Graph, target: Vertex, n: int, all: seq<seq<Vertex>>, k: nat, trail: seq<Vertex>)
    requires k <= |all|
  {
    forall p :: Completes(g, trail, target, n, p) ==> p in all[k..]
  }

  lemma AddedStep(g: Graph, target: Vertex, n: int, before: seq<seq<Vertex>>, after: seq<seq<Vertex>>, k: nat,
                  trail: seq<Vertex>, vs: set<Vertex>, v: Vertex)
    requires Added(g, target, n, before, k, trail, vs) && v !in vs && before <= after
    requires AddedFor(g, target, n, after, |before|, trail + [v])
    ensures Added(g, target, n, after, k, trail, vs + {v})
  {
  }

  lemma AddedAllStep(g: Graph, target: Vertex, n: int, before: seq<seq<Vertex>>, after: seq<seq<Vertex>>, k: nat,
                     trail: seq<Vertex>, vs: set<Vertex>, v: Vertex)
    requires k <= |before| && before <= after && AddedAll(g, target, n, before, k, trail, vs)
    requires AddedAllFor(g, target, n, after, |before|, trail + [v])
    ensures AddedAll(g, target, n, after, k, trail, vs + {v})
  {
    forall p | Completes(g, trail, target, n, p) && Via(trail, p, vs + {v})
      ensures p in after[k..]
    {
      if p[|trail|] == v {
        assert trail + [v] == p[..|trail| + 1];
        assert p in after[|before|..];
      } else {
        assert p in before[k..];
      }
    }
  }

  /** No simple path goes back to the trail. */
  lemma NoneThroughSeen(g: Graph, target: Vertex, n: int, all: seq<seq<Vertex>>, k: nat, trail: seq<Vertex>,
                        vs: set<Vertex>, v: Vertex)
    requires Added(g, target, n, all, k, trail, vs) && AddedAll(g, target, n, all, k, trail, vs) && v in trail
    ensures Added(g, target, n, all, k, trail, vs + {v}) && AddedAll(g, target, n, all, k, trail, vs + {v})
  {
  }

  /** The closure `dfs` with the lists and flags it shares. */
  class AllPaths {
    const g: Graph
    const target: Vertex
    const maxDepth: int
    const maxPaths: nat
    var trail: seq<Vertex>
    var seen: set<Vertex>
    var collected: seq<seq<Vertex>>
    var truncated: bool

    constructor (g: Graph, source: Vertex, target: Vertex, maxDepth: int, maxPaths: nat)
      ensures this.g == g && this.target == target && this.maxDepth == maxDepth && this.maxPaths == maxPaths
      ensures trail == [source] && seen == {source} && collected == [] && !truncated
    {
      this.g, this.target, this.maxDepth, this.maxPaths := g, target, maxDepth, maxPaths;
      trail, seen, collected, truncated := [source], {source}, [], false;
    }

    /** The trail is a simple path and `seen` holds its vertices. */
    ghost predicate OnTrail()
      reads this
    {
      IsPath(g, trail) && Simple(trail) && forall v :: v in seen <==> v in trail
    }

    /** The search is cut off exactly when the list is full. */
    ghost predicate Counted()
      reads this
    {
      |collected| <= maxPaths && (truncated <==> |collected| == maxPaths)
    }

    /** Adds the simple paths that complete the trail: all of them unless the
        list fills up. Trail and seen set come back unchanged. */
    method Dfs(current: Vertex)
      requires OnTrail() && Counted() && trail[|trail| - 1] == current && |trail| <= maxDepth + 2
      modifies this
      ensures trail == old(trail) && seen == old(seen) && Counted() && old(collected) <= collected
      ensures AddedFor(g, target, maxDepth, collected, |old(collected)|, trail)
      ensures !truncated ==> AddedAllFor(g, target, maxDepth, collected, |old(collected)|, trail)
      decreases maxDepth + 2 - |trail|
    {
      if truncated {
        return;
      }
      if |trail| - 1 > maxDepth {
        return;
      }
      if current == target {
        Arrive();
        return;
      }
      ghost var t, before := trail, collected;
      var remaining := Next(g, current);
      while remaining != {}
        invariant trail == t && seen == old(seen) && OnTrail() && Counted() && !truncated
        invariant remaining <= Next(g, current) && before <= collected
        invariant Added(g, target, maxDepth, collected, |before|, t, Next(g, current) - remaining)
        invariant AddedAll(g, target, maxDepth, collected, |before|, t, Next(g, current) - remaining)
        decreases remaining
      {
        var nxt :| nxt in remaining;
        ghost var vs, sofar := Next(g, current) - remaining, collected;
        remaining := remaining - {nxt};
        assert Next(g, current) - remaining == vs + {nxt};
        if nxt in seen {
          NoneThroughSeen(g, target, maxDepth, collected, |before|, t, vs, nxt);
          continue;
        }
        seen := seen + {nxt};
        trail := trail + [nxt];
        Dfs(nxt);
        trail := trail[..|trail| - 1];
        seen := seen - {nxt};
        AddedStep(g, target, maxDepth, sofar, collected, |before|, t, vs, nxt);
        if truncated {
          return;
        }
        AddedAllStep(g, target, maxDepth, sofar, collected, |before|, t, vs, nxt);
      }
      forall p | Completes(g, t, target, maxDepth, p)
        ensures p in collected[|before|..]
      {
        ThroughNext(g, t, target, maxDepth, p);
      }
    }

    /** The branch for `current == target`. */
    method Arrive()
      requires OnTrail() && Counted() && !truncated && trail[|trail| - 1] == target && |trail| - 1 <= maxDepth
      modifies this`collected, this`truncated
      ensures Counted() && collected == old(collected) + [trail]
      ensures AddedFor(g, target, maxDepth, collected, |old(collected)|, trail)
      ensures AddedAllFor(g, target, maxDepth, collected, |old(collected)|, trail)
    {
      collected := collected + [trail];
      if |collected| >= maxPaths {
        truncated := true;
      }
      forall p | Completes(g, trail, target, maxDepth, p)
        ensures p in collected[|old(collected)|..]
      {
        OnlyItself(g, trail, target, maxDepth, p);
        assert collected[|old(collected)|] == trail;
      }
    }
  }

  /** Distinct simple paths from a to b of at most n edges. */
  ghost predicate SimplePaths(g: Graph, ps: seq<seq<Vertex>>, a: Vertex, b: Vertex, n: int) {
    && (forall i, j :: 0 <= i < j < |ps| ==> ps[i] != ps[j])
    && forall p :: p in ps ==> Connects(g, p, a, b, n) && Simple(p)
  }

  /** There are at least k of them. */
  ghost predicate AtLeast(g: Graph, a: Vertex, b: Vertex, n: int, k: nat) {
    exists ps :: |ps| == k && SimplePaths(g, ps, a, b, n)
  }

  ghost predicate HoldsAll(g: Graph, ps: seq<seq<Vertex>>, a: Vertex, b: Vertex, n: int) {
    forall p :: Connects(g, p, a, b, n) && Simple(p) ==> p in ps
  }

  /** Distinct entries that all occur in a list are no more than its length. */
  lemma {:induction false} NoMoreThan<T>(ps: seq<T>, qs: seq<T>)
    requires forall i, j :: 0 <= i < j < |ps| ==> ps[i] != ps[j]
    requires forall p :: p in ps ==> p in qs
    ensures |ps| <= |qs|
    decreases |ps|
  {
    if ps != [] {
      var last := ps[|ps| - 1];
      assert last in ps;
      var k :| 0 <= k < |qs| && qs[k] == last;
      var qs' := qs[..k] + qs[k + 1..];
      forall p | p in ps[..|ps| - 1]
        ensures p in qs'
      {
        assert p in ps;
        var i :| 0 <= i < |qs| && qs[i] == p;
        assert qs'[if i < k then i else i - 1] == p;
      }
      NoMoreThan(ps[..|ps| - 1], qs');
    }
  }

  /** A list of them is complete if and only if there is not one more. */
  lemma CompleteIff(g: Graph, ps: seq<seq<Vertex>>, a: Vertex, b: Vertex, n: int)
    requires SimplePaths(g, ps, a, b, n)
    ensures HoldsAll(g, ps, a, b, n) <==> !AtLeast(g, a, b, n, |ps| + 1)
  {
    if HoldsAll(g, ps, a, b, n) && AtLeast(g, a, b, n, |ps| + 1) {
      var more :| |more| == |ps| + 1 && SimplePaths(g, more, a, b, n);
      NoMoreThan(more, ps);
    }
    if !HoldsAll(g, ps, a, b, n) {
      var p :| Connects(g, p, a, b, n) && Simple(p) && p !in ps;
      assert SimplePaths(g, ps + [p], a, b, n);
    }
  }

  lemma FewerExist(g: Graph, a: Vertex, b: Vertex, n: int, k: nat, m: nat)
    requires AtLeast(g, a, b, n, m) && k <= m
    ensures AtLeast(g, a, b, n, k)
  {
    var ps :| |ps| == m && SimplePaths(g, ps, a, b, n);
    forall p | p in ps[..k]
      ensures Connects(g, p, a, b, n) && Simple(p)
    {
      assert p in ps;
    }
    assert SimplePaths(g, ps[..k], a, b, n);
  }

  /** All mode. Every returned path is a simple path of at most max_depth edges,
      none twice, never more than max_paths. The flag says that at least max_paths
      such paths exist; without it all are returned, and with it all are returned
      exactly when there is not one more. */
  method AllSimplePaths(g: Graph, source: Vertex, target: Vertex, maxDepth: int, maxPaths: nat)
    returns (paths: seq<seq<Vertex>>, truncated: bool)
    requires maxDepth >= 1 && maxPaths >= 1
    ensures |paths| <= maxPaths && SimplePaths(g, paths, source, target, maxDepth)
    ensures truncated <==> AtLeast(g, source, target, maxDepth, maxPaths)
    ensures truncated <==> |paths| == maxPaths
    ensures HoldsAll(g, paths, source, target, maxDepth) <==>
            !truncated || !AtLeast(g, source, target, maxDepth, maxPaths + 1)
  {
    paths, truncated := Collect(g, source, target, maxDepth, maxPaths);
    CompleteIff(g, paths, source, target, maxDepth);
    if !truncated && AtLeast(g, source, target, maxDepth, maxPaths) {
      FewerExist(g, source, target, maxDepth, |paths| + 1, maxPaths);
    }
  }

  method Collect(g: Graph, source: Vertex, target: Vertex, maxDepth: int, maxPaths: nat)
    returns (paths: seq<seq<Vertex>>, truncated: bool)
    requires maxDepth >= 1 && maxPaths >= 1
    ensures |paths| <= maxPaths && (truncated <==> |paths| == maxPaths)
    ensures SimplePaths(g, paths, source, target, maxDepth)
    ensures !truncated ==> HoldsAll(g, paths, source, target, maxDepth)
  {
    var search := new AllPaths(g, source, target, maxDepth, maxPaths);
    search.Dfs(source);
    paths, truncated := search.collected, search.truncated;
    assert paths[0..] == paths;
    forall p | Connects(g, p, source, target, maxDepth) && Simple(p)
      ensures Completes(g, [source], target, maxDepth, p)
    {
      assert [source] == p[..1];
    }
    forall p | p in paths
      ensures Connects(g, p, source, target, maxDepth) && Simple(p)
    {
      var i :| 0 <= i < |paths| && paths[i] == p;
      assert [source] <= paths[i];
    }
  }

  // ------------------------------------------------------- The whole operation

  /** A path along listed edges from a to b, of at most n edges. */
  ghost predicate Route(edges: seq<RawEdge>, p: seq<Vertex>, a: Vertex, b: Vertex, n: int) {
    && |p| > 0 && (forall i :: 0 < i < |p| ==> Listed(edges, p[i - 1], p[i]))
    && p[0] == a && p[|p| - 1] == b && |p| - 1 <= n
  }

  /** At least k distinct simple routes. */
  ghost predicate RoutesAtLeast(edges: seq<RawEdge>, a: Vertex, b: Vertex, n: int, k: nat) {
    exists ps :: |ps| == k && SimpleRoutes(edges, ps, a, b, n)
  }

  ghost predicate SimpleRoutes(edges: seq<RawEdge>, ps: seq<seq<Vertex>>, a: Vertex, b: Vertex, n: int) {
    && (forall i, j :: 0 <= i < j < |ps| ==> ps[i] != ps[j])
    && forall p :: p in ps ==> Route(edges, p, a, b, n) && Simple(p)
  }

  datatype Answer = InvalidMode | Paths(paths: seq<seq<Vertex>>, truncated: bool)

  lemma RouteIsPath(edges: seq<RawEdge>, g: Graph)
    requires forall a, b :: b in Next(g, a) <==> Listed(edges, a, b)
    ensures forall p, a, b, n :: Route(edges, p, a, b, n) <==> Connects(g, p, a, b, n)
  {
  }

  lemma RoutesArePaths(edges: seq<RawEdge>, g: Graph, a: Vertex, b: Vertex, n: int)
    requires forall p, a, b, n :: Route(edges, p, a, b, n) <==> Connects(g, p, a, b, n)
    ensures forall ps :: SimpleRoutes(edges, ps, a, b, n) <==> SimplePaths(g, ps, a, b, n)
    ensures forall k :: RoutesAtLeast(edges, a, b, n, k) <==> AtLeast(g, a, b, n, k)
  {
  }

  /** Shortest mode: no path, or one that no route is shorter than. */
  ghost predicate AnswersShortest(edges: seq<RawEdge>, source: Vertex, target: Vertex, n: int, r: Answer) {
    && r.Paths? && !r.truncated && |r.paths| <= 1
    && (|r.paths| == 1 <==> exists p :: Route(edges, p, source, target, n))
    && forall p, q :: p in r.paths && Route(edges, q, source, target, n) ==>
         Route(edges, p, source, target, n) && |p| <= |q|
  }

  /** All mode with at most k paths: truncated exactly when there are k, and complete
      exactly when not truncated or when there is not one more. */
  ghost predicate AnswersAll(edges: seq<RawEdge>, source: Vertex, target: Vertex, n: int, k: nat, r: Answer) {
    && r.Paths? && |r.paths| <= k && SimpleRoutes(edges, r.paths, source, target, n)
    && (r.truncated <==> RoutesAtLeast(edges, source, target, n, k))
    && (r.truncated <==> |r.paths| == k)
    && ((forall p :: Route(edges, p, source, target, n) && Simple(p) ==> p in r.paths) <==>
        !r.truncated || !RoutesAtLeast(edges, source, target, n, k + 1))
  }

  /** `find_paths_in_edges`: the caller's limits are clamped to 1..200 paths and
      1..64 edges. */
  method FindPaths(edges: seq<RawEdge>, source: Vertex, target: Vertex, mode: string, maxPaths: int, maxDepth: int)
    returns (r: Answer)
    ensures r == InvalidMode <==> mode != "shortest" && mode != "all"
    ensures r.Paths? && source == target ==> r == Paths([[source]], false)
    ensures mode == "shortest" && source != target ==>
              AnswersShortest(edges, source, target, Clamp(maxDepth, 1, 64), r)
    ensures mode == "all" && source != target ==>
              AnswersAll(edges, source, target, Clamp(maxDepth, 1, 64), Clamp(maxPaths, 1, 200), r)
  {
    if mode != "shortest" && mode != "all" {
      return InvalidMode;
    }
    var limit, depth := Clamp(maxPaths, 1, 200), Clamp(maxDepth, 1, 64);
    var g := BuildAdjacency(edges);
    RouteIsPath(edges, g);
    if source == target {
      return Paths([[source]], false);
    }
    if mode == "shortest" {
      var path := ShortestPath(g, source, target, depth);
      return if path.None? then Paths([], false) else Paths([path.value], false);
    }
    var paths, truncated := AllSimplePaths(g, source, target, depth, limit);
    RoutesArePaths(edges, g, source, target, depth);
    return Paths(paths, truncated);
  }

  /** One edge: a single path exists, so with max_paths 1 the answer is truncated
      though nothing is left out. */
  lemma TruncatedThoughComplete(n: int)
    requires n >= 1
    ensures var edges := [RawEdge(Some("a"), Some("b"))];
            RoutesAtLeast(edges, "a", "b", n, 1) && !RoutesAtLeast(edges, "a", "b", n, 2)
  {
    var edges := [RawEdge(Some("a"), Some("b"))];
    var only := ["a", "b"];
    assert Listed(edges, "a", "b");
    assert SimpleRoutes(edges, [only], "a", "b", n);
    forall p | Route(edges, p, "a", "b", n)
      ensures p == only
    {
      assert |p| > 1 && Listed(edges, p[0], p[1]);
      assert |p| > 2 ==> Listed(edges, p[1], p[2]);
    }
    forall ps | SimpleRoutes(edges, ps, "a", "b", n)
      ensures |ps| <= 1
    {
      NoMoreThan(ps, [only]);
    }
  }
}
