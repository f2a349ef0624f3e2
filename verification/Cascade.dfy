/** The deletion cascade on bare (peer, node) pairs: a graph of what deleting a
    pair demands next, and deliveries in any order. */
module Cascade {
  import opened Storage

  datatype Pair = Pair(peer: PeerId, node: Hash)

  /** First demands, what deleting a pair demands, and for each node the peers
      that are told together when anyone is told. */
  datatype Graph = Graph(start: set<Pair>, edges: set<(Pair, Pair)>, group: map<Hash, set<PeerId>>)

  ghost predicate Chain(g: Graph, path: seq<Pair>) {
    |path| > 0 && path[0] in g.start && forall i :: 0 < i < |path| ==> (path[i - 1], path[i]) in g.edges
  }

  /** The cascade set. */
  ghost predicate Reached(g: Graph, a: Pair) {
    exists path :: Chain(g, path) && path[|path| - 1] == a
  }

  lemma StartReached(g: Graph, a: Pair)
    requires a in g.start
    ensures Reached(g, a)
  {
    assert Chain(g, [a]) && [a][|[a]| - 1] == a;
  }

  lemma EdgeReached(g: Graph, a: Pair, b: Pair)
    requires Reached(g, a) && (a, b) in g.edges
    ensures Reached(g, b)
  {
    var path :| Chain(g, path) && path[|path| - 1] == a;
    var longer := path + [b];
    forall i | 0 < i < |longer|
      ensures (longer[i - 1], longer[i]) in g.edges
    {
      if i < |path| {
        assert (path[i - 1], path[i]) in g.edges;
      }
    }
    assert Chain(g, longer) && longer[|longer| - 1] == b;
  }

  /** A node's group is told as one; a demand comes from a stored pair and is
      about a node its peer stores. */
  ghost predicate WellFormed(g: Graph, stored: set<Pair>) {
    && (forall a, r :: a in g.start && a.node in g.group && r in g.group[a.node] ==> Pair(r, a.node) in g.start)
    && (forall a, b, r :: (a, b) in g.edges && b.node in g.group && r in g.group[b.node] ==>
          (a, Pair(r, b.node)) in g.edges)
    && (forall a, b :: (a, b) in g.edges ==>
         a in stored && Pair(a.peer, b.node) in stored && b.node in g.group && b.peer in g.group[b.node])
  }

  /** The stored pairs that are left, and the demands on their way. */
  datatype State = State(present: set<Pair>, air: set<Pair>)

  /** One demand arrives: its pair goes, and if it was there the demands for the
      children its peer still stores are sent. */
  ghost predicate Step(g: Graph, s: State, s': State, a: Pair) {
    && a in s.air && s'.present == s.present - {a}
    && s.air - {a} <= s'.air
    && (forall n :: n in s'.air ==> n in s.air || (a in s.present && (a, n) in g.edges))
    && (forall b :: a in s.present && (a, b) in g.edges && Pair(a.peer, b.node) in s.present ==> b in s'.air)
  }

  ghost predicate Handled(s: State, a: Pair) {
    a !in s.present || a in s.air
  }

  ghost predicate Sound(g: Graph, stored: set<Pair>, s: State) {
    && s.present <= stored
    && (forall a :: a in s.air ==> Reached(g, a))
    && (forall a :: a in stored && a !in s.present ==> Reached(g, a))
  }

  ghost predicate Complete(g: Graph, s: State) {
    && (forall a :: a in g.start ==> Handled(s, a))
    && (forall a, b :: (a, b) in g.edges && a !in s.present ==> Handled(s, b))
  }

  /** What is on its way or gone anywhere was demanded of its whole group. */
  ghost predicate ToldAll(g: Graph, stored: set<Pair>, s: State) {
    && (forall a, r :: a in s.air && a.node in g.group && r in g.group[a.node] ==> Handled(s, Pair(r, a.node)))
    && (forall a, r :: a in stored && a !in s.present && a.node in g.group && r in g.group[a.node] ==>
         Handled(s, Pair(r, a.node)))
  }

  ghost predicate Inv(g: Graph, stored: set<Pair>, s: State) {
    WellFormed(g, stored) && Sound(g, stored, s) && Complete(g, s) && ToldAll(g, stored, s)
  }

  lemma StepSound(g: Graph, stored: set<Pair>, s: State, s': State, a: Pair)
    requires Inv(g, stored, s) && Step(g, s, s', a)
    ensures Sound(g, stored, s')
  {
    forall n | n in s'.air
      ensures Reached(g, n)
    {
      if n !in s.air {
        EdgeReached(g, a, n);
      }
    }
  }

  lemma StepComplete(g: Graph, stored: set<Pair>, s: State, s': State, a: Pair)
    requires Inv(g, stored, s) && Step(g, s, s', a)
    ensures Complete(g, s')
  {
  }

  lemma StepToldAll(g: Graph, stored: set<Pair>, s: State, s': State, a: Pair)
    requires Inv(g, stored, s) && Step(g, s, s', a) && Complete(g, s')
    ensures ToldAll(g, stored, s')
  {
  }

  /** Every delivery keeps the invariant. */
  lemma StepKeepsInvariant(g: Graph, stored: set<Pair>, s: State, s': State, a: Pair)
    requires Inv(g, stored, s) && Step(g, s, s', a)
    ensures Inv(g, stored, s')
  {
    StepSound(g, stored, s, s', a);
    StepComplete(g, stored, s, s', a);
    StepToldAll(g, stored, s, s', a);
  }

  /** The state right after the first demands were sent. */
  lemma InitialInvariant(g: Graph, stored: set<Pair>, s: State)
    requires WellFormed(g, stored) && s.present == stored && s.air == g.start
    ensures Inv(g, stored, s)
  {
    forall a | a in s.air
      ensures Reached(g, a)
    {
      StartReached(g, a);
    }
  }

  /** When nothing is on its way, exactly the cascade set is gone. */
  lemma DrainedIsCascade(g: Graph, stored: set<Pair>, s: State)
    requires Inv(g, stored, s) && s.air == {}
    ensures forall a :: a in s.present <==> a in stored && !Reached(g, a)
  {
    forall a | Reached(g, a)
      ensures a !in s.present
    {
      var path :| Chain(g, path) && path[|path| - 1] == a;
      ChainGone(g, stored, s, path, |path| - 1);
    }
  }

  lemma {:induction false} ChainGone(g: Graph, stored: set<Pair>, s: State, path: seq<Pair>, i: nat)
    requires Inv(g, stored, s) && s.air == {} && Chain(g, path) && i < |path|
    ensures path[i] !in s.present
  {
    if i > 0 {
      ChainGone(g, stored, s, path, i - 1);
      assert (path[i - 1], path[i]) in g.edges;
    }
    assert Handled(s, path[i]);
  }
}
