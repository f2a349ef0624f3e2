/** The custody table as a record of its history: which upload or share made each row,
    who owns or receives it, and what a peer can see because of it. */
module CustodyHistory {
  import opened Text
  import opened Custody

  // ------------------------------------------------------- What events say

  /** Some upload, or a share of a node made before, was about this node. */
  ghost predicate Made(events: seq<Event>, h: Hash)
    decreases |events|, 0
  {
    exists i :: 0 <= i < |events| && events[i].node == h && Counts(events, i)
  }

  /** A share counts if its parent was made before it. */
  ghost predicate Counts(events: seq<Event>, i: nat)
    requires i < |events|
    decreases i, 1
  {
    events[i].Share? ==> Made(events[..i], events[i].parent)
  }

  /** The first event about a node makes it. */
  ghost predicate Makes(events: seq<Event>, i: nat, h: Hash) {
    i < |events| && events[i].node == h && Counts(events, i) && !Made(events[..i], h)
  }

  /** The event names the peer as a recipient, of the node itself or of its child. */
  ghost predicate Grants(events: seq<Event>, i: nat, h: Hash, r: PeerId) {
    && i < |events| && Counts(events, i) && r in events[i].recipients
    && (events[i].node == h || (events[i].Share? && events[i].parent == h))
  }

  ghost predicate Receives(events: seq<Event>, h: Hash, r: PeerId) {
    exists i: nat :: Grants(events, i, h, r)
  }

  ghost function ParentIn(e: Event): Option<Hash> {
    if e.Share? then Some(e.parent) else None
  }

  // ------------------------------------------------------- One more event

  lemma CountsInPrefix(events: seq<Event>, m: nat, i: nat)
    requires i < m <= |events|
    ensures Counts(events[..m], i) <==> Counts(events, i)
  {
    assert events[..m][..i] == events[..i];
  }

  lemma MadeSnoc(events: seq<Event>, h: Hash)
    requires events != []
    ensures var m := |events| - 1;
            Made(events, h) <==> Made(events[..m], h) || (events[m].node == h && Counts(events, m))
  {
    var m := |events| - 1;
    if i :| 0 <= i < m && events[i].node == h && Counts(events, i) {
      CountsInPrefix(events, m, i);
      assert events[..m][i].node == h;
    }
    if i :| 0 <= i < m && events[..m][i].node == h && Counts(events[..m], i) {
      CountsInPrefix(events, m, i);
    }
  }

  lemma ReceivesSnoc(events: seq<Event>, h: Hash, r: PeerId)
    requires events != []
    ensures var m := |events| - 1;
            Receives(events, h, r) <==> Receives(events[..m], h, r) || Grants(events, m, h, r)
  {
    var m := |events| - 1;
    if i: nat :| i < m && Grants(events, i, h, r) {
      CountsInPrefix(events, m, i);
      assert Grants(events[..m], i, h, r);
    }
    if i: nat :| Grants(events[..m], i, h, r) {
      CountsInPrefix(events, m, i);
      assert Grants(events, i, h, r);
    }
  }

  lemma MakesSnoc(events: seq<Event>, i: nat, h: Hash)
    requires i < |events| - 1
    ensures Makes(events, i, h) <==> Makes(events[..|events| - 1], i, h)
  {
    CountsInPrefix(events, |events| - 1, i);
    assert events[..|events| - 1][..i] == events[..i];
  }

  // ------------------------------------------------------- The table tells the history

  /** The rows are the nodes that were made. */
  lemma {:induction false} RowIffMade(events: seq<Event>, h: Hash)
    ensures h in Build(events) <==> Made(events, h)
    decreases |events|
  {
    if events != [] {
      var m := |events| - 1;
      RowIffMade(events[..m], h);
      MadeSnoc(events, h);
      if events[m].Share? {
        RowIffMade(events[..m], events[m].parent);
      }
    }
  }

  /** A row has as recipients exactly the peers that some event granted it to. */
  lemma {:induction false} RecipientIffGranted(events: seq<Event>, h: Hash, r: PeerId)
    ensures h in Build(events) && r in Build(events)[h].recipients <==> Receives(events, h, r)
    decreases |events|
  {
    if events != [] {
      var m := |events| - 1;
      RecipientIffGranted(events[..m], h, r);
      ReceivesSnoc(events, h, r);
      if events[m].Share? {
        RowIffMade(events[..m], events[m].parent);
      }
    }
  }

  /** Owner and parent are those of the event that made the row. */
  lemma {:induction false} RowIsAsMade(events: seq<Event>, i: nat, h: Hash)
    requires Makes(events, i, h)
    ensures h in Build(events) && Build(events)[h].owner == events[i].owner
    ensures Build(events)[h].parent == ParentIn(events[i])
    decreases |events|
  {
    var m := |events| - 1;
    RowIffMade(events[..m], h);
    if events[m].Share? {
      RowIffMade(events[..m], events[m].parent);
    }
    if i < m {
      MakesSnoc(events, i, h);
      RowIsAsMade(events[..m], i, h);
    }
  }

  lemma {:induction false} SomeEventMakes(events: seq<Event>, h: Hash)
    requires Made(events, h)
    ensures exists i: nat :: Makes(events, i, h)
    decreases |events|
  {
    var i :| 0 <= i < |events| && events[i].node == h && Counts(events, i);
    if Made(events[..i], h) {
      SomeEventMakes(events[..i], h);
      var j: nat :| Makes(events[..i], j, h);
      CountsInPrefix(events, i, j);
      assert events[..i][..j] == events[..j];
      assert Makes(events, j, h);
    } else {
      assert Makes(events, i, h);
    }
  }

  /** A peer has a part in a row exactly when the event that made it names the peer as
      owner, or some event names it as recipient. */
  lemma InvolvedIff(events: seq<Event>, peer: PeerId, h: Hash)
    requires h in Build(events)
    ensures Involved(Build(events), peer, h) <==>
            (exists i: nat :: Makes(events, i, h) && events[i].owner == peer) || Receives(events, h, peer)
  {
    RowIffMade(events, h);
    SomeEventMakes(events, h);
    RecipientIffGranted(events, h, peer);
    var i: nat :| Makes(events, i, h);
    RowIsAsMade(events, i, h);
    forall j: nat | Makes(events, j, h)
      ensures events[j].owner == Build(events)[h].owner
    {
      RowIsAsMade(events, j, h);
    }
  }

  // ------------------------------------------------------- What a share shows

  lemma BuildSnoc(events: seq<Event>, e: Event)
    ensures Build(events + [e]) == Apply(Build(events), e)
  {
    assert (events + [e])[..|events|] == events;
  }

  /** After a share of a row, every recipient sees the new row and the shared one, and
      so does the sharer if the row is new. */
  lemma ShareShows(events: seq<Event>, h: Hash, o: PeerId, rs: set<PeerId>, p: Hash)
    requires p in Build(events)
    ensures var t := Build(events + [Share(h, o, rs, p)]);
            && Forest(t)
            && (forall r :: r in rs ==> Visible(t, r, h) && Visible(t, r, p))
            && (h !in Build(events) ==> Visible(t, o, h) && Visible(t, o, p))
  {
    BuildIsForest(events + [Share(h, o, rs, p)]);
    BuildSnoc(events, Share(h, o, rs, p));
    ShareInvolves(Build(events), h, o, rs, p);
    var t := Build(events + [Share(h, o, rs, p)]);
    forall r | r in rs
      ensures Visible(t, r, h) && Visible(t, r, p)
    {
      InvolvedSees(t, r, h, h);
      InvolvedSees(t, r, p, p);
    }
    if h !in Build(events) {
      InvolvedSees(t, o, h, h);
      InvolvedSees(t, o, h, p);
    }
  }

  lemma InvolvedSees(t: Table, r: PeerId, v: Hash, h: Hash)
    requires Forest(t) && v in t && h in t && Involved(t, r, v) && (v == h || t[v].parent == Some(h))
    ensures Visible(t, r, h)
  {
  }

  lemma ShareInvolves(t: Table, h: Hash, o: PeerId, rs: set<PeerId>, p: Hash)
    requires p in t
    ensures var u := Apply(t, Share(h, o, rs, p));
            && h in u && p in u
            && (forall r :: r in rs ==> Involved(u, r, h) && Involved(u, r, p))
            && (h !in t ==> Involved(u, o, h) && u[h].parent == Some(p))
  {
  }

  // ------------------------------------------------------- Nothing is taken away

  /** Every row is still there, unmoved, with all its recipients. */
  ghost predicate Grows(t: Table, u: Table) {
    forall h :: h in t ==>
      h in u && u[h].parent == t[h].parent && u[h].owner == t[h].owner && u[h].depth == t[h].depth
      && t[h].recipients <= u[h].recipients
  }

  lemma {:induction false} BuildGrows(events: seq<Event>, more: seq<Event>)
    ensures Grows(Build(events), Build(events + more))
    decreases |more|
  {
    if more == [] {
      assert events + more == events;
    } else {
      var m := |more| - 1;
      BuildGrows(events, more[..m]);
      assert events + more == events + more[..m] + [more[m]];
      BuildSnoc(events + more[..m], more[m]);
      ApplyGrows(Build(events + more[..m]), more[m]);
      GrowsOn(Build(events), Build(events + more[..m]), Build(events + more));
    }
  }

  lemma ApplyGrows(t: Table, e: Event)
    ensures Grows(t, Apply(t, e))
  {
  }

  lemma GrowsOn(t: Table, u: Table, v: Table)
    requires Grows(t, u) && Grows(u, v)
    ensures Grows(t, v)
  {
  }

  lemma {:induction false} RootStays(t: Table, u: Table, h: Hash)
    requires Forest(t) && Forest(u) && Grows(t, u) && h in t
    ensures Root(u, h) == Root(t, h)
    decreases t[h].depth
  {
    if t[h].parent.Some? {
      RootStays(t, u, t[h].parent.value);
    }
  }

  /** What a peer sees it sees after all further uploads and shares. */
  lemma SeenStaysSeen(events: seq<Event>, more: seq<Event>, peer: PeerId, h: Hash)
    requires Forest(Build(events)) && Visible(Build(events), peer, h)
    ensures Forest(Build(events + more)) && Visible(Build(events + more), peer, h)
  {
    var t, u := Build(events), Build(events + more);
    BuildIsForest(events + more);
    BuildGrows(events, more);
    var v :| v in t && Involved(t, peer, v) && Root(t, v) == Root(t, h);
    RootStays(t, u, v);
    RootStays(t, u, h);
    assert Involved(u, peer, v);
  }
}
