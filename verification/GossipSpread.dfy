/** How one gossip message spreads: TTL and path bookkeeping, fanout, and why it
    stops. */
module GossipSpread {

  type PeerId = string

  const DEFAULT_TTL: nat := 10

  /** The signed fields never change; `ttl` and `path` do. */
  datatype Signed = Signed(msgId: string, payload: string, origin: PeerId, timestamp: real, signature: string)

  datatype Envelope = Envelope(signed: Signed, ttl: int, path: seq<PeerId>)

  datatype Packet = Packet(to: PeerId, sender: PeerId, envelope: Envelope)

  // ------------------------------------------------------- The peer table

  /** `_select_gossip_targets`: everyone available, or a sample of `fanout`. */
  ghost predicate Targets(peers: set<PeerId>, exclude: set<PeerId>, fanout: nat, targets: seq<PeerId>) {
    && (forall i, j :: 0 <= i < j < |targets| ==> targets[i] != targets[j])
    && (forall t :: t in targets ==> t in peers && t !in exclude)
    && |targets| == if |peers - exclude| <= fanout then |peers - exclude| else fanout
  }

  ghost predicate LeastRecent(peers: map<PeerId, real>, oldest: PeerId) {
    oldest in peers && forall p :: p in peers ==> peers[oldest] <= peers[p]
  }

  class GossipPeer {
    const peerId: PeerId
    const fanout: nat
    const maxPeers: nat
    var peers: map<PeerId, real>

    /** The table always has room for the newest peer. */
    function Capacity(): nat {
      if maxPeers == 0 then 1 else maxPeers
    }

    /** A peer never lists itself, and the table stays within its capacity. */
    ghost predicate Valid()
      reads this
    {
      peerId !in peers && |peers| <= Capacity()
    }

    constructor (peerId: PeerId, fanout: nat, maxPeers: nat)
      ensures Valid() && this.peerId == peerId && this.fanout == fanout && this.maxPeers == maxPeers && peers == map[]
    {
      this.peerId, this.fanout, this.maxPeers, peers := peerId, fanout, maxPeers, map[];
    }

    /** `_evict_oldest_peer`: the least recently seen peer leaves, if there is one. */
    method EvictOldest() returns (oldest: PeerId)
      requires Valid()
      modifies this
      ensures Valid() && (old(peers) == map[] ==> peers == map[])
      ensures old(peers) != map[] ==> LeastRecent(old(peers), oldest) && peers == old(peers) - {oldest}
    {
      if peers == map[] {
        return "";
      }
      assert peers.Keys != {};
      oldest :| oldest in peers.Keys;
      var left := peers.Keys - {oldest};
      while left != {}
        invariant oldest in peers && left <= peers.Keys
        invariant forall p :: p in peers && p !in left ==> peers[oldest] <= peers[p]
        decreases left
      {
        var p :| p in left;
        if peers[p] < peers[oldest] {
          oldest := p;
        }
        left := left - {p};
      }
      RemoveOne(peers, oldest);
      peers := peers - {oldest};
    }

    /** `add_peer`: never oneself; a full table makes room for a newcomer. */
    method AddPeer(id: PeerId, now: real)
      requires Valid()
      modifies this
      ensures Valid()
      ensures id == peerId ==> peers == old(peers)
      ensures id != peerId ==> id in peers && peers[id] == now
      ensures id != peerId && old(peers) == map[] ==> peers == map[id := now]
      ensures id != peerId && (id in old(peers) || |old(peers)| < maxPeers) ==> peers == old(peers)[id := now]
      ensures id != peerId && id !in old(peers) && |old(peers)| >= maxPeers && old(peers) != map[] ==>
                exists oldest :: LeastRecent(old(peers), oldest) && peers == (old(peers) - {oldest})[id := now]
    {
      if id == peerId {
        return;
      }
      if |peers| >= maxPeers && id !in peers {
        var oldest := EvictOldest();
        if old(peers) != map[] {
          RemoveOne(old(peers), oldest);
        }
      }
      AddOne(peers, id, now);
      peers := peers[id := now];
    }

    method SelectTargets(exclude: set<PeerId>) returns (targets: seq<PeerId>)
      ensures Targets(peers.Keys, exclude, fanout, targets)
    {
      targets := [];
      var available := peers.Keys - exclude;
      var left := available;
      ghost var total := |available|;
      while left != {} && |targets| < fanout
        invariant left <= available && |targets| + |left| == total && |targets| <= fanout
        invariant forall t :: t in targets <==> t in available - left
        invariant forall i, j :: 0 <= i < j < |targets| ==> targets[i] != targets[j]
        decreases left
      {
        var t :| t in left;
        assert t !in targets;
        targets := targets + [t];
        left := left - {t};
      }
    }
  }

  lemma RemoveOne(m: map<PeerId, real>, k: PeerId)
    requires k in m
    ensures |m - {k}| == |m| - 1
  {
  }

  lemma AddOne(m: map<PeerId, real>, k: PeerId, v: real)
    ensures |m[k := v]| == |m| + if k in m then 0 else 1
  {
  }

  // ------------------------------------------------------- One message

  /** The message in flight, and how many of its packets have left the air. */
  datatype Air = Air(packets: seq<Packet>, handled: nat)

  function Sends(a: Air): nat {
    a.handled + |a.packets|
  }

  function Copies(e: Envelope, sender: PeerId, targets: seq<PeerId>): (ps: seq<Packet>)
    ensures |ps| == |targets| && forall i :: 0 <= i < |ps| ==> ps[i] == Packet(targets[i], sender, e)
  {
    seq(|targets|, i requires 0 <= i < |targets| => Packet(targets[i], sender, e))
  }

  /** `gossip`: the first packets, with the origin on the path. */
  ghost predicate Originates(a: Air, signed: Signed, peers: set<PeerId>, fanout: nat, ttl: nat) {
    && signed.origin !in peers && a.handled == 0
    && exists targets :: Targets(peers, {}, fanout, targets)
         && a.packets == Copies(Envelope(signed, ttl, [signed.origin]), signed.origin, targets)
  }

  /** What `_handle_received` makes of an accepted envelope. */
  function Relayed(e: Envelope, relay: PeerId): Envelope {
    e.(ttl := e.ttl - 1, path := e.path + [relay])
  }

  ghost function Excluded(p: Packet): set<PeerId> {
    (set v | v in Relayed(p.envelope, p.to).path) + {p.sender, p.envelope.signed.origin}
  }

  /** One packet leaves the air: lost, dropped by a check, at the end of its TTL,
      or relayed to some targets of the receiver's table at that time. */
  ghost predicate Handles(a: Air, a': Air, i: nat, fanout: nat) {
    && i < |a.packets| && a'.handled == a.handled + 1
    && var p := a.packets[i];
       var rest := a.packets[..i] + a.packets[i + 1..];
       || a'.packets == rest
       || (p.envelope.ttl - 1 > 0
           && exists peers, targets :: Targets(peers, Excluded(p), fanout, targets) && p.to !in peers
                && a'.packets == rest + Copies(Relayed(p.envelope, p.to), p.to, targets))
  }

  /** The shape of every packet of the message. */
  ghost predicate WellFormed(p: Packet, signed: Signed, ttl: nat) {
    var e := p.envelope;
    && e.signed == signed && 1 <= e.ttl && |e.path| + e.ttl == ttl + 1
    && |e.path| > 0 && e.path[0] == signed.origin && p.to !in e.path
    && forall i, j :: 0 <= i < j < |e.path| ==> e.path[i] != e.path[j]
  }

  /** Packets that one packet of that TTL can still cause, itself included. */
  function Weight(fanout: nat, ttl: int): nat
    decreases if ttl < 0 then 0 else ttl
  {
    if ttl <= 0 then 0 else 1 + fanout * Weight(fanout, ttl - 1)
  }

  function Total(fanout: nat, ps: seq<Packet>): nat {
    if ps == [] then 0 else Weight(fanout, ps[0].envelope.ttl) + Total(fanout, ps[1..])
  }

  /** fanout + fanout^2 + ... + fanout^n, by Horner's rule. */
  function GeometricSum(fanout: nat, n: nat): nat {
    if n == 0 then 0 else fanout + fanout * GeometricSum(fanout, n - 1)
  }

  lemma {:induction false} WeightIsGeometric(fanout: nat, n: nat)
    ensures fanout * Weight(fanout, n) == GeometricSum(fanout, n)
  {
    if n > 0 {
      WeightIsGeometric(fanout, n - 1);
      Distribute(fanout, Weight(fanout, n - 1));
    }
  }

  lemma Distribute(f: nat, w: nat)
    ensures f * (1 + f * w) == f + f * (f * w)
  {
  }

  lemma {:induction false} TotalConcat(fanout: nat, ps: seq<Packet>, qs: seq<Packet>)
    ensures Total(fanout, ps + qs) == Total(fanout, ps) + Total(fanout, qs)
  {
    if ps == [] {
      assert ps + qs == qs;
    } else {
      assert (ps + qs)[1..] == ps[1..] + qs;
      TotalConcat(fanout, ps[1..], qs);
    }
  }

  lemma TotalWithout(fanout: nat, ps: seq<Packet>, i: nat)
    requires i < |ps|
    ensures Total(fanout, ps) == Total(fanout, ps[..i] + ps[i + 1..]) + Weight(fanout, ps[i].envelope.ttl)
  {
    assert ps == ps[..i] + ([ps[i]] + ps[i + 1..]);
    TotalConcat(fanout, ps[..i], [ps[i]] + ps[i + 1..]);
    TotalConcat(fanout, [ps[i]], ps[i + 1..]);
    TotalConcat(fanout, ps[..i], ps[i + 1..]);
    assert [ps[i]][1..] == [];
    assert Total(fanout, [ps[i]]) == Weight(fanout, ps[i].envelope.ttl) + Total(fanout, [ps[i]][1..]);
  }

  lemma {:induction false} TotalCopies(fanout: nat, e: Envelope, sender: PeerId, targets: seq<PeerId>)
    ensures Total(fanout, Copies(e, sender, targets)) == |targets| * Weight(fanout, e.ttl)
  {
    if targets != [] {
      TotalCopies(fanout, e, sender, targets[1..]);
      assert Copies(e, sender, targets)[1..] == Copies(e, sender, targets[1..]);
      assert |targets| * Weight(fanout, e.ttl) == Weight(fanout, e.ttl) + (|targets| - 1) * Weight(fanout, e.ttl);
    }
  }

  lemma {:induction false} TotalCoversPackets(fanout: nat, ps: seq<Packet>)
    requires forall i :: 0 <= i < |ps| ==> ps[i].envelope.ttl >= 1
    ensures |ps| <= Total(fanout, ps)
  {
    if ps != [] {
      TotalCoversPackets(fanout, ps[1..]);
    }
  }

  ghost predicate AllWellFormed(ps: seq<Packet>, signed: Signed, ttl: nat) {
    forall p :: p in ps ==> WellFormed(p, signed, ttl)
  }

  /** What holds of every state of the message. */
  ghost predicate Inv(a: Air, signed: Signed, fanout: nat, ttl: nat) {
    && AllWellFormed(a.packets, signed, ttl)
    && a.handled + Total(fanout, a.packets) <= fanout * Weight(fanout, ttl)
  }

  lemma OriginatesInv(a: Air, signed: Signed, peers: set<PeerId>, fanout: nat, ttl: nat)
    requires ttl >= 1 && Originates(a, signed, peers, fanout, ttl)
    ensures Inv(a, signed, fanout, ttl)
  {
    var e := Envelope(signed, ttl, [signed.origin]);
    var targets :| Targets(peers, {}, fanout, targets) && a.packets == Copies(e, signed.origin, targets);
    TotalCopies(fanout, e, signed.origin, targets);
    ScaleUp(|targets|, fanout, Weight(fanout, ttl));
    forall p | p in a.packets
      ensures WellFormed(p, signed, ttl)
    {
      var i :| 0 <= i < |a.packets| && a.packets[i] == p;
      assert targets[i] in targets;
    }
  }

  lemma ScaleUp(k: nat, n: nat, w: nat)
    requires k <= n
    ensures k * w <= n * w
  {
  }

  lemma RelayWellFormed(p: Packet, signed: Signed, ttl: nat, peers: set<PeerId>, fanout: nat, targets: seq<PeerId>)
    requires WellFormed(p, signed, ttl) && p.envelope.ttl - 1 > 0 && Targets(peers, Excluded(p), fanout, targets)
    ensures AllWellFormed(Copies(Relayed(p.envelope, p.to), p.to, targets), signed, ttl)
  {
    var qs := Copies(Relayed(p.envelope, p.to), p.to, targets);
    forall q | q in qs
      ensures WellFormed(q, signed, ttl)
    {
      var k :| 0 <= k < |qs| && qs[k] == q;
      assert targets[k] in targets && q.to !in Excluded(p);
    }
  }

  /** Relaying costs no more than the relayed packet was worth. */
  lemma RelayWeight(fanout: nat, rest: seq<Packet>, e: Envelope, sender: PeerId, targets: seq<PeerId>)
    requires |targets| <= fanout && e.ttl > 0
    ensures Total(fanout, rest + Copies(e, sender, targets)) < Total(fanout, rest) + Weight(fanout, e.ttl + 1)
  {
    TotalConcat(fanout, rest, Copies(e, sender, targets));
    TotalCopies(fanout, e, sender, targets);
    ScaleUp(|targets|, fanout, Weight(fanout, e.ttl));
  }

  /** Every step keeps the shape of all packets and the bound on what is still to
      come. */
  lemma HandlesInv(a: Air, a': Air, i: nat, signed: Signed, fanout: nat, ttl: nat)
    requires Inv(a, signed, fanout, ttl) && Handles(a, a', i, fanout)
    ensures Inv(a', signed, fanout, ttl)
    ensures Total(fanout, a'.packets) < Total(fanout, a.packets)
  {
    HandlesShape(a, a', i, signed, fanout, ttl);
    assert a.packets[i] in a.packets;
    HandlesWeight(a, a', i, fanout);
  }

  lemma HandlesShape(a: Air, a': Air, i: nat, signed: Signed, fanout: nat, ttl: nat)
    requires AllWellFormed(a.packets, signed, ttl) && Handles(a, a', i, fanout)
    ensures AllWellFormed(a'.packets, signed, ttl)
  {
    var p := a.packets[i];
    var rest := a.packets[..i] + a.packets[i + 1..];
    assert p in a.packets && forall q :: q in rest ==> q in a.packets;
    if a'.packets != rest {
      var peers, targets :| Targets(peers, Excluded(p), fanout, targets) && p.to !in peers
        && a'.packets == rest + Copies(Relayed(p.envelope, p.to), p.to, targets);
      RelayWellFormed(p, signed, ttl, peers, fanout, targets);
    }
  }

  lemma HandlesWeight(a: Air, a': Air, i: nat, fanout: nat)
    requires Handles(a, a', i, fanout) && a.packets[i].envelope.ttl >= 1
    ensures Total(fanout, a'.packets) < Total(fanout, a.packets)
  {
    var p := a.packets[i];
    var rest := a.packets[..i] + a.packets[i + 1..];
    TotalWithout(fanout, a.packets, i);
    if a'.packets == rest {
      assert Weight(fanout, p.envelope.ttl) >= 1;
    } else {
      var e := Relayed(p.envelope, p.to);
      var peers, targets :| Targets(peers, Excluded(p), fanout, targets) && p.to !in peers
        && a'.packets == rest + Copies(e, p.to, targets);
      RelayWeight(fanout, rest, e, p.to, targets);
    }
  }

  /** A run of one message: origin, then any packets in any order. */
  ghost predicate SpreadRun(run: seq<Air>, picks: seq<nat>, signed: Signed, peers: set<PeerId>, fanout: nat, ttl: nat) {
    && |run| == |picks| + 1 && Originates(run[0], signed, peers, fanout, ttl)
    && forall k :: 0 <= k < |picks| ==> Handles(run[k], run[k + 1], picks[k], fanout)
  }

  lemma {:induction false} SpreadInv(run: seq<Air>, picks: seq<nat>, signed: Signed, peers: set<PeerId>,
                                     fanout: nat, ttl: nat, k: nat)
    requires ttl >= 1 && SpreadRun(run, picks, signed, peers, fanout, ttl) && k < |run|
    ensures Inv(run[k], signed, fanout, ttl) && run[k].handled == k
  {
    if k == 0 {
      OriginatesInv(run[0], signed, peers, fanout, ttl);
    } else {
      SpreadInv(run, picks, signed, peers, fanout, ttl, k - 1);
      assert Handles(run[k - 1], run[k - 1 + 1], picks[k - 1], fanout);
      HandlesInv(run[k - 1], run[k], picks[k - 1], signed, fanout, ttl);
    }
  }

  lemma InvBoundsSends(a: Air, signed: Signed, fanout: nat, ttl: nat)
    requires Inv(a, signed, fanout, ttl)
    ensures Sends(a) <= GeometricSum(fanout, ttl)
  {
    WeightIsGeometric(fanout, ttl);
    assert forall i :: 0 <= i < |a.packets| ==> a.packets[i] in a.packets;
    TotalCoversPackets(fanout, a.packets);
  }

  /** In every state of every run all packets are well formed, and one message
      sent with that TTL causes at most fanout + ... + fanout^ttl sends; so no
      run has more steps, and one of that length has emptied the air. */
  lemma SpreadIsBounded(run: seq<Air>, picks: seq<nat>, signed: Signed, peers: set<PeerId>, fanout: nat, ttl: nat)
    requires ttl >= 1 && SpreadRun(run, picks, signed, peers, fanout, ttl)
    ensures forall k :: 0 <= k < |run| ==> AllWellFormed(run[k].packets, signed, ttl)
    ensures forall k :: 0 <= k < |run| ==> k <= Sends(run[k]) <= GeometricSum(fanout, ttl)
    ensures |picks| == GeometricSum(fanout, ttl) ==> run[|picks|].packets == []
  {
    forall k | 0 <= k < |run|
      ensures Inv(run[k], signed, fanout, ttl) && run[k].handled == k && Sends(run[k]) <= GeometricSum(fanout, ttl)
    {
      SpreadInv(run, picks, signed, peers, fanout, ttl, k);
      InvBoundsSends(run[k], signed, fanout, ttl);
    }
  }

  /** The code's TTL: every path and its TTL add up to 11, and a message causes at
      most fanout + ... + fanout^10 sends. */
  lemma SpreadOfTheCode(run: seq<Air>, picks: seq<nat>, signed: Signed, peers: set<PeerId>, fanout: nat, k: nat)
    requires SpreadRun(run, picks, signed, peers, fanout, DEFAULT_TTL) && k < |run|
    ensures forall p :: p in run[k].packets ==> |p.envelope.path| + p.envelope.ttl == 11 && p.to !in p.envelope.path
    ensures Sends(run[k]) <= GeometricSum(fanout, DEFAULT_TTL)
  {
    SpreadIsBounded(run, picks, signed, peers, fanout, DEFAULT_TTL);
  }

  // ------------------------------------------------------- How far it gets

  /** The packet on its k-th hop along a line of peers. */
  ghost function Hop(c: seq<PeerId>, signed: Signed, ttl: nat, k: nat): Packet
    requires k + 1 < |c|
  {
    Packet(c[k + 1], c[k], Envelope(signed, ttl - k, c[..k + 1]))
  }

  /** A line of different peers that begins with the origin. */
  ghost predicate Line(c: seq<PeerId>, signed: Signed) {
    |c| >= 2 && c[0] == signed.origin && forall i, j :: 0 <= i < j < |c| ==> c[i] != c[j]
  }

  lemma OnlyTarget(t: PeerId, exclude: set<PeerId>, fanout: nat)
    requires fanout >= 1 && t !in exclude
    ensures Targets({t}, exclude, fanout, [t])
  {
  }

  lemma RelayToOne(p: Packet, t: PeerId, k: nat, fanout: nat)
    requires p.envelope.ttl - 1 > 0 && t != p.to && Targets({t}, Excluded(p), fanout, [t])
    ensures Handles(Air([p], k), Air([Packet(t, p.to, Relayed(p.envelope, p.to))], k + 1), 0, fanout)
  {
  }

  lemma NextHop(c: seq<PeerId>, signed: Signed, ttl: nat, k: nat)
    requires Line(c, signed) && k + 2 < |c|
    ensures var p := Hop(c, signed, ttl, k);
            c[k + 2] !in Excluded(p) && Hop(c, signed, ttl, k + 1) == Packet(c[k + 2], p.to, Relayed(p.envelope, p.to))
  {
  }

  lemma HopOn(c: seq<PeerId>, signed: Signed, fanout: nat, ttl: nat, k: nat)
    requires Line(c, signed) && fanout >= 1 && k + 2 < |c| <= ttl + 1
    ensures Handles(Air([Hop(c, signed, ttl, k)], k), Air([Hop(c, signed, ttl, k + 1)], k + 1), 0, fanout)
  {
    var p := Hop(c, signed, ttl, k);
    NextHop(c, signed, ttl, k);
    OnlyTarget(c[k + 2], Excluded(p), fanout);
    RelayToOne(p, c[k + 2], k, fanout);
  }

  lemma FirstHop(c: seq<PeerId>, signed: Signed, fanout: nat, ttl: nat)
    requires Line(c, signed) && fanout >= 1
    ensures Originates(Air([Hop(c, signed, ttl, 0)], 0), signed, {c[1]}, fanout, ttl)
  {
    OnlyTarget(c[1], {}, fanout);
    assert c[..1] == [signed.origin];
    assert [Hop(c, signed, ttl, 0)] == Copies(Envelope(signed, ttl, [signed.origin]), signed.origin, [c[1]]);
  }

  ghost function Hops(c: seq<PeerId>, signed: Signed, ttl: nat): (run: seq<Air>)
    requires |c| >= 2
    ensures |run| == |c| - 1 && forall k :: 0 <= k < |run| ==> run[k] == Air([Hop(c, signed, ttl, k)], k)
  {
    seq(|c| - 1, k requires 0 <= k < |c| - 1 => Air([Hop(c, signed, ttl, k)], k))
  }

  lemma HopsRun(c: seq<PeerId>, signed: Signed, fanout: nat, ttl: nat, picks: seq<nat>)
    requires Line(c, signed) && fanout >= 1 && |c| <= ttl + 1
    requires |picks| == |c| - 2 && forall k :: 0 <= k < |picks| ==> picks[k] == 0
    ensures SpreadRun(Hops(c, signed, ttl), picks, signed, {c[1]}, fanout, ttl)
  {
    var run := Hops(c, signed, ttl);
    FirstHop(c, signed, fanout, ttl);
    forall k | 0 <= k < |picks|
      ensures Handles(run[k], run[k + 1], picks[k], fanout)
    {
      HopOn(c, signed, fanout, ttl, k);
    }
  }

  /** Along any line of at most ttl hops the message can reach the last peer: its TTL
      is not spent too early. */
  lemma ReachesTtlHops(c: seq<PeerId>, signed: Signed, fanout: nat, ttl: nat)
    requires Line(c, signed) && fanout >= 1 && |c| <= ttl + 1
    ensures exists run: seq<Air>, picks: seq<nat> ::
              && SpreadRun(run, picks, signed, {c[1]}, fanout, ttl)
              && run[|picks|].packets == [Packet(c[|c| - 1], c[|c| - 2], Envelope(signed, ttl + 2 - |c|, c[..|c| - 1]))]
  {
    var picks: seq<nat> := seq(|c| - 2, k => 0);
    HopsRun(c, signed, fanout, ttl, picks);
    assert Hops(c, signed, ttl)[|picks|].packets == [Hop(c, signed, ttl, |c| - 2)];
  }
}
