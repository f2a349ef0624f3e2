/** Boardroom proposals: concurrent approvals that interleave between database
    calls, and unlocking by reconstruction of the shares yielded so far. */
module Boardroom {
  import opened Text
  import opened Modular
  import opened Encoding
  import S = SecretSharing

  type UserId = string

  /** `find_many` returns at most this many rows. */
  const ROW_LIMIT: nat := 100

  datatype Row = Row(user: UserId, share: S.Share, submitted: bool)

  /** Where one approve request stands: the database call it makes next, with
      what it has read so far. */
  datatype Pc =
    | FindShare
    | Submit(row: nat)
    | FindProposal
    | FindRoom(executedSeen: bool)
    | FindShares(executedSeen: bool)
    | SetExecuted
    | Responded(response: Response)

  datatype Response = NotFound | AlreadySubmitted | Executed | Pending

  datatype Request = Request(user: UserId, pc: Pc)

  /** One proposal: its share rows, its status, and the requests so far. */
  datatype State = State(threshold: nat, rows: seq<Row>, executed: bool, requests: seq<Request>)

  function Submitted(rows: seq<Row>): (r: seq<Row>)
    ensures |r| <= |rows| && forall x :: x in r ==> x in rows && x.submitted
  {
    if rows == [] then []
    else
      assert rows == [rows[0]] + rows[1..];
      (if rows[0].submitted then [rows[0]] else []) + Submitted(rows[1..])
  }

  function Count(rows: seq<Row>): nat {
    |Submitted(rows)|
  }

  /** The row of a user, first match. */
  function RowOf(rows: seq<Row>, user: UserId): (i: Option<nat>)
    ensures i.Some? ==> i.value < |rows| && rows[i.value].user == user
    ensures i.Some? ==> forall k :: 0 <= k < i.value ==> rows[k].user != user
    ensures i.None? ==> forall k :: 0 <= k < |rows| ==> rows[k].user != user
  {
    if rows == [] then None
    else if rows[0].user == user then Some(0)
    else
      var i := RowOf(rows[1..], user);
      if i.Some? then Some(i.value + 1) else None
  }

  /** The rows a `find_many` on the share table returns. */
  function Fetched(rows: seq<Row>): seq<Row> {
    TakeUpTo(rows, ROW_LIMIT)
  }

  // ------------------------------------------------------- Steps

  datatype Event =
    | AddRow(user: UserId, share: S.Share)
    | Arrive(user: UserId)
    | Advance(request: nat)

  /** `create_proposal` inserts the share rows one by one; an approval may already
      run in between. It fetched at most ROW_LIMIT members. */
  ghost predicate Allowed(s: State, e: Event) {
    match e
    case AddRow(u, share) => |s.rows| < ROW_LIMIT
    case Arrive(u) => true
    case Advance(i) => i < |s.requests| && !s.requests[i].pc.Responded?
  }

  /** The next database call of request i. */
  function AdvancePc(s: State, pc: Pc, user: UserId): Pc {
    match pc
    case FindShare =>
      var i := RowOf(s.rows, user);
      if i.None? then Responded(NotFound)
      else if s.rows[i.value].submitted then Responded(AlreadySubmitted)
      else Submit(i.value)
    case Submit(_) => FindProposal
    case FindProposal => FindRoom(s.executed)
    case FindRoom(seen) => FindShares(seen)
    case FindShares(seen) =>
      var enough := Count(Fetched(s.rows)) >= s.threshold;
      if enough && !seen then SetExecuted else Responded(if enough then Executed else Pending)
    case SetExecuted => Responded(Executed)
    case Responded(r) => pc
  }

  function Apply(s: State, e: Event): State {
    match e
    case AddRow(u, share) => s.(rows := s.rows + [Row(u, share, false)])
    case Arrive(u) => s.(requests := s.requests + [Request(u, FindShare)])
    case Advance(i) =>
      if i >= |s.requests| then s
      else
        var r := s.requests[i];
        var moved := s.(requests := s.requests[i := r.(pc := AdvancePc(s, r.pc, r.user))]);
        match r.pc
        case Submit(k) => if k < |s.rows| then moved.(rows := s.rows[k := s.rows[k].(submitted := true)]) else moved
        case SetExecuted => moved.(executed := true)
        case _ => moved
  }

  function RunOf(s: State, events: seq<Event>): State
    decreases |events|
  {
    if events == [] then s else RunOf(Apply(s, events[0]), events[1..])
  }

  ghost predicate AllAllowed(s: State, events: seq<Event>)
    decreases |events|
  {
    events == [] || (Allowed(s, events[0]) && AllAllowed(Apply(s, events[0]), events[1..]))
  }

  // ------------------------------------------------------- Counting

  lemma {:induction false} SubmittedConcat(a: seq<Row>, b: seq<Row>)
    ensures Submitted(a + b) == Submitted(a) + Submitted(b)
  {
    if a == [] {
      assert a + b == b;
    } else {
      assert (a + b)[1..] == a[1..] + b;
      SubmittedConcat(a[1..], b);
    }
  }

  /** Submitting a row never lowers the count. */
  lemma SubmitCounts(rows: seq<Row>, k: nat)
    requires k < |rows|
    ensures Count(rows[k := rows[k].(submitted := true)]) >= Count(rows)
  {
    var after := rows[k := rows[k].(submitted := true)];
    assert rows == rows[..k] + ([rows[k]] + rows[k + 1..]) && after == rows[..k] + ([after[k]] + rows[k + 1..]);
    SubmittedConcat(rows[..k], [rows[k]] + rows[k + 1..]);
    SubmittedConcat(rows[..k], [after[k]] + rows[k + 1..]);
    SubmittedConcat([rows[k]], rows[k + 1..]);
    SubmittedConcat([after[k]], rows[k + 1..]);
  }

  // ------------------------------------------------------- Invariant

  /** The request will set the status, or has yet to look. */
  predicate WillExecute(pc: Pc) {
    match pc
    case FindProposal => true
    case FindRoom(seen) => !seen
    case FindShares(seen) => !seen
    case SetExecuted => true
    case _ => false
  }

  ghost predicate Inv(s: State) {
    && |s.rows| <= ROW_LIMIT
    && (s.executed ==> Count(s.rows) >= s.threshold)
    && (forall i :: 0 <= i < |s.requests| && s.requests[i].pc == SetExecuted ==> Count(s.rows) >= s.threshold)
    && (forall i :: 0 <= i < |s.requests| && SawExecuted(s.requests[i].pc) ==> s.executed)
    && (Count(s.rows) >= s.threshold && !s.executed ==>
          exists i :: 0 <= i < |s.requests| && WillExecute(s.requests[i].pc))
  }

  predicate SawExecuted(pc: Pc) {
    (pc.FindRoom? && pc.executedSeen) || (pc.FindShares? && pc.executedSeen)
  }

  /** A new proposal: threshold at least one, nothing submitted, not executed. */
  ghost predicate Fresh(s: State) {
    s.threshold >= 1 && s.rows == [] && !s.executed && s.requests == []
  }

  lemma AddRowInv(s: State, u: UserId, share: S.Share)
    requires Inv(s) && |s.rows| < ROW_LIMIT
    ensures Inv(Apply(s, AddRow(u, share)))
  {
    SubmittedConcat(s.rows, [Row(u, share, false)]);
    assert Submitted([Row(u, share, false)]) == [];
  }

  lemma ArriveInv(s: State, u: UserId)
    requires Inv(s)
    ensures Inv(Apply(s, Arrive(u)))
  {
    var s' := Apply(s, Arrive(u));
    if Count(s.rows) >= s.threshold && !s.executed {
      var i :| 0 <= i < |s.requests| && WillExecute(s.requests[i].pc);
      assert WillExecute(s'.requests[i].pc);
    }
  }

  lemma AdvanceInv(s: State, i: nat)
    requires Inv(s) && Allowed(s, Advance(i))
    ensures Inv(Apply(s, Advance(i)))
  {
    var s', pc := Apply(s, Advance(i)), s.requests[i].pc;
    if pc.Submit? && pc.row < |s.rows| {
      SubmitCounts(s.rows, pc.row);
    }
    assert Fetched(s.rows) == s.rows;
    if Count(s'.rows) >= s'.threshold && !s'.executed {
      if pc.Submit? {
        assert WillExecute(s'.requests[i].pc);
      } else {
        var j :| 0 <= j < |s.requests| && WillExecute(s.requests[j].pc);
        assert WillExecute(s'.requests[j].pc);
      }
    }
  }

  lemma {:induction false} RunInv(s: State, events: seq<Event>)
    requires Inv(s) && AllAllowed(s, events)
    ensures Inv(RunOf(s, events))
    decreases |events|
  {
    if events != [] {
      match events[0] {
        case AddRow(u, share) => AddRowInv(s, u, share);
        case Arrive(u) => ArriveInv(s, u);
        case Advance(i) => AdvanceInv(s, i);
      }
      RunInv(Apply(s, events[0]), events[1..]);
    }
  }

  /** No approve request is between two database calls. */
  ghost predicate Quiet(s: State) {
    forall i :: 0 <= i < |s.requests| ==> s.requests[i].pc.Responded?
  }

  /** In every interleaving a proposal is executed only if at least threshold
      shares are submitted, and whenever no approval is in flight, if and only
      if. */
  lemma ExecutedIffThreshold(s: State, events: seq<Event>)
    requires Fresh(s) && AllAllowed(s, events)
    ensures var r := RunOf(s, events); r.executed ==> Count(r.rows) >= r.threshold
    ensures var r := RunOf(s, events); Quiet(r) ==> (r.executed <==> Count(r.rows) >= r.threshold)
  {
    RunInv(s, events);
  }

  // ------------------------------------------------------- Unlocking

  datatype Unlocked = Forbidden(yielded: nat) | ReconstructionFailed | Content(text: string)

  function SharesOf(rows: seq<Row>): (r: seq<S.Share>)
    ensures |r| == |rows| && forall i :: 0 <= i < |r| ==> r[i] == rows[i].share
  {
    seq(|rows|, i requires 0 <= i < |rows| => rows[i].share)
  }

  /** `unlock_proposal` without time-lock and watermark: the first threshold
      submitted shares, reconstructed without a key; an empty text counts as a
      failure. */
  function Unlock(s: State, cr: S.Crypto, p: nat): Unlocked
    requires p > 0
  {
    var yielded := Submitted(Fetched(s.rows));
    if |yielded| < s.threshold then Forbidden(|yielded|)
    else
      Answer(S.Reconstruct(cr, SharesOf(TakeUpTo(yielded, s.threshold)), None, p))
  }

  function Answer(r: S.Result<Option<string>>): Unlocked {
    match r
    case Ok(Some(text)) => if text == "" then ReconstructionFailed else Content(text)
    case _ => ReconstructionFailed
  }

  /** The split that `create_proposal` made. */
  datatype Job = Job(cr: S.Crypto, content: string, t: nat, n: nat, draws: S.Draws, p: nat)

  ghost predicate ValidJob(j: Job) {
    && IsPrime(j.p) && S.HoldsChunks(j.p) && 2 <= j.t <= j.n < j.p && j.cr.Laws()
    && S.ValidDraws(j.cr, j.content, j.t, j.draws, j.p)
  }

  ghost function JobShares(j: Job): (all: seq<S.Share>)
    requires ValidJob(j)
    ensures |all| == j.n && forall i :: 0 <= i < j.n ==> all[i].index == i + 1
  {
    S.SplitResult(j.cr, j.content, j.t, j.n, j.draws, j.p).value
  }

  /** Row i holds share number i. */
  ghost predicate Holds(rows: seq<Row>, all: seq<S.Share>) {
    |rows| <= |all| && forall i :: 0 <= i < |rows| ==> rows[i].share == all[i]
  }

  ghost predicate HandsOut(s: State, e: Event, all: seq<S.Share>) {
    e.AddRow? ==> |s.rows| < |all| && e.share == all[|s.rows|]
  }

  /** The rows that are inserted hand out the shares in order. */
  ghost predicate AllHandOut(s: State, events: seq<Event>, all: seq<S.Share>)
    decreases |events|
  {
    events == [] || (HandsOut(s, events[0], all) && AllHandOut(Apply(s, events[0]), events[1..], all))
  }

  lemma ApplyHolds(s: State, e: Event, all: seq<S.Share>)
    requires Holds(s.rows, all) && HandsOut(s, e, all)
    ensures Holds(Apply(s, e).rows, all) && Apply(s, e).threshold == s.threshold
  {
  }

  lemma {:induction false} RunHolds(s: State, events: seq<Event>, all: seq<S.Share>)
    requires Holds(s.rows, all) && AllHandOut(s, events, all)
    ensures Holds(RunOf(s, events).rows, all) && RunOf(s, events).threshold == s.threshold
    decreases |events|
  {
    if events != [] {
      ApplyHolds(s, events[0], all);
      RunHolds(Apply(s, events[0]), events[1..], all);
    }
  }

  /** The yielded shares come in the order of their indices. */
  ghost predicate Ascending(rows: seq<Row>) {
    forall i, k :: 0 <= i < k < |rows| ==> rows[i].share.index < rows[k].share.index
  }

  lemma {:induction false} SubmittedAscending(rows: seq<Row>)
    requires Ascending(rows)
    ensures Ascending(Submitted(rows))
  {
    if rows != [] {
      SubmittedAscending(rows[1..]);
      var rest := Submitted(rows[1..]);
      forall i | 0 <= i < |rest|
        ensures rows[0].share.index < rest[i].share.index
      {
        assert rest[i] in rows[1..];
        var k :| 0 <= k < |rows[1..]| && rows[1..][k] == rest[i];
      }
    }
  }

  /** The yielded shares are shares of the split, in the order of their index. */
  lemma YieldedShares(rows: seq<Row>, all: seq<S.Share>)
    requires Holds(rows, all) && forall i :: 0 <= i < |all| ==> all[i].index == i + 1
    ensures Ascending(Submitted(rows)) && forall x :: x in Submitted(rows) ==> x.share in all
  {
    SubmittedAscending(rows);
    forall x | x in Submitted(rows)
      ensures x.share in all
    {
      var i :| 0 <= i < |rows| && rows[i] == x;
      assert all[i] in all;
    }
  }

  lemma PickedShares(rows: seq<Row>, all: seq<S.Share>, t: nat)
    requires Holds(rows, all) && t <= Count(rows)
    requires forall i :: 0 <= i < |all| ==> all[i].index == i + 1
    ensures var picked := SharesOf(Submitted(rows)[..t]);
            && |picked| == t
            && (forall x :: x in picked ==> x in all)
            && forall i, k :: 0 <= i < k < t ==> picked[i].index != picked[k].index
  {
    YieldedShares(rows, all);
    var picked := SharesOf(Submitted(rows)[..t]);
    forall x | x in picked
      ensures x in all
    {
      var i :| 0 <= i < |picked| && picked[i] == x;
      assert Submitted(rows)[i] in Submitted(rows);
    }
  }

  /** Any threshold of yielded shares gives the content back. */
  lemma YieldedSharesReconstruct(j: Job, rows: seq<Row>)
    requires ValidJob(j) && Holds(rows, JobShares(j)) && Count(rows) >= j.t
    ensures S.Reconstruct(j.cr, SharesOf(Submitted(rows)[..j.t]), None, j.p) == S.Ok(Some(j.content))
  {
    PickedShares(rows, JobShares(j), j.t);
    S.SplitThenReconstruct(j.cr, j.content, j.t, j.n, j.draws, j.p, SharesOf(Submitted(rows)[..j.t]), None);
  }

  /** In every reachable state unlocking returns the original content exactly when
      at least threshold shares are submitted and the content is not empty; an
      empty content is never returned, and below the threshold it is refused. */
  lemma UnlockIffThreshold(s: State, events: seq<Event>, j: Job)
    requires Fresh(s) && ValidJob(j)
    requires s.threshold == j.t && AllAllowed(s, events) && AllHandOut(s, events, JobShares(j))
    ensures var r := RunOf(s, events);
            Unlock(r, j.cr, j.p) ==
              if Count(r.rows) < j.t then Forbidden(Count(r.rows))
              else if j.content == "" then ReconstructionFailed else Content(j.content)
  {
    RunInv(s, events);
    RunHolds(s, events, JobShares(j));
    UnlockAt(RunOf(s, events), j);
  }

  lemma UnlockAt(r: State, j: Job)
    requires ValidJob(j) && |r.rows| <= ROW_LIMIT && r.threshold == j.t && Holds(r.rows, JobShares(j))
    ensures Unlock(r, j.cr, j.p) ==
              if Count(r.rows) < j.t then Forbidden(Count(r.rows))
              else if j.content == "" then ReconstructionFailed else Content(j.content)
  {
    AllFetched(r.rows);
    if Count(r.rows) >= j.t {
      YieldedSharesReconstruct(j, r.rows);
      FirstOf(Submitted(r.rows), j.t);
    }
  }

  lemma AllFetched(rows: seq<Row>)
    requires |rows| <= ROW_LIMIT
    ensures Fetched(rows) == rows
  {
  }

  lemma FirstOf(rows: seq<Row>, t: nat)
    requires t <= |rows|
    ensures TakeUpTo(rows, t) == rows[..t]
  {
  }
}
