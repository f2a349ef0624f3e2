/** Whose share an approval submits, and what it answers, in every interleaving of
    approvals. */
module Approvals {
  import opened Text
  import opened Boardroom

  // ------------------------------------------------------- Counting

  ghost function SubmittedAt(rows: seq<Row>): set<nat> {
    set k: nat | k < |rows| && rows[k].submitted
  }

  /** Every submitted row is listed. */
  lemma {:induction false} SubmittedListed(rows: seq<Row>, k: nat)
    requires k < |rows| && rows[k].submitted
    ensures rows[k] in Submitted(rows)
  {
    if k > 0 {
      SubmittedListed(rows[1..], k - 1);
    }
  }

  /** The count is the number of submitted rows. */
  lemma {:induction false} CountIs(rows: seq<Row>)
    ensures Count(rows) == |SubmittedAt(rows)|
  {
    if rows == [] {
      assert SubmittedAt(rows) == {};
    } else {
      var m := |rows| - 1;
      CountIs(rows[..m]);
      SubmittedSnoc(rows[..m], rows[m]);
      SubmittedAtSnoc(rows[..m], rows[m]);
      assert rows == rows[..m] + [rows[m]];
    }
  }

  lemma SubmittedSnoc(rows: seq<Row>, x: Row)
    ensures Submitted(rows + [x]) == if x.submitted then Submitted(rows) + [x] else Submitted(rows)
  {
    SubmittedConcat(rows, [x]);
    assert [x][1..] == [];
  }

  lemma SubmittedAtSnoc(rows: seq<Row>, x: Row)
    ensures |SubmittedAt(rows + [x])| == |SubmittedAt(rows)| + if x.submitted then 1 else 0
  {
    assert SubmittedAt(rows + [x]) == SubmittedAt(rows) + if x.submitted then {|rows|} else {};
  }

  // ------------------------------------------------------- Whose row

  /** The request is past its submission. */
  predicate Passed(pc: Pc) {
    match pc
    case FindShare => false
    case Submit(_) => false
    case Responded(r) => r == Executed || r == Pending
    case _ => true
  }

  ghost predicate Approved(s: State, u: UserId) {
    exists i :: 0 <= i < |s.requests| && s.requests[i].user == u && Passed(s.requests[i].pc)
  }

  /** The row an approval of its user submits. */
  ghost predicate OwnRow(rows: seq<Row>, k: nat)
    requires k < |rows|
  {
    RowOf(rows, rows[k].user) == Some(k)
  }

  /** A request about to submit holds its user's row; one that has submitted had one;
      and a row is submitted exactly if a request of its user has submitted. */
  ghost predicate Faithful(s: State) {
    && (forall i :: 0 <= i < |s.requests| && s.requests[i].pc.Submit? ==>
          RowOf(s.rows, s.requests[i].user) == Some(s.requests[i].pc.row))
    && (forall i :: 0 <= i < |s.requests| && Passed(s.requests[i].pc) ==> RowOf(s.rows, s.requests[i].user).Some?)
    && forall k :: 0 <= k < |s.rows| ==> (s.rows[k].submitted <==> OwnRow(s.rows, k) && Approved(s, s.rows[k].user))
  }

  lemma {:induction false} RowOfAppend(rows: seq<Row>, x: Row, u: UserId)
    ensures RowOf(rows + [x], u) == if RowOf(rows, u).Some? then RowOf(rows, u)
                                    else if x.user == u then Some(|rows|) else None
  {
    if rows != [] {
      assert (rows + [x])[1..] == rows[1..] + [x];
      RowOfAppend(rows[1..], x, u);
    } else {
      assert [x][1..] == [];
    }
  }

  lemma RowOfSameUsers(a: seq<Row>, b: seq<Row>, u: UserId)
    requires |a| == |b| && forall k :: 0 <= k < |a| ==> a[k].user == b[k].user
    ensures RowOf(a, u) == RowOf(b, u)
  {
  }

  lemma AddRowFaithful(s: State, u: UserId, share: S.Share)
    requires Faithful(s)
    ensures Faithful(Apply(s, AddRow(u, share)))
  {
    var s' := Apply(s, AddRow(u, share));
    forall v
      ensures RowOf(s'.rows, v) == if RowOf(s.rows, v).Some? then RowOf(s.rows, v)
                                   else if u == v then Some(|s.rows|) else None
    {
      RowOfAppend(s.rows, Row(u, share, false), v);
    }
    forall k | 0 <= k < |s'.rows|
      ensures s'.rows[k].submitted <==> OwnRow(s'.rows, k) && Approved(s', s'.rows[k].user)
    {
      if k < |s.rows| {
        assert s'.rows[k] == s.rows[k];
        assert Approved(s', s.rows[k].user) <==> Approved(s, s.rows[k].user);
      }
    }
  }

  lemma ArriveFaithful(s: State, u: UserId)
    requires Faithful(s)
    ensures Faithful(Apply(s, Arrive(u)))
  {
    var s' := Apply(s, Arrive(u));
    forall v
      ensures Approved(s', v) <==> Approved(s, v)
    {
      if i :| 0 <= i < |s.requests| && s.requests[i].user == v && Passed(s.requests[i].pc) {
        assert s'.requests[i] == s.requests[i];
      }
    }
  }

  /** A step other than a submission changes nobody's approval. */
  lemma AdvanceApproved(s: State, i: nat, v: UserId)
    requires Allowed(s, Advance(i))
    ensures Approved(Apply(s, Advance(i)), v) <==>
            Approved(s, v) || (s.requests[i].pc.Submit? && s.requests[i].user == v)
  {
    var s' := Apply(s, Advance(i));
    forall j | 0 <= j < |s.requests|
      ensures s'.requests[j].user == s.requests[j].user
      ensures Passed(s'.requests[j].pc) <==> Passed(s.requests[j].pc) || (j == i && s.requests[i].pc.Submit?)
    {
    }
    if j :| 0 <= j < |s.requests| && s.requests[j].user == v && Passed(s.requests[j].pc) {
      assert Passed(s'.requests[j].pc);
    }
  }

  lemma AdvanceFaithful(s: State, i: nat)
    requires Faithful(s) && Allowed(s, Advance(i))
    ensures Faithful(Apply(s, Advance(i)))
  {
    var s' := Apply(s, Advance(i));
    forall j | 0 <= j < |s'.requests|
      ensures s'.requests[j].pc.Submit? ==> RowOf(s'.rows, s'.requests[j].user) == Some(s'.requests[j].pc.row)
      ensures Passed(s'.requests[j].pc) ==> RowOf(s'.rows, s'.requests[j].user).Some?
    {
      AdvanceRequest(s, i, j);
    }
    forall k | 0 <= k < |s'.rows|
      ensures s'.rows[k].submitted <==> OwnRow(s'.rows, k) && Approved(s', s'.rows[k].user)
    {
      AdvanceRow(s, i, k);
    }
  }

  lemma AdvanceRequest(s: State, i: nat, j: nat)
    requires Faithful(s) && Allowed(s, Advance(i)) && j < |s.requests|
    ensures var s' := Apply(s, Advance(i));
            && (s'.requests[j].pc.Submit? ==> RowOf(s'.rows, s'.requests[j].user) == Some(s'.requests[j].pc.row))
            && (Passed(s'.requests[j].pc) ==> RowOf(s'.rows, s'.requests[j].user).Some?)
  {
    AdvanceKeepsRowOf(s, i, s.requests[j].user);
    AdvancedPc(s, i, j);
  }

  lemma AdvanceKeepsRowOf(s: State, i: nat, u: UserId)
    ensures RowOf(Apply(s, Advance(i)).rows, u) == RowOf(s.rows, u)
  {
    RowOfSameUsers(s.rows, Apply(s, Advance(i)).rows, u);
  }

  lemma AdvancedPc(s: State, i: nat, j: nat)
    requires Allowed(s, Advance(i)) && j < |s.requests|
    ensures var r, r' := s.requests[j], Apply(s, Advance(i)).requests[j];
            && r'.user == r.user
            && (r'.pc.Submit? ==> RowOf(s.rows, r.user) == Some(r'.pc.row) || r'.pc == r.pc)
            && (Passed(r'.pc) ==> Passed(r.pc) || r.pc.Submit?)
  {
  }

  lemma AdvanceRow(s: State, i: nat, k: nat)
    requires Faithful(s) && Allowed(s, Advance(i)) && k < |s.rows|
    ensures var s' := Apply(s, Advance(i));
            s'.rows[k].submitted <==> OwnRow(s'.rows, k) && Approved(s', s'.rows[k].user)
  {
    var s', u := Apply(s, Advance(i)), s.rows[k].user;
    AdvanceApproved(s, i, u);
    RowOfSameUsers(s.rows, s'.rows, u);
    assert s.rows[k].submitted <==> OwnRow(s.rows, k) && Approved(s, u);
  }

  lemma {:induction false} RunFaithful(s: State, events: seq<Event>)
    requires Faithful(s) && AllAllowed(s, events)
    ensures Faithful(RunOf(s, events))
    decreases |events|
  {
    if events != [] {
      match events[0] {
        case AddRow(u, share) => AddRowFaithful(s, u, share);
        case Arrive(u) => ArriveFaithful(s, u);
        case Advance(i) => AdvanceFaithful(s, i);
      }
      RunFaithful(Apply(s, events[0]), events[1..]);
    }
  }

  /** In every interleaving a row is submitted if and only if it is its user's row and
      a request of that user has passed its submission. */
  lemma SubmittedByOwner(s: State, events: seq<Event>, k: nat)
    requires Fresh(s) && AllAllowed(s, events) && k < |RunOf(s, events).rows|
    ensures var r := RunOf(s, events);
            r.rows[k].submitted <==> OwnRow(r.rows, k) && Approved(r, r.rows[k].user)
  {
    RunFaithful(s, events);
  }

  // ------------------------------------------------------- One request on its own

  function Rank(pc: Pc): nat {
    match pc
    case FindShare => 6
    case Submit(_) => 5
    case FindProposal => 4
    case FindRoom(_) => 3
    case FindShares(_) => 2
    case SetExecuted => 1
    case Responded(_) => 0
  }

  /** The rest of request i, undisturbed. */
  function Finish(s: State, i: nat): State
    requires i < |s.requests|
    decreases Rank(s.requests[i].pc)
  {
    if s.requests[i].pc.Responded? then s else Finish(Apply(s, Advance(i)), i)
  }

  /** `approve_proposal` as one piece. */
  function Approve(s: State, u: UserId): State {
    Finish(Apply(s, Arrive(u)), |s.requests|)
  }

  /** What one undisturbed approval leaves behind and answers. */
  lemma ApproveIs(s: State, u: UserId)
    ensures var mine := RowOf(s.rows, u);
            if mine.None? then Approve(s, u) == s.(requests := s.requests + [Request(u, Responded(NotFound))])
            else if s.rows[mine.value].submitted
            then Approve(s, u) == s.(requests := s.requests + [Request(u, Responded(AlreadySubmitted))])
            else
              var rows := s.rows[mine.value := s.rows[mine.value].(submitted := true)];
              var enough := Count(Fetched(rows)) >= s.threshold;
              Approve(s, u) == State(s.threshold, rows, s.executed || enough,
                                     s.requests + [Request(u, Responded(if enough then Executed else Pending))])
  {
    var i, mine, s1 := |s.requests|, RowOf(s.rows, u), Apply(s, Arrive(u));
    assert s1.requests[i] == Request(u, FindShare);
    var s2 := Apply(s1, Advance(i));
    assert Approve(s, u) == Finish(s2, i);
    assert s2.requests == s.requests + [s2.requests[i]];
    if mine.Some? && !s.rows[mine.value].submitted {
      var s3 := Apply(s2, Advance(i));
      assert Finish(s2, i) == Finish(s3, i);
      assert s3.requests == s.requests + [Request(u, FindProposal)];
      FinishSubmitted(s3, i);
    }
  }

  lemma FinishSubmitted(s: State, i: nat)
    requires i < |s.requests| && s.requests[i].pc == FindProposal
    ensures var enough := Count(Fetched(s.rows)) >= s.threshold;
            var answer := Request(s.requests[i].user, Responded(if enough then Executed else Pending));
            Finish(s, i) == State(s.threshold, s.rows, s.executed || enough, s.requests[i := answer])
  {
    var s1 := Apply(s, Advance(i));
    var s2 := Apply(s1, Advance(i));
    var s3 := Apply(s2, Advance(i));
    assert Finish(s, i) == Finish(s1, i) == Finish(s2, i) == Finish(s3, i);
    if s3.requests[i].pc.SetExecuted? {
      assert Finish(s3, i) == Finish(Apply(s3, Advance(i)), i);
    }
  }

  // ------------------------------------------------------- Answers in every interleaving

  ghost predicate HasSubmitted(rows: seq<Row>, u: UserId) {
    exists k :: 0 <= k < |rows| && rows[k].user == u && rows[k].submitted
  }

  /** The answer fits request i in this state. */
  ghost predicate Fits(s: State, i: nat, answer: Response) {
    && i < |s.requests|
    && var r := s.requests[i];
       match answer
       case NotFound => RowOf(s.rows, r.user).None?
       case AlreadySubmitted => r.pc == FindShare && HasSubmitted(s.rows, r.user)
       case Executed => Passed(r.pc) && Count(s.rows) >= s.threshold
       case Pending => Passed(r.pc) && Count(s.rows) < s.threshold
  }

  lemma {:induction false} RunOfSnoc(s: State, events: seq<Event>)
    requires events != []
    ensures RunOf(s, events) == Apply(RunOf(s, events[..|events| - 1]), events[|events| - 1])
    ensures AllAllowed(s, events) ==> AllAllowed(s, events[..|events| - 1])
                                      && Allowed(RunOf(s, events[..|events| - 1]), events[|events| - 1])
    decreases |events|
  {
    if |events| > 1 {
      RunOfSnoc(Apply(s, events[0]), events[1..]);
      assert events[1..][..|events| - 2] == events[..|events| - 1][1..];
    }
  }

  /** In every interleaving each answer was true at some moment while its request was
      under way: no row, a row submitted before, at least threshold shares, or fewer. */
  lemma {:induction false} AnswerWasTrue(s: State, events: seq<Event>, i: nat)
    requires Fresh(s) && AllAllowed(s, events) && i < |RunOf(s, events).requests|
    requires RunOf(s, events).requests[i].pc.Responded?
    ensures exists n :: 0 <= n < |events| && Fits(RunOf(s, events[..n]), i, RunOf(s, events).requests[i].pc.response)
    decreases |events|
  {
    var m := |events| - 1;
    RunOfSnoc(s, events);
    var before := RunOf(s, events[..m]);
    if i < |before.requests| && before.requests[i].pc.Responded? {
      AnswerWasTrue(s, events[..m], i);
      var n :| 0 <= n < m && Fits(RunOf(s, events[..m][..n]), i, before.requests[i].pc.response);
      assert events[..m][..n] == events[..n];
    } else {
      RunInv(s, events[..m]);
      AnswerFits(before, events[m], i);
    }
  }

  /** The state in which an answer is given. */
  lemma AnswerFits(s: State, e: Event, i: nat)
    requires Inv(s) && Allowed(s, e) && i < |Apply(s, e).requests| && Apply(s, e).requests[i].pc.Responded?
    requires i < |s.requests| ==> !s.requests[i].pc.Responded?
    ensures Fits(s, i, Apply(s, e).requests[i].pc.response)
  {
    AllFetched(s.rows);
  }
}
