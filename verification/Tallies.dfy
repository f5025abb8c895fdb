/**
 * Vote rows and stored tallies: the indexer's vote handler, which copies the running counts an event
 * carries, and the reconciliation pass, which recounts the rows and repairs what disagrees.
 */
module Tallies {
  import opened Options

  datatype Choice = APPROVE | REJECT

  datatype VoteRow = VoteRow(vote: Choice, votedAtLedger: int, txHash: string)

  datatype Claim = Claim(
    approveVotes: int, rejectVotes: int, status: string,
    appealsCount: int, appealTxHash: Option<string>, isFinalized: bool)

  /** Votes are unique per claim and voter. */
  type Key = (int, string)

  datatype Db = Db(claims: map<int, Claim>, votes: map<Key, VoteRow>)

  function Rows(votes: map<Key, VoteRow>, claim: int, choice: Choice): set<Key> {
    set k | k in votes && k.0 == claim && votes[k].vote == choice
  }

  function Count(votes: map<Key, VoteRow>, claim: int, choice: Choice): nat { |Rows(votes, claim, choice)| }

  /** The tally a claim carries. */
  function Stored(c: Claim): (int, int) { (c.approveVotes, c.rejectVotes) }

  function RowCounts(votes: map<Key, VoteRow>, claim: int): (int, int) {
    (Count(votes, claim, APPROVE), Count(votes, claim, REJECT))
  }

  predicate TallyAgrees(votes: map<Key, VoteRow>, id: int, c: Claim) {
    c.approveVotes == Count(votes, id, APPROVE) && c.rejectVotes == Count(votes, id, REJECT)
  }

  predicate TalliesAgree(db: Db) { forall id :: id in db.claims ==> TallyAgrees(db.votes, id, db.claims[id]) }

  // ---------------------------------------------------------------------------------------------
  // The vote handler
  // ---------------------------------------------------------------------------------------------

  datatype VoteEvent = VoteEvent(
    claimId: int, voter: Option<string>, option: string, approveVotes: int, rejectVotes: int, ledger: int,
      txHash: string)

  datatype Outcome = Skipped | Failed | Applied

  predicate HasVoter(e: VoteEvent) { e.voter.Some? && e.voter.value != "" }

  function KeyOf(e: VoteEvent): Key
    requires HasVoter(e)
  {
    (e.claimId, e.voter.value)
  }

  function ChoiceOf(e: VoteEvent): Choice { if e.option == "Approve" then APPROVE else REJECT }

  function Upserted(votes: map<Key, VoteRow>, e: VoteEvent): map<Key, VoteRow>
    requires HasVoter(e)
  {
    var k := KeyOf(e);
    votes[k := if k in votes then votes[k].(vote := ChoiceOf(e)) else VoteRow(ChoiceOf(e), e.ledger, e.txHash)]
  }

  /** The transaction's result; a missing claim fails it and rolls everything back. */
  function After(db: Db, e: VoteEvent): Db {
    if !HasVoter(e) || e.claimId !in db.claims then db
    else Db(db.claims[e.claimId := db.claims[e.claimId].(approveVotes := e.approveVotes, rejectVotes := e.rejectVotes)],
            Upserted(db.votes, e))
  }

  function ApplyAll(db: Db, h: seq<VoteEvent>): Db {
    if h == [] then db else After(ApplyAll(db, h[..|h| - 1]), h[|h| - 1])
  }

  /** What one voter last said, by the history of events alone. */
  function Latest(h: seq<VoteEvent>, k: Key): Option<Choice> {
    if h == [] then None
    else
      var e := h[|h| - 1];
      if HasVoter(e) && KeyOf(e) == k then Some(ChoiceOf(e)) else Latest(h[..|h| - 1], k)
  }

  function Voters(h: seq<VoteEvent>): set<Key> {
    set i | 0 <= i < |h| && HasVoter(h[i]) :: KeyOf(h[i])
  }

  /** A voter's standing choice: the latest of the history, else the row the history started from. */
  function Stands(votes: map<Key, VoteRow>, h: seq<VoteEvent>, k: Key): Option<Choice> {
    if Latest(h, k).Some? then Latest(h, k) else if k in votes then Some(votes[k].vote) else None
  }

  /** The voters of a claim whose standing choice is `choice`. */
  function Standing(votes: map<Key, VoteRow>, h: seq<VoteEvent>, claim: int, choice: Choice): set<Key> {
    set k | k in votes.Keys + Voters(h) && k.0 == claim && Stands(votes, h, k) == Some(choice)
  }

  /** How many votes stand for and against a claim. */
  function Standings(votes: map<Key, VoteRow>, h: seq<VoteEvent>, claim: int): (int, int) {
    (|Standing(votes, h, claim, APPROVE)|, |Standing(votes, h, claim, REJECT)|)
  }

  /** Every event carries the running counts of the latest vote per voter. */
  predicate CarriesRunningCounts(votes: map<Key, VoteRow>, h: seq<VoteEvent>) {
    forall i :: 0 <= i < |h| && HasVoter(h[i]) ==>
      (h[i].approveVotes, h[i].rejectVotes) == Standings(votes, h[..i + 1], h[i].claimId)
  }

  lemma {:induction false} LatestIsVoter(h: seq<VoteEvent>, k: Key)
    ensures Latest(h, k).Some? <==> k in Voters(h)
  {
    if h != [] {
      var p := h[..|h| - 1];
      LatestIsVoter(p, k);
      VotersStep(h);
    }
  }

  lemma VotersStep(h: seq<VoteEvent>)
    requires h != []
    ensures var e := h[|h| - 1];
            Voters(h) == Voters(h[..|h| - 1]) + if HasVoter(e) then {KeyOf(e)} else {}
  {
    var p, e := h[..|h| - 1], h[|h| - 1];
    forall k | k in Voters(h) ensures k in Voters(p) || (HasVoter(e) && k == KeyOf(e)) {
      var i :| 0 <= i < |h| && HasVoter(h[i]) && KeyOf(h[i]) == k;
      if i < |p| { assert p[i] == h[i]; }
    }
    forall k | k in Voters(p) ensures k in Voters(h) {
      var i :| 0 <= i < |p| && HasVoter(p[i]) && KeyOf(p[i]) == k;
      assert h[i] == p[i];
    }
  }

  lemma {:induction false} ClaimsKept(db: Db, h: seq<VoteEvent>)
    ensures ApplyAll(db, h).claims.Keys == db.claims.Keys
  {
    if h != [] { ClaimsKept(db, h[..|h| - 1]); }
  }

  /** What a voter's row is after a history: the latest choice, on the row first created. */
  predicate RowFollows(before: map<Key, VoteRow>, after: map<Key, VoteRow>, latest: Option<Choice>, k: Key) {
    && (latest.Some? ==> k in after && after[k].vote == latest.value)
    && (latest.None? ==> (k in after <==> k in before))
    && (k in before ==>
        k in after && after[k].votedAtLedger == before[k].votedAtLedger && after[k].txHash == before[k].txHash)
    && (latest.None? && k in before ==> after[k] == before[k])
  }

  lemma RowStep(before: map<Key, VoteRow>, mid: map<Key, VoteRow>, e: VoteEvent, latest: Option<Choice>, k: Key)
    requires RowFollows(before, mid, latest, k) && HasVoter(e)
    ensures RowFollows(before, Upserted(mid, e), if KeyOf(e) == k then Some(ChoiceOf(e)) else latest, k)
  {
  }

  /** The last event about a voter decides that voter's row. */
  lemma {:induction false} LastVoteWins(db: Db, h: seq<VoteEvent>, k: Key)
    requires k.0 in db.claims
    ensures RowFollows(db.votes, ApplyAll(db, h).votes, Latest(h, k), k)
  {
    if h != [] {
      hide RowFollows, Upserted;
      var p, e := h[..|h| - 1], h[|h| - 1];
      LastVoteWins(db, p, k);
      ClaimsKept(db, p);
      var mid := ApplyAll(db, p);
      if HasVoter(e) {
        if e.claimId in mid.claims {
          RowStep(db.votes, mid.votes, e, Latest(p, k), k);
        } else {
          assert KeyOf(e) != k;
        }
      }
    }
  }

  /** The first event of a voter. */
  function First(h: seq<VoteEvent>, k: Key): Option<VoteEvent> {
    if h == [] then None
    else
      var before, e := First(h[..|h| - 1], k), h[|h| - 1];
      if before.Some? then before else if HasVoter(e) && KeyOf(e) == k then Some(e) else None
  }

  /** The last event of a voter. */
  function Last(h: seq<VoteEvent>, k: Key): Option<VoteEvent> {
    if h == [] then None
    else
      var e := h[|h| - 1];
      if e.voter == Some(k.1) && k.1 != "" && e.claimId == k.0 then Some(e) else Last(h[..|h| - 1], k)
  }

  lemma {:induction false} LatestIsOfLast(h: seq<VoteEvent>, k: Key)
    ensures Latest(h, k).Some? <==> Last(h, k).Some?
    ensures Last(h, k).Some? ==> (Latest(h, k) == Some(APPROVE) <==> Last(h, k).value.option == "Approve")
    ensures Last(h, k).Some? ==> (Latest(h, k) == Some(REJECT) <==> Last(h, k).value.option != "Approve")
  {
    if h != [] { LatestIsOfLast(h[..|h| - 1], k); }
  }

  /** After a history a voter's row says approve exactly if the voter's last event had the option "Approve". */
  lemma RowSaysLastOption(db: Db, h: seq<VoteEvent>, k: Key)
    requires k.0 in db.claims && Last(h, k).Some?
    ensures k in ApplyAll(db, h).votes
    ensures ApplyAll(db, h).votes[k].vote == if Last(h, k).value.option == "Approve" then APPROVE else REJECT
  {
    hide ApplyAll, Last, Latest;
    LatestIsOfLast(h, k);
    LastVoteWins(db, h, k);
  }

  lemma {:induction false} FirstIffLatest(h: seq<VoteEvent>, k: Key)
    ensures First(h, k).Some? <==> Latest(h, k).Some?
  {
    if h != [] { FirstIffLatest(h[..|h| - 1], k); }
  }

  /** A row created by a history carries the ledger and the transaction of its voter's first event. */
  lemma {:induction false} FirstVoteStamps(db: Db, h: seq<VoteEvent>, k: Key)
    requires k.0 in db.claims && k !in db.votes
    ensures First(h, k).None? ==> k !in ApplyAll(db, h).votes
    ensures First(h, k).Some? ==>
              && k in ApplyAll(db, h).votes
              && ApplyAll(db, h).votes[k].votedAtLedger == First(h, k).value.ledger
              && ApplyAll(db, h).votes[k].txHash == First(h, k).value.txHash
  {
    if h != [] {
      FirstVoteStamps(db, h[..|h| - 1], k);
      ClaimsKept(db, h[..|h| - 1]);
    }
  }

  lemma {:induction false} OtherRowsKept(db: Db, h: seq<VoteEvent>, k: Key)
    requires k.0 !in db.claims
    ensures k in ApplyAll(db, h).votes <==> k in db.votes
    ensures k in db.votes ==> ApplyAll(db, h).votes[k] == db.votes[k]
  {
    if h != [] {
      OtherRowsKept(db, h[..|h| - 1], k);
      ClaimsKept(db, h[..|h| - 1]);
    }
  }

  lemma RowsAreStanding(db: Db, h: seq<VoteEvent>, id: int, choice: Choice)
    requires id in db.claims
    ensures Rows(ApplyAll(db, h).votes, id, choice) == Standing(db.votes, h, id, choice)
  {
    hide ApplyAll, Latest, Voters;
    var votes := ApplyAll(db, h).votes;
    forall k: Key ensures k in Rows(votes, id, choice) <==> k in Standing(db.votes, h, id, choice) {
      if k.0 == id {
        LastVoteWins(db, h, k);
        LatestIsVoter(h, k);
      }
    }
  }

  /** The row counts after a history are the votes standing then. */
  lemma CountsAreStandings(db: Db, h: seq<VoteEvent>, id: int)
    requires id in db.claims
    ensures RowCounts(ApplyAll(db, h).votes, id) == Standings(db.votes, h, id)
  {
    hide ApplyAll, Standing, Rows;
    RowsAreStanding(db, h, id, APPROVE);
    RowsAreStanding(db, h, id, REJECT);
  }

  /** The counts stored on a claim follow the last event about it. */
  function LatestCounts(h: seq<VoteEvent>, id: int): Option<(int, int)> {
    if h == [] then None
    else
      var e := h[|h| - 1];
      if HasVoter(e) && e.claimId == id then Some((e.approveVotes, e.rejectVotes)) else LatestCounts(h[..|h| - 1], id)
  }

  lemma {:induction false} LastCountsWin(db: Db, h: seq<VoteEvent>, id: int)
    requires id in db.claims
    ensures id in ApplyAll(db, h).claims
    ensures ApplyAll(db, h).claims[id] ==
      match LatestCounts(h, id)
      case None => db.claims[id]
      case Some(n) => db.claims[id].(approveVotes := n.0, rejectVotes := n.1)
  {
    hide Upserted;
    if h != [] { LastCountsWin(db, h[..|h| - 1], id); }
  }

  lemma StandingUnmoved(votes: map<Key, VoteRow>, h: seq<VoteEvent>, id: int, choice: Choice)
    requires h != [] && (HasVoter(h[|h| - 1]) ==> h[|h| - 1].claimId != id)
    ensures Standing(votes, h, id, choice) == Standing(votes, h[..|h| - 1], id, choice)
  {
    hide Voters;
    VotersStep(h);
  }

  /** The counts of the last event about a claim are the votes standing; without one they are the old rows. */
  lemma {:induction false} CountsFollowStanding(votes: map<Key, VoteRow>, h: seq<VoteEvent>, id: int)
    requires CarriesRunningCounts(votes, h)
    ensures Standings(votes, h, id) == if LatestCounts(h, id).Some? then LatestCounts(h, id).value
              else RowCounts(votes, id)
  {
    hide Standing, Rows;
    if h == [] {
      NothingMoved(votes, id, APPROVE);
      NothingMoved(votes, id, REJECT);
    } else {
      var p, e := h[..|h| - 1], h[|h| - 1];
      RunningPrefix(votes, h, |h| - 1);
      if HasVoter(e) && e.claimId == id {
        assert h[..|h| - 1 + 1] == h;
      } else {
        CountsFollowStanding(votes, p, id);
        StandingUnmoved(votes, h, id, APPROVE);
        StandingUnmoved(votes, h, id, REJECT);
      }
    }
  }

  lemma NothingMoved(votes: map<Key, VoteRow>, id: int, choice: Choice)
    ensures Standing(votes, [], id, choice) == Rows(votes, id, choice)
  {
  }

  lemma RunningPrefix(votes: map<Key, VoteRow>, h: seq<VoteEvent>, n: nat)
    requires n <= |h| && CarriesRunningCounts(votes, h)
    ensures CarriesRunningCounts(votes, h[..n])
  {
    hide Standings;
    var p := h[..n];
    forall i | 0 <= i < |p| && HasVoter(p[i])
      ensures (p[i].approveVotes, p[i].rejectVotes) == Standings(votes, p[..i + 1], p[i].claimId)
    {
      assert p[i] == h[i] && p[..i + 1] == h[..i + 1];
    }
  }

  /**
   * From any database with agreeing tallies, any history whose events carry running counts keeps
   * every stored tally equal to the number of vote rows, and both equal to the votes standing.
   */
  lemma TalliesFollowVotes(db: Db, h: seq<VoteEvent>)
    requires TalliesAgree(db) && CarriesRunningCounts(db.votes, h)
    ensures TalliesAgree(ApplyAll(db, h))
    ensures ApplyAll(db, h).claims.Keys == db.claims.Keys
    ensures forall id :: id in db.claims ==> Stored(ApplyAll(db, h).claims[id]) == Standings(db.votes, h, id)
  {
    hide ApplyAll, Standings, LatestCounts, Count;
    ClaimsKept(db, h);
    forall id | id in db.claims
      ensures TallyAgrees(ApplyAll(db, h).votes, id, ApplyAll(db, h).claims[id])
      ensures Stored(ApplyAll(db, h).claims[id]) == Standings(db.votes, h, id)
    {
      CountsAreStandings(db, h, id);
      LastCountsWin(db, h, id);
      CountsFollowStanding(db.votes, h, id);
    }
  }

  // ---------------------------------------------------------------------------------------------
  // Replays
  // ---------------------------------------------------------------------------------------------

  lemma {:induction false} ApplyConcat(db: Db, a: seq<VoteEvent>, b: seq<VoteEvent>)
    ensures ApplyAll(db, a + b) == ApplyAll(ApplyAll(db, a), b)
    decreases |b|
  {
    hide After;
    if b == [] {
      assert a + b == a;
    } else {
      var q := b[..|b| - 1];
      ApplyConcat(db, a, q);
      assert (a + b)[..|a + b| - 1] == a + q;
    }
  }

  /** The claim already carries the counts a replay would leave on it. */
  predicate CountsInPlace(db: Db, r: seq<VoteEvent>, id: int)
    requires id in db.claims
  {
    LatestCounts(r, id).Some? ==> Stored(db.claims[id]) == LatestCounts(r, id).value
  }

  /** The voter already has a row with the choice a replay would leave on it. */
  predicate VoteInPlace(db: Db, r: seq<VoteEvent>, k: Key) {
    Latest(r, k).Some? ==> k in db.votes && db.votes[k].vote == Latest(r, k).value
  }

  lemma ClaimUnchangedIff(db: Db, r: seq<VoteEvent>, id: int)
    requires id in db.claims
    ensures id in ApplyAll(db, r).claims
    ensures ApplyAll(db, r).claims[id] == db.claims[id] <==> CountsInPlace(db, r, id)
  {
    hide ApplyAll, LatestCounts;
    LastCountsWin(db, r, id);
  }

  lemma RowUnchangedIff(db: Db, r: seq<VoteEvent>, k: Key)
    ensures ((k in ApplyAll(db, r).votes <==> k in db.votes)
              && (k in db.votes ==> ApplyAll(db, r).votes[k] == db.votes[k]))
       <==> (k.0 in db.claims ==> VoteInPlace(db, r, k))
  {
    hide ApplyAll, Latest;
    if k.0 in db.claims {
      LastVoteWins(db, r, k);
    } else {
      OtherRowsKept(db, r, k);
    }
  }

  /**
   * When applying events again is harmless: any sequence of events leaves any database as it is if
   * and only if every known claim it speaks of already carries the last counts it brings, and every
   * voter on such a claim already has the last choice it brings.
   */
  lemma ReplayHarmlessIff(db: Db, r: seq<VoteEvent>)
    ensures ApplyAll(db, r) == db <==>
              && (forall id :: id in db.claims ==> CountsInPlace(db, r, id))
              && (forall k: Key :: k.0 in db.claims ==> VoteInPlace(db, r, k))
  {
    hide ApplyAll, LatestCounts, VoteInPlace, CountsInPlace;
    var x := ApplyAll(db, r);
    ClaimsKept(db, r);
    forall id | id in db.claims ensures x.claims[id] == db.claims[id] <==> CountsInPlace(db, r, id) {
      ClaimUnchangedIff(db, r, id);
    }
    forall k: Key
      ensures ((k in x.votes <==> k in db.votes) && (k in db.votes ==> x.votes[k] == db.votes[k]))
         <==> (k.0 in db.claims ==> VoteInPlace(db, r, k))
    {
      RowUnchangedIff(db, r, k);
    }
    if (forall id :: id in db.claims ==> CountsInPlace(db, r, id))
        && (forall k: Key :: k.0 in db.claims ==> VoteInPlace(db, r, k)) {
      forall id | id in x.claims ensures x.claims[id] == db.claims[id] {
        assert CountsInPlace(db, r, id);
      }
      assert x.claims == db.claims;
      assert x.votes == db.votes;
    }
  }

  lemma {:induction false} LatestConcat(a: seq<VoteEvent>, b: seq<VoteEvent>, k: Key)
    ensures Latest(a + b, k) == if Latest(b, k).Some? then Latest(b, k) else Latest(a, k)
    decreases |b|
  {
    if b == [] {
      assert a + b == a;
    } else {
      LatestConcat(a, b[..|b| - 1], k);
      assert (a + b)[..|a + b| - 1] == a + b[..|b| - 1];
    }
  }

  lemma {:induction false} LatestCountsConcat(a: seq<VoteEvent>, b: seq<VoteEvent>, id: int)
    ensures LatestCounts(a + b, id) == if LatestCounts(b, id).Some? then LatestCounts(b, id) else LatestCounts(a, id)
    decreases |b|
  {
    if b == [] {
      assert a + b == a;
    } else {
      LatestCountsConcat(a, b[..|b| - 1], id);
      assert (a + b)[..|a + b| - 1] == a + b[..|b| - 1];
    }
  }

  /** What part of a history says last about a claim or a voter, the whole says last too. */
  ghost predicate SameLast(h: seq<VoteEvent>, part: seq<VoteEvent>, claims: set<int>) {
    && (forall id :: id in claims && LatestCounts(part, id).Some? ==> LatestCounts(part, id) == LatestCounts(h, id))
    && (forall k: Key :: k.0 in claims && Latest(part, k).Some? ==> Latest(part, k) == Latest(h, k))
  }

  lemma PartIsSpokenOf(h: seq<VoteEvent>, from: nat, upto: nat, id: int, k: Key)
    requires from <= upto <= |h|
    ensures LatestCounts(h[from..upto], id).Some? ==> LatestCounts(h, id).Some?
    ensures Latest(h[from..upto], k).Some? ==> Latest(h, k).Some?
  {
    hide Latest, LatestCounts;
    var a, m, z := h[..from], h[from..upto], h[upto..];
    assert h == a + m + z;
    LatestConcat(a + m, z, k);
    LatestConcat(a, m, k);
    LatestCountsConcat(a + m, z, id);
    LatestCountsConcat(a, m, id);
  }

  /**
   * Replaying a stretch of the applied history, from any database it was applied to: harmless if and
   * only if the stretch says last about each known claim and each of its voters what the whole
   * history says last. The condition is about the events alone.
   */
  lemma StretchReplayHarmlessIff(db: Db, h: seq<VoteEvent>, from: nat, upto: nat)
    requires from <= upto <= |h|
    ensures ApplyAll(ApplyAll(db, h), h[from..upto]) == ApplyAll(db, h) <==> SameLast(h, h[from..upto], db.claims.Keys)
  {
    hide ApplyAll, Latest, LatestCounts;
    var s, r := ApplyAll(db, h), h[from..upto];
    ClaimsKept(db, h);
    ReplayHarmlessIff(s, r);
    forall id | id in db.claims
      ensures CountsInPlace(s, r, id) <==> (LatestCounts(r, id).Some? ==> LatestCounts(r, id) == LatestCounts(h, id))
    {
      PartIsSpokenOf(h, from, upto, id, (id, ""));
      LastCountsWin(db, h, id);
    }
    forall k: Key | k.0 in db.claims
      ensures VoteInPlace(s, r, k) <==> (Latest(r, k).Some? ==> Latest(r, k) == Latest(h, k))
    {
      PartIsSpokenOf(h, from, upto, k.0, k);
      LastVoteWins(db, h, k);
    }
  }

  /** Replaying any tail of the applied history, in order and to its end, leaves the database as it was. */
  lemma TailReplayIsIdempotent(db: Db, h: seq<VoteEvent>, from: nat)
    requires from <= |h|
    ensures ApplyAll(ApplyAll(db, h), h[from..]) == ApplyAll(db, h)
  {
    hide ApplyAll, Latest, LatestCounts;
    var t := h[from..];
    assert h[from..|h|] == t && h[..from] + t == h;
    forall id { LatestCountsConcat(h[..from], t, id); }
    forall k: Key { LatestConcat(h[..from], t, k); }
    StretchReplayHarmlessIff(db, h, from, |h|);
  }

  /** Stopping inside a replay does not: an old event alone puts back its old counts. */
  lemma CutReplaySkews(claim: Claim)
    ensures var e1 := VoteEvent(1, Some("A"), "Approve", 1, 0, 10, "t1");
            var e2 := VoteEvent(1, Some("B"), "Reject", 1, 1, 11, "t2");
            var db := Db(map[1 := claim.(approveVotes := 0, rejectVotes := 0)], map[]);
            var once := ApplyAll(db, [e1, e2]);
            TalliesAgree(once) && !TalliesAgree(After(once, e1))
  {
    var e1 := VoteEvent(1, Some("A"), "Approve", 1, 0, 10, "t1");
    var e2 := VoteEvent(1, Some("B"), "Reject", 1, 1, 11, "t2");
    var db := Db(map[1 := claim.(approveVotes := 0, rejectVotes := 0)], map[]);
    var first := After(db, e1);
    assert [e1, e2][..1] == [e1] && [e1][..0] == [];
    assert ApplyAll(db, [e1]) == After(ApplyAll(db, []), e1);
    var once := After(first, e2);
    assert ApplyAll(db, [e1, e2]) == once;
    var again := After(once, e1);
    assert Rows(once.votes, 1, APPROVE) == {(1, "A")} && Rows(once.votes, 1, REJECT) == {(1, "B")};
    assert again.votes == once.votes;
    assert again.claims[1].rejectVotes == 0 && !TallyAgrees(again.votes, 1, again.claims[1]);
  }

  // ---------------------------------------------------------------------------------------------
  // Reconciliation
  // ---------------------------------------------------------------------------------------------

  function ExpectedAppeals(c: Claim): int { if c.status == "UNDER_APPEAL" then 1 else 0 }

  predicate Sound(votes: map<Key, VoteRow>, id: int, c: Claim) {
    TallyAgrees(votes, id, c) && c.appealsCount == ExpectedAppeals(c)
  }

  /** Every claim that is not finalized agrees with its votes and its status. */
  predicate AllSound(db: Db) {
    forall id :: id in db.claims && !db.claims[id].isFinalized ==> Sound(db.votes, id, db.claims[id])
  }

  function HealedTally(votes: map<Key, VoteRow>, id: int, c: Claim): Claim {
    if TallyAgrees(votes, id, c) then c
    else c.(approveVotes := Count(votes, id, APPROVE), rejectVotes := Count(votes, id, REJECT))
  }

  function HealedAppeal(c: Claim): Claim {
    if c.appealsCount == ExpectedAppeals(c) then c
    else c.(appealsCount := ExpectedAppeals(c), appealTxHash := if ExpectedAppeals(c) == 0 then None
      else c.appealTxHash)
  }

  /** What one pass leaves of a claim. */
  function Healed(votes: map<Key, VoteRow>, id: int, c: Claim): Claim {
    if c.isFinalized then c else HealedAppeal(HealedTally(votes, id, c))
  }

  function Reconciled(db: Db): Db {
    db.(claims := map id | id in db.claims :: Healed(db.votes, id, db.claims[id]))
  }

  /** The discrepancies of one claim: its id once for a wrong tally and once for a wrong appeal count. */
  function Flags(votes: map<Key, VoteRow>, id: int, c: Claim): seq<int> {
    (if TallyAgrees(votes, id, c) then [] else [id]) + (if c.appealsCount == ExpectedAppeals(c) then [] else [id])
  }

  function AllFlags(db: Db, order: seq<int>): seq<int>
    requires forall i :: 0 <= i < |order| ==> order[i] in db.claims
  {
    if order == [] then []
    else AllFlags(db, order[..|order| - 1]) + Flags(db.votes, order[|order| - 1], db.claims[order[|order| - 1]])
  }

  function AppealFlags(db: Db, order: seq<int>): nat
    requires forall i :: 0 <= i < |order| ==> order[i] in db.claims
  {
    if order == [] then 0
    else
      var c := db.claims[order[|order| - 1]];
      AppealFlags(db, order[..|order| - 1]) + if c.appealsCount == ExpectedAppeals(c) then 0 else 1
  }

  /** The rows of the first query: each claim that is not finalized once, in some order. */
  predicate ListsOpen(db: Db, order: seq<int>) {
    && (forall i :: 0 <= i < |order| ==> order[i] in db.claims && !db.claims[order[i]].isFinalized)
    && (forall id :: id in db.claims && !db.claims[id].isFinalized ==> id in order)
    && (forall i, j :: 0 <= i < j < |order| ==> order[i] != order[j])
  }

  /** One pass repairs every claim that is not finalized and touches no other and no vote. */
  lemma PassRepairs(db: Db)
    ensures AllSound(Reconciled(db))
    ensures Reconciled(db).votes == db.votes && Reconciled(db).claims.Keys == db.claims.Keys
    ensures forall id :: id in db.claims && db.claims[id].isFinalized ==> Reconciled(db).claims[id] == db.claims[id]
    ensures forall id :: id in db.claims ==>
              Reconciled(db).claims[id].status == db.claims[id].status
                && Reconciled(db).claims[id].isFinalized == db.claims[id].isFinalized
  {
    hide Count;
  }

  /** A claim whose records are right: its tallies are its rows', and it has one appeal if under appeal, else none. */
  predicate Right(votes: map<Key, VoteRow>, id: int, c: Claim) {
    && c.approveVotes == |Rows(votes, id, APPROVE)| && c.rejectVotes == |Rows(votes, id, REJECT)|
    && (c.status == "UNDER_APPEAL" ==> c.appealsCount == 1)
    && (c.status != "UNDER_APPEAL" ==> c.appealsCount == 0)
  }

  /**
   * What one pass leaves of each open claim, in full: its counted votes, one appeal if it is under
   * appeal and none otherwise, the transaction hash unless a wrong count was reset to none, and the
   * rest as it was. A claim already right is not listed.
   */
  lemma PassLeaves(db: Db, order: seq<int>, id: int)
    requires id in db.claims && !db.claims[id].isFinalized && ListsOpen(db, order)
    ensures var c, d := db.claims[id], Reconciled(db).claims[id];
            && Right(db.votes, id, d) && d.status == c.status && !d.isFinalized
            && (c.status == "UNDER_APPEAL" || c.appealsCount == 0 ==> d.appealTxHash == c.appealTxHash)
            && (c.status != "UNDER_APPEAL" && c.appealsCount != 0 ==> d.appealTxHash == None)
    ensures id in AllFlags(db, order) <==> !Right(db.votes, id, db.claims[id])
  {
    hide Rows, AllFlags;
    ReportedOncePerKind(db, order, id);
    assert id in AllFlags(db, order) <==> multiset(AllFlags(db, order))[id] > 0;
  }

  ghost predicate OpenRight(db: Db) {
    forall id :: id in db.claims && !db.claims[id].isFinalized ==> Right(db.votes, id, db.claims[id])
  }

  /** The open claims whose appeal count is not what their status says. */
  function AppealsWrong(db: Db): set<int> {
    set id | id in db.claims && !db.claims[id].isFinalized
             && db.claims[id].appealsCount != (if db.claims[id].status == "UNDER_APPEAL" then 1 else 0)
  }

  function Among(order: seq<int>, ids: set<int>): set<int> { set id | id in ids && id in order }

  lemma AmongSnoc(order: seq<int>, l: int, ids: set<int>)
    requires l !in order
    ensures |Among(order + [l], ids)| == |Among(order, ids)| + if l in ids then 1 else 0
  {
    assert Among(order + [l], ids) == Among(order, ids) + if l in ids then {l} else {};
  }

  lemma {:induction false} AppealFlagsCount(db: Db, order: seq<int>)
    requires forall i :: 0 <= i < |order| ==> order[i] in db.claims && !db.claims[order[i]].isFinalized
    requires forall i, j :: 0 <= i < j < |order| ==> order[i] != order[j]
    ensures AppealFlags(db, order) == |Among(order, AppealsWrong(db))|
  {
    if order == [] {
      assert Among(order, AppealsWrong(db)) == {};
    } else {
      var p, l := order[..|order| - 1], order[|order| - 1];
      assert l in AppealsWrong(db) <==> db.claims[l].appealsCount != ExpectedAppeals(db.claims[l]);
      hide Among, AppealsWrong, ExpectedAppeals;
      AppealFlagsCount(db, p);
      AmongSnoc(p, l, AppealsWrong(db));
      assert order == p + [l];
    }
  }

  /** The report in terms of the claims alone. */
  lemma ReportMeans(db: Db, order: seq<int>)
    requires ListsOpen(db, order)
    ensures OpenRight(Reconciled(db))
    ensures forall id :: id in db.claims && !db.claims[id].isFinalized ==>
              (id in AllFlags(db, order) <==> !Right(db.votes, id, db.claims[id]))
    ensures AllFlags(db, order) == [] <==> OpenRight(db)
    ensures AppealFlags(db, order) == |AppealsWrong(db)|
  {
    hide Rows, Right, Sound, AllFlags, AppealFlags;
    PassRepairs(db);
    hide Reconciled;
    forall id | id in db.claims && !db.claims[id].isFinalized
      ensures id in AllFlags(db, order) <==> !Right(db.votes, id, db.claims[id])
      ensures Right(db.votes, id, Reconciled(db).claims[id])
    {
      PassLeaves(db, order, id);
    }
    CleanIffSound(db, order);
    SoundIsRight(db);
    AppealFlagsCount(db, order);
    assert Among(order, AppealsWrong(db)) == AppealsWrong(db);
  }

  lemma SoundIsRight(db: Db)
    ensures AllSound(db) <==> OpenRight(db)
  {
    hide Rows;
    if AllSound(db) {
      forall id | id in db.claims && !db.claims[id].isFinalized ensures Right(db.votes, id, db.claims[id]) {
        assert Sound(db.votes, id, db.claims[id]);
      }
    }
    if OpenRight(db) {
      forall id | id in db.claims && !db.claims[id].isFinalized ensures Sound(db.votes, id, db.claims[id]) {
        assert Right(db.votes, id, db.claims[id]);
      }
    }
  }

  /** A pass changes nothing exactly when nothing was wrong; so a second pass changes nothing. */
  lemma PassIsFixpoint(db: Db)
    ensures Reconciled(db) == db <==> AllSound(db)
    ensures Reconciled(Reconciled(db)) == Reconciled(db)
  {
    hide Count;
    SoundIsUnchanged(db);
    PassRepairs(db);
    SoundIsUnchanged(Reconciled(db));
  }

  lemma SoundIsUnchanged(db: Db)
    ensures AllSound(db) ==> Reconciled(db) == db
    ensures Reconciled(db) == db ==> AllSound(db)
  {
    hide Count;
    if AllSound(db) {
      assert Reconciled(db).claims == db.claims;
    }
    if Reconciled(db) == db {
      PassRepairs(db);
    }
  }

  lemma {:induction false} NoFlagsIff(db: Db, order: seq<int>)
    requires forall i :: 0 <= i < |order| ==> order[i] in db.claims
    ensures AllFlags(db, order) == [] <==> forall i :: 0 <= i < |order| ==>
                Sound(db.votes, order[i], db.claims[order[i]])
  {
    hide TallyAgrees;
    if order != [] {
      var p, l := order[..|order| - 1], order[|order| - 1];
      NoFlagsIff(db, p);
      assert Flags(db.votes, l, db.claims[l]) == [] <==> Sound(db.votes, l, db.claims[l]);
      if forall i :: 0 <= i < |p| ==> Sound(db.votes, p[i], db.claims[p[i]]) {
        forall i | 0 <= i < |order| - 1
            ensures Sound(db.votes, order[i], db.claims[order[i]]) { assert order[i] == p[i]; }
      }
    }
  }

  /** The report is clean exactly when every claim that is not finalized was sound. */
  lemma CleanIffSound(db: Db, order: seq<int>)
    requires ListsOpen(db, order)
    ensures AllFlags(db, order) == [] <==> AllSound(db)
  {
    hide Sound;
    NoFlagsIff(db, order);
    if forall i :: 0 <= i < |order| ==> Sound(db.votes, order[i], db.claims[order[i]]) {
      forall id | id in db.claims && !db.claims[id].isFinalized ensures Sound(db.votes, id, db.claims[id]) {
        assert id in order;
      }
    }
  }

  /** How many of a claim's two records are wrong. */
  function Wrongs(votes: map<Key, VoteRow>, id: int, c: Claim): nat {
    (if TallyAgrees(votes, id, c) then 0 else 1) + (if c.appealsCount == ExpectedAppeals(c) then 0 else 1)
  }

  lemma FlagsOfOne(votes: map<Key, VoteRow>, l: int, c: Claim, id: int)
    ensures multiset(Flags(votes, l, c))[id] == if id == l then Wrongs(votes, l, c) else 0
  {
    hide TallyAgrees, ExpectedAppeals;
    assert multiset([l, l])[id] == if id == l then 2 else 0;
    assert [l] + [l] == [l, l] && [] + [l] == [l] && [l] + [] == [l];
  }

  /** A claim is reported once per kind of discrepancy it has, and no other claim is. */
  lemma {:induction false} ReportedOncePerKind(db: Db, order: seq<int>, id: int)
    requires forall i :: 0 <= i < |order| ==> order[i] in db.claims
    requires forall i, j :: 0 <= i < j < |order| ==> order[i] != order[j]
    ensures multiset(AllFlags(db, order))[id] == if id in order then Wrongs(db.votes, id, db.claims[id]) else 0
  {
    hide Flags, Wrongs;
    if order != [] {
      var p, l := order[..|order| - 1], order[|order| - 1];
      ReportedOncePerKind(db, p, id);
      assert order == p + [l] && l !in p;
      FlagsOfOne(db.votes, l, db.claims[l], id);
      MultisetConcat(AllFlags(db, p), Flags(db.votes, l, db.claims[l]), id);
    }
  }

  lemma MultisetConcat(a: seq<int>, b: seq<int>, id: int)
    ensures multiset(a + b)[id] == multiset(a)[id] + multiset(b)[id]
  {
  }

  /** What happens to the database between operators' eyes: votes and reconciliation passes. */
  datatype Act = Cast(e: VoteEvent) | Pass

  function AfterActs(db: Db, acts: seq<Act>): Db {
    if acts == [] then db
    else
      var before := AfterActs(db, acts[..|acts| - 1]);
      match acts[|acts| - 1]
      case Cast(e) => After(before, e)
      case Pass => Reconciled(before)
  }

  /** The appeal fields of an open claim that is not under appeal: only the first pass can change them. */
  lemma {:induction false} AppealFieldsAfter(db: Db, acts: seq<Act>, id: int)
    requires id in db.claims && !db.claims[id].isFinalized && db.claims[id].status != "UNDER_APPEAL"
    ensures id in AfterActs(db, acts).claims
    ensures var c, d := db.claims[id], AfterActs(db, acts).claims[id];
            && d.isFinalized == c.isFinalized && d.status == c.status
            && d.appealsCount == (if Pass in acts then 0 else c.appealsCount)
            && d.appealTxHash == if Pass in acts && c.appealsCount != 0 then None else c.appealTxHash
  {
    hide TallyAgrees, Count, Upserted;
    if acts != [] {
      var p := acts[..|acts| - 1];
      assert acts == p + [acts[|acts| - 1]];
      AppealFieldsAfter(db, p, id);
    }
  }

  /**
   * A transaction hash left over on a claim that is not under appeal outlives every later vote and
   * pass if and only if the count beside it was already zero or no pass ever ran.
   */
  lemma LeftoverHashKeptIff(db: Db, acts: seq<Act>, id: int)
    requires id in db.claims && !db.claims[id].isFinalized && db.claims[id].status != "UNDER_APPEAL"
    requires db.claims[id].appealTxHash.Some?
    ensures id in AfterActs(db, acts).claims
    ensures AfterActs(db, acts).claims[id].appealTxHash == db.claims[id].appealTxHash <==>
              db.claims[id].appealsCount == 0 || Pass !in acts
  {
    hide AfterActs;
    AppealFieldsAfter(db, acts, id);
  }

  /** Two passes leave the hash of an appeal that was never opened. */
  lemma LeftoverHashStays(claim: Claim, hash: string)
    requires !claim.isFinalized && claim.status == "REJECTED" && claim.appealsCount == 0
    ensures var db := Db(map[1 := claim.(appealTxHash := Some(hash))], map[]);
            var d := AfterActs(db, [Pass, Pass]);
            1 in d.claims && d.claims[1].appealTxHash == Some(hash)
  {
    hide AfterActs;
    LeftoverHashKeptIff(Db(map[1 := claim.(appealTxHash := Some(hash))], map[]), [Pass, Pass], 1);
  }

  /** The claims of the listing so far are repaired and the others as they were. */
  predicate HealedUpTo(votes: map<Key, VoteRow>, before: map<int, Claim>, after: map<int, Claim>, done: seq<int>) {
    && after.Keys == before.Keys
    && forall id :: id in before ==> after[id] == if id in done then Healed(votes, id, before[id]) else before[id]
  }

  lemma NoneHealed(votes: map<Key, VoteRow>, before: map<int, Claim>)
    ensures HealedUpTo(votes, before, before, [])
  {
  }

  lemma HealOneMore(votes: map<Key, VoteRow>, before: map<int, Claim>, after: map<int, Claim>, done: seq<int>, id: int)
    requires HealedUpTo(votes, before, after, done) && id in before
    ensures HealedUpTo(votes, before, after[id := Healed(votes, id, before[id])], done + [id])
  {
    hide Healed;
  }

  lemma AllHealed(db: Db, after: map<int, Claim>, order: seq<int>)
    requires HealedUpTo(db.votes, db.claims, after, order) && ListsOpen(db, order)
    ensures Db(after, db.votes) == Reconciled(db)
  {
    forall id | id in db.claims ensures after[id] == Healed(db.votes, id, db.claims[id]) {
      hide HealedTally, HealedAppeal;
      assert id !in order ==> db.claims[id].isFinalized;
    }
    assert after == Reconciled(db).claims;
  }

  datatype Report = Report(totalChecked: nat, discrepancies: nat, discrepantClaimIds: seq<int>,
                           appealCorrections: nat, ok: bool)

  class Store {
    var claims: map<int, Claim>
    var votes: map<Key, VoteRow>
    var lastResult: Option<Report>

    function State(): Db
      reads this
    {
      Db(claims, votes)
    }

    constructor (claims: map<int, Claim>, votes: map<Key, VoteRow>)
      ensures State() == Db(claims, votes) && lastResult == None
    {
      this.claims := claims;
      this.votes := votes;
      lastResult := None;
    }

    method HandleVoteCast(e: VoteEvent) returns (outcome: Outcome)
      modifies this`claims, this`votes
      ensures State() == After(old(State()), e)
      ensures outcome.Skipped? <==> e.voter.None? || e.voter.value == ""
      ensures outcome.Failed? <==> e.voter.Some? && e.voter.value != "" && e.claimId !in old(claims)
      ensures !outcome.Applied? ==> State() == old(State())
    {
      if !HasVoter(e) {
        return Skipped;
      }
      if e.claimId !in claims {
        return Failed;
      }
      var key := KeyOf(e);
      if key in votes {
        votes := votes[key := votes[key].(vote := ChoiceOf(e))];
      } else {
        votes := votes[key := VoteRow(ChoiceOf(e), e.ledger, e.txHash)];
      }
      claims := claims[e.claimId := claims[e.claimId].(approveVotes := e.approveVotes, rejectVotes := e.rejectVotes)];
      return Applied;
    }

    /**
     * The five-minute pass over one snapshot: the new database is the repaired one, the report lists
     * the claims found wrong in listing order, and it is `ok` exactly when none was.
     */
    method RunReconciliation(order: seq<int>) returns (r: Report)
      requires ListsOpen(State(), order)
      modifies this`claims, this`lastResult
      ensures State() == Reconciled(old(State()))
      ensures r.discrepantClaimIds == AllFlags(old(State()), order) && r.discrepancies == |r.discrepantClaimIds|
      ensures r.appealCorrections == AppealFlags(old(State()), order) && r.totalChecked == |order|
      ensures r.ok <==> AllSound(old(State()))
      ensures lastResult == Some(r)
      ensures OpenRight(State())
      ensures forall id :: id in old(State()).claims && !old(State()).claims[id].isFinalized ==>
                (id in r.discrepantClaimIds <==> !Right(votes, id, old(State()).claims[id]))
      ensures r.ok <==> OpenRight(old(State()))
      ensures r.appealCorrections == |AppealsWrong(old(State()))|
    {
      hide TallyAgrees, AllSound, Count, Healed, ExpectedAppeals, HealedUpTo, Flags, Reconciled;
      hide Right, OpenRight, AppealsWrong;
      ghost var was := State();
      NoneHealed(votes, claims);
      var snapshot := claims;
      var discrepantIds: seq<int> := [];
      var appealCorrections := 0;
      for i := 0 to |order|
        invariant HealedUpTo(votes, snapshot, claims, order[..i])
        invariant discrepantIds == AllFlags(was, order[..i])
        invariant appealCorrections == AppealFlags(was, order[..i])
      {
        var id := order[i];
        var claim := snapshot[id];
        assert order[..i + 1][..i] == order[..i] && order[..i + 1] == order[..i] + [id];
        var healed, flags, corrections := Repair(id, claim);
        discrepantIds := discrepantIds + flags;
        appealCorrections := appealCorrections + corrections;
        HealOneMore(votes, snapshot, claims, order[..i], id);
        claims := claims[id := healed];
      }
      assert order[..|order|] == order;
      AllHealed(was, claims, order);
      CleanIffSound(was, order);
      ReportMeans(was, order);
      r := Report(|order|, |discrepantIds|, discrepantIds, appealCorrections, |discrepantIds| == 0);
      lastResult := Some(r);
    }

    /** The body of the pass for one claim: recount, correct the tally, then the appeal fields. */
    method Repair(id: int, claim: Claim) returns (healed: Claim, flags: seq<int>, corrections: nat)
      requires !claim.isFinalized
      ensures healed == Healed(votes, id, claim)
      ensures flags == Flags(votes, id, claim)
      ensures corrections == if claim.appealsCount == ExpectedAppeals(claim) then 0 else 1
    {
      hide Count;
      var countApprove, countReject := Count(votes, id, APPROVE), Count(votes, id, REJECT);
      healed, flags, corrections := claim, [], 0;
      if claim.approveVotes != countApprove || claim.rejectVotes != countReject {
        flags := flags + [id];
        healed := healed.(approveVotes := countApprove, rejectVotes := countReject);
      }
      var expected := ExpectedAppeals(claim);
      if claim.appealsCount != expected {
        flags := flags + [id];
        corrections := 1;
        healed := healed.(appealsCount := expected);
        if expected == 0 && claim.appealTxHash.Some? {
          healed := healed.(appealTxHash := None);
        }
      }
    }
  }

  // ---------------------------------------------------------------------------------------------
  // Beside live ingestion
  // ---------------------------------------------------------------------------------------------

  /** A correction written after other transactions: `seen` and `counted` were read earlier. */
  function LateCorrection(db: Db, id: int, seen: Claim, counted: (int, int)): Db
    requires id in db.claims
  {
    if seen.approveVotes == counted.0 && seen.rejectVotes == counted.1 then db
    else db.(claims := db.claims[id := db.claims[id].(approveVotes := counted.0, rejectVotes := counted.1)])
  }

  /**
   * A pass beside live ingestion. The claim is read after the first `a` events, its rows are counted
   * after `b` of them and the correction is written after all of `h`. Whatever was stored at first,
   * the claim ends right if and only if what was read equalled what was counted, so that nothing is
   * written, or no vote between count and write changed the number standing.
   */
  lemma LateCorrectionIff(db: Db, h: seq<VoteEvent>, a: nat, b: nat, id: int)
    requires a <= b <= |h| && id in db.claims && CarriesRunningCounts(db.votes, h)
    ensures id in ApplyAll(db, h[..a]).claims && id in ApplyAll(db, h).claims
    ensures var seen := ApplyAll(db, h[..a]).claims[id];
            var counted := RowCounts(ApplyAll(db, h[..b]).votes, id);
            var now := ApplyAll(db, h);
            TallyAgrees(now.votes, id, LateCorrection(now, id, seen, counted).claims[id]) <==>
              || Stored(seen) == Standings(db.votes, h[..b], id)
              || Standings(db.votes, h[..b], id) == Standings(db.votes, h, id)
    ensures TallyAgrees(db.votes, id, db.claims[id]) ==>
              Stored(ApplyAll(db, h[..a]).claims[id]) == Standings(db.votes, h[..a], id)
  {
    hide ApplyAll, Standings, LatestCounts, Count, Latest;
    CountsAreStandings(db, h[..b], id);
    CountsAreStandings(db, h, id);
    LastCountsWin(db, h[..a], id);
    LastCountsWin(db, h, id);
    RunningPrefix(db.votes, h, a);
    RunningPrefix(db.votes, h, b);
    CountsFollowStanding(db.votes, h[..a], id);
    CountsFollowStanding(db.votes, h[..b], id);
    CountsFollowStanding(db.votes, h, id);
    NoCountsInPrefix(h, a, id);
    NoCountsInPrefix(h, b, id);
  }

  lemma NoCountsInPrefix(h: seq<VoteEvent>, n: nat, id: int)
    requires n <= |h|
    ensures LatestCounts(h, id).None? ==> LatestCounts(h[..n], id).None?
  {
    hide LatestCounts;
    assert h == h[..n] + h[n..];
    LatestCountsConcat(h[..n], h[n..], id);
  }

  /** One vote in that gap is undone in the tally although its event carried the right counts. */
  lemma LateCorrectionSkews(claim: Claim, rowA: VoteRow)
    requires rowA.vote == APPROVE && !claim.isFinalized
    ensures var seen := claim.(approveVotes := 0, rejectVotes := 0);
            var db := Db(map[1 := seen], map[(1, "A") := rowA]);
            var counted := (Count(db.votes, 1, APPROVE), Count(db.votes, 1, REJECT));
            var e := VoteEvent(1, Some("B"), "Approve", 2, 0, 10, "t");
            TalliesAgree(After(db, e)) && !TalliesAgree(LateCorrection(After(db, e), 1, seen, counted))
  {
    var seen := claim.(approveVotes := 0, rejectVotes := 0);
    var db := Db(map[1 := seen], map[(1, "A") := rowA]);
    var e := VoteEvent(1, Some("B"), "Approve", 2, 0, 10, "t");
    assert Rows(db.votes, 1, APPROVE) == {(1, "A")} && Rows(db.votes, 1, REJECT) == {};
    var cast := After(db, e);
    assert Rows(cast.votes, 1, APPROVE) == {(1, "A"), (1, "B")} && Rows(cast.votes, 1, REJECT) == {};
    var late := LateCorrection(cast, 1, seen, (1, 0));
    assert late.claims[1].approveVotes == 1 && !TallyAgrees(late.votes, 1, late.claims[1]);
  }
}
