/**
 * The appeal-window reminder scan: which claims it picks, how it pages through them, and what a whole
 * history of scans, acknowledgements, removals and claim changes guarantees a claimant.
 */
module Reminders {
  import opened Options
  import opened Sequences

  const APPEAL_OPEN_WINDOW_LEDGERS: int := 51_840
  const APPEAL_WINDOW_SCAN_PAGE_SIZE: nat := 200
  const APPEAL_WINDOW_NOTIFICATION_TYPE: string := "appeal_window_closing"

  datatype Claim = Claim(
    id: int, creator: string, status: string, appealsCount: int, deleted: bool,
    appealOpenDeadlineLedger: Option<int>, updatedAtLedger: int)

  datatype Notification = Notification(
    userId: string, kind: string, claimId: int, deadline: int, ledgersRemaining: int, acknowledged: bool)

  /** The claims table in primary-key order. */
  predicate Ascending(claims: seq<Claim>) { forall i, j :: 0 <= i < j < |claims| ==> claims[i].id < claims[j].id }

  // ---------------------------------------------------------------------------------------------
  // What a scan should do
  // ---------------------------------------------------------------------------------------------

  function Deadline(c: Claim): int {
    if c.appealOpenDeadlineLedger.Some? then c.appealOpenDeadlineLedger.value
    else c.updatedAtLedger + 51_840
  }

  /** Rejected, not appealed, not deleted. */
  predicate Open(c: Claim) { c.status == "REJECTED" && c.appealsCount == 0 && !c.deleted }

  predicate Due(c: Claim, current: int, lead: int) {
    Open(c) && current < Deadline(c) <= current + lead
  }

  predicate IsOpenClaim(c: Claim, user: string, claim: int, deadline: int) {
    Open(c) && c.creator == user && c.id == claim && Deadline(c) == deadline
  }

  predicate IsReminder(n: Notification, user: string, claim: int) {
    n.userId == user && n.kind == APPEAL_WINDOW_NOTIFICATION_TYPE && n.claimId == claim
  }

  predicate Unread(n: Notification, user: string, claim: int) { IsReminder(n, user, claim) && !n.acknowledged }

  predicate Pending(notes: seq<Notification>, user: string, claim: int) {
    exists i :: 0 <= i < |notes| && Unread(notes[i], user, claim)
  }

  function Reminder(c: Claim, current: int): Notification {
    Notification(c.creator, APPEAL_WINDOW_NOTIFICATION_TYPE, c.id, Deadline(c), Deadline(c) - current, false)
  }

  function ScanOne(c: Claim, current: int, lead: int, notes: seq<Notification>): seq<Notification> {
    if Due(c, current, lead) && !Pending(notes, c.creator, c.id) then notes + [Reminder(c, current)] else notes
  }

  /** The unpaged scan: every claim in turn. */
  function Scan(claims: seq<Claim>, current: int, lead: int, notes: seq<Notification>): seq<Notification> {
    if claims == [] then notes
    else ScanOne(claims[|claims| - 1], current, lead, Scan(claims[..|claims| - 1], current, lead, notes))
  }

  lemma PendingAppend(notes: seq<Notification>, n: Notification, user: string, claim: int)
    ensures Pending(notes + [n], user, claim) <==> Pending(notes, user, claim) || Unread(n, user, claim)
  {
    var all := notes + [n];
    assert all[|notes|] == n;
    if Pending(notes, user, claim) {
      var i :| 0 <= i < |notes| && Unread(notes[i], user, claim);
      assert all[i] == notes[i];
    }
    if Pending(all, user, claim) && !Unread(n, user, claim) {
      var i :| 0 <= i < |all| && Unread(all[i], user, claim);
      assert notes[i] == all[i];
    }
  }

  predicate DueFor(claims: seq<Claim>, current: int, lead: int, user: string, claim: int) {
    exists i :: 0 <= i < |claims| && claims[i].creator == user && claims[i].id == claim && Due(claims[i], current, lead)
  }

  lemma DueForLast(claims: seq<Claim>, current: int, lead: int, user: string, claim: int)
    requires claims != []
    ensures var l := claims[|claims| - 1];
            DueFor(claims, current, lead, user, claim) <==>
              || DueFor(claims[..|claims| - 1], current, lead, user, claim)
              || (l.creator == user && l.id == claim && Due(l, current, lead))
  {
    hide Due;
    var p := claims[..|claims| - 1];
    if DueFor(p, current, lead, user, claim) {
      var i :| 0 <= i < |p| && p[i].creator == user && p[i].id == claim && Due(p[i], current, lead);
      assert claims[i] == p[i];
    }
    if DueFor(claims, current, lead, user, claim) {
      var i :| 0 <= i < |claims| && claims[i].creator == user && claims[i].id == claim && Due(claims[i], current, lead);
      if i < |p| { assert p[i] == claims[i]; }
    }
  }

  lemma NothingDue(current: int, lead: int, user: string, claim: int)
    ensures !DueFor([], current, lead, user, claim)
  {
  }

  /** After a scan a reminder is pending exactly where one was already or the claim is due. */
  lemma {:induction false} PendingAfterScan(claims: seq<Claim>, current: int, lead: int, notes: seq<Notification>,
                                            user: string, claim: int)
    ensures Pending(Scan(claims, current, lead, notes), user, claim) <==>
              Pending(notes, user, claim) || DueFor(claims, current, lead, user, claim)
  {
    hide Pending, DueFor, Due;
    if claims == [] {
      NothingDue(current, lead, user, claim);
    } else {
      var p, l := claims[..|claims| - 1], claims[|claims| - 1];
      PendingAfterScan(p, current, lead, notes, user, claim);
      DueForLast(claims, current, lead, user, claim);
      PendingAppend(Scan(p, current, lead, notes), Reminder(l, current), user, claim);
    }
  }

  /** The reminders ever written for one user and claim. */
  function Written(notes: seq<Notification>, user: string, claim: int): nat {
    if notes == [] then 0
    else Written(notes[..|notes| - 1], user, claim) + (if IsReminder(notes[|notes| - 1], user, claim) then 1 else 0)
  }

  lemma WrittenAppend(notes: seq<Notification>, n: Notification, user: string, claim: int)
    ensures Written(notes + [n], user, claim) == Written(notes, user, claim)
              + (if IsReminder(n, user, claim) then 1 else 0)
  {
    assert (notes + [n])[..|notes + [n]| - 1] == notes;
  }

  /**
   * A scan writes exactly one reminder for each due claim whose owner has none pending, and none
   * otherwise. In particular an acknowledged reminder does not count: it is sent again.
   */
  lemma {:induction false} WritesOneEach(claims: seq<Claim>, current: int, lead: int, notes: seq<Notification>,
                                         user: string, claim: int)
    requires Ascending(claims)
    ensures Written(Scan(claims, current, lead, notes), user, claim) == Written(notes, user, claim)
         + (if DueFor(claims, current, lead, user, claim) && !Pending(notes, user, claim) then 1 else 0)
  {
    hide Pending, DueFor, Due, Written;
    if claims == [] {
      NothingDue(current, lead, user, claim);
    } else {
      var p, l := claims[..|claims| - 1], claims[|claims| - 1];
      WritesOneEach(p, current, lead, notes, user, claim);
      DueForLast(claims, current, lead, user, claim);
      PendingAfterScan(p, current, lead, notes, user, claim);
      WrittenAppend(Scan(p, current, lead, notes), Reminder(l, current), user, claim);
      if l.creator == user && l.id == claim {
        LastIsNew(claims, current, lead, user);
      }
    }
  }

  lemma LastIsNew(claims: seq<Claim>, current: int, lead: int, user: string)
    requires Ascending(claims) && claims != []
    ensures !DueFor(claims[..|claims| - 1], current, lead, user, claims[|claims| - 1].id)
  {
  }

  /** A reminder that a scan of this table at this ledger may write. */
  predicate Justified(n: Notification, claims: seq<Claim>, current: int, lead: int) {
    && n.kind == APPEAL_WINDOW_NOTIFICATION_TYPE && !n.acknowledged
    && 1 <= n.ledgersRemaining <= lead && n.deadline == current + n.ledgersRemaining
    && exists i :: 0 <= i < |claims| && IsOpenClaim(claims[i], n.userId, n.claimId, n.deadline)
  }

  /** A scan only adds, and everything it adds is about an open claim closing within the lead. */
  lemma {:induction false} AddsOnlyJustified(claims: seq<Claim>, current: int, lead: int, notes: seq<Notification>)
    ensures |notes| <= |Scan(claims, current, lead, notes)| && Scan(claims, current, lead, notes)[..|notes|] == notes
    ensures forall i :: |notes| <= i < |Scan(claims, current, lead, notes)| ==>
              Justified(Scan(claims, current, lead, notes)[i], claims, current, lead)
  {
    hide Pending;
    if claims != [] {
      var p, l := claims[..|claims| - 1], claims[|claims| - 1];
      AddsOnlyJustified(p, current, lead, notes);
      var before := Scan(p, current, lead, notes);
      forall i | |notes| <= i < |before| ensures Justified(before[i], claims, current, lead) {
        JustifiedWiden(before[i], claims, current, lead);
      }
      if Due(l, current, lead) {
        assert claims[|claims| - 1] == l;
        assert Justified(Reminder(l, current), claims, current, lead);
      }
    }
  }

  lemma JustifiedWiden(n: Notification, claims: seq<Claim>, current: int, lead: int)
    requires claims != [] && Justified(n, claims[..|claims| - 1], current, lead)
    ensures Justified(n, claims, current, lead)
  {
    var p := claims[..|claims| - 1];
    var i :| 0 <= i < |p| && IsOpenClaim(p[i], n.userId, n.claimId, n.deadline);
    assert claims[i] == p[i];
  }

  /** Scanning again at the same ledger writes nothing. */
  lemma {:induction false} SecondScanIsSilent(claims: seq<Claim>, upto: nat, current: int, lead: int,
                                              notes: seq<Notification>)
    requires upto <= |claims|
    ensures var once := Scan(claims, current, lead, notes); Scan(claims[..upto], current, lead, once) == once
    decreases upto
  {
    hide Pending, DueFor, Due;
    if upto > 0 {
      var c := claims[upto - 1];
      SecondScanIsSilent(claims, upto - 1, current, lead, notes);
      assert claims[..upto][..upto - 1] == claims[..upto - 1];
      PendingAfterScan(claims, current, lead, notes, c.creator, c.id);
      if Due(c, current, lead) { DueAt(claims, upto - 1, current, lead); }
    }
  }

  lemma DueAt(claims: seq<Claim>, k: nat, current: int, lead: int)
    requires k < |claims| && Due(claims[k], current, lead)
    ensures DueFor(claims, current, lead, claims[k].creator, claims[k].id)
  {
  }

  // ---------------------------------------------------------------------------------------------
  // The paged scan
  // ---------------------------------------------------------------------------------------------

  /** The `where` clause of the page query. */
  predicate Matches(c: Claim, lowerBound: int, upperBound: int, cursor: Option<int>) {
    && c.status == "REJECTED" && c.appealsCount == 0 && !c.deleted
    && ( (c.appealOpenDeadlineLedger.Some? && lowerBound <= c.appealOpenDeadlineLedger.value <= upperBound)
      || (c.appealOpenDeadlineLedger.None?
          && lowerBound - APPEAL_OPEN_WINDOW_LEDGERS <= c.updatedAtLedger <= upperBound - APPEAL_OPEN_WINDOW_LEDGERS))
    && (cursor.Some? ==> c.id > cursor.value)
  }

  function Matching(claims: seq<Claim>, lowerBound: int, upperBound: int, cursor: Option<int>): (r: seq<Claim>) {
    if claims == [] then []
    else
      var l := claims[|claims| - 1];
      Matching(claims[..|claims| - 1], lowerBound, upperBound, cursor)
        + (if Matches(l, lowerBound, upperBound, cursor) then [l] else [])
  }

  function FindPage(claims: seq<Claim>, lowerBound: int, upperBound: int, cursor: Option<int>): seq<Claim> {
    var all := Matching(claims, lowerBound, upperBound, cursor);
    if |all| <= APPEAL_WINDOW_SCAN_PAGE_SIZE then all else all[..APPEAL_WINDOW_SCAN_PAGE_SIZE]
  }

  lemma {:induction false} MatchingAreDue(claims: seq<Claim>, current: int, lead: int, rows: seq<Claim>)
    requires rows == Matching(claims, current + 1, current + lead, None)
    ensures forall i :: 0 <= i < |rows| ==> rows[i] in claims && Due(rows[i], current, lead)
  {
    if claims != [] {
      var p, l := claims[..|claims| - 1], claims[|claims| - 1];
      var m := Matching(p, current + 1, current + lead, None);
      MatchingAreDue(p, current, lead, m);
      forall i | 0 <= i < |rows| ensures rows[i] in claims && Due(rows[i], current, lead) {
        if i < |m| {
          assert rows[i] == m[i];
        } else {
          assert rows[i] == l;
        }
      }
    }
  }

  lemma {:induction false} MatchingAscends(claims: seq<Claim>, current: int, lead: int)
    requires Ascending(claims)
    ensures Ascending(Matching(claims, current + 1, current + lead, None))
  {
    hide Matches, Due;
    if claims != [] {
      var p, l := claims[..|claims| - 1], claims[|claims| - 1];
      MatchingAscends(p, current, lead);
      var m := Matching(p, current + 1, current + lead, None);
      MatchingAreDue(p, current, lead, m);
      forall i | 0 <= i < |m| ensures m[i].id < l.id {
        assert m[i] in p;
        var j :| 0 <= j < |p| && p[j] == m[i];
        assert claims[j] == p[j];
      }
    }
  }

  /** Scanning only the matching claims is scanning all of them. */
  lemma {:induction false} ScanMatching(claims: seq<Claim>, current: int, lead: int, notes: seq<Notification>)
    ensures Scan(Matching(claims, current + 1, current + lead, None), current, lead, notes)
         == Scan(claims, current, lead, notes)
  {
    hide Pending;
    if claims != [] {
      var p, l := claims[..|claims| - 1], claims[|claims| - 1];
      ScanMatching(p, current, lead, notes);
      var m := Matching(p, current + 1, current + lead, None);
      if Matches(l, current + 1, current + lead, None) {
        var m' := m + [l];
        assert Matching(claims, current + 1, current + lead, None) == m';
        assert m'[..|m'| - 1] == m;
      } else {
        assert !Due(l, current, lead);
        assert Matching(claims, current + 1, current + lead, None) == m;
      }
    }
  }

  /** The rows above an id. */
  function Above(rows: seq<Claim>, id: int): seq<Claim> {
    if rows == [] then []
    else Above(rows[..|rows| - 1], id) + (if rows[|rows| - 1].id > id then [rows[|rows| - 1]] else [])
  }

  lemma {:induction false} MatchingAbove(claims: seq<Claim>, lowerBound: int, upperBound: int, id: int)
    ensures Matching(claims, lowerBound, upperBound, Some(id))
         == Above(Matching(claims, lowerBound, upperBound, None), id)
  {
    if claims != [] {
      var p, l := claims[..|claims| - 1], claims[|claims| - 1];
      MatchingAbove(p, lowerBound, upperBound, id);
      var m := Matching(p, lowerBound, upperBound, None);
      assert (m + [l])[..|m + [l]| - 1] == m;
      assert m + [] == m;
    }
  }

  lemma {:induction false} AboveIsSuffix(rows: seq<Claim>, k: nat)
    requires Ascending(rows) && k < |rows|
    ensures Above(rows, rows[k].id) == rows[k + 1..]
    decreases |rows|
  {
    var p, l := rows[..|rows| - 1], rows[|rows| - 1];
    if k + 1 < |rows| {
      AboveIsSuffix(p, k);
      assert p[k + 1..] + [l] == rows[k + 1..];
    } else {
      NoneAbove(p, l.id);
    }
  }

  lemma {:induction false} NoneAbove(rows: seq<Claim>, id: int)
    requires forall i :: 0 <= i < |rows| ==> rows[i].id < id
    ensures Above(rows, id) == []
  {
    if rows != [] { NoneAbove(rows[..|rows| - 1], id); }
  }

  /** The page behind the last processed claim is the next slice of the matching rows. */
  lemma NextPage(claims: seq<Claim>, lowerBound: int, upperBound: int, rows: seq<Claim>, done: nat, cursor: Option<int>)
    requires rows == Matching(claims, lowerBound, upperBound, None) && Ascending(rows) && done <= |rows|
    requires cursor == if done == 0 then None else Some(rows[done - 1].id)
    ensures FindPage(claims, lowerBound, upperBound, cursor) == PageAt(rows, done, APPEAL_WINDOW_SCAN_PAGE_SIZE)
  {
    hide Matching, Ascending;
    if done > 0 {
      MatchingAbove(claims, lowerBound, upperBound, rows[done - 1].id);
      AboveIsSuffix(rows, done - 1);
    } else {
      assert rows[0..] == rows;
    }
  }

  class Service {
    var isRunning: bool
    const leadLedgers: int
    var lastProcessedLedger: Option<int>
    var claims: seq<Claim>
    var notifications: seq<Notification>

    constructor (leadLedgers: int, ledger: Option<int>, claims: seq<Claim>)
      ensures !isRunning && this.leadLedgers == leadLedgers && lastProcessedLedger == ledger
      ensures this.claims == claims && notifications == []
    {
      this.leadLedgers := leadLedgers;
      isRunning := false;
      lastProcessedLedger := ledger;
      this.claims := claims;
      notifications := [];
    }

    method HasPendingReminder(user: string, claim: int) returns (found: bool)
      ensures found == Pending(notifications, user, claim)
    {
      found := false;
      for i := 0 to |notifications|
        invariant !found <==> forall k :: 0 <= k < i ==> !Unread(notifications[k], user, claim)
      {
        if Unread(notifications[i], user, claim) {
          found := true;
        }
      }
    }

    /** One pass over a page; the cursor ends at the page's last claim. */
    method RemindPage(page: seq<Claim>, current: int, ghost rows: seq<Claim>, ghost done: nat,
                      ghost was: seq<Notification>)
      returns (cursor: int)
      requires page != [] && done + |page| <= |rows| && page == rows[done..done + |page|]
      requires forall i :: 0 <= i < |page| ==> Due(page[i], current, leadLedgers)
      requires notifications == Scan(rows[..done], current, leadLedgers, was)
      modifies this`notifications
      ensures notifications == Scan(rows[..done + |page|], current, leadLedgers, was)
      ensures cursor == page[|page| - 1].id
    {
      hide Pending, Due;
      cursor := page[0].id;
      for k := 0 to |page|
        invariant k > 0 ==> cursor == page[k - 1].id
        invariant notifications == Scan(rows[..done + k], current, leadLedgers, was)
      {
        var claim := page[k];
        cursor := claim.id;
        assert rows[..done + k + 1][..done + k] == rows[..done + k];
        assert rows[..done + k + 1][done + k] == claim;
        var alreadySent := HasPendingReminder(claim.creator, claim.id);
        if alreadySent {
          continue;
        }
        notifications := notifications + [Reminder(claim, current)];
      }
    }

    /**
     * The cron job. Unless it is switched off, already running or without a ledger, the paged loop
     * leaves exactly what the unpaged scan of the whole table would.
     */
    method RunScan(disabled: bool)
      requires Ascending(claims)
      modifies this`isRunning, this`notifications
      ensures isRunning == old(isRunning)
      ensures notifications ==
        if disabled || old(isRunning) || lastProcessedLedger.None? || lastProcessedLedger.value
            == 0 then old(notifications)
        else Scan(claims, lastProcessedLedger.value, leadLedgers, old(notifications))
    {
      hide Matching, Due, Scan, FindPage, Ascending;
      if disabled || isRunning {
        return;
      }
      isRunning := true;
      if lastProcessedLedger.None? || lastProcessedLedger.value == 0 {
        isRunning := false;
        return;
      }
      var current := lastProcessedLedger.value;
      var lowerBound, upperBound := current + 1, current + leadLedgers;
      ghost var was := notifications;
      ghost var rows := Matching(claims, lowerBound, upperBound, None);
      MatchingAreDue(claims, current, leadLedgers, rows);
      MatchingAscends(claims, current, leadLedgers);
      ScanNothing(current, leadLedgers, was);
      assert rows[..0] == [];
      var cursor: Option<int> := None;
      ghost var done: nat := 0;
      while true
        invariant done <= |rows|
        invariant cursor == if done == 0 then None else Some(rows[done - 1].id)
        invariant notifications == Scan(rows[..done], current, leadLedgers, was)
        invariant isRunning
        decreases |rows| - done
      {
        NextPage(claims, lowerBound, upperBound, rows, done, cursor);
        var page := FindPage(claims, lowerBound, upperBound, cursor);
        if page == [] {
          break;
        }
        assert forall i :: 0 <= i < |page| ==> page[i] == rows[done + i];
        var last := RemindPage(page, current, rows, done, was);
        cursor := Some(last);
        done := done + |page|;
        if |page| < APPEAL_WINDOW_SCAN_PAGE_SIZE {
          break;
        }
      }
      assert rows[..done] == rows;
      ScanMatching(claims, current, leadLedgers, was);
      isRunning := false;
    }
  }

  lemma ScanNothing(current: int, lead: int, notes: seq<Notification>)
    ensures Scan([], current, lead, notes) == notes
  {
  }

  // ---------------------------------------------------------------------------------------------
  // Whole histories
  // ---------------------------------------------------------------------------------------------

  datatype State = State(claims: seq<Claim>, notes: seq<Notification>)

  /**
   * A scan reaches the first `upto` claims: all of them, unless an error cut it short. Claims may
   * change in any way between steps.
   */
  datatype Step =
    | Scanned(current: int, upto: nat)
    | Acknowledged(i: nat)
    | Removed(i: nat)
    | ClaimsChanged(claims: seq<Claim>)

  predicate Enabled(s: State, step: Step) {
    match step
    case Scanned(current, upto) => current != 0 && upto <= |s.claims|
    case Acknowledged(i) => i < |s.notes|
    case Removed(i) => i < |s.notes|
    case ClaimsChanged(claims) => Ascending(claims)
  }

  function Apply(s: State, step: Step, lead: int): State
    requires Enabled(s, step)
  {
    match step
    case Scanned(current, upto) => s.(notes := Scan(s.claims[..upto], current, lead, s.notes))
    case Acknowledged(i) => s.(notes := s.notes[i := s.notes[i].(acknowledged := true)])
    case Removed(i) => s.(notes := s.notes[..i] + s.notes[i + 1..])
    case ClaimsChanged(claims) => s.(claims := claims)
  }

  /** A removal takes away that one notification and leaves the others in order; reading one marks it and no other. */
  lemma RemovedAndAcknowledged(s: State, i: nat, k: nat, lead: int)
    requires i < |s.notes|
    ensures var r := Apply(s, Removed(i), lead).notes;
            |r| == |s.notes| - 1 && (k < |r| ==> r[k] == s.notes[if k < i then k else k + 1])
    ensures var a := Apply(s, Acknowledged(i), lead).notes;
            && |a| == |s.notes|
            && (k < |a| ==> if k == i then a[k] == s.notes[k].(acknowledged := true) else a[k] == s.notes[k])
    ensures forall claims :: Ascending(claims) ==>
              Apply(s, ClaimsChanged(claims), lead).claims == claims
                && Apply(s, ClaimsChanged(claims), lead).notes == s.notes
  {
    hide Ascending;
  }

  predicate IsRun(states: seq<State>, steps: seq<Step>, lead: int) {
    && |states| == |steps| + 1
    && forall i :: 0 <= i < |steps| ==>
        Enabled(states[i], steps[i]) && states[i + 1] == Apply(states[i], steps[i], lead)
  }

  /** No user has two unread reminders for one claim. */
  predicate NoTwoPending(notes: seq<Notification>) {
    forall i, j :: 0 <= i < j < |notes| ==> !SamePending(notes[i], notes[j])
  }

  predicate SamePending(m: Notification, n: Notification) {
    && m.kind == n.kind == APPEAL_WINDOW_NOTIFICATION_TYPE && m.userId == n.userId && m.claimId == n.claimId
    && !m.acknowledged && !n.acknowledged
  }

  lemma {:induction false} ScanKeepsNoTwoPending(claims: seq<Claim>, current: int, lead: int, notes: seq<Notification>)
    requires NoTwoPending(notes)
    ensures NoTwoPending(Scan(claims, current, lead, notes))
  {
    if claims != [] {
      var p, l := claims[..|claims| - 1], claims[|claims| - 1];
      ScanKeepsNoTwoPending(p, current, lead, notes);
      var before := Scan(p, current, lead, notes);
      if !Pending(before, l.creator, l.id) {
        AppendKeepsNoTwoPending(before, Reminder(l, current));
      }
    }
  }

  lemma AppendKeepsNoTwoPending(notes: seq<Notification>, n: Notification)
    requires NoTwoPending(notes) && !Pending(notes, n.userId, n.claimId)
    ensures NoTwoPending(notes + [n])
  {
    var all := notes + [n];
    forall i, j | 0 <= i < j < |all| ensures !SamePending(all[i], all[j]) {
      assert all[i] == notes[i];
      if j == |notes| {
        assert !Unread(notes[i], n.userId, n.claimId);
      }
    }
  }

  lemma StepKeepsNoTwoPending(s: State, step: Step, lead: int)
    requires Enabled(s, step) && NoTwoPending(s.notes)
    ensures NoTwoPending(Apply(s, step, lead).notes)
  {
    match step {
      case Scanned(current, upto) => ScanKeepsNoTwoPending(s.claims[..upto], current, lead, s.notes);
      case Acknowledged(k) =>
      case Removed(k) =>
      case ClaimsChanged(claims) =>
    }
  }

  /** Over every run, no user ever has two unread reminders for one claim. */
  lemma {:induction false} NeverTwoPending(states: seq<State>, steps: seq<Step>, lead: int, k: nat)
    requires IsRun(states, steps, lead) && k < |states| && NoTwoPending(states[0].notes)
    ensures NoTwoPending(states[k].notes)
  {
    if k > 0 {
      NeverTwoPending(states, steps, lead, k - 1);
      StepKeepsNoTwoPending(states[k - 1], steps[k - 1], lead);
    }
  }

  /** Step `i` is a scan of the whole table. */
  predicate FullScan(states: seq<State>, steps: seq<Step>, i: nat)
    requires |states| == |steps| + 1
  {
    i < |steps| && steps[i].Scanned? && steps[i].upto == |states[i].claims|
  }

  /** Every whole scan before the deadline is followed by another at most `lead` ledgers on. */
  predicate KeepsScanning(states: seq<State>, steps: seq<Step>, lead: int, deadline: int)
    requires |states| == |steps| + 1
  {
    forall i :: 0 <= i < |steps| && FullScan(states, steps, i) && steps[i].current < deadline ==>
      exists j :: i < j < |steps| && FullScan(states, steps, j) && steps[j].current <= steps[i].current + lead
  }

  /** The claim is in the table, open and with this deadline, at every scan in its last `lead` ledgers. */
  predicate OpenThroughout(states: seq<State>, steps: seq<Step>, lead: int, user: string, claim: int, deadline: int)
    requires |states| == |steps| + 1
  {
    forall i :: 0 <= i < |steps| && steps[i].Scanned? && deadline - lead <= steps[i].current < deadline ==>
      exists k :: 0 <= k < |states[i].claims| && IsOpenClaim(states[i].claims[k], user, claim, deadline)
  }

  lemma {:induction false} LastScanBefore(states: seq<State>, steps: seq<Step>, deadline: int, from: nat)
      returns (i: nat)
    requires |states| == |steps| + 1 && FullScan(states, steps, from) && steps[from].current < deadline
    ensures i < |steps| && FullScan(states, steps, i) && steps[i].current < deadline
    ensures forall j :: i < j < |steps| && FullScan(states, steps, j) ==> deadline <= steps[j].current
    decreases |steps| - from
  {
    if j: nat :| from < j < |steps| && FullScan(states, steps, j) && steps[j].current < deadline {
      i := LastScanBefore(states, steps, deadline, j);
    } else {
      i := from;
    }
  }

  /**
   * Coverage: if whole scans start before the deadline and are never more than the lead apart until
   * past it, a claim that stays open through its last `lead` ledgers has an unread reminder right
   * after some scan in those ledgers.
   */
  lemma RemindedBeforeDeadline(states: seq<State>, steps: seq<Step>, lead: int, user: string, claim: int,
                               deadline: int, first: nat)
      returns (i: nat)
    requires IsRun(states, steps, lead)
    requires FullScan(states, steps, first) && steps[first].current < deadline
    requires KeepsScanning(states, steps, lead, deadline)
    requires OpenThroughout(states, steps, lead, user, claim, deadline)
    ensures i < |steps| && steps[i].Scanned? && deadline - lead <= steps[i].current < deadline
    ensures Pending(states[i + 1].notes, user, claim)
  {
    hide Pending, Apply, Deadline, Open;
    i := LastScanBefore(states, steps, deadline, first);
    var j :| i < j < |steps| && FullScan(states, steps, j) && steps[j].current <= steps[i].current + lead;
    var s := states[i];
    var k :| 0 <= k < |s.claims| && IsOpenClaim(s.claims[k], user, claim, deadline);
    FullScanReminds(s, steps[i].current, lead, k, user, claim, deadline);
  }

  lemma FullScanReminds(s: State, current: int, lead: int, k: nat, user: string, claim: int, deadline: int)
    requires current != 0 && k < |s.claims| && IsOpenClaim(s.claims[k], user, claim, deadline)
    requires current < deadline <= current + lead
    ensures Pending(Apply(s, Scanned(current, |s.claims|), lead).notes, user, claim)
  {
    hide Pending, DueFor, Scan;
    assert s.claims[..|s.claims|] == s.claims;
    DueAt(s.claims, k, current, lead);
    PendingAfterScan(s.claims, current, lead, s.notes, user, claim);
  }

  /** The hypotheses can be met: two scans around the deadline already do. */
  lemma PunctualScansExist(lead: int, deadline: int, c: Claim) returns (states: seq<State>, steps: seq<Step>)
    requires lead >= 1 && deadline != 0 && deadline != 1 && Open(c) && Deadline(c) == deadline
    ensures IsRun(states, steps, lead) && FullScan(states, steps, 0) && steps[0].current < deadline
    ensures KeepsScanning(states, steps, lead, deadline)
              && OpenThroughout(states, steps, lead, c.creator, c.id, deadline)
  {
    var s0 := State([c], []);
    steps := [Scanned(deadline - 1, 1), Scanned(deadline, 1)];
    var s1 := Apply(s0, steps[0], lead);
    states := [s0, s1, Apply(s1, steps[1], lead)];
    hide Scan, Deadline, Open;
    assert FullScan(states, steps, 0) && FullScan(states, steps, 1);
    assert IsRun(states, steps, lead);
    assert KeepsScanning(states, steps, lead, deadline);
    forall i | 0 <= i < 2
      ensures exists k :: 0 <= k < |states[i].claims| && IsOpenClaim(states[i].claims[k], c.creator, c.id, deadline)
    {
      assert IsOpenClaim(states[i].claims[0], c.creator, c.id, deadline);
    }
  }

  /** The gap bound is needed: scans one ledger further apart than the lead can miss a claim. */
  lemma WiderGapMisses(lead: nat, deadline: int, user: string)
    requires deadline - lead - 1 > 0
    ensures var c := Claim(1, user, "REJECTED", 0, false, Some(deadline), 0);
            var s0 := State([c], []);
            var s1 := Apply(s0, Scanned(deadline - lead - 1, 1), lead);
            var s2 := Apply(s1, Scanned(deadline, 1), lead);
            Open(c) && !Pending(s1.notes, user, 1) && !Pending(s2.notes, user, 1)
  {
    var c := Claim(1, user, "REJECTED", 0, false, Some(deadline), 0);
    assert [c][..1] == [c] && [c][..0] == [];
    assert Scan([], deadline, lead, []) == [] && Scan([], deadline - lead - 1, lead, []) == [];
  }
}
