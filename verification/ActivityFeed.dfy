/** The activity feed: a keyset walk on `(ledger, eventIndex)` over the indexer's raw event table. */
module ActivityFeed {
  import opened Options
  import opened Keyset
  import opened Cursors
  import LedgerIndexer

  function Take(limit: int): (n: nat)
    ensures 1 <= limit <= 100 ==> n == limit
    ensures limit < 1 ==> n == 1
    ensures 100 < limit ==> n == 100
  {
    var low := if limit < 1 then 1 else limit;
    if 100 < low then 100 else low
  }

  /** Rows that mention the address in one of their first four topics. */
  predicate Mentions(row: LedgerIndexer.RawRow, address: string): (m: bool)
    ensures m <==> address in (if |row.event.topics| <= 4 then row.event.topics else row.event.topics[..4])
  {
    exists i :: 0 <= i < |row.event.topics| && i < 4 && row.event.topics[i] == address
  }

  function FeedKey(row: LedgerIndexer.RawRow): Key { Key(row.event.ledger, row.eventIndex) }

  /** The sort keys of the matching rows. */
  ghost function FeedTable(raw: map<LedgerIndexer.RawKey, LedgerIndexer.RawRow>, address: string): (t: set<Key>)
    ensures NonNegative(t)
  {
    set k | k in raw && Mentions(raw[k], address) :: FeedKey(raw[k])
  }

  /** One row more than the page is read, and its presence alone decides whether there is a cursor. */
  ghost function FeedNext(t: set<Key>, start: Option<Key>, take: nat): Option<Key> {
    var rows := Page(t, start, take + 1);
    if |rows| > take && take > 0 then Some(rows[take - 1]) else None
  }

  ghost function FeedPage(t: set<Key>, start: Option<Key>, take: nat): seq<Key> {
    var rows := Page(t, start, take + 1);
    if |rows| <= take then rows else rows[..take]
  }

  datatype FeedAnswer = FeedAnswer(items: seq<Key>, nextCursor: Option<string>)

  ghost predicate NonNegative(t: set<Key>) { forall k :: k in t ==> k.hi >= 0 && k.lo >= 0 }

  ghost function GetActivityFeed(t: set<Key>, cursor: string, limit: int): Result<FeedAnswer>
    requires NonNegative(t)
  {
    var take := Take(limit);
    match DecodeStart(cursor)
    case Err(e) => Err(e)
    case Ok(s) =>
      FeedPageIsPage(t, s, take);
      var next := FeedNext(t, s, take);
      Ok(FeedAnswer(FeedPage(t, s, take),
                    match next case None => None case Some(k) => Some(EncodeActivityCursor(k.hi, k.lo))))
  }

  /** The position a request starts below; an absent or empty cursor is the first page. */
  function DecodeStart(cursor: string): Result<Option<Key>> {
    if cursor == "" then Ok(None) else
    match DecodeActivityCursor(cursor)
    case Err(e) => Err(e)
    case Ok((ledger, eventIndex)) => Ok(Some(Key(ledger, eventIndex)))
  }

  /** Reading one row extra and cutting it off gives the plain page and a sound, exact cursor rule. */
  lemma FeedPageIsPage(t: set<Key>, start: Option<Key>, take: nat)
    requires take > 0
    ensures FeedPage(t, start, take) == Page(t, start, take)
    ensures SoundNext(t, start, Page(t, start, take), FeedNext(t, start, take))
    ensures FeedNext(t, start, take).Some? <==> exists k :: k in Remaining(t, start) && k !in Page(t, start, take)
    ensures FeedNext(t, start, take).Some? ==> FeedNext(t, start, take).value in t
  {
    hide Sorted, Remaining, Page, Keyset.Below, Descending, Cut;
    var rest := Remaining(t, start);
    var s := Sorted(rest);
    PageIsCut(t, start, take);
    PageIsCut(t, start, take + 1);
    CutTwice(s, take);
    ShownOrLeft(s, rest, take);
  }

  lemma PageIsCut(t: set<Key>, start: Option<Key>, n: nat)
    ensures Page(t, start, n) == Cut(Sorted(Remaining(t, start)), n)
    ensures Lists(Sorted(Remaining(t, start)), Remaining(t, start))
    ensures forall k :: k in Remaining(t, start) ==> k in t
  {
    hide Sorted;
  }

  /** At most the first `n` rows. */
  function Cut(s: seq<Key>, n: nat): seq<Key> { if |s| <= n then s else s[..n] }

  lemma CutTwice(s: seq<Key>, n: nat)
    ensures |Cut(s, n + 1)| > n <==> |s| > n
    ensures (if |Cut(s, n + 1)| <= n then Cut(s, n + 1) else Cut(s, n + 1)[..n]) == Cut(s, n)
  {
  }

  lemma ShownOrLeft(s: seq<Key>, rest: set<Key>, take: nat)
    requires Lists(s, rest) && take > 0
    ensures |s| > take <==> exists k :: k in rest && k !in Cut(s, take)
    ensures |s| > take ==>
                Cut(s, take + 1)[take - 1] == Cut(s, take)[|Cut(s, take)| - 1] && Cut(s, take)[take - 1] in rest
  {
    hide Keyset.Below;
    if |s| > take {
      LeftOver(s, take);
      assert s[take] in rest && s[take - 1] in rest;
    }
  }

  lemma LeftOver(s: seq<Key>, take: nat)
    requires Descending(s) && 0 < take < |s|
    ensures s[take] in s && s[take - 1] in s && s[take] !in s[..take]
  {
    forall i | 0 <= i < take ensures s[i] != s[take] {
      assert Keyset.Below(s[take], s[i]);
    }
  }

  /** A request is refused exactly for a cursor that cannot be decoded; no cursor is the first page. */
  lemma AnsweredIff(t: set<Key>, cursor: string, limit: int)
    requires NonNegative(t)
    ensures GetActivityFeed(t, cursor, limit).Ok? <==> cursor == "" || DecodeActivityCursor(cursor).Ok?
  {
    hide NonNegative, DecodeActivityCursor, FeedNext, FeedPage, Take;
  }

  /**
   * What one request returns for an allowed limit: that many rows or all that are left below the
   * cursor, whichever is fewer, and a cursor exactly when some are left over.
   */
  lemma AnswerSize(t: set<Key>, cursor: string, limit: int, start: Option<Key>)
    requires NonNegative(t) && DecodeStart(cursor) == Ok(start) && 1 <= limit <= 100
    ensures var answer, left := GetActivityFeed(t, cursor, limit), |Remaining(t, start)|;
            && answer.Ok?
            && |answer.value.items| == (if left <= limit then left else limit)
            && (answer.value.nextCursor.Some? <==> limit < left)
  {
    hide DecodeStart, Remaining, NonNegative, Page, FeedPage, FeedNext;
    FeedPageIsPage(t, start, limit);
    PageSize(t, start, limit);
    CursorIffLeft(t, start, limit);
  }

  lemma CursorIffLeft(t: set<Key>, start: Option<Key>, take: nat)
    requires take > 0
    ensures FeedNext(t, start, take).Some? <==> take < |Remaining(t, start)|
  {
    PageSize(t, start, take + 1);
  }

  // ---------------------------------------------------------------------------------------------
  // A client following `nextCursor`
  // ---------------------------------------------------------------------------------------------

  ghost predicate Session(t: set<Key>, limits: seq<int>, answers: seq<FeedAnswer>, cursor: string)
    requires NonNegative(t)
    decreases |limits|
  {
    && |answers| == |limits|
    && (limits != [] ==>
          && GetActivityFeed(t, cursor, limits[0]) == Ok(answers[0])
          && (limits[1..] != [] ==>
                answers[0].nextCursor.Some? && Session(t, limits[1..], answers[1..], answers[0].nextCursor.value)))
  }

  lemma ShowsAnswers(t: set<Key>, answers: seq<FeedAnswer>, first: Visit, rest: seq<Visit>)
    requires answers != [] && |rest| == |answers| - 1 && first.table == t && first.page == answers[0].items
    requires forall i :: 0 <= i < |rest| ==> rest[i].table == t && rest[i].page == answers[1..][i].items
    ensures forall i :: 0 <= i < |answers| ==>
                ([first] + rest)[i].table == t && ([first] + rest)[i].page == answers[i].items
  {
    forall i | 0 <= i < |answers|
      ensures ([first] + rest)[i].table == t && ([first] + rest)[i].page == answers[i].items
    {
      if i > 0 { assert ([first] + rest)[i] == rest[i - 1] && answers[1..][i - 1] == answers[i]; }
    }
  }

  ghost function Visits(t: set<Key>, limits: seq<int>, answers: seq<FeedAnswer>, start: Option<Key>): (w: seq<Visit>)
    requires |limits| == |answers|
    ensures |w| == |limits|
    ensures forall i :: 0 <= i < |w| ==> w[i].table == t && w[i].page == answers[i].items
  {
    if limits == [] then [] else
    var next := FeedNext(t, start, Take(limits[0]));
    var first, rest := Visit(t, Take(limits[0]), answers[0].items, next), Visits(t, limits[1..], answers[1..], next);
    ShowsAnswers(t, answers, first, rest);
    [first] + rest
  }

  lemma FeedCursorReturnsToKey(k: Key)
    requires k.hi >= 0 && k.lo >= 0
    ensures EncodeActivityCursor(k.hi, k.lo) != "" && DecodeStart(EncodeActivityCursor(k.hi, k.lo)) == Ok(Some(k))
  {
    ActivityCursorRoundTrip(k.hi, k.lo);
    assert DecodeActivityCursor("").Err?;
  }

  lemma FeedStep(t: set<Key>, cursor: string, limit: int, start: Option<Key>, answer: FeedAnswer)
    requires NonNegative(t) && DecodeStart(cursor) == Ok(start) && GetActivityFeed(t, cursor, limit) == Ok(answer)
    ensures var next := FeedNext(t, start, Take(limit));
            && answer.items == Page(t, start, Take(limit))
            && SoundNext(t, start, answer.items, next)
            && (answer.nextCursor.Some? <==> next.Some?)
            && (next.Some? ==> DecodeStart(answer.nextCursor.value) == Ok(next))
  {
    FeedPageIsPage(t, start, Take(limit));
    var next := FeedNext(t, start, Take(limit));
    if next.Some? {
      FeedCursorReturnsToKey(next.value);
    }
  }

  lemma {:induction false} SessionIsWalk(t: set<Key>, limits: seq<int>, answers: seq<FeedAnswer>, cursor: string,
                                         start: Option<Key>)
    requires NonNegative(t) && Session(t, limits, answers, cursor)
    requires DecodeStart(cursor) == Ok(start)
    ensures Walk(Visits(t, limits, answers, start), start)
    ensures Complete(Visits(t, limits, answers, start)) <==> answers != [] && answers[|answers| - 1].nextCursor.None?
    decreases |limits|
  {
    hide GetActivityFeed, FeedNext, Page, SoundNext, DecodeStart, Take, NonNegative, Keyset.Below;
    if limits != [] {
      FeedStep(t, cursor, limits[0], start, answers[0]);
      var next := FeedNext(t, start, Take(limits[0]));
      var w := Visits(t, limits, answers, start);
      assert w[1..] == Visits(t, limits[1..], answers[1..], next);
      if limits[1..] != [] {
        SessionIsWalk(t, limits[1..], answers[1..], answers[0].nextCursor.value, next);
      }
    }
  }

  /** How many requests a finished session with one allowed limit takes from a position on. */
  lemma {:induction false} RequestsFrom(t: set<Key>, limit: int, limits: seq<int>, answers: seq<FeedAnswer>,
                                        cursor: string, start: Option<Key>)
    requires NonNegative(t) && Session(t, limits, answers, cursor) && DecodeStart(cursor) == Ok(start)
    requires 1 <= limit <= 100 && forall i :: 0 <= i < |limits| ==> limits[i] == limit
    requires answers != [] && answers[|answers| - 1].nextCursor.None?
    ensures var n, left := |limits|, |Remaining(t, start)|;
            if left == 0 then n == 1 else (n - 1) * limit < left <= n * limit
    decreases |limits|
  {
    hide DecodeStart, GetActivityFeed, Remaining, NonNegative, Page, FeedNext, SoundNext;
    AnswerSize(t, cursor, limit, start);
    if limits[1..] != [] {
      FeedStep(t, cursor, limit, start, answers[0]);
      LeftAfterPage(t, start, limit);
      LastShown(t, start, limit, answers[0].items);
      var next := FeedNext(t, start, limit);
      RequestsFrom(t, limit, limits[1..], answers[1..], answers[0].nextCursor.value, next);
      assert (|limits| - 1) * limit == (|limits| - 2) * limit + limit;
    }
  }

  lemma LastShown(t: set<Key>, start: Option<Key>, take: nat, items: seq<Key>)
    requires take > 0 && SoundNext(t, start, items, FeedNext(t, start, take)) && FeedNext(t, start, take).Some?
    ensures items != [] && FeedNext(t, start, take) == Some(items[|items| - 1])
  {
  }

  /**
   * A client that follows `nextCursor` with one allowed limit over a fixed table makes exactly as many
   * requests as the matching rows fill pages, and one if there are none.
   */
  lemma RequestsExactly(t: set<Key>, limit: int, limits: seq<int>, answers: seq<FeedAnswer>)
    requires NonNegative(t) && Session(t, limits, answers, "")
    requires 1 <= limit <= 100 && forall i :: 0 <= i < |limits| ==> limits[i] == limit
    requires answers != [] && answers[|answers| - 1].nextCursor.None?
    ensures if t == {} then |limits| == 1 else (|limits| - 1) * limit < |t| <= |limits| * limit
  {
    hide GetActivityFeed;
    RequestsFrom(t, limit, limits, answers, "", None);
  }

  /** Distinct `(ledger, eventIndex)` pairs make the sort key name a single row. */
  lemma KeyNamesRow(raw: map<LedgerIndexer.RawKey, LedgerIndexer.RawRow>, k: LedgerIndexer.RawKey,
                    k': LedgerIndexer.RawKey)
    requires LedgerIndexer.DistinctFeedKeys(raw) && k in raw && k' in raw
    ensures FeedKey(raw[k]) == FeedKey(raw[k']) <==> k == k'
  {
  }

  /**
   * The feed over a table the indexer wrote in any run without a cursor reset: following
   * `nextCursor` ends, and what it returns is every matching row exactly once, newest first.
   */
  lemma FeedWalksIndexedEvents<P(!new)>(h: (P, LedgerIndexer.ChainEvent) -> P, r0: LedgerIndexer.Run<P>,
                                        steps: seq<LedgerIndexer.Step>,
                                        address: string, limits: seq<int>, answers: seq<FeedAnswer>)
    requires LedgerIndexer.Initial(r0) && LedgerIndexer.Possible(h, r0, steps) && LedgerIndexer.NoReset(steps)
    requires var t := FeedTable(LedgerIndexer.Exec(h, r0, steps).st.raw, address);
             Session(t, limits, answers, "")
    ensures var raw := LedgerIndexer.Exec(h, r0, steps).st.raw;
            var seen := Delivered(Visits(FeedTable(raw, address), limits, answers, None));
            && |limits| <= |FeedTable(raw, address)| + 1
            && Descending(seen) && RowsInOrder(raw, seen)
            && (answers != [] && answers[|answers| - 1].nextCursor.None? ==>
                  && seen == Keyset.Sorted(FeedTable(raw, address))
                  && forall k :: k in raw && Mentions(raw[k], address) ==> RowSeenOnce(raw, seen, k))
  {
    hide Session, Delivered, Visits, FeedTable, RowSeenOnce, RowsInOrder, Descending;
    hide LedgerIndexer.Initial, LedgerIndexer.Possible, LedgerIndexer.Exec, LedgerIndexer.NoReset, LedgerIndexer.Fold;
    LedgerIndexer.ExactlyOnce(h, r0, steps);
    FeedWalksTable(LedgerIndexer.Exec(h, r0, steps).st.raw, address, limits, answers);
  }

  /** The same for any raw table whose `(ledger, eventIndex)` pairs are distinct. */
  lemma FeedWalksTable(raw: map<LedgerIndexer.RawKey, LedgerIndexer.RawRow>, address: string, limits: seq<int>,
                       answers: seq<FeedAnswer>)
    requires LedgerIndexer.DistinctFeedKeys(raw)
    requires Session(FeedTable(raw, address), limits, answers, "")
    ensures var seen := Delivered(Visits(FeedTable(raw, address), limits, answers, None));
            && |limits| <= |FeedTable(raw, address)| + 1
            && Descending(seen) && RowsInOrder(raw, seen)
            && (answers != [] && answers[|answers| - 1].nextCursor.None? ==>
                  && seen == Keyset.Sorted(FeedTable(raw, address))
                  && forall k :: k in raw && Mentions(raw[k], address) ==> RowSeenOnce(raw, seen, k))
  {
    var t := FeedTable(raw, address);
    SessionIsWalk(t, limits, answers, "", None);
    var w := Visits(t, limits, answers, None);
    NothingTwice(w, None);
    InRowOrder(raw, Delivered(w));
    FixedTableTerminates(w, t);
    if answers != [] && answers[|answers| - 1].nextCursor.None? {
      FixedTableInOrder(w, t);
      forall k | k in raw && Mentions(raw[k], address)
        ensures RowSeenOnce(raw, Delivered(w), k)
      {
        assert FeedKey(raw[k]) in t;
        SeenOnce(raw, Delivered(w), k);
      }
    }
  }

  /** Newest first in terms of the rows: by ledger, and by event index within a ledger. */
  ghost predicate RowsInOrder(raw: map<LedgerIndexer.RawKey, LedgerIndexer.RawRow>, seen: seq<Key>) {
    forall i, j, k, k' :: 0 <= i < j < |seen| && k in raw && k' in raw && Shows(seen[i], raw[k])
        && Shows(seen[j], raw[k'])
      ==> Newer(raw[k], raw[k'])
  }

  predicate Newer(row: LedgerIndexer.RawRow, than: LedgerIndexer.RawRow) {
    than.event.ledger < row.event.ledger || (than.event.ledger == row.event.ledger && than.eventIndex < row.eventIndex)
  }

  predicate Shows(key: Key, row: LedgerIndexer.RawRow) { key == FeedKey(row) }

  lemma InRowOrder(raw: map<LedgerIndexer.RawKey, LedgerIndexer.RawRow>, seen: seq<Key>)
    requires Descending(seen)
    ensures RowsInOrder(raw, seen)
  {
    forall i, j, k, k' | 0 <= i < j < |seen| && k in raw && k' in raw && Shows(seen[i], raw[k])
        && Shows(seen[j], raw[k'])
      ensures Newer(raw[k], raw[k'])
    {
      NewestFirst(seen, i, j);
    }
  }

  ghost predicate RowSeenOnce(raw: map<LedgerIndexer.RawKey, LedgerIndexer.RawRow>, seen: seq<Key>,
                              k: LedgerIndexer.RawKey)
    requires k in raw
  {
    exists i :: && 0 <= i < |seen| && seen[i] == FeedKey(raw[k])
                && forall j, k' :: 0 <= j < |seen| && k' in raw && seen[j] == FeedKey(raw[k']) && (j == i || k' == k)
                                   ==> j == i && k' == k
  }

  lemma SeenOnce(raw: map<LedgerIndexer.RawKey, LedgerIndexer.RawRow>, seen: seq<Key>, k: LedgerIndexer.RawKey)
    requires LedgerIndexer.DistinctFeedKeys(raw) && k in raw && Descending(seen) && FeedKey(raw[k]) in seen
    ensures RowSeenOnce(raw, seen, k)
  {
    var i :| 0 <= i < |seen| && seen[i] == FeedKey(raw[k]);
    forall j, k' | 0 <= j < |seen| && k' in raw && seen[j] == FeedKey(raw[k']) && (j == i || k' == k)
      ensures j == i && k' == k
    {
      KeyNamesRow(raw, k, k');
    }
  }
}
