/**
 * The indexer's own loops: one batch, the worker tick and the reindex catch-up. Each method is
 * proved against a function on the state machine of `LedgerIndexer`.
 */
module IndexerService {
  import opened Options
  import opened LedgerIndexer

  const SAFETY_CAP: nat := 10_000

  // ---------------------------------------------------------------------------------------------
  // One uninterrupted batch as a function
  // ---------------------------------------------------------------------------------------------

  /** The events an idle indexer would fetch next. */
  function NextEvents<P>(st: State<P>): seq<ChainEvent> {
    if st.head <= st.cursor then [] else GetEvents(st.chain, st.cursor + 1, BATCH_SIZE)
  }

  function Batch<P>(h: (P, ChainEvent) -> P, st: State<P>): State<P> {
    if st.head <= st.cursor then st
    else if NextEvents(st) == [] then st.(cursor := Max(st.cursor, Min(st.cursor + 1 + EMPTY_SKIP, st.head)))
    else CommitMany(h, st, NextEvents(st), |NextEvents(st)|)
  }

  function Batches<P>(h: (P, ChainEvent) -> P, st: State<P>, n: nat): State<P>
  {
    if n == 0 then st else Batch(h, Batches(h, st, n - 1))
  }

  /** Events fetched by the first `n` batches together. */
  function Processed<P>(h: (P, ChainEvent) -> P, st: State<P>, n: nat): nat {
    if n == 0 then 0 else Processed(h, st, n - 1) + |NextEvents(Batches(h, st, n - 1))|
  }

  function Commits(n: nat): seq<Step> { if n == 0 then [] else [Commit] + Commits(n - 1) }

  /** The machine steps of one uninterrupted batch. */
  function BatchSteps<P>(st: State<P>): seq<Step> {
    var n := |NextEvents(st)|;
    [Poll] + ([Fetch] + (if n == 0 then [] else Commits(n) + [Finish]))
  }

  lemma CommitManyKeepsRest<P>(h: (P, ChainEvent) -> P, st: State<P>, events: seq<ChainEvent>, n: nat)
    requires n <= |events|
    ensures var t := CommitMany(h, st, events, n);
            t.chain == st.chain && t.head == st.head && t.phase == st.phase && st.cursor <= t.cursor
  {
  }

  /** Committing event by event in the machine is `CommitMany`. */
  lemma {:induction false} CommitsRun<P(!new)>(h: (P, ChainEvent) -> P, st: State<P>, r: Run<P>,
                                               events: seq<ChainEvent>, i: nat)
    requires i <= |events| && st.phase == Idle
    requires r.st == CommitMany(h, st, events, i).(phase := InBatch(events, i))
    ensures Possible(h, r, Commits(|events| - i) + [Finish])
    ensures Exec(h, r, Commits(|events| - i) + [Finish]).st == CommitMany(h, st, events, |events|)
    decreases |events| - i
  {
    hide Exec, Possible, CommitMany, Next, Record, After, Enabled;
    if i == |events| {
      LastCommitted(h, st, r, events);
      assert Commits(0) + [Finish] == [Finish] + [];
      ExecCons(h, r, Finish, []);
      ExecNone(h, After(h, r, Finish));
    } else {
      CommitNext(h, st, r, events, i);
      var r' := After(h, r, Commit);
      CommitsRun(h, st, r', events, i + 1);
      var rest := Commits(|events| - i - 1) + [Finish];
      assert Commits(|events| - i) + [Finish] == [Commit] + rest;
      ExecCons(h, r, Commit, rest);
    }
  }

  lemma ExecNone<P(!new)>(h: (P, ChainEvent) -> P, r: Run<P>)
    ensures Possible(h, r, []) && Exec(h, r, []) == r
  {
  }

  lemma CommitNext<P>(h: (P, ChainEvent) -> P, st: State<P>, r: Run<P>, events: seq<ChainEvent>, i: nat)
    requires i < |events| && r.st == CommitMany(h, st, events, i).(phase := InBatch(events, i))
    ensures Enabled(r.st, Commit)
    ensures After(h, r, Commit).st == CommitMany(h, st, events, i + 1).(phase := InBatch(events, i + 1))
  {
  }

  lemma LastCommitted<P(!new)>(h: (P, ChainEvent) -> P, st: State<P>, r: Run<P>, events: seq<ChainEvent>)
    requires st.phase == Idle && r.st == CommitMany(h, st, events, |events|).(phase := InBatch(events, |events|))
    ensures Enabled(r.st, Finish) && Possible(h, After(h, r, Finish), [])
    ensures After(h, r, Finish).st == CommitMany(h, st, events, |events|)
  {
    CommitManyKeepsRest(h, st, events, |events|);
  }

  lemma EmptyBatchIsRun<P(!new)>(h: (P, ChainEvent) -> P, r: Run<P>)
    requires r.st.phase == Idle && NextEvents(r.st) == []
    ensures Possible(h, r, [Poll] + ([Fetch] + [])) && Exec(h, r, [Poll] + ([Fetch] + [])).st == Batch(h, r.st)
  {
    var r1 := After(h, r, Poll);
    ExecCons(h, r1, Fetch, []);
    ExecCons(h, r, Poll, [Fetch] + []);
  }

  lemma CommitNone<P>(h: (P, ChainEvent) -> P, st: State<P>, events: seq<ChainEvent>)
    ensures CommitMany(h, st, events, 0) == st
  {
  }

  /** Polling and fetching put the next events before the indexer and touch nothing else. */
  lemma PollThenFetch<P>(h: (P, ChainEvent) -> P, r: Run<P>)
    requires r.st.phase == Idle && NextEvents(r.st) != []
    ensures Enabled(r.st, Poll) && Enabled(After(h, r, Poll).st, Fetch)
    ensures After(h, After(h, r, Poll), Fetch).st == r.st.(phase := InBatch(NextEvents(r.st), 0))
    ensures Batch(h, r.st) == CommitMany(h, r.st, NextEvents(r.st), |NextEvents(r.st)|)
  {
    hide CommitMany, FirstFrom, GetEvents;
  }

  lemma FullBatchIsRun<P(!new)>(h: (P, ChainEvent) -> P, r: Run<P>)
    requires r.st.phase == Idle && NextEvents(r.st) != []
    ensures Possible(h, r, BatchSteps(r.st)) && Exec(h, r, BatchSteps(r.st)).st == Batch(h, r.st)
  {
    hide FirstFrom, GetEvents, Next, Record, After, Batch, CommitMany, Commits, Exec, Possible, Enabled, NextEvents;
    PollThenFetch(h, r);
    var events := NextEvents(r.st);
    var r1 := After(h, r, Poll);
    var r2 := After(h, r1, Fetch);
    CommitNone(h, r.st, events);
    CommitsRun(h, r.st, r2, events, 0);
    var tail := Commits(|events|) + [Finish];
    ExecCons(h, r1, Fetch, tail);
    ExecCons(h, r, Poll, [Fetch] + tail);
  }

  /** A batch that is not interrupted is a run of the machine ending in the state `Batch` computes. */
  lemma BatchIsRun<P(!new)>(h: (P, ChainEvent) -> P, r: Run<P>)
    requires r.st.phase == Idle
    ensures Possible(h, r, BatchSteps(r.st)) && NoReset(BatchSteps(r.st))
    ensures Exec(h, r, BatchSteps(r.st)).st == Batch(h, r.st)
  {
    CommitsOnly(|NextEvents(r.st)|);
    hide Batch, FirstFrom, Next, Exec, Possible, Commits;
    if NextEvents(r.st) == [] {
      EmptyBatchIsRun(h, r);
    } else {
      FullBatchIsRun(h, r);
    }
  }

  lemma CommitsOnly(n: nat)
    ensures forall i :: 0 <= i < |Commits(n)| ==> Commits(n)[i] == Commit
  {
  }

  // ---------------------------------------------------------------------------------------------
  // Progress
  // ---------------------------------------------------------------------------------------------

  function LastLedger(chain: seq<ChainEvent>): nat {
    if chain == [] then 0 else chain[|chain| - 1].ledger
  }

  /** Where a loop that stops at the first batch without events leaves the cursor. */
  function StopPoint(chain: seq<ChainEvent>, head: nat, cursor: nat): nat {
    var m := Max(cursor, LastLedger(chain));
    if head <= m then m else Min(m + 1 + EMPTY_SKIP, head)
  }

  /** A chain without events whose head the tick does not reach from ledger 0: it stops at 101. */
  lemma TickStopsShort()
    ensures ValidChain([], 102) && StopPoint([], 102, 0) == 101 < 102
  {
  }

  lemma {:induction false} CommitManyCursor<P>(h: (P, ChainEvent) -> P, st: State<P>, events: seq<ChainEvent>, n: nat)
    requires 0 < n <= |events| && Sorted(events) && st.cursor < events[0].ledger
    ensures CommitMany(h, st, events, n).cursor == events[n - 1].ledger
  {
    if n == 1 {
      assert CommitMany(h, st, events, 0) == st;
    } else {
      CommitManyCursor(h, st, events, n - 1);
    }
  }

  /**
   * A batch either finds the cursor at or past the head or strictly raises it. It processes events
   * exactly while some chain event lies above the cursor, and never passes the last of them.
   */
  lemma BatchProgress<P>(h: (P, ChainEvent) -> P, st: State<P>)
    requires ValidChain(st.chain, st.head)
    ensures st.cursor < st.head ==> st.cursor < Batch(h, st).cursor <= st.head
    ensures st.head <= st.cursor ==> Batch(h, st) == st
    ensures NextEvents(st) == [] <==> LastLedger(st.chain) <= st.cursor
    ensures NextEvents(st) == [] ==> Batch(h, st).cursor == StopPoint(st.chain, st.head, st.cursor)
    ensures NextEvents(st) != [] ==> Batch(h, st).cursor <= LastLedger(st.chain)
    ensures Batch(h, st).chain == st.chain && Batch(h, st).head == st.head
  {
    hide CommitMany, ValidChain, FirstFrom, GetEvents;
    FetchedLedgers(st);
    var events := NextEvents(st);
    if events != [] {
      CommitManyCursor(h, st, events, |events|);
      CommitManyKeepsRest(h, st, events, |events|);
    }
  }

  /** What the query returns: nothing exactly when no event is above the cursor, else ledgers above it. */
  lemma FetchedLedgers<P>(st: State<P>)
    requires ValidChain(st.chain, st.head)
    ensures LastLedger(st.chain) <= st.head
    ensures NextEvents(st) == [] <==> LastLedger(st.chain) <= st.cursor
    ensures var events := NextEvents(st); events != [] ==>
      Sorted(events) && st.cursor < events[0].ledger <= events[|events| - 1].ledger <= LastLedger(st.chain)
  {
    FirstAbove(st.chain, st.head, st.cursor, FirstFrom(st.chain, st.cursor + 1), NextEvents(st));
  }

  lemma FirstAbove(chain: seq<ChainEvent>, head: nat, cursor: nat, k: nat, events: seq<ChainEvent>)
    requires Sorted(chain) && UpTo(chain, head) && k == FirstFrom(chain, cursor + 1)
    requires events == if head <= cursor then [] else chain[k..Min(|chain|, k + BATCH_SIZE)]
    ensures LastLedger(chain) <= head
    ensures events == [] <==> LastLedger(chain) <= cursor
    ensures events != [] ==>
                Sorted(events) && cursor < events[0].ledger <= events[|events| - 1].ledger <= LastLedger(chain)
  {
    hide FirstFrom;
    if events != [] {
      assert events[0] == chain[k] && events[|events| - 1] == chain[k + |events| - 1];
      assert forall i :: 0 <= i < |events| ==> events[i] == chain[k + i];
    }
    assert chain != [] ==> chain[|chain| - 1].ledger <= head;
    if k < |chain| { assert chain[k].ledger <= chain[|chain| - 1].ledger; }
  }

  /** For a fixed chain and head, `n` batches bring the cursor to the head or at least `n` ledgers on. */
  lemma {:induction false} BatchesReachHead<P>(h: (P, ChainEvent) -> P, st: State<P>, n: nat)
    requires ValidChain(st.chain, st.head)
    ensures Min(st.head, st.cursor + n) <= Batches(h, st, n).cursor
    ensures Batches(h, st, n).cursor <= Max(st.head, st.cursor)
    ensures Batches(h, st, n).chain == st.chain && Batches(h, st, n).head == st.head
  {
    if n > 0 {
      BatchesReachHead(h, st, n - 1);
      BatchProgress(h, Batches(h, st, n - 1));
    }
  }

  // ---------------------------------------------------------------------------------------------
  // How many batches a backlog takes
  // ---------------------------------------------------------------------------------------------

  /** The batches with events that an uninterrupted service needs from a cursor to the end of the chain. */
  function Rounds(chain: seq<ChainEvent>, cursor: nat): nat
    requires Sorted(chain)
    decreases if LastLedger(chain) < cursor then 0 else LastLedger(chain) - cursor
  {
    var k := FirstFrom(chain, cursor + 1);
    if k == |chain| then 0
    else
      var m := Min(|chain|, k + BATCH_SIZE);
      assert cursor < chain[k].ledger <= chain[m - 1].ledger <= chain[|chain| - 1].ledger;
      1 + Rounds(chain, chain[m - 1].ledger)
  }

  /** A batch with events takes exactly one round off, and there is one exactly while rounds are left. */
  lemma BatchTakesRound<P>(h: (P, ChainEvent) -> P, st: State<P>)
    requires ValidChain(st.chain, st.head)
    ensures NextEvents(st) == [] <==> Rounds(st.chain, st.cursor) == 0
    ensures NextEvents(st) != [] ==> Rounds(st.chain, Batch(h, st).cursor) == Rounds(st.chain, st.cursor) - 1
  {
    hide CommitMany, FirstFrom, Rounds, Sorted;
    FetchedLedgers(st);
    RoundsLeftIff(st.chain, st.cursor);
    var events := NextEvents(st);
    if events != [] {
      CommitManyCursor(h, st, events, |events|);
      OneRound(st.chain, st.cursor, events);
    }
  }

  lemma RoundsLeftIff(chain: seq<ChainEvent>, cursor: nat)
    requires Sorted(chain)
    ensures Rounds(chain, cursor) == 0 <==> LastLedger(chain) <= cursor
  {
    hide FirstFrom;
    var k := FirstFrom(chain, cursor + 1);
    if k < |chain| {
      assert chain[k].ledger <= chain[|chain| - 1].ledger;
    }
  }

  lemma OneRound(chain: seq<ChainEvent>, cursor: nat, events: seq<ChainEvent>)
    requires Sorted(chain) && events == GetEvents(chain, cursor + 1, BATCH_SIZE) && events != []
    ensures Rounds(chain, cursor) == 1 + Rounds(chain, events[|events| - 1].ledger)
  {
    hide FirstFrom, Sorted;
    var k := FirstFrom(chain, cursor + 1);
    assert events[|events| - 1] == chain[Min(|chain|, k + BATCH_SIZE) - 1];
  }

  /** The cursor a round leaves lies past every event it fetched. */
  lemma RoundPasses(chain: seq<ChainEvent>, m: nat)
    requires Sorted(chain) && 0 < m <= |chain|
    ensures m <= FirstFrom(chain, chain[m - 1].ledger + 1)
  {
    hide FirstFrom, Sorted;
    BeforeFirst(chain, chain[m - 1].ledger, m - 1);
  }

  /** A backlog of at most 50 times `n` events takes at most `n` rounds. */
  lemma {:induction false} RoundsBounded(chain: seq<ChainEvent>, cursor: nat, n: nat)
    requires Sorted(chain) && |chain| - FirstFrom(chain, cursor + 1) <= 50 * n
    ensures Rounds(chain, cursor) <= n
    decreases n
  {
    hide FirstFrom;
    var k := FirstFrom(chain, cursor + 1);
    if k < |chain| {
      var m := Min(|chain|, k + BATCH_SIZE);
      RoundPasses(chain, m);
      RoundsBounded(chain, chain[m - 1].ledger, n - 1);
    }
  }

  /** One event to a ledger. */
  predicate Sparse(chain: seq<ChainEvent>) {
    forall i, j :: 0 <= i < j < |chain| ==> chain[i].ledger < chain[j].ledger
  }

  /** With one event to a ledger, `n` rounds clear at most 50 times `n` events. */
  lemma {:induction false} RoundsNeeded(chain: seq<ChainEvent>, cursor: nat)
    requires Sorted(chain) && Sparse(chain)
    ensures |chain| - FirstFrom(chain, cursor + 1) <= 50 * Rounds(chain, cursor)
    decreases if LastLedger(chain) < cursor then 0 else LastLedger(chain) - cursor
  {
    hide FirstFrom;
    var k := FirstFrom(chain, cursor + 1);
    if k < |chain| {
      var m := Min(|chain|, k + BATCH_SIZE);
      assert cursor < chain[k].ledger <= chain[m - 1].ledger <= chain[|chain| - 1].ledger;
      var next := FirstFrom(chain, chain[m - 1].ledger + 1);
      assert m < |chain| ==> chain[m - 1].ledger < chain[m].ledger;
      assert next <= m;
      RoundsNeeded(chain, chain[m - 1].ledger);
    }
  }

  lemma LastAtMostHead(chain: seq<ChainEvent>, latest: nat)
    requires ValidChain(chain, latest)
    ensures Sorted(chain) && LastLedger(chain) <= latest
  {
  }

  /** Whether the catch-up, which gives up after 10 001 batches, leaves the cursor at the head. */
  predicate CatchesUp(chain: seq<ChainEvent>, latest: nat, cursor: nat)
    requires Sorted(chain)
  {
    || (Rounds(chain, cursor) <= 10_000 && latest <= Max(cursor, LastLedger(chain)) + 101)
    || (Rounds(chain, cursor) == 10_001 && latest <= LastLedger(chain))
  }

  /** One event in each of the ledgers 1 to `n`, each in a transaction of its own. */
  function Steady(n: nat): (chain: seq<ChainEvent>)
    ensures |chain| == n
    ensures forall i :: 0 <= i < n ==> chain[i].ledger == i + 1 && |chain[i].txHash| == i + 1
  {
    if n == 0 then [] else Steady(n - 1) + [ChainEvent(n, seq(n, i => 'x'), [], "")]
  }

  lemma SteadyIsValid(n: nat)
    ensures ValidChain(Steady(n), n)
  {
    hide Steady;
    var chain := Steady(n);
    forall i, j | 0 <= i < |chain| && 0 <= j < |chain| && chain[i].txHash == chain[j].txHash
      ensures chain[i].ledger == chain[j].ledger
    {
      assert |chain[i].txHash| == i + 1 && |chain[j].txHash| == j + 1;
    }
  }

  /** The cap alone can stop the catch-up short of a head that carries the last event. */
  lemma CapStopsShort(n: nat)
    requires n > 50 * 10_001
    ensures ValidChain(Steady(n), n) && LastLedger(Steady(n)) == n && !CatchesUp(Steady(n), n, 0)
  {
    var chain := Steady(n);
    hide Steady, FirstFrom;
    SteadyIsValid(n);
    RoundsNeeded(chain, 0);
    assert chain[0].ledger == 1;
    BeforeFirst(chain, 0, 0);
  }

  /** The first batches of a backlog: each takes a round, none passes the last event. */
  lemma {:induction false} BatchesTakeRounds<P>(h: (P, ChainEvent) -> P, st: State<P>, n: nat)
    requires ValidChain(st.chain, st.head) && n <= Rounds(st.chain, st.cursor)
    ensures var t := Batches(h, st, n);
            && t.chain == st.chain && t.head == st.head && st.cursor <= t.cursor
            && Rounds(t.chain, t.cursor) == Rounds(st.chain, st.cursor) - n
            && (NextEvents(t) == [] <==> n == Rounds(st.chain, st.cursor))
            && (n > 0 ==> t.cursor <= LastLedger(st.chain))
  {
    hide Batch, ValidChain, Rounds, NextEvents, StopPoint;
    if n > 0 {
      BatchesTakeRounds(h, st, n - 1);
      var t := Batches(h, st, n - 1);
      BatchTakesRound(h, t);
      BatchProgress(h, t);
    }
    BatchTakesRound(h, Batches(h, st, n));
  }

  lemma BatchesUnfold<P>(h: (P, ChainEvent) -> P, st: State<P>, n: nat)
    ensures Batches(h, st, 0) == st && Processed(h, st, 0) == 0
    ensures Batches(h, st, n + 1) == Batch(h, Batches(h, st, n))
    ensures Processed(h, st, n + 1) == Processed(h, st, n) + |NextEvents(Batches(h, st, n))|
  {
  }

  lemma RoundsDecide<P>(h: (P, ChainEvent) -> P, st: State<P>, n: nat)
    requires ValidChain(st.chain, st.head) && n <= Rounds(st.chain, st.cursor)
    ensures |NextEvents(Batches(h, st, n))| == 0 <==> n == Rounds(st.chain, st.cursor)
    ensures Batches(h, st, n + 1) == Batch(h, Batches(h, st, n))
    ensures Processed(h, st, n + 1) == Processed(h, st, n) + |NextEvents(Batches(h, st, n))|
  {
    BatchesTakeRounds(h, st, n);
  }

  /** Where the catch-up leaves the cursor. */
  lemma CatchUpCursor<P>(h: (P, ChainEvent) -> P, st: State<P>, batches: nat)
    requires ValidChain(st.chain, st.head) && batches == Min(Rounds(st.chain, st.cursor), SAFETY_CAP) + 1
    ensures var cursor := Batches(h, st, batches).cursor;
            && st.cursor <= cursor <= Max(st.head, st.cursor)
            && (Rounds(st.chain, st.cursor) <= SAFETY_CAP ==> cursor == StopPoint(st.chain, st.head, st.cursor))
            && (st.head <= cursor <==> CatchesUp(st.chain, st.head, st.cursor))
  {
    hide Batch, ValidChain, Rounds, NextEvents;
    LastAtMostHead(st.chain, st.head);
    BatchesReachHead(h, st, batches);
    RoundsLeftIff(st.chain, st.cursor);
    if Rounds(st.chain, st.cursor) <= SAFETY_CAP {
      BatchesTakeRounds(h, st, batches - 1);
      BatchProgress(h, Batches(h, st, batches - 1));
    } else {
      BatchesTakeRounds(h, st, batches);
      RoundsLeftIff(st.chain, Batches(h, st, batches).cursor);
    }
  }

  /** The highest ledger of a batch. */
  function MaxLedger(events: seq<ChainEvent>): (m: nat)
    requires events != []
    ensures forall i :: 0 <= i < |events| ==> events[i].ledger <= m
    ensures exists i :: 0 <= i < |events| && events[i].ledger == m
  {
    if |events| == 1 then
      assert events[0].ledger == events[0].ledger;
      events[0].ledger
    else
      var rest := MaxLedger(events[1..]);
      assert forall i :: 1 <= i < |events| ==> events[i] == events[1..][i - 1];
      assert exists i :: 0 <= i < |events| && events[i].ledger == rest by {
        var i :| 0 <= i < |events[1..]| && events[1..][i].ledger == rest;
        assert events[i + 1].ledger == rest;
      }
      assert events[0].ledger == events[0].ledger;
      Max(events[0].ledger, rest)
  }

  // ---------------------------------------------------------------------------------------------
  // The service
  // ---------------------------------------------------------------------------------------------

  /** A raw table keeps its rows as they are, and every new one is of an event after ledger `start`. */
  predicate StoresOnlyAfter(before: map<RawKey, RawRow>, after: map<RawKey, RawRow>, start: nat) {
    && (forall k :: k in before ==> k in after && after[k] == before[k])
    && (forall k :: k in after && k !in before ==> start < after[k].event.ledger)
  }

  lemma {:induction false} CommitsStoreAbove<P>(h: (P, ChainEvent) -> P, st: State<P>, events: seq<ChainEvent>, n: nat,
                                                start: nat)
    requires n <= |events| && forall i :: 0 <= i < |events| ==> start < events[i].ledger
    ensures StoresOnlyAfter(st.raw, CommitMany(h, st, events, n).raw, start)
  {
    if n > 0 {
      CommitsStoreAbove(h, st, events, n - 1, start);
    }
  }

  /** A batch stores only events above the cursor it starts from. */
  lemma BatchStoresAbove<P>(h: (P, ChainEvent) -> P, st: State<P>)
    requires Sorted(st.chain)
    ensures st.cursor <= Batch(h, st).cursor && Batch(h, st).chain == st.chain
    ensures StoresOnlyAfter(st.raw, Batch(h, st).raw, st.cursor)
  {
    if NextEvents(st) != [] {
      EventsAbove(st);
      CommitsStoreAbove(h, st, NextEvents(st), |NextEvents(st)|, st.cursor);
      CommitManyKeepsRest(h, st, NextEvents(st), |NextEvents(st)|);
    }
  }

  lemma EventsAbove<P>(st: State<P>)
    requires Sorted(st.chain)
    ensures forall i :: 0 <= i < |NextEvents(st)| ==> st.cursor < NextEvents(st)[i].ledger
  {
    hide FirstFrom;
    var k := FirstFrom(st.chain, st.cursor + 1);
    forall i | 0 <= i < |NextEvents(st)| ensures st.cursor < NextEvents(st)[i].ledger {
      assert NextEvents(st)[i] == st.chain[k + i];
      assert i > 0 ==> st.chain[k].ledger <= st.chain[k + i].ledger;
    }
  }

  lemma {:induction false} BatchesStoreAbove<P>(h: (P, ChainEvent) -> P, st: State<P>, n: nat)
    requires Sorted(st.chain)
    ensures st.cursor <= Batches(h, st, n).cursor && Batches(h, st, n).chain == st.chain
    ensures StoresOnlyAfter(st.raw, Batches(h, st, n).raw, st.cursor)
  {
    hide Batch, Sorted;
    if n > 0 {
      BatchesStoreAbove(h, st, n - 1);
      BatchStoresAbove(h, Batches(h, st, n - 1));
    }
  }

  /**
   * The service and the rows it writes. The chain and the head stand for the answers of the RPC
   * node and are passed to each call.
   */
  class Service<P> {
    var cursorRow: Option<nat>
    var legacyLedger: Option<nat>
    var raw: map<RawKey, RawRow>
    var proj: P
    const handler: (P, ChainEvent) -> P

    constructor (handler: (P, ChainEvent) -> P, cursorRow: Option<nat>, legacyLedger: Option<nat>,
                 raw: map<RawKey, RawRow>, proj: P)
      ensures this.handler == handler && this.cursorRow == cursorRow && this.legacyLedger == legacyLedger
      ensures this.raw == raw && this.proj == proj
    {
      this.handler, this.cursorRow, this.legacyLedger := handler, cursorRow, legacyLedger;
      this.raw, this.proj := raw, proj;
    }

    /** The cursor a call starts from: its row, else the legacy row, else zero. */
    function Cursor(): nat
      reads this
    {
      match cursorRow
      case Some(c) => c
      case None => if legacyLedger.Some? then legacyLedger.value else 0
    }

    function View(chain: seq<ChainEvent>, head: nat): State<P>
      reads this
    {
      State(chain, head, Cursor(), raw, proj, Idle)
    }

    method EnsureCursor() returns (last: nat)
      modifies this`cursorRow
      ensures old(cursorRow).Some? ==> last == old(cursorRow).value
      ensures old(cursorRow).None? && legacyLedger.Some? ==> last == legacyLedger.value
      ensures old(cursorRow).None? && legacyLedger.None? ==> last == 0
      ensures last == old(Cursor()) && cursorRow == Some(last)
    {
      if cursorRow.None? {
        cursorRow := Some(if legacyLedger.Some? then legacyLedger.value else 0);
      }
      last := cursorRow.value;
    }

    /** Never moves the cursor back. */
    method AdvanceCursor(ledger: nat)
      modifies this`cursorRow
      ensures cursorRow == Some(Max(match old(cursorRow) case Some(c) => c case None => 0, ledger))
    {
      var current := if cursorRow.Some? then cursorRow.value else 0;
      cursorRow := Some(Max(current, ledger));
    }

    method ProcessEvent(e: ChainEvent, index: nat, ghost chain: seq<ChainEvent>, ghost head: nat)
      requires cursorRow.Some?
      modifies this
      ensures cursorRow.Some? && legacyLedger == old(legacyLedger)
      ensures View(chain, head) == CommitEvent(handler, old(View(chain, head)), e, index)
    {
      var key := RawKey(e.txHash, index);
      var existing := key in raw;
      if !existing {
        raw := raw[key := RawRow(e, index)];
        proj := handler(proj, e);
      }
      AdvanceCursor(e.ledger);
    }

    /** One batch does exactly what the state machine's uninterrupted batch does. */
    method ProcessNextBatch(chain: seq<ChainEvent>, latest: nat) returns (processed: nat, lag: int)
      modifies this
      ensures cursorRow.Some? && legacyLedger == old(legacyLedger)
      ensures View(chain, latest) == Batch(handler, old(View(chain, latest)))
      ensures processed == |NextEvents(old(View(chain, latest)))|
      ensures processed > 0 ==> lag == latest - MaxLedger(NextEvents(old(View(chain, latest))))
      ensures processed == 0 ==> lag == if latest <= old(Cursor()) then 0 else latest - Cursor()
      ensures Sorted(chain) && old(cursorRow).Some? ==>
                StoresOnlyAfter(old(raw), raw, old(cursorRow).value)
      ensures Sorted(chain) && old(cursorRow).None? && old(legacyLedger).Some? ==>
                StoresOnlyAfter(old(raw), raw, old(legacyLedger).value)
      ensures Sorted(chain) && old(cursorRow).None? && old(legacyLedger).None? ==>
                StoresOnlyAfter(old(raw), raw, 0)
    {
      hide MaxLedger, FirstFrom, GetEvents, StoresOnlyAfter, Sorted;
      ghost var before := View(chain, latest);
      if Sorted(chain) {
        BatchStoresAbove(handler, before);
      }
      var last := EnsureCursor();
      assert View(chain, latest) == before;
      if latest <= last {
        return 0, 0;
      }
      var events := GetEvents(chain, last + 1, BATCH_SIZE);
      if events == [] {
        var newLast := Min(last + 1 + EMPTY_SKIP, latest);
        AdvanceCursor(newLast);
        return 0, latest - newLast;
      }
      processed := 0;
      for i := 0 to |events|
        invariant processed == i && cursorRow.Some? && legacyLedger == old(legacyLedger)
        invariant View(chain, latest) == CommitMany(handler, before, events, i)
      {
        ProcessEvent(events[i], i, chain, latest);
        processed := processed + 1;
      }
      lag := latest - MaxLedger(events);
    }

    /**
     * The worker tick, for a chain that does not grow meanwhile: it ends, and it leaves the cursor
     * at the stop point. So it reaches the head if and only if the head is at most 101 ledgers past
     * the later of the cursor and the last event.
     */
    method RunTick(chain: seq<ChainEvent>, latest: nat) returns (ghost batches: nat)
      requires ValidChain(chain, latest)
      modifies this
      ensures View(chain, latest) == Batches(handler, old(View(chain, latest)), batches)
      ensures Cursor() == StopPoint(chain, latest, old(Cursor()))
      ensures latest <= Cursor() <==> latest <= Max(old(Cursor()), LastLedger(chain)) + 101
      ensures old(cursorRow).Some? ==> StoresOnlyAfter(old(raw), raw, old(cursorRow).value)
      ensures old(cursorRow).None? && old(legacyLedger).Some? ==>
                  StoresOnlyAfter(old(raw), raw, old(legacyLedger).value)
      ensures old(cursorRow).None? && old(legacyLedger).None? ==> StoresOnlyAfter(old(raw), raw, 0)
    {
      hide Batch, ValidChain, MaxLedger, StoresOnlyAfter, Sorted;
      LastAtMostHead(chain, latest);
      ghost var start := View(chain, latest);
      var more := true;
      batches := 0;
      while more
        invariant View(chain, latest) == Batches(handler, old(View(chain, latest)), batches)
        invariant more ==> StopPoint(chain, latest, Cursor()) == StopPoint(chain, latest, old(Cursor()))
        invariant !more ==> Cursor() == StopPoint(chain, latest, old(Cursor()))
        decreases more, if latest < Cursor() then 0 else latest - Cursor()
      {
        ghost var before := View(chain, latest);
        BatchProgress(handler, before);
        var processed, _ := ProcessNextBatch(chain, latest);
        assert Cursor() == View(chain, latest).cursor;
        batches := batches + 1;
        more := processed > 0;
      }
      BatchesStoreAbove(handler, start, batches);
    }

    /**
     * The reindex catch-up: it runs one batch more than the backlog has rounds, but at most 10 001.
     * It reaches the head exactly under a condition on the chain, the head and the old cursor, and
     * ends at the stop point unless the cap comes first.
     */
    method ProcessUntilCaughtUp(chain: seq<ChainEvent>, latest: nat) returns (batches: nat, events: nat)
      requires ValidChain(chain, latest)
      modifies this
      ensures batches == Min(Rounds(chain, old(Cursor())), 10_000) + 1
      ensures View(chain, latest) == Batches(handler, old(View(chain, latest)), batches)
      ensures events == Processed(handler, old(View(chain, latest)), batches)
      ensures old(Cursor()) <= Cursor() <= Max(latest, old(Cursor()))
      ensures latest <= Cursor() <==> CatchesUp(chain, latest, old(Cursor()))
      ensures Rounds(chain, old(Cursor())) <= SAFETY_CAP ==> Cursor() == StopPoint(chain, latest, old(Cursor()))
      ensures old(cursorRow).Some? ==> StoresOnlyAfter(old(raw), raw, old(cursorRow).value)
      ensures old(cursorRow).None? && old(legacyLedger).Some? ==>
                  StoresOnlyAfter(old(raw), raw, old(legacyLedger).value)
      ensures old(cursorRow).None? && old(legacyLedger).None? ==> StoresOnlyAfter(old(raw), raw, 0)
    {
      hide Batch, Batches, Processed, NextEvents, ValidChain, MaxLedger, Rounds, Sorted, CatchesUp, StopPoint;
      hide StoresOnlyAfter;
      LastAtMostHead(chain, latest);
      ghost var start := View(chain, latest);
      BatchesUnfold(handler, start, 0);
      batches, events := 0, 0;
      while true
        invariant batches <= Min(Rounds(chain, start.cursor), SAFETY_CAP)
        invariant View(chain, latest) == Batches(handler, start, batches)
        invariant events == Processed(handler, start, batches)
        decreases SAFETY_CAP - batches
      {
        RoundsDecide(handler, start, batches);
        var processed, _ := ProcessNextBatch(chain, latest);
        batches := batches + 1;
        events := events + processed;
        if processed == 0 {
          break;
        }
        if batches > SAFETY_CAP {
          break;
        }
      }
      CatchUpCursor(handler, start, batches);
      BatchesStoreAbove(handler, start, batches);
      assert Cursor() == View(chain, latest).cursor;
    }
  }
}
