/**
 * The ledger indexer as a state machine.
 *
 * One run of the service interleaves: the chain growing, the service polling its cursor and the
 * head, fetching up to 50 events, committing them one transaction at a time, finishing the batch,
 * crashing between transactions, and an operator resetting the cursor.
 *
 * The projection handlers are an arbitrary function `h` folded over the committed events.
 */
module LedgerIndexer {
  const BATCH_SIZE: nat := 50
  const EMPTY_SKIP: nat := 100

  /** A contract event as the RPC node reports it. */
  datatype ChainEvent = ChainEvent(ledger: nat, txHash: string, topics: seq<string>, data: string)

  /** Unique key of the raw event table: the event index is the position in the fetched batch. */
  datatype RawKey = RawKey(txHash: string, eventIndex: nat)

  datatype RawRow = RawRow(event: ChainEvent, eventIndex: nat)

  datatype Phase =
    | Idle
    | Polled(last: nat, latest: nat)
    | InBatch(events: seq<ChainEvent>, pos: nat)

  /** What the database and the running process hold, together with the chain they follow. */
  datatype State<P> = State(
    chain: seq<ChainEvent>,
    head: nat,
    cursor: nat,
    raw: map<RawKey, RawRow>,
    proj: P,
    phase: Phase)

  function Max(a: nat, b: nat): nat { if a < b then b else a }

  function Min(a: nat, b: nat): nat { if a < b then a else b }

  // ---------------------------------------------------------------------------------------------
  // The chain and the RPC query
  // ---------------------------------------------------------------------------------------------

  ghost predicate Sorted(chain: seq<ChainEvent>) {
    forall i, j :: 0 <= i < j < |chain| ==> chain[i].ledger <= chain[j].ledger
  }

  ghost predicate UpTo(chain: seq<ChainEvent>, head: nat) {
    forall i :: 0 <= i < |chain| ==> chain[i].ledger <= head
  }

  /** A transaction sits in one ledger. */
  ghost predicate TxInOneLedger(chain: seq<ChainEvent>) {
    forall i, j :: 0 <= i < |chain| && 0 <= j < |chain| && chain[i].txHash == chain[j].txHash
                   ==> chain[i].ledger == chain[j].ledger
  }

  /** Events come in ledger order, none is past the head, and a transaction sits in one ledger. */
  ghost predicate ValidChain(chain: seq<ChainEvent>, head: nat) {
    Sorted(chain) && UpTo(chain, head) && TxInOneLedger(chain)
  }

  /** Position of the first event at or after ledger `start`. */
  function FirstFrom(chain: seq<ChainEvent>, start: nat): (k: nat)
    ensures k <= |chain|
    ensures forall i :: 0 <= i < k ==> chain[i].ledger < start
    ensures k < |chain| ==> start <= chain[k].ledger
  {
    if chain == [] || start <= chain[0].ledger then 0 else 1 + FirstFrom(chain[1..], start)
  }

  /** The RPC answer: the first `limit` chain events at or after ledger `start`. */
  function GetEvents(chain: seq<ChainEvent>, start: nat, limit: nat): seq<ChainEvent> {
    var k := FirstFrom(chain, start);
    chain[k..Min(|chain|, k + limit)]
  }

  // ---------------------------------------------------------------------------------------------
  // Steps
  // ---------------------------------------------------------------------------------------------

  datatype Step =
    | Grow(added: seq<ChainEvent>, newHead: nat)
    | Poll
    | Fetch
    | Commit
    | Finish
    | Crash
    | Reset(fromLedger: nat)

  /** One event transaction: look the key up, store the row, project once, advance the cursor. */
  function CommitEvent<P>(h: (P, ChainEvent) -> P, st: State<P>, e: ChainEvent, index: nat): State<P> {
    var key := RawKey(e.txHash, index);
    if key in st.raw then
      st.(cursor := Max(st.cursor, e.ledger))
    else
      st.(raw := st.raw[key := RawRow(e, index)],
      proj := h(st.proj, e),
      cursor := Max(st.cursor, e.ledger))
  }

  ghost predicate Enabled<P>(st: State<P>, step: Step) {
    match step
    case Grow(added, newHead) =>
      && st.head <= newHead
      && ValidChain(st.chain + added, newHead)
      && forall i :: 0 <= i < |added| ==> st.head < added[i].ledger
    case Poll => st.phase.Idle?
    case Fetch => st.phase.Polled?
    case Commit => st.phase.InBatch? && st.phase.pos < |st.phase.events|
    case Finish => st.phase.InBatch? && st.phase.pos == |st.phase.events|
    case Crash => true
    case Reset(_) => true
  }

  function Next<P>(h: (P, ChainEvent) -> P, st: State<P>, step: Step): State<P>
    requires Enabled(st, step)
  {
    match step
    case Grow(added, newHead) => st.(chain := st.chain + added, head := newHead)
    case Poll => st.(phase := Polled(st.cursor, st.head))
    case Fetch =>
      var last, latest := st.phase.last, st.phase.latest;
      if latest <= last then
        st.(phase := Idle)
      else
        var events := GetEvents(st.chain, last + 1, BATCH_SIZE);
        if events == [] then
          st.(cursor := Max(st.cursor, Min(last + 1 + EMPTY_SKIP, latest)), phase := Idle)
        else
          st.(phase := InBatch(events, 0))
    case Commit =>
      var i := st.phase.pos;
      CommitEvent(h, st, st.phase.events[i], i).(phase := InBatch(st.phase.events, i + 1))
    case Finish => st.(phase := Idle)
    case Crash => st.(phase := Idle)
    case Reset(fromLedger) => st.(cursor := if fromLedger == 0 then 0 else fromLedger - 1)
  }

  // ---------------------------------------------------------------------------------------------
  // History of a run
  // ---------------------------------------------------------------------------------------------

  /** One executed event transaction: which chain position, under which key, and was it new. */
  datatype Entry = Entry(pos: nat, key: RawKey, isNew: bool)

  /**
   * `base` is the cursor the run began with, `from` the chain position of the batch in progress.
   * `cuts` holds each chain position after which a batch stopped, by finishing or by crashing.
   */
  datatype Trace = Trace(base: nat, log: seq<Entry>, cuts: set<nat>, from: nat)

  function Record<P>(st: State<P>, tr: Trace, step: Step): Trace
    requires Enabled(st, step)
  {
    match step
    case Fetch => tr.(from := FirstFrom(st.chain, st.phase.last + 1))
    case Commit =>
      var key := RawKey(st.phase.events[st.phase.pos].txHash, st.phase.pos);
      tr.(log := tr.log + [Entry(tr.from + st.phase.pos, key, key !in st.raw)])
    case Finish => tr.(cuts := tr.cuts + CutAt(st, tr))
    case Crash => tr.(cuts := tr.cuts + CutAt(st, tr))
    case _ => tr
  }

  function CutAt<P>(st: State<P>, tr: Trace): set<nat> {
    if st.phase.InBatch? && st.phase.pos > 0 then {tr.from + st.phase.pos - 1} else {}
  }

  datatype Run<P> = Run(st: State<P>, tr: Trace)

  ghost predicate Possible<P(!new)>(h: (P, ChainEvent) -> P, r: Run<P>, steps: seq<Step>)
    decreases |steps|
  {
    steps == [] || (Enabled(r.st, steps[0]) && Possible(h, After(h, r, steps[0]), steps[1..]))
  }

  function After<P>(h: (P, ChainEvent) -> P, r: Run<P>, step: Step): Run<P>
    requires Enabled(r.st, step)
  {
    Run(Next(h, r.st, step), Record(r.st, r.tr, step))
  }

  ghost function Exec<P(!new)>(h: (P, ChainEvent) -> P, r: Run<P>, steps: seq<Step>): Run<P>
    requires Possible(h, r, steps)
    decreases |steps|
  {
    if steps == [] then r else Exec(h, After(h, r, steps[0]), steps[1..])
  }

  /** The state a process starts in: an empty raw table and a cursor left by an earlier deployment. */
  ghost predicate Initial<P>(r: Run<P>) {
    && ValidChain(r.st.chain, r.st.head)
    && r.st.phase == Idle
    && r.st.raw == map[]
    && r.tr == Trace(r.st.cursor, [], {}, 0)
  }

  predicate NoReset(steps: seq<Step>) { forall i :: 0 <= i < |steps| ==> !steps[i].Reset? }

  // ---------------------------------------------------------------------------------------------
  // Invariant between cursor resets, stated on the parts of the state each clause needs
  // ---------------------------------------------------------------------------------------------

  predicate Applied(log: seq<Entry>, q: nat) { exists i :: 0 <= i < |log| && log[i].pos == q }

  /** A batch stopped after an earlier event of the same ledger as `q`. */
  ghost predicate CutOff(chain: seq<ChainEvent>, cuts: set<nat>, q: nat)
    requires q < |chain|
  {
    exists c :: c in cuts && c < q && chain[c].ledger == chain[q].ledger
  }

  predicate InChain(chain: seq<ChainEvent>, log: seq<Entry>) {
    forall i :: 0 <= i < |log| ==> log[i].pos < |chain|
  }

  ghost predicate LogOk(chain: seq<ChainEvent>, base: nat, cursor: nat, log: seq<Entry>) {
    && InChain(chain, log)
    && (forall i :: 0 <= i < |log| ==>
          && base < chain[log[i].pos].ledger <= cursor
          && log[i].isNew
          && log[i].key.eventIndex < BATCH_SIZE
          && log[i].key.txHash == chain[log[i].pos].txHash)
    && (forall i, j :: 0 <= i < j < |log| ==> log[i].pos < log[j].pos)
  }

  /** Within a ledger the event index grows with the chain position. */
  ghost predicate IndexOk(chain: seq<ChainEvent>, log: seq<Entry>)
    requires InChain(chain, log)
  {
    forall i, j :: 0 <= i < j < |log| && chain[log[i].pos].ledger == chain[log[j].pos].ledger
                   ==> log[i].key.eventIndex < log[j].key.eventIndex
  }

  /** The raw table holds exactly the logged events, each under its own key. */
  ghost predicate RawOk(chain: seq<ChainEvent>, log: seq<Entry>, raw: map<RawKey, RawRow>)
    requires InChain(chain, log)
  {
    && (forall i :: 0 <= i < |log| ==>
          && log[i].key in raw
          && raw[log[i].key] == RawRow(chain[log[i].pos], log[i].key.eventIndex))
    && (forall k :: k in raw ==> exists i :: 0 <= i < |log| && log[i].key == k)
  }

  /** The batch is the chain slice at `from`, and only it reaches the ledgers from its first event on. */
  ghost predicate BatchOk(chain: seq<ChainEvent>, base: nat, cursor: nat, from: nat, events: seq<ChainEvent>,
                          pos: nat) {
    && 0 < |events| <= BATCH_SIZE && pos <= |events|
    && from + |events| <= |chain|
    && events == chain[from..from + |events|]
    && base < chain[from].ledger
    && (forall q :: 0 <= q < from ==> chain[q].ledger < chain[from].ledger)
    && (pos == 0 ==> cursor < chain[from].ledger && forall q :: 0 <= q < from ==> chain[q].ledger <= cursor)
    && (pos > 0 ==> cursor == chain[from + pos - 1].ledger)
  }

  ghost predicate BatchLogOk(log: seq<Entry>, cuts: set<nat>, from: nat, pos: nat) {
    && (forall i :: 0 <= i < |log| ==>
          && log[i].pos < from + pos
          && (from <= log[i].pos ==> log[i].key.eventIndex == log[i].pos - from))
    && (forall c :: c in cuts ==> c < from)
  }

  ghost predicate CutsOk(chain: seq<ChainEvent>, cursor: nat, cuts: set<nat>) {
    forall c :: c in cuts ==> c < |chain| && chain[c].ledger <= cursor
  }

  /** Exactly the events above the base and below position `open` that no cut withholds are applied. */
  ghost predicate CoverageOk(chain: seq<ChainEvent>, base: nat, cursor: nat, log: seq<Entry>, cuts: set<nat>,
                             open: nat) {
    forall q :: 0 <= q < |chain| && base < chain[q].ledger <= cursor ==>
      (Applied(log, q) <==> q < open && !CutOff(chain, cuts, q))
  }

  /** First chain position the batch in progress has still to commit; the chain's end if none. */
  function Open<P>(r: Run<P>): nat {
    if r.st.phase.InBatch? then r.tr.from + r.st.phase.pos else |r.st.chain|
  }

  /** The handler folded over the logged events, in log order. */
  function Fold<P>(h: (P, ChainEvent) -> P, p0: P, chain: seq<ChainEvent>, log: seq<Entry>): P
    requires InChain(chain, log)
  {
    if log == [] then p0
    else h(Fold(h, p0, chain, log[..|log| - 1]), chain[log[|log| - 1].pos])
  }

  ghost predicate PhaseOk<P>(r: Run<P>) {
    match r.st.phase
    case Idle => true
    case Polled(last, latest) => last == r.st.cursor && latest <= r.st.head
    case InBatch(events, pos) =>
      && BatchOk(r.st.chain, r.tr.base, r.st.cursor, r.tr.from, events, pos)
      && BatchLogOk(r.tr.log, r.tr.cuts, r.tr.from, pos)
  }

  ghost predicate Inv<P>(h: (P, ChainEvent) -> P, p0: P, r: Run<P>) {
    && ValidChain(r.st.chain, r.st.head)
    && r.tr.base <= r.st.cursor <= Max(r.tr.base, r.st.head)
    && LogOk(r.st.chain, r.tr.base, r.st.cursor, r.tr.log)
    && InChain(r.st.chain, r.tr.log)
    && IndexOk(r.st.chain, r.tr.log)
    && RawOk(r.st.chain, r.tr.log, r.st.raw)
    && PhaseOk(r)
    && CutsOk(r.st.chain, r.st.cursor, r.tr.cuts)
    && CoverageOk(r.st.chain, r.tr.base, r.st.cursor, r.tr.log, r.tr.cuts, Open(r))
    && r.st.proj == Fold(h, p0, r.st.chain, r.tr.log)
  }

  // --- growth ---

  lemma {:induction false} FoldExtends<P>(h: (P, ChainEvent) -> P, p0: P, chain: seq<ChainEvent>,
                                          added: seq<ChainEvent>, log: seq<Entry>)
    requires InChain(chain, log)
    ensures Fold(h, p0, chain + added, log) == Fold(h, p0, chain, log)
  {
    if log != [] {
      FoldExtends(h, p0, chain, added, log[..|log| - 1]);
    }
  }

  lemma CoverageExtends(chain: seq<ChainEvent>, added: seq<ChainEvent>, base: nat, cursor: nat, log: seq<Entry>,
                        cuts: set<nat>, open: nat, open': nat)
    requires CoverageOk(chain, base, cursor, log, cuts, open)
    requires open' == open || (open == |chain| && open' == |chain + added|)
    requires forall i :: 0 <= i < |added| ==> !(base < added[i].ledger <= cursor)
    requires forall c :: c in cuts ==> c < |chain|
    ensures CoverageOk(chain + added, base, cursor, log, cuts, open')
  {
    var chain' := chain + added;
    forall q | 0 <= q < |chain'| && base < chain'[q].ledger <= cursor
      ensures Applied(log, q) <==> q < open' && !CutOff(chain', cuts, q)
    {
      assert q < |chain|;
      assert CutOff(chain', cuts, q) <==> CutOff(chain, cuts, q);
    }
  }

  lemma PartsExtend(chain: seq<ChainEvent>, added: seq<ChainEvent>, base: nat, cursor: nat, log: seq<Entry>,
                    raw: map<RawKey, RawRow>, cuts: set<nat>)
    requires LogOk(chain, base, cursor, log) && IndexOk(chain, log) && RawOk(chain, log, raw)
               && CutsOk(chain, cursor, cuts)
    ensures InChain(chain + added, log) && LogOk(chain + added, base, cursor, log)
    ensures IndexOk(chain + added, log) && RawOk(chain + added, log, raw) && CutsOk(chain + added, cursor, cuts)
  {
  }

  lemma BatchExtends(chain: seq<ChainEvent>, added: seq<ChainEvent>, base: nat, cursor: nat, from: nat,
                     events: seq<ChainEvent>, pos: nat)
    requires BatchOk(chain, base, cursor, from, events, pos)
    ensures BatchOk(chain + added, base, cursor, from, events, pos)
  {
    assert (chain + added)[from..from + |events|] == chain[from..from + |events|];
  }

  lemma GrowKeepsInv<P>(h: (P, ChainEvent) -> P, p0: P, r: Run<P>, step: Step)
    requires Inv(h, p0, r) && step.Grow? && Enabled(r.st, step)
    ensures Inv(h, p0, After(h, r, step))
  {
    var r' := After(h, r, step);
    PartsExtend(r.st.chain, step.added, r.tr.base, r.st.cursor, r.tr.log, r.st.raw, r.tr.cuts);
    FoldExtends(h, p0, r.st.chain, step.added, r.tr.log);
    if r.st.phase.InBatch? {
      BatchExtends(r.st.chain, step.added, r.tr.base, r.st.cursor, r.tr.from, r.st.phase.events, r.st.phase.pos);
    }
    hide InChain, LogOk, IndexOk, RawOk, BatchOk, BatchLogOk, CoverageOk, Sorted, TxInOneLedger;
    CoverageExtends(r.st.chain, step.added, r.tr.base, r.st.cursor, r.tr.log, r.tr.cuts, Open(r), Open(r'));
  }

  // --- fetch ---

  /** Nothing at or before the cursor lies at or after the first fetched position. */
  lemma BeforeFirst(chain: seq<ChainEvent>, cursor: nat, q: nat)
    requires Sorted(chain) && q < |chain|
    ensures q < FirstFrom(chain, cursor + 1) <==> chain[q].ledger <= cursor
  {
    var k := FirstFrom(chain, cursor + 1);
    if k < q { assert chain[k].ledger <= chain[q].ledger; }
  }

  lemma EmptyFetchCoverage(chain: seq<ChainEvent>, base: nat, cursor: nat, cursor': nat, log: seq<Entry>,
                           cuts: set<nat>)
    requires Sorted(chain) && cursor <= cursor'
    requires GetEvents(chain, cursor + 1, BATCH_SIZE) == []
    requires CoverageOk(chain, base, cursor, log, cuts, |chain|)
    ensures CoverageOk(chain, base, cursor', log, cuts, |chain|)
    ensures LogOk(chain, base, cursor, log) ==> LogOk(chain, base, cursor', log)
    ensures CutsOk(chain, cursor, cuts) ==> CutsOk(chain, cursor', cuts)
  {
    assert FirstFrom(chain, cursor + 1) == |chain|;
  }

  lemma FetchStartsBatch(chain: seq<ChainEvent>, base: nat, cursor: nat, log: seq<Entry>, cuts: set<nat>, from: nat,
                         events: seq<ChainEvent>)
    requires Sorted(chain) && base <= cursor && LogOk(chain, base, cursor, log) && CutsOk(chain, cursor, cuts)
    requires CoverageOk(chain, base, cursor, log, cuts, |chain|)
    requires from == FirstFrom(chain, cursor + 1)
    requires events == GetEvents(chain, cursor + 1, BATCH_SIZE) && events != []
    ensures BatchOk(chain, base, cursor, from, events, 0)
    ensures BatchLogOk(log, cuts, from, 0)
    ensures CoverageOk(chain, base, cursor, log, cuts, from)
  {
    forall c | c in cuts ensures c < from { BeforeFirst(chain, cursor, c); }
    forall i | 0 <= i < |log| ensures log[i].pos < from { BeforeFirst(chain, cursor, log[i].pos); }
    forall q | 0 <= q < |chain| && base < chain[q].ledger <= cursor
      ensures Applied(log, q) <==> q < from && !CutOff(chain, cuts, q)
    {
      BeforeFirst(chain, cursor, q);
    }
  }

  lemma FetchKeepsInv<P>(h: (P, ChainEvent) -> P, p0: P, r: Run<P>)
    requires Inv(h, p0, r) && Enabled(r.st, Fetch)
    ensures Inv(h, p0, After(h, r, Fetch))
  {
    hide InChain, LogOk, IndexOk, RawOk, BatchOk, BatchLogOk, CutsOk, CoverageOk, Sorted, TxInOneLedger, UpTo,
      FirstFrom;
    var r' := After(h, r, Fetch);
    var chain, tr, cursor := r.st.chain, r.tr, r.st.cursor;
    if cursor < r.st.phase.latest {
      var events := GetEvents(chain, cursor + 1, BATCH_SIZE);
      if events == [] {
        EmptyFetchCoverage(chain, tr.base, cursor, r'.st.cursor, tr.log, tr.cuts);
      } else {
        FetchStartsBatch(chain, tr.base, cursor, tr.log, tr.cuts, r'.tr.from, events);
      }
    }
  }

  // --- commit ---

  /** The key of the event about to be committed is not in the raw table. */
  lemma CommitIsNew(chain: seq<ChainEvent>, base: nat, cursor: nat, log: seq<Entry>, raw: map<RawKey, RawRow>,
                    cuts: set<nat>, from: nat, events: seq<ChainEvent>, pos: nat)
    requires Sorted(chain) && TxInOneLedger(chain)
    requires LogOk(chain, base, cursor, log) && RawOk(chain, log, raw)
    requires BatchOk(chain, base, cursor, from, events, pos) && BatchLogOk(log, cuts, from, pos)
    requires pos < |events|
    ensures from + pos < |chain| && events[pos] == chain[from + pos]
    ensures RawKey(events[pos].txHash, pos) !in raw
  {
    var q := from + pos;
    forall i | 0 <= i < |log| && log[i].key.txHash == chain[q].txHash
      ensures log[i].key.eventIndex != pos
    {
      assert chain[log[i].pos].ledger == chain[q].ledger;
      assert from <= log[i].pos;
    }
  }

  lemma CommitLog(chain: seq<ChainEvent>, base: nat, cursor: nat, log: seq<Entry>, cuts: set<nat>,
                  from: nat, events: seq<ChainEvent>, pos: nat, e: Entry)
    requires Sorted(chain) && LogOk(chain, base, cursor, log) && IndexOk(chain, log)
    requires BatchOk(chain, base, cursor, from, events, pos) && BatchLogOk(log, cuts, from, pos)
    requires pos < |events| && e == Entry(from + pos, RawKey(chain[from + pos].txHash, pos), true)
    ensures cursor <= chain[e.pos].ledger
    ensures InChain(chain, log + [e])
    ensures LogOk(chain, base, chain[e.pos].ledger, log + [e])
    ensures IndexOk(chain, log + [e])
    ensures BatchOk(chain, base, chain[e.pos].ledger, from, events, pos + 1)
    ensures BatchLogOk(log + [e], cuts, from, pos + 1)
  {
    CommitBatch(chain, base, cursor, from, events, pos);
    var log' := log + [e];
    assert forall i :: 0 <= i < |log'| ==> log'[i] == if i < |log| then log[i] else e;
    CommitIndex(chain, base, cursor, log, cuts, from, events, pos, e);
    hide BatchOk, IndexOk, Sorted;
    assert base < chain[e.pos].ledger;
  }

  lemma CommitBatch(chain: seq<ChainEvent>, base: nat, cursor: nat, from: nat, events: seq<ChainEvent>, pos: nat)
    requires Sorted(chain) && BatchOk(chain, base, cursor, from, events, pos) && pos < |events|
    ensures cursor <= chain[from + pos].ledger && base < chain[from + pos].ledger
    ensures BatchOk(chain, base, chain[from + pos].ledger, from, events, pos + 1)
  {
    assert chain[from].ledger <= chain[from + pos].ledger;
  }

  lemma CommitIndex(chain: seq<ChainEvent>, base: nat, cursor: nat, log: seq<Entry>, cuts: set<nat>,
                    from: nat, events: seq<ChainEvent>, pos: nat, e: Entry)
    requires Sorted(chain) && LogOk(chain, base, cursor, log) && IndexOk(chain, log)
    requires BatchOk(chain, base, cursor, from, events, pos) && BatchLogOk(log, cuts, from, pos)
    requires pos < |events| && e == Entry(from + pos, RawKey(chain[from + pos].txHash, pos), true)
    ensures InChain(chain, log + [e]) && IndexOk(chain, log + [e])
  {
    var q := from + pos;
    assert chain[from].ledger <= chain[q].ledger;
    forall i | 0 <= i < |log| && chain[log[i].pos].ledger == chain[q].ledger
      ensures log[i].key.eventIndex < pos
    {
      assert from <= log[i].pos;
    }
  }

  lemma CommitRaw(chain: seq<ChainEvent>, log: seq<Entry>, raw: map<RawKey, RawRow>, e: Entry)
    requires InChain(chain, log)
    requires RawOk(chain, log, raw) && e.pos < |chain| && e.key !in raw
    ensures RawOk(chain, log + [e], raw[e.key := RawRow(chain[e.pos], e.key.eventIndex)])
  {
    var log', raw' := log + [e], raw[e.key := RawRow(chain[e.pos], e.key.eventIndex)];
    forall k | k in raw' ensures exists i :: 0 <= i < |log'| && log'[i].key == k {
      if k == e.key {
        assert log'[|log|].key == k;
      } else {
        var i :| 0 <= i < |log| && log[i].key == k;
        assert log'[i].key == k;
      }
    }
  }

  lemma AppliedAfter(log: seq<Entry>, e: Entry, q: nat)
    ensures Applied(log + [e], q) <==> Applied(log, q) || q == e.pos
  {
    var log' := log + [e];
    assert log'[|log|] == e;
    if Applied(log, q) {
      var i :| 0 <= i < |log| && log[i].pos == q;
      assert log'[i].pos == q;
    }
  }

  lemma CommitCoverage(chain: seq<ChainEvent>, base: nat, cursor: nat, log: seq<Entry>, cuts: set<nat>,
                       from: nat, events: seq<ChainEvent>, pos: nat, e: Entry)
    requires Sorted(chain)
    requires BatchOk(chain, base, cursor, from, events, pos) && BatchLogOk(log, cuts, from, pos)
    requires CoverageOk(chain, base, cursor, log, cuts, from + pos)
    requires pos < |events| && e.pos == from + pos
    ensures CoverageOk(chain, base, chain[e.pos].ledger, log + [e], cuts, from + pos + 1)
    ensures CutsOk(chain, chain[e.pos].ledger, cuts)
  {
    forall c | c in cuts ensures c < |chain| && chain[c].ledger <= chain[e.pos].ledger {
      CutsBelowBatch(chain, base, cursor, log, cuts, from, events, pos, c, e.pos);
    }
    forall q | 0 <= q < |chain| && base < chain[q].ledger <= chain[e.pos].ledger
      ensures Applied(log + [e], q) <==> q < e.pos + 1 && !CutOff(chain, cuts, q)
    {
      CommitCovers(chain, base, cursor, log, cuts, from, events, pos, e, q);
    }
  }

  lemma CutsBelowBatch(chain: seq<ChainEvent>, base: nat, cursor: nat, log: seq<Entry>, cuts: set<nat>,
                       from: nat, events: seq<ChainEvent>, pos: nat, c: nat, q: nat)
    requires Sorted(chain) && BatchOk(chain, base, cursor, from, events, pos) && BatchLogOk(log, cuts, from, pos)
    requires c in cuts && from <= q < |chain|
    ensures c < |chain| && chain[c].ledger < chain[q].ledger
  {
    assert chain[from].ledger <= chain[q].ledger;
  }

  lemma CommitCovers(chain: seq<ChainEvent>, base: nat, cursor: nat, log: seq<Entry>, cuts: set<nat>,
                     from: nat, events: seq<ChainEvent>, pos: nat, e: Entry, q: nat)
    requires Sorted(chain)
    requires BatchOk(chain, base, cursor, from, events, pos) && BatchLogOk(log, cuts, from, pos)
    requires CoverageOk(chain, base, cursor, log, cuts, from + pos)
    requires pos < |events| && e.pos == from + pos && q < |chain| && base < chain[q].ledger <= chain[e.pos].ledger
    ensures Applied(log + [e], q) <==> q < e.pos + 1 && !CutOff(chain, cuts, q)
  {
    AppliedAfter(log, e, q);
    if from <= q {
      forall c | c in cuts ensures chain[c].ledger != chain[q].ledger {
        CutsBelowBatch(chain, base, cursor, log, cuts, from, events, pos, c, q);
      }
    }
    NotYetApplied(chain, base, cursor, log, cuts, from, events, pos, q);
  }

  /** Before the commit the positions below it are at or below the cursor and no later one is logged. */
  lemma NotYetApplied(chain: seq<ChainEvent>, base: nat, cursor: nat, log: seq<Entry>, cuts: set<nat>,
                      from: nat, events: seq<ChainEvent>, pos: nat, q: nat)
    requires Sorted(chain) && q < |chain|
    requires BatchOk(chain, base, cursor, from, events, pos) && BatchLogOk(log, cuts, from, pos)
    ensures q < from + pos ==> chain[q].ledger <= cursor
    ensures from + pos <= q ==> !Applied(log, q)
  {
  }

  lemma CommitParts(chain: seq<ChainEvent>, base: nat, cursor: nat, log: seq<Entry>, raw: map<RawKey, RawRow>,
                    cuts: set<nat>,
                    from: nat, events: seq<ChainEvent>, pos: nat)
    requires Sorted(chain) && TxInOneLedger(chain)
    requires LogOk(chain, base, cursor, log) && IndexOk(chain, log) && RawOk(chain, log, raw)
    requires BatchOk(chain, base, cursor, from, events, pos) && BatchLogOk(log, cuts, from, pos)
    requires CoverageOk(chain, base, cursor, log, cuts, from + pos)
    requires pos < |events|
    ensures from + pos < |chain| && events[pos] == chain[from + pos] && cursor <= events[pos].ledger
    ensures RawKey(events[pos].txHash, pos) !in raw
    ensures var e := Entry(from + pos, RawKey(events[pos].txHash, pos), true);
            var cursor' := events[pos].ledger;
            && InChain(chain, log + [e])
            && LogOk(chain, base, cursor', log + [e]) && IndexOk(chain, log + [e])
            && RawOk(chain, log + [e], raw[e.key := RawRow(events[pos], pos)])
            && BatchOk(chain, base, cursor', from, events, pos + 1) && BatchLogOk(log + [e], cuts, from, pos + 1)
            && CoverageOk(chain, base, cursor', log + [e], cuts, from + pos + 1)
            && CutsOk(chain, cursor', cuts)
  {
    hide IndexOk, RawOk, BatchLogOk, CutsOk, CoverageOk, TxInOneLedger, Sorted;
    CommitIsNew(chain, base, cursor, log, raw, cuts, from, events, pos);
    hide LogOk, BatchOk, InChain;
    var e := Entry(from + pos, RawKey(chain[from + pos].txHash, pos), true);
    CommitLog(chain, base, cursor, log, cuts, from, events, pos, e);
    CommitRaw(chain, log, raw, e);
    CommitCoverage(chain, base, cursor, log, cuts, from, events, pos, e);
  }

  lemma CommitKeepsInv<P>(h: (P, ChainEvent) -> P, p0: P, r: Run<P>)
    requires Inv(h, p0, r) && Enabled(r.st, Commit)
    ensures Inv(h, p0, After(h, r, Commit))
  {
    hide InChain, LogOk, IndexOk, RawOk, BatchOk, BatchLogOk, CutsOk, CoverageOk, Sorted, TxInOneLedger;
    var st, tr := r.st, r.tr;
    var events, pos := st.phase.events, st.phase.pos;
    CommitParts(st.chain, tr.base, st.cursor, tr.log, st.raw, tr.cuts, tr.from, events, pos);
    var log' := tr.log + [Entry(tr.from + pos, RawKey(events[pos].txHash, pos), true)];
    assert log'[..|tr.log|] == tr.log;
  }

  // --- stop ---

  /** Stopping after a committed event cuts off exactly the rest of that event's ledger. */
  lemma StopCoverage(chain: seq<ChainEvent>, base: nat, cursor: nat, log: seq<Entry>, cuts: set<nat>,
                     from: nat, events: seq<ChainEvent>, pos: nat)
    requires Sorted(chain) && BatchOk(chain, base, cursor, from, events, pos) && pos > 0
    requires CoverageOk(chain, base, cursor, log, cuts, from + pos)
    ensures CoverageOk(chain, base, cursor, log, cuts + {from + pos - 1}, |chain|)
  {
    var c := from + pos - 1;
    forall q | 0 <= q < |chain| && base < chain[q].ledger <= cursor
      ensures Applied(log, q) <==> !CutOff(chain, cuts + {c}, q)
    {
      if c < q {
        assert chain[c].ledger <= chain[q].ledger;
        assert c in cuts + {c};
      } else {
        assert CutOff(chain, cuts + {c}, q) <==> CutOff(chain, cuts, q);
      }
    }
  }

  /** Giving a batch up before its first commit changes nothing. */
  lemma StopEarlyCoverage(chain: seq<ChainEvent>, base: nat, cursor: nat, log: seq<Entry>, cuts: set<nat>,
                          from: nat, events: seq<ChainEvent>)
    requires Sorted(chain) && BatchOk(chain, base, cursor, from, events, 0)
    requires CoverageOk(chain, base, cursor, log, cuts, from)
    ensures CoverageOk(chain, base, cursor, log, cuts, |chain|)
  {
    assert forall q :: from <= q < |chain| ==> chain[from].ledger <= chain[q].ledger;
  }

  lemma StopKeepsInv<P>(h: (P, ChainEvent) -> P, p0: P, r: Run<P>, step: Step)
    requires Inv(h, p0, r) && (step.Finish? || step.Crash?) && Enabled(r.st, step)
    ensures Inv(h, p0, After(h, r, step))
  {
    hide InChain, LogOk, IndexOk, RawOk, BatchLogOk, CoverageOk, Sorted, TxInOneLedger, UpTo;
    var st, tr := r.st, r.tr;
    if st.phase.InBatch? && st.phase.pos > 0 {
      assert CutsOk(st.chain, st.cursor, r.tr.cuts + CutAt(st, tr));
      hide CutsOk, BatchOk;
      StopCoverage(st.chain, tr.base, st.cursor, tr.log, tr.cuts, tr.from, st.phase.events, st.phase.pos);
    } else {
      assert tr.cuts + CutAt(st, tr) == tr.cuts;
      if st.phase.InBatch? {
        StopEarlyCoverage(st.chain, tr.base, st.cursor, tr.log, tr.cuts, tr.from, st.phase.events);
      }
    }
  }

  /** Every step except a cursor reset keeps the invariant. */
  lemma StepKeepsInv<P>(h: (P, ChainEvent) -> P, p0: P, r: Run<P>, step: Step)
    requires Inv(h, p0, r) && Enabled(r.st, step) && !step.Reset?
    ensures Inv(h, p0, After(h, r, step))
    ensures r.st.cursor <= After(h, r, step).st.cursor
  {
    hide InChain, LogOk, IndexOk, RawOk, BatchOk, BatchLogOk, CutsOk, CoverageOk, ValidChain;
    match step
    case Grow(_, _) => GrowKeepsInv(h, p0, r, step);
    case Poll =>
    case Fetch => FetchKeepsInv(h, p0, r);
    case Commit => CommitKeepsInv(h, p0, r);
    case Finish => StopKeepsInv(h, p0, r, step);
    case Crash => StopKeepsInv(h, p0, r, step);
  }

  lemma {:induction false} RunKeepsInv<P(!new)>(h: (P, ChainEvent) -> P, p0: P, r: Run<P>, steps: seq<Step>)
    requires Inv(h, p0, r) && Possible(h, r, steps) && NoReset(steps)
    ensures Inv(h, p0, Exec(h, r, steps))
    ensures r.tr.base == Exec(h, r, steps).tr.base
    ensures r.st.cursor <= Exec(h, r, steps).st.cursor
    decreases |steps|
  {
    hide Inv, Enabled, Next;
    if steps != [] {
      StepKeepsInv(h, p0, r, steps[0]);
      RunKeepsInv(h, p0, After(h, r, steps[0]), steps[1..]);
    }
  }

  lemma InitialInv<P>(h: (P, ChainEvent) -> P, r: Run<P>)
    requires Initial(r)
    ensures Inv(h, r.st.proj, r)
  {
  }

  lemma Reached<P(!new)>(h: (P, ChainEvent) -> P, r0: Run<P>, steps: seq<Step>)
    requires Initial(r0) && Possible(h, r0, steps) && NoReset(steps)
    ensures var r := Exec(h, r0, steps);
            Inv(h, r0.st.proj, r) && r.tr.base == r0.st.cursor <= r.st.cursor
  {
    hide Inv, Enabled, Next, Exec, Possible, ValidChain;
    InitialInv(h, r0);
    RunKeepsInv(h, r0.st.proj, r0, steps);
  }

  // ---------------------------------------------------------------------------------------------
  // Theorems over every run without a cursor reset
  // ---------------------------------------------------------------------------------------------

  /**
   * No silent loss, exactly: an event above the starting cursor and at or below the present one has
   * been stored and projected if and only if it is not waiting in the current batch and no batch
   * ever stopped after an earlier event of its ledger.
   */
  lemma NoSilentLoss<P(!new)>(h: (P, ChainEvent) -> P, r0: Run<P>, steps: seq<Step>, q: nat)
    requires Initial(r0) && Possible(h, r0, steps) && NoReset(steps)
    requires var r := Exec(h, r0, steps);
             q < |r.st.chain| && r0.st.cursor < r.st.chain[q].ledger <= r.st.cursor
    ensures var r := Exec(h, r0, steps);
            && (Applied(r.tr.log, q) <==> q < Open(r) && !CutOff(r.st.chain, r.tr.cuts, q))
            && (Applied(r.tr.log, q) ==> exists k :: k in r.st.raw && r.st.raw[k].event == r.st.chain[q])
  {
    hide Initial, Possible, Exec, NoReset, IndexOk, CutsOk, ValidChain, PhaseOk, CutOff, Fold;
    Reached(h, r0, steps);
    var r := Exec(h, r0, steps);
    if Applied(r.tr.log, q) {
      var i :| 0 <= i < |r.tr.log| && r.tr.log[i].pos == q;
      assert r.tr.log[i].key in r.st.raw;
    }
  }

  /**
   * Exactly once: no event is ever mistaken for a duplicate, none is applied twice, the projection
   * is the fold over the applied events in chain order, and no two stored rows share both ledger
   * and event index although the index is only a batch position.
   */
  lemma ExactlyOnce<P(!new)>(h: (P, ChainEvent) -> P, r0: Run<P>, steps: seq<Step>)
    requires Initial(r0) && Possible(h, r0, steps) && NoReset(steps)
    ensures var r := Exec(h, r0, steps);
            && InChain(r.st.chain, r.tr.log)
            && (forall i :: 0 <= i < |r.tr.log| ==> r.tr.log[i].isNew)
            && (forall i, j :: 0 <= i < j < |r.tr.log| ==> r.tr.log[i].pos < r.tr.log[j].pos)
            && r.st.proj == Fold(h, r0.st.proj, r.st.chain, r.tr.log)
            && DistinctFeedKeys(r.st.raw)
  {
    hide Initial, Possible, Exec, NoReset, IndexOk, RawOk, CutsOk, CoverageOk, ValidChain, PhaseOk, DistinctFeedKeys,
      Fold;
    Reached(h, r0, steps);
    var r := Exec(h, r0, steps);
    RawKeysDistinct(r.st.chain, r.tr.log, r.st.raw);
  }

  /** The raw table names each row by its own event index, and (ledger, event index) is a key. */
  ghost predicate DistinctFeedKeys(raw: map<RawKey, RawRow>) {
    && (forall k :: k in raw ==> raw[k].eventIndex == k.eventIndex)
    && forall k, k' :: k in raw && k' in raw && k != k' ==>
         raw[k].event.ledger != raw[k'].event.ledger || raw[k].eventIndex != raw[k'].eventIndex
  }

  lemma RawKeysDistinct(chain: seq<ChainEvent>, log: seq<Entry>, raw: map<RawKey, RawRow>)
    requires InChain(chain, log) && IndexOk(chain, log) && RawOk(chain, log, raw)
    ensures DistinctFeedKeys(raw)
  {
    forall k | k in raw ensures raw[k].eventIndex == k.eventIndex {
      var i :| 0 <= i < |log| && log[i].key == k;
    }
    forall k, k' | k in raw && k' in raw && k != k'
      ensures raw[k].event.ledger != raw[k'].event.ledger || raw[k].eventIndex != raw[k'].eventIndex
    {
      var i :| 0 <= i < |log| && log[i].key == k;
      var j :| 0 <= j < |log| && log[j].key == k';
      assert i != j;
      if i < j { assert log[i].pos == log[i].pos; } else { assert j < i; }
    }
  }

  /** The handler folded over a stretch of the chain. */
  function FoldChain<P>(h: (P, ChainEvent) -> P, p0: P, events: seq<ChainEvent>): P {
    if events == [] then p0
    else h(FoldChain(h, p0, events[..|events| - 1]), events[|events| - 1])
  }

  /** No batch stopped between two events of one ledger. */
  ghost predicate WholeLedgers(chain: seq<ChainEvent>, cuts: set<nat>) {
    forall c :: c in cuts && c + 1 < |chain| ==> chain[c].ledger < chain[c + 1].ledger
  }

  lemma NothingCutOff(chain: seq<ChainEvent>, cuts: set<nat>, q: nat)
    requires Sorted(chain) && WholeLedgers(chain, cuts) && q < |chain|
    ensures !CutOff(chain, cuts, q)
  {
    forall c | c in cuts && c < q ensures chain[c].ledger != chain[q].ledger {
      if c + 1 < q { assert chain[c + 1].ledger <= chain[q].ledger; }
    }
  }

  /** A strictly increasing log that covers exactly the positions a..b lists them one by one. */
  lemma {:induction false} LogIsRange(log: seq<Entry>, a: nat, b: nat, n: nat)
    requires n <= |log| && a <= b
    requires forall i, j :: 0 <= i < j < |log| ==> log[i].pos < log[j].pos
    requires forall q: nat :: Applied(log, q) <==> a <= q < b
    ensures forall i :: 0 <= i < n ==> log[i].pos == a + i
    ensures n == |log| ==> |log| == b - a
  {
    if n > 0 {
      LogIsRange(log, a, b, n - 1);
      assert Applied(log, log[n - 1].pos);
      if n > 1 { assert log[n - 2].pos < log[n - 1].pos; }
      assert Applied(log, a + n - 1);
      var j :| 0 <= j < |log| && log[j].pos == a + n - 1;
      assert j == n - 1;
    }
    assert n == |log| ==> !Applied(log, a + n);
  }

  lemma {:induction false} FoldOfRange<P>(h: (P, ChainEvent) -> P, p0: P, chain: seq<ChainEvent>, log: seq<Entry>,
                                          a: nat)
    requires a + |log| <= |chain| && InChain(chain, log)
    requires forall i :: 0 <= i < |log| ==> log[i].pos == a + i
    ensures Fold(h, p0, chain, log) == FoldChain(h, p0, chain[a..a + |log|])
  {
    if log != [] {
      var n := |log| - 1;
      FoldOfRange(h, p0, chain, log[..n], a);
      assert chain[a..a + |log|][..n] == chain[a..a + n];
    }
  }

  /**
   * When every batch and crash cut falls between ledgers, an idle indexer's projection is exactly
   * the fold over all chain events above the starting cursor up to the present one.
   */
  lemma ExactProjection<P(!new)>(h: (P, ChainEvent) -> P, r0: Run<P>, steps: seq<Step>)
    requires Initial(r0) && Possible(h, r0, steps) && NoReset(steps)
    requires var r := Exec(h, r0, steps);
             !r.st.phase.InBatch? && WholeLedgers(r.st.chain, r.tr.cuts)
    ensures var r := Exec(h, r0, steps);
            var a, b := FirstFrom(r.st.chain, r0.st.cursor + 1), FirstFrom(r.st.chain, r.st.cursor + 1);
            a <= b && r.st.proj == FoldChain(h, r0.st.proj, r.st.chain[a..b])
  {
    hide Initial, Possible, Exec, NoReset, LogOk, IndexOk, RawOk, CutsOk, CoverageOk, Sorted, UpTo, TxInOneLedger;
    hide PhaseOk, WholeLedgers, Fold, FoldChain, FirstFrom, InChain;
    Reached(h, r0, steps);
    var r := Exec(h, r0, steps);
    RangeProjection(h, r0.st.proj, r.st.chain, r.tr, r.st.cursor);
  }

  lemma AppliedIsRange(chain: seq<ChainEvent>, base: nat, cursor: nat, log: seq<Entry>, cuts: set<nat>, q: nat)
    requires Sorted(chain) && base <= cursor && LogOk(chain, base, cursor, log)
    requires CoverageOk(chain, base, cursor, log, cuts, |chain|) && WholeLedgers(chain, cuts)
    ensures Applied(log, q) <==> FirstFrom(chain, base + 1) <= q < FirstFrom(chain, cursor + 1)
  {
    if q < |chain| {
      BeforeFirst(chain, base, q);
      BeforeFirst(chain, cursor, q);
      NothingCutOff(chain, cuts, q);
    }
  }

  lemma FirstFromMonotone(chain: seq<ChainEvent>, low: nat, high: nat)
    requires Sorted(chain) && low <= high
    ensures FirstFrom(chain, low) <= FirstFrom(chain, high)
  {
  }

  lemma LogListsRange(chain: seq<ChainEvent>, base: nat, cursor: nat, log: seq<Entry>, cuts: set<nat>)
    requires Sorted(chain) && base <= cursor && LogOk(chain, base, cursor, log)
    requires CoverageOk(chain, base, cursor, log, cuts, |chain|) && WholeLedgers(chain, cuts)
    ensures var a, b := FirstFrom(chain, base + 1), FirstFrom(chain, cursor + 1);
            |log| == b - a && forall i :: 0 <= i < |log| ==> log[i].pos == a + i
  {
    FirstFromMonotone(chain, base + 1, cursor + 1);
    var a, b := FirstFrom(chain, base + 1), FirstFrom(chain, cursor + 1);
    forall q: nat ensures Applied(log, q) <==> a <= q < b {
      AppliedIsRange(chain, base, cursor, log, cuts, q);
    }
    hide CoverageOk, WholeLedgers, Sorted, FirstFrom;
    LogIsRange(log, a, b, |log|);
  }

  lemma RangeProjection<P>(h: (P, ChainEvent) -> P, p0: P, chain: seq<ChainEvent>, tr: Trace, cursor: nat)
    requires Sorted(chain) && tr.base <= cursor && LogOk(chain, tr.base, cursor, tr.log)
    requires CoverageOk(chain, tr.base, cursor, tr.log, tr.cuts, |chain|) && WholeLedgers(chain, tr.cuts)
    ensures var a, b := FirstFrom(chain, tr.base + 1), FirstFrom(chain, cursor + 1);
            a <= b && Fold(h, p0, chain, tr.log) == FoldChain(h, p0, chain[a..b])
  {
    hide CoverageOk, WholeLedgers, Sorted, FirstFrom, Fold, FoldChain, InChain, Applied;
    assert InChain(chain, tr.log);
    hide LogOk;
    LogListsRange(chain, tr.base, cursor, tr.log, tr.cuts);
    var a, b := FirstFrom(chain, tr.base + 1), FirstFrom(chain, cursor + 1);
    FoldOfRange(h, p0, chain, tr.log, a);
    assert a + |tr.log| == b;
  }

  // ---------------------------------------------------------------------------------------------
  // What cuts and resets cost
  // ---------------------------------------------------------------------------------------------

  /** The k-th applied event of a ledger has an event index of at least k. */
  lemma {:induction false} IndexAtLeast(chain: seq<ChainEvent>, base: nat, cursor: nat, log: seq<Entry>, q: nat,
                                        k: nat, j: nat)
    requires Sorted(chain) && LogOk(chain, base, cursor, log) && IndexOk(chain, log)
    requires q + k < |chain| && chain[q].ledger == chain[q + k].ledger
    requires forall p :: q <= p <= q + k ==> Applied(log, p)
    requires j < |log| && log[j].pos == q + k
    ensures k <= log[j].key.eventIndex
  {
    if k > 0 {
      assert chain[q].ledger <= chain[q + k - 1].ledger <= chain[q + k].ledger;
      assert Applied(log, q + k - 1);
      var i :| 0 <= i < |log| && log[i].pos == q + k - 1;
      assert i < j;
      IndexAtLeast(chain, base, cursor, log, q, k - 1, i);
    }
  }

  /** However a run goes, a ledger with more than 50 events is never stored whole. */
  lemma OverfullLedgerLosesEvents<P(!new)>(h: (P, ChainEvent) -> P, r0: Run<P>, steps: seq<Step>, q: nat)
    requires Initial(r0) && Possible(h, r0, steps) && NoReset(steps)
    requires var chain := Exec(h, r0, steps).st.chain;
             q + 50 < |chain| && chain[q].ledger == chain[q + 50].ledger
    ensures exists p :: q <= p <= q + 50 && !Applied(Exec(h, r0, steps).tr.log, p)
  {
    hide Initial, Possible, Exec, NoReset, RawOk, CutsOk, CoverageOk, UpTo, TxInOneLedger, PhaseOk, Fold;
    Reached(h, r0, steps);
    var r := Exec(h, r0, steps);
    if forall p :: q <= p <= q + BATCH_SIZE ==> Applied(r.tr.log, p) {
      assert Applied(r.tr.log, q + BATCH_SIZE);
      var j :| 0 <= j < |r.tr.log| && r.tr.log[j].pos == q + BATCH_SIZE;
      IndexAtLeast(r.st.chain, r.tr.base, r.st.cursor, r.tr.log, q, BATCH_SIZE, j);
      assert false;
    }
  }

  /** Steps that need nothing of the indexer: the chain may grow past the head, and a process may crash or be reset. */
  lemma AlwaysPossible<P>(st: State<P>, e: ChainEvent, fromLedger: nat)
    requires ValidChain(st.chain, st.head) && st.head < e.ledger
    requires forall i :: 0 <= i < |st.chain| ==> st.chain[i].txHash != e.txHash
    ensures Enabled(st, Grow([e], e.ledger)) && Enabled(st, Crash) && Enabled(st, Reset(fromLedger))
  {
    var longer := st.chain + [e];
    assert forall i :: 0 <= i < |st.chain| ==> longer[i] == st.chain[i];
    assert Sorted(longer) && UpTo(longer, e.ledger) && TxInOneLedger(longer);
  }

  const EVENT_A2 := ChainEvent(1, "A", [], "second")
  const CHAIN_AA: seq<ChainEvent> := [EVENT_A, EVENT_A2]
  const START_AA: Run<int> := Run(State(CHAIN_AA, 1, 0, map[], 0, Idle), Trace(0, [], {}, 0))
  const CUT_SHORT: seq<Step> := [Poll] + ([Fetch] + ([Commit] + ([Crash] + [])))

  /**
   * An event lost behind the cursor: a crash between two events of one ledger leaves the cursor at
   * the head, which no later poll looks back from, and the second event unapplied.
   */
  lemma CrashLosesEvent()
    ensures Initial(START_AA) && Possible(COUNT, START_AA, CUT_SHORT) && NoReset(CUT_SHORT)
    ensures var r := Exec(COUNT, START_AA, CUT_SHORT);
            && r.st.phase == Idle && r.st.cursor == r.st.head == 1 && |r.st.chain| == 2
            && Applied(r.tr.log, 0) && !Applied(r.tr.log, 1)
  {
    var r1 := After(COUNT, START_AA, Poll);
    assert FirstFrom(CHAIN_AA, 1) == 0 && CHAIN_AA[0..2] == CHAIN_AA;
    var r2 := After(COUNT, r1, Fetch);
    assert r2.st.phase == InBatch(CHAIN_AA, 0) && r2.tr.from == 0;
    var r3 := After(COUNT, r2, Commit);
    assert r3.tr.log == [Entry(0, RawKey("A", 0), true)] && r3.st.cursor == 1;
    var r4 := After(COUNT, r3, Crash);
    ExecCons(COUNT, r3, Crash, []);
    ExecCons(COUNT, r2, Commit, [Crash] + []);
    ExecCons(COUNT, r1, Fetch, [Commit] + ([Crash] + []));
    ExecCons(COUNT, START_AA, Poll, [Fetch] + ([Commit] + ([Crash] + [])));
    assert r4.tr.log[0].pos == 0;
  }

  /**
   * After a reset to any ledger, an idle indexer's next batch starts at the first chain event at or
   * above it; ledger 0 counts as 1. It is fetched exactly if there is one and the head has reached it.
   */
  lemma ResetStartsAt<P>(h: (P, ChainEvent) -> P, r: Run<P>, fromLedger: nat)
    requires ValidChain(r.st.chain, r.st.head) && r.st.phase.Idle?
    ensures var first := Max(fromLedger, 1);
            var r3 := After(h, After(h, After(h, r, Reset(fromLedger)), Poll), Fetch);
            if exists q :: 0 <= q < |r.st.chain| && first <= r.st.chain[q].ledger then
              && r3.st.phase.InBatch? && r3.st.phase.pos == 0 && r3.st.phase.events != []
              && first <= r3.st.phase.events[0].ledger
              && r3.tr.from < |r.st.chain| && r.st.chain[r3.tr.from] == r3.st.phase.events[0]
              && forall q :: 0 <= q < r3.tr.from ==> r.st.chain[q].ledger < first
            else r3.st.phase.Idle?
  {
    hide FirstFrom, GetEvents, ValidChain;
    var first := Max(fromLedger, 1);
    var r2 := After(h, After(h, r, Reset(fromLedger)), Poll);
    assert r2.st.phase == Polled(first - 1, r.st.head) && r2.st.chain == r.st.chain;
    FetchedFrom(r.st.chain, r.st.head, first);
  }

  lemma FetchedFrom(chain: seq<ChainEvent>, head: nat, first: nat)
    requires ValidChain(chain, head)
    ensures var events, k := GetEvents(chain, first, BATCH_SIZE), FirstFrom(chain, first);
            && (events != [] <==> exists q :: 0 <= q < |chain| && first <= chain[q].ledger)
            && (events != [] ==> k < |chain| && events[0] == chain[k] && first <= events[0].ledger <= head)
            && forall q :: 0 <= q < k ==> chain[q].ledger < first
  {
    hide Sorted, TxInOneLedger;
    var k := FirstFrom(chain, first);
    if k < |chain| {
      assert GetEvents(chain, first, BATCH_SIZE)[0] == chain[k];
    }
  }

  lemma ExecCons<P(!new)>(h: (P, ChainEvent) -> P, r: Run<P>, step: Step, steps: seq<Step>)
    requires Enabled(r.st, step) && Possible(h, After(h, r, step), steps)
    ensures Possible(h, r, [step] + steps)
    ensures Exec(h, r, [step] + steps) == Exec(h, After(h, r, step), steps)
  {
    assert ([step] + steps)[1..] == steps;
  }

  lemma {:induction false} ExecConcat<P(!new)>(h: (P, ChainEvent) -> P, r: Run<P>, a: seq<Step>, b: seq<Step>)
    requires Possible(h, r, a) && Possible(h, Exec(h, r, a), b)
    ensures Possible(h, r, a + b) && Exec(h, r, a + b) == Exec(h, Exec(h, r, a), b)
    decreases |a|
  {
    if a == [] {
      assert a + b == b;
    } else {
      ExecConcat(h, After(h, r, a[0]), a[1..], b);
      assert (a + b)[1..] == a[1..] + b;
    }
  }

  /** The first `n` transactions of a batch. */
  function CommitMany<P>(h: (P, ChainEvent) -> P, st: State<P>, events: seq<ChainEvent>, n: nat): State<P>
    requires n <= |events|
  {
    if n == 0 then st else CommitEvent(h, CommitMany(h, st, events, n - 1), events[n - 1], n - 1)
  }

  lemma {:induction false} LaterKeysUntouched<P>(h: (P, ChainEvent) -> P, st: State<P>, events: seq<ChainEvent>,
                                                 n: nat, key: RawKey)
    requires n <= |events| && n <= key.eventIndex
    ensures key in CommitMany(h, st, events, n).raw <==> key in st.raw
  {
    if n > 0 {
      LaterKeysUntouched(h, st, events, n - 1, key);
    }
  }

  /**
   * Replaying any batch over any table: the event at batch position `j` is projected again if and
   * only if the table, as it was before the replay, has no row of that transaction at position `j`.
   */
  lemma ReplayAppliesAgainIff<P>(h: (P, ChainEvent) -> P, st: State<P>, events: seq<ChainEvent>, j: nat)
    requires j < |events|
    ensures var before, after := CommitMany(h, st, events, j), CommitMany(h, st, events, j + 1);
            if RawKey(events[j].txHash, j) in st.raw
            then after.proj == before.proj && after.raw == before.raw
            else after.proj == h(before.proj, events[j]) && |after.raw| == |before.raw| + 1
  {
    LaterKeysUntouched(h, st, events, j, RawKey(events[j].txHash, j));
    var before, after := CommitMany(h, st, events, j), CommitMany(h, st, events, j + 1);
    if RawKey(events[j].txHash, j) !in st.raw {
      assert after.raw.Keys == before.raw.Keys + {RawKey(events[j].txHash, j)};
      assert |after.raw.Keys| == |before.raw.Keys| + 1;
    }
  }

  /** A replay whose batch positions all match the stored ones changes neither table nor projection. */
  lemma {:induction false} AlignedReplayIsIdempotent<P>(h: (P, ChainEvent) -> P, st: State<P>,
                                                        events: seq<ChainEvent>, n: nat)
    requires n <= |events|
    requires forall j :: 0 <= j < |events| ==> RawKey(events[j].txHash, j) in st.raw
    ensures CommitMany(h, st, events, n).raw == st.raw && CommitMany(h, st, events, n).proj == st.proj
  {
    if n > 0 {
      AlignedReplayIsIdempotent(h, st, events, n - 1);
    }
  }

  const EVENT_A := ChainEvent(1, "A", [], "")
  const EVENT_B := ChainEvent(2, "B", [], "")
  const CHAIN_AB: seq<ChainEvent> := [EVENT_A, EVENT_B]
  const ROWS_AB: map<RawKey, RawRow> := map[RawKey("A", 0) := RawRow(EVENT_A, 0), RawKey("B", 1) := RawRow(EVENT_B, 1)]
  const COUNT: (int, ChainEvent) -> int := (p: int, e: ChainEvent) => p + 1
  const START_AB: Run<int> := Run(State(CHAIN_AB, 2, 0, map[], 0, Idle), Trace(0, [], {}, 0))
  const FIRST_PASS: seq<Step> := [Poll] + ([Fetch] + ([Commit] + ([Commit] + ([Finish] + []))))
  const REPLAY: seq<Step> := [Reset(2)] + ([Poll] + ([Fetch] + ([Commit] + [])))

  lemma CommitBoth(r: Run<int>)
    requires r.st == State(CHAIN_AB, 2, 0, map[], 0, InBatch(CHAIN_AB, 0))
    ensures Possible(COUNT, r, [Commit] + ([Commit] + ([Finish] + [])))
    ensures Exec(COUNT, r, [Commit] + ([Commit] + ([Finish] + []))).st == State(CHAIN_AB, 2, 2, ROWS_AB, 2, Idle)
  {
    var r1 := After(COUNT, r, Commit);
    assert r1.st == State(CHAIN_AB, 2, 1, map[RawKey("A", 0) := RawRow(EVENT_A, 0)], 1, InBatch(CHAIN_AB, 1));
    var r2 := After(COUNT, r1, Commit);
    assert r2.st == State(CHAIN_AB, 2, 2, ROWS_AB, 2, InBatch(CHAIN_AB, 2));
    ExecCons(COUNT, r2, Finish, []);
    ExecCons(COUNT, r1, Commit, [Finish] + []);
    ExecCons(COUNT, r, Commit, [Commit] + ([Finish] + []));
  }

  lemma RunFirstPass()
    ensures Possible(COUNT, START_AB, FIRST_PASS)
    ensures Exec(COUNT, START_AB, FIRST_PASS).st == State(CHAIN_AB, 2, 2, ROWS_AB, 2, Idle)
  {
    var r1 := After(COUNT, START_AB, Poll);
    assert FirstFrom(CHAIN_AB, 1) == 0 && CHAIN_AB[0..2] == CHAIN_AB;
    var r2 := After(COUNT, r1, Fetch);
    CommitBoth(r2);
    ExecCons(COUNT, r1, Fetch, [Commit] + ([Commit] + ([Finish] + [])));
    ExecCons(COUNT, START_AB, Poll, [Fetch] + ([Commit] + ([Commit] + ([Finish] + []))));
  }

  lemma RunReplay(r: Run<int>)
    requires r.st == State(CHAIN_AB, 2, 2, ROWS_AB, 2, Idle)
    ensures Possible(COUNT, r, REPLAY) && Exec(COUNT, r, REPLAY).st.proj == 3
  {
    var r1 := After(COUNT, r, Reset(2));
    var r2 := After(COUNT, r1, Poll);
    assert FirstFrom(CHAIN_AB, 2) == 1 && CHAIN_AB[1..2] == [EVENT_B];
    var r3 := After(COUNT, r2, Fetch);
    assert r3.st == State(CHAIN_AB, 2, 1, ROWS_AB, 2, InBatch([EVENT_B], 0));
    assert RawKey("B", 0) !in ROWS_AB;
    ExecCons(COUNT, r3, Commit, []);
    ExecCons(COUNT, r2, Fetch, [Commit] + []);
    ExecCons(COUNT, r1, Poll, [Fetch] + ([Commit] + []));
    ExecCons(COUNT, r, Reset(2), [Poll] + ([Fetch] + ([Commit] + [])));
  }

  /**
   * Exactly once does not survive a cursor reset: replaying from ledger 2 gives the event of
   * transaction B batch position 0 instead of 1, so its key looks new and the two-event chain is
   * projected three times.
   */
  lemma ReindexAppliesTwice()
    ensures Initial(START_AB) && |START_AB.st.chain| == 2 && START_AB.st.proj == 0
    ensures Possible(COUNT, START_AB, FIRST_PASS + REPLAY)
    ensures Exec(COUNT, START_AB, FIRST_PASS + REPLAY).st.proj == 3
  {
    RunFirstPass();
    RunReplay(Exec(COUNT, START_AB, FIRST_PASS));
    ExecConcat(COUNT, START_AB, FIRST_PASS, REPLAY);
  }
}
