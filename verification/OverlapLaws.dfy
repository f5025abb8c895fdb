/**
 * What overlapping indexer processes keep: no event at or below the shared cursor is lost except
 * behind the edge of a batch, and the exact condition, on batch starts and commit order, under which
 * every event is projected exactly once.
 */
module OverlapLaws {
  import opened LedgerIndexer
  import opened OverlappingIndexers

  /** A position at which a ledger begins. */
  ghost predicate Boundary(chain: seq<ChainEvent>, f: nat) {
    f < |chain| && forall p :: 0 <= p < f ==> chain[p].ledger < chain[f].ledger
  }

  /** One of the first `n` commits was of event `p` in a batch that started at `from`. */
  predicate CommittedBefore(log: seq<Write>, n: nat, p: nat, from: nat)
    requires n <= |log|
  {
    exists i :: 0 <= i < n && log[i].pos == p && log[i].from == from
  }

  /** Batches start where a ledger begins and commit their events one after the other. */
  ghost predicate InSequence(chain: seq<ChainEvent>, log: seq<Write>) {
    forall j :: 0 <= j < |log| ==>
      && Boundary(chain, log[j].from)
      && forall p :: log[j].from <= p < log[j].pos ==> CommittedBefore(log, j, p, log[j].from)
  }

  ghost predicate FlightInSequence(chain: seq<ChainEvent>, head: nat, cursor: nat, log: seq<Write>, f: Flight) {
    match f
    case Asked(last, latest) => last <= cursor && latest <= head
    case Fetched(from, _, pos) =>
      && Boundary(chain, from)
      && (forall p :: 0 <= p < from ==> chain[p].ledger <= cursor)
      && (forall p :: from <= p < from + pos ==> CommittedBefore(log, |log|, p, from))
  }

  ghost predicate Order<P>(r: History<P>) {
    && ValidChain(r.st.chain, r.st.head)
    && r.base <= r.st.cursor <= Max(r.base, r.st.head)
    && InSequence(r.st.chain, r.log)
    && forall w :: w in r.st.flights ==>
         FlightInSequence(r.st.chain, r.st.head, r.st.cursor, r.log, r.st.flights[w])
  }

  lemma CommittedAppend(log: seq<Write>, c: Write, n: nat, p: nat, from: nat)
    requires n <= |log|
    ensures CommittedBefore(log + [c], n, p, from) <==> CommittedBefore(log, n, p, from)
    ensures CommittedBefore(log + [c], |log| + 1, p, from) <==>
              CommittedBefore(log, |log|, p, from) || (c.pos == p && c.from == from)
  {
    var log' := log + [c];
    assert log'[|log|] == c && forall i :: 0 <= i < |log| ==> log'[i] == log[i];
  }

  lemma BoundaryExtends(chain: seq<ChainEvent>, added: seq<ChainEvent>, f: nat)
    requires Boundary(chain, f)
    ensures Boundary(chain + added, f)
  {
  }

  lemma ExtendKeepsSequence(chain: seq<ChainEvent>, added: seq<ChainEvent>, log: seq<Write>)
    requires InSequence(chain, log)
    ensures InSequence(chain + added, log)
  {
    hide Boundary, CommittedBefore;
    forall j | 0 <= j < |log| ensures Boundary(chain + added, log[j].from) {
      BoundaryExtends(chain, added, log[j].from);
    }
  }

  lemma ExtendKeepsFlight(chain: seq<ChainEvent>, added: seq<ChainEvent>, head: nat, head': nat, cursor: nat,
                          log: seq<Write>, f: Flight)
    requires FlightInSequence(chain, head, cursor, log, f) && head <= head'
    ensures FlightInSequence(chain + added, head', cursor, log, f)
  {
    hide CommittedBefore;
    if f.Fetched? {
      BoundaryExtends(chain, added, f.from);
    }
  }

  lemma CommitKeepsSequence(chain: seq<ChainEvent>, log: seq<Write>, c: Write)
    requires InSequence(chain, log) && Boundary(chain, c.from)
    requires forall p :: c.from <= p < c.pos ==> CommittedBefore(log, |log|, p, c.from)
    ensures InSequence(chain, log + [c])
  {
    hide Boundary, CommittedBefore;
    var log' := log + [c];
    forall j | 0 <= j < |log'|
      ensures Boundary(chain, log'[j].from)
      ensures forall p :: log'[j].from <= p < log'[j].pos ==> CommittedBefore(log', j, p, log'[j].from)
    {
      forall p | log'[j].from <= p < log'[j].pos ensures CommittedBefore(log', j, p, log'[j].from) {
        CommittedAppend(log, c, j, p, log'[j].from);
      }
    }
  }

  lemma CommitKeepsFlight(chain: seq<ChainEvent>, head: nat, cursor: nat, cursor': nat, log: seq<Write>, c: Write,
                          f: Flight)
    requires FlightInSequence(chain, head, cursor, log, f) && cursor <= cursor'
    ensures FlightInSequence(chain, head, cursor', log + [c], f)
    ensures f.Fetched? && c == Write(f.from + f.pos, f.from, c.isNew) ==>
              FlightInSequence(chain, head, cursor', log + [c], f.(pos := f.pos + 1))
  {
    hide Boundary, CommittedBefore;
    if f.Fetched? {
      var log', n := log + [c], |log| + 1;
      forall p | f.from <= p < f.from + f.pos ensures CommittedBefore(log', n, p, f.from) {
        CommittedAppend(log, c, |log|, p, f.from);
      }
      CommittedAppend(log, c, |log|, f.from + f.pos, f.from);
    }
  }

  lemma ReceiveInSequence(chain: seq<ChainEvent>, last: nat, head: nat, cursor: nat, log: seq<Write>)
    requires Sorted(chain) && last <= cursor && FirstFrom(chain, last + 1) < |chain|
    ensures var from := FirstFrom(chain, last + 1);
            forall events :: FlightInSequence(chain, head, cursor, log, Fetched(from, events, 0))
  {
    var from := FirstFrom(chain, last + 1);
    assert Boundary(chain, from);
  }

  lemma ReceiveKeepsOrder<P>(h: (P, ChainEvent) -> P, r: History<P>, w: nat)
    requires Order(r) && CanMove(r.st, Receive(w))
    ensures Order(Moved(h, r, Receive(w)))
  {
    hide InSequence, CommittedBefore, FirstFrom, Boundary, Sorted, UpTo, TxInOneLedger;
    var st, f := r.st, r.st.flights[w];
    assert FlightInSequence(st.chain, st.head, st.cursor, r.log, f);
    if FirstFrom(st.chain, f.last + 1) < |st.chain| {
      ReceiveInSequence(st.chain, f.last, st.head, st.cursor, r.log);
    }
  }

  /** What one commit does to the parts. */
  lemma CommitParts<P>(h: (P, ChainEvent) -> P, r: History<P>, w: nat) returns (f: Flight, c: Write)
    requires Order(r) && OverlappingIndexers.Inv(r) && CanMove(r.st, CommitOne(w))
    ensures w in r.st.flights && f == r.st.flights[w] && f.Fetched? && f.from + f.pos < |r.st.chain|
    ensures FlightInSequence(r.st.chain, r.st.head, r.st.cursor, r.log, f)
    ensures c == Write(f.from + f.pos, f.from, c.isNew)
    ensures var r' := Moved(h, r, CommitOne(w));
            && r'.log == r.log + [c] && r'.base == r.base && r'.stops == r.stops
            && r'.st.chain == r.st.chain && r'.st.head == r.st.head
            && r'.st.cursor == Max(r.st.cursor, r.st.chain[f.from + f.pos].ledger)
            && r'.st.flights == r.st.flights[w := f.(pos := f.pos + 1)]
  {
    hide InSequence, CommittedBefore, Boundary, TableOk, FlightInSequence, ValidChain;
    f := r.st.flights[w];
    c := Moved(h, r, CommitOne(w)).log[|r.log|];
    assert FlightOk(r.st.chain, f);
    assert f.events[f.pos] == r.st.chain[f.from + f.pos];
  }

  lemma CommitKeepsOrder<P>(h: (P, ChainEvent) -> P, r: History<P>, w: nat)
    requires Order(r) && OverlappingIndexers.Inv(r) && CanMove(r.st, CommitOne(w))
    ensures Order(Moved(h, r, CommitOne(w)))
  {
    hide Moved, CanMove, OverlappingIndexers.Inv, InSequence, FlightInSequence, Sorted, TxInOneLedger;
    var f, c := CommitParts(h, r, w);
    var st, r' := r.st, Moved(h, r, CommitOne(w));
    CommitInSequence(st.chain, st.head, st.cursor, r.log, f, c);
    forall v | v in r'.st.flights
      ensures FlightInSequence(st.chain, st.head, r'.st.cursor, r'.log, r'.st.flights[v])
    {
      CommitKeepsFlight(st.chain, st.head, st.cursor, r'.st.cursor, r.log, c, st.flights[v]);
    }
  }

  lemma CommitInSequence(chain: seq<ChainEvent>, head: nat, cursor: nat, log: seq<Write>, f: Flight, c: Write)
    requires FlightInSequence(chain, head, cursor, log, f) && f.Fetched? && InSequence(chain, log)
    requires c == Write(f.from + f.pos, f.from, c.isNew)
    ensures InSequence(chain, log + [c])
  {
    hide InSequence, Boundary, CommittedBefore;
    CommitKeepsSequence(chain, log, c);
  }

  lemma ExtendKeepsOrder<P>(h: (P, ChainEvent) -> P, r: History<P>, m: Move)
    requires Order(r) && m.Extend? && CanMove(r.st, m)
    ensures Order(Moved(h, r, m))
  {
    hide InSequence, CommittedBefore, Boundary, FlightInSequence, ValidChain;
    var st := r.st;
    ExtendKeepsSequence(st.chain, m.added, r.log);
    forall v | v in st.flights
      ensures FlightInSequence(st.chain + m.added, m.newHead, st.cursor, r.log, st.flights[v])
    {
      ExtendKeepsFlight(st.chain, m.added, st.head, m.newHead, st.cursor, r.log, st.flights[v]);
    }
  }

  lemma MoveKeepsOrder<P>(h: (P, ChainEvent) -> P, r: History<P>, m: Move)
    requires Order(r) && OverlappingIndexers.Inv(r) && CanMove(r.st, m)
    ensures Order(Moved(h, r, m))
  {
    match m
    case Extend(_, _) =>
      hide Order, Moved, CanMove;
      ExtendKeepsOrder(h, r, m);
    case Ask(_) =>
      hide InSequence, ValidChain;
    case Receive(w) =>
      hide Order, Moved, CanMove;
      ReceiveKeepsOrder(h, r, w);
    case CommitOne(w) =>
      hide Order, Moved, CanMove;
      CommitKeepsOrder(h, r, w);
    case Stop(_) =>
      hide InSequence, ValidChain, FlightInSequence;
  }

  lemma {:induction false} RunKeepsOrder<P(!new)>(h: (P, ChainEvent) -> P, rs: seq<History<P>>, moves: seq<Move>,
                                                  k: nat)
    requires OverlappingIndexers.IsRun(h, rs, moves) && k < |rs|
    ensures Order(rs[k])
  {
    hide CanMove, Moved;
    if k > 0 {
      hide Order;
      assert Leads(h, rs[k - 1], moves[k - 1], rs[k - 1 + 1]);
      RunKeepsOrder(h, rs, moves, k - 1);
      OverlappingIndexers.RunKeepsInv(h, rs, moves, k - 1);
      MoveKeepsOrder(h, rs[k - 1], moves[k - 1]);
    }
  }

  // ---------------------------------------------------------------------------------------------
  // One process at a time
  // ---------------------------------------------------------------------------------------------

  /** The shared tables as the single-process machine holds them, in a phase. */
  function Alone<P>(st: Shared<P>, phase: Phase): State<P> {
    State(st.chain, st.head, st.cursor, st.raw, st.proj, phase)
  }

  /** An answer to one process does to the tables and to its batch what the single-process fetch does. */
  lemma ReceiveIsFetch<P>(h: (P, ChainEvent) -> P, st: Shared<P>, w: nat, last: nat, latest: nat)
    ensures var solo := Next(h, Alone(st, Polled(last, latest)), Fetch);
            var got := Received(st, w, last, latest);
            && Alone(got, solo.phase) == solo
            && (solo.phase.InBatch? <==> w in got.flights)
            && (solo.phase.InBatch? ==> got.flights[w] == Fetched(FirstFrom(st.chain, last + 1), solo.phase.events, 0))
  {
    hide FirstFrom, GetEvents, CommitEvent;
  }

  /** One commit does to the tables what the single-process event transaction does. */
  lemma CommitIsTransaction<P>(h: (P, ChainEvent) -> P, st: Shared<P>, e: ChainEvent, index: nat, phase: Phase)
    ensures Alone(Committed(h, st, e, index), phase) == CommitEvent(h, Alone(st, phase), e, index)
    ensures Committed(h, st, e, index).flights == st.flights
  {
  }

  /** A process may always stop, and any other may begin; the chain may grow past the head. */
  lemma AlwaysPossible<P>(st: Shared<P>, w: nat, e: ChainEvent)
    requires ValidChain(st.chain, st.head) && st.head < e.ledger
    requires forall i :: 0 <= i < |st.chain| ==> st.chain[i].txHash != e.txHash
    ensures CanMove(st, if w in st.flights then Stop(w) else Ask(w))
    ensures CanMove(st, Extend([e], e.ledger))
  {
    LedgerIndexer.AlwaysPossible(Alone(st, Idle), e, 0);
  }

  // ---------------------------------------------------------------------------------------------
  // What is projected
  // ---------------------------------------------------------------------------------------------

  /** The handler folded over the commits that found their key new, in commit order. */
  function FoldNew<P>(h: (P, ChainEvent) -> P, p0: P, chain: seq<ChainEvent>, log: seq<Write>): P
    requires AllInRange(chain, log)
  {
    if log == [] then p0
    else
      var p, c := FoldNew(h, p0, chain, log[..|log| - 1]), log[|log| - 1];
      if c.isNew then h(p, chain[c.pos]) else p
  }

  lemma {:induction false} FoldNewExtends<P>(h: (P, ChainEvent) -> P, p0: P, chain: seq<ChainEvent>,
                                             added: seq<ChainEvent>, log: seq<Write>)
    requires AllInRange(chain, log)
    ensures AllInRange(chain + added, log) && FoldNew(h, p0, chain + added, log) == FoldNew(h, p0, chain, log)
  {
    if log != [] { FoldNewExtends(h, p0, chain, added, log[..|log| - 1]); }
  }

  lemma MoveProjects<P>(h: (P, ChainEvent) -> P, p0: P, r: History<P>, m: Move)
    requires OverlappingIndexers.Inv(r) && CanMove(r.st, m) && r.st.proj == FoldNew(h, p0, r.st.chain, r.log)
    ensures var r' := Moved(h, r, m);
            AllInRange(r'.st.chain, r'.log) && r'.st.proj == FoldNew(h, p0, r'.st.chain, r'.log)
  {
    hide ValidChain, FirstFrom, GetEvents;
    if m.Extend? {
      FoldNewExtends(h, p0, r.st.chain, m.added, r.log);
    } else if m.CommitOne? {
      var f, log' := r.st.flights[m.w], Moved(h, r, m).log;
      assert FlightOk(r.st.chain, f) && f.events[f.pos] == r.st.chain[f.from + f.pos];
      assert log'[..|log'| - 1] == r.log;
    }
  }

  /** Over every run the projection is the handler folded over the commits that were new. */
  lemma {:induction false} ProjectionIsFold<P(!new)>(h: (P, ChainEvent) -> P, rs: seq<History<P>>, moves: seq<Move>,
                                                     k: nat)
    requires OverlappingIndexers.IsRun(h, rs, moves) && k < |rs|
    ensures AllInRange(rs[k].st.chain, rs[k].log)
    ensures rs[k].st.proj == FoldNew(h, rs[0].st.proj, rs[k].st.chain, rs[k].log)
  {
    hide CanMove, Moved;
    if k > 0 {
      assert Leads(h, rs[k - 1], moves[k - 1], rs[k - 1 + 1]);
      hide FoldNew;
      ProjectionIsFold(h, rs, moves, k - 1);
      OverlappingIndexers.RunKeepsInv(h, rs, moves, k - 1);
      hide OverlappingIndexers.Inv;
      MoveProjects(h, rs[0].st.proj, rs[k - 1], moves[k - 1]);
    }
  }

  // ---------------------------------------------------------------------------------------------
  // Loss
  // ---------------------------------------------------------------------------------------------

  predicate IsCommitted(log: seq<Write>, q: nat) { exists i :: 0 <= i < |log| && log[i].pos == q }

  /** Event `c` is an earlier one of the same ledger. */
  predicate Before(chain: seq<ChainEvent>, c: nat, q: nat) {
    c < q < |chain| && chain[c].ledger == chain[q].ledger
  }

  ghost predicate StoppedBefore(chain: seq<ChainEvent>, stops: set<nat>, q: nat) {
    exists c :: c in stops && Before(chain, c, q)
  }

  /** A batch still in flight has its last committed event there. */
  ghost predicate FlightBefore(chain: seq<ChainEvent>, flights: map<nat, Flight>, q: nat) {
    exists w :: w in flights && EdgeBefore(chain, flights[w], q)
  }

  predicate EdgeBefore(chain: seq<ChainEvent>, f: Flight, q: nat) {
    f.Fetched? && f.pos > 0 && Before(chain, f.from + f.pos - 1, q)
  }

  ghost predicate Accounted<P>(r: History<P>, q: nat) {
    IsCommitted(r.log, q) || StoppedBefore(r.st.chain, r.stops, q) || FlightBefore(r.st.chain, r.st.flights, q)
  }

  ghost predicate AllAccounted<P>(r: History<P>) {
    forall q :: 0 <= q < |r.st.chain| && r.base < r.st.chain[q].ledger <= r.st.cursor ==> Accounted(r, q)
  }

  lemma CommittedIsKept(log: seq<Write>, c: Write, q: nat)
    ensures IsCommitted(log + [c], q) <==> IsCommitted(log, q) || q == c.pos
  {
    var log' := log + [c];
    assert log'[|log|] == c && forall i :: 0 <= i < |log| ==> log'[i] == log[i];
  }

  lemma BeforeExtends(chain: seq<ChainEvent>, added: seq<ChainEvent>, stops: set<nat>, flights: map<nat, Flight>,
                      q: nat)
    requires q < |chain|
    ensures StoppedBefore(chain, stops, q) ==> StoppedBefore(chain + added, stops, q)
    ensures FlightBefore(chain, flights, q) ==> FlightBefore(chain + added, flights, q)
  {
    var longer := chain + added;
    if c :| c in stops && Before(chain, c, q) {
      assert Before(longer, c, q);
    }
    if w :| w in flights && EdgeBefore(chain, flights[w], q) {
      assert EdgeBefore(longer, flights[w], q);
    }
  }

  lemma ExtendAccounts<P>(h: (P, ChainEvent) -> P, r: History<P>, m: Move)
    requires AllAccounted(r) && Order(r) && m.Extend? && CanMove(r.st, m)
    ensures AllAccounted(Moved(h, r, m))
  {
    hide InSequence, FlightInSequence, StoppedBefore, FlightBefore, IsCommitted, ValidChain;
    var st, r' := r.st, Moved(h, r, m);
    forall q | 0 <= q < |r'.st.chain| && r.base < r'.st.chain[q].ledger <= st.cursor ensures Accounted(r', q) {
      assert q < |st.chain|;
      assert Accounted(r, q);
      BeforeExtends(st.chain, m.added, r.stops, st.flights, q);
    }
  }

  /** A flight that has committed nothing yet may come or go. */
  lemma FlightsWithoutEdge(chain: seq<ChainEvent>, flights: map<nat, Flight>, flights': map<nat, Flight>, w: nat,
                           q: nat)
    requires forall v :: v in flights && v != w ==> v in flights' && flights'[v] == flights[v]
    requires w in flights ==> Edge(flights[w]) == {}
    ensures FlightBefore(chain, flights, q) ==> FlightBefore(chain, flights', q)
  {
    if v :| v in flights && EdgeBefore(chain, flights[v], q) {
      assert v != w;
      assert EdgeBefore(chain, flights'[v], q);
    }
  }

  lemma AskAccounts<P>(h: (P, ChainEvent) -> P, r: History<P>, w: nat)
    requires AllAccounted(r) && CanMove(r.st, Ask(w))
    ensures AllAccounted(Moved(h, r, Ask(w)))
  {
    hide StoppedBefore, FlightBefore, IsCommitted;
    var r' := Moved(h, r, Ask(w));
    forall q | 0 <= q < |r.st.chain| && r.base < r.st.chain[q].ledger <= r.st.cursor ensures Accounted(r', q) {
      assert Accounted(r, q);
      FlightsWithoutEdge(r.st.chain, r.st.flights, r'.st.flights, w, q);
    }
  }

  lemma ReceiveAccounts<P>(h: (P, ChainEvent) -> P, r: History<P>, w: nat)
    requires AllAccounted(r) && Order(r) && CanMove(r.st, Receive(w))
    ensures AllAccounted(Moved(h, r, Receive(w)))
  {
    hide InSequence, StoppedBefore, FlightBefore, IsCommitted, FirstFrom, Sorted, UpTo, TxInOneLedger;
    var st, r' := r.st, Moved(h, r, Receive(w));
    assert FlightInSequence(st.chain, st.head, st.cursor, r.log, st.flights[w]);
    forall q | 0 <= q < |st.chain| && r.base < st.chain[q].ledger <= r'.st.cursor ensures Accounted(r', q) {
      EmptyReceive(st, w, q);
      assert Accounted(r, q);
      FlightsWithoutEdge(st.chain, st.flights, r'.st.flights, w, q);
    }
  }

  /** An empty answer raises the cursor past no event. */
  lemma EmptyReceive<P>(st: Shared<P>, w: nat, q: nat)
    requires w in st.flights && st.flights[w].Asked? && st.flights[w].last <= st.cursor
    requires q < |st.chain| && st.chain[q].ledger <= Received(st, w, st.flights[w].last, st.flights[w].latest).cursor
    ensures st.chain[q].ledger <= st.cursor
  {
    var last := st.flights[w].last;
    var k := FirstFrom(st.chain, last + 1);
    if GetEvents(st.chain, last + 1, BATCH_SIZE) == [] {
      assert k == |st.chain|;
    }
  }

  lemma StopAccounts<P>(h: (P, ChainEvent) -> P, r: History<P>, w: nat)
    requires AllAccounted(r) && CanMove(r.st, Stop(w))
    ensures AllAccounted(Moved(h, r, Stop(w)))
  {
    hide IsCommitted;
    var st, r' := r.st, Moved(h, r, Stop(w));
    forall q | 0 <= q < |st.chain| && r.base < st.chain[q].ledger <= st.cursor ensures Accounted(r', q) {
      assert Accounted(r, q);
      if c :| c in r.stops && Before(st.chain, c, q) {
        assert c in r'.stops;
      } else if v :| v in st.flights && EdgeBefore(st.chain, st.flights[v], q) {
        StopMovesEdge(st.chain, st.flights, r.stops, w, v, q);
      }
    }
  }

  lemma StopMovesEdge(chain: seq<ChainEvent>, flights: map<nat, Flight>, stops: set<nat>, w: nat, v: nat, q: nat)
    requires w in flights && v in flights && EdgeBefore(chain, flights[v], q)
    ensures StoppedBefore(chain, stops + Edge(flights[w]), q) || FlightBefore(chain, flights - {w}, q)
  {
    if v == w {
      assert flights[w].from + flights[w].pos - 1 in stops + Edge(flights[w]);
    } else {
      assert v in flights - {w};
    }
  }

  /** One commit: what was accounted for stays so, and the ledger the cursor enters is behind the new edge. */
  lemma CommitAccounts<P>(h: (P, ChainEvent) -> P, r: History<P>, w: nat)
    requires AllAccounted(r) && Order(r) && OverlappingIndexers.Inv(r) && CanMove(r.st, CommitOne(w))
    ensures AllAccounted(Moved(h, r, CommitOne(w)))
  {
    hide Moved, CanMove, OverlappingIndexers.Inv, StoppedBefore, FlightBefore, IsCommitted, Order, FlightInSequence;
    var f, c := CommitParts(h, r, w);
    ChainIsValid(r);
    var st, r' := r.st, Moved(h, r, CommitOne(w));
    forall q | 0 <= q < |st.chain| && r.base < st.chain[q].ledger <= r'.st.cursor ensures Accounted(r', q) {
      CommittedIsKept(r.log, c, q);
      assert Accounted(r, q) || st.cursor < st.chain[q].ledger;
      CommitMovesEdge(st.chain, st.head, st.cursor, r.log, st.flights, w, q);
    }
  }

  lemma ChainIsValid<P>(r: History<P>)
    requires Order(r)
    ensures ValidChain(r.st.chain, r.st.head)
  {
  }

  lemma CommitMovesEdge(chain: seq<ChainEvent>, head: nat, cursor: nat, log: seq<Write>, flights: map<nat, Flight>,
                        w: nat, q: nat)
    requires ValidChain(chain, head) && w in flights && flights[w].Fetched?
    requires FlightInSequence(chain, head, cursor, log, flights[w])
    requires flights[w].from + flights[w].pos < |chain| && q < |chain|
    ensures var f := flights[w];
            var p, flights' := f.from + f.pos, flights[w := f.(pos := f.pos + 1)];
            && (FlightBefore(chain, flights, q) ==> q == p || FlightBefore(chain, flights', q))
            && (cursor < chain[q].ledger <= chain[p].ledger ==>
                  q == p || IsCommitted(log, q) || FlightBefore(chain, flights', q))
  {
    var f := flights[w];
    var p, flights' := f.from + f.pos, flights[w := f.(pos := f.pos + 1)];
    if v :| v in flights && EdgeBefore(chain, flights[v], q) {
      if v == w {
        EdgeAdvances(chain, f, q);
      } else {
        assert EdgeBefore(chain, flights'[v], q);
      }
    }
    if cursor < chain[q].ledger <= chain[p].ledger {
      if q < p {
        assert f.from <= q;
        assert CommittedBefore(log, |log|, q, f.from);
      } else if p < q {
        assert EdgeBefore(chain, flights'[w], q);
      }
    }
  }

  lemma EdgeAdvances(chain: seq<ChainEvent>, f: Flight, q: nat)
    requires Sorted(chain) && EdgeBefore(chain, f, q)
    ensures q == f.from + f.pos || EdgeBefore(chain, f.(pos := f.pos + 1), q)
  {
    var p := f.from + f.pos;
    if p < q {
      assert chain[p - 1].ledger <= chain[p].ledger <= chain[q].ledger;
    }
  }

  lemma MoveAccounts<P>(h: (P, ChainEvent) -> P, r: History<P>, m: Move)
    requires AllAccounted(r) && Order(r) && OverlappingIndexers.Inv(r) && CanMove(r.st, m)
    ensures AllAccounted(Moved(h, r, m))
  {
    hide AllAccounted, Order, OverlappingIndexers.Inv, CanMove, Moved;
    match m
    case Extend(_, _) => ExtendAccounts(h, r, m);
    case Ask(w) => AskAccounts(h, r, w);
    case Receive(w) => ReceiveAccounts(h, r, w);
    case CommitOne(w) => CommitAccounts(h, r, w);
    case Stop(w) => StopAccounts(h, r, w);
  }

  /**
   * No silent loss beside other processes: over every run of any number of them, an event above the
   * starting cursor and at or below the shared one is committed, or some batch has its last commit at
   * an earlier event of the same ledger, in flight or stopped there.
   */
  lemma {:induction false} NothingLost<P(!new)>(h: (P, ChainEvent) -> P, rs: seq<History<P>>, moves: seq<Move>, k: nat)
    requires OverlappingIndexers.IsRun(h, rs, moves) && k < |rs|
    ensures AllAccounted(rs[k])
  {
    hide CanMove, Moved, Accounted;
    if k > 0 {
      hide AllAccounted;
      assert Leads(h, rs[k - 1], moves[k - 1], rs[k - 1 + 1]);
      NothingLost(h, rs, moves, k - 1);
      RunKeepsOrder(h, rs, moves, k - 1);
      OverlappingIndexers.RunKeepsInv(h, rs, moves, k - 1);
      MoveAccounts(h, rs[k - 1], moves[k - 1]);
    }
  }

  /** So with every batch edge, past and present, at the end of a ledger, everything is committed. */
  lemma WholeLedgersAllCommitted<P(!new)>(h: (P, ChainEvent) -> P, rs: seq<History<P>>, moves: seq<Move>, k: nat,
                                          q: nat)
    requires OverlappingIndexers.IsRun(h, rs, moves) && k < |rs|
    requires var r := rs[k];
             && (forall c :: c in r.stops ==> EndsLedger(r.st.chain, c))
             && (forall w, c :: w in r.st.flights && c in Edge(r.st.flights[w]) ==> EndsLedger(r.st.chain, c))
             && q < |r.st.chain| && r.base < r.st.chain[q].ledger <= r.st.cursor
    ensures IsCommitted(rs[k].log, q)
  {
    hide OverlappingIndexers.IsRun, InSequence, FlightInSequence;
    NothingLost(h, rs, moves, k);
    RunKeepsOrder(h, rs, moves, k);
    var r := rs[k];
    assert Accounted(r, q);
    if c :| c in r.stops && Before(r.st.chain, c, q) {
      EndHasNothingAfter(r.st.chain, c, q);
    }
    if w :| w in r.st.flights && EdgeBefore(r.st.chain, r.st.flights[w], q) {
      EndHasNothingAfter(r.st.chain, r.st.flights[w].from + r.st.flights[w].pos - 1, q);
    }
  }

  predicate EndsLedger(chain: seq<ChainEvent>, c: nat) {
    c + 1 < |chain| ==> chain[c].ledger < chain[c + 1].ledger
  }

  lemma EndHasNothingAfter(chain: seq<ChainEvent>, c: nat, q: nat)
    requires Sorted(chain) && EndsLedger(chain, c)
    ensures !Before(chain, c, q)
  {
    if c + 1 < q < |chain| {
      assert chain[c + 1].ledger <= chain[q].ledger;
    }
  }

  // ---------------------------------------------------------------------------------------------
  // Exactly once, by batch starts and commit order
  // ---------------------------------------------------------------------------------------------

  /** The first commit of a transaction. */
  function LeadOf(chain: seq<ChainEvent>, log: seq<Write>, tx: string): (i: nat)
    requires AllInRange(chain, log)
    ensures i <= |log| && (i < |log| ==> chain[log[i].pos].txHash == tx)
    ensures forall j :: 0 <= j < i ==> chain[log[j].pos].txHash != tx
  {
    if log == [] then 0
    else
      var i := LeadOf(chain, log[..|log| - 1], tx);
      if i < |log| - 1 then i else if chain[log[|log| - 1].pos].txHash == tx then |log| - 1 else |log|
  }

  function TxOf(chain: seq<ChainEvent>, log: seq<Write>, j: nat): string
    requires AllInRange(chain, log) && j < |log|
  {
    chain[log[j].pos].txHash
  }

  /** Where the batch started that was the first to reach the transaction of commit `j`. */
  function LeadStart(chain: seq<ChainEvent>, log: seq<Write>, j: nat): nat
    requires AllInRange(chain, log) && j < |log|
  {
    log[LeadOf(chain, log, TxOf(chain, log, j))].from
  }

  /** Commit `i` put a later event of the same transaction, from the leading start, at the same batch position. */
  predicate AheadOf(chain: seq<ChainEvent>, log: seq<Write>, i: nat, j: nat)
    requires AllInRange(chain, log) && i < |log| && j < |log|
  {
    && SameTx(chain, log[i], log[j]) && log[i].from == LeadStart(chain, log, j)
    && log[j].pos < log[i].pos && log[i].pos - log[i].from == log[j].pos - log[j].from
  }

  /** A commit belongs to the leading start, or trails it: its batch position is already taken by a later event. */
  predicate Follows(chain: seq<ChainEvent>, log: seq<Write>, j: nat)
    requires AllInRange(chain, log) && j < |log|
  {
    log[j].from == LeadStart(chain, log, j) || exists i :: 0 <= i < j && AheadOf(chain, log, i, j)
  }

  ghost predicate WellOrdered(chain: seq<ChainEvent>, log: seq<Write>) {
    AllInRange(chain, log) && Sorted(chain) && TxInOneLedger(chain) && InSequence(chain, log)
  }

  /** A batch that reaches a transaction started before all of its events. */
  lemma StartsBefore(chain: seq<ChainEvent>, log: seq<Write>, j: nat, p: nat)
    requires WellOrdered(chain, log) && j < |log| && p < |chain| && chain[p].txHash == TxOf(chain, log, j)
    ensures log[j].from <= p
  {
    assert Boundary(chain, log[j].from) && chain[p].ledger == chain[log[j].pos].ledger;
    assert chain[log[j].from].ledger <= chain[log[j].pos].ledger;
  }

  /** So it has already committed every earlier event of the transaction. */
  lemma EarlierCommitted(chain: seq<ChainEvent>, log: seq<Write>, j: nat, p: nat)
    requires WellOrdered(chain, log) && j < |log| && p < log[j].pos && chain[p].txHash == TxOf(chain, log, j)
    ensures CommittedBefore(log, j, p, log[j].from)
  {
    StartsBefore(chain, log, j, p);
  }

  lemma SameLead(chain: seq<ChainEvent>, log: seq<Write>, i: nat, j: nat)
    requires AllInRange(chain, log) && i < |log| && j < |log| && SameTx(chain, log[i], log[j])
    ensures LeadStart(chain, log, i) == LeadStart(chain, log, j)
  {
  }

  /** Whatever event a following commit is of, the leading start has committed it by then. */
  lemma LeadHasIt(chain: seq<ChainEvent>, log: seq<Write>, j: nat)
    requires WellOrdered(chain, log) && j < |log| && Follows(chain, log, j)
    ensures CommittedBefore(log, j + 1, log[j].pos, LeadStart(chain, log, j))
    ensures log[j].from != LeadStart(chain, log, j) ==> CommittedBefore(log, j, log[j].pos, LeadStart(chain, log, j))
  {
    hide InSequence, Sorted, TxInOneLedger, LeadStart;
    if log[j].from != LeadStart(chain, log, j) {
      var i :| 0 <= i < j && AheadOf(chain, log, i, j);
      EarlierCommitted(chain, log, i, log[j].pos);
      var c :| 0 <= c < i && log[c].pos == log[j].pos && log[c].from == log[i].from;
    }
  }

  /** The key of a following commit was used before it, or is used by it, from the leading start. */
  lemma LeadHasKey(chain: seq<ChainEvent>, log: seq<Write>, i: nat)
    returns (c: nat)
    requires WellOrdered(chain, log) && i < |log| && Follows(chain, log, i)
    ensures c <= i && log[c].from == LeadStart(chain, log, i) && KeyOf(chain, log[c]) == KeyOf(chain, log[i])
  {
    hide InSequence, Sorted, TxInOneLedger, LeadStart;
    if log[i].from == LeadStart(chain, log, i) {
      c := i;
    } else {
      c :| 0 <= c < i && AheadOf(chain, log, c, i);
    }
  }

  lemma FollowingIsOnce(chain: seq<ChainEvent>, log: seq<Write>, j: nat)
    requires WellOrdered(chain, log) && j < |log| && forall i :: 0 <= i < |log| ==> Follows(chain, log, i)
    ensures KeySeen(chain, log, j) <==> EventSeen(log, j)
  {
    hide WellOrdered, LeadStart, Follows;
    InRangeOf(chain, log);
    assert Follows(chain, log, j);
    if log[j].from != LeadStart(chain, log, j) {
      LeadHasIt(chain, log, j);
      var c := LeadHasKey(chain, log, j);
      assert c < j;
    } else {
      if i :| 0 <= i < j && log[i].pos == log[j].pos {
        SameLead(chain, log, i, j);
        assert Follows(chain, log, i);
        LeadHasIt(chain, log, i);
        var c :| 0 <= c < i + 1 && log[c].pos == log[i].pos && log[c].from == log[j].from;
        assert KeyOf(chain, log[c]) == KeyOf(chain, log[j]);
      }
      if i :| 0 <= i < j && KeyOf(chain, log[i]) == KeyOf(chain, log[j]) {
        SameLead(chain, log, i, j);
        assert Follows(chain, log, i);
        var c := LeadHasKey(chain, log, i);
        assert log[c].pos == log[j].pos;
      }
    }
  }

  lemma InRangeOf(chain: seq<ChainEvent>, log: seq<Write>)
    requires WellOrdered(chain, log)
    ensures AllInRange(chain, log)
  {
  }

  /** The first commit of a transaction is of its first event. */
  lemma LeadIsFirst(chain: seq<ChainEvent>, log: seq<Write>, j: nat, p: nat)
    requires WellOrdered(chain, log) && j < |log| && p < |chain| && chain[p].txHash == TxOf(chain, log, j)
    ensures log[LeadOf(chain, log, TxOf(chain, log, j))].pos <= p
  {
    hide InSequence, Sorted, TxInOneLedger;
    var l := LeadOf(chain, log, TxOf(chain, log, j));
    if p < log[l].pos {
      EarlierCommitted(chain, log, l, p);
    }
  }

  /** If events are projected once, the event of a commit from another start was committed before. */
  lemma OthersComeLate(chain: seq<ChainEvent>, log: seq<Write>, j: nat)
    requires WellOrdered(chain, log) && j < |log| && log[j].from != LeadStart(chain, log, j)
    requires forall i :: 0 <= i < j ==> Follows(chain, log, i)
    ensures EventSeen(log, j)
  {
    hide InSequence, Sorted, TxInOneLedger, LeadStart;
    var tx := TxOf(chain, log, j);
    var l := LeadOf(chain, log, tx);
    LeadIsFirst(chain, log, j, log[j].pos);
    assert l < j by { LeadBefore(chain, log, j); }
    if log[l].pos < log[j].pos {
      var below := set p | p in Positions(chain, tx) && p < log[j].pos;
      assert log[l].pos in below;
      var p := Greatest(below);
      EarlierCommitted(chain, log, j, p);
      var i :| 0 <= i < j && log[i].pos == p && log[i].from == log[j].from;
      SameLead(chain, log, i, j);
      assert Follows(chain, log, i);
      var c :| 0 <= c < i && AheadOf(chain, log, c, i);
      assert log[c].pos in Positions(chain, tx) && log[c].pos !in below;
      if log[j].pos < log[c].pos {
        EarlierCommitted(chain, log, c, log[j].pos);
        var b :| 0 <= b < c && log[b].pos == log[j].pos && log[b].from == log[c].from;
      }
    }
  }

  lemma LeadBefore(chain: seq<ChainEvent>, log: seq<Write>, j: nat)
    requires AllInRange(chain, log) && j < |log| && log[j].from != LeadStart(chain, log, j)
    ensures LeadOf(chain, log, TxOf(chain, log, j)) < j
  {
  }

  /** A commit from another start never comes from a later one, if those before it follow. */
  lemma OthersStartEarlier(chain: seq<ChainEvent>, log: seq<Write>, j: nat, c: nat)
    requires WellOrdered(chain, log) && j < |log| && log[j].from != LeadStart(chain, log, j)
    requires forall i :: 0 <= i < j ==> Follows(chain, log, i)
    requires c < j && log[c].from == LeadStart(chain, log, j) && KeyOf(chain, log[c]) == KeyOf(chain, log[j])
    ensures AheadOf(chain, log, c, j)
  {
    hide InSequence, Sorted, TxInOneLedger, LeadStart;
    var tx := TxOf(chain, log, j);
    var first := log[LeadOf(chain, log, tx)].pos;
    LeadIsFirst(chain, log, j, log[j].pos);
    LeadIsFirst(chain, log, j, log[c].pos);
    if first < log[j].pos {
      EarlierCommitted(chain, log, j, first);
      var i :| 0 <= i < j && log[i].pos == first && log[i].from == log[j].from;
      SameLead(chain, log, i, j);
      assert Follows(chain, log, i);
      var b :| 0 <= b < i && AheadOf(chain, log, b, i);
      assert log[b].from == log[c].from && log[b].pos - log[b].from == first - log[j].from;
    }
  }

  lemma {:induction false} OnceIsFollowing(chain: seq<ChainEvent>, log: seq<Write>, n: nat)
    requires WellOrdered(chain, log) && n <= |log|
    requires forall j :: 0 <= j < |log| ==> (KeySeen(chain, log, j) <==> EventSeen(log, j))
    ensures forall j :: 0 <= j < n ==> Follows(chain, log, j)
  {
    hide WellOrdered, LeadStart, EventSeen, AheadOf;
    InRangeOf(chain, log);
    if n > 0 {
      var j := n - 1;
      OnceIsFollowing(chain, log, j);
      if log[j].from != LeadStart(chain, log, j) {
        OthersComeLate(chain, log, j);
        var i :| 0 <= i < j && KeyOf(chain, log[i]) == KeyOf(chain, log[j]);
        assert Follows(chain, log, i);
        var c := LeadHasKey(chain, log, i);
        SameLead(chain, log, i, j);
        OthersStartEarlier(chain, log, j, c);
      }
    }
  }

  /**
   * Exactly once, for every run: each event is projected by its first commit and no other if and only
   * if every commit of a transaction is from the start of the first batch that reached it, or trails
   * that batch within the transaction, finding its own batch position taken by a later event.
   */
  lemma OnceIffFollowing<P(!new)>(h: (P, ChainEvent) -> P, rs: seq<History<P>>, moves: seq<Move>, k: nat)
    requires OverlappingIndexers.IsRun(h, rs, moves) && k < |rs|
    ensures var chain, log := rs[k].st.chain, rs[k].log;
            && AllInRange(chain, log)
            && (ProjectedOnce(log) <==> forall j :: 0 <= j < |log| ==> Follows(chain, log, j))
  {
    hide OverlappingIndexers.IsRun, InSequence, FlightInSequence, ProjectedOnce, Follows, KeySeen, EventSeen;
    var chain, log := rs[k].st.chain, rs[k].log;
    ExactlyOnceIff(h, rs, moves, k);
    RunKeepsOrder(h, rs, moves, k);
    assert WellOrdered(chain, log);
    hide WellOrdered;
    if forall j :: 0 <= j < |log| ==> Follows(chain, log, j) {
      forall j | 0 <= j < |log| ensures KeySeen(chain, log, j) <==> EventSeen(log, j) {
        FollowingIsOnce(chain, log, j);
      }
    }
    if ProjectedOnce(log) {
      OnceIsFollowing(chain, log, |log|);
    }
  }

  /** A batch from another start that reaches a transaction's last event breaks it, whatever the order. */
  lemma LastEventDecides(chain: seq<ChainEvent>, log: seq<Write>, j: nat)
    requires AllInRange(chain, log) && j < |log| && log[j].from != LeadStart(chain, log, j)
    requires forall p :: p in Positions(chain, TxOf(chain, log, j)) ==> p <= log[j].pos
    ensures !Follows(chain, log, j)
  {
    hide LeadStart;
    forall i | 0 <= i < j ensures !AheadOf(chain, log, i, j) {
      if SameTx(chain, log[i], log[j]) {
        assert log[i].pos in Positions(chain, TxOf(chain, log, j));
      }
    }
  }
}
