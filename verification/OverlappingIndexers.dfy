/**
 * Indexer processes that overlap: the lock lasts 30 s and is not renewed, so a second process may
 * poll and fetch while the first is still committing. Any number of processes share the cursor and
 * the raw table here; each commit is one transaction, in any interleaving, with crashes and growth.
 *
 * An event may then be committed by several batches, at a different batch position in each.
 */
module OverlappingIndexers {
  import opened LedgerIndexer

  /** What one process has in flight. `from` is the chain position of its first event. */
  datatype Flight = Asked(last: nat, latest: nat) | Fetched(from: nat, events: seq<ChainEvent>, pos: nat)

  datatype Shared<P> = Shared(
    chain: seq<ChainEvent>,
    head: nat,
    cursor: nat,
    raw: map<RawKey, RawRow>,
    proj: P,
    flights: map<nat, Flight>)

  datatype Move =
    | Extend(added: seq<ChainEvent>, newHead: nat)
    | Ask(w: nat)
    | Receive(w: nat)
    | CommitOne(w: nat)
    | Stop(w: nat)

  /** One commit: which chain position, in a batch that started where, and was it projected. */
  datatype Write = Write(pos: nat, from: nat, isNew: bool)

  /** `base` is the cursor the run began with; `stops` holds the last event of each batch given up or finished. */
  datatype History<P> = History(st: Shared<P>, log: seq<Write>, base: nat, stops: set<nat>)

  ghost predicate CanMove<P>(st: Shared<P>, m: Move) {
    match m
    case Extend(added, newHead) =>
      && st.head <= newHead && ValidChain(st.chain + added, newHead)
      && forall i :: 0 <= i < |added| ==> st.head < added[i].ledger
    case Ask(w) => w !in st.flights
    case Receive(w) => w in st.flights && st.flights[w].Asked?
    case CommitOne(w) => w in st.flights && st.flights[w].Fetched? && st.flights[w].pos < |st.flights[w].events|
    case Stop(w) => w in st.flights
  }

  function Received<P>(st: Shared<P>, w: nat, last: nat, latest: nat): Shared<P> {
    var events := GetEvents(st.chain, last + 1, BATCH_SIZE);
    if latest <= last then st.(flights := st.flights - {w})
    else if events == [] then
      st.(cursor := Max(st.cursor, Min(last + 1 + EMPTY_SKIP, latest)), flights := st.flights - {w})
    else st.(flights := st.flights[w := Fetched(FirstFrom(st.chain, last + 1), events, 0)])
  }

  /** The event transaction of `LedgerIndexer.CommitEvent` on the shared tables. */
  function Committed<P>(h: (P, ChainEvent) -> P, st: Shared<P>, e: ChainEvent, index: nat): Shared<P> {
    var key := RawKey(e.txHash, index);
    var cursor := Max(st.cursor, e.ledger);
    if key in st.raw then st.(cursor := cursor)
    else st.(raw := st.raw[key := RawRow(e, index)], proj := h(st.proj, e), cursor := cursor)
  }

  function Moved<P>(h: (P, ChainEvent) -> P, r: History<P>, m: Move): History<P>
    requires CanMove(r.st, m)
  {
    var st := r.st;
    match m
    case Extend(added, newHead) => r.(st := st.(chain := st.chain + added, head := newHead))
    case Ask(w) => r.(st := st.(flights := st.flights[w := Asked(st.cursor, st.head)]))
    case Receive(w) => r.(st := Received(st, w, st.flights[w].last, st.flights[w].latest))
    case CommitOne(w) =>
      var f := st.flights[w];
      var e := f.events[f.pos];
      r.(
        st := Committed(h, st, e, f.pos).(flights := st.flights[w := f.(pos := f.pos + 1)]),
        log := r.log + [Write(f.from + f.pos, f.from, RawKey(e.txHash, f.pos) !in st.raw)])
    case Stop(w) => r.(st := st.(flights := st.flights - {w}), stops := r.stops + Edge(st.flights[w]))
  }

  /** The last event a batch has committed, if any. */
  function Edge(f: Flight): set<nat> { if f.Fetched? && f.pos > 0 then {f.from + f.pos - 1} else {} }

  ghost predicate IsRun<P(!new)>(h: (P, ChainEvent) -> P, rs: seq<History<P>>, moves: seq<Move>) {
    && |rs| == |moves| + 1
    && Starts(rs[0])
    && forall i :: 0 <= i < |moves| ==> Leads(h, rs[i], moves[i], rs[i + 1])
  }

  ghost predicate Leads<P(!new)>(h: (P, ChainEvent) -> P, r: History<P>, m: Move, r': History<P>) {
    CanMove(r.st, m) && r' == Moved(h, r, m)
  }

  ghost predicate Starts<P>(r: History<P>) {
    && ValidChain(r.st.chain, r.st.head) && r.st.raw == map[] && r.st.flights == map[] && r.log == []
    && r.base == r.st.cursor && r.stops == {}
  }

  // ---------------------------------------------------------------------------------------------
  // What a run leaves
  // ---------------------------------------------------------------------------------------------

  predicate InRange(chain: seq<ChainEvent>, c: Write) { c.from <= c.pos < |chain| }

  /** The key a commit looks up and stores. */
  function KeyOf(chain: seq<ChainEvent>, c: Write): RawKey
    requires InRange(chain, c)
  {
    RawKey(chain[c.pos].txHash, c.pos - c.from)
  }

  predicate AllInRange(chain: seq<ChainEvent>, log: seq<Write>) {
    forall i :: 0 <= i < |log| ==> InRange(chain, log[i])
  }

  /** Some commit used this key. */
  predicate Used(chain: seq<ChainEvent>, log: seq<Write>, key: RawKey)
    requires AllInRange(chain, log)
  {
    exists i :: 0 <= i < |log| && KeyOf(chain, log[i]) == key
  }

  /** An earlier commit used the same key. */
  predicate KeySeen(chain: seq<ChainEvent>, log: seq<Write>, j: nat)
    requires AllInRange(chain, log) && j < |log|
  {
    exists i :: 0 <= i < j && KeyOf(chain, log[i]) == KeyOf(chain, log[j])
  }

  /** An earlier commit was of the same event. */
  predicate EventSeen(log: seq<Write>, j: nat)
    requires j < |log|
  {
    exists i :: 0 <= i < j && log[i].pos == log[j].pos
  }

  /** Every event is projected by its first commit and by no other. */
  predicate ProjectedOnce(log: seq<Write>) { forall j :: 0 <= j < |log| ==> (log[j].isNew <==> !EventSeen(log, j)) }

  ghost predicate FlightOk(chain: seq<ChainEvent>, f: Flight) {
    f.Fetched? ==>
        f.pos <= |f.events| && f.from + |f.events| <= |chain| && f.events == chain[f.from..f.from + |f.events|]
  }

  /** The raw table holds the keys of the commits so far, and exactly the first commit of a key projects. */
  ghost predicate TableOk(chain: seq<ChainEvent>, log: seq<Write>, raw: map<RawKey, RawRow>) {
    && AllInRange(chain, log)
    && (forall k :: k in raw <==> Used(chain, log, k))
    && (forall j :: 0 <= j < |log| ==> (log[j].isNew <==> !KeySeen(chain, log, j)))
  }

  ghost predicate Inv<P>(r: History<P>) {
    && (forall w :: w in r.st.flights ==> FlightOk(r.st.chain, r.st.flights[w]))
    && TableOk(r.st.chain, r.log, r.st.raw)
  }

  lemma ExtendKeepsTable(chain: seq<ChainEvent>, added: seq<ChainEvent>, log: seq<Write>, raw: map<RawKey, RawRow>)
    requires TableOk(chain, log, raw)
    ensures TableOk(chain + added, log, raw)
  {
    var longer := chain + added;
    assert forall i :: 0 <= i < |log| ==> InRange(longer, log[i]) && KeyOf(longer, log[i]) == KeyOf(chain, log[i]);
    forall j | 0 <= j < |log| ensures KeySeen(longer, log, j) <==> KeySeen(chain, log, j) {
    }
    forall k ensures Used(longer, log, k) <==> Used(chain, log, k) {
    }
  }

  lemma UsedAfter(chain: seq<ChainEvent>, log: seq<Write>, c: Write, k: RawKey)
    requires AllInRange(chain, log) && InRange(chain, c)
    ensures AllInRange(chain, log + [c])
    ensures Used(chain, log + [c], k) <==> Used(chain, log, k) || k == KeyOf(chain, c)
  {
    var log' := log + [c];
    assert log'[|log|] == c;
    if i :| 0 <= i < |log| && KeyOf(chain, log[i]) == k {
      assert log'[i] == log[i];
    }
    if i :| 0 <= i < |log'| && KeyOf(chain, log'[i]) == k && i < |log| {
      assert log'[i] == log[i];
    }
  }

  lemma SeenAfter(chain: seq<ChainEvent>, log: seq<Write>, c: Write, j: nat)
    requires AllInRange(chain, log) && InRange(chain, c) && AllInRange(chain, log + [c]) && j <= |log|
    ensures KeySeen(chain, log + [c], j) <==>
                if j < |log| then KeySeen(chain, log, j) else Used(chain, log, KeyOf(chain, c))
  {
    var log' := log + [c];
    assert forall i :: 0 <= i < |log| ==> log'[i] == log[i];
    assert log'[j] == if j < |log| then log[j] else c;
  }

  lemma CommitKeepsTable(chain: seq<ChainEvent>, log: seq<Write>, raw: map<RawKey, RawRow>, c: Write, row: RawRow)
    requires TableOk(chain, log, raw) && InRange(chain, c) && (c.isNew <==> KeyOf(chain, c) !in raw)
    ensures TableOk(chain, log + [c], raw[KeyOf(chain, c) := row])
    ensures KeyOf(chain, c) in raw ==> TableOk(chain, log + [c], raw)
  {
    hide Used, KeySeen, KeyOf, InRange;
    var log' := log + [c];
    UsedAfter(chain, log, c, KeyOf(chain, c));
    forall k ensures Used(chain, log', k) <==> Used(chain, log, k) || k == KeyOf(chain, c) {
      UsedAfter(chain, log, c, k);
    }
    forall j | 0 <= j < |log'| ensures log'[j].isNew <==> !KeySeen(chain, log', j) {
      SeenAfter(chain, log, c, j);
    }
  }

  lemma FlightExtends(chain: seq<ChainEvent>, added: seq<ChainEvent>, f: Flight)
    requires FlightOk(chain, f)
    ensures FlightOk(chain + added, f)
  {
    if f.Fetched? {
      assert (chain + added)[f.from..f.from + |f.events|] == chain[f.from..f.from + |f.events|];
    }
  }

  lemma MoveKeepsInv<P>(h: (P, ChainEvent) -> P, r: History<P>, m: Move)
    requires Inv(r) && CanMove(r.st, m)
    ensures Inv(Moved(h, r, m))
  {
    hide TableOk, ValidChain, FirstFrom;
    var st := r.st;
    match m
    case Extend(added, _) =>
      hide FlightOk;
      ExtendKeepsTable(st.chain, added, r.log, st.raw);
      forall w | w in st.flights ensures FlightOk(st.chain + added, st.flights[w]) {
        FlightExtends(st.chain, added, st.flights[w]);
      }
    case Ask(_) =>
    case Receive(_) =>
    case CommitOne(w) =>
      var f := st.flights[w];
      var e := f.events[f.pos];
      CommitKeepsTable(st.chain, r.log, st.raw, Write(f.from + f.pos, f.from, RawKey(e.txHash, f.pos) !in st.raw),
        RawRow(e, f.pos));
    case Stop(_) =>
  }

  lemma {:induction false} RunKeepsInv<P(!new)>(h: (P, ChainEvent) -> P, rs: seq<History<P>>, moves: seq<Move>, k: nat)
    requires IsRun(h, rs, moves) && k < |rs|
    ensures Inv(rs[k])
  {
    hide CanMove, Moved;
    if k > 0 {
      hide Inv;
      RunKeepsInv(h, rs, moves, k - 1);
      assert Leads(h, rs[k - 1], moves[k - 1], rs[k - 1 + 1]);
      MoveKeepsInv(h, rs[k - 1], moves[k - 1]);
    }
  }

  /**
   * Exactly when every event is projected once, by its first commit, over every run of any number of
   * processes: each commit must find its key taken just when its event was committed before.
   */
  lemma ExactlyOnceIff<P(!new)>(h: (P, ChainEvent) -> P, rs: seq<History<P>>, moves: seq<Move>, k: nat)
    requires IsRun(h, rs, moves) && k < |rs|
    ensures var chain, log := rs[k].st.chain, rs[k].log;
            && AllInRange(chain, log)
            && (ProjectedOnce(log) <==> forall j :: 0 <= j < |log| ==> (KeySeen(chain, log, j) <==> EventSeen(log, j)))
  {
    hide IsRun, KeySeen, EventSeen;
    RunKeepsInv(h, rs, moves, k);
  }

  // ---------------------------------------------------------------------------------------------
  // The condition on batch starts
  // ---------------------------------------------------------------------------------------------

  predicate SameTx(chain: seq<ChainEvent>, c: Write, c': Write)
    requires InRange(chain, c) && InRange(chain, c')
  {
    chain[c.pos].txHash == chain[c'.pos].txHash
  }

  /** Batches that commit events of one transaction started at one chain position. */
  predicate Aligned(chain: seq<ChainEvent>, log: seq<Write>)
    requires AllInRange(chain, log)
  {
    forall i, j :: 0 <= i < |log| && 0 <= j < |log| && SameTx(chain, log[i], log[j]) ==> log[i].from == log[j].from
  }

  /** A batch that commits one event of a transaction commits all of them. */
  ghost predicate WholeTransactions(chain: seq<ChainEvent>, log: seq<Write>)
    requires AllInRange(chain, log)
  {
    forall i, q :: 0 <= i < |log| && 0 <= q < |chain| && chain[q].txHash == chain[log[i].pos].txHash ==>
      CommittedAt(log, q, log[i].from)
  }

  predicate CommittedAt(log: seq<Write>, q: nat, from: nat) {
    exists i :: 0 <= i < |log| && log[i].pos == q && log[i].from == from
  }

  lemma AlignedIsOnce(chain: seq<ChainEvent>, log: seq<Write>, j: nat)
    requires AllInRange(chain, log) && Aligned(chain, log) && j < |log|
    ensures KeySeen(chain, log, j) <==> EventSeen(log, j)
  {
    if i :| 0 <= i < j && KeyOf(chain, log[i]) == KeyOf(chain, log[j]) {
      assert SameTx(chain, log[i], log[j]);
    }
    if i :| 0 <= i < j && log[i].pos == log[j].pos {
      assert SameTx(chain, log[i], log[j]);
    }
  }

  /** The chain positions of a transaction. */
  function Positions(chain: seq<ChainEvent>, tx: string): set<nat> {
    set q | 0 <= q < |chain| && chain[q].txHash == tx
  }

  lemma {:induction false} Pigeonhole<A, B>(m: map<A, B>, into: set<B>)
    requires m.Values <= into && forall x, y :: x in m && y in m && m[x] == m[y] ==> x == y
    ensures |m.Keys| <= |into|
    decreases |m.Keys|
  {
    if m.Keys != {} {
      var x :| x in m;
      var rest := m - {x};
      assert rest.Keys == m.Keys - {x};
      assert m[x] in m.Values;
      assert rest.Values <= into - {m[x]} by {
        forall v | v in rest.Values ensures v in into - {m[x]} {
          var y :| y in rest && rest[y] == v;
          assert m[y] in m.Values;
        }
      }
      Pigeonhole(rest, into - {m[x]});
    }
  }

  /** The first commit that used a key. */
  function FirstUse(chain: seq<ChainEvent>, log: seq<Write>, key: RawKey): (i: nat)
    requires AllInRange(chain, log)
    ensures i <= |log| && (i < |log| ==> KeyOf(chain, log[i]) == key)
    ensures forall j :: 0 <= j < i ==> KeyOf(chain, log[j]) != key
  {
    if log == [] then 0
    else
      var i := FirstUse(chain, log[..|log| - 1], key);
      if i < |log| - 1 then i else if KeyOf(chain, log[|log| - 1]) == key then |log| - 1 else |log|
  }

  /** If events are projected once, a transaction uses no more keys than it has events. */
  lemma KeysPerTransaction(chain: seq<ChainEvent>, log: seq<Write>, tx: string, keys: set<RawKey>)
    requires AllInRange(chain, log)
    requires forall j :: 0 <= j < |log| ==> (KeySeen(chain, log, j) <==> EventSeen(log, j))
    requires forall k :: k in keys ==> k.txHash == tx && Used(chain, log, k)
    ensures |keys| <= |Positions(chain, tx)|
  {
    var m := map k | k in keys :: UsePosition(chain, log, k);
    forall k | k in keys ensures m[k] in Positions(chain, tx) {
      assert Used(chain, log, k);
    }
    forall x, y | x in m && y in m && m[x] == m[y] ensures x == y {
      FirstUsesDiffer(chain, log, x, y);
    }
    assert m.Keys == keys;
    Pigeonhole(m, Positions(chain, tx));
  }

  function UsePosition(chain: seq<ChainEvent>, log: seq<Write>, key: RawKey): nat
    requires AllInRange(chain, log) && Used(chain, log, key)
  {
    log[FirstUse(chain, log, key)].pos
  }

  lemma FirstUsesDiffer(chain: seq<ChainEvent>, log: seq<Write>, x: RawKey, y: RawKey)
    requires AllInRange(chain, log) && Used(chain, log, x) && Used(chain, log, y)
    requires forall j :: 0 <= j < |log| ==> (KeySeen(chain, log, j) <==> EventSeen(log, j))
    requires UsePosition(chain, log, x) == UsePosition(chain, log, y)
    ensures x == y
  {
    var i, j := FirstUse(chain, log, x), FirstUse(chain, log, y);
    assert !KeySeen(chain, log, i) && !KeySeen(chain, log, j);
    assert !EventSeen(log, i) && !EventSeen(log, j);
  }

  /** The keys of a transaction committed whole from one start, and of its last event from another. */
  function KeysOfTwo(at: set<nat>, tx: string, early: nat, late: nat, top: nat): set<RawKey> {
    (set q | q in at :: RawKey(tx, Offset(q, late))) + {RawKey(tx, Offset(top, early))}
  }

  lemma OneKeyMore(at: set<nat>, tx: string, early: nat, late: nat, top: nat)
    requires early < late && top in at && forall q :: q in at ==> late <= q <= top
    ensures |KeysOfTwo(at, tx, early, late, top)| > |at|
  {
    var m := map q | q in at :: RawKey(tx, Offset(q, late));
    var extra := RawKey(tx, Offset(top, early));
    assert m.Keys == at && m.Values == (set q | q in at :: RawKey(tx, Offset(q, late)));
    Pigeonhole(m, m.Values);
    assert extra !in m.Values;
  }

  /** Two whole commits of one transaction from different starts use more keys than it has events. */
  lemma TwoStartsTooManyKeys(chain: seq<ChainEvent>, log: seq<Write>, i: nat, j: nat)
    requires AllInRange(chain, log) && WholeTransactions(chain, log)
    requires i < |log| && j < |log| && SameTx(chain, log[i], log[j]) && log[i].from < log[j].from
    ensures exists k :: 0 <= k < |log| && !(KeySeen(chain, log, k) <==> EventSeen(log, k))
  {
    hide KeySeen, EventSeen, WholeTransactions, Used, Offset;
    var tx := chain[log[i].pos].txHash;
    var at := Positions(chain, tx);
    assert log[i].pos in at;
    var top := Greatest(at);
    forall q | q in at ensures log[j].from <= q && Used(chain, log, RawKey(tx, Offset(q, log[j].from))) {
      WholeUses(chain, log, j, q);
    }
    WholeUses(chain, log, i, top);
    OneKeyMore(at, tx, log[i].from, log[j].from, top);
    if forall k :: 0 <= k < |log| ==> (KeySeen(chain, log, k) <==> EventSeen(log, k)) {
      KeysPerTransaction(chain, log, tx, KeysOfTwo(at, tx, log[i].from, log[j].from, top));
      assert false;
    }
  }

  function Offset(q: nat, from: nat): nat { if from <= q then q - from else 0 }

  lemma WholeUses(chain: seq<ChainEvent>, log: seq<Write>, i: nat, q: nat)
    requires AllInRange(chain, log) && WholeTransactions(chain, log)
    requires i < |log| && q < |chain| && chain[q].txHash == chain[log[i].pos].txHash
    ensures log[i].from <= q && Used(chain, log, RawKey(chain[q].txHash, Offset(q, log[i].from)))
  {
    assert CommittedAt(log, q, log[i].from);
    var c :| 0 <= c < |log| && log[c].pos == q && log[c].from == log[i].from;
    assert KeyOf(chain, log[c]) == RawKey(chain[q].txHash, Offset(q, log[i].from));
  }

  lemma Greatest(s: set<nat>) returns (m: nat)
    requires s != {}
    ensures m in s && forall x :: x in s ==> x <= m
  {
    var x :| x in s;
    var rest := s - {x};
    if rest == {} {
      assert s == {x};
      m := x;
    } else {
      var y := Greatest(rest);
      assert forall z :: z in s ==> z == x || z in rest;
      m := if x < y then y else x;
    }
  }

  /**
   * The condition on batch starts: if no batch breaks off inside a transaction, every event is
   * projected exactly once if and only if all batches that commit a transaction started at the same
   * chain position. So a second process is harmless exactly when it fetched the very same batch.
   */
  lemma OnceIffAligned<P(!new)>(h: (P, ChainEvent) -> P, rs: seq<History<P>>, moves: seq<Move>, k: nat)
    requires IsRun(h, rs, moves) && k < |rs|
    requires AllInRange(rs[k].st.chain, rs[k].log) && WholeTransactions(rs[k].st.chain, rs[k].log)
    ensures ProjectedOnce(rs[k].log) <==> Aligned(rs[k].st.chain, rs[k].log)
  {
    hide IsRun, KeySeen, EventSeen, WholeTransactions, ProjectedOnce;
    var chain, log := rs[k].st.chain, rs[k].log;
    ExactlyOnceIff(h, rs, moves, k);
    if Aligned(chain, log) {
      forall j | 0 <= j < |log| ensures KeySeen(chain, log, j) <==> EventSeen(log, j) {
        AlignedIsOnce(chain, log, j);
      }
    } else {
      var i, j :| 0 <= i < |log| && 0 <= j < |log| && SameTx(chain, log[i], log[j]) && log[i].from != log[j].from;
      if log[i].from < log[j].from {
        TwoStartsTooManyKeys(chain, log, i, j);
      } else {
        TwoStartsTooManyKeys(chain, log, j, i);
      }
    }
  }

  const STARTED: History<int> := History(Shared(CHAIN_AB, 2, 0, map[], 0, map[]), [], 0, {})

  /** Process 2 asks after process 1 has committed one of its two events, and both commit the other. */
  const OVERLAP: seq<Move> := [Ask(1), Receive(1), CommitOne(1), Ask(2), Receive(2), CommitOne(2), CommitOne(1)]

  lemma FirstHalf() returns (a: History<int>, b: History<int>, c: History<int>)
    ensures Leads(COUNT, STARTED, Ask(1), a) && Leads(COUNT, a, Receive(1), b) && Leads(COUNT, b, CommitOne(1), c)
    ensures c == History(Shared(CHAIN_AB, 2, 1, map[RawKey("A", 0) := RawRow(EVENT_A, 0)], 1,
              map[1 := Fetched(0, CHAIN_AB, 1)]),
                         [Write(0, 0, true)], 0, {})
  {
    a := Moved(COUNT, STARTED, Ask(1));
    assert FirstFrom(CHAIN_AB, 1) == 0 && CHAIN_AB[0..2] == CHAIN_AB;
    b := Moved(COUNT, a, Receive(1));
    assert b.st.flights == map[1 := Fetched(0, CHAIN_AB, 0)];
    c := Moved(COUNT, b, CommitOne(1));
  }

  lemma SecondHalf(c: History<int>) returns (d: History<int>, e: History<int>, f: History<int>, g: History<int>)
    requires c == History(Shared(CHAIN_AB, 2, 1, map[RawKey("A", 0) := RawRow(EVENT_A, 0)], 1,
               map[1 := Fetched(0, CHAIN_AB, 1)]),
                          [Write(0, 0, true)], 0, {})
    ensures Leads(COUNT, c, Ask(2), d) && Leads(COUNT, d, Receive(2), e)
    ensures Leads(COUNT, e, CommitOne(2), f) && Leads(COUNT, f, CommitOne(1), g)
    ensures g.st.proj == 3 && g.log == [Write(0, 0, true), Write(1, 1, true), Write(1, 0, true)]
  {
    d := Moved(COUNT, c, Ask(2));
    assert FirstFrom(CHAIN_AB, 2) == 1 && CHAIN_AB[1..2] == [EVENT_B];
    e := Moved(COUNT, d, Receive(2));
    assert e.st.flights[2] == Fetched(1, [EVENT_B], 0) && e.st.flights[1] == Fetched(0, CHAIN_AB, 1);
    f := Moved(COUNT, e, CommitOne(2));
    assert f.st.flights[1] == Fetched(0, CHAIN_AB, 1) && RawKey("B", 1) !in f.st.raw && f.st.proj == 2;
    g := Moved(COUNT, f, CommitOne(1));
  }

  /** A run of two overlapping processes that projects a two-event chain three times. */
  lemma OverlapProjectsTwice() returns (rs: seq<History<int>>)
    ensures IsRun(COUNT, rs, OVERLAP) && |rs[0].st.chain| == 2 && rs[0].st.proj == 0
    ensures rs[7].st.proj == 3 && !ProjectedOnce(rs[7].log)
  {
    hide Leads, Starts, ValidChain;
    StartedStarts();
    var a, b, c := FirstHalf();
    var d, e, f, g := SecondHalf(c);
    rs := [STARTED, a, b, c, d, e, f, g];
    assert Leads(COUNT, rs[0], OVERLAP[0], rs[1]) && Leads(COUNT, rs[1], OVERLAP[1], rs[2]);
    assert Leads(COUNT, rs[2], OVERLAP[2], rs[3]) && Leads(COUNT, rs[3], OVERLAP[3], rs[4]);
    assert Leads(COUNT, rs[4], OVERLAP[4], rs[5]) && Leads(COUNT, rs[5], OVERLAP[5], rs[6]);
    assert Leads(COUNT, rs[6], OVERLAP[6], rs[7]);
    assert g.log[1].pos == g.log[2].pos && EventSeen(g.log, 2);
  }

  lemma StartedStarts()
    ensures Starts(STARTED)
  {
  }
}
