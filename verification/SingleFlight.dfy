/**
 * The cache's single-flight protocol: on a miss one caller takes a lock, runs the loader, stores the
 * result and deletes the lock, while the others wait and read again. The lock carries no token.
 *
 * Any number of callers interleave; every Redis command and every loader completion is one step.
 */
module SingleFlight {
  import opened Options

  const LOCK_TTL_MS: nat := 30_000
  const MAX_WAIT_MS: nat := 5_000

  // ---------------------------------------------------------------------------------------------
  // Keys
  // ---------------------------------------------------------------------------------------------

  function BuildKey(app: string, env: string, tenant: Option<string>, key: string): string {
    match tenant
    case Some(t) => if t == "" then app + ":" + env + ":" + key else app + ":" + env + ":" + t + ":" + key
    case None => app + ":" + env + ":" + key
  }

  function LockName(fullKey: string): string { "lock:" + fullKey }

  /** Lock keys and cache keys are disjoint for every application name that does not begin a lock name. */
  lemma LocksAreNotCacheKeys(app: string, env: string, tenant: Option<string>, key: string, other: string)
    requires !("lock:" <= app + ":")
    ensures LockName(other) != BuildKey(app, env, tenant, key)
  {
    var full, lock := BuildKey(app, env, tenant, key), LockName(other);
    var prefix := app + ":";
    assert prefix <= full && full[|app|] == ':';
    assert "lock:" <= lock;
    if |app| < 4 {
      assert lock[|app|] == "lock:"[|app|];
      assert lock[|app|] != ':';
    } else {
      assert prefix[..5] != "lock:";
      assert full[..5] == prefix[..5];
      assert lock[..5] == "lock:";
    }
  }

  /** Tenants are kept apart as long as no tenant name contains a colon. */
  lemma TenantsKeptApart(app: string, env: string, t1: string, k1: string, t2: string, k2: string)
    requires t1 != "" && t2 != "" && ':' !in t1 && ':' !in t2
    requires BuildKey(app, env, Some(t1), k1) == BuildKey(app, env, Some(t2), k2)
    ensures t1 == t2 && k1 == k2
  {
    var base := app + ":" + env + ":";
    var a, b := t1 + ":" + k1, t2 + ":" + k2;
    assert BuildKey(app, env, Some(t1), k1) == base + a && BuildKey(app, env, Some(t2), k2) == base + b;
    assert (base + a)[|base|..] == a && (base + b)[|base|..] == b;
    assert a[|t1|] == ':' && b[|t2|] == ':';
    assert forall i :: 0 <= i < |t1| ==> a[i] == t1[i];
    assert forall i :: 0 <= i < |t2| ==> b[i] == t2[i];
    assert |t1| == |t2|;
    assert a[..|t1|] == t1 && b[..|t2|] == t2;
    assert a[|t1| + 1..] == k1 && b[|t2| + 1..] == k2;
  }

  /** A tenant's key is also the untenanted key that spells the tenant out. */
  lemma TenantKeyIsPlainKey(app: string, env: string, tenant: string, key: string)
    requires tenant != ""
    ensures BuildKey(app, env, Some(tenant), key) == BuildKey(app, env, None, tenant + ":" + key)
  {
    assert app + ":" + env + ":" + tenant + ":" + key == app + ":" + env + ":" + (tenant + ":" + key);
  }

  // ---------------------------------------------------------------------------------------------
  // The protocol
  // ---------------------------------------------------------------------------------------------

  /** A cached JSON null reads as a miss. */
  datatype Value = Null | Json(text: string)

  datatype Entry = Entry(value: Value, expiresAt: int)

  datatype Outcome = Returned(value: Value) | Threw

  datatype Phase =
    | Reading
    | Locking
    | Loading(since: int)
    | Storing(since: int, value: Value)
    | Releasing(since: int, outcome: Outcome)
    | Waiting(from: int)
    | Rereading
    | LoadingFree
    | Finished(outcome: Outcome)

  datatype Caller = Caller(key: string, phase: Phase)

  /** `loaded` records every value a loader ever returned, with the full key it ran for. */
  datatype State = State(
    now: int,
    cache: map<string, Entry>,
    locks: map<string, int>,
    callers: map<nat, Caller>,
    loaded: set<(string, Value)>)

  datatype Step =
    | Pass(ms: nat)
    | Evict(key: string)
    | Call(id: nat, key: string)
    | ReadCache(id: nat)
    | TryLock(id: nat)
    | LoaderEnds(id: nat, result: Option<Value>)
    | Store(id: nat, ttlMs: nat)
    | Release(id: nat)
    | StopWaiting(id: nat)
    | Reread(id: nat)
    | FreeLoaderEnds(id: nat, result: Option<Value>)

  predicate LockLive(s: State, key: string) { key in s.locks && s.now < s.locks[key] }

  function Hit(s: State, key: string): Option<Value> {
    if key in s.cache && s.now < s.cache[key].expiresAt && s.cache[key].value != Null
    then Some(s.cache[key].value) else None
  }

  predicate Enabled(s: State, step: Step) {
    match step
    case Pass(_) => true
    case Evict(_) => true
    case Call(id, _) => id !in s.callers
    case ReadCache(id) => id in s.callers && s.callers[id].phase.Reading?
    case TryLock(id) => id in s.callers && s.callers[id].phase.Locking?
    case LoaderEnds(id, _) => id in s.callers && s.callers[id].phase.Loading?
    case Store(id, _) => id in s.callers && s.callers[id].phase.Storing?
    case Release(id) => id in s.callers && s.callers[id].phase.Releasing?
    case StopWaiting(id) =>
      && id in s.callers && s.callers[id].phase.Waiting?
      && (!LockLive(s, s.callers[id].key) || s.callers[id].phase.from + MAX_WAIT_MS <= s.now)
    case Reread(id) => id in s.callers && s.callers[id].phase.Rereading?
    case FreeLoaderEnds(id, _) => id in s.callers && s.callers[id].phase.LoadingFree?
  }

  function Move(s: State, id: nat, phase: Phase): State
    requires id in s.callers
  {
    s.(callers := s.callers[id := s.callers[id].(phase := phase)])
  }

  function Next(s: State, step: Step): State
    requires Enabled(s, step)
  {
    match step
    case Pass(ms) => s.(now := s.now + ms)
    case Evict(key) => s.(cache := s.cache - {key})
    case Call(id, key) => s.(callers := s.callers[id := Caller(key, Reading)])
    case ReadCache(id) =>
      (match Hit(s, s.callers[id].key)
       case Some(v) => Move(s, id, Finished(Returned(v)))
       case None => Move(s, id, Locking))
    case TryLock(id) =>
      var key := s.callers[id].key;
      if LockLive(s, key) then Move(s, id, Waiting(s.now))
      else Move(s.(locks := s.locks[key := s.now + LOCK_TTL_MS]), id, Loading(s.now))
    case LoaderEnds(id, result) =>
      var since := s.callers[id].phase.since;
      (match result
       case Some(v) => Move(s.(loaded := s.loaded + {(s.callers[id].key, v)}), id, Storing(since, v))
       case None => Move(s, id, Releasing(since, Threw)))
    case Store(id, ttlMs) =>
      var c := s.callers[id];
      Move(s.(cache := s.cache[c.key := Entry(c.phase.value, s.now + ttlMs)]), id,
           Releasing(c.phase.since, Returned(c.phase.value)))
    case Release(id) =>
      Move(s.(locks := s.locks - {s.callers[id].key}), id, Finished(s.callers[id].phase.outcome))
    case StopWaiting(id) => Move(s, id, Rereading)
    case Reread(id) =>
      (match Hit(s, s.callers[id].key)
       case Some(v) => Move(s, id, Finished(Returned(v)))
       case None => Move(s, id, LoadingFree))
    case FreeLoaderEnds(id, result) =>
      (match result
       case Some(v) => Move(s.(loaded := s.loaded + {(s.callers[id].key, v)}), id, Finished(Returned(v)))
       case None => Move(s, id, Finished(Threw)))
  }

  ghost predicate Possible(s: State, steps: seq<Step>)
    decreases |steps|
  {
    steps == [] || (Enabled(s, steps[0]) && Possible(Next(s, steps[0]), steps[1..]))
  }

  ghost function Exec(s: State, steps: seq<Step>): State
    requires Possible(s, steps)
    decreases |steps|
  {
    if steps == [] then s else Exec(Next(s, steps[0]), steps[1..])
  }

  predicate Initial(s: State) { s.cache == map[] && s.locks == map[] && s.callers == map[] && s.loaded == {} }

  // ---------------------------------------------------------------------------------------------
  // Every value comes from a loader of its own key
  // ---------------------------------------------------------------------------------------------

  predicate FromLoader(s: State, key: string, v: Value) { (key, v) in s.loaded }

  predicate CallerSourced(s: State, c: Caller) {
    match c.phase
    case Storing(_, v) => FromLoader(s, c.key, v)
    case Releasing(_, Returned(v)) => FromLoader(s, c.key, v)
    case Finished(Returned(v)) => FromLoader(s, c.key, v)
    case _ => true
  }

  ghost predicate Sourced(s: State) {
    && (forall key :: key in s.cache ==> FromLoader(s, key, s.cache[key].value))
    && (forall id :: id in s.callers ==> CallerSourced(s, s.callers[id]))
  }

  lemma StepKeepsSourced(s: State, step: Step)
    requires Sourced(s) && Enabled(s, step)
    ensures Sourced(Next(s, step))
  {
  }

  lemma {:induction false} RunKeepsSourced(s: State, steps: seq<Step>)
    requires Sourced(s) && Possible(s, steps)
    ensures Sourced(Exec(s, steps))
    decreases |steps|
  {
    if steps != [] {
      StepKeepsSourced(s, steps[0]);
      RunKeepsSourced(Next(s, steps[0]), steps[1..]);
    }
  }

  /** Whatever way a caller takes, the value it returns was returned by a loader run for its full key. */
  lemma ReturnedValuesAreLoaded(s: State, steps: seq<Step>, id: nat, v: Value)
    requires Initial(s) && Possible(s, steps)
    requires id in Exec(s, steps).callers && Exec(s, steps).callers[id].phase == Finished(Returned(v))
    ensures (Exec(s, steps).callers[id].key, v) in Exec(s, steps).loaded
  {
    RunKeepsSourced(s, steps);
    assert CallerSourced(Exec(s, steps), Exec(s, steps).callers[id]);
  }

  // ---------------------------------------------------------------------------------------------
  // What the cache is for
  // ---------------------------------------------------------------------------------------------

  function Elapsed(steps: seq<Step>): nat {
    if steps == [] then 0 else (if steps[0].Pass? then steps[0].ms else 0) + Elapsed(steps[1..])
  }

  /** An eviction of the key, or a store under it. */
  predicate Touches(s: State, step: Step, key: string) {
    step == Evict(key) || (step.Store? && step.id in s.callers && s.callers[step.id].key == key)
  }

  ghost predicate Untouched(s: State, steps: seq<Step>, key: string)
    requires Possible(s, steps)
    decreases |steps|
  {
    steps != [] ==> !Touches(s, steps[0], key) && Untouched(Next(s, steps[0]), steps[1..], key)
  }

  lemma {:induction false} EntryStays(s: State, steps: seq<Step>, key: string)
    requires Possible(s, steps) && Untouched(s, steps, key) && key in s.cache
    ensures var f := Exec(s, steps);
            key in f.cache && f.cache[key] == s.cache[key] && f.now == s.now + Elapsed(steps)
    decreases |steps|
  {
    if steps != [] {
      EntryStep(s, steps[0], key);
      hide Next, Enabled;
      EntryStays(Next(s, steps[0]), steps[1..], key);
    }
  }

  lemma EntryStep(s: State, step: Step, key: string)
    requires Enabled(s, step) && !Touches(s, step, key) && key in s.cache
    ensures var s' := Next(s, step);
            key in s'.cache && s'.cache[key] == s.cache[key] && s'.now == s.now + if step.Pass? then step.ms else 0
  {
    hide Hit, LockLive;
  }

  /**
   * A value stored under a key is what every caller that reads the key gets, before or after waiting,
   * for exactly its time to live, over every run that neither evicts it nor stores under that key
   * again; after that, and for a null, the caller goes on to load.
   */
  lemma StoredIsServed(s: State, id: nat, ttlMs: nat, steps: seq<Step>, i: nat)
    requires Enabled(s, Store(id, ttlMs))
    requires var s1 := Next(s, Store(id, ttlMs));
             && Possible(s1, steps) && Untouched(s1, steps, s.callers[id].key)
             && i in Exec(s1, steps).callers && Exec(s1, steps).callers[i].key == s.callers[id].key
    ensures var v, f := s.callers[id].phase.value, Exec(Next(s, Store(id, ttlMs)), steps);
            var served := v != Null && Elapsed(steps) < ttlMs;
            && (f.callers[i].phase.Reading? ==>
                  Next(f, ReadCache(i)).callers[i].phase == if served then Finished(Returned(v)) else Locking)
            && (f.callers[i].phase.Rereading? ==>
                  Next(f, Reread(i)).callers[i].phase == if served then Finished(Returned(v)) else LoadingFree)
  {
    var key, s1 := s.callers[id].key, Next(s, Store(id, ttlMs));
    assert s1.now == s.now && key in s1.cache && s1.cache[key] == Entry(s.callers[id].phase.value, s.now + ttlMs);
    EntryStays(s1, steps, key);
  }

  /** After an eviction a reader of the key goes on to load. */
  lemma EvictedIsMissed(s: State, key: string, i: nat)
    requires i in s.callers && s.callers[i].key == key
    ensures Enabled(s, Evict(key))
    ensures var e := Next(s, Evict(key));
            && (s.callers[i].phase.Reading? ==> Next(e, ReadCache(i)).callers[i].phase == Locking)
            && (s.callers[i].phase.Rereading? ==> Next(e, Reread(i)).callers[i].phase == LoadingFree)
  {
  }

  /**
   * A caller that finds the lock held waits, and reads again only once the lock is gone or expired or
   * 5 s have passed; one that finds it free loads under it.
   */
  lemma WaitsForLock(s: State, id: nat)
    requires Enabled(s, TryLock(id))
    ensures var key, t := s.callers[id].key, Next(s, TryLock(id));
            if key in s.locks && s.now < s.locks[key] then t.callers[id].phase == Waiting(s.now) && t.locks == s.locks
            else t.callers[id].phase == Loading(s.now) && key in t.locks && t.locks[key] == s.now + 30_000
  {
  }

  lemma WaitEndsIff(s: State, id: nat)
    requires id in s.callers && s.callers[id].phase.Waiting?
    ensures Enabled(s, StopWaiting(id)) <==>
              var key := s.callers[id].key;
              key !in s.locks || s.locks[key] <= s.now || s.callers[id].phase.from + 5_000 <= s.now
  {
  }

  /** The caller has its loader's result and is on its way out with it. */
  predicate Bound(c: Caller, result: Option<Value>) {
    match c.phase
    case Storing(_, v) => result == Some(v)
    case Releasing(_, outcome) => outcome == OutcomeOf(result)
    case Finished(outcome) => outcome == OutcomeOf(result)
    case _ => false
  }

  function OutcomeOf(result: Option<Value>): Outcome {
    match result
    case Some(v) => Returned(v)
    case None => Threw
  }

  lemma StepKeepsBound(s: State, step: Step, id: nat, result: Option<Value>)
    requires Enabled(s, step) && id in s.callers && Bound(s.callers[id], result)
    ensures id in Next(s, step).callers && Bound(Next(s, step).callers[id], result)
  {
    hide Hit, LockLive;
  }

  lemma {:induction false} RunKeepsBound(s: State, steps: seq<Step>, id: nat, result: Option<Value>)
    requires Possible(s, steps) && id in s.callers && Bound(s.callers[id], result)
    ensures id in Exec(s, steps).callers && Bound(Exec(s, steps).callers[id], result)
    decreases |steps|
  {
    if steps != [] {
      StepKeepsBound(s, steps[0], id, result);
      hide Next, Enabled, Bound;
      RunKeepsBound(Next(s, steps[0]), steps[1..], id, result);
    }
  }

  /** A caller whose loader ran, under the lock or not, ends with that loader's own result or failure. */
  lemma OwnResultReturned(s: State, step: Step, id: nat, result: Option<Value>, steps: seq<Step>)
    requires Enabled(s, step) && (step == LoaderEnds(id, result) || step == FreeLoaderEnds(id, result))
    requires Possible(Next(s, step), steps)
    ensures var f := Exec(Next(s, step), steps);
            id in f.callers && (f.callers[id].phase.Finished? ==> f.callers[id].phase.outcome == OutcomeOf(result))
  {
    RunKeepsBound(Next(s, step), steps, id, result);
  }

  // ---------------------------------------------------------------------------------------------
  // Mutual exclusion of lock-protected loaders
  // ---------------------------------------------------------------------------------------------

  /** The caller took the lock and has not released it yet. */
  predicate Holds(c: Caller) { c.phase.Loading? || c.phase.Storing? || c.phase.Releasing? }

  /** Every caller past its lock is still within the lock's 30 s. */
  ghost predicate Timely(s: State) {
    forall id :: id in s.callers && Holds(s.callers[id]) ==> s.now < s.callers[id].phase.since + 30_000
  }

  ghost predicate TimelyRun(s: State, steps: seq<Step>)
    requires Possible(s, steps)
    decreases |steps|
  {
    Timely(s) && (steps != [] ==> TimelyRun(Next(s, steps[0]), steps[1..]))
  }

  ghost predicate Exclusive(s: State) {
    && (forall id :: id in s.callers && Holds(s.callers[id]) ==>
          && s.callers[id].key in s.locks
          && s.locks[s.callers[id].key] == s.callers[id].phase.since + LOCK_TTL_MS)
    && (forall i, j :: i in s.callers && j in s.callers && Holds(s.callers[i]) && Holds(s.callers[j]) ==>
          s.callers[i].key == s.callers[j].key ==> i == j)
  }

  /** A try for a lock whose holder has already outstayed its 30 s. */
  ghost predicate LateTry(s: State, step: Step) {
    step.TryLock? && step.id in s.callers && exists i :: Outstayed(s, i, s.callers[step.id].key)
  }

  ghost predicate Outstayed(s: State, i: nat, key: string) {
    && i in s.callers && Holds(s.callers[i]) && s.callers[i].key == key
    && s.callers[i].phase.since + 30_000 <= s.now
  }

  lemma LockKeepsExclusive(s: State, id: nat)
    requires Exclusive(s) && Enabled(s, TryLock(id)) && !LateTry(s, TryLock(id)) && !LockLive(s, s.callers[id].key)
    ensures Exclusive(Next(s, TryLock(id)))
  {
    var key := s.callers[id].key;
    forall i | i in s.callers && Holds(s.callers[i]) ensures s.callers[i].key != key {
      assert !Outstayed(s, i, key);
    }
  }

  lemma ReleaseKeepsExclusive(s: State, id: nat)
    requires Exclusive(s) && Enabled(s, Release(id))
    ensures Exclusive(Next(s, Release(id)))
  {
    var key := s.callers[id].key;
    forall i | i in s.callers && Holds(s.callers[i]) && i != id ensures s.callers[i].key != key {
      assert Holds(s.callers[id]);
    }
  }

  /** Moving one caller on, with no lock touched, unless it newly claims to hold one. */
  lemma MoveKeepsExclusive(s: State, s': State, id: nat, c: Caller)
    requires Exclusive(s) && s'.locks == s.locks && s'.callers == s.callers[id := c]
    requires Holds(c) ==> id in s.callers && Holds(s.callers[id])
    requires Holds(c) ==> s.callers[id].key == c.key && s.callers[id].phase.since == c.phase.since
    ensures Exclusive(s')
  {
  }

  lemma StepKeepsExclusive(s: State, step: Step)
    requires Exclusive(s) && Enabled(s, step) && !LateTry(s, step)
    ensures Exclusive(Next(s, step))
  {
    match step
    case Pass(_) =>
    case Evict(_) =>
    case TryLock(id) =>
      if LockLive(s, s.callers[id].key) {
        hide Exclusive, LateTry;
        MoveKeepsExclusive(s, Next(s, step), id, Next(s, step).callers[id]);
      } else {
        hide Exclusive, LateTry, Next;
        LockKeepsExclusive(s, id);
      }
    case Release(id) =>
      hide Exclusive, LateTry, Next;
      ReleaseKeepsExclusive(s, id);
    case _ =>
      hide Exclusive, LateTry, Hit;
      MoveKeepsExclusive(s, Next(s, step), step.id, Next(s, step).callers[step.id]);
  }

  /** No two callers hold the lock of one key. */
  ghost predicate OneHolder(s: State) {
    forall i, j :: i in s.callers && j in s.callers && Holds(s.callers[i]) && Holds(s.callers[j]) ==>
      s.callers[i].key == s.callers[j].key ==> i == j
  }

  ghost predicate AlwaysOneHolder(s: State, steps: seq<Step>)
    requires Possible(s, steps)
    decreases |steps|
  {
    OneHolder(s) && (steps != [] ==> AlwaysOneHolder(Next(s, steps[0]), steps[1..]))
  }

  ghost predicate NoLateTry(s: State, steps: seq<Step>)
    requires Possible(s, steps)
    decreases |steps|
  {
    steps != [] ==> !LateTry(s, steps[0]) && NoLateTry(Next(s, steps[0]), steps[1..])
  }

  /** A late try always succeeds, and then there are two holders. */
  lemma LateTryBreaks(s: State, step: Step)
    requires Exclusive(s) && Enabled(s, step) && LateTry(s, step)
    ensures !OneHolder(Next(s, step))
  {
    var id, s' := step.id, Next(s, step);
    var key := s.callers[id].key;
    var i :| Outstayed(s, i, key);
    assert i != id && s'.callers[i] == s.callers[i];
    assert Holds(s'.callers[id]) && s'.callers[id].key == key;
  }

  lemma {:induction false} OneHolderIff(s: State, steps: seq<Step>)
    requires Exclusive(s) && Possible(s, steps)
    ensures AlwaysOneHolder(s, steps) <==> NoLateTry(s, steps)
    decreases |steps|
  {
    assert OneHolder(s);
    hide Exclusive, OneHolder, LateTry, Next, Enabled;
    if steps != [] {
      if LateTry(s, steps[0]) {
        LateTryBreaks(s, steps[0]);
        FirstState(Next(s, steps[0]), steps[1..]);
      } else {
        StepKeepsExclusive(s, steps[0]);
        OneHolderIff(Next(s, steps[0]), steps[1..]);
      }
    }
  }

  lemma FirstState(s: State, steps: seq<Step>)
    requires Possible(s, steps)
    ensures AlwaysOneHolder(s, steps) ==> OneHolder(s)
  {
  }

  /**
   * Exactly when the lock excludes: over every run, at most one caller holds the lock of each key in
   * every state if and only if no caller ever tries for a key whose holder has held it for 30 s.
   */
  lemma LoadersExcludeIff(s: State, steps: seq<Step>)
    requires Initial(s) && Possible(s, steps)
    ensures AlwaysOneHolder(s, steps) <==> NoLateTry(s, steps)
  {
    OneHolderIff(s, steps);
  }

  lemma {:induction false} TimelyIsPunctual(s: State, steps: seq<Step>)
    requires Possible(s, steps) && TimelyRun(s, steps)
    ensures NoLateTry(s, steps)
    decreases |steps|
  {
    if steps != [] {
      TimelyIsPunctual(Next(s, steps[0]), steps[1..]);
    }
  }

  lemma {:induction false} LastState(s: State, steps: seq<Step>)
    requires Possible(s, steps) && AlwaysOneHolder(s, steps)
    ensures OneHolder(Exec(s, steps))
    decreases |steps|
  {
    hide OneHolder, Next, Enabled;
    if steps != [] {
      LastState(Next(s, steps[0]), steps[1..]);
    }
  }

  /** If throughout the run each holder releases within 30 s, no two callers load one key under the lock. */
  lemma LoadersExclude(s: State, steps: seq<Step>, i: nat, j: nat)
    requires Initial(s) && Possible(s, steps) && TimelyRun(s, steps)
    requires var f := Exec(s, steps);
             && i in f.callers && j in f.callers && f.callers[i].key == f.callers[j].key
             && Holds(f.callers[i]) && Holds(f.callers[j])
    ensures i == j
  {
    TimelyIsPunctual(s, steps);
    LoadersExcludeIff(s, steps);
    LastState(s, steps);
  }

  // ---------------------------------------------------------------------------------------------
  // Why the hypothesis must cover the whole run: a late release frees somebody else's lock
  // ---------------------------------------------------------------------------------------------

  lemma ExecCons(s: State, step: Step, steps: seq<Step>)
    requires Enabled(s, step) && Possible(Next(s, step), steps)
    ensures Possible(s, [step] + steps) && Exec(s, [step] + steps) == Exec(Next(s, step), steps)
  {
    assert ([step] + steps)[1..] == steps;
  }

  /** A call that misses and takes the free lock. */
  function EnterSteps(id: nat): seq<Step> { [Call(id, "k")] + ([ReadCache(id)] + ([TryLock(id)] + [])) }

  lemma EnterRun(s: State, id: nat)
    requires id !in s.callers && "k" !in s.cache && !LockLive(s, "k")
    ensures Possible(s, EnterSteps(id))
    ensures Exec(s, EnterSteps(id))
         == s.(callers := s.callers[id := Caller("k", Loading(s.now))], locks := s.locks["k" := s.now + LOCK_TTL_MS])
  {
    var s1 := Next(s, Call(id, "k"));
    var s2 := Next(s1, ReadCache(id));
    var s3 := Next(s2, TryLock(id));
    ExecCons(s2, TryLock(id), []);
    ExecCons(s1, ReadCache(id), [TryLock(id)] + []);
    ExecCons(s, Call(id, "k"), [ReadCache(id)] + ([TryLock(id)] + []));
    assert s3.callers == s.callers[id := Caller("k", Loading(s.now))];
  }

  lemma {:induction false} ExecConcat(s: State, a: seq<Step>, b: seq<Step>)
    requires Possible(s, a) && Possible(Exec(s, a), b)
    ensures Possible(s, a + b) && Exec(s, a + b) == Exec(Exec(s, a), b)
    decreases |a|
  {
    if a == [] {
      assert a + b == b;
    } else {
      ExecConcat(Next(s, a[0]), a[1..], b);
      assert (a + b)[1..] == a[1..] + b;
    }
  }

  function LeaveSteps(id: nat): seq<Step> { [LoaderEnds(id, None)] + ([Release(id)] + []) }

  lemma LeaveRun(s: State, id: nat)
    requires id in s.callers && s.callers[id].key == "k" && s.callers[id].phase.Loading?
    ensures Possible(s, LeaveSteps(id))
    ensures Exec(s, LeaveSteps(id))
         == s.(callers := s.callers[id := Caller("k", Finished(Threw))], locks := s.locks - {"k"})
  {
    var s1 := Next(s, LoaderEnds(id, None));
    var s2 := Next(s1, Release(id));
    ExecCons(s1, Release(id), []);
    ExecCons(s, LoaderEnds(id, None), [Release(id)] + []);
    assert s2.callers == s.callers[id := Caller("k", Finished(Threw))];
  }

  lemma PassRun(s: State, ms: nat)
    ensures Possible(s, [Pass(ms)] + []) && Exec(s, [Pass(ms)] + []) == s.(now := s.now + ms)
  {
    ExecCons(s, Pass(ms), []);
  }

  const START := State(0, map[], map[], map[], {})
  const LATE_RELEASE: seq<Step> :=
    EnterSteps(1) + (([Pass(LOCK_TTL_MS)] + []) + (EnterSteps(2) + (LeaveSteps(1) + EnterSteps(3))))

  /**
   * The untokened lock differs from the indexer's here: one caller overstaying its 30 s lets two
   * later callers load the same key together although both are well within their own 30 s.
   */
  lemma LateReleaseFreesAnotherLock()
    ensures Initial(START) && Possible(START, LATE_RELEASE)
    ensures var f := Exec(START, LATE_RELEASE);
            && 2 in f.callers && 3 in f.callers
            && f.callers[2] == Caller("k", Loading(f.now)) && f.callers[3] == Caller("k", Loading(f.now))
  {
    hide Next, Possible, Exec, EnterSteps, LeaveSteps;
    EnterRun(START, 1);
    var s1 := Exec(START, EnterSteps(1));
    PassRun(s1, LOCK_TTL_MS);
    var s2 := Exec(s1, [Pass(LOCK_TTL_MS)] + []);
    EnterRun(s2, 2);
    var s3 := Exec(s2, EnterSteps(2));
    LeaveRun(s3, 1);
    var s4 := Exec(s3, LeaveSteps(1));
    EnterRun(s4, 3);
    ExecConcat(s3, LeaveSteps(1), EnterSteps(3));
    ExecConcat(s2, EnterSteps(2), LeaveSteps(1) + EnterSteps(3));
    ExecConcat(s1, [Pass(LOCK_TTL_MS)] + [], EnterSteps(2) + (LeaveSteps(1) + EnterSteps(3)));
    ExecConcat(START, EnterSteps(1), ([Pass(LOCK_TTL_MS)] + []) + (EnterSteps(2) + (LeaveSteps(1) + EnterSteps(3))));
  }
}
