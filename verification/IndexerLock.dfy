/**
 * The indexer's distributed lock: one Redis key taken with "set if absent, expire in 30 s" and
 * released by a script that deletes it only while it still holds the caller's token.
 *
 * Every command is one atomic step and time never runs backwards.
 */
module IndexerLock {
  import opened Options

  const LOCK_TTL_MS: nat := 30_000

  type Token = nat

  datatype Lease = Lease(token: Token, expiresAt: int)

  /** The key as Redis answers for it: an expired key is absent. */
  function Read(entry: Option<Lease>, now: int): Option<Lease> {
    if entry.Some? && now < entry.value.expiresAt then entry else None
  }

  function SetIfAbsent(entry: Option<Lease>, token: Token, now: int): Option<Lease> {
    if Read(entry, now).Some? then entry else Some(Lease(token, now + LOCK_TTL_MS))
  }

  function ReleaseIfOwned(entry: Option<Lease>, token: Token, now: int): Option<Lease> {
    if Read(entry, now).Some? && entry.value.token == token then None else entry
  }

  /** The lock key in the shared store. */
  class LockKey {
    var entry: Option<Lease>

    constructor ()
      ensures entry == None
    {
      entry := None;
    }

    method Acquire(token: Token, now: int) returns (acquired: bool)
      modifies this
      ensures acquired <==> Read(old(entry), now).None?
      ensures acquired ==> Read(entry, now) == Some(Lease(token, now + 30_000))
      ensures entry == SetIfAbsent(old(entry), token, now)
    {
      acquired := Read(entry, now).None?;
      if acquired {
        entry := Some(Lease(token, now + LOCK_TTL_MS));
      }
    }

    /** The release script: a lock held under another token is left exactly as it is. */
    method Release(token: Token, now: int) returns (deleted: bool)
      modifies this
      ensures entry == ReleaseIfOwned(old(entry), token, now)
      ensures Read(old(entry), now).Some? && old(entry).value.token != token ==> !deleted && entry == old(entry)
      ensures deleted <==> Read(old(entry), now).Some? && Read(entry, now).None?
    {
      var current := Read(entry, now);
      deleted := current.Some? && current.value.token == token;
      if deleted {
        entry := None;
      }
    }
  }

  // ---------------------------------------------------------------------------------------------
  // Any number of worker ticks
  // ---------------------------------------------------------------------------------------------

  /** `inside` maps the token of each tick now running to the moment it acquired the lock. */
  datatype State = State(now: int, entry: Option<Lease>, inside: map<Token, int>, used: set<Token>)

  datatype Step = Pass(ms: nat) | Enter(token: Token) | Leave(token: Token)

  /** Each tick draws a token never drawn before. */
  predicate Enabled(s: State, step: Step) {
    match step
    case Pass(_) => true
    case Enter(token) => token !in s.used
    case Leave(token) => token in s.inside
  }

  function Next(s: State, step: Step): State
    requires Enabled(s, step)
  {
    match step
    case Pass(ms) => s.(now := s.now + ms)
    case Enter(token) =>
      if Read(s.entry, s.now).Some? then s.(used := s.used + {token})
      else s.(entry := SetIfAbsent(s.entry, token, s.now), inside := s.inside[token := s.now], used := s.used + {token})
    case Leave(token) => s.(entry := ReleaseIfOwned(s.entry, token, s.now), inside := s.inside - {token})
  }

  ghost predicate Possible(s: State, steps: seq<Step>)
    decreases |steps|
  {
    steps == [] || (Enabled(s, steps[0]) && Possible(Next(s, steps[0]), steps[1..]))
  }

  ghost function Exec(s: State, steps: seq<Step>): State
    requires Possible(s, steps)
    decreases |steps|
  {
    if steps == [] then s else Exec(Next(s, steps[0]), steps[1..])
  }

  ghost predicate Initial(s: State) { s.entry.None? && s.inside == map[] }

  /** A tick inside owns the key, or has outstayed its lease; a later tick came only after that. */
  ghost predicate Inv(s: State) {
    && s.inside.Keys <= s.used
    && (s.entry.Some? ==> s.entry.value.token in s.used)
    && (s.entry.Some? && s.entry.value.token in s.inside ==>
          s.entry.value.expiresAt == s.inside[s.entry.value.token] + LOCK_TTL_MS)
    && (Read(s.entry, s.now).Some? ==> s.entry.value.token in s.inside)
    && (forall t :: t in s.inside ==> s.inside[t] <= s.now)
    && (forall t :: t in s.inside ==>
          s.entry == Some(Lease(t, s.inside[t] + LOCK_TTL_MS)) || s.inside[t] + LOCK_TTL_MS <= s.now)
    && (forall t, u :: t in s.inside && u in s.inside && t != u ==>
          s.inside[t] + LOCK_TTL_MS <= s.inside[u] || s.inside[u] + LOCK_TTL_MS <= s.inside[t])
  }

  lemma EnterKeepsInv(s: State, token: Token)
    requires Inv(s) && token !in s.used
    ensures Inv(Next(s, Enter(token)))
  {
    var s' := Next(s, Enter(token));
    assert s.inside.Keys <= s'.used;
    if Read(s.entry, s.now).None? {
      assert s'.inside == s.inside[token := s.now];
      assert forall t :: t in s.inside ==> s.inside[t] + LOCK_TTL_MS <= s.now;
    }
  }

  lemma LeaveKeepsInv(s: State, token: Token)
    requires Inv(s) && token in s.inside
    ensures Inv(Next(s, Leave(token)))
  {
    var s' := Next(s, Leave(token));
    assert s'.inside == s.inside - {token};
    assert forall t :: t in s'.inside ==> t in s.inside && s'.inside[t] == s.inside[t];
  }

  lemma StepKeepsInv(s: State, step: Step)
    requires Inv(s) && Enabled(s, step)
    ensures Inv(Next(s, step))
  {
    match step
    case Pass(_) =>
    case Enter(token) =>
      hide Inv, Next;
      EnterKeepsInv(s, token);
    case Leave(token) =>
      hide Inv, Next;
      LeaveKeepsInv(s, token);
  }

  lemma {:induction false} RunKeepsInv(s: State, steps: seq<Step>)
    requires Inv(s) && Possible(s, steps)
    ensures Inv(Exec(s, steps))
    decreases |steps|
  {
    if steps != [] {
      StepKeepsInv(s, steps[0]);
      RunKeepsInv(Next(s, steps[0]), steps[1..]);
    }
  }

  /**
   * Over every run, with no assumption on how long ticks take: whenever two ticks are inside at
   * once, the earlier one has outstayed its 30 s lease, and had already when the later one entered.
   */
  lemma OverlapNeedsOverstay(s: State, steps: seq<Step>, t: Token, u: Token)
    requires Initial(s) && Possible(s, steps)
    requires var f := Exec(s, steps); t in f.inside && u in f.inside && t != u && f.inside[t] <= f.inside[u]
    ensures var f := Exec(s, steps); f.inside[t] + 30_000 <= f.inside[u] <= f.now
  {
    RunKeepsInv(s, steps);
  }

  ghost predicate OneInside(s: State) { forall t, u :: t in s.inside && u in s.inside ==> t == u }

  ghost predicate AlwaysOneInside(s: State, steps: seq<Step>)
    requires Possible(s, steps)
    decreases |steps|
  {
    OneInside(s) && (steps != [] ==> AlwaysOneInside(Next(s, steps[0]), steps[1..]))
  }

  /** A tick that begins while another has held the lock for 30 s or more. */
  ghost predicate LateEnter(s: State, step: Step) {
    step.Enter? && exists t :: t in s.inside && s.inside[t] + 30_000 <= s.now
  }

  ghost predicate NoLateEnter(s: State, steps: seq<Step>)
    requires Possible(s, steps)
    decreases |steps|
  {
    steps != [] ==> !LateEnter(s, steps[0]) && NoLateEnter(Next(s, steps[0]), steps[1..])
  }

  lemma OneInsideStep(s: State, step: Step)
    requires Inv(s) && OneInside(s) && Enabled(s, step)
    ensures OneInside(Next(s, step)) <==> !LateEnter(s, step)
  {
    if LateEnter(s, step) {
      var t :| t in s.inside && s.inside[t] + LOCK_TTL_MS <= s.now;
      assert t != step.token;
      assert t in Next(s, step).inside && step.token in Next(s, step).inside;
    }
  }

  lemma {:induction false} OneInsideIff(s: State, steps: seq<Step>)
    requires Inv(s) && OneInside(s) && Possible(s, steps)
    ensures AlwaysOneInside(s, steps) <==> NoLateEnter(s, steps)
    decreases |steps|
  {
    hide Inv, OneInside, LateEnter, Next, Enabled;
    if steps != [] {
      OneInsideStep(s, steps[0]);
      StepKeepsInv(s, steps[0]);
      if LateEnter(s, steps[0]) {
        assert !AlwaysOneInside(Next(s, steps[0]), steps[1..]);
      } else {
        OneInsideIff(Next(s, steps[0]), steps[1..]);
      }
    }
  }

  /**
   * Exactly when the lock excludes: at most one tick is inside in every state of a run if and only if
   * no tick begins while another has been inside for its whole lease.
   */
  lemma TicksExcludeIff(s: State, steps: seq<Step>)
    requires Initial(s) && Possible(s, steps)
    ensures AlwaysOneInside(s, steps) <==> NoLateEnter(s, steps)
  {
    OneInsideIff(s, steps);
  }

  lemma ExecCons(s: State, step: Step, steps: seq<Step>)
    requires Enabled(s, step) && Possible(Next(s, step), steps)
    ensures Possible(s, [step] + steps) && Exec(s, [step] + steps) == Exec(Next(s, step), steps)
  {
    assert ([step] + steps)[1..] == steps;
  }

  const LATE_ENTER: seq<Step> := [Enter(1)] + ([Pass(30_000)] + ([Enter(2)] + []))

  /** A tick that outstays its 30 s by nothing at all lets a second one in beside it. */
  lemma LateTickOverlaps()
    ensures var s := State(0, None, map[], {});
            Initial(s) && Possible(s, LATE_ENTER) && 1 in Exec(s, LATE_ENTER).inside && 2 in Exec(s, LATE_ENTER).inside
  {
    var s := State(0, None, map[], {});
    var s1 := Next(s, Enter(1));
    assert s1.entry == Some(Lease(1, 30_000)) && 1 in s1.inside;
    var s2 := Next(s1, Pass(30_000));
    var s3 := Next(s2, Enter(2));
    assert 1 in s3.inside && 2 in s3.inside;
    ExecCons(s2, Enter(2), []);
    ExecCons(s1, Pass(30_000), [Enter(2)] + []);
    ExecCons(s, Enter(1), [Pass(30_000)] + ([Enter(2)] + []));
  }

  /** If every tick still inside is within its lease, at most one is inside. */
  lemma MutualExclusion(s: State, steps: seq<Step>, t: Token, u: Token)
    requires Initial(s) && Possible(s, steps)
    requires var f := Exec(s, steps);
             t in f.inside && u in f.inside && forall x :: x in f.inside ==> f.now < f.inside[x] + 30_000
    ensures t == u
  {
    RunKeepsInv(s, steps);
  }

  /** A tick within its lease holds the key: leaving frees it, and no other tick's leaving touches it. */
  lemma OnlyOwnerFrees(s: State, steps: seq<Step>, t: Token, u: Token)
    requires Initial(s) && Possible(s, steps)
    requires var f := Exec(s, steps); t in f.inside && f.now < f.inside[t] + 30_000 && u in f.inside
    ensures var f := Exec(s, steps);
            Read(Next(f, Leave(u)).entry, f.now).None? <==> u == t
  {
    RunKeepsInv(s, steps);
  }
}
