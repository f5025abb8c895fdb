/**
 * Refresh-token rotation. Records are kept under the hash of the token; the hash is taken to be
 * collision free, so a token stands for its own key. Calls are serialised and tokens are fresh.
 */
module RefreshTokens {
  import opened Options

  type Token = string
  type Wallet = string

  const ROTATED_TTL_MS: nat := 60_000

  datatype Record = Record(wallet: Wallet, rotated: bool, expiresAt: int)

  type Store = map<Token, Record>

  /** The record as Redis answers for it. */
  function Get(store: Store, t: Token, now: int): Option<Record> {
    if t in store && now < store[t].expiresAt then Some(store[t]) else None
  }

  datatype Outcome = Accepted(wallet: Wallet) | NotFound | Reused(wallet: Wallet)

  function Present(store: Store, t: Token, now: int): Outcome {
    match Get(store, t, now)
    case None => NotFound
    case Some(r) => if r.rotated then Reused(r.wallet) else Accepted(r.wallet)
  }

  /** Everything except the live records of one wallet. */
  function Swept(store: Store, wallet: Wallet, now: int): Store {
    map t | t in store && !(now < store[t].expiresAt && store[t].wallet == wallet) :: store[t]
  }

  function Consumed(store: Store, t: Token, now: int): Store {
    match Present(store, t, now)
    case NotFound => store
    case Reused(w) => Swept(store, w, now)
    case Accepted(w) => store[t := Record(w, true, now + ROTATED_TTL_MS)]
  }

  // ---------------------------------------------------------------------------------------------
  // The service
  // ---------------------------------------------------------------------------------------------

  class Service {
    var store: Store
    const ttlMs: nat

    constructor (ttlMs: nat)
      ensures store == map[] && this.ttlMs == ttlMs
    {
      store, this.ttlMs := map[], ttlMs;
    }

    /** The token is acceptable for the configured life from now on; no other token is affected. */
    method Issue(wallet: Wallet, raw: Token, now: int)
      modifies this
      ensures store == old(store)[raw := Record(wallet, false, now + ttlMs)]
      ensures forall at :: Present(store, raw, at) == if at < now + ttlMs then Accepted(wallet) else NotFound
      ensures forall t, at :: t != raw ==> Present(store, t, at) == Present(old(store), t, at)
    {
      store := store[raw := Record(wallet, false, now + ttlMs)];
    }

    /** Accepts a live unrotated token once; a rotated one revokes every session of its wallet. */
    method Consume(raw: Token, now: int) returns (r: Result<Wallet>)
      modifies this
      ensures store == Consumed(old(store), raw, now)
      ensures r.Ok? <==> Present(old(store), raw, now).Accepted?
      ensures r.Ok? ==> Present(old(store), raw, now) == Accepted(r.value)
    {
      var record := Get(store, raw, now);
      if record.None? {
        return Err("Invalid or expired refresh token");
      }
      if record.value.rotated {
        RevokeAllForWallet(record.value.wallet, now);
        return Err("Refresh token reuse detected");
      }
      store := store[raw := Record(record.value.wallet, true, now + ROTATED_TTL_MS)];
      return Ok(record.value.wallet);
    }

    /** The token is unknown at every later time; no other token is affected. */
    method Revoke(raw: Token)
      modifies this
      ensures store == old(store) - {raw}
      ensures forall at :: Present(store, raw, at) == NotFound
      ensures forall t, at :: t != raw ==> Present(store, t, at) == Present(old(store), t, at)
    {
      store := store - {raw};
    }

    /** The scan visits every stored key once and deletes those whose record names the wallet. */
    method RevokeAllForWallet(wallet: Wallet, now: int)
      modifies this
      ensures store == Swept(old(store), wallet, now)
    {
      var todo := store.Keys;
      while todo != {}
        invariant todo <= old(store).Keys
        invariant store == map t | t in old(store)
                    && (t in todo || t in Swept(old(store), wallet, now)) :: old(store)[t]
        decreases todo
      {
        var key :| key in todo;
        todo := todo - {key};
        var value := Get(store, key, now);
        if value.Some? && value.value.wallet == wallet {
          store := store - {key};
        }
      }
    }
  }

  // ---------------------------------------------------------------------------------------------
  // Runs
  // ---------------------------------------------------------------------------------------------

  /** `issued`, `acceptedAt` and `logins` are history. */
  datatype State = State(
    now: int,
    store: Store,
    issued: map<Token, Wallet>,
    acceptedAt: map<Token, int>,
    logins: map<Wallet, nat>)

  datatype Step =
    | Pass(ms: nat)
    | Login(wallet: Wallet, token: Token)
    | Refresh(presented: Token, issued: Token)
    | Logout(token: Token)

  predicate Enabled(s: State, step: Step) {
    match step
    case Login(_, t) => t !in s.issued
    case Refresh(_, t) => t !in s.issued
    case _ => true
  }

  function Logins(s: State, w: Wallet): nat { if w in s.logins then s.logins[w] else 0 }

  function Next(s: State, step: Step, ttlMs: nat): State
    requires Enabled(s, step)
  {
    match step
    case Pass(ms) => s.(now := s.now + ms)
    case Login(w, t) =>
      s.(store := s.store[t := Record(w, false, s.now + ttlMs)],
      issued := s.issued[t := w],
      logins := s.logins[w := Logins(s, w) + 1])
    case Refresh(t, t') =>
      var store := Consumed(s.store, t, s.now);
      (match Present(s.store, t, s.now)
       case Accepted(w) =>
         s.(store := store[t' := Record(w, false, s.now + ttlMs)],
         issued := s.issued[t' := w],
         acceptedAt := s.acceptedAt[t := s.now])
       case _ => s.(store := store))
    case Logout(t) => s.(store := s.store - {t})
  }

  ghost predicate Possible(s: State, steps: seq<Step>, ttlMs: nat)
    decreases |steps|
  {
    steps == [] || (Enabled(s, steps[0]) && Possible(Next(s, steps[0], ttlMs), steps[1..], ttlMs))
  }

  ghost function Exec(s: State, steps: seq<Step>, ttlMs: nat): State
    requires Possible(s, steps, ttlMs)
    decreases |steps|
  {
    if steps == [] then s else Exec(Next(s, steps[0], ttlMs), steps[1..], ttlMs)
  }

  predicate Initial(s: State) { s.store == map[] && s.issued == map[] && s.acceptedAt == map[] && s.logins == map[] }

  /** The unrotated records of a wallet. */
  function Fresh(store: Store, w: Wallet): set<Token> {
    set t | t in store && store[t].wallet == w && !store[t].rotated
  }

  ghost predicate RecordsOk(s: State) {
    && (forall t :: t in s.store ==> t in s.issued && s.store[t].wallet == s.issued[t])
    && (forall t :: t in s.acceptedAt ==> t in s.issued && s.acceptedAt[t] <= s.now)
    && (forall t :: t in s.store && s.store[t].rotated ==>
          t in s.acceptedAt && s.store[t].expiresAt == s.acceptedAt[t] + ROTATED_TTL_MS)
    && (forall t :: t in s.acceptedAt && t in s.store ==> s.store[t].rotated)
  }

  ghost predicate Inv(s: State) {
    RecordsOk(s) && forall w :: |Fresh(s.store, w)| <= Logins(s, w)
  }

  lemma StepKeepsRecords(s: State, step: Step, ttlMs: nat)
    requires RecordsOk(s) && Enabled(s, step)
    ensures RecordsOk(Next(s, step, ttlMs))
  {
  }

  lemma Smaller(a: set<Token>, b: set<Token>)
    requires a <= b
    ensures |a| <= |b|
  {
    assert b == a + (b - a);
  }

  lemma LoginCount(store: Store, t: Token, r: Record, w: Wallet)
    ensures |Fresh(store[t := r], w)| <= |Fresh(store, w)| + if r.wallet == w then 1 else 0
  {
    Smaller(Fresh(store[t := r], w), if r.wallet == w then Fresh(store, w) + {t} else Fresh(store, w));
  }

  /** Rotation trades one unrotated record for another. */
  lemma RotationCount(store: Store, t: Token, old_: Record, t': Token, new_: Record, w: Wallet)
    requires t in store && !store[t].rotated && old_.rotated && old_.wallet == store[t].wallet == new_.wallet
               && t' !in store
    ensures |Fresh(store[t := old_][t' := new_], w)| <= |Fresh(store, w)|
  {
    var a, b := Fresh(store, w), Fresh(store[t := old_][t' := new_], w);
    if new_.wallet == w {
      assert t in a;
      Smaller(b, a - {t} + {t'});
    } else {
      Smaller(b, a);
    }
  }

  lemma SubstoreCount(store: Store, store': Store, w: Wallet)
    requires forall t :: t in store' ==> t in store && store'[t] == store[t]
    ensures |Fresh(store', w)| <= |Fresh(store, w)|
  {
    Smaller(Fresh(store', w), Fresh(store, w));
  }

  lemma StepKeepsCount(s: State, step: Step, ttlMs: nat, w: Wallet)
    requires RecordsOk(s) && Enabled(s, step) && |Fresh(s.store, w)| <= Logins(s, w)
    ensures |Fresh(Next(s, step, ttlMs).store, w)| <= Logins(Next(s, step, ttlMs), w)
  {
    hide Fresh;
    match step
    case Pass(_) =>
    case Login(v, t) => LoginCount(s.store, t, Record(v, false, s.now + ttlMs), w);
    case Refresh(t, t') =>
      var o := Present(s.store, t, s.now);
      if o.Accepted? {
        RotationCount(s.store, t, Record(o.wallet, true, s.now + ROTATED_TTL_MS),
                      t', Record(o.wallet, false, s.now + ttlMs), w);
      } else {
        SubstoreCount(s.store, Consumed(s.store, t, s.now), w);
      }
    case Logout(t) => SubstoreCount(s.store, s.store - {t}, w);
  }

  lemma StepKeepsInv(s: State, step: Step, ttlMs: nat)
    requires Inv(s) && Enabled(s, step)
    ensures Inv(Next(s, step, ttlMs))
  {
    StepKeepsRecords(s, step, ttlMs);
    forall w ensures |Fresh(Next(s, step, ttlMs).store, w)| <= Logins(Next(s, step, ttlMs), w) {
      StepKeepsCount(s, step, ttlMs, w);
    }
  }

  lemma {:induction false} RunKeepsInv(s: State, steps: seq<Step>, ttlMs: nat)
    requires Inv(s) && Possible(s, steps, ttlMs)
    ensures Inv(Exec(s, steps, ttlMs))
    decreases |steps|
  {
    if steps != [] {
      StepKeepsInv(s, steps[0], ttlMs);
      RunKeepsInv(Next(s, steps[0], ttlMs), steps[1..], ttlMs);
    }
  }

  /** The tokens a refresh would accept for a wallet now. */
  function Acceptable(s: State, w: Wallet): set<Token> {
    set t | t in s.store && Present(s.store, t, s.now) == Accepted(w)
  }

  /** The live unrotated tokens of a wallet never exceed its successful logins. */
  lemma LiveTokensBoundedByLogins(s: State, steps: seq<Step>, ttlMs: nat, w: Wallet)
    requires Initial(s) && Possible(s, steps, ttlMs)
    ensures var f := Exec(s, steps, ttlMs);
            |Acceptable(f, w)| <= Logins(f, w) == LoginSteps(steps, w)
  {
    LoginsAreCounted(s, steps, ttlMs, w);
    assert forall v :: Fresh(s.store, v) == {};
    RunKeepsInv(s, steps, ttlMs);
    var f := Exec(s, steps, ttlMs);
    Smaller(Acceptable(f, w), Fresh(f.store, w));
  }

  /** The successful logins of a wallet in a run. */
  function LoginSteps(steps: seq<Step>, w: Wallet): nat {
    if steps == [] then 0 else (if steps[0].Login? && steps[0].wallet == w then 1 else 0) + LoginSteps(steps[1..], w)
  }

  lemma {:induction false} LoginsAreCounted(s: State, steps: seq<Step>, ttlMs: nat, w: Wallet)
    requires Possible(s, steps, ttlMs)
    ensures Logins(Exec(s, steps, ttlMs), w) == Logins(s, w) + LoginSteps(steps, w)
    decreases |steps|
  {
    if steps != [] {
      LoginsAreCounted(Next(s, steps[0], ttlMs), steps[1..], ttlMs, w);
    }
  }

  /** A token that has been issued and is not live can no longer be accepted. */
  predicate Spent(s: State, t: Token) { t in s.issued && !Present(s.store, t, s.now).Accepted? }

  lemma StepKeepsSpent(s: State, step: Step, ttlMs: nat, t: Token)
    requires RecordsOk(s) && Enabled(s, step) && Spent(s, t)
    ensures Spent(Next(s, step, ttlMs), t)
  {
  }

  /** Neither time nor any other call ever re-enables a token: what is refused once stays refused. */
  lemma {:induction false} SpentStaysSpent(s: State, steps: seq<Step>, ttlMs: nat, t: Token)
    requires Inv(s) && Possible(s, steps, ttlMs) && Spent(s, t)
    ensures Spent(Exec(s, steps, ttlMs), t)
    decreases |steps|
  {
    if steps != [] {
      StepKeepsInv(s, steps[0], ttlMs);
      StepKeepsSpent(s, steps[0], ttlMs, t);
      SpentStaysSpent(Next(s, steps[0], ttlMs), steps[1..], ttlMs, t);
    }
  }

  /** Each refresh token is accepted at most once: after an acceptance no run accepts it again. */
  lemma AcceptedOnce(s: State, before: seq<Step>, t: Token, t': Token, after: seq<Step>, ttlMs: nat)
    requires Initial(s) && Possible(s, before, ttlMs)
    requires var m := Exec(s, before, ttlMs);
             Enabled(m, Refresh(t, t')) && Present(m.store, t, m.now).Accepted?
             && Possible(Next(m, Refresh(t, t'), ttlMs), after, ttlMs)
    ensures var f := Exec(Next(Exec(s, before, ttlMs), Refresh(t, t'), ttlMs), after, ttlMs);
            !Present(f.store, t, f.now).Accepted?
  {
    assert forall v :: Fresh(s.store, v) == {};
    RunKeepsInv(s, before, ttlMs);
    var m := Exec(s, before, ttlMs);
    StepKeepsInv(m, Refresh(t, t'), ttlMs);
    assert t != t';
    SpentStaysSpent(Next(m, Refresh(t, t'), ttlMs), after, ttlMs, t);
  }

  /**
   * Once a reuse is detected, no token issued to that wallet before is accepted in any continuation,
   * and the records of every other wallet are exactly as they were.
   */
  lemma ReuseRevokesWallet(s: State, before: seq<Step>, t: Token, t': Token, after: seq<Step>, ttlMs: nat, w: Wallet,
                           u: Token)
    requires Initial(s) && Possible(s, before, ttlMs)
    requires var m := Exec(s, before, ttlMs);
             Enabled(m, Refresh(t, t')) && Present(m.store, t, m.now) == Reused(w)
             && Possible(Next(m, Refresh(t, t'), ttlMs), after, ttlMs) && u in m.issued
    ensures var m := Exec(s, before, ttlMs);
            var n := Next(m, Refresh(t, t'), ttlMs);
            var f := Exec(n, after, ttlMs);
            && (m.issued[u] == w ==> !Present(f.store, u, f.now).Accepted?)
            && (m.issued[u] != w ==> (u in n.store <==> u in m.store) && (u in m.store ==> n.store[u] == m.store[u]))
  {
    assert forall v :: Fresh(s.store, v) == {};
    RunKeepsInv(s, before, ttlMs);
    var m := Exec(s, before, ttlMs);
    StepKeepsInv(m, Refresh(t, t'), ttlMs);
    var n := Next(m, Refresh(t, t'), ttlMs);
    if m.issued[u] == w {
      assert Spent(n, u);
      SpentStaysSpent(n, after, ttlMs, u);
    }
  }

  /** A logged-out token is never accepted again, in any continuation; other tokens stay as they were. */
  lemma LoggedOutStaysOut(s: State, before: seq<Step>, t: Token, after: seq<Step>, ttlMs: nat)
    requires Initial(s) && Possible(s, before, ttlMs) && t in Exec(s, before, ttlMs).issued
    requires Possible(Next(Exec(s, before, ttlMs), Logout(t), ttlMs), after, ttlMs)
    ensures var m := Exec(s, before, ttlMs);
            var n := Next(m, Logout(t), ttlMs);
            var f := Exec(n, after, ttlMs);
            && !Present(f.store, t, f.now).Accepted?
            && forall u :: u != t ==> Present(n.store, u, n.now) == Present(m.store, u, m.now)
  {
    assert forall v :: Fresh(s.store, v) == {};
    RunKeepsInv(s, before, ttlMs);
    var m := Exec(s, before, ttlMs);
    StepKeepsInv(m, Logout(t), ttlMs);
    SpentStaysSpent(Next(m, Logout(t), ttlMs), after, ttlMs, t);
  }

  function Elapsed(steps: seq<Step>): nat {
    if steps == [] then 0 else (if steps[0].Pass? then steps[0].ms else 0) + Elapsed(steps[1..])
  }

  /** Nobody presents the token, logs it out, or sets off a sweep of its wallet. */
  ghost predicate LeftAlone(s: State, steps: seq<Step>, ttlMs: nat, t: Token, w: Wallet)
    requires Possible(s, steps, ttlMs)
    decreases |steps|
  {
    steps != [] ==>
      && steps[0] != Logout(t)
      && (steps[0].Refresh? ==> steps[0].presented != t && Present(s.store, steps[0].presented, s.now) != Reused(w))
      && LeftAlone(Next(s, steps[0], ttlMs), steps[1..], ttlMs, t, w)
  }

  lemma {:induction false} RecordStays(s: State, steps: seq<Step>, ttlMs: nat, t: Token)
    requires Possible(s, steps, ttlMs) && t in s.store && t in s.issued
    requires LeftAlone(s, steps, ttlMs, t, s.store[t].wallet)
    ensures var f := Exec(s, steps, ttlMs);
            t in f.store && f.store[t] == s.store[t] && f.now == s.now + Elapsed(steps)
    decreases |steps|
  {
    if steps != [] {
      RecordStep(s, steps[0], ttlMs, t);
      hide Next, Enabled;
      RecordStays(Next(s, steps[0], ttlMs), steps[1..], ttlMs, t);
    }
  }

  lemma RecordStep(s: State, step: Step, ttlMs: nat, t: Token)
    requires Enabled(s, step) && t in s.store && t in s.issued && step != Logout(t)
    requires step.Refresh? ==>
               step.presented != t && Present(s.store, step.presented, s.now) != Reused(s.store[t].wallet)
    ensures var n := Next(s, step, ttlMs);
            && t in n.store && n.store[t] == s.store[t] && t in n.issued
            && n.now == s.now + if step.Pass? then step.ms else 0
  {
  }

  /**
   * A token from a login, or from an accepted refresh, is accepted for exactly the configured life
   * over every run that leaves it alone.
   */
  lemma IssuedIsAccepted(s: State, step: Step, t: Token, w: Wallet, steps: seq<Step>, ttlMs: nat)
    requires Enabled(s, step)
    requires step == Login(w, t) || (step.Refresh? && step.issued == t
               && Present(s.store, step.presented, s.now) == Accepted(w))
    requires Possible(Next(s, step, ttlMs), steps, ttlMs) && LeftAlone(Next(s, step, ttlMs), steps, ttlMs, t, w)
    ensures var f := Exec(Next(s, step, ttlMs), steps, ttlMs);
            Present(f.store, t, f.now) == if Elapsed(steps) < ttlMs then Accepted(w) else NotFound
  {
    var n := Next(s, step, ttlMs);
    assert t in n.store && n.store[t] == Record(w, false, s.now + ttlMs) && n.now == s.now && t in n.issued;
    RecordStays(n, steps, ttlMs, t);
  }

  /**
   * When presenting an already accepted token is recognised as reuse: exactly while its rotated
   * record is still stored, that is, not logged out or swept, and less than 60 s have passed. Later
   * it is refused as unknown and no session is revoked.
   */
  lemma ReuseDetectedIff(s: State, steps: seq<Step>, ttlMs: nat, t: Token)
    requires Initial(s) && Possible(s, steps, ttlMs) && t in Exec(s, steps, ttlMs).acceptedAt
    ensures var f := Exec(s, steps, ttlMs);
            && (Present(f.store, t, f.now).Reused? <==> t in f.store && f.now < f.acceptedAt[t] + 60_000)
            && (!Present(f.store, t, f.now).Reused? ==>
                  Present(f.store, t, f.now) == NotFound && Consumed(f.store, t, f.now) == f.store)
  {
    assert forall v :: Fresh(s.store, v) == {};
    RunKeepsInv(s, steps, ttlMs);
  }

  /** The documented promise fails after a minute: the replayed token is not noticed and sessions stay. */
  lemma LateReuseUnnoticed(ttlMs: nat)
    requires ttlMs > 60_000
    ensures var m := Next(Next(State(0, map[], map[], map[], map[]), Login("w", "a"), ttlMs), Refresh("a", "b"), ttlMs);
            var f := Next(m, Pass(60_000), ttlMs);
            && Present(f.store, "a", f.now) == NotFound && Present(f.store, "b", f.now) == Accepted("w")
  {
    var s0 := State(0, map[], map[], map[], map[]);
    assert s0.issued == map[];
    var s1 := Next(s0, Login("w", "a"), ttlMs);
    assert Present(s1.store, "a", s1.now) == Accepted("w");
    var m := Next(s1, Refresh("a", "b"), ttlMs);
    assert m.store["a"] == Record("w", true, ROTATED_TTL_MS) && m.store["b"] == Record("w", false, ttlMs);
  }
}
