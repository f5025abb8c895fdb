/**
 * Refresh calls that interleave. `consume` reads the token's record with one Redis command and marks
 * it rotated with another, so other calls may come between. A call is a read step and, if the read
 * found a live unrotated record, a write step that rotates it and issues the next token.
 */
module RefreshRaces {
  import opened Options
  import opened RefreshTokens

  /** A call that has read an acceptable record and not written yet. */
  datatype Reader = Reader(token: Token, wallet: Wallet)

  /** `calls` holds every call that has begun. */
  datatype Races = Races(now: int, store: Store, issued: map<Token, Wallet>, pending: map<nat, Reader>, calls: set<nat>)

  datatype Act =
    | Wait(ms: nat)
    | SignIn(wallet: Wallet, token: Token)
    | Read(call: nat, token: Token)
    | Write(call: nat, next: Token)
    | SignOut(token: Token)

  predicate CanAct(s: Races, a: Act) {
    match a
    case SignIn(_, t) => t !in s.issued
    case Read(call, _) => call !in s.calls
    case Write(call, next) => call in s.pending && next !in s.issued
    case _ => true
  }

  function Acted(s: Races, a: Act, ttlMs: nat): Races
    requires CanAct(s, a)
  {
    match a
    case Wait(ms) => s.(now := s.now + ms)
    case SignIn(w, t) => s.(store := s.store[t := Record(w, false, s.now + ttlMs)], issued := s.issued[t := w])
    case Read(call, t) =>
      var begun := s.(calls := s.calls + {call});
      (match Present(s.store, t, s.now)
       case Accepted(w) => begun.(pending := s.pending[call := Reader(t, w)])
       case NotFound => begun
       case Reused(w) => begun.(store := Swept(s.store, w, s.now)))
    case Write(call, next) =>
      var r := s.pending[call];
      var rotated := s.store[r.token := Record(r.wallet, true, s.now + ROTATED_TTL_MS)];
      s.(
        store := rotated[next := Record(r.wallet, false, s.now + ttlMs)],
        issued := s.issued[next := r.wallet],
        pending := s.pending - {call})
    case SignOut(t) => s.(store := s.store - {t})
  }

  predicate IsRun(states: seq<Races>, acts: seq<Act>, ttlMs: nat) {
    && |states| == |acts| + 1
    && states[0].store == map[] && states[0].issued == map[] && states[0].pending == map[]
    && forall i :: 0 <= i < |acts| ==> Leads(states[i], acts[i], states[i + 1], ttlMs)
  }

  predicate Leads(s: Races, a: Act, s': Races, ttlMs: nat) { CanAct(s, a) && s' == Acted(s, a, ttlMs) }

  /** Step `i` is call `c` finding the token acceptable. */
  predicate ReadsAt(states: seq<Races>, acts: seq<Act>, i: nat, c: nat, t: Token)
    requires |states| == |acts| + 1
  {
    i < |acts| && acts[i] == Read(c, t) && Present(states[i].store, t, states[i].now).Accepted?
  }

  /** Step `j` is call `c` accepting the token. */
  predicate AcceptsAt(states: seq<Races>, acts: seq<Act>, j: nat, c: nat, t: Token)
    requires |states| == |acts| + 1
  {
    j < |acts| && acts[j].Write? && acts[j].call == c && c in states[j].pending && states[j].pending[c].token == t
  }

  // ---------------------------------------------------------------------------------------------
  // What every interleaving keeps
  // ---------------------------------------------------------------------------------------------

  ghost predicate Sound(s: Races) {
    && (forall t :: t in s.store ==> t in s.issued && s.store[t].wallet == s.issued[t])
    && (forall c :: c in s.pending ==>
          c in s.calls && s.pending[c].token in s.issued && s.issued[s.pending[c].token] == s.pending[c].wallet)
  }

  lemma ActKeepsSound(s: Races, a: Act, ttlMs: nat)
    requires Sound(s) && CanAct(s, a)
    ensures Sound(Acted(s, a, ttlMs))
  {
  }

  lemma {:induction false} RunIsSound(states: seq<Races>, acts: seq<Act>, ttlMs: nat, k: nat)
    requires IsRun(states, acts, ttlMs) && k < |states|
    ensures Sound(states[k])
  {
    hide CanAct, Acted;
    if k > 0 {
      hide Sound;
      assert Leads(states[k - 1], acts[k - 1], states[k - 1 + 1], ttlMs);
      RunIsSound(states, acts, ttlMs, k - 1);
      ActKeepsSound(states[k - 1], acts[k - 1], ttlMs);
    }
  }

  /** Issued and not acceptable: rotated, expired, swept or signed out. */
  predicate Dead(s: Races, t: Token) { t in s.issued && !Present(s.store, t, s.now).Accepted? }

  lemma ActKeepsDead(s: Races, a: Act, ttlMs: nat, t: Token)
    requires Sound(s) && CanAct(s, a) && Dead(s, t)
    ensures Dead(Acted(s, a, ttlMs), t)
  {
  }

  lemma {:induction false} DeadStaysDead(states: seq<Races>, acts: seq<Act>, ttlMs: nat, i: nat, j: nat, t: Token)
    requires IsRun(states, acts, ttlMs) && i <= j < |states| && Dead(states[i], t)
    ensures Dead(states[j], t)
    decreases j
  {
    hide CanAct, Acted, Dead;
    if i < j {
      assert Leads(states[j - 1], acts[j - 1], states[j - 1 + 1], ttlMs);
      DeadStaysDead(states, acts, ttlMs, i, j - 1, t);
      RunIsSound(states, acts, ttlMs, j - 1);
      ActKeepsDead(states[j - 1], acts[j - 1], ttlMs, t);
    }
  }

  lemma AcceptanceKills(s: Races, c: nat, next: Token, ttlMs: nat)
    requires Sound(s) && CanAct(s, Write(c, next))
    ensures Dead(Acted(s, Write(c, next), ttlMs), s.pending[c].token)
  {
  }

  /** After an acceptance no call finds the token acceptable again. */
  lemma NoReadAfterAcceptance(states: seq<Races>, acts: seq<Act>, ttlMs: nat, i: nat, c: nat, j: nat, c': nat, t: Token)
    requires IsRun(states, acts, ttlMs) && ReadsAt(states, acts, i, c, t) && AcceptsAt(states, acts, j, c', t)
    ensures i < j
  {
    hide Acted, Dead;
    assert Leads(states[j], acts[j], states[j + 1], ttlMs);
    RunIsSound(states, acts, ttlMs, j);
    AcceptanceKills(states[j], c', acts[j].next, ttlMs);
    if j < i {
      DeadStaysDead(states, acts, ttlMs, j + 1, i, t);
      DeadIsRefused(states[i], t);
    }
  }

  lemma DeadIsRefused(s: Races, t: Token)
    requires Dead(s, t)
    ensures !Present(s.store, t, s.now).Accepted?
  {
  }

  lemma PendingStep(s: Races, a: Act, ttlMs: nat, c: nat)
    requires CanAct(s, a) && c in Acted(s, a, ttlMs).pending
    ensures || (c in s.pending && Acted(s, a, ttlMs).pending[c] == s.pending[c])
            || (a == Read(c, Acted(s, a, ttlMs).pending[c].token) && Present(s.store, a.token, s.now).Accepted?)
  {
  }

  /** A call that may write has read before. */
  lemma {:induction false} PendingHasRead(states: seq<Races>, acts: seq<Act>, ttlMs: nat, k: nat, c: nat)
      returns (i: nat)
    requires IsRun(states, acts, ttlMs) && k < |states| && c in states[k].pending
    ensures i < k && ReadsAt(states, acts, i, c, states[k].pending[c].token)
    decreases k
  {
    hide CanAct, Acted;
    assert k > 0;
    assert Leads(states[k - 1], acts[k - 1], states[k - 1 + 1], ttlMs);
    PendingStep(states[k - 1], acts[k - 1], ttlMs, c);
    if c in states[k - 1].pending && states[k].pending[c] == states[k - 1].pending[c] {
      i := PendingHasRead(states, acts, ttlMs, k - 1, c);
    } else {
      i := k - 1;
    }
  }

  lemma FinishedStep(s: Races, a: Act, ttlMs: nat, c: nat)
    requires CanAct(s, a) && c in s.calls && c !in s.pending
    ensures c in Acted(s, a, ttlMs).calls && c !in Acted(s, a, ttlMs).pending
  {
  }

  lemma {:induction false} FinishedStays(states: seq<Races>, acts: seq<Act>, ttlMs: nat, i: nat, j: nat, c: nat)
    requires IsRun(states, acts, ttlMs) && i <= j < |states| && c in states[i].calls && c !in states[i].pending
    ensures c in states[j].calls && c !in states[j].pending
    decreases j
  {
    hide CanAct, Acted;
    if i < j {
      assert Leads(states[j - 1], acts[j - 1], states[j - 1 + 1], ttlMs);
      FinishedStays(states, acts, ttlMs, i, j - 1, c);
      FinishedStep(states[j - 1], acts[j - 1], ttlMs, c);
    }
  }

  lemma OneAcceptancePerCall(states: seq<Races>, acts: seq<Act>, ttlMs: nat, j: nat, j': nat, c: nat, t: Token)
    requires IsRun(states, acts, ttlMs) && AcceptsAt(states, acts, j, c, t) && j < j' < |states|
    ensures c !in states[j'].pending
  {
    assert Leads(states[j], acts[j], states[j + 1], ttlMs);
    RunIsSound(states, acts, ttlMs, j);
    hide CanAct, Dead;
    assert c in states[j + 1].calls && c !in states[j + 1].pending;
    FinishedStays(states, acts, ttlMs, j + 1, j', c);
  }

  // ---------------------------------------------------------------------------------------------
  // Double acceptance
  // ---------------------------------------------------------------------------------------------

  predicate AcceptedTwice(states: seq<Races>, acts: seq<Act>, t: Token)
    requires |states| == |acts| + 1
  {
    exists j, j' :: 0 <= j < j' < |acts| && AcceptStep(states, acts, j, t) && AcceptStep(states, acts, j', t)
  }

  predicate AcceptStep(states: seq<Races>, acts: seq<Act>, j: nat, t: Token)
    requires |states| == |acts| + 1 && j < |acts|
  {
    acts[j].Write? && AcceptsAt(states, acts, j, acts[j].call, t)
  }

  /** Calls `c` and `c'` both read the token at `i` and `i'` before either accepts it at `j` and `j'`. */
  predicate Raced(states: seq<Races>, acts: seq<Act>, t: Token, i: nat, i': nat, j: nat, j': nat)
    requires |states| == |acts| + 1
  {
    && i < |acts| && i' < |acts| && acts[i].Read? && acts[i'].Read? && acts[i].call != acts[i'].call
    && ReadsAt(states, acts, i, acts[i].call, t) && ReadsAt(states, acts, i', acts[i'].call, t)
    && AcceptsAt(states, acts, j, acts[i].call, t) && AcceptsAt(states, acts, j', acts[i'].call, t)
    && i < j && i < j' && i' < j && i' < j'
  }

  /** Any two acceptances of one token raced. */
  lemma AcceptancesRaced(states: seq<Races>, acts: seq<Act>, ttlMs: nat, t: Token, j: nat, j': nat)
      returns (i: nat, i': nat)
    requires IsRun(states, acts, ttlMs) && j < j' < |acts|
    requires AcceptStep(states, acts, j, t) && AcceptStep(states, acts, j', t)
    ensures Raced(states, acts, t, i, i', j, j')
  {
    hide Leads;
    var c, c' := acts[j].call, acts[j'].call;
    i := PendingHasRead(states, acts, ttlMs, j, c);
    i' := PendingHasRead(states, acts, ttlMs, j', c');
    NoReadAfterAcceptance(states, acts, ttlMs, i', c', j, c, t);
    OneAcceptancePerCall(states, acts, ttlMs, j, j', c, t);
  }

  /**
   * Over every interleaving, a refresh token is accepted more than once if and only if two calls that
   * accept it had both read it before either wrote the rotated record.
   */
  lemma AcceptedTwiceIffRaced(states: seq<Races>, acts: seq<Act>, ttlMs: nat, t: Token)
    requires IsRun(states, acts, ttlMs)
    ensures AcceptedTwice(states, acts, t) <==>
              exists i: nat, i': nat, j: nat, j': nat :: Raced(states, acts, t, i, i', j, j')
  {
    hide Leads;
    if j: nat, j': nat :| 0 <= j < j' < |acts| && AcceptStep(states, acts, j, t) && AcceptStep(states, acts, j', t) {
      var i, i' := AcceptancesRaced(states, acts, ttlMs, t, j, j');
    }
    if i: nat, i': nat, j: nat, j': nat :| Raced(states, acts, t, i, i', j, j') {
      assert AcceptStep(states, acts, j, t) && AcceptStep(states, acts, j', t);
      assert j < j' || j' < j;
    }
  }

  /**
   * A detected reuse stops every later read of the wallet's earlier tokens, but not the calls that had
   * read before it: whatever is accepted after the sweep was read before it.
   */
  lemma SweepStopsLaterReads(states: seq<Races>, acts: seq<Act>, ttlMs: nat, k: nat, w: Wallet, u: Token, j: nat,
                             c: nat)
      returns (i: nat)
    requires IsRun(states, acts, ttlMs) && k < j && k < |acts| && acts[k].Read?
    requires Present(states[k].store, acts[k].token, states[k].now) == Reused(w)
    requires u in states[k].issued && states[k].issued[u] == w && AcceptsAt(states, acts, j, c, u)
    ensures i < k && ReadsAt(states, acts, i, c, u)
  {
    i := PendingHasRead(states, acts, ttlMs, j, c);
    assert Leads(states[k], acts[k], states[k + 1], ttlMs);
    RunIsSound(states, acts, ttlMs, k);
    assert Dead(states[k + 1], u);
    if k < i {
      DeadStaysDead(states, acts, ttlMs, k + 1, i, u);
    }
  }

  /** Time may pass and any token may be signed out at any moment; a new call may present any token. */
  lemma AlwaysPossible(s: Races, ms: nat, t: Token, call: nat)
    ensures CanAct(s, Wait(ms)) && CanAct(s, SignOut(t))
    ensures call !in s.calls ==> CanAct(s, Read(call, t))
  {
  }

  /** A signed-out token is not read as acceptable by any later call. */
  lemma SignedOutStaysOut(states: seq<Races>, acts: seq<Act>, ttlMs: nat, k: nat, t: Token, i: nat, c: nat)
    requires IsRun(states, acts, ttlMs) && k < |acts| && acts[k] == SignOut(t) && t in states[k].issued && k < i
    ensures !ReadsAt(states, acts, i, c, t)
  {
    assert Leads(states[k], acts[k], states[k + 1], ttlMs);
    assert Dead(states[k + 1], t);
    if i < |acts| {
      DeadStaysDead(states, acts, ttlMs, k + 1, i, t);
    }
  }

  const RACE: seq<Act> := [SignIn("w", "a"), Read(1, "a"), Read(2, "a"), Write(1, "b"), Read(3, "a"), Write(2, "c")]

  lemma RaceBegins(ttlMs: nat) returns (s0: Races, s1: Races, s2: Races, s3: Races)
    requires ttlMs > 0
    ensures s0 == Races(0, map[], map[], map[], {})
    ensures Leads(s0, RACE[0], s1, ttlMs) && Leads(s1, RACE[1], s2, ttlMs) && Leads(s2, RACE[2], s3, ttlMs)
    ensures s3 == Races(0, map["a" := Record("w", false, ttlMs)], map["a" := "w"],
                        map[1 := Reader("a", "w"), 2 := Reader("a", "w")], {1, 2})
  {
    s0 := Races(0, map[], map[], map[], {});
    s1 := Acted(s0, RACE[0], ttlMs);
    s2 := Acted(s1, RACE[1], ttlMs);
    s3 := Acted(s2, RACE[2], ttlMs);
  }

  lemma RaceEnds(s3: Races, ttlMs: nat) returns (s4: Races, s5: Races, s6: Races)
    requires ttlMs > 0
    requires s3 == Races(0, map["a" := Record("w", false, ttlMs)], map["a" := "w"],
                         map[1 := Reader("a", "w"), 2 := Reader("a", "w")], {1, 2})
    ensures Leads(s3, RACE[3], s4, ttlMs) && Leads(s4, RACE[4], s5, ttlMs) && Leads(s5, RACE[5], s6, ttlMs)
    ensures 1 in s3.pending && s3.pending[1].token == "a" && 2 in s5.pending && s5.pending[2].token == "a"
    ensures Present(s4.store, "a", s4.now) == Reused("w") && s5.store == map[]
    ensures Present(s6.store, "c", s6.now) == Accepted("w")
  {
    s4 := Acted(s3, RACE[3], ttlMs);
    assert s4.store["a"] == Record("w", true, ROTATED_TTL_MS) && s4.store["b"] == Record("w", false, ttlMs);
    assert s4.store.Keys == {"a", "b"};
    s5 := Acted(s4, RACE[4], ttlMs);
    s6 := Acted(s5, RACE[5], ttlMs);
  }

  /** One login, one token, two acceptances, and the second survives the sweep its own reuse set off. */
  lemma RaceBeatsSweep(ttlMs: nat) returns (states: seq<Races>)
    requires ttlMs > 0
    ensures IsRun(states, RACE, ttlMs) && AcceptedTwice(states, RACE, "a")
    ensures Present(states[4].store, "a", states[4].now) == Reused("w")
    ensures Present(states[6].store, "c", states[6].now) == Accepted("w")
  {
    hide Leads, Present;
    var s0, s1, s2, s3 := RaceBegins(ttlMs);
    var s4, s5, s6 := RaceEnds(s3, ttlMs);
    states := [s0, s1, s2, s3, s4, s5, s6];
    assert Leads(states[0], RACE[0], states[1], ttlMs) && Leads(states[1], RACE[1], states[2], ttlMs);
    assert Leads(states[2], RACE[2], states[3], ttlMs) && Leads(states[3], RACE[3], states[4], ttlMs);
    assert Leads(states[4], RACE[4], states[5], ttlMs) && Leads(states[5], RACE[5], states[6], ttlMs);
    assert AcceptStep(states, RACE, 3, "a") && AcceptStep(states, RACE, 5, "a");
  }
}
