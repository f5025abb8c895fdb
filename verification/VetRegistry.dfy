/**
 * The Soroban claims contract: a vet is kept under three storage keys, claims under a counter. The
 * redundant keys agree over every run, and a claim's vet requirement held when it was filed.
 */
module VetRegistry {
  import opened Options

  type Address = string

  const U64_MAX: nat := 0xFFFF_FFFF_FFFF_FFFF

  datatype VetRecord = VetRecord(address: Address, specializations: seq<string>, active: bool)

  datatype Claim = Claim(id: nat, claimant: Address, amount: int, requiredSpecialization: Option<string>)

  datatype ContractError = VetNotFound | ClaimNotFound

  /** A trapped call leaves the ledger as it was. */
  datatype Outcome<T> = Done(value: T) | Refused(error: ContractError) | Trapped

  /** The persistent keys; a key that was never written is absent. */
  datatype Store = Store(
    vets: map<Address, VetRecord>,
    vetSpecializations: map<Address, seq<string>>,
    vetRegistry: Option<seq<Address>>,
    claims: map<nat, Claim>,
    claimCounter: Option<nat>)

  const EMPTY: Store := Store(map[], map[], None, map[], None)

  function Registry(s: Store): seq<Address> { if s.vetRegistry.Some? then s.vetRegistry.value else [] }

  function Counter(s: Store): nat { if s.claimCounter.Some? then s.claimCounter.value else 0 }

  /** Some vet on record is active and has the specialization, whatever the registry lists. */
  predicate HasVet(s: Store, specialization: string) {
    exists a :: a in s.vets && s.vets[a].active && specialization in s.vets[a].specializations
  }

  ghost predicate Inv(s: Store) {
    && (forall i, j :: 0 <= i < j < |Registry(s)| ==> Registry(s)[i] != Registry(s)[j])
    && (forall a :: a in Registry(s) <==> a in s.vets)
    && s.vets.Keys == s.vetSpecializations.Keys
    && (forall a :: a in s.vets ==> s.vets[a] == VetRecord(a, s.vetSpecializations[a], true))
    && (forall id :: id in s.claims <==> 1 <= id <= Counter(s))
    && (forall id :: id in s.claims ==> s.claims[id].id == id)
    && Counter(s) <= U64_MAX
  }

  // ---------------------------------------------------------------------------------------------
  // Calls as steps
  // ---------------------------------------------------------------------------------------------

  datatype Call =
    | RegisterVet(vet: Address, specializations: seq<string>, authorized: bool)
    | FileClaim(claimant: Address, amount: int, requiredSpecialization: Option<string>, authorized: bool)

  predicate RequirementMet(s: Store, required: Option<string>) { required.Some? ==> HasVet(s, required.value) }

  predicate Files(s: Store, call: Call) {
    call.FileClaim? && call.authorized && RequirementMet(s, call.requiredSpecialization) && Counter(s) < U64_MAX
  }

  function After(s: Store, call: Call): Store {
    match call
    case RegisterVet(vet, specializations, authorized) =>
      if !authorized then s
      else s.(
        vets := s.vets[vet := VetRecord(vet, specializations, true)],
        vetSpecializations := s.vetSpecializations[vet := specializations],
        vetRegistry := if vet in Registry(s) then s.vetRegistry else Some(Registry(s) + [vet]))
    case FileClaim(claimant, amount, required, authorized) =>
      if !Files(s, call) then s
      else
        var id := Counter(s) + 1;
        s.(claims := s.claims[id := Claim(id, claimant, amount, required)], claimCounter := Some(id))
  }

  lemma EmptyIsInv()
    ensures Inv(EMPTY)
  {
  }

  lemma RegisterKeepsInv(s: Store, vet: Address, specializations: seq<string>)
    requires Inv(s)
    ensures Inv(After(s, RegisterVet(vet, specializations, true)))
  {
    var s' := After(s, RegisterVet(vet, specializations, true));
    var r, r' := Registry(s), Registry(s');
    if vet in r {
      assert r' == r;
    } else {
      assert r' == r + [vet];
    }
  }

  lemma FileKeepsInv(s: Store, call: Call)
    requires Inv(s) && Files(s, call)
    ensures Inv(After(s, call))
  {
    hide HasVet;
    var s' := After(s, call);
    assert Registry(s') == Registry(s);
    assert s'.claims == s.claims[Counter(s) + 1 := s'.claims[Counter(s) + 1]] && Counter(s') == Counter(s) + 1;
    assert forall id: nat :: id in s'.claims <==> id in s.claims || id == Counter(s) + 1;
  }

  lemma StepKeepsInv(s: Store, call: Call)
    requires Inv(s)
    ensures Inv(After(s, call))
  {
    hide Inv, HasVet;
    match call {
      case RegisterVet(vet, specializations, authorized) =>
        if authorized { RegisterKeepsInv(s, vet, specializations); }
      case FileClaim(_, _, _, _) =>
        if Files(s, call) { FileKeepsInv(s, call); }
    }
  }

  // ---------------------------------------------------------------------------------------------
  // Whole runs
  // ---------------------------------------------------------------------------------------------

  predicate IsRun(states: seq<Store>, calls: seq<Call>) {
    && |states| == |calls| + 1 && states[0] == EMPTY
    && forall i :: 0 <= i < |calls| ==> states[i + 1] == After(states[i], calls[i])
  }

  /** The storage keys agree after every run from the empty contract. */
  lemma {:induction false} RunKeepsInv(states: seq<Store>, calls: seq<Call>, k: nat)
    requires IsRun(states, calls) && k < |states|
    ensures Inv(states[k])
  {
    hide After, Inv;
    if k == 0 {
      EmptyIsInv();
    } else {
      RunKeepsInv(states, calls, k - 1);
      StepKeepsInv(states[k - 1], calls[k - 1]);
    }
  }

  /** A filed claim never changes and the registry only grows at its end. */
  lemma {:induction false} FiledStaysFiled(states: seq<Store>, calls: seq<Call>, i: nat, j: nat, id: nat)
    requires IsRun(states, calls) && i <= j < |states| && id in states[i].claims
    ensures id in states[j].claims && states[j].claims[id] == states[i].claims[id]
    decreases j
  {
    if i < j {
      FiledStaysFiled(states, calls, i, j - 1, id);
      RunKeepsInv(states, calls, j - 1);
    }
  }

  lemma {:induction false} RegistryGrows(states: seq<Store>, calls: seq<Call>, i: nat, j: nat)
    requires IsRun(states, calls) && i <= j < |states|
    ensures Registry(states[i]) <= Registry(states[j])
    decreases j
  {
    hide HasVet;
    if i < j {
      RegistryGrows(states, calls, i, j - 1);
    }
  }

  /**
   * Every stored claim was filed by a call of the run: the call's arguments are the
   * claim's fields, and an active vet with the required specialization was on record then.
   */
  lemma {:induction false} FiledWithMatchingVet(states: seq<Store>, calls: seq<Call>, j: nat, id: nat) returns (k: nat)
    requires IsRun(states, calls) && j < |states| && id in states[j].claims
    ensures k < j && calls[k].FileClaim? && calls[k].authorized
    ensures states[j].claims[id] == Claim(id, calls[k].claimant, calls[k].amount, calls[k].requiredSpecialization)
    ensures RequirementMet(states[k], calls[k].requiredSpecialization)
    ensures Counter(states[k]) + 1 == id && Counter(states[k + 1]) == id
    decreases j
  {
    hide HasVet, Inv;
    FirstClaim(states, calls, j, id);
    if id in states[j - 1].claims {
      k := FiledWithMatchingVet(states, calls, j - 1, id);
      FiledStaysFiled(states, calls, j - 1, j, id);
    } else {
      k := j - 1;
    }
  }

  lemma FirstClaim(states: seq<Store>, calls: seq<Call>, j: nat, id: nat)
    requires IsRun(states, calls) && j < |states| && id in states[j].claims
    ensures j > 0
  {
  }

  /** The positions of the calls, among the first `n`, that filed a claim. */
  function Filings(states: seq<Store>, calls: seq<Call>, n: nat): (f: seq<nat>)
    requires |states| == |calls| + 1 && n <= |calls|
    ensures forall i :: 0 <= i < |f| ==> f[i] < n
  {
    if n == 0 then []
    else Filings(states, calls, n - 1) + if Files(states[n - 1], calls[n - 1]) then [n - 1] else []
  }

  /** The stored claims are those the calls at these positions asked for, numbered from one. */
  ghost predicate Numbered(s: Store, calls: seq<Call>, f: seq<nat>) {
    && |f| == Counter(s)
    && (forall id: nat :: id in s.claims <==> 1 <= id <= |f|)
    && forall i :: 0 <= i < |f| ==> f[i] < |calls| && IsAsked(s.claims[i + 1], i + 1, calls[f[i]])
  }

  predicate IsAsked(c: Claim, id: nat, call: Call) {
    call.FileClaim? && c == Claim(id, call.claimant, call.amount, call.requiredSpecialization)
  }

  lemma FilingIsNumbered(s: Store, calls: seq<Call>, f: seq<nat>, m: nat)
    requires m < |calls| && Numbered(s, calls, f) && Files(s, calls[m])
    ensures Numbered(After(s, calls[m]), calls, f + [m])
  {
    hide RequirementMet;
    var s', n := After(s, calls[m]), |f| + 1;
    assert s'.claims == s.claims[n := s'.claims[n]];
    assert IsAsked(s'.claims[n], n, calls[m]);
    forall i | 0 <= i < n ensures IsAsked(s'.claims[i + 1], i + 1, calls[(f + [m])[i]]) {
      hide IsAsked;
      if i < |f| { assert (f + [m])[i] == f[i]; }
    }
  }

  lemma OtherCallsFileNothing(s: Store, calls: seq<Call>, f: seq<nat>, m: nat)
    requires m < |calls| && Numbered(s, calls, f) && !Files(s, calls[m])
    ensures Numbered(After(s, calls[m]), calls, f)
  {
    hide RequirementMet, IsAsked;
    var s' := After(s, calls[m]);
    assert s'.claims == s.claims && Counter(s') == Counter(s);
  }

  /**
   * The stored claims are the filings of the run, numbered from one in call order: the counter is
   * their number, and claim `i + 1` carries the arguments of the filing call at index `i`.
   */
  lemma {:induction false} ClaimsAreFilingsInOrder(states: seq<Store>, calls: seq<Call>, n: nat)
    requires IsRun(states, calls) && n <= |calls|
    ensures Numbered(states[n], calls, Filings(states, calls, n))
  {
    if n == 0 {
      assert Counter(states[0]) == 0;
    } else {
      hide Files, After, Numbered;
      var f, m := Filings(states, calls, n - 1), n - 1;
      ClaimsAreFilingsInOrder(states, calls, m);
      assert states[n] == After(states[m], calls[m]);
      if Files(states[m], calls[m]) {
        FilingIsNumbered(states[m], calls, f, m);
      } else {
        OtherCallsFileNothing(states[m], calls, f, m);
        assert f + [] == f;
      }
    }
  }

  /** After a registration a specialization is found if and only if it is in its list or another vet has it. */
  lemma RegisteredIsFound(s: Store, vet: Address, specializations: seq<string>, spec: string)
    ensures HasVet(After(s, RegisterVet(vet, specializations, true)), spec) <==>
              || spec in specializations
              || exists a :: a in s.vets && a != vet && s.vets[a].active && spec in s.vets[a].specializations
    ensures vet in After(s, RegisterVet(vet, specializations, true)).vetSpecializations
    ensures After(s, RegisterVet(vet, specializations, true)).vetSpecializations[vet] == specializations
  {
    var s' := After(s, RegisterVet(vet, specializations, true));
    if spec in specializations {
      assert vet in s'.vets && s'.vets[vet].active && spec in s'.vets[vet].specializations;
    }
    if a :| a in s.vets && a != vet && s.vets[a].active && spec in s.vets[a].specializations {
      assert a in s'.vets && s'.vets[a] == s.vets[a];
    }
    if a :| a in s'.vets && s'.vets[a].active && spec in s'.vets[a].specializations {
      assert a == vet || (a in s.vets && s'.vets[a] == s.vets[a]);
    }
  }

  /** A later re-registration may take the match away again; the filed claim stays. */
  lemma MatchMayVanish(vet: Address, claimant: Address, amount: int, spec: string)
    ensures var s1 := After(EMPTY, RegisterVet(vet, [spec], true));
            var s2 := After(s1, FileClaim(claimant, amount, Some(spec), true));
            var s3 := After(s2, RegisterVet(vet, [], true));
            HasVet(s1, spec) && 1 in s3.claims && s3.claims[1].requiredSpecialization == Some(spec) && !HasVet(s3, spec)
  {
    var s1 := After(EMPTY, RegisterVet(vet, [spec], true));
    assert vet in s1.vets && spec in s1.vets[vet].specializations;
  }

  // ---------------------------------------------------------------------------------------------
  // The contract
  // ---------------------------------------------------------------------------------------------

  class ClaimsContract {
    var vets: map<Address, VetRecord>
    var specializationsOf: map<Address, seq<string>>
    var registry: Option<seq<Address>>
    var claims: map<nat, Claim>
    var counter: Option<nat>

    function Storage(): Store
      reads this
    {
      Store(vets, specializationsOf, registry, claims, counter)
    }

    constructor ()
      ensures Storage() == EMPTY && Inv(Storage())
    {
      vets, specializationsOf, registry, claims, counter := map[], map[], None, map[], None;
    }

    method RegisterVet(vet: Address, specializations: seq<string>, authorized: bool) returns (r: Outcome<()>)
      requires Inv(Storage())
      modifies this
      ensures Inv(Storage()) && Storage() == After(old(Storage()), Call.RegisterVet(vet, specializations, authorized))
      ensures r == if authorized then Done(()) else Trapped
      ensures !authorized ==> Storage() == old(Storage())
      ensures authorized ==> vet in vets && vets[vet].specializations == specializations
    {
      hide Inv;
      StepKeepsInv(Storage(), Call.RegisterVet(vet, specializations, authorized));
      if !authorized {
        return Trapped;
      }
      vets := vets[vet := VetRecord(vet, specializations, true)];
      specializationsOf := specializationsOf[vet := specializations];
      var listed := if registry.Some? then registry.value else [];
      if vet !in listed {
        registry := Some(listed + [vet]);
      }
      return Done(());
    }

    /** The copy kept beside the record is the record's own list. */
    method VetSpecializations(vet: Address) returns (r: Option<seq<string>>)
      requires Inv(Storage())
      ensures r == if vet in vets then Some(vets[vet].specializations) else None
    {
      r := if vet in specializationsOf then Some(specializationsOf[vet]) else None;
    }

    /** The registry scan finds a vet exactly when some vet on record qualifies. */
    method HasVetWithSpecialization(specialization: string) returns (found: bool)
      requires Inv(Storage())
      ensures found <==> HasVet(Storage(), specialization)
    {
      var listed := if registry.Some? then registry.value else [];
      for i := 0 to |listed|
        invariant forall k :: 0 <= k < i ==>
                      !(vets[listed[k]].active && specialization in vets[listed[k]].specializations)
      {
        var addr := listed[i];
        if addr in vets {
          var record := vets[addr];
          if record.active && specialization in record.specializations {
            return true;
          }
        }
      }
      forall a | a in vets && vets[a].active ensures specialization !in vets[a].specializations {
        assert a in Registry(Storage());
      }
      return false;
    }

    method FileClaim(claimant: Address, amount: int, required: Option<string>, authorized: bool)
        returns (r: Outcome<nat>)
      requires Inv(Storage())
      modifies this
      ensures Inv(Storage())
      ensures Storage() == After(old(Storage()), Call.FileClaim(claimant, amount, required, authorized))
      ensures r.Done? <==> Files(old(Storage()), Call.FileClaim(claimant, amount, required, authorized))
      ensures r.Done? ==> r.value == Counter(Storage()) && r.value !in old(claims)
      ensures r.Done? <==>
                && authorized && Counter(old(Storage())) < 0xFFFF_FFFF_FFFF_FFFF
                && (required.Some? ==> HasVet(old(Storage()), required.value))
      ensures r.Done? ==> r.value == Counter(old(Storage())) + 1 && r.value in claims
      ensures r.Done? ==> claims[r.value] == Claim(r.value, claimant, amount, required)
      ensures !r.Done? ==> Storage() == old(Storage())
      ensures r.Refused? <==> authorized && required.Some? && !HasVet(old(Storage()), required.value)
      ensures r.Refused? ==> r.error == VetNotFound
    {
      hide HasVet;
      StepKeepsInv(Storage(), Call.FileClaim(claimant, amount, required, authorized));
      if !authorized {
        return Trapped;
      }
      if required.Some? {
        var found := HasVetWithSpecialization(required.value);
        if !found {
          return Refused(VetNotFound);
        }
      }
      var count := if counter.Some? then counter.value else 0;
      if count == U64_MAX {
        return Trapped;
      }
      var id := count + 1;
      claims := claims[id := Claim(id, claimant, amount, required)];
      counter := Some(id);
      return Done(id);
    }

    /** A claim is found exactly for the ids from 1 to the counter. */
    method GetClaim(id: nat) returns (r: Outcome<Claim>)
      requires Inv(Storage())
      ensures r.Done? <==> 1 <= id <= Counter(Storage())
      ensures r.Done? ==> r.value == claims[id] && r.value.id == id
      ensures !r.Done? ==> r == Refused(ClaimNotFound)
    {
      if id in claims {
        return Done(claims[id]);
      }
      return Refused(ClaimNotFound);
    }
  }
}
