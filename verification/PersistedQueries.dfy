/**
 * The persisted-query middleware: an allowlist loaded at start-up and a shared store of query texts
 * under their hashes. The hash is a parameter.
 */
module PersistedQueries {
  import opened Options

  type Hash = string -> string

  datatype FileEntry =
    | Text(query: string)
    | Object(body: Option<string>, maxComplexity: Option<int>)
    | Other

  datatype Config = Config(
    enabled: bool,
    required: bool,
    registrationEnabled: bool,
    persistedOnly: bool,
    hashes: set<string>,
    bodies: map<string, string>,
    budgets: map<string, int>,
    ttlMs: nat)

  /** An absent hash or query is the empty text. */
  datatype Request = Request(hash: string, query: string)

  datatype Response = PassedOn(query: string, budget: Option<int>) | Refused(code: string)

  datatype Stored = Stored(query: string, expiresAt: int)

  type Store = map<string, Stored>

  function Lookup(store: Store, hash: string, now: int): Option<string> {
    if hash in store && now < store[hash].expiresAt then Some(store[hash].query) else None
  }

  // ---------------------------------------------------------------------------------------------
  // The allowlist file
  // ---------------------------------------------------------------------------------------------

  function BodyOf(e: FileEntry): Option<string> {
    match e
    case Text(q) => Some(q)
    case Object(body, _) => body
    case Other => None
  }

  predicate Positive(m: Option<int>) { m.Some? && m.value > 0 }

  /** The budget of an entry that carries a query text and a positive number. */
  function BudgetOf(e: FileEntry): Option<int> {
    if e.Object? && e.body.Some? && e.maxComplexity.Some? && e.maxComplexity.value > 0 then e.maxComplexity else None
  }

  /** The generator writes each body under its own hash. */
  predicate WellMade(h: Hash, file: seq<(string, FileEntry)>) {
    forall i :: 0 <= i < |file| && BodyOf(file[i].1).Some? ==> h(BodyOf(file[i].1).value) == file[i].0
  }

  /** Keeps exactly the entries that carry a query text, and exactly the positive budgets of those. */
  method LoadAllowlistFile(file: seq<(string, FileEntry)>)
      returns (bodies: map<string, string>, budgets: map<string, int>)
    ensures forall k :: k in bodies <==> exists i :: 0 <= i < |file| && file[i].0 == k && BodyOf(file[i].1).Some?
    ensures forall k :: k in bodies ==>
                exists i :: 0 <= i < |file| && file[i].0 == k && BodyOf(file[i].1) == Some(bodies[k])
    ensures forall k :: k in budgets <==> exists i :: 0 <= i < |file| && file[i].0 == k && BudgetOf(file[i].1).Some?
    ensures forall k :: k in budgets ==>
                exists i :: 0 <= i < |file| && file[i].0 == k && BudgetOf(file[i].1) == Some(budgets[k])
    ensures forall i ::
              0 <= i < |file| && file[i].1.Object? && file[i].1.body.Some? && Positive(file[i].1.maxComplexity) ==>
              file[i].0 in budgets
    ensures forall k :: k in budgets ==> budgets[k] > 0 && k in bodies
    ensures forall i ::
              0 <= i < |file| && (file[i].1.Text? || (file[i].1.Object? && file[i].1.body.Some?)) ==>
              file[i].0 in bodies
  {
    bodies, budgets := map[], map[];
    for n := 0 to |file|
      invariant forall k :: k in bodies <==> exists i :: 0 <= i < n && file[i].0 == k && BodyOf(file[i].1).Some?
      invariant forall k :: k in bodies ==>
                    exists i :: 0 <= i < n && file[i].0 == k && BodyOf(file[i].1) == Some(bodies[k])
      invariant forall k :: k in budgets <==> exists i :: 0 <= i < n && file[i].0 == k && BudgetOf(file[i].1).Some?
      invariant forall k :: k in budgets ==>
                    exists i :: 0 <= i < n && file[i].0 == k && BudgetOf(file[i].1) == Some(budgets[k])
    {
      var hash, entry := file[n].0, file[n].1;
      match entry
      case Text(q) => bodies := bodies[hash := q];
      case Object(body, maxComplexity) =>
        if body.Some? {
          bodies := bodies[hash := body.value];
          if maxComplexity.Some? && maxComplexity.value > 0 {
            budgets := budgets[hash := maxComplexity.value];
          }
        }
      case Other =>
    }
  }

  /** Bodies of a well-made file hash to the keys they are found under. */
  ghost predicate BodiesMatch(h: Hash, bodies: map<string, string>) {
    forall k :: k in bodies ==> h(bodies[k]) == k
  }

  /** A configuration as the constructor builds it: file hashes and environment hashes together. */
  ghost predicate ValidConfig(h: Hash, cfg: Config) {
    cfg.bodies.Keys <= cfg.hashes && BodiesMatch(h, cfg.bodies)
  }

  method MakeConfig(h: Hash, file: seq<(string, FileEntry)>, envHashes: set<string>, flags: Config)
      returns (cfg: Config)
    ensures WellMade(h, file) ==> ValidConfig(h, cfg)
    ensures cfg.hashes == cfg.bodies.Keys + envHashes
    ensures cfg == flags.(bodies := cfg.bodies, budgets := cfg.budgets, hashes := cfg.hashes)
  {
    var bodies, budgets := LoadAllowlistFile(file);
    cfg := flags.(bodies := bodies, budgets := budgets, hashes := bodies.Keys + envHashes);
  }

  // ---------------------------------------------------------------------------------------------
  // One request
  // ---------------------------------------------------------------------------------------------

  /** `processApq`: register a query sent with its hash, or look one up by hash. */
  function ProcessApq(h: Hash, cfg: Config, store: Store, req: Request, now: int, useStatic: bool,
                      budget: Option<int>): (Response, Store) {
    if req.query != "" then
      if h(req.query) != req.hash then (Refused("PERSISTED_QUERY_HASH_MISMATCH"), store)
      else if !cfg.registrationEnabled && req.hash !in cfg.hashes then
        (Refused("PERSISTED_QUERY_NOT_ALLOWLISTED"), store)
      else (PassedOn(req.query, budget), store[req.hash := Stored(req.query, now + cfg.ttlMs)])
    else
      var found :=
        match Lookup(store, req.hash, now)
        case Some(q) => q
        case None => if useStatic && req.hash in cfg.bodies then cfg.bodies[req.hash] else "";
      if found == "" then (Refused("PERSISTED_QUERY_NOT_FOUND"), store) else (PassedOn(found, budget), store)
  }

  function Serve(h: Hash, cfg: Config, store: Store, req: Request, now: int): (Response, Store) {
    if !cfg.persistedOnly then
      if req.hash == "" then
        if cfg.required then (Refused("PERSISTED_QUERY_REQUIRED"), store) else (PassedOn(req.query, None), store)
      else if !cfg.enabled then (Refused("PERSISTED_QUERY_DISABLED"), store)
      else ProcessApq(h, cfg, store, req, now, false, None)
    else if req.hash == "" || req.hash !in cfg.hashes then (Refused("PERSISTED_QUERY_NOT_FOUND"), store)
    else
      var budget := if req.hash in cfg.budgets then Some(cfg.budgets[req.hash]) else None;
      ProcessApq(h, cfg, store, req, now, true, budget)
  }

  class Middleware {
    var store: Store
    const hash: Hash
    const cfg: Config

    constructor (hash: Hash, cfg: Config)
      ensures this.hash == hash && this.cfg == cfg && store == map[]
    {
      this.hash, this.cfg, store := hash, cfg, map[];
    }

    /** Answers one request; in persisted-only mode only allowlisted texts are ever passed on. */
    method Use(req: Request, now: int) returns (res: Response)
      modifies this
      ensures (res, store) == Serve(hash, cfg, old(store), req, now)
      ensures old(StoreOk(hash, store)) ==> StoreOk(hash, store)
      ensures cfg.persistedOnly && res.PassedOn? ==> req.hash in cfg.hashes
      ensures cfg.persistedOnly && res.PassedOn? && ValidConfig(hash, cfg) && old(StoreOk(hash, store)) ==>
                  hash(res.query) == req.hash
    {
      var useStatic := cfg.persistedOnly;
      var budget: Option<int> := None;
      if !cfg.persistedOnly {
        if req.hash == "" {
          if cfg.required {
            return Refused("PERSISTED_QUERY_REQUIRED");
          }
          return PassedOn(req.query, None);
        }
        if !cfg.enabled {
          return Refused("PERSISTED_QUERY_DISABLED");
        }
      } else {
        if req.hash == "" || req.hash !in cfg.hashes {
          return Refused("PERSISTED_QUERY_NOT_FOUND");
        }
        if req.hash in cfg.budgets {
          budget := Some(cfg.budgets[req.hash]);
        }
      }
      var r := ProcessApq(hash, cfg, store, req, now, useStatic, budget);
      store := r.1;
      return r.0;
    }
  }

  // ---------------------------------------------------------------------------------------------
  // Runs over one store shared by deployments whose settings may differ
  // ---------------------------------------------------------------------------------------------

  /** Each stored query is a text, found under its own hash. */
  ghost predicate StoreOk(h: Hash, store: Store) {
    forall k :: k in store ==> store[k].query != "" && h(store[k].query) == k
  }

  datatype Call = Call(cfg: Config, req: Request, at: int)

  ghost function After(h: Hash, store: Store, calls: seq<Call>): Store
    decreases |calls|
  {
    if calls == [] then store
    else After(h, Serve(h, calls[0].cfg, store, calls[0].req, calls[0].at).1, calls[1..])
  }

  lemma {:induction false} StoreStaysOk(h: Hash, store: Store, calls: seq<Call>)
    requires StoreOk(h, store)
    ensures StoreOk(h, After(h, store, calls))
    decreases |calls|
  {
    if calls != [] {
      StoreStaysOk(h, Serve(h, calls[0].cfg, store, calls[0].req, calls[0].at).1, calls[1..]);
    }
  }

  /**
   * After any sequence of requests to any deployments and any expiries, a persisted-only deployment
   * passes on only queries whose hash is the presented one and is on its allowlist.
   */
  lemma OnlyAllowlistedPass(h: Hash, calls: seq<Call>, cfg: Config, req: Request, now: int)
    requires ValidConfig(h, cfg) && cfg.persistedOnly
    ensures var res := Serve(h, cfg, After(h, map[], calls), req, now).0;
            res.PassedOn? ==> h(res.query) == req.hash && h(res.query) in cfg.hashes
  {
    StoreStaysOk(h, map[], calls);
  }

  /** The request registers a query under this hash, or tries to. */
  predicate Sends(req: Request, hash: string) { req.hash == hash && req.query != "" }

  /** Between a registration and a look-up nothing else is sent under the hash. */
  lemma {:induction false} RegistrationStays(h: Hash, store: Store, calls: seq<Call>, hash: string)
    requires hash in store && forall i :: 0 <= i < |calls| ==> !Sends(calls[i].req, hash)
    ensures hash in After(h, store, calls) && After(h, store, calls)[hash] == store[hash]
    decreases |calls|
  {
    if calls != [] {
      RegistrationStays(h, Serve(h, calls[0].cfg, store, calls[0].req, calls[0].at).1, calls[1..], hash);
    }
  }

  /**
   * A query that a call passed on with its hash can be fetched by the hash alone until its time to live
   * runs out, whatever other calls come between; afterwards only an allowlisted body is found.
   */
  lemma RegisteredIsFetched(h: Hash, store: Store, first: Call, calls: seq<Call>, cfg: Config, now: int)
    requires first.req.query != "" && first.req.hash != "" && (first.cfg.enabled || first.cfg.persistedOnly)
    requires Serve(h, first.cfg, store, first.req, first.at).0.PassedOn?
    requires forall i :: 0 <= i < |calls| ==> !Sends(calls[i].req, first.req.hash)
    requires if cfg.persistedOnly then first.req.hash in cfg.hashes else cfg.enabled
    ensures var s := After(h, Serve(h, first.cfg, store, first.req, first.at).1, calls);
            var answer := Serve(h, cfg, s, Request(first.req.hash, ""), now).0;
            if now < first.at + first.cfg.ttlMs then answer.PassedOn? && answer.query == first.req.query
            else if cfg.persistedOnly && first.req.hash in cfg.bodies && cfg.bodies[first.req.hash] != "" then
              answer.PassedOn? && answer.query == cfg.bodies[first.req.hash]
            else answer == Refused("PERSISTED_QUERY_NOT_FOUND")
  {
    hide Serve, After;
    Registers(h, store, first);
    RegistrationStays(h, Serve(h, first.cfg, store, first.req, first.at).1, calls, first.req.hash);
    LooksUp(h, cfg, After(h, Serve(h, first.cfg, store, first.req, first.at).1, calls), first.req.hash, now);
  }

  lemma Registers(h: Hash, store: Store, c: Call)
    requires c.req.query != "" && c.req.hash != "" && Serve(h, c.cfg, store, c.req, c.at).0.PassedOn?
    ensures var s := Serve(h, c.cfg, store, c.req, c.at).1;
            c.req.hash in s && s[c.req.hash] == Stored(c.req.query, c.at + c.cfg.ttlMs)
  {
  }

  lemma LooksUp(h: Hash, cfg: Config, store: Store, hash: string, now: int)
    requires hash != "" && hash in store && store[hash].query != ""
    requires if cfg.persistedOnly then hash in cfg.hashes else cfg.enabled
    ensures var answer := Serve(h, cfg, store, Request(hash, ""), now).0;
            if now < store[hash].expiresAt then answer.PassedOn? && answer.query == store[hash].query
            else if cfg.persistedOnly && hash in cfg.bodies && cfg.bodies[hash] != "" then
              answer.PassedOn? && answer.query == cfg.bodies[hash]
            else answer == Refused("PERSISTED_QUERY_NOT_FOUND")
  {
  }

  const CODES: set<string> :=
    {"PERSISTED_QUERY_REQUIRED", "PERSISTED_QUERY_DISABLED", "PERSISTED_QUERY_HASH_MISMATCH",
     "PERSISTED_QUERY_NOT_ALLOWLISTED", "PERSISTED_QUERY_NOT_FOUND"}

  /** Why a request is refused, and with which code. */
  lemma RefusedIff(h: Hash, cfg: Config, store: Store, req: Request, now: int)
    ensures var answer := Serve(h, cfg, store, req, now).0;
            var open := !cfg.persistedOnly;
            var admitted := req.hash != "" && if open then cfg.enabled else req.hash in cfg.hashes;
            && (answer == Refused("PERSISTED_QUERY_REQUIRED") <==> open && req.hash == "" && cfg.required)
            && (answer == Refused("PERSISTED_QUERY_DISABLED") <==> open && req.hash != "" && !cfg.enabled)
            && (answer == Refused("PERSISTED_QUERY_HASH_MISMATCH") <==>
                  admitted && req.query != "" && h(req.query) != req.hash)
            && (answer == Refused("PERSISTED_QUERY_NOT_ALLOWLISTED") <==>
                  && admitted && req.query != "" && h(req.query) == req.hash
                  && !cfg.registrationEnabled && req.hash !in cfg.hashes)
            && (answer.Refused? ==> answer.code in CODES)
  {
  }

  /** A query passed on in persisted-only mode carries its hash's complexity budget, and otherwise none. */
  lemma BudgetIs(h: Hash, cfg: Config, store: Store, req: Request, now: int)
    requires Serve(h, cfg, store, req, now).0.PassedOn?
    ensures Serve(h, cfg, store, req, now).0.budget ==
              if cfg.persistedOnly && req.hash in cfg.budgets then Some(cfg.budgets[req.hash]) else None
  {
  }

  /** An allowlisted body is always served: no expiry or registration can make its hash unknown. */
  lemma AllowlistedAlwaysServed(h: Hash, calls: seq<Call>, cfg: Config, hash: string, now: int)
    requires ValidConfig(h, cfg) && cfg.persistedOnly && hash in cfg.bodies && hash != "" && cfg.bodies[hash] != ""
    ensures Serve(h, cfg, After(h, map[], calls), Request(hash, ""), now).0.PassedOn?
  {
    StoreStaysOk(h, map[], calls);
  }
}
