/** The registry's table of token placements as a state machine. Each step reads the clock once. */
module ReservationTable {
  import opened ByteStrings
  import opened Placement
  import opened PlacementTtl

  datatype Key = Key(token: string, relayId: string)

  datatype Row = Row(registeredRelayBaseUrl: string, role: Role, blockHash: string, expiryAt: int)

  type Table = map<Key, Row>

  datatype Step =
    | Purge
    | Reserve(entries: seq<Entry>, ttlSeconds: Option<int>, healthy: seq<HealthyRelay>)
    | Abandon(failures: seq<Key>)
    | RemoveRelay(relayId: string)

  datatype Event = Event(step: Step, now: int)

  datatype Config = Config(policy: PlacementPolicy, tokenTtlSeconds: int)

  datatype LockOutcome =
    | Locked(
        grantedTtlSeconds: int,
        requestedTtlSeconds: int,
        degraded: bool,
        stripeCount: nat,
        replicaFactor: nat,
        idealRelayCount: int,
        actualRelayCount: int)
    | DuplicateToken
    | TokenOccupied(tokens: seq<string>)
    | NoHealthyRelay

  // ---------- The steps on the table ----------

  function Purged(t: Table, now: int): Table {
    map k | k in t && t[k].expiryAt > now :: t[k]
  }

  predicate Occupied(t: Table, token: string, now: int) {
    exists k | k in t :: k.token == token && t[k].role == Primary && t[k].expiryAt > now
  }

  function OccupiedTokens(t: Table, entries: seq<Entry>, now: int): seq<string> {
    if entries == [] then []
    else
      var n := |entries| - 1;
      OccupiedTokens(t, entries[..n], now) + if Occupied(t, entries[n].token, now) then [entries[n].token] else []
  }

  function KeyOf(p: PlannedPlacement): Key {
    Key(p.token, p.relayId)
  }

  function RowOf(p: PlannedPlacement, expiry: int): Row {
    Row(p.relayBaseUrl, p.role, p.blockHash, expiry)
  }

  // Insert or overwrite, in order.
  function Upserted(t: Table, planned: seq<PlannedPlacement>, expiry: int): Table {
    if planned == [] then t
    else
      var n := |planned| - 1;
      Upserted(t, planned[..n], expiry)[KeyOf(planned[n]) := RowOf(planned[n], expiry)]
  }

  function RequestFor(config: Config, ttlSeconds: Option<int>): int {
    ClampRequest(if ttlSeconds.Some? then ttlSeconds.value else config.tokenTtlSeconds, config.policy)
  }

  /** When a reserve request is served rather than refused. */
  predicate Grantable(t: Table, entries: seq<Entry>, healthy: seq<HealthyRelay>, now: int) {
    && entries != [] && DistinctTokens(entries) && healthy != []
    && forall i | 0 <= i < |entries| :: !Occupied(t, entries[i].token, now)
  }

  function Reserved(config: Config, t: Table, entries: seq<Entry>, ttlSeconds: Option<int>,
                    healthy: seq<HealthyRelay>, now: int): Table
  {
    if !Grantable(t, entries, healthy, now) then Purged(t, now)
    else
      var request := RequestFor(config, ttlSeconds);
      Upserted(Purged(t, now), ResolvedRows(entries, healthy, request, config.policy),
               now + GrantFor(healthy, |entries|, request, config.policy))
  }

  // Replicas only; a primary row is never abandoned.
  function Abandoned(t: Table, failures: seq<Key>): Table {
    map k | k in t && !(k in failures && t[k].role == Replica) :: t[k]
  }

  function WithoutRelay(t: Table, relayId: string): Table {
    map k | k in t && k.relayId != relayId :: t[k]
  }

  function Next(config: Config, t: Table, event: Event): Table {
    match event.step
    case Purge => Purged(t, event.now)
    case Reserve(entries, ttlSeconds, healthy) => Reserved(config, t, entries, ttlSeconds, healthy, event.now)
    case Abandon(failures) => Abandoned(t, failures)
    case RemoveRelay(relayId) => WithoutRelay(t, relayId)
  }

  function Run(config: Config, t: Table, events: seq<Event>): Table {
    if events == [] then t
    else
      var n := |events| - 1;
      Next(config, Run(config, t, events[..n]), events[n])
  }

  // Relay ids are the primary key of the registry's relay table.
  ghost predicate WellFormed(step: Step) {
    step.Reserve? ==> DistinctRelays(step.healthy)
  }

  // ---------- Invariants ----------

  ghost predicate OnePrimary(t: Table) {
    forall k, l | k in t && l in t && k.token == l.token && t[k].role == Primary && t[l].role == Primary :: k == l
  }

  // All rows of a token carry one hash and expiry.
  ghost predicate Uniform(t: Table) {
    forall k, l | k in t && l in t && k.token == l.token ::
      t[k].blockHash == t[l].blockHash && t[k].expiryAt == t[l].expiryAt
  }

  ghost predicate HasPrimary(t: Table, token: string) {
    exists k | k in t :: k.token == token && t[k].role == Primary
  }

  /** Every token in the table has exactly one primary, and one hash and expiry throughout. */
  ghost predicate Coherent(t: Table) {
    OnePrimary(t) && Uniform(t) && forall k | k in t :: HasPrimary(t, k.token)
  }

  // ---------- What an upsert leaves ----------

  // A row of the result is planned under its key, or an old row whose key is not planned.
  lemma {:induction false} UpsertedRows(t: Table, planned: seq<PlannedPlacement>, expiry: int)
    ensures var u := Upserted(t, planned, expiry);
            && (forall p | p in planned :: KeyOf(p) in u)
            && (forall k | k in t :: k in u)
            && forall k | k in u ::
                 || (exists p | p in planned :: KeyOf(p) == k && u[k] == RowOf(p, expiry))
                 || (k in t && u[k] == t[k] && forall p | p in planned :: KeyOf(p) != k)
  {
    if planned != [] {
      var n := |planned| - 1;
      var front, last := planned[..n], planned[n];
      UpsertedRows(t, front, expiry);
      assert planned == front + [last];
      var u := Upserted(t, planned, expiry);
      forall k | k in u
        ensures || (exists p | p in planned :: KeyOf(p) == k && u[k] == RowOf(p, expiry))
                || (k in t && u[k] == t[k] && forall p | p in planned :: KeyOf(p) != k)
      {
        if k == KeyOf(last) {
          assert last in planned && u[k] == RowOf(last, expiry);
        }
      }
    }
  }

  // Where one row of the result comes from.
  lemma UpsertedFrom(t: Table, planned: seq<PlannedPlacement>, expiry: int, k: Key)
    returns (p: Option<PlannedPlacement>)
    requires k in Upserted(t, planned, expiry)
    ensures p.Some? ==> p.value in planned && KeyOf(p.value) == k
                        && Upserted(t, planned, expiry)[k] == RowOf(p.value, expiry)
    ensures p.None? ==> k in t && Upserted(t, planned, expiry)[k] == t[k]
  {
    hide Upserted;
    UpsertedRows(t, planned, expiry);
    if q :| q in planned && KeyOf(q) == k && Upserted(t, planned, expiry)[k] == RowOf(q, expiry) {
      p := Some(q);
    } else {
      p := None;
    }
  }

  lemma {:induction false} RowsOfTokenHas(rows: seq<PlannedPlacement>, p: PlannedPlacement, token: string)
    ensures p in RowsOfToken(rows, token) <==> p in rows && p.token == token
  {
    if rows != [] {
      var n := |rows| - 1;
      RowsOfTokenHas(rows[..n], p, token);
      assert rows == rows[..n] + [rows[n]];
    }
  }

  // What the plan of a reserve request says about one row.
  lemma PlannedRow(entries: seq<Entry>, healthy: seq<HealthyRelay>, request: int, policy: PlacementPolicy,
                   p: PlannedPlacement)
    requires healthy != [] && entries != [] && DistinctRelays(healthy) && DistinctTokens(entries)
    requires p in ResolvedRows(entries, healthy, request, policy)
    ensures exists i | 0 <= i < |entries| :: p.token == entries[i].token && p.blockHash == entries[i].blockHash
  {
    hide ResolvedRows;
    hide RowsOfToken;
    hide PlanUnder;
    hide EligiblePool;
    hide GrantFor;
    hide CopiesFor;
    var rows := ResolvedRows(entries, healthy, request, policy);
    RowsOfTokenHas(rows, p, p.token);
    if i :| 0 <= i < |entries| && entries[i].token == p.token {
      ResolutionIsSound(entries, healthy, request, policy, i);
      var k :| 0 <= k < |RowsOfToken(rows, p.token)| && RowsOfToken(rows, p.token)[k] == p;
    } else {
      NoStrayRows(entries, healthy, request, policy, p.token);
    }
  }

  lemma NoStrayRows(entries: seq<Entry>, healthy: seq<HealthyRelay>, request: int, policy: PlacementPolicy,
                    token: string)
    requires healthy != [] && DistinctTokens(entries)
    requires forall i | 0 <= i < |entries| :: entries[i].token != token
    ensures RowsOfToken(ResolvedRows(entries, healthy, request, policy), token) == []
  {
    hide PlanFor;
    hide RowsOfToken;
    hide GrantFor;
    hide EligiblePool;
    var granted := GrantFor(healthy, |entries|, request, policy);
    GrantNeverExceeds(healthy, |entries|, request, policy);
    PlanHasNoStrays(entries, EligiblePool(healthy, granted, policy), policy.stripeTargetRelays,
                    policy.maxFileReplicaCount, policy.maxReplicasPerBlock, token);
  }

  // Two planned rows of one token on one relay, or both primary, are the same row.
  lemma PlannedRowsAgree(entries: seq<Entry>, healthy: seq<HealthyRelay>, request: int, policy: PlacementPolicy,
                         p: PlannedPlacement, q: PlannedPlacement)
    requires healthy != [] && entries != [] && DistinctRelays(healthy) && DistinctTokens(entries)
    requires p in ResolvedRows(entries, healthy, request, policy)
    requires q in ResolvedRows(entries, healthy, request, policy)
    requires p.token == q.token && (p.relayId == q.relayId || (p.role == Primary && q.role == Primary))
    ensures p == q
  {
    hide ResolvedRows;
    hide RowsOfToken;
    hide PlanUnder;
    hide EligiblePool;
    hide GrantFor;
    hide CopiesFor;
    var rows := ResolvedRows(entries, healthy, request, policy);
    PlannedRow(entries, healthy, request, policy, p);
    var i :| 0 <= i < |entries| && p.token == entries[i].token;
    ResolutionIsSound(entries, healthy, request, policy, i);
    RowsOfTokenHas(rows, p, p.token);
    RowsOfTokenHas(rows, q, p.token);
    var own := RowsOfToken(rows, p.token);
    var j :| 0 <= j < |own| && own[j] == p;
    var k :| 0 <= k < |own| && own[k] == q;
    assert own[j].role == Primary <==> j == 0;
    assert own[k].role == Primary <==> k == 0;
  }

  lemma PlannedPrimary(entries: seq<Entry>, healthy: seq<HealthyRelay>, request: int, policy: PlacementPolicy,
                       i: nat) returns (p: PlannedPlacement)
    requires healthy != [] && DistinctRelays(healthy) && DistinctTokens(entries) && i < |entries|
    ensures p in ResolvedRows(entries, healthy, request, policy)
    ensures p.token == entries[i].token && p.blockHash == entries[i].blockHash && p.role == Primary
  {
    hide ResolvedRows;
    hide RowsOfToken;
    hide PlanUnder;
    hide EligiblePool;
    hide GrantFor;
    hide CopiesFor;
    var rows := ResolvedRows(entries, healthy, request, policy);
    ResolutionIsSound(entries, healthy, request, policy, i);
    p := RowsOfToken(rows, entries[i].token)[0];
    assert p in RowsOfToken(rows, entries[i].token);
    RowsOfTokenHas(rows, p, entries[i].token);
  }

  // ---------- Every step keeps the invariants ----------

  // One primary per token among the planned rows.
  ghost predicate PrimariesAgree(planned: seq<PlannedPlacement>) {
    forall p, q | p in planned && q in planned && p.token == q.token && p.role == Primary && q.role == Primary ::
      p == q
  }

  lemma UpsertKeepsOnePrimary(t: Table, planned: seq<PlannedPlacement>, expiry: int)
    requires OnePrimary(t) && PrimariesAgree(planned)
    requires forall p, k | p in planned && k in t && k.token == p.token :: t[k].role != Primary
    ensures OnePrimary(Upserted(t, planned, expiry))
  {
    hide Upserted;
    var u := Upserted(t, planned, expiry);
    forall k, l | k in u && l in u && k.token == l.token && u[k].role == Primary && u[l].role == Primary
      ensures k == l
    {
      var p := UpsertedFrom(t, planned, expiry, k);
      var q := UpsertedFrom(t, planned, expiry, l);
      assert p.Some? <==> q.Some?;
    }
  }

  // A grantable request meets no primary row of its tokens in the purged table.
  lemma NoPrimaryLeft(t: Table, entries: seq<Entry>, healthy: seq<HealthyRelay>, now: int, k: Key, i: nat)
    requires Grantable(t, entries, healthy, now) && k in Purged(t, now)
    requires i < |entries| && k.token == entries[i].token
    ensures Purged(t, now)[k].role != Primary
  {
    assert !Occupied(t, entries[i].token, now);
  }

  lemma ReserveKeepsOnePrimary(config: Config, t: Table, entries: seq<Entry>, ttlSeconds: Option<int>,
                               healthy: seq<HealthyRelay>, now: int)
    requires OnePrimary(t) && DistinctRelays(healthy)
    ensures OnePrimary(Reserved(config, t, entries, ttlSeconds, healthy, now))
  {
    hide ResolvedRows;
    hide Upserted;
    hide Occupied;
    hide GrantFor;
    if Grantable(t, entries, healthy, now) {
      var request := RequestFor(config, ttlSeconds);
      var planned := ResolvedRows(entries, healthy, request, config.policy);
      forall p, q | p in planned && q in planned && p.token == q.token && p.role == Primary && q.role == Primary
        ensures p == q
      {
        PlannedRowsAgree(entries, healthy, request, config.policy, p, q);
      }
      forall p, k | p in planned && k in Purged(t, now) && k.token == p.token
        ensures Purged(t, now)[k].role != Primary
      {
        PlannedRow(entries, healthy, request, config.policy, p);
        var i :| 0 <= i < |entries| && p.token == entries[i].token;
        NoPrimaryLeft(t, entries, healthy, now, k, i);
      }
      UpsertKeepsOnePrimary(Purged(t, now), planned, now + GrantFor(healthy, |entries|, request, config.policy));
    }
  }

  /** In every run, with removals or without, a token has at most one primary row. */
  lemma {:induction false} RunsKeepOnePrimary(config: Config, t: Table, events: seq<Event>)
    requires OnePrimary(t) && forall e | e in events :: WellFormed(e.step)
    ensures OnePrimary(Run(config, t, events))
  {
    hide Reserved;
    if events != [] {
      var n := |events| - 1;
      RunsKeepOnePrimary(config, t, events[..n]);
      var before := Run(config, t, events[..n]);
      assert events[n] in events;
      match events[n].step
      case Reserve(entries, ttlSeconds, healthy) =>
        ReserveKeepsOnePrimary(config, before, entries, ttlSeconds, healthy, events[n].now);
      case Purge =>
      case Abandon(failures) =>
      case RemoveRelay(relayId) =>
    }
  }

  lemma PurgeKeepsCoherence(t: Table, now: int)
    requires Coherent(t)
    ensures Coherent(Purged(t, now))
  {
    var u := Purged(t, now);
    forall k | k in u
      ensures HasPrimary(u, k.token)
    {
      assert HasPrimary(t, k.token);
      var l :| l in t && l.token == k.token && t[l].role == Primary;
      assert l in u;
    }
  }

  lemma AbandonKeepsCoherence(t: Table, failures: seq<Key>)
    requires Coherent(t)
    ensures Coherent(Abandoned(t, failures))
  {
    var u := Abandoned(t, failures);
    forall k | k in u
      ensures HasPrimary(u, k.token)
    {
      assert HasPrimary(t, k.token);
      var l :| l in t && l.token == k.token && t[l].role == Primary;
      assert l in u;
    }
  }

  // In a coherent table a grantable request finds no row of its tokens at all.
  lemma NoRowLeft(t: Table, entries: seq<Entry>, healthy: seq<HealthyRelay>, now: int, k: Key, i: nat)
    requires Grantable(t, entries, healthy, now) && Coherent(t)
    requires i < |entries| && k.token == entries[i].token
    ensures k !in Purged(t, now)
  {
    hide Grantable;
    if k in Purged(t, now) {
      PurgeKeepsCoherence(t, now);
      assert HasPrimary(Purged(t, now), k.token);
      var l :| l in Purged(t, now) && l.token == k.token && Purged(t, now)[l].role == Primary;
      NoPrimaryLeft(t, entries, healthy, now, l, i);
      assert false;
    }
  }

  // Planned rows of one token agree on the hash, and the token has a planned primary.
  ghost predicate PlanCoherent(planned: seq<PlannedPlacement>) {
    && PrimariesAgree(planned)
    && (forall p, q | p in planned && q in planned && p.token == q.token ::
          p.blockHash == q.blockHash && (p.relayId == q.relayId ==> p == q))
    && (forall p | p in planned :: exists q | q in planned :: q.token == p.token && q.role == Primary)
  }

  lemma ResolvedRowsAreCoherent(entries: seq<Entry>, healthy: seq<HealthyRelay>, request: int,
                                policy: PlacementPolicy)
    requires healthy != [] && entries != [] && DistinctRelays(healthy) && DistinctTokens(entries)
    ensures PlanCoherent(ResolvedRows(entries, healthy, request, policy))
  {
    hide ResolvedRows;
    var planned := ResolvedRows(entries, healthy, request, policy);
    forall p, q | p in planned && q in planned && p.token == q.token
      ensures p.blockHash == q.blockHash && (p.relayId == q.relayId ==> p == q)
      ensures p.role == Primary && q.role == Primary ==> p == q
    {
      PlannedRow(entries, healthy, request, policy, p);
      PlannedRow(entries, healthy, request, policy, q);
      if p.relayId == q.relayId || (p.role == Primary && q.role == Primary) {
        PlannedRowsAgree(entries, healthy, request, policy, p, q);
      }
    }
    forall p | p in planned
      ensures exists q | q in planned :: q.token == p.token && q.role == Primary
    {
      PlannedRow(entries, healthy, request, policy, p);
      var i :| 0 <= i < |entries| && p.token == entries[i].token;
      var q := PlannedPrimary(entries, healthy, request, policy, i);
    }
  }

  // Planned tokens are new to the table.
  ghost predicate Apart(t: Table, planned: seq<PlannedPlacement>) {
    forall p, k | p in planned && k in t :: k.token != p.token
  }

  lemma UpsertKeepsUniform(t: Table, planned: seq<PlannedPlacement>, expiry: int)
    requires Uniform(t) && PlanCoherent(planned) && Apart(t, planned)
    ensures Uniform(Upserted(t, planned, expiry))
  {
    hide Upserted;
    var u := Upserted(t, planned, expiry);
    forall k, l | k in u && l in u && k.token == l.token
      ensures u[k].blockHash == u[l].blockHash && u[k].expiryAt == u[l].expiryAt
    {
      var p := UpsertedFrom(t, planned, expiry, k);
      var q := UpsertedFrom(t, planned, expiry, l);
      assert p.Some? <==> q.Some?;
    }
  }

  lemma UpsertKeepsPrimary(t: Table, planned: seq<PlannedPlacement>, expiry: int, k: Key)
    requires PlanCoherent(planned) && Apart(t, planned) && forall l | l in t :: HasPrimary(t, l.token)
    requires k in Upserted(t, planned, expiry)
    ensures HasPrimary(Upserted(t, planned, expiry), k.token)
  {
    hide Upserted;
    var p := UpsertedFrom(t, planned, expiry, k);
    if p.Some? {
      var q :| q in planned && q.token == p.value.token && q.role == Primary;
      UpsertedKey(t, planned, expiry, q);
      assert KeyOf(q) in Upserted(t, planned, expiry);
    } else {
      assert HasPrimary(t, k.token);
      var l :| l in t && l.token == k.token && t[l].role == Primary;
      UpsertedRows(t, planned, expiry);
      assert l in Upserted(t, planned, expiry);
      var q := UpsertedFrom(t, planned, expiry, l);
      assert q.None?;
    }
  }

  lemma UpsertKeepsCoherence(t: Table, planned: seq<PlannedPlacement>, expiry: int)
    requires Coherent(t) && PlanCoherent(planned) && Apart(t, planned)
    ensures Coherent(Upserted(t, planned, expiry))
  {
    hide Upserted;
    hide HasPrimary;
    hide OnePrimary;
    hide Uniform;
    UpsertKeepsUniform(t, planned, expiry);
    UpsertKeepsOnePrimary(t, planned, expiry);
    forall k | k in Upserted(t, planned, expiry)
      ensures HasPrimary(Upserted(t, planned, expiry), k.token)
    {
      UpsertKeepsPrimary(t, planned, expiry, k);
    }
  }

  // With one planned row per key, that row is what the table holds.
  lemma UpsertedKey(t: Table, planned: seq<PlannedPlacement>, expiry: int, q: PlannedPlacement)
    requires PlanCoherent(planned) && q in planned
    ensures KeyOf(q) in Upserted(t, planned, expiry)
    ensures Upserted(t, planned, expiry)[KeyOf(q)] == RowOf(q, expiry)
  {
    hide Upserted;
    UpsertedRows(t, planned, expiry);
  }

  lemma ReserveKeepsCoherence(config: Config, t: Table, entries: seq<Entry>, ttlSeconds: Option<int>,
                              healthy: seq<HealthyRelay>, now: int)
    requires Coherent(t) && DistinctRelays(healthy)
    ensures Coherent(Reserved(config, t, entries, ttlSeconds, healthy, now))
  {
    hide ResolvedRows;
    hide Upserted;
    hide Occupied;
    hide GrantFor;
    hide Coherent;
    PurgeKeepsCoherence(t, now);
    if Grantable(t, entries, healthy, now) {
      var request := RequestFor(config, ttlSeconds);
      var planned := ResolvedRows(entries, healthy, request, config.policy);
      ResolvedRowsAreCoherent(entries, healthy, request, config.policy);
      forall p, k | p in planned && k in Purged(t, now)
        ensures k.token != p.token
      {
        PlannedRow(entries, healthy, request, config.policy, p);
        var i :| 0 <= i < |entries| && p.token == entries[i].token;
        if k.token == p.token {
          NoRowLeft(t, entries, healthy, now, k, i);
        }
      }
      UpsertKeepsCoherence(Purged(t, now), planned, now + GrantFor(healthy, |entries|, request, config.policy));
    }
  }

  /** Removing a relay leaves no replica behind whose primary goes with it. */
  ghost predicate SafeRemoval(t: Table, relayId: string) {
    forall k, l | k in t && l in t && k.token == l.token && k.relayId == relayId && t[k].role == Primary ::
      l.relayId == relayId
  }

  /** A removal keeps coherence if and only if it is safe. */
  lemma RemovalExact(t: Table, relayId: string)
    requires Coherent(t)
    ensures Coherent(WithoutRelay(t, relayId)) <==> SafeRemoval(t, relayId)
  {
    var u := WithoutRelay(t, relayId);
    if SafeRemoval(t, relayId) {
      forall k | k in u
        ensures HasPrimary(u, k.token)
      {
        assert HasPrimary(t, k.token);
        var l :| l in t && l.token == k.token && t[l].role == Primary;
        assert l in u;
      }
    } else {
      var k, l :| k in t && l in t && k.token == l.token && k.relayId == relayId && t[k].role == Primary
                  && l.relayId != relayId;
      assert l in u && !HasPrimary(u, l.token);
    }
  }

  /** Exactly which steps keep a table coherent: all of them, but for unsafe removals. */
  lemma StepExact(config: Config, t: Table, event: Event)
    requires Coherent(t) && WellFormed(event.step)
    ensures Coherent(Next(config, t, event))
       <==> (event.step.RemoveRelay? ==> SafeRemoval(t, event.step.relayId))
  {
    hide Reserved;
    hide Coherent;
    hide SafeRemoval;
    match event.step
    case Reserve(entries, ttlSeconds, healthy) =>
      ReserveKeepsCoherence(config, t, entries, ttlSeconds, healthy, event.now);
    case Purge => PurgeKeepsCoherence(t, event.now);
    case Abandon(failures) => AbandonKeepsCoherence(t, failures);
    case RemoveRelay(relayId) => RemovalExact(t, relayId);
  }

  // Every removal of the run is safe when its turn comes.
  ghost predicate SafeRun(config: Config, t: Table, events: seq<Event>) {
    events == [] ||
    (var n := |events| - 1;
     && SafeRun(config, t, events[..n])
     && (events[n].step.RemoveRelay? ==> SafeRemoval(Run(config, t, events[..n]), events[n].step.relayId)))
  }

  /** Every token keeps one primary, one hash and one expiry as long as all removals are safe. */
  lemma {:induction false} RunsKeepCoherence(config: Config, t: Table, events: seq<Event>)
    requires Coherent(t) && (forall e | e in events :: WellFormed(e.step)) && SafeRun(config, t, events)
    ensures Coherent(Run(config, t, events))
  {
    hide Next;
    hide Coherent;
    hide SafeRemoval;
    if events != [] {
      var n := |events| - 1;
      RunsKeepCoherence(config, t, events[..n]);
      assert events[n] in events;
      StepExact(config, Run(config, t, events[..n]), events[n]);
    }
  }

  /** A table stays coherent throughout a run if and only if all its removals are safe. */
  lemma {:induction false} CoherentThroughoutExactly(config: Config, t: Table, events: seq<Event>)
    requires Coherent(t) && forall e | e in events :: WellFormed(e.step)
    ensures (forall n | 0 <= n <= |events| :: Coherent(Run(config, t, events[..n]))) <==> SafeRun(config, t, events)
  {
    hide Next;
    hide Coherent;
    hide SafeRemoval;
    if events == [] {
      assert events[..0] == events;
    } else {
      var m := |events| - 1;
      var front := events[..m];
      CoherentThroughoutExactly(config, t, front);
      assert forall n | 0 <= n <= m :: front[..n] == events[..n];
      assert front[..m] == front;
      assert events[..m + 1] == events && events[m] in events;
      if Coherent(Run(config, t, front)) {
        StepExact(config, Run(config, t, front), events[m]);
      }
      if SafeRun(config, t, events) {
        forall n | 0 <= n <= |events|
          ensures Coherent(Run(config, t, events[..n]))
        {
          if n <= m {
            assert front[..n] == events[..n];
          } else {
            assert events[..n] == events;
            RunsKeepCoherence(config, t, events);
          }
        }
      }
    }
  }

  /** Without removals nothing has to be checked. */
  lemma {:induction false} RunsWithoutRemovalAreSafe(config: Config, t: Table, events: seq<Event>)
    requires forall e | e in events :: !e.step.RemoveRelay?
    ensures SafeRun(config, t, events)
  {
    if events != [] {
      assert events[|events| - 1] in events;
      RunsWithoutRemovalAreSafe(config, t, events[..|events| - 1]);
    }
  }

  /** A granted token with a replica loses its primary when the primary's relay goes. */
  lemma RemovingPrimaryBreaks(config: Config, t: Table, entries: seq<Entry>, ttlSeconds: Option<int>,
                              healthy: seq<HealthyRelay>, now: int, i: nat) returns (relayId: string)
    requires Coherent(t) && DistinctRelays(healthy) && Grantable(t, entries, healthy, now) && i < |entries|
    requires 1 <= GrantedCopies(config, entries, ttlSeconds, healthy)
    ensures !Coherent(WithoutRelay(Reserved(config, t, entries, ttlSeconds, healthy, now), relayId))
  {
    hide ResolvedRows;
    hide Upserted;
    hide Occupied;
    hide GrantFor;
    hide EligiblePool;
    hide PlanUnder;
    hide Coherent;
    hide RowsOfToken;
    hide PlacedAmong;
    var request := RequestFor(config, ttlSeconds);
    var planned := ResolvedRows(entries, healthy, request, config.policy);
    var u := Reserved(config, t, entries, ttlSeconds, healthy, now);
    ResolutionIsSound(entries, healthy, request, config.policy, i);
    ResolvedRowsAreCoherent(entries, healthy, request, config.policy);
    var rows := RowsOfToken(planned, entries[i].token);
    var p, q := rows[0], rows[1];
    assert p in rows && q in rows;
    RowsOfTokenHas(planned, p, entries[i].token);
    RowsOfTokenHas(planned, q, entries[i].token);
    var expiry := now + GrantFor(healthy, |entries|, request, config.policy);
    UpsertedKey(Purged(t, now), planned, expiry, p);
    UpsertedKey(Purged(t, now), planned, expiry, q);
    relayId := p.relayId;
    ReserveKeepsCoherence(config, t, entries, ttlSeconds, healthy, now);
    RemovalExact(u, relayId);
    assert KeyOf(p) in u && KeyOf(q) in u;
  }

  // The stripe and replica choice of a granted request.
  function GrantedChoice(config: Config, entries: seq<Entry>, ttlSeconds: Option<int>, healthy: seq<HealthyRelay>)
    : Option<StripeReplicaChoice>
    requires healthy != []
  {
    var request := RequestFor(config, ttlSeconds);
    var pool := EligiblePool(healthy, GrantFor(healthy, |entries|, request, config.policy), config.policy);
    var plan :- PlanUnder(entries, pool, config.policy);
    Some(plan.choice)
  }

  // How many replicas a granted request gives each of its tokens.
  function GrantedCopies(config: Config, entries: seq<Entry>, ttlSeconds: Option<int>, healthy: seq<HealthyRelay>): nat
    requires healthy != []
  {
    var request := RequestFor(config, ttlSeconds);
    ResolvedPlan(entries, healthy, request, config.policy);
    var pool := EligiblePool(healthy, GrantFor(healthy, |entries|, request, config.policy), config.policy);
    CopiesFor(PlanUnder(entries, pool, config.policy).value.choice, config.policy.maxReplicasPerBlock)
  }

  /** From the empty table, one reservation and one removal leave a token without a primary. */
  lemma RemovalBreaksCoherence() returns (config: Config, events: seq<Event>)
    ensures |events| == 2 && events[0].step.Reserve? && events[1].step.RemoveRelay?
    ensures forall e | e in events :: WellFormed(e.step)
    ensures Coherent(Run(config, map[], events[..1])) && !Coherent(Run(config, map[], events))
  {
    hide Next;
    hide Coherent;
    hide SafeRun;
    config := Config(PlacementPolicy(1, 1, 2, 3600, 60, 86400, 4), 3600);
    var entries := [Entry("t", "h")];
    var healthy := [HealthyRelay("a", "u", 86400), HealthyRelay("b", "v", 86400)];
    var reserve := Event(Reserve(entries, None, healthy), 0);
    OneReplicaGranted(config, entries, healthy);
    EmptyIsCoherent();
    var relayId := RemovingPrimaryBreaks(config, map[], entries, None, healthy, 0, 0);
    var removal := Event(RemoveRelay(relayId), 0);
    events := [reserve, removal];
    StepExact(config, map[], reserve);
    assert events[..1] == [reserve] && [reserve][..0] == [];
    NextAre(config, map[], reserve, Reserved(config, map[], entries, None, healthy, 0), removal);
  }

  lemma NextAre(config: Config, t: Table, reserve: Event, u: Table, removal: Event)
    requires reserve.step.Reserve? && removal.step.RemoveRelay?
    requires u == Reserved(config, t, reserve.step.entries, reserve.step.ttlSeconds, reserve.step.healthy, reserve.now)
    ensures Next(config, t, reserve) == u && Next(config, u, removal) == WithoutRelay(u, removal.step.relayId)
  {
    hide Reserved;
  }

  lemma EmptyIsCoherent()
    ensures Coherent(map[])
  {
  }

  lemma OneReplicaGranted(config: Config, entries: seq<Entry>, healthy: seq<HealthyRelay>)
    requires config == Config(PlacementPolicy(1, 1, 2, 3600, 60, 86400, 4), 3600) && |entries| == 1
    requires healthy == [HealthyRelay("a", "u", 86400), HealthyRelay("b", "v", 86400)]
    ensures DistinctRelays(healthy) && GrantedCopies(config, entries, None, healthy) == 1
    ensures Grantable(map[], entries, healthy, 0)
  {
    hide EligiblePool;
    var caps := Caps(healthy, config.policy);
    assert caps == [86340, 86340];
    AllAtLeast(caps, 3600);
    EligiblePoolFacts(healthy, 3600, config.policy);
    assert CountEligible(healthy, 3600, config.policy) == 2;
    assert ChoiceFor(1, 2, 1, 1) == StripeReplicaChoice(1, 1);
  }

  // ---------- Live reservations ----------

  lemma NextKeepsLivePrimary(config: Config, t: Table, event: Event, k: Key)
    requires WellFormed(event.step) && k in t && t[k].role == Primary && event.now < t[k].expiryAt
    requires event.step != RemoveRelay(k.relayId)
    ensures var u := Next(config, t, event);
            k in u && u[k] == t[k]
  {
    hide ResolvedRows;
    hide Upserted;
    hide GrantFor;
    hide OnePrimary;
    if event.step.Reserve? {
      var entries, healthy, now := event.step.entries, event.step.healthy, event.now;
      if Grantable(t, entries, healthy, now) {
        var request := RequestFor(config, event.step.ttlSeconds);
        var planned := ResolvedRows(entries, healthy, request, config.policy);
        UpsertedRows(Purged(t, now), planned, now + GrantFor(healthy, |entries|, request, config.policy));
        forall p | p in planned
          ensures p.token != k.token
        {
          PlannedRow(entries, healthy, request, config.policy, p);
          var i :| 0 <= i < |entries| && p.token == entries[i].token;
          assert !Occupied(t, entries[i].token, now);
        }
      }
    }
  }

  /** A live primary and its hash stay as they are until expiry, unless its relay is removed. */
  lemma {:induction false} LivePrimaryStays(config: Config, t: Table, events: seq<Event>, k: Key)
    requires OnePrimary(t) && k in t && t[k].role == Primary
    requires forall e | e in events ::
               WellFormed(e.step) && e.step != RemoveRelay(k.relayId) && e.now < t[k].expiryAt
    ensures var u := Run(config, t, events);
            && k in u && u[k] == t[k]
            && forall l | l in u && l.token == k.token && u[l].role == Primary :: l == k
  {
    hide Next;
    if events != [] {
      var n := |events| - 1;
      LivePrimaryStays(config, t, events[..n], k);
      assert events[n] in events;
      NextKeepsLivePrimary(config, Run(config, t, events[..n]), events[n], k);
    }
    RunsKeepOnePrimary(config, t, events);
  }

  /** A table that holds exactly the live rows of before, unchanged. */
  ghost predicate OnlyExpires(before: Table, after: Table, now: int) {
    && (forall k :: k in after <==> k in before && before[k].expiryAt > now)
    && forall k | k in after :: after[k] == before[k]
  }

  /**
   A reserve request enters or changes a row exactly when it is granted; a refused one, for an
   occupied token or any other reason, leaves exactly the live rows, as they were.
   */
  lemma ReserveInsertsExactly(config: Config, t: Table, entries: seq<Entry>, ttlSeconds: Option<int>,
                              healthy: seq<HealthyRelay>, now: int)
    requires OnePrimary(t) && DistinctRelays(healthy)
    ensures OnlyExpires(t, Reserved(config, t, entries, ttlSeconds, healthy, now), now)
       <==> !Grantable(t, entries, healthy, now)
  {
    hide ResolvedRows;
    hide Upserted;
    hide GrantFor;
    var u := Reserved(config, t, entries, ttlSeconds, healthy, now);
    if Grantable(t, entries, healthy, now) {
      ReserveTakesEffect(config, t, entries, ttlSeconds, healthy, now, 0);
      var k :| k in u && k.token == entries[0].token && u[k].role == Primary && u[k].expiryAt > now;
      assert !Occupied(t, entries[0].token, now);
    }
  }

  /** A granted request leaves each of its tokens with a live primary carrying the requested hash. */
  lemma ReserveTakesEffect(config: Config, t: Table, entries: seq<Entry>, ttlSeconds: Option<int>,
                           healthy: seq<HealthyRelay>, now: int, i: nat)
    requires OnePrimary(t) && DistinctRelays(healthy) && Grantable(t, entries, healthy, now) && i < |entries|
    ensures var u := Reserved(config, t, entries, ttlSeconds, healthy, now);
            && Occupied(u, entries[i].token, now)
            && exists k | k in u ::
                 && k.token == entries[i].token && u[k].role == Primary && u[k].blockHash == entries[i].blockHash
                 && u[k].expiryAt
                    == now + GrantFor(healthy, |entries|, RequestFor(config, ttlSeconds), config.policy)
  {
    hide ResolvedRows;
    hide Upserted;
    hide Occupied;
    hide GrantFor;
    var request := RequestFor(config, ttlSeconds);
    var granted := GrantFor(healthy, |entries|, request, config.policy);
    var planned := ResolvedRows(entries, healthy, request, config.policy);
    var u := Reserved(config, t, entries, ttlSeconds, healthy, now);
    var p := PlannedPrimary(entries, healthy, request, config.policy, i);
    ResolvedRowsAreCoherent(entries, healthy, request, config.policy);
    UpsertedKey(Purged(t, now), planned, now + granted, p);
    GrantIsPositive(healthy, |entries|, request, config.policy);
    LivePrimaryOccupies(u, KeyOf(p), now);
  }

  lemma LivePrimaryOccupies(t: Table, k: Key, now: int)
    requires k in t && t[k].role == Primary && t[k].expiryAt > now
    ensures Occupied(t, k.token, now)
  {
  }

  lemma GrantIsPositive(healthy: seq<HealthyRelay>, blockCount: int, request: int, policy: PlacementPolicy)
    requires healthy != [] && 1 <= request
    ensures 1 <= GrantFor(healthy, blockCount, request, policy)
  {
    hide IdealRelayCount;
    hide CountAtLeast;
    hide Descending;
    hide LargestCap;
    hide GrantedCount;
    hide Caps;
    var caps := Caps(healthy, policy);
    CapsArePositive(healthy, policy);
    CapsLength(healthy, policy);
    if LargestCap(caps) < request {
      GrantedCountInRange(healthy, blockCount, policy);
      var n := GrantedCount(healthy, blockCount, policy);
      assert Descending(caps)[n - 1] in Descending(caps);
    }
  }

  lemma CapsArePositive(healthy: seq<HealthyRelay>, policy: PlacementPolicy)
    ensures forall c | c in Caps(healthy, policy) :: c >= 1
  {
  }

  // ---------- The table after a step ----------

  /** After a purge, an abandon or a relay removal, exactly the rows it is not about are left, unchanged. */
  lemma LastStepRemovesExactly(config: Config, t: Table, events: seq<Event>, last: Event, k: Key)
    requires !last.step.Reserve?
    ensures var before, after := Run(config, t, events), Run(config, t, events + [last]);
            && (k in after ==> k in before && after[k] == before[k])
            && (k in before ==>
                  (k in after <==>
                    match last.step
                    case Purge => before[k].expiryAt > last.now
                    case Abandon(failures) => before[k].role == Primary || k !in failures
                    case RemoveRelay(relayId) => k.relayId != relayId))
  {
    assert (events + [last])[..|events|] == events;
  }

  // A row for one of the entries, on a relay that keeps it until it expires.
  ghost predicate WrittenFor(k: Key, row: Row, entries: seq<Entry>, healthy: seq<HealthyRelay>, granted: int,
                             now: int, policy: PlacementPolicy)
  {
    && row.expiryAt == now + granted
    && (exists i | 0 <= i < |entries| :: k.token == entries[i].token && row.blockHash == entries[i].blockHash)
    && exists relay | relay in healthy ::
         && k.relayId == relay.relayId && row.registeredRelayBaseUrl == StripSlashes(relay.relayBaseUrl)
         && Keeps(relay, granted, policy)
  }

  // One planned row, as the table holds it after the request.
  lemma PlannedRowIsHeld(config: Config, t: Table, entries: seq<Entry>, ttlSeconds: Option<int>,
                         healthy: seq<HealthyRelay>, now: int, p: PlannedPlacement)
    requires DistinctRelays(healthy) && Grantable(t, entries, healthy, now)
    requires p in ResolvedRows(entries, healthy, RequestFor(config, ttlSeconds), config.policy)
    ensures var u := Reserved(config, t, entries, ttlSeconds, healthy, now);
            var granted := GrantFor(healthy, |entries|, RequestFor(config, ttlSeconds), config.policy);
            var k := Key(p.token, p.relayId);
            && k in u && u[k].role == p.role && u[k].blockHash == p.blockHash
            && WrittenFor(k, u[k], entries, healthy, granted, now, config.policy)
  {
    hide ResolvedRows;
    hide Upserted;
    hide GrantFor;
    hide Grantable;
    hide WrittenFor;
    hide DistinctRelays;
    hide PlanCoherent;
    hide RequestFor;
    hide Reserved;
    GrantableParts(t, entries, healthy, now);
    var request := RequestFor(config, ttlSeconds);
    var granted := GrantFor(healthy, |entries|, request, config.policy);
    ResolvedRowsAreCoherent(entries, healthy, request, config.policy);
    ReservedIs(config, t, entries, ttlSeconds, healthy, now);
    UpsertedKey(Purged(t, now), ResolvedRows(entries, healthy, request, config.policy), now + granted, p);
    PlannedRowIsWritten(entries, healthy, request, config.policy, p, now);
  }

  // Every other row is a live row of before, and no live row is lost.
  lemma OtherRowsAreHeld(config: Config, t: Table, entries: seq<Entry>, ttlSeconds: Option<int>,
                         healthy: seq<HealthyRelay>, now: int)
    requires Grantable(t, entries, healthy, now)
    ensures var u := Reserved(config, t, entries, ttlSeconds, healthy, now);
            && (forall k | k in t && t[k].expiryAt > now :: k in u)
            && forall k | k in u ::
                 || (exists p | p in ResolvedRows(entries, healthy, RequestFor(config, ttlSeconds), config.policy) ::
                       k == Key(p.token, p.relayId))
                 || (k in t && t[k].expiryAt > now && u[k] == t[k])
  {
    hide ResolvedRows;
    hide Upserted;
    hide GrantFor;
    hide Grantable;
    hide RequestFor;
    hide Reserved;
    GrantableParts(t, entries, healthy, now);
    var request := RequestFor(config, ttlSeconds);
    ReservedIs(config, t, entries, ttlSeconds, healthy, now);
    UpsertedRows(Purged(t, now), ResolvedRows(entries, healthy, request, config.policy),
                 now + GrantFor(healthy, |entries|, request, config.policy));
  }

  /**
   A granted request leaves the live rows of other keys as they were, and writes under its planned
   keys rows with the requested hash, the granted expiry and the normalised URL of a healthy relay.
   */
  lemma GrantedRequestWrites(config: Config, t: Table, entries: seq<Entry>, ttlSeconds: Option<int>,
                             healthy: seq<HealthyRelay>, now: int)
    requires DistinctRelays(healthy) && Grantable(t, entries, healthy, now)
    ensures var u := Reserved(config, t, entries, ttlSeconds, healthy, now);
            var request := RequestFor(config, ttlSeconds);
            var granted := GrantFor(healthy, |entries|, request, config.policy);
            var planned := ResolvedRows(entries, healthy, request, config.policy);
            && (forall k | k in t && t[k].expiryAt > now :: k in u)
            && (forall k | k in u ::
                  if exists p | p in planned :: k == Key(p.token, p.relayId)
                  then WrittenFor(k, u[k], entries, healthy, granted, now, config.policy)
                  else k in t && t[k].expiryAt > now && u[k] == t[k])
            && forall p | p in planned ::
                 && Key(p.token, p.relayId) in u
                 && u[Key(p.token, p.relayId)].role == p.role
                 && u[Key(p.token, p.relayId)].blockHash == p.blockHash
  {
    hide ResolvedRows;
    hide GrantFor;
    hide Grantable;
    hide WrittenFor;
    hide DistinctRelays;
    hide RequestFor;
    hide Reserved;
    GrantableParts(t, entries, healthy, now);
    OtherRowsAreHeld(config, t, entries, ttlSeconds, healthy, now);
    forall p | p in ResolvedRows(entries, healthy, RequestFor(config, ttlSeconds), config.policy)
      ensures var u := Reserved(config, t, entries, ttlSeconds, healthy, now);
              var granted := GrantFor(healthy, |entries|, RequestFor(config, ttlSeconds), config.policy);
              var k := Key(p.token, p.relayId);
              && k in u && u[k].role == p.role && u[k].blockHash == p.blockHash
              && WrittenFor(k, u[k], entries, healthy, granted, now, config.policy)
    {
      PlannedRowIsHeld(config, t, entries, ttlSeconds, healthy, now, p);
    }
  }

  lemma GrantableParts(t: Table, entries: seq<Entry>, healthy: seq<HealthyRelay>, now: int)
    requires Grantable(t, entries, healthy, now)
    ensures entries != [] && DistinctTokens(entries) && healthy != []
  {
  }

  lemma ReservedIs(config: Config, t: Table, entries: seq<Entry>, ttlSeconds: Option<int>,
                   healthy: seq<HealthyRelay>, now: int)
    requires Grantable(t, entries, healthy, now)
    ensures var request := RequestFor(config, ttlSeconds);
            Reserved(config, t, entries, ttlSeconds, healthy, now)
            == Upserted(Purged(t, now), ResolvedRows(entries, healthy, request, config.policy),
                        now + GrantFor(healthy, |entries|, request, config.policy))
  {
    hide ResolvedRows;
    hide GrantFor;
    hide Upserted;
    hide Purged;
    hide RequestFor;
  }

  lemma PlannedRowIsWritten(entries: seq<Entry>, healthy: seq<HealthyRelay>, request: int, policy: PlacementPolicy,
                            p: PlannedPlacement, now: int)
    requires healthy != [] && entries != [] && DistinctRelays(healthy) && DistinctTokens(entries)
    requires p in ResolvedRows(entries, healthy, request, policy)
    ensures var granted := GrantFor(healthy, |entries|, request, policy);
            WrittenFor(KeyOf(p), RowOf(p, now + granted), entries, healthy, granted, now, policy)
  {
    hide ResolvedRows;
    hide GrantFor;
    hide Keeps;
    hide StripSlashes;
    PlannedRow(entries, healthy, request, policy, p);
    RowsKeepTheGrant(entries, healthy, request, policy);
  }

  // ---------- The repository's methods ----------

  class RegistryRepository {
    const config: Config
    var placements: Table
    var allowlist: set<string>

    ghost predicate Valid()
      reads this
    {
      OnePrimary(placements)
    }

    constructor (config: Config)
      ensures Valid() && this.config == config && placements == map[] && allowlist == {}
    {
      this.config := config;
      placements, allowlist := map[], {};
    }

    method PurgeExpiredTokens(now: int) returns (removed: int)
      requires Valid()
      modifies `placements
      ensures Valid() && placements == Next(config, old(placements), Event(Purge, now))
      ensures forall k :: k in placements <==> k in old(placements) && old(placements)[k].expiryAt > now
      ensures forall k | k in placements :: placements[k] == old(placements)[k]
      ensures removed == |old(placements)| - |placements|
    {
      var before := |placements|;
      placements := map k | k in placements && placements[k].expiryAt > now :: placements[k];
      removed := before - |placements|;
    }

    method GetPrimaryPlacement(token: string) returns (r: Option<Row>)
      requires Valid()
      ensures r.Some? ==> exists k | k in placements ::
                            k.token == token && placements[k].role == Primary && placements[k] == r.value
      ensures r.None? ==> !HasPrimary(placements, token)
    {
      var keys := set k | k in placements && k.token == token && placements[k].role == Primary;
      if keys == {} {
        assert forall k | k in placements :: k.token == token && placements[k].role == Primary ==> k in keys;
        return None;
      }
      var k :| k in keys;
      r := Some(placements[k]);
    }

    method FindOccupied(entries: seq<Entry>, now: int) returns (occupied: seq<string>)
      requires Valid()
      ensures occupied == OccupiedTokens(placements, entries, now)
      ensures forall token :: token in occupied <==>
                exists i, k | 0 <= i < |entries| && k in placements ::
                  && entries[i].token == token && k.token == token
                  && placements[k].role == Primary && placements[k].expiryAt > now
    {
      occupied := [];
      for i := 0 to |entries|
        invariant occupied == OccupiedTokens(placements, entries[..i], now)
      {
        var primary := GetPrimaryPlacement(entries[i].token);
        assert entries[..i + 1][..i] == entries[..i];
        if primary.Some? && primary.value.expiryAt > now {
          occupied := occupied + [entries[i].token];
        }
      }
      assert entries[..|entries|] == entries;
      OccupiedAre(placements, entries, now);
    }

    /** Reserve: purge, refuse duplicates and occupied tokens, then upsert the planned rows. */
    method LockTokensWithBlockHashes(entries: seq<Entry>, ttlSeconds: Option<int>, healthy: seq<HealthyRelay>,
                                     now: int)
      returns (outcome: LockOutcome)
      requires Valid() && DistinctRelays(healthy)
      modifies `placements
      ensures Valid()
      ensures placements == Next(config, old(placements), Event(Reserve(entries, ttlSeconds, healthy), now))
      ensures entries == [] ==> outcome == Locked(config.tokenTtlSeconds, config.tokenTtlSeconds, false, 0, 0, 0, 0)
      ensures outcome == DuplicateToken <==> !DistinctTokens(entries)
      ensures outcome.TokenOccupied? <==>
                DistinctTokens(entries) && OccupiedTokens(old(placements), entries, now) != []
      ensures outcome.TokenOccupied? ==> outcome.tokens == OccupiedTokens(old(placements), entries, now)
      ensures entries != [] && outcome.Locked? ==> Grantable(old(placements), entries, healthy, now)
      ensures Grantable(old(placements), entries, healthy, now) ==>
                && outcome.Locked? && outcome.requestedTtlSeconds == RequestFor(config, ttlSeconds)
                && outcome.requestedTtlSeconds
                   == Max(1, Min(config.policy.maxRequestedTtlSeconds,
                                 if ttlSeconds.Some? then ttlSeconds.value else config.tokenTtlSeconds))
                && outcome.grantedTtlSeconds
                   == GrantFor(healthy, |entries|, outcome.requestedTtlSeconds, config.policy)
                && Some(StripeReplicaChoice(outcome.stripeCount, outcome.replicaFactor))
                   == GrantedChoice(config, entries, ttlSeconds, healthy)
                && outcome.idealRelayCount == IdealRelayCount(|entries|, |healthy|, config.policy)
                && outcome.actualRelayCount == outcome.stripeCount * (1 + outcome.replicaFactor)
                && (outcome.degraded <==>
                      || outcome.grantedTtlSeconds < outcome.requestedTtlSeconds
                      || outcome.actualRelayCount < outcome.idealRelayCount)
      ensures !outcome.Locked? ==> OnlyExpires(old(placements), placements, now)
    {
      hide ResolvedRows;
      hide GrantFor;
      hide PlanUnder;
      hide EligiblePool;
      hide Upserted;
      hide Occupied;
      hide OccupiedTokens;
      hide OnePrimary;
      hide Purged;
      hide DistinctTokens;
      hide DistinctRelays;
      hide IdealRelayCount;
      hide OnlyExpires;
      ghost var before := placements;
      PurgeOnlyExpires(before, now);
      var _ := PurgeExpiredTokens(now);
      NoneOccupied(before, entries, now);
      if entries == [] {
        NoEntries(entries);
        return Locked(config.tokenTtlSeconds, config.tokenTtlSeconds, false, 0, 0, 0, 0);
      }
      var duplicate := HasDuplicate(entries);
      if duplicate {
        return DuplicateToken;
      }
      var occupied := FindOccupied(entries, now);
      PurgeKeepsOccupied(before, entries, now);
      if occupied != [] {
        return TokenOccupied(occupied);
      }
      if healthy == [] {
        return NoHealthyRelay;
      }
      var requested := if ttlSeconds.Some? then ttlSeconds.value else config.tokenTtlSeconds;
      var resolution := ResolvePlacementWithTtl(entries, healthy, requested, config.policy);
      var planned := resolution.value.plan.placements;
      ResolvedPlan(entries, healthy, resolution.value.requestedTtlSeconds, config.policy);
      var expiry := now + resolution.value.grantedTtlSeconds;
      ReserveKeepsOnePrimary(config, before, entries, ttlSeconds, healthy, now);
      UpsertPlanned(planned, expiry);
      outcome := Locked(resolution.value.grantedTtlSeconds, resolution.value.requestedTtlSeconds,
                        resolution.value.degraded, resolution.value.plan.choice.stripeCount,
                        resolution.value.plan.choice.replicaFactor, resolution.value.idealRelayCount,
                        resolution.value.actualRelayCount);
    }

    method UpsertPlanned(planned: seq<PlannedPlacement>, expiry: int)
      modifies `placements
      ensures placements == Upserted(old(placements), planned, expiry)
    {
      for i := 0 to |planned|
        invariant placements == Upserted(old(placements), planned[..i], expiry)
      {
        assert planned[..i + 1][..i] == planned[..i];
        placements := placements[KeyOf(planned[i]) := RowOf(planned[i], expiry)];
      }
      assert planned[..|planned|] == planned;
    }

    /** Deletes the named replica rows and reports which there were. */
    method AbandonReplicaPlacements(failures: seq<Key>, now: int) returns (removed: seq<Key>)
      requires Valid()
      modifies `placements
      ensures Valid() && placements == Next(config, old(placements), Event(Abandon(failures), now))
      ensures forall k :: k in placements <==>
                k in old(placements) && !(k in failures && old(placements)[k].role == Replica)
      ensures forall k | k in placements :: placements[k] == old(placements)[k]
      ensures forall k :: k in removed <==>
                k in failures && k in old(placements) && old(placements)[k].role == Replica
      ensures forall i, j | 0 <= i < j < |removed| :: removed[i] != removed[j]
    {
      hide Reserved;
      hide Purged;
      hide WithoutRelay;
      var seen: set<Key> := {};
      removed := [];
      for i := 0 to |failures|
        invariant seen == set k | k in failures[..i]
        invariant placements == Abandoned(old(placements), failures[..i])
        invariant forall k :: k in removed <==> k in failures[..i] && k in old(placements) && k !in placements
        invariant forall a, b | 0 <= a < b < |removed| :: removed[a] != removed[b]
      {
        var k := failures[i];
        assert failures[..i + 1] == failures[..i] + [k];
        if k !in seen {
          seen := seen + {k};
          if k in placements && placements[k].role == Replica {
            placements := placements - {k};
            removed := removed + [k];
          }
        }
      }
      assert failures[..|failures|] == failures;
    }

    method DeleteAllowlistEntry(relayId: string, now: int) returns (ok: bool)
      requires Valid()
      modifies `placements, `allowlist
      ensures Valid() && (ok <==> relayId in old(allowlist)) && allowlist == old(allowlist) - {relayId}
      ensures ok ==> placements == Next(config, old(placements), Event(RemoveRelay(relayId), now))
      ensures ok ==> forall k :: k in placements <==> k in old(placements) && k.relayId != relayId
      ensures forall k | k in placements :: k in old(placements) && placements[k] == old(placements)[k]
      ensures !ok ==> placements == old(placements)
    {
      if relayId !in allowlist {
        return false;
      }
      placements := map k | k in placements && k.relayId != relayId :: placements[k];
      allowlist := allowlist - {relayId};
      ok := true;
    }
  }

  lemma PurgeOnlyExpires(t: Table, now: int)
    ensures OnlyExpires(t, Purged(t, now), now)
  {
  }

  method HasDuplicate(entries: seq<Entry>) returns (found: bool)
    ensures found <==> !DistinctTokens(entries)
  {
    var seen: set<string> := {};
    for i := 0 to |entries|
      invariant seen == set k | 0 <= k < i :: entries[k].token
      invariant DistinctTokens(entries[..i])
    {
      if entries[i].token in seen {
        return true;
      }
      seen := seen + {entries[i].token};
    }
    assert entries[..|entries|] == entries;
    found := false;
  }

  lemma {:induction false} OccupiedAre(t: Table, entries: seq<Entry>, now: int)
    ensures forall token :: token in OccupiedTokens(t, entries, now) <==>
              exists i, k | 0 <= i < |entries| && k in t ::
                entries[i].token == token && k.token == token && t[k].role == Primary && t[k].expiryAt > now
  {
    if entries != [] {
      var n := |entries| - 1;
      OccupiedAre(t, entries[..n], now);
      assert entries == entries[..n] + [entries[n]];
    }
  }

  lemma NoEntries(entries: seq<Entry>)
    requires entries == []
    ensures DistinctTokens(entries)
  {
  }

  lemma {:induction false} NoneOccupied(t: Table, entries: seq<Entry>, now: int)
    ensures OccupiedTokens(t, entries, now) == []
       <==> forall i | 0 <= i < |entries| :: !Occupied(t, entries[i].token, now)
  {
    hide Occupied;
    if entries != [] {
      NoneOccupied(t, entries[..|entries| - 1], now);
    }
  }

  lemma {:induction false} PurgeKeepsOccupied(t: Table, entries: seq<Entry>, now: int)
    ensures OccupiedTokens(Purged(t, now), entries, now) == OccupiedTokens(t, entries, now)
  {
    if entries != [] {
      PurgeKeepsOccupied(t, entries[..|entries| - 1], now);
      var token := entries[|entries| - 1].token;
      if Occupied(t, token, now) {
        var k :| k in t && k.token == token && t[k].role == Primary && t[k].expiryAt > now;
        assert k in Purged(t, now);
      }
    }
  }

  lemma ResolvedPlan(entries: seq<Entry>, healthy: seq<HealthyRelay>, request: int, policy: PlacementPolicy)
    requires healthy != []
    ensures var pool := EligiblePool(healthy, GrantFor(healthy, |entries|, request, policy), policy);
            && PlanUnder(entries, pool, policy).Some?
            && ResolvedRows(entries, healthy, request, policy) == PlanUnder(entries, pool, policy).value.placements
  {
    hide GrantFor;
    hide EligiblePool;
    hide PlanUnder;
    GrantNeverExceeds(healthy, |entries|, request, policy);
  }
}
