/** Stripe and replica sizing, and the assignment of block tokens to relays. */
module Placement {
  import opened ByteStrings

  datatype HealthyRelay = HealthyRelay(relayId: string, relayBaseUrl: string, blockMaxAgeSeconds: int)

  datatype StripeReplicaChoice = StripeReplicaChoice(stripeCount: nat, replicaFactor: nat)

  datatype Entry = Entry(token: string, blockHash: string)

  datatype Role = Primary | Replica

  datatype PlannedPlacement = PlannedPlacement(
    token: string,
    blockHash: string,
    relayId: string,
    relayBaseUrl: string,
    role: Role)

  datatype Plan = Plan(choice: StripeReplicaChoice, placements: seq<PlannedPlacement>)

  // ---------- Sizing ----------

  function MaxStripe(blockCount: int, healthyCount: int, targetRelays: int): int {
    Min(Min(targetRelays, blockCount), healthyCount)
  }

  // R(S)
  function FactorFor(s: nat, healthyCount: int, maxFactor: int): int
    requires 0 < s
  {
    Min(maxFactor, Max(0, (healthyCount - s) / s))
  }

  function Score(s: nat, healthyCount: int, maxFactor: int): int
    requires 0 < s
  {
    s * (1 + FactorFor(s, healthyCount, maxFactor))
  }

  /** S maximises S * (1 + R(S)) over 1 .. sMax and is the largest maximiser. */
  ghost predicate Optimal(choice: StripeReplicaChoice, sMax: nat, healthyCount: int, maxFactor: int) {
    && 1 <= choice.stripeCount <= sMax
    && choice.replicaFactor == FactorFor(choice.stripeCount, healthyCount, maxFactor)
    && forall s: nat | 1 <= s <= sMax ::
         && Score(s, healthyCount, maxFactor) <= Score(choice.stripeCount, healthyCount, maxFactor)
         && (Score(s, healthyCount, maxFactor) == Score(choice.stripeCount, healthyCount, maxFactor) ==>
               s <= choice.stripeCount)
  }

  // The optimal choice, counting up.
  function BestUpTo(sMax: nat, healthyCount: int, maxFactor: nat): (r: StripeReplicaChoice)
    requires 1 <= sMax
    ensures Optimal(r, sMax, healthyCount, maxFactor)
  {
    var here := StripeReplicaChoice(sMax, FactorFor(sMax, healthyCount, maxFactor));
    if sMax == 1 then here
    else
      var below := BestUpTo(sMax - 1, healthyCount, maxFactor);
      if Score(below.stripeCount, healthyCount, maxFactor) <= Score(sMax, healthyCount, maxFactor)
      then here else below
  }

  function ChoiceFor(blockCount: int, healthyCount: int, targetRelays: int, maxFactor: int): StripeReplicaChoice {
    var sMax := MaxStripe(blockCount, healthyCount, targetRelays);
    if sMax < 1 || maxFactor < 0 then StripeReplicaChoice(1, 0) else BestUpTo(sMax, healthyCount, maxFactor)
  }

  lemma OptimalIsUnique(a: StripeReplicaChoice, b: StripeReplicaChoice, sMax: nat, healthyCount: int, maxFactor: int)
    requires Optimal(a, sMax, healthyCount, maxFactor) && Optimal(b, sMax, healthyCount, maxFactor)
    ensures a == b
  {
    hide Score;
    hide FactorFor;
    assert Score(a.stripeCount, healthyCount, maxFactor) == Score(b.stripeCount, healthyCount, maxFactor);
  }

  /** The relays of the chosen layout exist: S primaries and exactly S * R more. */
  lemma ChoiceFits(blockCount: int, healthyCount: int, targetRelays: int, maxFactor: int)
    requires 1 <= healthyCount
    ensures var choice := ChoiceFor(blockCount, healthyCount, targetRelays, maxFactor);
            && 1 <= choice.stripeCount
            && choice.stripeCount + choice.stripeCount * choice.replicaFactor
               == choice.stripeCount * (1 + choice.replicaFactor) <= healthyCount
  {
    hide FactorFor;
    hide BestUpTo;
    hide Score;
    var choice := ChoiceFor(blockCount, healthyCount, targetRelays, maxFactor);
    if MaxStripe(blockCount, healthyCount, targetRelays) >= 1 && maxFactor >= 0 {
      FactorFits(choice.stripeCount, healthyCount, maxFactor);
    }
    Distribute(choice.stripeCount, choice.replicaFactor);
  }

  lemma Distribute(s: int, r: int)
    ensures s * (1 + r) == s + s * r
  {
  }

  // S primaries and R replicas each, within the limits of a request.
  ghost predicate WithinLimits(s: int, r: int, blockCount: int, healthyCount: int, targetRelays: int, maxFactor: int) {
    && 1 <= s <= blockCount && s <= targetRelays && s <= healthyCount
    && 0 <= r <= maxFactor
    && s * (1 + r) <= healthyCount
  }

  /** No S and R within the limits use more relays, and none use as many with a larger S. */
  ghost predicate Best(choice: StripeReplicaChoice, blockCount: int, healthyCount: int, targetRelays: int,
                       maxFactor: int)
  {
    var used := choice.stripeCount * (1 + choice.replicaFactor);
    && WithinLimits(choice.stripeCount, choice.replicaFactor, blockCount, healthyCount, targetRelays, maxFactor)
    && forall s, r | WithinLimits(s, r, blockCount, healthyCount, targetRelays, maxFactor) ::
         s * (1 + r) <= used && (s * (1 + r) == used ==> s <= choice.stripeCount)
  }

  lemma LargestFactor(s: nat, r: nat, healthyCount: nat, maxFactor: nat)
    requires 1 <= s <= healthyCount && r <= maxFactor && s * (1 + r) <= healthyCount
    ensures r <= FactorFor(s, healthyCount, maxFactor)
    ensures s * (1 + r) <= Score(s, healthyCount, maxFactor)
  {
    Distribute(s, r);
    QuotientTimes(healthyCount - s, s, r);
    MulMonotone(1 + r, 1 + FactorFor(s, healthyCount, maxFactor), s);
  }

  lemma ChoiceIsBest(blockCount: int, healthyCount: int, targetRelays: int, maxFactor: int)
    requires 1 <= blockCount && 1 <= healthyCount && 1 <= targetRelays && 0 <= maxFactor
    ensures Best(ChoiceFor(blockCount, healthyCount, targetRelays, maxFactor),
                 blockCount, healthyCount, targetRelays, maxFactor)
  {
    hide BestUpTo;
    hide FactorFor;
    var choice := ChoiceFor(blockCount, healthyCount, targetRelays, maxFactor);
    FactorBounds(choice.stripeCount, healthyCount, maxFactor);
    FactorFits(choice.stripeCount, healthyCount, maxFactor);
    assert choice.replicaFactor <= maxFactor by {
      FactorWithinMax(choice.stripeCount, healthyCount, maxFactor);
    }
    forall s, r | WithinLimits(s, r, blockCount, healthyCount, targetRelays, maxFactor)
      ensures var used := choice.stripeCount * (1 + choice.replicaFactor);
              s * (1 + r) <= used && (s * (1 + r) == used ==> s <= choice.stripeCount)
    {
      LargestFactor(s, r, healthyCount, maxFactor);
      assert Score(s, healthyCount, maxFactor) <= Score(choice.stripeCount, healthyCount, maxFactor);
    }
  }

  lemma FactorWithinMax(s: nat, healthyCount: int, maxFactor: int)
    requires 0 < s
    ensures FactorFor(s, healthyCount, maxFactor) <= maxFactor
  {
  }

  /** The choice is the one best layout within the limits; where nothing is within them, (1, 0). */
  lemma ChoiceIsBestExactly(choice: StripeReplicaChoice, blockCount: int, healthyCount: int, targetRelays: int,
                            maxFactor: int)
    ensures 1 <= blockCount && 1 <= healthyCount && 1 <= targetRelays && 0 <= maxFactor ==>
              (choice == ChoiceFor(blockCount, healthyCount, targetRelays, maxFactor)
               <==> Best(choice, blockCount, healthyCount, targetRelays, maxFactor))
    ensures blockCount < 1 || healthyCount < 1 || targetRelays < 1 || maxFactor < 0 ==>
              ChoiceFor(blockCount, healthyCount, targetRelays, maxFactor) == StripeReplicaChoice(1, 0)
  {
    hide BestUpTo;
    if 1 <= blockCount && 1 <= healthyCount && 1 <= targetRelays && 0 <= maxFactor {
      hide ChoiceFor;
      ChoiceIsBest(blockCount, healthyCount, targetRelays, maxFactor);
      var best := ChoiceFor(blockCount, healthyCount, targetRelays, maxFactor);
      if Best(choice, blockCount, healthyCount, targetRelays, maxFactor) {
        SameFactor(best.stripeCount, best.replicaFactor, choice.replicaFactor);
      }
    }
  }

  lemma SameFactor(s: nat, r: int, q: int)
    requires 1 <= s
    ensures s * (1 + r) == s * (1 + q) ==> r == q
  {
    if r < q {
      MulMonotone(2 + r, 1 + q, s);
      Distribute(s, r);
    } else if q < r {
      MulMonotone(2 + q, 1 + r, s);
      Distribute(s, q);
    }
  }

  lemma FactorFits(s: nat, healthyCount: nat, maxFactor: nat)
    requires 1 <= s <= healthyCount
    ensures s * (1 + FactorFor(s, healthyCount, maxFactor)) <= healthyCount
  {
    var r, q := FactorFor(s, healthyCount, maxFactor), (healthyCount - s) / s;
    DivBounds(healthyCount - s, s);
    MulMonotone(r, q, s);
    Distribute(s, r);
  }

  /** Scans S downwards and keeps the best score. */
  method ChooseStripeReplica(blockCount: int, healthyCount: int, targetRelays: int, maxFactor: int)
    returns (choice: StripeReplicaChoice)
    ensures choice == ChoiceFor(blockCount, healthyCount, targetRelays, maxFactor)
    ensures 1 <= blockCount && 1 <= healthyCount && 1 <= targetRelays && 0 <= maxFactor ==>
              Best(choice, blockCount, healthyCount, targetRelays, maxFactor)
  {
    hide FactorFor;
    hide Best;
    var sMax := MaxStripe(blockCount, healthyCount, targetRelays);
    if sMax < 1 {
      return StripeReplicaChoice(1, 0);
    }
    var bestS, bestR, bestScore := 1, 0, 1;
    for i := sMax downto 0
      invariant 1 <= bestS <= sMax && 0 <= bestR && bestScore == bestS * (1 + bestR) && 1 <= bestScore
      invariant || (bestScore == 1 && bestS == 1 && bestR == 0)
                || (i < bestS && bestR == FactorFor(bestS, healthyCount, maxFactor) && 0 <= maxFactor)
      invariant forall s: nat | i < s <= sMax ::
                  && Score(s, healthyCount, maxFactor) <= bestScore
                  && (Score(s, healthyCount, maxFactor) == bestScore ==> s <= bestS)
    {
      var s := i + 1;
      if s <= healthyCount {
        var r := FactorFor(s, healthyCount, maxFactor);
        FactorBounds(s, healthyCount, maxFactor);
        var score := s * (1 + r);
        if score > bestScore || (score == bestScore && s > bestS) {
          bestS, bestR, bestScore := s, r, score;
        }
      }
    }
    choice := StripeReplicaChoice(bestS, bestR);
    FactorBounds(1, healthyCount, maxFactor);
    if maxFactor >= 0 {
      assert Score(1, healthyCount, maxFactor) <= bestScore;
      OptimalIsUnique(choice, BestUpTo(sMax, healthyCount, maxFactor), sMax, healthyCount, maxFactor);
      ChoiceIsBest(blockCount, healthyCount, targetRelays, maxFactor);
    }
  }

  lemma FactorBounds(s: nat, healthyCount: int, maxFactor: int)
    requires 0 < s
    ensures 0 <= maxFactor ==> 0 <= FactorFor(s, healthyCount, maxFactor)
    ensures maxFactor < 0 ==> s * (1 + FactorFor(s, healthyCount, maxFactor)) <= 0
  {
    if maxFactor < 0 {
      MulMonotone(1 + maxFactor, 0, s);
    }
  }

  // ---------- Assignment ----------

  /** Copies of a block besides its primary; not positive when replicas are switched off. */
  function ReplicaCountPerBlock(replicaFactor: int, maxReplicasPerBlock: int): int {
    if replicaFactor <= 0 then 0 else Min(replicaFactor, maxReplicasPerBlock - 1)
  }

  /** The base URL without trailing slashes. */
  function StripSlashes(url: string): (r: string)
    ensures r <= url && (r != [] ==> r[|r| - 1] != '/')
    ensures forall i | |r| <= i < |url| :: url[i] == '/'
  {
    if url != [] && url[|url| - 1] == '/' then StripSlashes(url[..|url| - 1]) else url
  }

  function PlaceOn(relay: HealthyRelay, entry: Entry, role: Role): PlannedPlacement {
    PlannedPlacement(entry.token, entry.blockHash, relay.relayId, StripSlashes(relay.relayBaseUrl), role)
  }

  // The first S relays serve the primaries, the next S * R the replicas.
  ghost predicate PoolsFit(choice: StripeReplicaChoice, healthy: seq<HealthyRelay>) {
    1 <= choice.stripeCount && choice.stripeCount + choice.stripeCount * choice.replicaFactor <= |healthy|
  }

  // The rows of the token at `index`: one primary and `copies` replicas.
  function RowsAt(index: nat, entry: Entry, healthy: seq<HealthyRelay>, choice: StripeReplicaChoice, copies: nat)
    : (rows: seq<PlannedPlacement>)
    requires PoolsFit(choice, healthy) && (copies > 0 ==> 0 < choice.stripeCount * choice.replicaFactor)
    ensures |rows| == 1 + copies
  {
    var s, pool := choice.stripeCount, choice.stripeCount * choice.replicaFactor;
    [PlaceOn(healthy[index % s], entry, Primary)]
    + seq(copies, k requires 0 <= k < copies => PlaceOn(healthy[s + (index + k) % pool], entry, Replica))
  }

  function AllRows(entries: seq<Entry>, healthy: seq<HealthyRelay>, choice: StripeReplicaChoice, copies: nat)
    : seq<PlannedPlacement>
    requires PoolsFit(choice, healthy) && (copies > 0 ==> 0 < choice.stripeCount * choice.replicaFactor)
  {
    if entries == [] then []
    else
      var n := |entries| - 1;
      AllRows(entries[..n], healthy, choice, copies) + RowsAt(n, entries[n], healthy, choice, copies)
  }

  function CopiesFor(choice: StripeReplicaChoice, maxReplicasPerBlock: int): (copies: nat)
    ensures copies <= choice.replicaFactor
  {
    Max(0, ReplicaCountPerBlock(choice.replicaFactor, maxReplicasPerBlock))
  }

  lemma CopiesAre(choice: StripeReplicaChoice, maxReplicasPerBlock: int)
    ensures CopiesFor(choice, maxReplicasPerBlock)
         == Max(0, ReplicaCountPerBlock(choice.replicaFactor, maxReplicasPerBlock))
  {
  }

  lemma NoRows(healthy: seq<HealthyRelay>, choice: StripeReplicaChoice, copies: nat)
    requires PoolsFit(choice, healthy) && (copies > 0 ==> 0 < choice.stripeCount * choice.replicaFactor)
    ensures AllRows([], healthy, choice, copies) == []
  {
  }

  lemma AllRowsSnoc(entries: seq<Entry>, index: nat, healthy: seq<HealthyRelay>, choice: StripeReplicaChoice,
                    copies: nat)
    requires PoolsFit(choice, healthy) && (copies > 0 ==> 0 < choice.stripeCount * choice.replicaFactor)
    requires index < |entries|
    ensures AllRows(entries[..index + 1], healthy, choice, copies)
         == AllRows(entries[..index], healthy, choice, copies)
            + RowsAt(index, entries[index], healthy, choice, copies)
  {
    assert entries[..index + 1][..index] == entries[..index];
  }

  // The relay of row k: a primary for k == 0, else the next of the rotated replica pool.
  function RelayAt(index: nat, choice: StripeReplicaChoice, k: nat): nat
    requires 0 < choice.stripeCount && (k > 0 ==> 0 < choice.stripeCount * choice.replicaFactor)
  {
    if k == 0 then index % choice.stripeCount
    else choice.stripeCount + (index + (k - 1)) % (choice.stripeCount * choice.replicaFactor)
  }

  lemma RowAt(index: nat, entry: Entry, healthy: seq<HealthyRelay>, choice: StripeReplicaChoice, copies: nat, k: nat)
    requires PoolsFit(choice, healthy) && (copies > 0 ==> 0 < choice.stripeCount * choice.replicaFactor)
    requires k <= copies
    ensures RelayAt(index, choice, k) < |healthy|
    ensures RowsAt(index, entry, healthy, choice, copies)[k]
         == PlaceOn(healthy[RelayAt(index, choice, k)], entry, if k == 0 then Primary else Replica)
  {
    hide PlaceOn;
  }

  lemma PrimaryAt(index: nat, choice: StripeReplicaChoice)
    requires 0 < choice.stripeCount
    ensures RelayAt(index, choice, 0) == index % choice.stripeCount < choice.stripeCount
  {
  }

  lemma ReplicaAt(index: nat, healthy: seq<HealthyRelay>, choice: StripeReplicaChoice, pool: seq<HealthyRelay>, k: nat)
    requires PoolsFit(choice, healthy) && 0 < choice.stripeCount * choice.replicaFactor
    requires pool == healthy[choice.stripeCount..choice.stripeCount + choice.stripeCount * choice.replicaFactor]
    ensures pool[(index + k) % |pool|] == healthy[RelayAt(index, choice, k + 1)]
  {
  }

  /** The chosen layout with every token's rows; `None` when there is a token but no relay. */
  function PlanFor(entries: seq<Entry>, healthy: seq<HealthyRelay>, targetRelays: int, maxFactor: int,
                   maxReplicasPerBlock: int): (r: Option<Plan>)
    ensures r.None? <==> entries != [] && healthy == []
  {
    if entries == [] then Some(Plan(StripeReplicaChoice(1, 0), []))
    else if healthy == [] then None
    else
      var choice := ChoiceFor(|entries|, |healthy|, targetRelays, maxFactor);
      ChoiceFits(|entries|, |healthy|, targetRelays, maxFactor);
      MulMonotone(1, choice.stripeCount, choice.replicaFactor);
      Some(Plan(choice, AllRows(entries, healthy, choice, CopiesFor(choice, maxReplicasPerBlock))))
  }

  method PlanTokenPlacements(entries: seq<Entry>, healthy: seq<HealthyRelay>, targetRelays: int, maxFactor: int,
                             maxReplicasPerBlock: int)
    returns (r: Option<Plan>)
    ensures r == PlanFor(entries, healthy, targetRelays, maxFactor, maxReplicasPerBlock)
  {
    hide ChoiceFor;
    hide AllRows;
    hide RowsAt;
    hide RelayAt;
    hide PlaceOn;
    hide CopiesFor;
    hide ReplicaCountPerBlock;
    if entries == [] {
      return Some(Plan(StripeReplicaChoice(1, 0), []));
    }
    if healthy == [] {
      return None;
    }
    var choice := ChooseStripeReplica(|entries|, |healthy|, targetRelays, maxFactor);
    ChoiceFits(|entries|, |healthy|, targetRelays, maxFactor);
    var s, factor := choice.stripeCount, choice.replicaFactor;
    if factor > 0 {
      MulMonotone(1, s, factor);
    }
    var primaryPool := healthy[..s];
    var replicaPool := if factor > 0 then healthy[s..s + s * factor] else [];
    var replicasPerBlock := ReplicaCountPerBlock(factor, maxReplicasPerBlock);
    ghost var copies := Max(0, replicasPerBlock);
    CopiesAre(choice, maxReplicasPerBlock);
    var placements := [];
    NoRows(healthy, choice, copies);
    assert entries[..0] == [];
    for index := 0 to |entries|
      invariant placements == AllRows(entries[..index], healthy, choice, copies)
    {
      placements := placements + [PlaceOn(primaryPool[index % s], entries[index], Primary)];
      ghost var rows := RowsAt(index, entries[index], healthy, choice, copies);
      ghost var before := AllRows(entries[..index], healthy, choice, copies);
      RowAt(index, entries[index], healthy, choice, copies, 0);
      PrimaryAt(index, choice);
      if replicasPerBlock > 0 && replicaPool != [] {
        for k := 0 to replicasPerBlock
          invariant placements == before + rows[..k + 1]
        {
          RowAt(index, entries[index], healthy, choice, copies, k + 1);
          ReplicaAt(index, healthy, choice, replicaPool, k);
          placements := placements + [PlaceOn(replicaPool[(index + k) % |replicaPool|], entries[index], Replica)];
        }
      }
      assert rows[..1 + copies] == rows;
      AllRowsSnoc(entries, index, healthy, choice, copies);
    }
    assert entries[..|entries|] == entries;
    r := Some(Plan(choice, placements));
  }

  // ---------- What a plan promises ----------

  ghost predicate DistinctRelays(healthy: seq<HealthyRelay>) {
    forall i, j | 0 <= i < j < |healthy| :: healthy[i].relayId != healthy[j].relayId
  }

  predicate DistinctTokens(entries: seq<Entry>) {
    forall i, j | 0 <= i < j < |entries| :: entries[i].token != entries[j].token
  }

  function RowsOfToken(rows: seq<PlannedPlacement>, token: string): seq<PlannedPlacement> {
    if rows == [] then []
    else
      var n := |rows| - 1;
      RowsOfToken(rows[..n], token) + if rows[n].token == token then [rows[n]] else []
  }

  function PrimaryLoad(rows: seq<PlannedPlacement>, relayId: string): nat {
    if rows == [] then 0
    else
      var n := |rows| - 1;
      PrimaryLoad(rows[..n], relayId) + if rows[n].role == Primary && rows[n].relayId == relayId then 1 else 0
  }

  // The relay a row was placed on is one of `healthy`, with its normalised URL.
  ghost predicate PlacedAmong(row: PlannedPlacement, healthy: seq<HealthyRelay>) {
    exists i | 0 <= i < |healthy| ::
      row.relayId == healthy[i].relayId && row.relayBaseUrl == StripSlashes(healthy[i].relayBaseUrl)
  }

  // One token's rows: a primary, then replicas, on different relays and with the entry's hash.
  ghost predicate TokenPlaced(rows: seq<PlannedPlacement>, entry: Entry, healthy: seq<HealthyRelay>, copies: nat) {
    && |rows| == 1 + copies
    && rows[0].role == Primary
    && (forall k | 1 <= k < |rows| :: rows[k].role == Replica)
    && (forall k | 0 <= k < |rows| ::
          rows[k].token == entry.token && rows[k].blockHash == entry.blockHash && PlacedAmong(rows[k], healthy))
    && (forall j, k | 0 <= j < k < |rows| :: rows[j].relayId != rows[k].relayId)
  }

  lemma ResiduesDiffer(a: nat, b: nat, m: nat)
    requires 0 < m && a < b < a + m
    ensures a % m != b % m
  {
    DivBounds(a, m);
    DivBounds(b, m);
    if a % m == b % m {
      var x, y := a / m, b / m;
      assert b - a == y * m - x * m;
      if y <= x {
        MulMonotone(y, x, m);
      } else {
        MulMonotone(x + 1, y, m);
      }
      assert false;
    }
  }

  lemma RelaysDiffer(index: nat, choice: StripeReplicaChoice, j: nat, k: nat)
    requires 0 < choice.stripeCount && 0 < choice.stripeCount * choice.replicaFactor
    requires j < k <= choice.stripeCount * choice.replicaFactor
    ensures RelayAt(index, choice, j) != RelayAt(index, choice, k)
  {
    var pool := choice.stripeCount * choice.replicaFactor;
    if j > 0 {
      ResiduesDiffer(index + (j - 1), index + (k - 1), pool);
    }
  }

  lemma RowsAtPlaced(index: nat, entry: Entry, healthy: seq<HealthyRelay>, choice: StripeReplicaChoice, copies: nat)
    requires PoolsFit(choice, healthy) && DistinctRelays(healthy)
    requires copies <= choice.stripeCount * choice.replicaFactor
    ensures TokenPlaced(RowsAt(index, entry, healthy, choice, copies), entry, healthy, copies)
  {
    hide StripSlashes;
    hide RowsAt;
    hide RelayAt;
    var rows := RowsAt(index, entry, healthy, choice, copies);
    forall k | 0 <= k < |rows|
      ensures PlacedAmong(rows[k], healthy)
      ensures rows[k].role == if k == 0 then Primary else Replica
      ensures rows[k].token == entry.token && rows[k].blockHash == entry.blockHash
    {
      RowAt(index, entry, healthy, choice, copies, k);
    }
    forall j, k | 0 <= j < k < |rows|
      ensures rows[j].relayId != rows[k].relayId
    {
      RowAt(index, entry, healthy, choice, copies, j);
      RowAt(index, entry, healthy, choice, copies, k);
      RelaysDiffer(index, choice, j, k);
    }
  }

  lemma {:induction false} RowsOfTokenConcat(a: seq<PlannedPlacement>, b: seq<PlannedPlacement>, token: string)
    ensures RowsOfToken(a + b, token) == RowsOfToken(a, token) + RowsOfToken(b, token)
  {
    if b == [] {
      assert a + b == a;
    } else {
      var n := |b| - 1;
      RowsOfTokenConcat(a, b[..n], token);
      assert (a + b)[..|a| + n] == a + b[..n];
    }
  }

  lemma {:induction false} RowsOfOneToken(rows: seq<PlannedPlacement>, owner: string, token: string)
    requires forall k | 0 <= k < |rows| :: rows[k].token == owner
    ensures RowsOfToken(rows, token) == if owner == token then rows else []
  {
    if rows != [] {
      var n := |rows| - 1;
      var front, last := rows[..n], rows[n];
      RowsOfOneToken(front, owner, token);
      assert rows == front + [last];
    }
  }

  lemma RowsBelongTo(index: nat, entry: Entry, healthy: seq<HealthyRelay>, choice: StripeReplicaChoice, copies: nat)
    requires PoolsFit(choice, healthy) && (copies > 0 ==> 0 < choice.stripeCount * choice.replicaFactor)
    ensures forall k | 0 <= k <= copies :: RowsAt(index, entry, healthy, choice, copies)[k].token == entry.token
  {
    hide StripSlashes;
    hide RowsAt;
    hide RelayAt;
    forall k | 0 <= k <= copies
      ensures RowsAt(index, entry, healthy, choice, copies)[k].token == entry.token
    {
      RowAt(index, entry, healthy, choice, copies, k);
    }
  }

  lemma NoRowsOfToken(token: string)
    ensures RowsOfToken([], token) == []
  {
  }

  /** A token's rows in the whole plan are the ones planned for it, and no other token's. */
  lemma {:induction false} RowsOfTokenAre(entries: seq<Entry>, healthy: seq<HealthyRelay>,
                                          choice: StripeReplicaChoice, copies: nat, token: string)
    requires PoolsFit(choice, healthy) && (copies > 0 ==> 0 < choice.stripeCount * choice.replicaFactor)
    requires DistinctTokens(entries)
    ensures forall i | 0 <= i < |entries| && entries[i].token == token ::
              RowsOfToken(AllRows(entries, healthy, choice, copies), token)
              == RowsAt(i, entries[i], healthy, choice, copies)
    ensures (forall i | 0 <= i < |entries| :: entries[i].token != token) ==>
              RowsOfToken(AllRows(entries, healthy, choice, copies), token) == []
  {
    hide RowsAt;
    hide AllRows;
    hide RowsOfToken;
    if entries == [] {
      NoRows(healthy, choice, copies);
      NoRowsOfToken(token);
    } else {
      var n := |entries| - 1;
      var rows := RowsAt(n, entries[n], healthy, choice, copies);
      RowsBelongTo(n, entries[n], healthy, choice, copies);
      RowsOfTokenAre(entries[..n], healthy, choice, copies, token);
      RowsOfTokenConcat(AllRows(entries[..n], healthy, choice, copies), rows, token);
      RowsOfOneToken(rows, entries[n].token, token);
      AllRowsSnoc(entries, n, healthy, choice, copies);
      assert entries[..n + 1] == entries;
    }
  }

  lemma RowsAtAmong(index: nat, entry: Entry, healthy: seq<HealthyRelay>, choice: StripeReplicaChoice, copies: nat)
    requires PoolsFit(choice, healthy) && (copies > 0 ==> 0 < choice.stripeCount * choice.replicaFactor)
    ensures forall row | row in RowsAt(index, entry, healthy, choice, copies) :: PlacedAmong(row, healthy)
  {
    hide StripSlashes;
    hide RowsAt;
    hide RelayAt;
    forall row | row in RowsAt(index, entry, healthy, choice, copies)
      ensures PlacedAmong(row, healthy)
    {
      var k :| 0 <= k <= copies && RowsAt(index, entry, healthy, choice, copies)[k] == row;
      RowAt(index, entry, healthy, choice, copies, k);
    }
  }

  lemma {:induction false} AllRowsAmong(entries: seq<Entry>, healthy: seq<HealthyRelay>, choice: StripeReplicaChoice,
                                        copies: nat)
    requires PoolsFit(choice, healthy) && (copies > 0 ==> 0 < choice.stripeCount * choice.replicaFactor)
    ensures forall row | row in AllRows(entries, healthy, choice, copies) :: PlacedAmong(row, healthy)
  {
    hide PlacedAmong;
    hide RowsAt;
    if entries != [] {
      var n := |entries| - 1;
      AllRowsAmong(entries[..n], healthy, choice, copies);
      RowsAtAmong(n, entries[n], healthy, choice, copies);
    }
  }

  /** Every row of a plan, whatever the tokens, is on a relay of the pool. */
  lemma PlanStaysInPool(entries: seq<Entry>, healthy: seq<HealthyRelay>, targetRelays: int, maxFactor: int,
                        maxReplicasPerBlock: int)
    requires healthy != []
    ensures var plan := PlanFor(entries, healthy, targetRelays, maxFactor, maxReplicasPerBlock).value;
            forall row | row in plan.placements :: PlacedAmong(row, healthy)
  {
    hide ChoiceFor;
    hide AllRows;
    hide PlacedAmong;
    hide CopiesFor;
    if entries != [] {
      var choice := ChoiceFor(|entries|, |healthy|, targetRelays, maxFactor);
      ChoiceFits(|entries|, |healthy|, targetRelays, maxFactor);
      MulMonotone(1, choice.stripeCount, choice.replicaFactor);
      AllRowsAmong(entries, healthy, choice, CopiesFor(choice, maxReplicasPerBlock));
    }
  }

  /** Every token gets one primary and its replicas, all on distinct relays of the pool. */
  lemma PlanIsSound(entries: seq<Entry>, healthy: seq<HealthyRelay>, targetRelays: int, maxFactor: int,
                    maxReplicasPerBlock: int, index: nat)
    requires healthy != [] && index < |entries| && DistinctRelays(healthy) && DistinctTokens(entries)
    ensures var plan := PlanFor(entries, healthy, targetRelays, maxFactor, maxReplicasPerBlock).value;
            TokenPlaced(RowsOfToken(plan.placements, entries[index].token), entries[index], healthy,
                        Max(0, Min(plan.choice.replicaFactor, maxReplicasPerBlock - 1)))
  {
    hide ChoiceFor;
    hide AllRows;
    hide RowsAt;
    hide RowsOfToken;
    hide TokenPlaced;
    var choice := ChoiceFor(|entries|, |healthy|, targetRelays, maxFactor);
    var copies := CopiesFor(choice, maxReplicasPerBlock);
    ChoiceFits(|entries|, |healthy|, targetRelays, maxFactor);
    MulMonotone(1, choice.stripeCount, choice.replicaFactor);
    RowsAtPlaced(index, entries[index], healthy, choice, copies);
    RowsOfTokenAre(entries, healthy, choice, copies, entries[index].token);
  }

  /** Primaries go round the first S relays, and replicas round the next S * R, from token to token. */
  lemma PlanRotates(entries: seq<Entry>, healthy: seq<HealthyRelay>, targetRelays: int, maxFactor: int,
                    maxReplicasPerBlock: int, index: nat, k: nat)
    requires healthy != [] && index < |entries| && DistinctTokens(entries)
    requires k < |RowsOfToken(PlanFor(entries, healthy, targetRelays, maxFactor, maxReplicasPerBlock).value.placements,
                              entries[index].token)|
    ensures var plan := PlanFor(entries, healthy, targetRelays, maxFactor, maxReplicasPerBlock).value;
            var s, r := plan.choice.stripeCount, plan.choice.replicaFactor;
            var row := RowsOfToken(plan.placements, entries[index].token)[k];
            && 1 <= s && s + s * r <= |healthy|
            && (k == 0 ==> row.relayId == healthy[index % s].relayId)
            && (0 < k ==> 0 < s * r && row.relayId == healthy[s + (index + k - 1) % (s * r)].relayId)
  {
    hide ChoiceFor;
    hide AllRows;
    hide RowsAt;
    hide RowsOfToken;
    hide TokenPlaced;
    var choice := ChoiceFor(|entries|, |healthy|, targetRelays, maxFactor);
    var copies := CopiesFor(choice, maxReplicasPerBlock);
    ChoiceFits(|entries|, |healthy|, targetRelays, maxFactor);
    MulMonotone(1, choice.stripeCount, choice.replicaFactor);
    RowsOfTokenAre(entries, healthy, choice, copies, entries[index].token);
    RowAt(index, entries[index], healthy, choice, copies, k);
  }

  /** The plan has no rows for a token that was not asked for. */
  lemma PlanHasNoStrays(entries: seq<Entry>, healthy: seq<HealthyRelay>, targetRelays: int, maxFactor: int,
                        maxReplicasPerBlock: int, token: string)
    requires healthy != [] && DistinctTokens(entries)
    requires forall i | 0 <= i < |entries| :: entries[i].token != token
    ensures var plan := PlanFor(entries, healthy, targetRelays, maxFactor, maxReplicasPerBlock).value;
            RowsOfToken(plan.placements, token) == []
  {
    hide ChoiceFor;
    hide AllRows;
    hide RowsOfToken;
    if entries == [] {
      NoRowsOfToken(token);
    } else {
      var choice := ChoiceFor(|entries|, |healthy|, targetRelays, maxFactor);
      ChoiceFits(|entries|, |healthy|, targetRelays, maxFactor);
      MulMonotone(1, choice.stripeCount, choice.replicaFactor);
      RowsOfTokenAre(entries, healthy, choice, CopiesFor(choice, maxReplicasPerBlock), token);
    }
  }

  // ---------- Balance ----------

  lemma {:induction false} PrimaryLoadConcat(a: seq<PlannedPlacement>, b: seq<PlannedPlacement>, relayId: string)
    ensures PrimaryLoad(a + b, relayId) == PrimaryLoad(a, relayId) + PrimaryLoad(b, relayId)
  {
    if b == [] {
      assert a + b == a;
    } else {
      var n := |b| - 1;
      PrimaryLoadConcat(a, b[..n], relayId);
      assert (a + b)[..|a| + n] == a + b[..n];
    }
  }

  lemma {:induction false} ReplicasCarryNoLoad(rows: seq<PlannedPlacement>, relayId: string)
    requires forall k | 0 <= k < |rows| :: rows[k].role == Replica
    ensures PrimaryLoad(rows, relayId) == 0
  {
    if rows != [] {
      ReplicasCarryNoLoad(rows[..|rows| - 1], relayId);
    }
  }

  lemma LoadOfRowsAt(index: nat, entry: Entry, healthy: seq<HealthyRelay>, choice: StripeReplicaChoice, copies: nat,
                     q: nat)
    requires PoolsFit(choice, healthy) && (copies > 0 ==> 0 < choice.stripeCount * choice.replicaFactor)
    requires DistinctRelays(healthy) && q < |healthy|
    ensures PrimaryLoad(RowsAt(index, entry, healthy, choice, copies), healthy[q].relayId)
         == if q == index % choice.stripeCount then 1 else 0
  {
    hide StripSlashes;
    hide RowsAt;
    var rows := RowsAt(index, entry, healthy, choice, copies);
    forall k | 0 <= k < |rows|
      ensures rows[k].role == if k == 0 then Primary else Replica
    {
      RowAt(index, entry, healthy, choice, copies, k);
    }
    RowAt(index, entry, healthy, choice, copies, 0);
    PrimaryLoadConcat([rows[0]], rows[1..], healthy[q].relayId);
    assert rows == [rows[0]] + rows[1..];
    ReplicasCarryNoLoad(rows[1..], healthy[q].relayId);
    assert [rows[0]][..0] == [];
  }

  lemma QuotientStep(n: nat, s: nat)
    requires 0 < s
    ensures if n % s == s - 1 then (n + 1) / s == n / s + 1 && (n + 1) % s == 0
            else (n + 1) / s == n / s && (n + 1) % s == n % s + 1
  {
    DivBounds(n, s);
    if n % s == s - 1 {
      DivUnique(n + 1, s, n / s + 1);
    } else {
      DivUnique(n + 1, s, n / s);
    }
  }

  /** Primary loads are even: relay q of the S primaries has n / S tokens, one more if q < n % S. */
  lemma {:induction false} PrimaryLoads(entries: seq<Entry>, healthy: seq<HealthyRelay>,
                                        choice: StripeReplicaChoice, copies: nat, q: nat)
    requires PoolsFit(choice, healthy) && (copies > 0 ==> 0 < choice.stripeCount * choice.replicaFactor)
    requires DistinctRelays(healthy) && q < |healthy|
    ensures var n, s := |entries|, choice.stripeCount;
            PrimaryLoad(AllRows(entries, healthy, choice, copies), healthy[q].relayId)
            == if q >= s then 0 else n / s + if q < n % s then 1 else 0
  {
    hide RowsAt;
    hide PrimaryLoad;
    var s := choice.stripeCount;
    if entries == [] {
      NoLoad(healthy[q].relayId);
      DivUnique(0, s, 0);
    } else {
      var n := |entries| - 1;
      var rows := RowsAt(n, entries[n], healthy, choice, copies);
      PrimaryLoads(entries[..n], healthy, choice, copies, q);
      PrimaryLoadConcat(AllRows(entries[..n], healthy, choice, copies), rows, healthy[q].relayId);
      LoadOfRowsAt(n, entries[n], healthy, choice, copies, q);
      QuotientStep(n, s);
    }
  }

  /** Primary loads of any two of the S primary relays differ by at most one; no other relay has any. */
  lemma PlanIsBalanced(entries: seq<Entry>, healthy: seq<HealthyRelay>, targetRelays: int, maxFactor: int,
                       maxReplicasPerBlock: int, p: nat, q: nat)
    requires entries != [] && DistinctRelays(healthy) && p < |healthy| && q < |healthy|
    ensures var plan := PlanFor(entries, healthy, targetRelays, maxFactor, maxReplicasPerBlock).value;
            var s := plan.choice.stripeCount;
            var loadP, loadQ := PrimaryLoad(plan.placements, healthy[p].relayId),
                                PrimaryLoad(plan.placements, healthy[q].relayId);
            && (p < s && q < s ==> loadP - loadQ <= 1)
            && (p >= s ==> loadP == 0)
  {
    hide ChoiceFor;
    hide AllRows;
    hide PrimaryLoad;
    var choice := ChoiceFor(|entries|, |healthy|, targetRelays, maxFactor);
    var copies := CopiesFor(choice, maxReplicasPerBlock);
    ChoiceFits(|entries|, |healthy|, targetRelays, maxFactor);
    MulMonotone(1, choice.stripeCount, choice.replicaFactor);
    PrimaryLoads(entries, healthy, choice, copies, p);
    PrimaryLoads(entries, healthy, choice, copies, q);
  }

  lemma NoLoad(relayId: string)
    ensures PrimaryLoad([], relayId) == 0
  {
  }
}
