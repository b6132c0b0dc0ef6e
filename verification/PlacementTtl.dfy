/** How long tokens may live: the TTL grant, and the relays that can honour it. */
module PlacementTtl {
  import opened ByteStrings
  import opened Placement

  datatype PlacementPolicy = PlacementPolicy(
    stripeTargetRelays: int,
    maxFileReplicaCount: int,
    maxReplicasPerBlock: int,
    minGrantTtlSeconds: int,
    clockSkewSeconds: int,
    maxRequestedTtlSeconds: int,
    ttlDegradeStepDivisor: int)

  datatype PlacementResolution = PlacementResolution(
    grantedTtlSeconds: int,
    requestedTtlSeconds: int,
    degraded: bool,
    plan: Plan,
    idealRelayCount: int,
    actualRelayCount: int)

  // ---------- Caps ----------

  function EffectiveCapSeconds(blockMaxAgeSeconds: int, clockSkewSeconds: int): int {
    Max(1, blockMaxAgeSeconds - clockSkewSeconds)
  }

  function RelayEffectiveCap(relay: HealthyRelay, policy: PlacementPolicy): int {
    EffectiveCapSeconds(relay.blockMaxAgeSeconds, policy.clockSkewSeconds)
  }

  function Caps(pool: seq<HealthyRelay>, policy: PlacementPolicy): seq<int> {
    seq(|pool|, i requires 0 <= i < |pool| => RelayEffectiveCap(pool[i], policy))
  }

  function CountAtLeast(caps: seq<int>, threshold: int): (n: nat)
    ensures n <= |caps|
  {
    if caps == [] then 0
    else
      var n := |caps| - 1;
      CountAtLeast(caps[..n], threshold) + if caps[n] >= threshold then 1 else 0
  }

  function CountEligible(pool: seq<HealthyRelay>, threshold: int, policy: PlacementPolicy): nat {
    CountAtLeast(Caps(pool, policy), threshold)
  }

  function LargestCap(caps: seq<int>): (r: int)
    requires caps != []
    ensures r in caps && forall c | c in caps :: c <= r
  {
    var n := |caps| - 1;
    assert caps == caps[..n] + [caps[n]];
    if n == 0 then caps[0] else Max(LargestCap(caps[..n]), caps[n])
  }

  // ---------- Order ----------

  ghost predicate Descends(s: seq<int>) {
    forall i, j | 0 <= i < j < |s| :: s[i] >= s[j]
  }

  lemma ConsDescends(x: int, s: seq<int>)
    requires Descends(s) && forall y | y in s :: y <= x
    ensures Descends([x] + s)
  {
    forall i, j | 0 <= i < j < |s| + 1
      ensures ([x] + s)[i] >= ([x] + s)[j]
    {
      assert ([x] + s)[j] == s[j - 1] && s[j - 1] in s;
    }
  }

  function InsertDescending(x: int, s: seq<int>): (r: seq<int>)
    requires Descends(s)
    ensures Descends(r) && |r| == |s| + 1 && forall y :: y in r <==> y == x || y in s
  {
    if s == [] || x >= s[0] then
      ConsDescends(x, s);
      [x] + s
    else
      var rest := InsertDescending(x, s[1..]);
      assert s == [s[0]] + s[1..];
      ConsDescends(s[0], rest);
      [s[0]] + rest
  }

  /** All caps, largest first. */
  function Descending(caps: seq<int>): (r: seq<int>)
    ensures Descends(r) && |r| == |caps| && forall y :: y in r <==> y in caps
  {
    if caps == [] then []
    else
      var n := |caps| - 1;
      assert caps == caps[..n] + [caps[n]];
      InsertDescending(caps[n], Descending(caps[..n]))
  }

  // Drops repeated neighbours: with `Descending`, the distinct caps from high to low.
  function Dedup(s: seq<int>): (r: seq<int>)
    ensures forall y :: y in r <==> y in s
  {
    if |s| < 2 then s
    else if s[0] == s[1] then Dedup(s[1..])
    else [s[0]] + Dedup(s[1..])
  }

  lemma {:induction false} DedupDescends(s: seq<int>)
    requires Descends(s)
    ensures Descends(Dedup(s))
  {
    if |s| >= 2 {
      DedupDescends(s[1..]);
      ConsDescends(s[0], Dedup(s[1..]));
    }
  }

  function DistinctDescending(caps: seq<int>): (r: seq<int>)
    ensures Descends(r) && forall y :: y in r <==> y in caps
  {
    DedupDescends(Descending(caps));
    Dedup(Descending(caps))
  }

  lemma {:induction false} CountAppend(a: seq<int>, b: seq<int>, threshold: int)
    ensures CountAtLeast(a + b, threshold) == CountAtLeast(a, threshold) + CountAtLeast(b, threshold)
  {
    if b == [] {
      assert a + b == a;
    } else {
      var n := |b| - 1;
      CountAppend(a, b[..n], threshold);
      assert (a + b)[..|a| + n] == a + b[..n];
    }
  }

  lemma CountOne(x: int, threshold: int)
    ensures CountAtLeast([x], threshold) == if x >= threshold then 1 else 0
  {
    assert [x][..0] == [];
  }

  lemma {:induction false} CountInserted(x: int, s: seq<int>, threshold: int)
    requires Descends(s)
    ensures CountAtLeast(InsertDescending(x, s), threshold)
         == CountAtLeast(s, threshold) + if x >= threshold then 1 else 0
  {
    if s == [] || x >= s[0] {
      CountAppend([x], s, threshold);
      CountOne(x, threshold);
    } else {
      CountInserted(x, s[1..], threshold);
      CountAppend([s[0]], s[1..], threshold);
      CountAppend([s[0]], InsertDescending(x, s[1..]), threshold);
      assert [s[0]] + s[1..] == s;
    }
  }

  lemma {:induction false} CountSorted(caps: seq<int>, threshold: int)
    ensures CountAtLeast(Descending(caps), threshold) == CountAtLeast(caps, threshold)
  {
    if caps != [] {
      var n := |caps| - 1;
      CountSorted(caps[..n], threshold);
      CountInserted(caps[n], Descending(caps[..n]), threshold);
    }
  }

  lemma {:induction false} CountPrefix(s: seq<int>, n: nat, threshold: int)
    requires Descends(s) && 1 <= n <= |s|
    ensures CountAtLeast(s, threshold) >= n <==> s[n - 1] >= threshold
    decreases |s|
  {
    var m := |s| - 1;
    if s[m] >= threshold {
      AllAtLeast(s, threshold);
    } else if n <= m {
      CountPrefix(s[..m], n, threshold);
    }
  }

  lemma {:induction false} AllAtLeast(s: seq<int>, threshold: int)
    requires forall i | 0 <= i < |s| :: s[i] >= threshold
    ensures CountAtLeast(s, threshold) == |s|
  {
    if s != [] {
      AllAtLeast(s[..|s| - 1], threshold);
    }
  }

  // ---------- The highest threshold for a count ----------

  /** The highest of the caps that still leaves `need` relays. */
  ghost predicate HighestFor(caps: seq<int>, need: int, t: int) {
    t in caps && CountAtLeast(caps, t) >= need && forall c | c in caps && c > t :: CountAtLeast(caps, c) < need
  }

  method MaxThresholdForCount(pool: seq<HealthyRelay>, need: int, policy: PlacementPolicy) returns (r: Option<int>)
    ensures r.Some? ==> HighestFor(Caps(pool, policy), need, r.value)
    ensures r.None? ==> forall c | c in Caps(pool, policy) :: CountEligible(pool, c, policy) < need
  {
    hide CountAtLeast;
    hide Caps;
    hide DistinctDescending;
    var caps := DistinctDescending(Caps(pool, policy));
    for i := 0 to |caps|
      invariant forall k | 0 <= k < i :: CountEligible(pool, caps[k], policy) < need
    {
      if CountEligible(pool, caps[i], policy) >= need {
        return Some(caps[i]);
      }
    }
    r := None;
  }

  /** That threshold is the `need`-th largest cap, and no number above it leaves `need` relays. */
  lemma HighestIsNthLargest(caps: seq<int>, need: nat, t: int)
    requires 1 <= need <= |caps|
    ensures HighestFor(caps, need, t) <==> t == Descending(caps)[need - 1]
    ensures HighestFor(caps, need, t) ==> forall c: int | c > t :: CountAtLeast(caps, c) < need
  {
    hide CountAtLeast;
    var d := Descending(caps);
    forall c: int
      ensures CountAtLeast(caps, c) >= need <==> d[need - 1] >= c
    {
      CountSorted(caps, c);
      CountPrefix(d, need, c);
    }
    assert d[need - 1] in d;
  }

  // ---------- What a relay can keep ----------

  /** The relay still has a block after that time, with the clock skew to spare; one second it always has. */
  predicate Keeps(relay: HealthyRelay, seconds: int, policy: PlacementPolicy) {
    seconds <= 1 || seconds + policy.clockSkewSeconds <= relay.blockMaxAgeSeconds
  }

  ghost function Keepers(healthy: seq<HealthyRelay>, seconds: int, policy: PlacementPolicy): set<nat> {
    set i: nat | i < |healthy| && Keeps(healthy[i], seconds, policy)
  }

  lemma CapMeansKeeps(relay: HealthyRelay, seconds: int, policy: PlacementPolicy)
    ensures RelayEffectiveCap(relay, policy) >= seconds <==> Keeps(relay, seconds, policy)
  {
  }

  lemma {:induction false} EligibleAreKeepers(healthy: seq<HealthyRelay>, seconds: int, policy: PlacementPolicy)
    ensures CountEligible(healthy, seconds, policy) == |Keepers(healthy, seconds, policy)|
  {
    hide Keeps;
    hide RelayEffectiveCap;
    if healthy != [] {
      var n := |healthy| - 1;
      EligibleAreKeepers(healthy[..n], seconds, policy);
      CapMeansKeeps(healthy[n], seconds, policy);
      assert Caps(healthy, policy)[..n] == Caps(healthy[..n], policy);
      var front := Keepers(healthy[..n], seconds, policy);
      assert Keepers(healthy, seconds, policy) == if Keeps(healthy[n], seconds, policy) then front + {n} else front;
    }
  }

  // ---------- The degrade search ----------

  function IdealRelayCount(blockCount: int, healthyCount: int, policy: PlacementPolicy): (n: int)
    ensures n >= 1
  {
    var choice := ChoiceFor(blockCount, healthyCount, policy.stripeTargetRelays, policy.maxFileReplicaCount);
    Max(1, Min(choice.stripeCount * (1 + choice.replicaFactor), blockCount * policy.maxReplicasPerBlock))
  }

  /** Above one relay, an ideal is what some S and R within the limits use and the blocks have copies for. */
  lemma IdealExactly(blockCount: int, healthyCount: int, policy: PlacementPolicy, n: int)
    ensures n <= IdealRelayCount(blockCount, healthyCount, policy) <==>
              || n <= 1
              || (n <= blockCount * policy.maxReplicasPerBlock
                  && exists s, r | WithinLimits(s, r, blockCount, healthyCount, policy.stripeTargetRelays,
                                                policy.maxFileReplicaCount) :: n <= s * (1 + r))
  {
    hide ChoiceFor;
    hide WithinLimits;
    var choice := ChoiceFor(blockCount, healthyCount, policy.stripeTargetRelays, policy.maxFileReplicaCount);
    ChoiceIsBestExactly(choice, blockCount, healthyCount, policy.stripeTargetRelays, policy.maxFileReplicaCount);
    NothingWithinLimits(blockCount, healthyCount, policy.stripeTargetRelays, policy.maxFileReplicaCount);
  }

  lemma NothingWithinLimits(blockCount: int, healthyCount: int, targetRelays: int, maxFactor: int)
    ensures blockCount < 1 || healthyCount < 1 || targetRelays < 1 || maxFactor < 0 ==>
              forall s, r :: !WithinLimits(s, r, blockCount, healthyCount, targetRelays, maxFactor)
  {
  }

  // The lowest grant the search may fall to while it looks for relays.
  function GrantFloor(clusterMax: int, policy: PlacementPolicy): int {
    var decrement := clusterMax / Max(1, policy.ttlDegradeStepDivisor);
    var low := if decrement > policy.minGrantTtlSeconds then policy.minGrantTtlSeconds else clusterMax - decrement;
    Max(1, Min(low, clusterMax))
  }

  // n*: the largest count up to the ideal with that many relays at or above the floor.
  function GrantedCount(pool: seq<HealthyRelay>, blockCount: int, policy: PlacementPolicy): int
    requires pool != []
  {
    Min(IdealRelayCount(blockCount, |pool|, policy),
        CountEligible(pool, GrantFloor(LargestCap(Caps(pool, policy)), policy), policy))
  }

  lemma GrantedCountInRange(pool: seq<HealthyRelay>, blockCount: int, policy: PlacementPolicy)
    requires pool != []
    ensures 1 <= GrantedCount(pool, blockCount, policy) <= |pool|
  {
    hide CountAtLeast;
    hide IdealRelayCount;
    var caps := Caps(pool, policy);
    var top := LargestCap(caps);
    assert forall c | c in caps :: c >= 1;
    var floor := GrantFloor(top, policy);
    assert floor <= top;
    CountSorted(caps, floor);
    CountPrefix(Descending(caps), 1, floor);
    assert top in Descending(caps);
  }

  method IdealRelays(blockCount: int, healthyCount: int, policy: PlacementPolicy) returns (n: int)
    ensures n == IdealRelayCount(blockCount, healthyCount, policy)
  {
    hide ChoiceFor;
    var choice := ChooseStripeReplica(blockCount, healthyCount, policy.stripeTargetRelays, policy.maxFileReplicaCount);
    n := Max(1, Min(choice.stripeCount * (1 + choice.replicaFactor), blockCount * policy.maxReplicasPerBlock));
  }

  /** On a non-empty pool the search always grants: the n*-th largest cap, never below the floor. */
  method FindGrantedTtlWithTopology(pool: seq<HealthyRelay>, blockCount: int, policy: PlacementPolicy)
    returns (r: Option<int>)
    ensures r.None? <==> pool == []
    ensures pool != [] ==>
              var n := GrantedCount(pool, blockCount, policy);
              && 1 <= n <= |pool|
              && r == Some(Descending(Caps(pool, policy))[n - 1])
              && r.value >= GrantFloor(LargestCap(Caps(pool, policy)), policy)
              && CountEligible(pool, r.value, policy) >= n
              && (forall t: int | t > r.value :: CountEligible(pool, t, policy) < n)
  {
    hide CountAtLeast;
    hide IdealRelayCount;
    hide GrantFloor;
    hide Caps;
    hide Descending;
    if pool == [] {
      return None;
    }
    CapsLength(pool, policy);
    var clusterMax := LargestCap(Caps(pool, policy));
    var n := IdealRelays(blockCount, |pool|, policy);
    var low := GrantFloor(clusterMax, policy);
    ghost var target := GrantedCount(pool, blockCount, policy);
    GrantedCountInRange(pool, blockCount, policy);
    r := None;
    while n >= 1 && r.None?
      invariant target <= n
      invariant r.Some? ==> n == target && HighestFor(Caps(pool, policy), n, r.value)
      decreases n, r.None?
    {
      if CountEligible(pool, low, policy) < n {
        n := n - 1;
      } else {
        r := MaxThresholdForCount(pool, n, policy);
        HighestIsNthLargest(Caps(pool, policy), n, Descending(Caps(pool, policy))[n - 1]);
        // The source would go on with n - 1; there always is a threshold.
        n := if r.None? then n - 1 else n;
      }
    }
    HighestIsNthLargest(Caps(pool, policy), target, r.value);
    GrantIsBest(pool, blockCount, policy);
  }

  /** The n*-th largest cap is at least the floor, has n* relays, and nothing above it has. */
  lemma GrantIsBest(pool: seq<HealthyRelay>, blockCount: int, policy: PlacementPolicy)
    requires pool != []
    ensures var n := GrantedCount(pool, blockCount, policy);
            && 1 <= n <= |pool|
            && var t := Descending(Caps(pool, policy))[n - 1];
            && GrantFloor(LargestCap(Caps(pool, policy)), policy) <= t
            && CountEligible(pool, t, policy) >= n
            && (forall c: int | c > t :: CountEligible(pool, c, policy) < n)
  {
    hide CountAtLeast;
    hide IdealRelayCount;
    hide GrantFloor;
    hide Caps;
    hide Descending;
    GrantedCountInRange(pool, blockCount, policy);
    CapsLength(pool, policy);
    var caps, n := Caps(pool, policy), GrantedCount(pool, blockCount, policy);
    HighestIsNthLargest(caps, n, Descending(caps)[n - 1]);
    CountSorted(caps, GrantFloor(LargestCap(caps), policy));
    CountPrefix(Descending(caps), n, GrantFloor(LargestCap(caps), policy));
  }

  lemma CapsLength(pool: seq<HealthyRelay>, policy: PlacementPolicy)
    ensures |Caps(pool, policy)| == |pool|
  {
  }

  // ---------- Resolution ----------

  function EligiblePool(healthy: seq<HealthyRelay>, threshold: int, policy: PlacementPolicy)
    : (pool: seq<HealthyRelay>)
    ensures forall relay :: relay in pool <==> relay in healthy && RelayEffectiveCap(relay, policy) >= threshold
  {
    if healthy == [] then []
    else
      var n := |healthy| - 1;
      assert healthy == healthy[..n] + [healthy[n]];
      EligiblePool(healthy[..n], threshold, policy)
      + if RelayEffectiveCap(healthy[n], policy) >= threshold then [healthy[n]] else []
  }

  lemma {:induction false} EligiblePoolSize(healthy: seq<HealthyRelay>, threshold: int, policy: PlacementPolicy)
    ensures |EligiblePool(healthy, threshold, policy)| == CountEligible(healthy, threshold, policy)
  {
    hide RelayEffectiveCap;
    if healthy != [] {
      var n := |healthy| - 1;
      EligiblePoolSize(healthy[..n], threshold, policy);
      assert Caps(healthy, policy)[..n] == Caps(healthy[..n], policy);
    }
  }

  lemma {:induction false} EligiblePoolIsDistinct(healthy: seq<HealthyRelay>, threshold: int, policy: PlacementPolicy)
    requires DistinctRelays(healthy)
    ensures DistinctRelays(EligiblePool(healthy, threshold, policy))
  {
    hide RelayEffectiveCap;
    if healthy != [] {
      var n := |healthy| - 1;
      EligiblePoolIsDistinct(healthy[..n], threshold, policy);
      var front := EligiblePool(healthy[..n], threshold, policy);
      forall i | 0 <= i < |front|
        ensures front[i].relayId != healthy[n].relayId
      {
        assert front[i] in healthy[..n];
      }
    }
  }

  lemma EligiblePoolFacts(healthy: seq<HealthyRelay>, threshold: int, policy: PlacementPolicy)
    ensures |EligiblePool(healthy, threshold, policy)| == CountEligible(healthy, threshold, policy)
    ensures DistinctRelays(healthy) ==> DistinctRelays(EligiblePool(healthy, threshold, policy))
  {
    hide EligiblePool;
    hide DistinctRelays;
    EligiblePoolSize(healthy, threshold, policy);
    if DistinctRelays(healthy) {
      EligiblePoolIsDistinct(healthy, threshold, policy);
    }
  }

  function ClampRequest(requestedTtl: int, policy: PlacementPolicy): int {
    Max(1, Min(policy.maxRequestedTtlSeconds, requestedTtl))
  }

  /** The request itself if some relay can honour it, else the best degraded grant. */
  function GrantFor(healthy: seq<HealthyRelay>, blockCount: int, request: int, policy: PlacementPolicy): int
    requires healthy != []
  {
    if LargestCap(Caps(healthy, policy)) >= request then request
    else
      GrantedCountInRange(healthy, blockCount, policy);
      Descending(Caps(healthy, policy))[GrantedCount(healthy, blockCount, policy) - 1]
  }

  lemma GrantNeverExceeds(healthy: seq<HealthyRelay>, blockCount: int, request: int, policy: PlacementPolicy)
    requires healthy != []
    ensures GrantFor(healthy, blockCount, request, policy) <= request
    ensures GrantFor(healthy, blockCount, request, policy) <= LargestCap(Caps(healthy, policy))
    ensures EligiblePool(healthy, GrantFor(healthy, blockCount, request, policy), policy) != []
  {
    hide IdealRelayCount;
    hide CountAtLeast;
    hide EligiblePool;
    hide GrantedCount;
    hide Descending;
    hide LargestCap;
    hide Caps;
    GrantedCountInRange(healthy, blockCount, policy);
    CapsLength(healthy, policy);
    var caps, n := Caps(healthy, policy), GrantedCount(healthy, blockCount, policy);
    assert Descending(caps)[n - 1] in Descending(caps);
    SomeRelayHasLargestCap(healthy, GrantFor(healthy, blockCount, request, policy), policy);
  }

  lemma SomeRelayHasLargestCap(healthy: seq<HealthyRelay>, threshold: int, policy: PlacementPolicy)
    requires healthy != [] && threshold <= LargestCap(Caps(healthy, policy))
    ensures EligiblePool(healthy, threshold, policy) != []
  {
    hide EligiblePool;
    hide LargestCap;
    var caps := Caps(healthy, policy);
    var i :| 0 <= i < |caps| && caps[i] == LargestCap(caps);
    assert healthy[i] in healthy;
    assert healthy[i] in EligiblePool(healthy, threshold, policy);
  }

  /**
   The request is granted in full with fewer relays than the ideal exactly when some relay can
   honour it and fewer than the ideal number can.
   */
  lemma GrantedOnTooFew(healthy: seq<HealthyRelay>, blockCount: int, request: int, policy: PlacementPolicy)
    requires healthy != []
    ensures GrantFor(healthy, blockCount, request, policy) == request
       <==> 1 <= CountEligible(healthy, request, policy)
    ensures var ideal := IdealRelayCount(blockCount, |healthy|, policy);
            && GrantFor(healthy, blockCount, request, policy) == request
            && CountEligible(healthy, request, policy) < ideal
            <==> 1 <= CountEligible(healthy, request, policy) < ideal
  {
    hide IdealRelayCount;
    hide CountAtLeast;
    hide EligiblePool;
    hide GrantFor;
    hide LargestCap;
    GrantNeverExceeds(healthy, blockCount, request, policy);
    NoneEligible(healthy, request, policy);
    EligiblePoolFacts(healthy, request, policy);
    if LargestCap(Caps(healthy, policy)) >= request {
      GrantedWhenAny(healthy, blockCount, request, policy);
    }
  }

  lemma GrantedWhenAny(healthy: seq<HealthyRelay>, blockCount: int, request: int, policy: PlacementPolicy)
    requires healthy != [] && LargestCap(Caps(healthy, policy)) >= request
    ensures GrantFor(healthy, blockCount, request, policy) == request
  {
  }

  /** The request is granted in full if and only if some relay keeps blocks that long. */
  lemma GrantedInFullExactly(healthy: seq<HealthyRelay>, blockCount: int, request: int, policy: PlacementPolicy)
    requires healthy != []
    ensures GrantFor(healthy, blockCount, request, policy) == request
       <==> exists relay | relay in healthy :: Keeps(relay, request, policy)
  {
    hide EligiblePool;
    hide GrantFor;
    hide Keeps;
    hide RelayEffectiveCap;
    hide LargestCap;
    GrantedOnTooFew(healthy, blockCount, request, policy);
    EligiblePoolFacts(healthy, request, policy);
    forall relay: HealthyRelay
      ensures RelayEffectiveCap(relay, policy) >= request <==> Keeps(relay, request, policy)
    {
      CapMeansKeeps(relay, request, policy);
    }
    var pool := EligiblePool(healthy, request, policy);
    assert pool != [] ==> pool[0] in pool;
  }

  /**
   Otherwise the grant is the longest time that n relays keep, where n is the ideal number, or as
   many as keep the floor: the policy's minimum, or one step below the longest time any relay keeps
   where the step is not above that minimum.
   */
  lemma DegradedGrant(healthy: seq<HealthyRelay>, blockCount: int, request: int, policy: PlacementPolicy)
    returns (longest: int)
    requires forall relay | relay in healthy :: !Keeps(relay, request, policy)
    requires healthy != []
    ensures Keepers(healthy, longest, policy) != {} && Keepers(healthy, longest + 1, policy) == {}
    ensures var step := longest / Max(1, policy.ttlDegradeStepDivisor);
            var floor := if policy.minGrantTtlSeconds < step then Min(longest, policy.minGrantTtlSeconds)
                         else longest - step;
            var n := Min(IdealRelayCount(blockCount, |healthy|, policy),
                         |Keepers(healthy, Max(1, floor), policy)|);
            var granted := GrantFor(healthy, blockCount, request, policy);
            && Max(1, floor) <= granted < request
            && |Keepers(healthy, granted, policy)| >= n >= 1
            && forall t | t > granted :: |Keepers(healthy, t, policy)| < n
  {
    hide *;
    CapsLength(healthy, policy);
    longest := LargestCap(Caps(healthy, policy));
    LongestKept(healthy, request, policy);
    FloorIs(longest, policy);
    GrantIsNthLargest(healthy, blockCount, request, policy);
    GrantIsBest(healthy, blockCount, policy);
    GrantedCountInRange(healthy, blockCount, policy);
    forall t: int
      ensures CountEligible(healthy, t, policy) == |Keepers(healthy, t, policy)|
    {
      EligibleAreKeepers(healthy, t, policy);
    }
  }

  lemma FloorIs(longest: int, policy: PlacementPolicy)
    requires 1 <= longest
    ensures var step := longest / Max(1, policy.ttlDegradeStepDivisor);
            var floor := if policy.minGrantTtlSeconds < step then Min(longest, policy.minGrantTtlSeconds)
                         else longest - step;
            GrantFloor(longest, policy) == Max(1, floor)
  {
    DivBounds(longest, Max(1, policy.ttlDegradeStepDivisor));
  }

  lemma GrantIsNthLargest(healthy: seq<HealthyRelay>, blockCount: int, request: int, policy: PlacementPolicy)
    requires healthy != [] && LargestCap(Caps(healthy, policy)) < request
    ensures 1 <= GrantedCount(healthy, blockCount, policy) <= |Descending(Caps(healthy, policy))|
    ensures GrantFor(healthy, blockCount, request, policy)
         == Descending(Caps(healthy, policy))[GrantedCount(healthy, blockCount, policy) - 1]
    ensures GrantFor(healthy, blockCount, request, policy) < request
    ensures GrantedCount(healthy, blockCount, policy)
         == Min(IdealRelayCount(blockCount, |healthy|, policy),
                CountEligible(healthy, GrantFloor(LargestCap(Caps(healthy, policy)), policy), policy))
  {
    hide IdealRelayCount;
    hide CountEligible;
    hide LargestCap;
    hide Descending;
    hide GrantFloor;
    GrantedCountInRange(healthy, blockCount, policy);
    GrantNeverExceeds(healthy, blockCount, request, policy);
    CapsLength(healthy, policy);
  }

  // The largest cap is the longest time any relay keeps.
  lemma LongestKept(healthy: seq<HealthyRelay>, request: int, policy: PlacementPolicy)
    requires healthy != [] && forall relay | relay in healthy :: !Keeps(relay, request, policy)
    ensures var longest := LargestCap(Caps(healthy, policy));
            && 1 <= longest < request
            && Keepers(healthy, longest, policy) != {} && Keepers(healthy, longest + 1, policy) == {}
  {
    hide LargestCap;
    var caps := Caps(healthy, policy);
    var longest := LargestCap(caps);
    var k :| 0 <= k < |caps| && caps[k] == longest;
    assert healthy[k] in healthy && k in Keepers(healthy, longest, policy);
    forall i | 0 <= i < |healthy|
      ensures !Keeps(healthy[i], longest + 1, policy)
    {
      assert caps[i] in caps;
    }
  }

  /** It happens: of two relays one can honour the request, two are ideal, and the request is granted. */
  lemma GrantedOnOneOfTwo() returns (healthy: seq<HealthyRelay>, policy: PlacementPolicy)
    ensures healthy != [] && DistinctRelays(healthy)
    ensures CountEligible(healthy, 3600, policy) == 1 && IdealRelayCount(1, |healthy|, policy) == 2
    ensures GrantFor(healthy, 1, 3600, policy) == 3600
  {
    hide EligiblePool;
    var long, short := HealthyRelay("a", "u", 86400), HealthyRelay("b", "v", 600);
    healthy, policy := [long, short], PlacementPolicy(1, 1, 2, 3600, 60, 86400, 4);
    var caps := Caps(healthy, policy);
    assert caps == [86340, 540];
    assert caps[..1] == [86340] && caps[..1][..0] == [];
    assert ChoiceFor(1, 2, 1, 1) == StripeReplicaChoice(1, 1);
    GrantedOnTooFew(healthy, 1, 3600, policy);
  }

  lemma NoneEligible(healthy: seq<HealthyRelay>, threshold: int, policy: PlacementPolicy)
    requires healthy != []
    ensures EligiblePool(healthy, threshold, policy) == [] <==> LargestCap(Caps(healthy, policy)) < threshold
  {
    hide EligiblePool;
    hide LargestCap;
    var caps, pool := Caps(healthy, policy), EligiblePool(healthy, threshold, policy);
    if pool != [] {
      assert pool[0] in pool && pool[0] in healthy;
      var i :| 0 <= i < |healthy| && healthy[i] == pool[0];
      assert caps[i] in caps;
    }
    var k :| 0 <= k < |caps| && caps[k] == LargestCap(caps);
    assert healthy[k] in healthy;
  }

  function PlanUnder(entries: seq<Entry>, pool: seq<HealthyRelay>, policy: PlacementPolicy): (r: Option<Plan>)
    ensures r.None? <==> entries != [] && pool == []
  {
    PlanFor(entries, pool, policy.stripeTargetRelays, policy.maxFileReplicaCount, policy.maxReplicasPerBlock)
  }

  lemma PlanIs(entries: seq<Entry>, pool: seq<HealthyRelay>, policy: PlacementPolicy)
    ensures PlanUnder(entries, pool, policy)
         == PlanFor(entries, pool, policy.stripeTargetRelays, policy.maxFileReplicaCount, policy.maxReplicasPerBlock)
  {
  }

  // The rows of a resolved placement.
  function ResolvedRows(entries: seq<Entry>, healthy: seq<HealthyRelay>, request: int, policy: PlacementPolicy)
    : seq<PlannedPlacement>
    requires healthy != []
  {
    var granted := GrantFor(healthy, |entries|, request, policy);
    GrantNeverExceeds(healthy, |entries|, request, policy);
    PlanUnder(entries, EligiblePool(healthy, granted, policy), policy).value.placements
  }

  // A row on a relay of `healthy` that keeps the grant, under its normalised URL.
  ghost predicate HonoursGrant(row: PlannedPlacement, healthy: seq<HealthyRelay>, granted: int,
                               policy: PlacementPolicy)
  {
    exists relay | relay in healthy ::
      && row.relayId == relay.relayId && row.relayBaseUrl == StripSlashes(relay.relayBaseUrl)
      && Keeps(relay, granted, policy)
  }

  lemma PlacedKeeps(row: PlannedPlacement, healthy: seq<HealthyRelay>, granted: int, policy: PlacementPolicy)
    requires PlacedAmong(row, EligiblePool(healthy, granted, policy))
    ensures HonoursGrant(row, healthy, granted, policy)
  {
    hide StripSlashes;
    hide RelayEffectiveCap;
    hide Keeps;
    var pool := EligiblePool(healthy, granted, policy);
    var i :| 0 <= i < |pool|
          && row.relayId == pool[i].relayId && row.relayBaseUrl == StripSlashes(pool[i].relayBaseUrl);
    assert pool[i] in pool;
    CapMeansKeeps(pool[i], granted, policy);
  }

  lemma PlannedRowsKeep(entries: seq<Entry>, healthy: seq<HealthyRelay>, granted: int, policy: PlacementPolicy)
    requires EligiblePool(healthy, granted, policy) != []
    ensures var plan := PlanUnder(entries, EligiblePool(healthy, granted, policy), policy);
            plan.Some? && forall row | row in plan.value.placements :: HonoursGrant(row, healthy, granted, policy)
  {
    hide EligiblePool;
    hide PlanFor;
    hide PlacedAmong;
    hide HonoursGrant;
    var pool := EligiblePool(healthy, granted, policy);
    PlanStaysInPool(entries, pool, policy.stripeTargetRelays, policy.maxFileReplicaCount, policy.maxReplicasPerBlock);
    forall row | row in PlanUnder(entries, pool, policy).value.placements
      ensures HonoursGrant(row, healthy, granted, policy)
    {
      PlacedKeeps(row, healthy, granted, policy);
    }
  }

  /** Every row of a resolved placement is on a relay that keeps blocks for the granted time. */
  lemma RowsKeepTheGrant(entries: seq<Entry>, healthy: seq<HealthyRelay>, request: int, policy: PlacementPolicy)
    requires healthy != []
    ensures forall row | row in ResolvedRows(entries, healthy, request, policy) ::
              HonoursGrant(row, healthy, GrantFor(healthy, |entries|, request, policy), policy)
  {
    hide GrantFor;
    hide EligiblePool;
    hide PlanUnder;
    hide HonoursGrant;
    GrantNeverExceeds(healthy, |entries|, request, policy);
    PlannedRowsKeep(entries, healthy, GrantFor(healthy, |entries|, request, policy), policy);
  }

  lemma ClampedRequest(requestedTtl: int, policy: PlacementPolicy)
    ensures var longest := Max(1, policy.maxRequestedTtlSeconds);
            ClampRequest(requestedTtl, policy)
            == if requestedTtl < 1 then 1 else if longest < requestedTtl then longest else requestedTtl
  {
  }

  method ResolvePlacementWithTtl(entries: seq<Entry>, healthy: seq<HealthyRelay>, requestedTtl: int,
                                 policy: PlacementPolicy)
    returns (r: Option<PlacementResolution>)
    ensures r.None? <==> healthy == []
    ensures r.Some? ==>
              var request := ClampRequest(requestedTtl, policy);
              var granted := GrantFor(healthy, |entries|, request, policy);
              var pool := EligiblePool(healthy, granted, policy);
              && r.value.requestedTtlSeconds == request && r.value.grantedTtlSeconds == granted <= request
              && pool != [] && Some(r.value.plan) == PlanUnder(entries, pool, policy)
              && r.value.idealRelayCount == IdealRelayCount(|entries|, |healthy|, policy)
              && r.value.actualRelayCount
                 == r.value.plan.choice.stripeCount * (1 + r.value.plan.choice.replicaFactor)
              && (r.value.degraded <==>
                    granted < request || r.value.actualRelayCount < r.value.idealRelayCount)
    ensures r.Some? ==>
              var longest := Max(1, policy.maxRequestedTtlSeconds);
              && r.value.requestedTtlSeconds
                 == (if requestedTtl < 1 then 1 else if longest < requestedTtl then longest else requestedTtl)
              && (r.value.grantedTtlSeconds == r.value.requestedTtlSeconds <==>
                    exists relay | relay in healthy :: Keeps(relay, r.value.requestedTtlSeconds, policy))
              && forall row | row in r.value.plan.placements ::
                   HonoursGrant(row, healthy, r.value.grantedTtlSeconds, policy)
  {
    hide IdealRelayCount;
    hide PlanFor;
    hide EligiblePool;
    hide Caps;
    hide GrantedCount;
    hide Keeps;
    hide HonoursGrant;
    hide PlanUnder;
    hide ClampRequest;
    hide GrantFor;
    hide LargestCap;
    hide Descending;
    hide CountEligible;
    hide GrantFloor;
    if healthy == [] {
      return None;
    }
    var request := ClampRequest(requestedTtl, policy);
    ClampedRequest(requestedTtl, policy);
    var idealN := IdealRelays(|entries|, |healthy|, policy);
    var pool := EligiblePool(healthy, request, policy);
    var granted := request;
    NoneEligible(healthy, request, policy);
    GrantNeverExceeds(healthy, |entries|, request, policy);
    if pool == [] {
      var found := FindGrantedTtlWithTopology(healthy, |entries|, policy);
      granted := found.value;
      GrantIsNthLargest(healthy, |entries|, request, policy);
      // The source tests the filtered pool for emptiness once more; it never is.
      pool := EligiblePool(healthy, granted, policy);
    } else {
      GrantedWhenAny(healthy, |entries|, request, policy);
    }
    var planned := PlanTokenPlacements(entries, pool, policy.stripeTargetRelays, policy.maxFileReplicaCount,
                                       policy.maxReplicasPerBlock);
    var plan := planned.value;
    PlannedRowsKeep(entries, healthy, granted, policy);
    GrantedInFullExactly(healthy, |entries|, request, policy);
    PlanIs(entries, pool, policy);
    var actualN := plan.choice.stripeCount * (1 + plan.choice.replicaFactor);
    r := Some(PlacementResolution(granted, request, granted < request || actualN < idealN, plan, idealN, actualN));
  }

  /** A resolved token has one primary and its replicas on distinct relays, all able to keep the grant. */
  lemma ResolutionIsSound(entries: seq<Entry>, healthy: seq<HealthyRelay>, request: int, policy: PlacementPolicy,
                          index: nat)
    requires healthy != [] && index < |entries| && DistinctRelays(healthy) && DistinctTokens(entries)
    ensures var granted := GrantFor(healthy, |entries|, request, policy);
            var pool := EligiblePool(healthy, granted, policy);
            var rows := RowsOfToken(ResolvedRows(entries, healthy, request, policy), entries[index].token);
            && PlanUnder(entries, pool, policy).Some?
            && TokenPlaced(rows, entries[index], pool,
                           Max(0, Min(PlanUnder(entries, pool, policy).value.choice.replicaFactor,
                                      policy.maxReplicasPerBlock - 1)))
            && forall k | 0 <= k < |rows| :: HonoursGrant(rows[k], healthy, granted, policy)
  {
    hide GrantFor;
    hide EligiblePool;
    hide PlanFor;
    hide RowsOfToken;
    hide CopiesFor;
    hide PlacedAmong;
    hide HonoursGrant;
    var granted := GrantFor(healthy, |entries|, request, policy);
    var pool := EligiblePool(healthy, granted, policy);
    GrantNeverExceeds(healthy, |entries|, request, policy);
    EligiblePoolFacts(healthy, granted, policy);
    PlanIsSound(entries, pool, policy.stripeTargetRelays, policy.maxFileReplicaCount, policy.maxReplicasPerBlock,
                index);
    var rows := RowsOfToken(ResolvedRows(entries, healthy, request, policy), entries[index].token);
    forall k | 0 <= k < |rows|
      ensures HonoursGrant(rows[k], healthy, granted, policy)
    {
      PlacedKeeps(rows[k], healthy, granted, policy);
    }
  }
}
