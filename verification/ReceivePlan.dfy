/** How many tokens the receiver asks for at once, and what it plans to fetch or cancel. */
module ReceivePlan {
  import opened ByteStrings
  import opened Cryptography
  import opened Sender

  const MIN_BROWSER_RECEIVE_PREFETCH: nat := 2
  const MAX_BROWSER_RECEIVE_PREFETCH: nat := 64
  const DEFAULT_INITIAL_TOKENS: nat := 64

  /** `browser` tells the two runtimes apart; the memory budget is probed once, outside this model. */
  datatype DownloadOptions = DownloadOptions(
    initialTokens: Option<int>,
    relayMaxBodyBytes: nat,
    memoryBudgetBytes: nat,
    browser: bool)

  function BrowserReceivePrefetchCount(wireBlockBytes: nat, options: DownloadOptions): int {
    if options.initialTokens.Some? then Max(1, options.initialTokens.value)
    else if wireBlockBytes == 0 then MIN_BROWSER_RECEIVE_PREFETCH
    else
      Max(MIN_BROWSER_RECEIVE_PREFETCH,
          Min(MAX_BROWSER_RECEIVE_PREFETCH, options.memoryBudgetBytes / wireBlockBytes))
  }

  // Before the metadata is known (0), the relay's body ceiling stands for the wire size.
  function ReceivePrefetchCount(wireBlockBytes: nat, options: DownloadOptions): int {
    var blockBytes := if wireBlockBytes > 0 then wireBlockBytes else options.relayMaxBodyBytes;
    if options.browser then BrowserReceivePrefetchCount(blockBytes, options)
    else if options.initialTokens.Some? then options.initialTokens.value
    else DEFAULT_INITIAL_TOKENS
  }

  /** With a wire size within the relay's ceiling, learning it never narrows the window. */
  lemma WindowOnlyWidens(wireBlockBytes: nat, options: DownloadOptions)
    requires wireBlockBytes <= options.relayMaxBodyBytes
    ensures ReceivePrefetchCount(0, options) <= ReceivePrefetchCount(wireBlockBytes, options)
  {
    if 0 < wireBlockBytes {
      var budget, ceiling := options.memoryBudgetBytes, options.relayMaxBodyBytes;
      DivBounds(budget, ceiling);
      MulMonotone(wireBlockBytes, ceiling, budget / ceiling);
      QuotientTimes(budget, wireBlockBytes, budget / ceiling);
    }
  }

  /** A derived window of wire blocks fits the memory budget, or is two blocks wide. */
  lemma WindowFitsBudget(wireBlockBytes: nat, options: DownloadOptions)
    requires 0 < wireBlockBytes && options.browser && options.initialTokens.None?
    ensures 2 <= ReceivePrefetchCount(wireBlockBytes, options)
    ensures ReceivePrefetchCount(wireBlockBytes, options) * wireBlockBytes
         <= Max(options.memoryBudgetBytes, 2 * wireBlockBytes)
  {
    var q := options.memoryBudgetBytes / wireBlockBytes;
    DivBounds(options.memoryBudgetBytes, wireBlockBytes);
    MulMonotone(ReceivePrefetchCount(wireBlockBytes, options), Max(2, q), wireBlockBytes);
  }

  /** The derived window: as many blocks as the budget holds, but at least 2 and at most 64. */
  lemma WindowExactly(wireBlockBytes: nat, options: DownloadOptions, w: int)
    requires 0 < wireBlockBytes && options.browser && options.initialTokens.None?
    ensures ReceivePrefetchCount(wireBlockBytes, options) == w <==>
              && 2 <= w <= 64
              && (w == 2 || w * wireBlockBytes <= options.memoryBudgetBytes)
              && (w == 64 || (w + 1) * wireBlockBytes > options.memoryBudgetBytes)
  {
    if 2 <= w <= 64 {
      QuotientTimes(options.memoryBudgetBytes, wireBlockBytes, w);
      QuotientTimes(options.memoryBudgetBytes, wireBlockBytes, w + 1);
    }
  }

  /** Otherwise: the announced ceiling stands for an unknown size, a setting wins, and Node.js takes 64. */
  lemma WindowElsewhere(wireBlockBytes: nat, options: DownloadOptions)
    ensures ReceivePrefetchCount(0, options) == ReceivePrefetchCount(options.relayMaxBodyBytes, options)
    ensures options.initialTokens.Some? ==>
              ReceivePrefetchCount(wireBlockBytes, options)
              == if options.browser then Max(1, options.initialTokens.value) else options.initialTokens.value
    ensures options.initialTokens.None? && !options.browser ==> ReceivePrefetchCount(wireBlockBytes, options) == 64
    ensures options.initialTokens.None? && options.browser && options.relayMaxBodyBytes == 0 ==>
              ReceivePrefetchCount(0, options) == 2
  {
  }

  // ---------- Tokens and plans ----------

  datatype ReceiveDownloadPlan = ReceiveDownloadPlan(
    numTokens: nat,
    initialPrefetch: seq<Bytes>,
    cancelAfterSmb: seq<Bytes>,
    fetchAfterSmb: seq<Bytes>)

  function IndexTokens(c: Crypto, searchCode: Bytes, lo: nat, hi: nat): seq<Bytes>
    requires lo <= hi
  {
    seq(hi - lo, i requires 0 <= i < hi - lo => c.uploadToken(searchCode, lo + i))
  }

  method DeriveIndexTokens(c: Crypto, searchCode: Bytes, lo: nat, hi: nat) returns (r: Option<seq<Bytes>>)
    ensures r == if hi < lo then None else Some(IndexTokens(c, searchCode, lo, hi))
  {
    if hi < lo {
      return None;
    }
    var tokens := [];
    for index := lo to hi
      invariant tokens == IndexTokens(c, searchCode, lo, index)
    {
      tokens := tokens + [c.uploadToken(searchCode, index)];
    }
    r := Some(tokens);
  }

  /** The tokens of the indices lo .. hi - 1, as a set. */
  function TokenRange(c: Crypto, searchCode: Bytes, lo: nat, hi: nat): set<Bytes> {
    set i: nat | lo <= i < hi :: c.uploadToken(searchCode, i)
  }

  lemma RangeOfTokens(c: Crypto, searchCode: Bytes, lo: nat, hi: nat)
    requires lo <= hi
    ensures (set t | t in IndexTokens(c, searchCode, lo, hi)) == TokenRange(c, searchCode, lo, hi)
  {
    var s := IndexTokens(c, searchCode, lo, hi);
    forall t | t in TokenRange(c, searchCode, lo, hi)
      ensures t in s
    {
      var i: nat :| lo <= i < hi && c.uploadToken(searchCode, i) == t;
      assert s[i - lo] == t;
    }
  }

  lemma InRange(c: Crypto, searchCode: Bytes, lo: nat, hi: nat, count: nat, i: nat)
    requires TokensDistinct(c, searchCode, count) && hi <= count && i < count
    ensures c.uploadToken(searchCode, i) in TokenRange(c, searchCode, lo, hi) <==> lo <= i < hi
  {
  }

  lemma {:induction false} RangeSize(c: Crypto, searchCode: Bytes, lo: nat, hi: nat)
    ensures |TokenRange(c, searchCode, lo, hi)| <= Max(0, hi - lo)
    decreases hi
  {
    if lo < hi {
      var last := c.uploadToken(searchCode, hi - 1);
      RangeSize(c, searchCode, lo, hi - 1);
      assert TokenRange(c, searchCode, lo, hi) == TokenRange(c, searchCode, lo, hi - 1) + {last};
    } else {
      assert TokenRange(c, searchCode, lo, hi) == {};
    }
  }

  lemma SubsetSize<T>(a: set<T>, b: set<T>)
    requires a <= b
    ensures |a| <= |b|
  {
    assert b == a + (b - a);
  }

  method ComputeReceiveDownloadPlan(c: Crypto, searchCode: Bytes, initialTokens: int, numTokens: nat)
    returns (plan: Option<ReceiveDownloadPlan>)
    ensures plan.None? <==> initialTokens <= 0
    ensures plan.Some? ==>
              && plan.value.numTokens == numTokens
              && plan.value.initialPrefetch == IndexTokens(c, searchCode, 0, initialTokens)
              && plan.value.fetchAfterSmb
                 == IndexTokens(c, searchCode, Min(initialTokens, numTokens), numTokens)
              && plan.value.cancelAfterSmb
                 == IndexTokens(c, searchCode, Min(initialTokens, numTokens), initialTokens)
  {
    if initialTokens <= 0 {
      return None;
    }
    var initial := DeriveIndexTokens(c, searchCode, 0, initialTokens);
    var cancel, fetch: seq<Bytes> := [], [];
    if numTokens > initialTokens {
      var derived := DeriveIndexTokens(c, searchCode, initialTokens, numTokens);
      fetch := derived.value;
    } else if initialTokens > numTokens {
      var derived := DeriveIndexTokens(c, searchCode, numTokens, initialTokens);
      cancel := derived.value;
    }
    plan := Some(ReceiveDownloadPlan(numTokens, initial.value, cancel, fetch));
  }

  /** A plan prefetches or fetches every needed index, and cancels exactly the prefetched rest. */
  lemma PlanCoversNeeded(c: Crypto, searchCode: Bytes, initialTokens: nat, numTokens: nat, i: nat)
    requires TokensDistinct(c, searchCode, Max(initialTokens, numTokens)) && i < Max(initialTokens, numTokens)
    ensures var token := c.uploadToken(searchCode, i);
            && (i < numTokens <==>
                  || (token in IndexTokens(c, searchCode, 0, initialTokens)
                      && token !in IndexTokens(c, searchCode, Min(initialTokens, numTokens), initialTokens))
                  || token in IndexTokens(c, searchCode, Min(initialTokens, numTokens), numTokens))
  {
    var count, low := Max(initialTokens, numTokens), Min(initialTokens, numTokens);
    RangeOfTokens(c, searchCode, 0, initialTokens);
    RangeOfTokens(c, searchCode, low, initialTokens);
    RangeOfTokens(c, searchCode, low, numTokens);
    InRange(c, searchCode, 0, initialTokens, count, i);
    InRange(c, searchCode, low, initialTokens, count, i);
    InRange(c, searchCode, low, numTokens, count, i);
    assert c.uploadToken(searchCode, i) in IndexTokens(c, searchCode, 0, initialTokens)
      <==> c.uploadToken(searchCode, i) in (set t | t in IndexTokens(c, searchCode, 0, initialTokens));
    assert c.uploadToken(searchCode, i) in IndexTokens(c, searchCode, low, initialTokens)
      <==> c.uploadToken(searchCode, i) in (set t | t in IndexTokens(c, searchCode, low, initialTokens));
    assert c.uploadToken(searchCode, i) in IndexTokens(c, searchCode, low, numTokens)
      <==> c.uploadToken(searchCode, i) in (set t | t in IndexTokens(c, searchCode, low, numTokens));
  }
}
