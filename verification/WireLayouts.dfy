/**
 The wire layout: how many tokens of which size carry the encrypted metadata block and the
 ciphertext, and how much zero padding the search puts in front of the file to make them fit.
 */
module WireLayouts {
  import opened ByteStrings
  import opened Segment

  const SM_PLAIN_BYTES: nat := 345
  const SM_ENC_BYTES: nat := 373
  const RELAY_MAX_BODY_BYTES_CAP: nat := 0x200_0000
  const MIN_BLOCK_SIZE_DIVISOR: nat := 8
  const WIRE_BLOCK_REF: nat := 0x40_0000
  const MAX_TOKEN_ADJUST: nat := 256
  const MAX_PLAINTEXT_PADDING_FOR_WIRE_LAYOUT: nat := 0x100_0000

  datatype WireLayout = WireLayout(
    numTokens: nat,
    wireBlockSize: nat,
    ciphertextLength: nat,
    totalWireBytes: nat,
    lastBlockLength: int,
    plaintextPadding: nat)

  predicate ValidCap(cap: nat) {
    SM_ENC_BYTES <= cap <= RELAY_MAX_BODY_BYTES_CAP
  }

  // ---------- The token count ----------

  function MinWireBlockSize(total: nat, cap: nat): nat {
    Min(cap, total / MIN_BLOCK_SIZE_DIVISOR)
  }

  function MaxTokenCount(total: nat, cap: nat): nat {
    var minBlock := MinWireBlockSize(total, cap);
    if minBlock == 0 then 1
    else Max(1, Min(total / minBlock, total / SM_ENC_BYTES))
  }

  function RelayMin(total: nat, cap: nat): nat
    requires 0 < cap
  {
    CeilDiv(total, cap)
  }

  function RefMin(total: nat): nat {
    CeilDiv(Max(0, total - SM_ENC_BYTES), WIRE_BLOCK_REF)
  }

  // `total - SM_ENC_BYTES` is the ciphertext length.
  function MinTokenCount(total: nat, cap: nat): (r: nat)
    requires 0 < cap
    ensures 1 <= r
  {
    var base := Max(1, RelayMin(total, cap));
    if RefMin(total) <= MaxTokenCount(total, cap) then Max(base, RefMin(total)) else base
  }

  predicate Fits(total: nat, cap: nat, m: nat)
    requires 0 < m
  {
    total % m == 0 && MinWireBlockSize(total, cap) <= total / m <= cap
  }

  /** The least fitting token count of a range, if there is one. */
  function LeastFitting(total: nat, cap: nat, lo: nat, hi: nat): (r: Option<nat>)
    requires 0 < lo
    ensures r.Some? ==> lo <= r.value <= hi && Fits(total, cap, r.value)
    ensures r.Some? ==> forall m | lo <= m < r.value :: !Fits(total, cap, m)
    ensures r.None? ==> forall m | lo <= m <= hi :: !Fits(total, cap, m)
    decreases hi + 1 - lo
  {
    if hi < lo then None
    else if Fits(total, cap, lo) then Some(lo)
    else LeastFitting(total, cap, lo + 1, hi)
  }

  function ChooseTokens(total: nat, cap: nat): Option<nat>
    requires 0 < cap
  {
    LeastFitting(total, cap, MinTokenCount(total, cap), MaxTokenCount(total, cap))
  }

  method ChooseNumTokens(total: nat, cap: nat) returns (r: Option<nat>)
    requires ValidCap(cap) && SM_ENC_BYTES <= total
    ensures r == ChooseTokens(total, cap)
    ensures r.Some? ==> MinTokenCount(total, cap) <= r.value <= MaxTokenCount(total, cap)
    ensures r.Some? ==> Fits(total, cap, r.value)
    ensures r.Some? ==> forall m | MinTokenCount(total, cap) <= m < r.value :: !Fits(total, cap, m)
    ensures r.None? ==> forall m | MinTokenCount(total, cap) <= m <= MaxTokenCount(total, cap) ::
                          !Fits(total, cap, m)
  {
    var maxM := MaxTokenCount(total, cap);
    var minM := MinTokenCount(total, cap);
    if maxM < minM {
      return None;
    }
    var preferredEnd := Min(minM + MAX_TOKEN_ADJUST, maxM);
    var candidate := minM;
    while candidate <= preferredEnd
      invariant minM <= candidate <= preferredEnd + 1
      invariant ChooseTokens(total, cap) == LeastFitting(total, cap, candidate, maxM)
    {
      if Fits(total, cap, candidate) {
        return Some(candidate);
      }
      candidate := candidate + 1;
    }
    candidate := preferredEnd + 1;
    while candidate <= maxM
      invariant preferredEnd + 1 <= candidate <= maxM + 1
      invariant ChooseTokens(total, cap) == LeastFitting(total, cap, candidate, maxM)
    {
      if Fits(total, cap, candidate) {
        return Some(candidate);
      }
      candidate := candidate + 1;
    }
    return None;
  }

  lemma MaxTokensBounds(total: nat, cap: nat)
    requires ValidCap(cap) && SM_ENC_BYTES <= total
    ensures 1 <= MaxTokenCount(total, cap)
    ensures MaxTokenCount(total, cap) * SM_ENC_BYTES <= total
    ensures MaxTokenCount(total, cap) * MinWireBlockSize(total, cap) <= total
    ensures forall m: nat | 1 <= m && m * cap <= total :: m <= MaxTokenCount(total, cap)
  {
    var minBlock, maxM := MinWireBlockSize(total, cap), MaxTokenCount(total, cap);
    assert 0 < minBlock <= cap && minBlock <= total;
    QuotientTimes(total, minBlock, 1);
    QuotientTimes(total, minBlock, maxM);
    QuotientTimes(total, SM_ENC_BYTES, maxM);
    forall m: nat | 1 <= m && m * cap <= total
      ensures m <= maxM
    {
      QuotientTimes(total, minBlock, m);
      QuotientTimes(total, SM_ENC_BYTES, m);
      MulMonotone(minBlock, cap, m);
      MulMonotone(SM_ENC_BYTES, cap, m);
    }
  }

  lemma MinTokensBounds(total: nat, cap: nat)
    requires ValidCap(cap)
    ensures total <= MinTokenCount(total, cap) * cap
  {
    CeilDivBounds(total, cap);
    MulMonotone(RelayMin(total, cap), MinTokenCount(total, cap), cap);
  }

  // The first candidate of a non-empty range only ever fails on divisibility.
  lemma FirstCandidateFits(total: nat, cap: nat)
    requires ValidCap(cap) && SM_ENC_BYTES <= total
    requires MinTokenCount(total, cap) <= MaxTokenCount(total, cap)
    requires total % MinTokenCount(total, cap) == 0
    ensures Fits(total, cap, MinTokenCount(total, cap))
  {
    var m, minBlock := MinTokenCount(total, cap), MinWireBlockSize(total, cap);
    MaxTokensBounds(total, cap);
    MinTokensBounds(total, cap);
    QuotientWithin(total, m, minBlock, cap);
  }

  lemma QuotientWithin(total: nat, m: nat, low: nat, high: nat)
    requires 0 < m && total % m == 0 && total <= m * high
    requires exists k: nat :: m <= k && k * low <= total
    ensures low <= total / m <= high
  {
    var k: nat :| m <= k && k * low <= total;
    MulMonotone(m, k, low);
    assert low * m == m * low;
    QuotientTimes(total, m, low);
    QuotientTimes(total, m, high + 1);
    assert (high + 1) * m == m * high + m;
  }

  // ---------- One exact layout ----------

  /** The layout without padding search; it fails only where no token count can be chosen. */
  function ExactLayout(plaintext: nat, code: nat, cap: nat): Option<WireLayout>
    requires IsSupported(code) && 0 < cap
  {
    var ciphertext := CiphertextLength(plaintext, code);
    var total := SM_ENC_BYTES + ciphertext;
    var m :- ChooseTokens(total, cap);
    Some(WireLayout(m, total / m, ciphertext, total, ciphertext - (m - 1) * (total / m), 0))
  }

  lemma ChosenLayout(total: nat, cap: nat, m: nat)
    requires ValidCap(cap) && SM_ENC_BYTES <= total && ChooseTokens(total, cap) == Some(m)
    ensures m * (total / m) == total
    ensures SM_ENC_BYTES <= total / m <= cap
    ensures SM_ENC_BYTES + (total - SM_ENC_BYTES - (m - 1) * (total / m)) == total / m
  {
    MaxTokensBounds(total, cap);
    MulMonotone(m, MaxTokenCount(total, cap), SM_ENC_BYTES);
    Division(total, m, SM_ENC_BYTES);
  }

  lemma Division(total: nat, m: nat, low: nat)
    requires 0 < m && total % m == 0 && m * low <= total
    ensures m * (total / m) == total && low <= total / m
    ensures (m - 1) * (total / m) == total - total / m
  {
    QuotientTimes(total, m, low);
  }

  /** The sizes every layout satisfies. */
  ghost predicate Partitions(layout: WireLayout, cap: nat) {
    && 1 <= layout.numTokens
    && layout.totalWireBytes == SM_ENC_BYTES + layout.ciphertextLength
    && layout.numTokens * layout.wireBlockSize == layout.totalWireBytes
    && layout.ciphertextLength == (layout.numTokens - 1) * layout.wireBlockSize + layout.lastBlockLength
    && SM_ENC_BYTES + layout.lastBlockLength == layout.wireBlockSize
    && SM_ENC_BYTES <= layout.wireBlockSize <= cap
  }

  /** `total = m * wire`, `373 + last = wire` and `373 <= wire <= cap` in every exact layout. */
  lemma ExactLayoutPartitions(plaintext: nat, code: nat, cap: nat)
    requires IsSupported(code) && ValidCap(cap) && ExactLayout(plaintext, code, cap).Some?
    ensures Partitions(ExactLayout(plaintext, code, cap).value, cap)
  {
    var total := SM_ENC_BYTES + CiphertextLength(plaintext, code);
    ChosenLayout(total, cap, ChooseTokens(total, cap).value);
  }

  method ComputeWireLayoutExact(plaintext: nat, code: nat, cap: nat) returns (r: Option<WireLayout>)
    requires IsSupported(code) && ValidCap(cap)
    ensures r == ExactLayout(plaintext, code, cap)
    ensures r.Some? ==> Partitions(r.value, cap)
  {
    hide LeastFitting;
    hide CeilDiv;
    hide MaxTokenCount;
    var ciphertext := CiphertextLength(plaintext, code);
    var total := SM_ENC_BYTES + ciphertext;
    var chosen := ChooseNumTokens(total, cap);
    if chosen.None? {
      return None;
    }
    var m := chosen.value;
    ChosenLayout(total, cap, m);
    var wire := total / m;
    var last := ciphertext - (m - 1) * wire;
    // The source checks all of these again; none of them can fail.
    var consistent :=
      && total % m == 0
      && wire >= SM_ENC_BYTES
      && wire <= cap
      && wire >= MinWireBlockSize(total, cap)
      && SM_ENC_BYTES + last == wire;
    r := if consistent then Some(WireLayout(m, wire, ciphertext, total, last, 0)) else None;
  }

  // ---------- The padding step ----------

  function StepFrom(total: nat, cap: nat, candidate: nat, maxM: nat): nat
    requires 0 < candidate
    decreases maxM + 1 - candidate
  {
    if maxM < candidate then 1
    else if total % candidate != 0 then candidate - total % candidate
    else if Fits(total, cap, candidate) then 0
    else StepFrom(total, cap, candidate + 1, maxM)
  }

  function NextPadding(total: nat, cap: nat): nat
    requires 0 < cap
  {
    var maxM, minM := MaxTokenCount(total, cap), MinTokenCount(total, cap);
    if maxM < minM then
      if total < minM * cap then minM * cap - total
      else if total % minM == 0 then 1 else minM - total % minM
    else StepFrom(total, cap, minM, maxM)
  }

  method NextLayoutPadding(plaintext: nat, code: nat, cap: nat) returns (step: nat)
    requires IsSupported(code) && ValidCap(cap)
    ensures step == NextPadding(SM_ENC_BYTES + CiphertextLength(plaintext, code), cap)
  {
    var total := SM_ENC_BYTES + CiphertextLength(plaintext, code);
    var maxM := MaxTokenCount(total, cap);
    var minM := MinTokenCount(total, cap);
    if maxM < minM {
      var alignedTotal := minM * cap;
      if total < alignedTotal {
        return alignedTotal - total;
      }
      var remainder := total % minM;
      return if remainder == 0 then 1 else minM - remainder;
    }
    var minBlock := MinWireBlockSize(total, cap);
    var candidate := minM;
    while candidate <= maxM
      invariant minM <= candidate <= maxM + 1
      invariant NextPadding(total, cap) == StepFrom(total, cap, candidate, maxM)
    {
      var remainder := total % candidate;
      if remainder == 0 {
        var blockSize := total / candidate;
        if blockSize >= minBlock && blockSize <= cap {
          return 0;
        }
      }
      if remainder != 0 {
        return candidate - remainder;
      }
      candidate := candidate + 1;
    }
    return 1;
  }

  /**
   Progress: where no token count fits, the step is positive. It aligns the total to the cap
   when the range of counts is empty and to the least count otherwise.
   */
  lemma FailedStep(total: nat, cap: nat)
    requires ValidCap(cap) && SM_ENC_BYTES <= total && ChooseTokens(total, cap).None?
    ensures 1 <= NextPadding(total, cap)
    ensures MaxTokenCount(total, cap) < MinTokenCount(total, cap) ==>
              && MinTokenCount(total, cap) == RelayMin(total, cap)
              && NextPadding(total, cap) == RelayMin(total, cap) * cap - total < cap
    ensures MinTokenCount(total, cap) <= MaxTokenCount(total, cap) ==>
              && total % MinTokenCount(total, cap) != 0
              && NextPadding(total, cap) == MinTokenCount(total, cap) - total % MinTokenCount(total, cap)
  {
    var maxM, minM := MaxTokenCount(total, cap), MinTokenCount(total, cap);
    MaxTokensBounds(total, cap);
    CeilDivBounds(total, cap);
    if minM <= maxM {
      if total % minM == 0 {
        FirstCandidateFits(total, cap);
        assert false;
      }
    }
  }

  lemma FailedLayoutStep(plaintext: nat, code: nat, cap: nat)
    requires IsSupported(code) && ValidCap(cap) && ExactLayout(plaintext, code, cap).None?
    ensures 1 <= NextPadding(SM_ENC_BYTES + CiphertextLength(plaintext, code), cap)
  {
    FailedStep(SM_ENC_BYTES + CiphertextLength(plaintext, code), cap);
  }

  // ---------- The padding search ----------

  function PaddingLimit(cap: nat): nat {
    Max(MAX_PLAINTEXT_PADDING_FOR_WIRE_LAYOUT, cap)
  }

  function Search(plaintext: nat, code: nat, cap: nat, padding: nat): Option<WireLayout>
    requires IsSupported(code) && 0 < cap
    decreases PaddingLimit(cap) + 1 - padding
  {
    if PaddingLimit(cap) < padding then None
    else
      match ExactLayout(plaintext + padding, code, cap)
      case Some(layout) => Some(layout.(plaintextPadding := padding))
      case None =>
        var step := NextPadding(SM_ENC_BYTES + CiphertextLength(plaintext + padding, code), cap);
        if step == 0 then None else Search(plaintext, code, cap, padding + step)
  }

  function WireLayoutFor(plaintext: nat, code: nat, cap: nat): Option<WireLayout> {
    if !IsSupported(code) || !ValidCap(cap) then None else Search(plaintext, code, cap, 0)
  }

  method ComputeWireLayout(plaintext: nat, code: nat, cap: nat) returns (r: Option<WireLayout>)
    ensures r == WireLayoutFor(plaintext, code, cap)
  {
    hide ExactLayout;
    hide NextPadding;
    hide CiphertextLength;
    hide Partitions;
    if !IsSupported(code) || !ValidCap(cap) {
      return None;
    }
    var limit := PaddingLimit(cap);
    var padding := 0;
    while padding <= limit
      invariant WireLayoutFor(plaintext, code, cap) == Search(plaintext, code, cap, padding)
      decreases if padding <= limit then limit + 1 - padding else 0
    {
      var layout := ComputeWireLayoutExact(plaintext + padding, code, cap);
      if layout.Some? {
        return Some(layout.value.(plaintextPadding := padding));
      }
      var step := NextLayoutPadding(plaintext + padding, code, cap);
      FailedLayoutStep(plaintext + padding, code, cap);
      padding := padding + step;
    }
    return None;
  }

  /** Every layout the search returns is the exact layout of the padded length. */
  lemma {:induction false} SearchIsExact(plaintext: nat, code: nat, cap: nat, padding: nat)
    requires IsSupported(code) && ValidCap(cap) && Search(plaintext, code, cap, padding).Some?
    ensures var layout := Search(plaintext, code, cap, padding).value;
            && Partitions(layout, cap)
            && padding <= layout.plaintextPadding <= PaddingLimit(cap)
            && layout.ciphertextLength == CiphertextLength(plaintext + layout.plaintextPadding, code)
            && Some(layout.(plaintextPadding := 0))
               == ExactLayout(plaintext + layout.plaintextPadding, code, cap)
    decreases PaddingLimit(cap) + 1 - padding
  {
    hide NextPadding;
    hide CiphertextLength;
    hide ChooseTokens;
    match ExactLayout(plaintext + padding, code, cap)
    case Some(layout) =>
      ExactLayoutPartitions(plaintext + padding, code, cap);
    case None =>
      var step := NextPadding(SM_ENC_BYTES + CiphertextLength(plaintext + padding, code), cap);
      SearchIsExact(plaintext, code, cap, padding + step);
  }
}
