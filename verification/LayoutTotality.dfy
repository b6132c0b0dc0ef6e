/**
 When the padding search ends in a layout: always for whole files, and for segmented ones under an
 exact condition on how the padding meets segment boundaries.
 */
module LayoutTotality {
  import opened ByteStrings
  import opened Cryptography
  import opened Segment
  import opened WireLayouts

  lemma LargeTotal(total: nat, cap: nat)
    requires ValidCap(cap) && MIN_BLOCK_SIZE_DIVISOR * cap <= total
    ensures MaxTokenCount(total, cap) == total / cap
  {
    QuotientTimes(total, cap, total / cap);
    MulMonotone(SM_ENC_BYTES, cap, total / cap);
    QuotientTimes(total, SM_ENC_BYTES, total / cap);
  }

  lemma SmallTotal(total: nat, cap: nat)
    requires ValidCap(cap) && SM_ENC_BYTES <= total <= MIN_BLOCK_SIZE_DIVISOR * cap
    ensures MaxTokenCount(total, cap) == Min(8, total / SM_ENC_BYTES)
  {
    var minBlock := MinWireBlockSize(total, cap);
    assert minBlock == total / 8;
    DivUnique(total, minBlock, 8);
  }

  lemma Succeeds(total: nat, cap: nat)
    requires ValidCap(cap) && SM_ENC_BYTES <= total
    requires MinTokenCount(total, cap) <= MaxTokenCount(total, cap)
    requires total % MinTokenCount(total, cap) == 0
    ensures ChooseTokens(total, cap).Some?
  {
    FirstCandidateFits(total, cap);
  }

  lemma RelayMinOf(k: nat, cap: nat)
    requires 0 < cap
    ensures RelayMin(k * cap, cap) == k
  {
    CeilDivUnique(k * cap, cap, k);
  }

  lemma AlignedDivides(k: nat, cap: nat)
    requires 0 < k && 0 < cap
    ensures (k * cap) % k == 0 && k * cap / k == cap && k * cap / cap == k
  {
    DivUnique(k * cap, cap, k);
    assert k * cap == cap * k;
    DivUnique(k * cap, k, cap);
    assert k * cap / k * k == k * cap;
  }

  lemma AlignedSucceeds(k: nat, cap: nat)
    requires ValidCap(cap) && MIN_BLOCK_SIZE_DIVISOR <= k
    ensures ChooseTokens(k * cap, cap).Some?
  {
    MulMonotone(8, k, cap);
    LargeTotal(k * cap, cap);
    AlignedDivides(k, cap);
    RelayMinOf(k, cap);
    Succeeds(k * cap, cap);
  }

  lemma EmptyRangeBounds(total: nat, cap: nat)
    requires ValidCap(cap) && SM_ENC_BYTES <= total
    requires MaxTokenCount(total, cap) < MinTokenCount(total, cap)
    ensures var k := RelayMin(total, cap);
            8 <= k || (2 <= k && cap <= 8 * SM_ENC_BYTES)
  {
    hide CeilDiv;
    hide MinWireBlockSize;
    var k := RelayMin(total, cap);
    CeilDivBounds(total, cap);
    assert MaxTokenCount(total, cap) < Max(1, k);
    if k < 8 {
      MulMonotone(k, 7, cap);
      SmallTotal(total, cap);
      BlocksBelow(total, cap, k);
    }
  }

  lemma BlocksBelow(total: nat, cap: nat, k: nat)
    requires SM_ENC_BYTES <= cap && SM_ENC_BYTES <= total
    requires k * cap - cap < total <= k * cap
    requires k < 8 && Min(8, total / SM_ENC_BYTES) < Max(1, k)
    ensures 2 <= k && cap <= 8 * SM_ENC_BYTES
  {
    assert 1 <= total / SM_ENC_BYTES < k;
    MulMonotone(1, k - 1, cap);
    assert (k - 1) * cap == k * cap - cap;
  }

  // An empty range of counts is left behind by one step to the next multiple of the cap.
  lemma EmptyRangeStep(total: nat, cap: nat)
    requires ValidCap(cap) && SM_ENC_BYTES <= total
    requires MaxTokenCount(total, cap) < MinTokenCount(total, cap)
    ensures ChooseTokens(RelayMin(total, cap) * cap, cap).Some?
  {
    hide ChooseTokens;
    EmptyRangeBounds(total, cap);
    var k := RelayMin(total, cap);
    if 8 <= k {
      AlignedSucceeds(k, cap);
    } else {
      AlignedSmallSucceeds(k, cap);
    }
  }

  lemma AlignedSmallSucceeds(k: nat, cap: nat)
    requires ValidCap(cap) && 2 <= k <= 8 && cap <= 8 * SM_ENC_BYTES
    ensures ChooseTokens(k * cap, cap).Some?
  {
    MulMonotone(k, 8, cap);
    MulMonotone(SM_ENC_BYTES, cap, k);
    QuotientTimes(k * cap, SM_ENC_BYTES, k);
    SmallTotal(k * cap, cap);
    RelayMinOf(k, cap);
    CeilDivMonotone(k * cap - SM_ENC_BYTES, WIRE_BLOCK_REF, WIRE_BLOCK_REF);
    AlignedDivides(k, cap);
    Succeeds(k * cap, cap);
  }

  lemma RoundUp(total: nat, m: nat, cap: nat)
    requires 0 < m && total % m != 0 && total <= m * cap
    ensures var next := total + m - total % m;
            next % m == 0 && total < next <= m * cap && next < total + m
  {
    RoundUpTo(total / m, m, total % m, cap);
  }

  lemma RoundUpTo(q: nat, m: nat, r: nat, cap: nat)
    requires 0 < r < m && q * m + r <= m * cap
    ensures (q * m + m) % m == 0 && q * m + m <= m * cap
  {
    if cap <= q {
      MulMonotone(cap, q, m);
    } else {
      MulMonotone(q + 1, cap, m);
    }
    MultipleOf(q + 1, m);
  }

  lemma MultipleOf(k: nat, m: nat)
    requires 0 < m
    ensures k * m % m == 0
  {
    DivUnique(k * m, m, k);
  }

  lemma LargeRange(total: nat, cap: nat)
    requires ValidCap(cap) && 8 * cap <= total
    requires MinTokenCount(total, cap) <= MaxTokenCount(total, cap)
    ensures total % MinTokenCount(total, cap) == 0
  {
    hide CeilDiv;
    hide MaxTokenCount;
    LargeTotal(total, cap);
    CeilDivBounds(total, cap);
    var k, q := RelayMin(total, cap), total / cap;
    assert k == MinTokenCount(total, cap) == q by {
      QuotientTimes(total, cap, k);
      DivBounds(total, cap);
      if k < q {
        MulMonotone(k + 1, q, cap);
      }
    }
    QuotientTimes(total, cap, k);
    AlignedDivides(k, cap);
  }

  // Where the first candidate does not divide, there are at most eight tokens.
  lemma IndivisibleIsSmall(total: nat, cap: nat)
    requires ValidCap(cap) && SM_ENC_BYTES <= total
    requires MinTokenCount(total, cap) <= MaxTokenCount(total, cap)
    requires total % MinTokenCount(total, cap) != 0
    ensures total < 8 * cap && MinTokenCount(total, cap) <= 8
  {
    if 8 * cap <= total {
      LargeRange(total, cap);
      assert false;
    }
    SmallTotal(total, cap);
  }

  // While the reference count stays, the least count stays with it.
  lemma LeastCountStays(t0: nat, t1: nat, cap: nat)
    requires ValidCap(cap) && SM_ENC_BYTES <= t0 <= t1 <= 8 * cap
    requires t1 <= MinTokenCount(t0, cap) * cap
    requires MinTokenCount(t0, cap) <= MaxTokenCount(t0, cap)
    requires RefMin(t0) == RefMin(t1)
    ensures MinTokenCount(t1, cap) == MinTokenCount(t0, cap) <= MaxTokenCount(t1, cap)
  {
    SmallTotal(t0, cap);
    SmallTotal(t1, cap);
    CeilDivMonotone(t0, t1, cap);
    CeilDivMonotone(t1, MinTokenCount(t0, cap) * cap, cap);
    RelayMinOf(MinTokenCount(t0, cap), cap);
    if MaxTokenCount(t0, cap) < RefMin(t0) {
      assert 2 <= RefMin(t0);
      CeilDivBounds(t0 - SM_ENC_BYTES, WIRE_BLOCK_REF);
      assert MaxTokenCount(t0, cap) == 8;
    }
  }

  lemma RefMovesOnce(t0: nat, t1: nat, t2: nat)
    requires SM_ENC_BYTES <= t0 <= t1 <= t2 && t1 <= t0 + 8 && t2 <= t1 + 8
    requires RefMin(t0) != RefMin(t1)
    ensures RefMin(t1) == RefMin(t2)
  {
    CeilDivBounds(t0 - SM_ENC_BYTES, WIRE_BLOCK_REF);
    CeilDivBounds(t1 - SM_ENC_BYTES, WIRE_BLOCK_REF);
    CeilDivMonotone(t0 - SM_ENC_BYTES, t1 - SM_ENC_BYTES, WIRE_BLOCK_REF);
    CeilDivUnique(t2 - SM_ENC_BYTES, WIRE_BLOCK_REF, RefMin(t1));
  }

  // Where the first candidate does not divide, the step leads to its next multiple.
  lemma AlignStep(total: nat, cap: nat)
    requires ValidCap(cap) && SM_ENC_BYTES <= total && ChooseTokens(total, cap).None?
    requires MinTokenCount(total, cap) <= MaxTokenCount(total, cap)
    ensures var m, next := MinTokenCount(total, cap), total + NextPadding(total, cap);
            m <= 8 && next % m == 0 && total < next < total + 8 && next <= m * cap <= 8 * cap
  {
    hide ChooseTokens;
    hide NextPadding;
    hide MinTokenCount;
    hide MaxTokenCount;
    var m := MinTokenCount(total, cap);
    FailedStep(total, cap);
    IndivisibleIsSmall(total, cap);
    MinTokensBounds(total, cap);
    RoundUp(total, m, cap);
    MulMonotone(m, 8, cap);
  }

  // The range of counts stays non-empty while the total grows towards that multiple.
  lemma RangeStays(t0: nat, t1: nat, cap: nat)
    requires ValidCap(cap) && SM_ENC_BYTES <= t0 <= t1 <= MinTokenCount(t0, cap) * cap <= 8 * cap
    requires MinTokenCount(t0, cap) <= MaxTokenCount(t0, cap)
    ensures MinTokenCount(t1, cap) <= MaxTokenCount(t1, cap)
  {
    hide CeilDiv;
    hide MinWireBlockSize;
    SmallTotal(t0, cap);
    SmallTotal(t1, cap);
    CeilDivMonotone(t1, MinTokenCount(t0, cap) * cap, cap);
    RelayMinOf(MinTokenCount(t0, cap), cap);
  }

  // Two steps to a multiple of the least count are always enough.
  lemma IndivisibleStep(total: nat, cap: nat)
    requires ValidCap(cap) && SM_ENC_BYTES <= total && ChooseTokens(total, cap).None?
    requires MinTokenCount(total, cap) <= MaxTokenCount(total, cap)
    ensures var t1 := total + NextPadding(total, cap);
            && t1 < total + 8
            && (ChooseTokens(t1, cap).None? ==>
                  var t2 := t1 + NextPadding(t1, cap);
                  t2 < t1 + 8 && ChooseTokens(t2, cap).Some?)
  {
    hide ChooseTokens;
    hide NextPadding;
    hide MinTokenCount;
    hide MaxTokenCount;
    hide RefMin;
    AlignStep(total, cap);
    var t1 := total + NextPadding(total, cap);
    if RefMin(total) == RefMin(t1) {
      LeastCountStays(total, t1, cap);
      Succeeds(t1, cap);
    } else if ChooseTokens(t1, cap).None? {
      RangeStays(total, t1, cap);
      AlignStep(t1, cap);
      var t2 := t1 + NextPadding(t1, cap);
      RefMovesOnce(total, t1, t2);
      LeastCountStays(t1, t2, cap);
      Succeeds(t2, cap);
    }
  }

  // ---------- The search ----------

  lemma SearchHits(plaintext: nat, code: nat, cap: nat, padding: nat)
    requires IsSupported(code) && ValidCap(cap) && padding <= PaddingLimit(cap)
    requires ChooseTokens(SM_ENC_BYTES + CiphertextLength(plaintext + padding, code), cap).Some?
    ensures Search(plaintext, code, cap, padding).Some?
    ensures Search(plaintext, code, cap, padding).value.plaintextPadding == padding
  {
  }

  lemma SearchMoves(plaintext: nat, code: nat, cap: nat, padding: nat)
    requires IsSupported(code) && ValidCap(cap) && padding <= PaddingLimit(cap)
    requires ChooseTokens(SM_ENC_BYTES + CiphertextLength(plaintext + padding, code), cap).None?
    ensures var step := NextPadding(SM_ENC_BYTES + CiphertextLength(plaintext + padding, code), cap);
            && 1 <= step
            && Search(plaintext, code, cap, padding) == Search(plaintext, code, cap, padding + step)
  {
    hide ChooseTokens;
    hide NextPadding;
    hide MinTokenCount;
    hide MaxTokenCount;
    hide RelayMin;
    hide CiphertextLength;
    FailedStep(SM_ENC_BYTES + CiphertextLength(plaintext + padding, code), cap);
  }

  // Padding below one block leaves the number of GCM records alone.
  ghost predicate PaddingKeepsSegments(plaintext: nat, code: nat, cap: nat)
    requires IsSupported(code) && 0 < cap
  {
    IsSegmented(code) ==>
      var size := SegmentPlaintextBytes(code);
      CeilDiv(plaintext + cap - 1, size) == CeilDiv(plaintext, size)
  }

  lemma TotalGrowsWithPadding(plaintext: nat, code: nat, cap: nat, padding: nat)
    requires IsSupported(code) && 0 < cap && PaddingKeepsSegments(plaintext, code, cap)
    requires padding < cap
    ensures CiphertextLength(plaintext + padding, code) == CiphertextLength(plaintext, code) + padding
  {
    if IsSegmented(code) {
      var size := SegmentPlaintextBytes(code);
      CeilDivMonotone(plaintext, plaintext + padding, size);
      CeilDivMonotone(plaintext + padding, plaintext + cap - 1, size);
    }
  }

  /**
   The layout search is total: always in whole-file mode, and in segmented mode whenever
   padding below one block does not start another segment. The padding stays below one block, and
   up to seven blocks (of more than 8 * 373 bytes) it is at most 16 bytes.
   */
  lemma LayoutExists(plaintext: nat, code: nat, cap: nat)
    requires IsSupported(code) && ValidCap(cap) && PaddingKeepsSegments(plaintext, code, cap)
    ensures WireLayoutFor(plaintext, code, cap).Some?
    ensures WireLayoutFor(plaintext, code, cap).value.plaintextPadding < cap
    ensures 8 * SM_ENC_BYTES < cap && SM_ENC_BYTES + CiphertextLength(plaintext, code) <= 7 * cap ==>
              WireLayoutFor(plaintext, code, cap).value.plaintextPadding <= 16
  {
    hide ChooseTokens;
    hide NextPadding;
    hide Search;
    hide CiphertextLength;
    hide PaddingKeepsSegments;
    hide MinTokenCount;
    hide MaxTokenCount;
    hide RelayMin;
    var total := SM_ENC_BYTES + CiphertextLength(plaintext, code);
    TotalGrowsWithPadding(plaintext, code, cap, 0);
    if ChooseTokens(total, cap).Some? {
      SearchHits(plaintext, code, cap, 0);
    } else {
      SearchMoves(plaintext, code, cap, 0);
      var d1 := NextPadding(total, cap);
      FailedStep(total, cap);
      if MaxTokenCount(total, cap) < MinTokenCount(total, cap) {
        EmptyRangeStep(total, cap);
        if 8 * SM_ENC_BYTES < cap && total <= 8 * cap {
          SomeCountInRange(total, cap);
        }
        TotalGrowsWithPadding(plaintext, code, cap, d1);
        SearchHits(plaintext, code, cap, d1);
      } else {
        IndivisibleStep(total, cap);
        TotalGrowsWithPadding(plaintext, code, cap, d1);
        if ChooseTokens(total + d1, cap).Some? {
          SearchHits(plaintext, code, cap, d1);
        } else {
          SearchMoves(plaintext, code, cap, d1);
          var d2 := d1 + NextPadding(total + d1, cap);
          TotalGrowsWithPadding(plaintext, code, cap, d2);
          SearchHits(plaintext, code, cap, d2);
        }
      }
    }
  }

  // ---------- Segmented mode near a segment boundary ----------

  lemma LargeUnaligned(total: nat, cap: nat)
    requires ValidCap(cap) && 8 * cap <= total && total % cap != 0
    ensures ChooseTokens(total, cap).None?
    ensures NextPadding(total, cap) == cap - total % cap
  {
    hide MaxTokenCount;
    hide CeilDiv;
    var q := total / cap;
    LargeTotal(total, cap);
    assert total == q * cap + total % cap;
    assert (q + 1) * cap == q * cap + cap;
    CeilDivUnique(total, cap, q + 1);
    assert MinTokenCount(total, cap) == q + 1;
  }

  // From eight blocks on, only multiples of the cap have a layout.
  lemma LargeChoice(total: nat, cap: nat)
    requires ValidCap(cap) && 8 * cap <= total
    ensures ChooseTokens(total, cap).Some? <==> total % cap == 0
    ensures total % cap != 0 ==> NextPadding(total, cap) == cap - total % cap
  {
    hide ChooseTokens;
    hide NextPadding;
    if total % cap == 0 {
      QuotientTimes(total, cap, 8);
      AlignedSucceeds(total / cap, cap);
    } else {
      LargeUnaligned(total, cap);
    }
  }

  lemma AlignedRemainder(total: nat, cap: nat, offset: nat)
    requires 0 < cap && offset < cap && total >= offset && (total - offset) % cap == 0
    ensures total % cap == offset
  {
    DivUnique(total, cap, (total - offset) / cap);
  }

  function SegmentsCrossed(from: nat, to: nat, size: nat): int
    requires 0 < size
  {
    CeilDiv(to, size) - CeilDiv(from, size)
  }

  lemma FewSegmentsCrossed(from: nat, to: nat, size: nat)
    requires 0 < size && from <= to <= from + 2 * size
    ensures 0 <= SegmentsCrossed(from, to, size) <= 2
    ensures to <= from + size ==> SegmentsCrossed(from, to, size) <= 1
  {
    CeilDivMonotone(from, to, size);
    CeilDivMonotone(to, from + 2 * size, size);
    if to <= from + size {
      CeilDivMonotone(to, from + size, size);
    }
    if 0 < from {
      CeilDivStep(from + size, size);
      CeilDivStep(from + 2 * size, size);
    } else {
      CeilDivUnique(0, size, 0);
      CeilDivUnique(size, size, 1);
      CeilDivUnique(2 * size, size, 2);
    }
  }

  // After one boundary, the next one is a whole segment further on.
  lemma NoSecondCrossing(from: nat, mid: nat, to: nat, size: nat)
    requires 0 < size && from <= mid <= to <= from + size && SegmentsCrossed(from, mid, size) >= 1
    ensures SegmentsCrossed(mid, to, size) == 0
  {
    hide CeilDiv;
    FewSegmentsCrossed(from, to, size);
    FewSegmentsCrossed(mid, to, size);
  }

  function WireTotal(plaintext: nat, code: nat): nat
    requires IsSupported(code)
  {
    SM_ENC_BYTES + CiphertextLength(plaintext, code)
  }

  // Padding adds itself, and one GCM envelope for every segment it starts.
  lemma TotalWithPadding(plaintext: nat, code: nat, padding: nat)
    requires IsSegmented(code)
    ensures var crossed := SegmentsCrossed(plaintext, plaintext + padding, SegmentPlaintextBytes(code));
            WireTotal(plaintext + padding, code) == WireTotal(plaintext, code) + padding + crossed * GCM_ENVELOPE_BYTES
  {
  }

  /** Zero bytes up to the next multiple of the cap, or of eight tokens below eight full blocks. */
  function AlignmentPadding(plaintext: nat, code: nat, cap: nat): nat
    requires IsSegmented(code) && 0 < cap
  {
    var total := WireTotal(plaintext, code);
    var unit := if total < 8 * cap then 8 else cap;
    if total % unit == 0 then 0 else unit - total % unit
  }

  /**
   What a caller can check beforehand, by arithmetic on the file length: the upload has at most
   seven blocks, or the alignment padding starts no segment, or what it adds stays within eight
   blocks, or the padding up to the next multiple of the cap is within the limit of the search and
   starts no further segment.
   */
  predicate AlignmentSurvives(plaintext: nat, code: nat, cap: nat)
    requires IsSegmented(code) && 0 < cap
  {
    var size := SegmentPlaintextBytes(code);
    var total := WireTotal(plaintext, code);
    var d1 := AlignmentPadding(plaintext, code, cap);
    var k1 := SegmentsCrossed(plaintext, plaintext + d1, size);
    var t1 := total + d1 + k1 * 28;
    || total <= 7 * cap
    || k1 == 0
    || t1 <= 8 * cap
    || SecondSurvives(plaintext, d1, cap, t1, size)
  }

  predicate SecondSurvives(plaintext: nat, d1: nat, cap: nat, t1: int, size: nat)
    requires 0 < cap && 0 < size
  {
    var d2 := d1 + cap - t1 % cap;
    d2 <= Max(0x100_0000, cap) && SegmentsCrossed(plaintext + d1, plaintext + d2, size) == 0
  }

  /** In segmented mode the layout search succeeds if and only if the alignment padding survives. */
  lemma SegmentedLayoutExact(plaintext: nat, code: nat, cap: nat)
    requires IsSegmented(code) && ValidCap(cap)
    ensures WireLayoutFor(plaintext, code, cap).Some? <==> AlignmentSurvives(plaintext, code, cap)
  {
    hide Search;
    hide SecondSurvives;
    hide CeilDiv;
    hide CiphertextLength;
    var total := WireTotal(plaintext, code);
    if 8 * cap <= total {
      LargeExact(plaintext, code, cap);
    } else if cap <= 8 * SM_ENC_BYTES {
      TinyFile(plaintext, code, cap);
    } else if total <= 7 * cap {
      SmallFits(plaintext, code, cap);
    } else {
      EightTokensExact(plaintext, code, cap);
    }
  }

  /** Which uploads have a layout: every whole file, and the segmented ones whose padding survives. */
  lemma LayoutExact(plaintext: nat, code: nat, cap: nat)
    ensures WireLayoutFor(plaintext, code, cap).Some? <==>
              code <= 5 && 373 <= cap <= 0x200_0000 && (1 <= code ==> AlignmentSurvives(plaintext, code, cap))
  {
    hide Search;
    hide AlignmentSurvives;
    if IsSegmented(code) && ValidCap(cap) {
      SegmentedLayoutExact(plaintext, code, cap);
    } else if IsSupported(code) && ValidCap(cap) {
      LayoutExists(plaintext, code, cap);
    }
  }

  /** Caps up to 8 MiB have a layout for every length. */
  lemma SmallCapsAlwaysFit(plaintext: nat, code: nat, cap: nat)
    requires IsSegmented(code) && ValidCap(cap) && cap <= 0x80_0000
    ensures WireLayoutFor(plaintext, code, cap).Some?
  {
    hide Search;
    hide CeilDiv;
    hide CiphertextLength;
    SegmentedLayoutExact(plaintext, code, cap);
    var size := SegmentPlaintextBytes(code);
    var d1 := AlignmentPadding(plaintext, code, cap);
    var t1 := WireTotal(plaintext, code) + d1
              + SegmentsCrossed(plaintext, plaintext + d1, size) * GCM_ENVELOPE_BYTES;
    var d2 := d1 + cap - t1 % cap;
    FewSegmentsCrossed(plaintext, plaintext + d1, size);
    if SegmentsCrossed(plaintext, plaintext + d1, size) >= 1 && d2 <= PaddingLimit(cap) {
      NoSecondCrossing(plaintext, plaintext + d1, plaintext + d2, size);
    }
  }

  /** So do all uploads that stay 64 bytes below eight blocks. */
  lemma BelowEightBlocksAlwaysFits(plaintext: nat, code: nat, cap: nat)
    requires IsSegmented(code) && ValidCap(cap)
    requires WireTotal(plaintext, code) + 64 <= 8 * cap
    ensures WireLayoutFor(plaintext, code, cap).Some?
  {
    hide Search;
    hide CeilDiv;
    hide CiphertextLength;
    var d1 := AlignmentPadding(plaintext, code, cap);
    FewSegmentsCrossed(plaintext, plaintext + d1, SegmentPlaintextBytes(code));
    SegmentedLayoutExact(plaintext, code, cap);
  }

  // ---------- From eight blocks on ----------

  lemma LargeExact(plaintext: nat, code: nat, cap: nat)
    requires IsSegmented(code) && ValidCap(cap) && 8 * cap <= WireTotal(plaintext, code)
    ensures Search(plaintext, code, cap, 0).Some? <==> AlignmentSurvives(plaintext, code, cap)
  {
    hide ChooseTokens;
    hide NextPadding;
    hide CeilDiv;
    hide Search;
    hide CiphertextLength;
    hide SecondSurvives;
    var total := WireTotal(plaintext, code);
    LargeChoice(total, cap);
    if total % cap == 0 {
      SearchHits(plaintext, code, cap, 0);
    } else {
      SearchMoves(plaintext, code, cap, 0);
      FirstAlignment(plaintext, code, cap, cap - total % cap);
    }
  }

  lemma FirstAlignment(plaintext: nat, code: nat, cap: nat, d1: nat)
    requires IsSegmented(code) && ValidCap(cap) && 8 * cap <= WireTotal(plaintext, code)
    requires d1 == AlignmentPadding(plaintext, code, cap) > 0
    ensures Search(plaintext, code, cap, d1).Some? <==> AlignmentSurvives(plaintext, code, cap)
  {
    hide ChooseTokens;
    hide NextPadding;
    hide CeilDiv;
    hide Search;
    hide CiphertextLength;
    hide SecondSurvives;
    var size := SegmentPlaintextBytes(code);
    FewSegmentsCrossed(plaintext, plaintext + d1, size);
    var k1 := SegmentsCrossed(plaintext, plaintext + d1, size);
    var total, t1 := WireTotal(plaintext, code), WireTotal(plaintext + d1, code);
    TotalWithPadding(plaintext, code, d1);
    NextMultiple(total, cap);
    AlignedRemainder(t1, cap, k1 * GCM_ENVELOPE_BYTES);
    LargeChoice(t1, cap);
    if k1 == 0 {
      SearchHits(plaintext, code, cap, d1);
    } else {
      SecondAlignment(plaintext, code, cap, d1);
    }
  }

  lemma NextMultiple(total: nat, cap: nat)
    requires 0 < cap
    ensures (total + (cap - total % cap)) % cap == 0
  {
    MultipleOf(total / cap + 1, cap);
    assert (total / cap + 1) * cap == total + (cap - total % cap);
  }

  // Past a boundary and off the next multiple of the cap by the envelopes that were added.
  lemma SecondAlignment(plaintext: nat, code: nat, cap: nat, d1: nat)
    requires IsSegmented(code) && ValidCap(cap) && d1 < cap
    requires SegmentsCrossed(plaintext, plaintext + d1, SegmentPlaintextBytes(code)) >= 1
    requires WireTotal(plaintext + d1, code) >= 8 * cap
    requires 1 <= WireTotal(plaintext + d1, code) % cap <= 2 * GCM_ENVELOPE_BYTES
    ensures Search(plaintext, code, cap, d1).Some? <==>
              SecondSurvives(plaintext, d1, cap, WireTotal(plaintext + d1, code), SegmentPlaintextBytes(code))
  {
    hide ChooseTokens;
    hide NextPadding;
    hide CeilDiv;
    hide CiphertextLength;
    var size, t1 := SegmentPlaintextBytes(code), WireTotal(plaintext + d1, code);
    var d2 := d1 + cap - t1 % cap;
    LargeChoice(t1, cap);
    SearchMoves(plaintext, code, cap, d1);
    NextMultiple(t1, cap);
    if d2 <= PaddingLimit(cap) {
      SecondStep(plaintext, code, cap, d1, d2);
    }
  }

  lemma BeyondLimit(plaintext: nat, code: nat, cap: nat, padding: nat)
    requires IsSupported(code) && 0 < cap && PaddingLimit(cap) < padding
    ensures Search(plaintext, code, cap, padding).None?
  {
  }

  lemma SegmentsAreLarge(code: nat)
    requires IsSegmented(code)
    ensures MAX_PLAINTEXT_PADDING_FOR_WIRE_LAYOUT <= SegmentPlaintextBytes(code)
  {
  }

  lemma SecondStep(plaintext: nat, code: nat, cap: nat, d1: nat, d2: nat)
    requires IsSegmented(code) && ValidCap(cap) && d1 < cap
    requires SegmentsCrossed(plaintext, plaintext + d1, SegmentPlaintextBytes(code)) >= 1
    requires WireTotal(plaintext + d1, code) >= 8 * cap
    requires d1 + cap - 2 * GCM_ENVELOPE_BYTES <= d2 < d1 + cap && d2 <= PaddingLimit(cap)
    requires (WireTotal(plaintext + d1, code) + d2 - d1) % cap == 0
    ensures Search(plaintext, code, cap, d2).Some? <==>
              SegmentsCrossed(plaintext + d1, plaintext + d2, SegmentPlaintextBytes(code)) == 0
  {
    hide ChooseTokens;
    hide NextPadding;
    hide CeilDiv;
    hide CiphertextLength;
    hide Search;
    hide SegmentPlaintextBytes;
    hide WireTotal;
    var size := SegmentPlaintextBytes(code);
    WireTotalIs(plaintext + d2, code);
    SegmentsAreLarge(code);
    FewSegmentsCrossed(plaintext + d1, plaintext + d2, size);
    var k2 := SegmentsCrossed(plaintext + d1, plaintext + d2, size);
    var t2 := WireTotal(plaintext + d2, code);
    TotalWithPadding(plaintext + d1, code, d2 - d1);
    AlignedRemainder(t2, cap, k2 * GCM_ENVELOPE_BYTES);
    LargeChoice(t2, cap);
    if k2 == 0 {
      SearchHits(plaintext, code, cap, d2);
    } else {
      if d2 <= size {
        NoSecondCrossing(plaintext, plaintext + d1, plaintext + d2, size);
      }
      SearchMoves(plaintext, code, cap, d2);
      BeyondLimit(plaintext, code, cap, d2 + cap - k2 * GCM_ENVELOPE_BYTES);
    }
  }

  lemma WireTotalIs(plaintext: nat, code: nat)
    requires IsSupported(code)
    ensures WireTotal(plaintext, code) == SM_ENC_BYTES + CiphertextLength(plaintext, code)
  {
  }

  // ---------- Below eight blocks ----------

  // With caps up to 8 * 373 such a file is far from the end of its only segment.
  lemma TinyFile(plaintext: nat, code: nat, cap: nat)
    requires IsSegmented(code) && ValidCap(cap) && cap <= 8 * SM_ENC_BYTES
    requires WireTotal(plaintext, code) < 8 * cap
    ensures WireLayoutFor(plaintext, code, cap).Some? && AlignmentSurvives(plaintext, code, cap)
  {
    hide Search;
    var size := SegmentPlaintextBytes(code);
    if plaintext == 0 {
      CeilDivUnique(0, size, 0);
      OneToken(cap);
      SearchHits(0, code, cap, 0);
    } else {
      CeilDivUnique(plaintext, size, 1);
      CeilDivUnique(plaintext + cap - 1, size, 1);
      CeilDivUnique(plaintext + AlignmentPadding(plaintext, code, cap), size, 1);
      LayoutExists(plaintext, code, cap);
    }
  }

  lemma OneToken(cap: nat)
    requires ValidCap(cap)
    ensures ChooseTokens(SM_ENC_BYTES, cap).Some?
  {
    CeilDivUnique(SM_ENC_BYTES, cap, 1);
    CeilDivUnique(0, WIRE_BLOCK_REF, 0);
    Succeeds(SM_ENC_BYTES, cap);
  }

  lemma SomeCountInRange(total: nat, cap: nat)
    requires ValidCap(cap) && 8 * SM_ENC_BYTES < cap && SM_ENC_BYTES <= total <= 8 * cap
    ensures MinTokenCount(total, cap) <= MaxTokenCount(total, cap)
  {
    hide MaxTokenCount;
    if MaxTokenCount(total, cap) < MinTokenCount(total, cap) {
      EmptyRangeBounds(total, cap);
      CeilDivBounds(total, cap);
      CeilDivMonotone(total, 8 * cap, cap);
      RelayMinOf(8, cap);
      SmallTotal(total, cap);
    }
  }

  // Where no segment begins within the next 16 bytes, two steps are enough.
  lemma FitsWithoutCrossing(plaintext: nat, code: nat, cap: nat, padding: nat)
    requires IsSegmented(code) && ValidCap(cap) && 8 * SM_ENC_BYTES < cap
    requires padding <= 16 && WireTotal(plaintext + padding, code) <= 8 * cap
    requires SegmentsCrossed(plaintext + padding, plaintext + padding + 16, SegmentPlaintextBytes(code)) == 0
    ensures Search(plaintext, code, cap, padding).Some?
  {
    hide ChooseTokens;
    hide NextPadding;
    hide Search;
    hide CiphertextLength;
    hide MinTokenCount;
    hide MaxTokenCount;
    hide CeilDiv;
    var total := WireTotal(plaintext + padding, code);
    SomeCountInRange(total, cap);
    if ChooseTokens(total, cap).Some? {
      SearchHits(plaintext, code, cap, padding);
    } else {
      IndivisibleStep(total, cap);
      SearchMoves(plaintext, code, cap, padding);
      var d1 := NextPadding(total, cap);
      NothingCrossed(plaintext + padding, code, d1);
      if ChooseTokens(total + d1, cap).Some? {
        SearchHits(plaintext, code, cap, padding + d1);
      } else {
        SearchMoves(plaintext, code, cap, padding + d1);
        var d2 := d1 + NextPadding(total + d1, cap);
        NothingCrossed(plaintext + padding, code, d2);
        SearchHits(plaintext, code, cap, padding + d2);
      }
    }
  }

  lemma NothingCrossed(plaintext: nat, code: nat, padding: nat)
    requires IsSegmented(code) && padding <= 16
    requires SegmentsCrossed(plaintext, plaintext + 16, SegmentPlaintextBytes(code)) == 0
    ensures WireTotal(plaintext + padding, code) == WireTotal(plaintext, code) + padding
  {
    var size := SegmentPlaintextBytes(code);
    CeilDivMonotone(plaintext, plaintext + padding, size);
    CeilDivMonotone(plaintext + padding, plaintext + 16, size);
    TotalWithPadding(plaintext, code, padding);
  }

  // A step of the search that starts a segment is followed by steps that do not.
  lemma FitsAfterCrossing(plaintext: nat, code: nat, cap: nat, padding: nat)
    requires IsSegmented(code) && ValidCap(cap) && 8 * SM_ENC_BYTES < cap && padding <= 16
    requires WireTotal(plaintext, code) + 64 <= 8 * cap
    requires SegmentsCrossed(plaintext, plaintext + padding, SegmentPlaintextBytes(code)) >= 1
    ensures Search(plaintext, code, cap, padding).Some?
  {
    hide Search;
    hide CeilDiv;
    hide CiphertextLength;
    var size := SegmentPlaintextBytes(code);
    FewSegmentsCrossed(plaintext, plaintext + padding, size);
    NoSecondCrossing(plaintext, plaintext + padding, plaintext + padding + 16, size);
    TotalWithPadding(plaintext, code, padding);
    FitsWithoutCrossing(plaintext, code, cap, padding);
  }

  lemma SmallFits(plaintext: nat, code: nat, cap: nat)
    requires IsSegmented(code) && ValidCap(cap) && 8 * SM_ENC_BYTES < cap
    requires WireTotal(plaintext, code) <= 7 * cap
    ensures Search(plaintext, code, cap, 0).Some?
  {
    hide ChooseTokens;
    hide NextPadding;
    hide Search;
    hide CiphertextLength;
    hide MinTokenCount;
    hide MaxTokenCount;
    hide CeilDiv;
    var size, total := SegmentPlaintextBytes(code), WireTotal(plaintext, code);
    SomeCountInRange(total, cap);
    if ChooseTokens(total, cap).Some? {
      SearchHits(plaintext, code, cap, 0);
    } else {
      IndivisibleStep(total, cap);
      SearchMoves(plaintext, code, cap, 0);
      var d1 := NextPadding(total, cap);
      FewSegmentsCrossed(plaintext, plaintext + d1, size);
      TotalWithPadding(plaintext, code, d1);
      if SegmentsCrossed(plaintext, plaintext + d1, size) >= 1 {
        FitsAfterCrossing(plaintext, code, cap, d1);
      } else if ChooseTokens(total + d1, cap).Some? {
        SearchHits(plaintext, code, cap, d1);
      } else {
        SearchMoves(plaintext, code, cap, d1);
        var d2 := d1 + NextPadding(total + d1, cap);
        FewSegmentsCrossed(plaintext, plaintext + d2, size);
        TotalWithPadding(plaintext, code, d2);
        if SegmentsCrossed(plaintext, plaintext + d2, size) >= 1 {
          FitsAfterCrossing(plaintext, code, cap, d2);
        } else {
          SearchHits(plaintext, code, cap, d2);
        }
      }
    }
  }

  // In the eighth block only totals divisible by eight have a layout.
  lemma EightTokens(total: nat, cap: nat)
    requires ValidCap(cap) && 8 * SM_ENC_BYTES < cap && 7 * cap < total <= 8 * cap
    ensures ChooseTokens(total, cap).Some? <==> total % 8 == 0
    ensures total % 8 != 0 ==> NextPadding(total, cap) == 8 - total % 8
  {
    hide NextPadding;
    hide MinWireBlockSize;
    SmallTotal(total, cap);
    CeilDivUnique(total, cap, 8);
    assert MinTokenCount(total, cap) == 8 == MaxTokenCount(total, cap);
    if total % 8 == 0 {
      Succeeds(total, cap);
    } else {
      FailedStep(total, cap);
    }
  }

  lemma EightTokensExact(plaintext: nat, code: nat, cap: nat)
    requires IsSegmented(code) && ValidCap(cap) && 8 * SM_ENC_BYTES < cap
    requires 7 * cap < WireTotal(plaintext, code) < 8 * cap
    ensures Search(plaintext, code, cap, 0).Some? <==> AlignmentSurvives(plaintext, code, cap)
  {
    hide ChooseTokens;
    hide NextPadding;
    hide Search;
    hide CiphertextLength;
    hide CeilDiv;
    hide SecondSurvives;
    var size, total := SegmentPlaintextBytes(code), WireTotal(plaintext, code);
    EightTokens(total, cap);
    if total % 8 == 0 {
      SearchHits(plaintext, code, cap, 0);
    } else {
      SearchMoves(plaintext, code, cap, 0);
      var d1 := 8 - total % 8;
      var t1 := WireTotal(plaintext + d1, code);
      FewSegmentsCrossed(plaintext, plaintext + d1, size);
      TotalWithPadding(plaintext, code, d1);
      NextMultiple(total, 8);
      if t1 <= 8 * cap {
        EighthBlockFits(plaintext, code, cap, d1);
      } else {
        DivUnique(t1, cap, 8);
        SecondAlignment(plaintext, code, cap, d1);
      }
    }
  }

  lemma Eighths(aligned: nat, cap: nat)
    requires aligned % 8 == 0 && aligned + GCM_ENVELOPE_BYTES <= 8 * cap
    ensures (aligned + GCM_ENVELOPE_BYTES) % 8 == 4 && (aligned + GCM_ENVELOPE_BYTES + 4) % 8 == 0
    ensures aligned + GCM_ENVELOPE_BYTES + 4 <= 8 * cap
  {
  }

  lemma EighthBlockFits(plaintext: nat, code: nat, cap: nat, d1: nat)
    requires IsSegmented(code) && ValidCap(cap) && 8 * SM_ENC_BYTES < cap
    requires 7 * cap < WireTotal(plaintext, code) && 1 <= d1 < 8 && (WireTotal(plaintext, code) + d1) % 8 == 0
    requires WireTotal(plaintext + d1, code) <= 8 * cap
    ensures Search(plaintext, code, cap, d1).Some?
  {
    hide ChooseTokens;
    hide NextPadding;
    hide Search;
    hide WireTotal;
    hide CeilDiv;
    WireTotalIs(plaintext + d1, code);
    WireTotalIs(plaintext + d1 + 4, code);
    var size, t1 := SegmentPlaintextBytes(code), WireTotal(plaintext + d1, code);
    FewSegmentsCrossed(plaintext, plaintext + d1, size);
    TotalWithPadding(plaintext, code, d1);
    EightTokens(t1, cap);
    if SegmentsCrossed(plaintext, plaintext + d1, size) == 0 {
      SearchHits(plaintext, code, cap, d1);
    } else {
      Eighths(WireTotal(plaintext, code) + d1, cap);
      SearchMoves(plaintext, code, cap, d1);
      NoSecondCrossing(plaintext, plaintext + d1, plaintext + d1 + 4, size);
      TotalWithPadding(plaintext + d1, code, 4);
      EightTokens(t1 + 4, cap);
      SearchHits(plaintext, code, cap, d1 + 4);
    }
  }

  /** A file of 268,434,636 bytes in 16 MiB segments has no layout with 32 MiB blocks. */
  lemma LayoutCanFail()
    ensures WireLayoutFor(268_434_636, 1, RELAY_MAX_BODY_BYTES_CAP).None?
  {
    hide Search;
    hide CeilDiv;
    var p, cap, size := 268_434_636, RELAY_MAX_BODY_BYTES_CAP, SegmentPlaintextBytes(1);
    CeilDivUnique(p, size, 16);
    CeilDivUnique(p + cap - 1, size, 18);
    assert WireTotal(p, 1) == 8 * cap + 1;
    DivUnique(8 * cap + 1, cap, 8);
    DivUnique(9 * cap + 2 * GCM_ENVELOPE_BYTES, cap, 9);
    assert AlignmentPadding(p, 1, cap) == cap - 1;
    SegmentedLayoutExact(p, 1, cap);
  }

  // ---------- The last block ----------

  /** With caps of at least 8 * (373 + 1) bytes the last logical block is never empty. */
  lemma LastBlockNeverEmpty(plaintext: nat, code: nat, cap: nat)
    requires IsSupported(code) && ValidCap(cap) && 8 * (SM_ENC_BYTES + 1) <= cap
    requires WireLayoutFor(plaintext, code, cap).Some?
    requires 0 < WireLayoutFor(plaintext, code, cap).value.ciphertextLength
    ensures 0 < WireLayoutFor(plaintext, code, cap).value.lastBlockLength
  {
    hide LeastFitting;
    hide CeilDiv;
    hide Search;
    hide MinTokenCount;
    hide MaxTokenCount;
    SearchIsExact(plaintext, code, cap, 0);
    var layout := WireLayoutFor(plaintext, code, cap).value;
    var total := layout.totalWireBytes;
    if total < 8 * (SM_ENC_BYTES + 1) {
      OneTokenFits(total, cap);
    }
  }

  /** A layout's last block is empty exactly when its wire blocks hold nothing but a metadata block. */
  lemma LastBlockEmptyExactly(plaintext: nat, code: nat, cap: nat)
    requires WireLayoutFor(plaintext, code, cap).Some?
    ensures var layout := WireLayoutFor(plaintext, code, cap).value;
            && layout.lastBlockLength >= 0
            && (layout.lastBlockLength == 0 <==> layout.wireBlockSize == SM_ENC_BYTES)
  {
    hide Search;
    SearchIsExact(plaintext, code, cap, 0);
  }

  /** Under the smallest cap every whole file has a layout, and its last block is empty. */
  lemma EmptyLastBlockOccurs(plaintext: nat)
    ensures WireLayoutFor(plaintext, V2_SEGMENT_CODE_WHOLE_FILE, SM_ENC_BYTES).Some?
    ensures WireLayoutFor(plaintext, V2_SEGMENT_CODE_WHOLE_FILE, SM_ENC_BYTES).value.lastBlockLength == 0
  {
    hide Search;
    LayoutExists(plaintext, V2_SEGMENT_CODE_WHOLE_FILE, SM_ENC_BYTES);
    SearchIsExact(plaintext, V2_SEGMENT_CODE_WHOLE_FILE, SM_ENC_BYTES, 0);
  }

  lemma OneTokenFits(total: nat, cap: nat)
    requires ValidCap(cap) && SM_ENC_BYTES < total <= cap && total <= WIRE_BLOCK_REF
    ensures ChooseTokens(total, cap) == Some(1)
  {
    CeilDivUnique(total, cap, 1);
    CeilDivUnique(total - SM_ENC_BYTES, WIRE_BLOCK_REF, 1);
    MaxTokensBounds(total, cap);
    assert Fits(total, cap, 1);
  }

  // ---------- The token count ----------

  /** How many tokens there may be at most: blocks of at least an eighth of the total, or of the cap, and 373 bytes. */
  predicate HasBlocks(total: nat, cap: nat, m: nat) {
    1 <= m && m * Min(cap, total / 8) <= total && m * 373 <= total
  }

  /**
   A count of equal blocks that hold the total under the cap, with at most 4 MiB of ciphertext per
   token unless no admissible count gets that low.
   */
  ghost predicate Admissible(total: nat, cap: nat, m: nat) {
    && HasBlocks(total, cap, m)
    && m * cap >= total
    && (m * 0x40_0000 >= total - 373 || forall n: nat | HasBlocks(total, cap, n) :: n * 0x40_0000 < total - 373)
    && (exists wire: nat :: m * wire == total)
  }

  lemma HasBlocksUpTo(total: nat, cap: nat, m: nat)
    requires ValidCap(cap) && SM_ENC_BYTES <= total
    ensures HasBlocks(total, cap, m) <==> 1 <= m <= MaxTokenCount(total, cap)
  {
    var minBlock := MinWireBlockSize(total, cap);
    QuotientTimes(total, minBlock, m);
    QuotientTimes(total, SM_ENC_BYTES, m);
    MaxTokensBounds(total, cap);
  }

  // The reference count is at least the one that brings every token to 4 MiB of ciphertext.
  lemma AtLeastReference(total: nat, m: nat)
    requires SM_ENC_BYTES <= total
    ensures RefMin(total) <= m <==> total - 373 <= m * 0x40_0000
  {
    CeilDivBounds(total - SM_ENC_BYTES, WIRE_BLOCK_REF);
  }

  lemma AtLeastRelayMin(total: nat, cap: nat, m: nat)
    requires 0 < cap
    ensures RelayMin(total, cap) <= m <==> total <= m * cap
  {
    hide CeilDiv;
    CeilDivBounds(total, cap);
    if RelayMin(total, cap) <= m {
      MulMonotone(RelayMin(total, cap), m, cap);
    } else {
      MulMonotone(m + 1, RelayMin(total, cap), cap);
      assert (m + 1) * cap == m * cap + cap;
    }
  }

  lemma InRangeExactly(total: nat, cap: nat, m: nat)
    requires ValidCap(cap) && SM_ENC_BYTES <= total
    ensures MinTokenCount(total, cap) <= m <= MaxTokenCount(total, cap) <==>
              && HasBlocks(total, cap, m)
              && m * cap >= total
              && (m * 0x40_0000 >= total - 373
                  || forall n: nat | HasBlocks(total, cap, n) :: n * 0x40_0000 < total - 373)
  {
    hide HasBlocks;
    hide MaxTokenCount;
    hide RelayMin;
    hide RefMin;
    var top := MaxTokenCount(total, cap);
    MaxTokensBounds(total, cap);
    HasBlocksUpTo(total, cap, m);
    HasBlocksUpTo(total, cap, top);
    AtLeastRelayMin(total, cap, m);
    AtLeastReference(total, m);
    AtLeastReference(total, top);
    if RefMin(total) > top {
      forall n: nat | HasBlocks(total, cap, n)
        ensures n * 0x40_0000 < total - 373
      {
        HasBlocksUpTo(total, cap, n);
        AtLeastReference(total, n);
      }
    }
  }

  lemma FitsExactly(total: nat, cap: nat, m: nat)
    requires ValidCap(cap) && SM_ENC_BYTES <= total
    requires MinTokenCount(total, cap) <= m <= MaxTokenCount(total, cap)
    ensures Fits(total, cap, m) <==> exists wire: nat :: m * wire == total
  {
    MaxTokensBounds(total, cap);
    MinTokensBounds(total, cap);
    MulMonotone(MinTokenCount(total, cap), m, cap);
    if Fits(total, cap, m) {
      Division(total, m, 0);
      assert m * (total / m) == total;
    }
    if wire: nat :| m * wire == total {
      assert wire * m == total;
      MultipleOf(wire, m);
      QuotientWithin(total, m, MinWireBlockSize(total, cap), cap);
    }
  }

  /** The count that is chosen is the least admissible one. */
  lemma TokenCountExactly(total: nat, cap: nat, m: nat)
    requires ValidCap(cap) && SM_ENC_BYTES <= total
    ensures ChooseTokens(total, cap) == Some(m) <==>
              Admissible(total, cap, m) && forall n: nat | n < m :: !Admissible(total, cap, n)
  {
    hide MaxTokenCount;
    hide MinTokenCount;
    hide HasBlocks;
    hide Fits;
    forall n: nat
      ensures Admissible(total, cap, n) <==>
                MinTokenCount(total, cap) <= n <= MaxTokenCount(total, cap) && Fits(total, cap, n)
    {
      InRangeExactly(total, cap, n);
      if MinTokenCount(total, cap) <= n <= MaxTokenCount(total, cap) {
        FitsExactly(total, cap, n);
      }
    }
    var chosen := ChooseTokens(total, cap);
    if chosen.Some? {
      assert Admissible(total, cap, chosen.value);
    }
  }

  /** Up to 32 MiB of ciphertext, no wire block carries more than 4 MiB besides the metadata block. */
  lemma BlocksNearReference(plaintext: nat, code: nat, cap: nat)
    requires WireLayoutFor(plaintext, code, cap).Some?
    requires WireLayoutFor(plaintext, code, cap).value.ciphertextLength <= 0x200_0000
    ensures WireLayoutFor(plaintext, code, cap).value.wireBlockSize <= 0x40_0000 + 373
  {
    hide Search;
    hide MinTokenCount;
    hide MaxTokenCount;
    hide MinWireBlockSize;
    SearchIsExact(plaintext, code, cap, 0);
    var layout := WireLayoutFor(plaintext, code, cap).value;
    var total, m, wire := layout.totalWireBytes, layout.numTokens, layout.wireBlockSize;
    if 0x40_0000 + 373 < wire {
      MulMonotone(1, m, wire);
      SmallTotal(total, cap);
      InRangeExactly(total, cap, m);
      HasBlocksUpTo(total, cap, 8);
      MulMonotone(0x40_0000 + 374, wire, m);
    }
  }

  /** One token exactly where the total stays within the cap and the ciphertext within 4 MiB. */
  lemma OneTokenExactly(plaintext: nat, code: nat, cap: nat)
    requires WireLayoutFor(plaintext, code, cap).Some?
    ensures var layout := WireLayoutFor(plaintext, code, cap).value;
            layout.numTokens == 1 <==> layout.totalWireBytes <= cap && layout.ciphertextLength <= 0x40_0000
  {
    hide Search;
    SearchIsExact(plaintext, code, cap, 0);
    var layout := WireLayoutFor(plaintext, code, cap).value;
    var total := layout.totalWireBytes;
    TokenCountExactly(total, cap, 1);
    TokenCountExactly(total, cap, layout.numTokens);
    assert 1 * total == total;
    if total <= cap && 0x40_0000 < layout.ciphertextLength {
      SmallTotal(total, cap);
      HasBlocksUpTo(total, cap, 8);
    }
  }

  // From 16 MiB on, even the largest cap asks for two tokens.
  lemma TwoTokensAtLeast(total: nat, cap: nat)
    requires ValidCap(cap) && 0x100_0000 < total
    ensures 2 <= MinTokenCount(total, cap)
  {
    if cap < total {
      CeilDivBounds(total, cap);
    } else {
      SmallTotal(total, cap);
      CeilDivMonotone(2 * WIRE_BLOCK_REF, total - SM_ENC_BYTES, WIRE_BLOCK_REF);
      CeilDivMonotone(total - SM_ENC_BYTES, 8 * WIRE_BLOCK_REF, WIRE_BLOCK_REF);
      CeilDivUnique(2 * WIRE_BLOCK_REF, WIRE_BLOCK_REF, 2);
      CeilDivUnique(8 * WIRE_BLOCK_REF, WIRE_BLOCK_REF, 8);
    }
  }

  /** More than 16 MiB never fit one wire block. */
  lemma LargeFilesHaveSeveralTokens(plaintext: nat, code: nat, cap: nat)
    requires WireLayoutFor(plaintext, code, cap).Some? && 0x100_0000 < plaintext
    ensures 2 <= WireLayoutFor(plaintext, code, cap).value.numTokens
  {
    hide Search;
    hide MinTokenCount;
    hide MaxTokenCount;
    SearchIsExact(plaintext, code, cap, 0);
    var layout := WireLayoutFor(plaintext, code, cap).value;
    TwoTokensAtLeast(layout.totalWireBytes, cap);
  }

  /** A whole file of at most 16 MiB takes at most 32 MiB on the wire. */
  lemma SmallWholeFilesStaySmall(plaintext: nat, cap: nat)
    requires ValidCap(cap) && plaintext <= 0x100_0000
    ensures var layout := WireLayoutFor(plaintext, V2_SEGMENT_CODE_WHOLE_FILE, cap);
            && layout.Some?
            && layout.value.numTokens * layout.value.wireBlockSize <= 0x200_0000
  {
    hide Search;
    LayoutExists(plaintext, V2_SEGMENT_CODE_WHOLE_FILE, cap);
    SearchIsExact(plaintext, V2_SEGMENT_CODE_WHOLE_FILE, cap, 0);
  }

  // Up to 1 TiB of padded file, the number of tokens fits in 32 bits.
  lemma TokenCountFits(plaintext: nat, code: nat, cap: nat)
    requires IsSupported(code) && ValidCap(cap) && plaintext <= 0x100_0000_0000
    requires WireLayoutFor(plaintext, code, cap).Some?
    ensures var layout := WireLayoutFor(plaintext, code, cap).value;
            layout.numTokens < 0x1_0000_0000 && layout.ciphertextLength < 0x1_0000_0000_0000_0000
  {
    hide Search;
    hide ExactLayout;
    hide CeilDiv;
    SearchIsExact(plaintext, code, cap, 0);
    var layout := WireLayoutFor(plaintext, code, cap).value;
    MulMonotone(SM_ENC_BYTES, layout.wireBlockSize, layout.numTokens);
    if IsSegmented(code) {
      FewSegments(plaintext + layout.plaintextPadding, SegmentPlaintextBytes(code));
    }
  }

  lemma FewSegments(padded: nat, size: nat)
    requires 0x100_0000 <= size && padded <= 0x101_0000_0000
    ensures CeilDiv(padded, size) <= 0x1_0200
  {
    CeilDivBounds(padded, size);
    if 0x1_0200 < CeilDiv(padded, size) {
      MulMonotone(0x1_0200, CeilDiv(padded, size) - 1, size);
    }
  }
}
