/** Byte strings, optional values and the division facts the other modules share. */
module ByteStrings {

  type Byte = b: int | 0 <= b < 256

  type Bytes = seq<Byte>

  /** An operation that may throw in the source returns `None` here. */
  datatype Option<+T> = None | Some(value: T) {
    predicate IsFailure() {
      None?
    }

    function PropagateFailure<U>(): Option<U>
      requires None?
    {
      None
    }

    function Extract(): T
      requires Some?
    {
      value
    }
  }

  function Min(a: int, b: int): int {
    if a <= b then a else b
  }

  function Max(a: int, b: int): int {
    if a >= b then a else b
  }

  function Zeros(n: nat): Bytes {
    seq(n, _ => 0)
  }

  // ---------- Division ----------

  function CeilDiv(n: nat, d: nat): nat
    requires d > 0
  {
    (n + d - 1) / d
  }

  lemma MulMonotone(a: int, b: int, d: int)
    requires a <= b && 0 <= d
    ensures a * d <= b * d
  {
  }

  lemma DivUnique(n: int, d: int, q: int)
    requires 0 < d && q * d <= n < q * d + d
    ensures n / d == q
  {
    var k := n / d;
    assert k * d <= n < k * d + d;
    if k < q {
      MulMonotone(k + 1, q, d);
    } else if q < k {
      MulMonotone(q + 1, k, d);
    }
  }

  lemma DivBounds(n: int, d: int)
    requires 0 < d
    ensures n / d * d <= n < n / d * d + d
  {
  }

  lemma QuotientTimes(n: nat, d: nat, k: nat)
    requires 0 < d
    ensures k <= n / d <==> k * d <= n
  {
    var q := n / d;
    assert q * d <= n < q * d + d;
    if k <= q {
      MulMonotone(k, q, d);
    } else {
      MulMonotone(q + 1, k, d);
    }
  }

  /** `CeilDiv(n, d)` is the one `q` with `(q - 1) * d < n <= q * d`. */
  lemma CeilDivUnique(n: nat, d: nat, q: nat)
    requires 0 < d && q * d - d < n <= q * d
    ensures CeilDiv(n, d) == q
  {
    DivUnique(n + d - 1, d, q);
  }

  lemma CeilDivBounds(n: nat, d: nat)
    requires 0 < d
    ensures CeilDiv(n, d) * d - d < n <= CeilDiv(n, d) * d
  {
    DivBounds(n + d - 1, d);
  }

  lemma CeilDivMonotone(a: nat, b: nat, d: nat)
    requires 0 < d && a <= b
    ensures CeilDiv(a, d) <= CeilDiv(b, d)
  {
    CeilDivBounds(a, d);
    CeilDivBounds(b, d);
    if CeilDiv(b, d) < CeilDiv(a, d) {
      MulMonotone(CeilDiv(b, d) + 1, CeilDiv(a, d), d);
    }
  }

  lemma CeilDivStep(n: nat, d: nat)
    requires 0 < d < n
    ensures CeilDiv(n, d) == 1 + CeilDiv(n - d, d)
  {
    CeilDivBounds(n - d, d);
    CeilDivUnique(n, d, 1 + CeilDiv(n - d, d));
  }

  // ---------- Concatenation ----------

  function Flatten(parts: seq<Bytes>): Bytes {
    if parts == [] then [] else Flatten(parts[..|parts| - 1]) + parts[|parts| - 1]
  }

  lemma FlattenSnoc(parts: seq<Bytes>, x: Bytes)
    ensures Flatten(parts + [x]) == Flatten(parts) + x
  {
    assert (parts + [x])[..|parts|] == parts;
  }

  lemma {:induction false} FlattenConcat(a: seq<Bytes>, b: seq<Bytes>)
    ensures Flatten(a + b) == Flatten(a) + Flatten(b)
  {
    if b == [] {
      assert a + b == a;
    } else {
      var init, last := b[..|b| - 1], b[|b| - 1];
      assert a + b == (a + init) + [last];
      FlattenSnoc(a + init, last);
      FlattenConcat(a, init);
    }
  }

  lemma FlattenCons(x: Bytes, rest: seq<Bytes>)
    ensures Flatten([x] + rest) == x + Flatten(rest)
  {
    FlattenConcat([x], rest);
    assert Flatten([x]) == x;
  }

  ghost predicate Full(parts: seq<Bytes>, size: nat) {
    forall i | 0 <= i < |parts| :: |parts[i]| == size
  }

  lemma FullSnoc(parts: seq<Bytes>, x: Bytes, size: nat)
    requires Full(parts, size) && |x| == size
    ensures Full(parts + [x], size)
  {
  }

  // Blocks of one size take up their number times that size.
  lemma {:induction false} FlattenFullLength(parts: seq<Bytes>, size: nat)
    requires Full(parts, size)
    ensures |Flatten(parts)| == |parts| * size
  {
    if parts != [] {
      FlattenFullLength(parts[..|parts| - 1], size);
      assert |parts| * size == (|parts| - 1) * size + size;
    }
  }

  // ---------- Cutting into chunks ----------

  /** Cut `p` from the left into chunks of `size` bytes; the last one may be shorter. */
  function Chunk(p: Bytes, size: nat): seq<Bytes>
    requires 0 < size
    decreases |p|
  {
    if p == [] then []
    else
      var n := Min(size, |p|);
      [p[..n]] + Chunk(p[n..], size)
  }

  ghost predicate Chunked(chunks: seq<Bytes>, size: nat) {
    forall i | 0 <= i < |chunks| ::
      0 < |chunks[i]| <= size && (i < |chunks| - 1 ==> |chunks[i]| == size)
  }

  lemma ChunkedSnoc(chunks: seq<Bytes>, x: Bytes, size: nat)
    requires Full(chunks, size) && 0 < |x| <= size
    ensures Chunked(chunks + [x], size)
    ensures |x| == size ==> Full(chunks + [x], size)
  {
  }

  /** A list of full chunks with a last non-empty one is the only way to cut its concatenation. */
  lemma {:induction false} ChunkUnique(chunks: seq<Bytes>, size: nat)
    requires 0 < size && Chunked(chunks, size)
    ensures Chunk(Flatten(chunks), size) == chunks
    decreases |chunks|
  {
    if chunks != [] {
      var first, rest := chunks[0], chunks[1..];
      assert chunks == [first] + rest;
      FlattenCons(first, rest);
      ChunkUnique(rest, size);
      if rest == [] {
        assert Flatten(chunks) == first;
      } else {
        assert |first| == size;
      }
      var p := Flatten(chunks);
      assert p[..|first|] == first && p[|first|..] == Flatten(rest);
    }
  }

  lemma {:induction false} ChunkCovers(p: Bytes, size: nat)
    requires 0 < size
    ensures Chunked(Chunk(p, size), size) && Flatten(Chunk(p, size)) == p
    ensures |Chunk(p, size)| == CeilDiv(|p|, size)
    decreases |p|
  {
    if p == [] {
      CeilDivUnique(0, size, 0);
    } else {
      var n := Min(size, |p|);
      ChunkCovers(p[n..], size);
      FlattenCons(p[..n], Chunk(p[n..], size));
      assert p == p[..n] + p[n..];
      if |p| <= size {
        assert Chunk(p[n..], size) == [];
        CeilDivUnique(|p|, size, 1);
      } else {
        CeilDivStep(|p|, size);
      }
    }
  }
}
