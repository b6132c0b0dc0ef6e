/** File-name normalisation, done on the UTF-8 bytes of the name. */
module FileNames {
  import opened ByteStrings

  const MAX_ORIGINAL_FILE_NAME_BYTES: nat := 128
  const SLASH: Byte := 47
  const BACKSLASH: Byte := 92

  predicate IsSeparator(b: Byte) {
    b == SLASH || b == BACKSLASH
  }

  predicate IsContinuation(b: Byte) {
    0x80 <= b < 0xC0
  }

  /** What follows the last separator. */
  function LastComponent(s: Bytes): Bytes {
    if s == [] || IsSeparator(s[|s| - 1]) then []
    else LastComponent(s[..|s| - 1]) + [s[|s| - 1]]
  }

  function RemoveNuls(s: Bytes): Bytes {
    if s == [] then []
    else RemoveNuls(s[..|s| - 1]) + if s[|s| - 1] == 0 then [] else [s[|s| - 1]]
  }

  function DropContinuations(s: Bytes): (r: Bytes)
    ensures r <= s
  {
    if s != [] && IsContinuation(s[|s| - 1]) then DropContinuations(s[..|s| - 1]) else s
  }

  function Truncate(s: Bytes, limit: nat): (r: Bytes)
    ensures r <= s && |r| <= limit
    ensures |s| <= limit ==> r == s
  {
    if |s| <= limit then s else DropContinuations(s[..limit])
  }

  function Normalize(s: Bytes): Bytes {
    Truncate(RemoveNuls(LastComponent(s)), MAX_ORIGINAL_FILE_NAME_BYTES)
  }

  method TruncateInPlace(s: Bytes, limit: nat) returns (name: Bytes)
    ensures name == Truncate(s, limit)
  {
    name := s;
    if |name| > limit {
      name := name[..limit];
      while name != [] && IsContinuation(name[|name| - 1])
        invariant DropContinuations(name) == DropContinuations(s[..limit])
        decreases |name|
      {
        name := name[..|name| - 1];
      }
    }
  }

  method StripDirectory(input: Bytes) returns (name: Bytes)
    ensures name == LastComponent(input)
  {
    var start := |input|;
    assert input[..start] == input && LastComponent(input) + input[start..] == LastComponent(input);
    while start > 0 && !IsSeparator(input[start - 1])
      invariant 0 <= start <= |input|
      invariant LastComponent(input) == LastComponent(input[..start]) + input[start..]
    {
      assert input[..start][..start - 1] == input[..start - 1];
      assert input[start - 1..] == [input[start - 1]] + input[start..];
      start := start - 1;
    }
    name := input[start..];
  }

  method StripNuls(s: Bytes) returns (name: Bytes)
    ensures name == RemoveNuls(s)
  {
    name := [];
    for i := 0 to |s|
      invariant name == RemoveNuls(s[..i])
    {
      assert s[..i + 1][..i] == s[..i];
      if s[i] != 0 {
        name := name + [s[i]];
      }
    }
    assert s[..|s|] == s;
  }

  method NormalizeOriginalFileName(input: Bytes) returns (name: Bytes)
    ensures name == Normalize(input)
  {
    name := StripDirectory(input);
    name := StripNuls(name);
    name := TruncateInPlace(name, MAX_ORIGINAL_FILE_NAME_BYTES);
  }

  // ---------- Idempotence ----------

  ghost predicate Clean(s: Bytes) {
    forall i | 0 <= i < |s| :: s[i] != 0 && !IsSeparator(s[i])
  }

  lemma {:induction false} LastComponentHasNoSeparator(s: Bytes)
    ensures forall i | 0 <= i < |LastComponent(s)| :: !IsSeparator(LastComponent(s)[i])
  {
    if s != [] && !IsSeparator(s[|s| - 1]) {
      LastComponentHasNoSeparator(s[..|s| - 1]);
    }
  }

  lemma {:induction false} RemoveNulsCleans(s: Bytes)
    requires forall i | 0 <= i < |s| :: !IsSeparator(s[i])
    ensures Clean(RemoveNuls(s))
  {
    if s != [] {
      RemoveNulsCleans(s[..|s| - 1]);
    }
  }

  lemma {:induction false} CleanIsKept(s: Bytes)
    requires Clean(s)
    ensures LastComponent(s) == s && RemoveNuls(s) == s
  {
    if s != [] {
      var init, last := s[..|s| - 1], s[|s| - 1];
      CleanIsKept(init);
      assert last != 0 && !IsSeparator(last);
      assert LastComponent(s) == init + [last];
      assert RemoveNuls(s) == init + [last];
    }
  }

  /** The fixed points of normalisation are the short names without separators and NULs. */
  lemma NormalizeFixedPoint(s: Bytes)
    ensures Normalize(s) == s <==> Clean(s) && |s| <= MAX_ORIGINAL_FILE_NAME_BYTES
  {
    if Clean(s) {
      CleanIsKept(s);
    }
    NormalizeCleans(s);
  }

  lemma NormalizeCleans(s: Bytes)
    ensures Clean(Normalize(s)) && |Normalize(s)| <= MAX_ORIGINAL_FILE_NAME_BYTES
  {
    LastComponentHasNoSeparator(s);
    RemoveNulsCleans(LastComponent(s));
  }

  /** Normalising twice is normalising once. */
  lemma NormalizeIdempotent(s: Bytes)
    ensures Normalize(Normalize(s)) == Normalize(s)
  {
    NormalizeCleans(s);
    NormalizeFixedPoint(Normalize(s));
  }

  // ---------- What a normalised name is ----------

  // `tail` has no separator, and starts the string or follows one.
  ghost predicate FollowsLastSeparator(s: Bytes, front: Bytes, tail: Bytes) {
    && s == front + tail
    && (front != [] ==> front[|front| - 1] == 47 || front[|front| - 1] == 92)
    && forall i | 0 <= i < |tail| :: tail[i] != 47 && tail[i] != 92
  }

  lemma {:induction false} LastComponentIs(s: Bytes) returns (front: Bytes)
    ensures FollowsLastSeparator(s, front, LastComponent(s))
  {
    front := s;
    if s != [] && !IsSeparator(s[|s| - 1]) {
      front := LastComponentIs(s[..|s| - 1]);
      assert s == s[..|s| - 1] + [s[|s| - 1]];
    }
  }

  /** Part by part and byte by byte, NULs vanish and everything else stays in place. */
  lemma {:induction false} NulsVanish(a: Bytes, b: Bytes, x: Byte)
    ensures RemoveNuls(a + b) == RemoveNuls(a) + RemoveNuls(b)
    ensures RemoveNuls([x]) == if x == 0 then [] else [x]
  {
    assert [x][..0] == [];
    if b == [] {
      assert a + b == a;
    } else {
      var n := |b| - 1;
      NulsVanish(a, b[..n], x);
      assert (a + b)[..|a| + n] == a + b[..n];
    }
  }

  lemma {:induction false} ContinuationsDropped(s: Bytes)
    ensures var r := DropContinuations(s);
            && (r != [] ==> !(0x80 <= r[|r| - 1] < 0xC0))
            && forall i | |r| <= i < |s| :: 0x80 <= s[i] < 0xC0
  {
    if s != [] && IsContinuation(s[|s| - 1]) {
      ContinuationsDropped(s[..|s| - 1]);
    }
  }

  // All of `s` within the limit, else the first `limit` bytes up to the continuation bytes they end in.
  ghost predicate CutTo(r: Bytes, s: Bytes, limit: nat) {
    if |s| <= limit then r == s
    else
      && r <= s && |r| <= limit
      && (r != [] ==> !(0x80 <= r[|r| - 1] < 0xC0))
      && forall i | |r| <= i < limit :: 0x80 <= s[i] < 0xC0
  }

  lemma TruncatedIs(s: Bytes, limit: nat)
    ensures CutTo(Truncate(s, limit), s, limit)
  {
    if limit < |s| {
      ContinuationsDropped(s[..limit]);
    }
  }

  /** A normalised name is what follows the last slash or backslash, without its NULs, cut to 128 bytes. */
  lemma NormalizedNameIs(s: Bytes) returns (front: Bytes, tail: Bytes)
    ensures FollowsLastSeparator(s, front, tail)
    ensures CutTo(Normalize(s), RemoveNuls(tail), 128)
  {
    front := LastComponentIs(s);
    tail := LastComponent(s);
    TruncatedIs(RemoveNuls(tail), 128);
  }

  // ---------- Zero-padded fields ----------

  /** The bytes in front of the first NUL. */
  function UntilNul(s: Bytes): Bytes {
    if s == [] || s[0] == 0 then [] else [s[0]] + UntilNul(s[1..])
  }

  // Without its trailing NULs.
  function TrimNuls(s: Bytes): Bytes {
    if s != [] && s[|s| - 1] == 0 then TrimNuls(s[..|s| - 1]) else s
  }

  method TrimTrailingNuls(s: Bytes) returns (r: Bytes)
    ensures r == TrimNuls(s)
  {
    r := s;
    while r != [] && r[|r| - 1] == 0
      invariant TrimNuls(r) == TrimNuls(s)
    {
      r := r[..|r| - 1];
    }
  }

  /** The search for the terminator; without one the source trims NULs, of which there are none. */
  method ReadUntilNul(s: Bytes) returns (r: Bytes)
    ensures r == UntilNul(s)
    ensures r <= s && (forall i | 0 <= i < |r| :: r[i] != 0) && (|r| < |s| ==> s[|r|] == 0)
  {
    assert s[0..] == s;
    for i := 0 to |s|
      invariant forall k | 0 <= k < i :: s[k] != 0
      invariant UntilNul(s) == s[..i] + UntilNul(s[i..])
    {
      if s[i] == 0 {
        assert s[..i] + [] == s[..i];
        return s[..i];
      }
      assert s[..i + 1] == s[..i] + [s[i]] && s[i..][1..] == s[i + 1..];
    }
    assert s[|s|..] == [] && s[..|s|] + [] == s;
    r := TrimTrailingNuls(s);
  }

  lemma {:induction false} UntilNulOfPadded(s: Bytes, padding: nat)
    requires Clean(s)
    ensures UntilNul(s + Zeros(padding)) == s
  {
    if s == [] {
      assert s + Zeros(padding) == Zeros(padding);
    } else {
      assert (s + Zeros(padding))[1..] == s[1..] + Zeros(padding);
      UntilNulOfPadded(s[1..], padding);
    }
  }
}
