/** The Merkle tree over the logical ciphertext blocks; an odd last node is paired with itself. */
module Merkle {
  import opened ByteStrings
  import opened Cryptography

  datatype MerkleTree = MerkleTree(levels: seq<seq<Bytes>>, rootHash: Bytes)

  function HashBlocks(c: Crypto, blocks: seq<Bytes>): seq<Bytes> {
    seq(|blocks|, i requires 0 <= i < |blocks| => c.sha256(blocks[i]))
  }

  function NextLevel(c: Crypto, level: seq<Bytes>): (r: seq<Bytes>)
    ensures |r| == (|level| + 1) / 2
  {
    if level == [] then []
    else if |level| == 1 then [c.sha256(level[0] + level[0])]
    else [c.sha256(level[0] + level[1])] + NextLevel(c, level[2..])
  }

  function Levels(c: Crypto, level: seq<Bytes>): (r: seq<seq<Bytes>>)
    requires level != []
    ensures r != [] && |r[|r| - 1]| == 1
    decreases |level|
  {
    if |level| == 1 then [level] else [level] + Levels(c, NextLevel(c, level))
  }

  function TreeOf(c: Crypto, leaves: seq<Bytes>): MerkleTree {
    if leaves == [] then MerkleTree([[c.sha256([])]], c.sha256([]))
    else
      var levels := Levels(c, leaves);
      MerkleTree(levels, levels[|levels| - 1][0])
  }

  function RootOf(c: Crypto, leaves: seq<Bytes>): Bytes {
    TreeOf(c, leaves).rootHash
  }

  /** Node i hashes nodes 2i and 2i + 1 of the level below, an odd last node with itself. */
  lemma {:induction false} NextLevelAt(c: Crypto, level: seq<Bytes>, i: nat)
    requires 2 * i < |level|
    ensures NextLevel(c, level)[i]
         == c.sha256(level[2 * i] + level[if 2 * i + 1 < |level| then 2 * i + 1 else 2 * i])
  {
    if 0 < i {
      NextLevelAt(c, level[2..], i - 1);
    }
  }

  /** The levels lead from the leaves to a single node, the root; without leaves it hashes nothing. */
  lemma {:induction false} TreeIs(c: Crypto, leaves: seq<Bytes>)
    ensures var tree := TreeOf(c, leaves);
            if leaves == [] then tree.levels == [[c.sha256([])]] && tree.rootHash == c.sha256([])
            else
              var top := |tree.levels| - 1;
              && 0 <= top
              && tree.levels[0] == leaves && tree.levels[top] == [tree.rootHash]
              && forall i | 0 <= i < top ::
                   1 < |tree.levels[i]| && tree.levels[i + 1] == NextLevel(c, tree.levels[i])
    decreases |leaves|
  {
    if 1 < |leaves| {
      LevelsStep(c, leaves);
      TreeIs(c, NextLevel(c, leaves));
    }
  }

  method HashLevel(c: Crypto, level: seq<Bytes>) returns (next: seq<Bytes>)
    ensures next == NextLevel(c, level)
  {
    next := [];
    var index := 0;
    assert level[0..] == level;
    while index < |level|
      invariant 0 <= index <= |level| + 1
      invariant NextLevel(c, level) == next + NextLevel(c, level[Min(index, |level|)..])
    {
      var combined := level[index] + if index + 1 < |level| then level[index + 1] else level[index];
      if index + 1 < |level| {
        assert level[index..][2..] == level[index + 2..];
      }
      next := next + [c.sha256(combined)];
      index := index + 2;
    }
  }

  lemma LevelsStep(c: Crypto, level: seq<Bytes>)
    requires |level| > 1
    ensures Levels(c, level) == [level] + Levels(c, NextLevel(c, level))
  {
  }

  lemma LevelsDone(c: Crypto, level: seq<Bytes>)
    requires |level| == 1
    ensures Levels(c, level) == [level]
  {
  }

  method BuildMerkleTreeFromLeafHashes(c: Crypto, leaves: seq<Bytes>) returns (tree: MerkleTree)
    ensures tree == TreeOf(c, leaves)
  {
    hide Levels;
    hide NextLevel;
    if leaves == [] {
      return MerkleTree([[c.sha256([])]], c.sha256([]));
    }
    var current := leaves;
    var levels := [current];
    ghost var below := [];
    while |current| > 1
      invariant current != [] && levels == below + [current]
      invariant Levels(c, leaves) == below + Levels(c, current)
      decreases |current|
    {
      var next := HashLevel(c, current);
      LevelsStep(c, current);
      assert below + ([current] + Levels(c, next)) == levels + Levels(c, next);
      below := levels;
      current := next;
      levels := levels + [next];
    }
    LevelsDone(c, current);
    tree := MerkleTree(levels, current[0]);
  }

  /** Building from the blocks is building from their hashes. */
  method BuildMerkleTree(c: Crypto, blocks: seq<Bytes>) returns (tree: MerkleTree)
    ensures tree == TreeOf(c, HashBlocks(c, blocks))
  {
    hide Levels;
    hide NextLevel;
    if blocks == [] {
      return MerkleTree([[c.sha256([])]], c.sha256([]));
    }
    var current := [];
    for i := 0 to |blocks|
      invariant current == HashBlocks(c, blocks[..i])
    {
      current := current + [c.sha256(blocks[i])];
    }
    assert blocks[..|blocks|] == blocks;
    var leaves := current;
    var levels := [current];
    ghost var below := [];
    while |current| > 1
      invariant current != [] && levels == below + [current]
      invariant Levels(c, leaves) == below + Levels(c, current)
      decreases |current|
    {
      var next := HashLevel(c, current);
      LevelsStep(c, current);
      assert below + ([current] + Levels(c, next)) == levels + Levels(c, next);
      below := levels;
      current := next;
      levels := levels + [next];
    }
    LevelsDone(c, current);
    tree := MerkleTree(levels, current[0]);
  }

  method VerifyMerkleRoot(c: Crypto, blocks: seq<Bytes>, expected: Bytes) returns (ok: bool)
    ensures ok <==> RootOf(c, HashBlocks(c, blocks)) == expected
  {
    var tree := BuildMerkleTree(c, blocks);
    ok := tree.rootHash == expected;
  }

  method VerifyMerkleRootFromLeafHashes(c: Crypto, leaves: seq<Bytes>, expected: Bytes) returns (ok: bool)
    ensures ok <==> RootOf(c, leaves) == expected
  {
    var tree := BuildMerkleTreeFromLeafHashes(c, leaves);
    ok := tree.rootHash == expected;
  }

  // ---------- Binding ----------

  ghost predicate Collision(c: Crypto, x: Bytes, y: Bytes) {
    x != y && c.sha256(x) == c.sha256(y)
  }

  ghost predicate Digests(level: seq<Bytes>) {
    forall i | 0 <= i < |level| :: |level[i]| == HASH_BYTES
  }

  lemma {:induction false} NextLevelDigests(c: Crypto, level: seq<Bytes>)
    requires Ideal(c)
    ensures Digests(NextLevel(c, level))
  {
    if |level| > 1 {
      NextLevelDigests(c, level[2..]);
    }
  }

  // `x` joins two neighbours of the level, an odd last node with itself.
  ghost predicate Paired(level: seq<Bytes>, x: Bytes) {
    && level != []
    && (|| x == level[0] + (if |level| == 1 then level[0] else level[1])
        || (|level| > 2 && Paired(level[2..], x)))
  }

  /** Computing the root of the leaves hashes `x`. */
  ghost predicate HashedAbove(c: Crypto, leaves: seq<Bytes>, x: Bytes)
    decreases |leaves|
  {
    |leaves| > 1 && (Paired(leaves, x) || HashedAbove(c, NextLevel(c, leaves), x))
  }

  /** Building the tree of the blocks hashes `x`. */
  ghost predicate Hashed(c: Crypto, blocks: seq<Bytes>, x: Bytes) {
    x in blocks || HashedAbove(c, HashBlocks(c, blocks), x)
  }

  lemma {:induction false} LevelBinding(c: Crypto, a: seq<Bytes>, b: seq<Bytes>) returns (x: Bytes, y: Bytes)
    requires Digests(a) && Digests(b) && |a| == |b| && NextLevel(c, a) == NextLevel(c, b)
    ensures a == b || (Collision(c, x, y) && Paired(a, x) && Paired(b, y))
    decreases |a|
  {
    x, y := [], [];
    if a != [] {
      assert NextLevel(c, a)[0] == NextLevel(c, b)[0];
      if |a| == 1 {
        x, y := a[0] + a[0], b[0] + b[0];
        assert x[..HASH_BYTES] == a[0] && y[..HASH_BYTES] == b[0];
      } else {
        x, y := a[0] + a[1], b[0] + b[1];
        if x == y {
          assert x[..HASH_BYTES] == a[0] && y[..HASH_BYTES] == b[0];
          assert x[HASH_BYTES..] == a[1] && y[HASH_BYTES..] == b[1];
          assert NextLevel(c, a)[1..] == NextLevel(c, b)[1..];
          assert NextLevel(c, a[2..]) == NextLevel(c, b[2..]);
          x, y := LevelBinding(c, a[2..], b[2..]);
          assert a == a[..2] + a[2..] && b == b[..2] + b[2..];
          assert a[..2] == [a[0], a[1]] && b[..2] == [b[0], b[1]];
        }
      }
    }
  }

  lemma RootStep(c: Crypto, level: seq<Bytes>)
    requires |level| > 1
    ensures RootOf(c, level) == RootOf(c, NextLevel(c, level))
  {
  }

  /** Leaf lists of one length with one root are equal, or colliding inputs of the two computations come out. */
  lemma {:induction false} RootBinding(c: Crypto, a: seq<Bytes>, b: seq<Bytes>) returns (x: Bytes, y: Bytes)
    requires Ideal(c) && Digests(a) && Digests(b) && |a| == |b| && RootOf(c, a) == RootOf(c, b)
    ensures a == b || (Collision(c, x, y) && HashedAbove(c, a, x) && HashedAbove(c, b, y))
    decreases |a|
  {
    x, y := [], [];
    if |a| > 1 {
      RootStep(c, a);
      RootStep(c, b);
      NextLevelDigests(c, a);
      NextLevelDigests(c, b);
      if NextLevel(c, a) == NextLevel(c, b) {
        x, y := LevelBinding(c, a, b);
      } else {
        x, y := RootBinding(c, NextLevel(c, a), NextLevel(c, b));
      }
    } else if |a| == 1 {
      assert Levels(c, a) == [a] && Levels(c, b) == [b];
      assert a == [a[0]] && b == [b[0]];
    }
  }

  /** Block lists of one length with one root are equal, or colliding inputs of the two trees come out. */
  lemma BlockBinding(c: Crypto, a: seq<Bytes>, b: seq<Bytes>) returns (x: Bytes, y: Bytes)
    requires Ideal(c) && |a| == |b|
    requires RootOf(c, HashBlocks(c, a)) == RootOf(c, HashBlocks(c, b))
    ensures a == b || (Collision(c, x, y) && Hashed(c, a, x) && Hashed(c, b, y))
  {
    hide RootOf;
    hide HashedAbove;
    x, y := [], [];
    if HashBlocks(c, a) != HashBlocks(c, b) {
      x, y := RootBinding(c, HashBlocks(c, a), HashBlocks(c, b));
    } else if a != b {
      var i :| 0 <= i < |a| && a[i] != b[i];
      assert HashBlocks(c, a)[i] == HashBlocks(c, b)[i];
      x, y := a[i], b[i];
    }
  }

  // ---------- An empty last leaf ----------

  // The last node of the next level comes from the last leaf alone.
  lemma {:induction false} LastNode(c: Crypto, front: seq<Bytes>, leaf: Bytes)
    ensures var next, x := NextLevel(c, front + [leaf]), LastPair(front, leaf);
            next != [] && next[|next| - 1] == c.sha256(x) && Paired(front + [leaf], x)
  {
    if |front| >= 2 {
      assert (front + [leaf])[2..] == front[2..] + [leaf];
      LastNode(c, front[2..], leaf);
    }
  }

  function LastPair(front: seq<Bytes>, leaf: Bytes): Bytes {
    if |front| % 2 == 0 then leaf + leaf else front[|front| - 1] + leaf
  }

  lemma SingleLeaf(c: Crypto, front: seq<Bytes>, leaf: Bytes)
    requires front == []
    ensures RootOf(c, front + [leaf]) == leaf
  {
    LevelsDone(c, front + [leaf]);
  }

  /** An empty last leaf gives the root of a digest in its place only on a collision of the two computations. */
  lemma EmptyLeafBinding(c: Crypto, front: seq<Bytes>, digest: Bytes) returns (x: Bytes, y: Bytes)
    requires Ideal(c) && |digest| == HASH_BYTES
    requires RootOf(c, front + [[]]) == RootOf(c, front + [digest])
    ensures Collision(c, x, y) && HashedAbove(c, front + [[]], x) && HashedAbove(c, front + [digest], y)
  {
    hide NextLevel;
    hide RootOf;
    hide Paired;
    var a, b := front + [[]], front + [digest];
    x, y := LastPair(front, []), LastPair(front, digest);
    if front == [] {
      SingleLeaf(c, front, []);
      SingleLeaf(c, front, digest);
      assert false;
    } else {
      RootStep(c, a);
      RootStep(c, b);
      NextLevelDigests(c, a);
      NextLevelDigests(c, b);
      if NextLevel(c, a) == NextLevel(c, b) {
        LastNode(c, front, []);
        LastNode(c, front, digest);
        assert |x| != |y|;
      } else {
        x, y := RootBinding(c, NextLevel(c, a), NextLevel(c, b));
      }
    }
  }

  function Height(count: nat): nat {
    if count <= 1 then 0 else 1 + Height((count + 1) / 2)
  }

  lemma MarkOfLastPair(front: seq<Bytes>, leaf: Bytes)
    requires Digests(front) && |leaf| == HASH_BYTES
    ensures Transparent().sha256(LastPair(front, leaf))[0] == (leaf[0] as nat + 1) % 256
  {
    hide Transparent;
    var x := LastPair(front, leaf);
    assert |x| == 2 * HASH_BYTES && x[HASH_BYTES] == leaf[0];
    TransparentHash(x);
  }

  lemma SumModulo(a: nat, b: nat)
    ensures ((a + 1) % 256 + b) % 256 == (a + (1 + b)) % 256
  {
  }

  // One level up, the last node's first byte is one more.
  lemma SpineStep(level: seq<Bytes>)
    requires Digests(level) && 1 < |level|
    ensures var next := NextLevel(Transparent(), level);
            && Digests(next) && next != []
            && next[|next| - 1][0] == (level[|level| - 1][0] as nat + 1) % 256
            && RootOf(Transparent(), level) == RootOf(Transparent(), next)
  {
    hide Transparent;
    hide Ideal;
    hide RootOf;
    hide NextLevel;
    hide Paired;
    hide LastPair;
    var c, n := Transparent(), |level| - 1;
    assert level == level[..n] + [level[n]];
    TransparentIsIdeal();
    NextLevelDigests(c, level);
    RootStep(c, level);
    LastNode(c, level[..n], level[n]);
    MarkOfLastPair(level[..n], level[n]);
  }

  // The hash that hides nothing carries the last leaf's first byte to the root, one more per level.
  lemma {:induction false} RightSpine(level: seq<Bytes>)
    requires Digests(level) && level != []
    ensures |RootOf(Transparent(), level)| == HASH_BYTES
    ensures RootOf(Transparent(), level)[0] == (level[|level| - 1][0] as nat + Height(|level|)) % 256
    decreases |level|
  {
    hide Transparent;
    hide RootOf;
    hide NextLevel;
    if |level| == 1 {
      SingleLeaf(Transparent(), [], level[0]);
      assert [] + [level[0]] == level;
    } else {
      SpineStep(level);
      RightSpine(NextLevel(Transparent(), level));
      SumModulo(level[|level| - 1][0], Height((|level| + 1) / 2));
    }
  }

  /** It tells an empty last leaf from the digest in its place, at every number of leaves. */
  lemma EmptyLeafShows(front: seq<Bytes>, digest: Bytes)
    requires Digests(front) && |digest| == HASH_BYTES && digest[0] == 0
    ensures RootOf(Transparent(), front + [[]]) != RootOf(Transparent(), front + [digest])
  {
    hide Transparent;
    hide Ideal;
    hide RootOf;
    hide NextLevel;
    hide Paired;
    var c, a, b := Transparent(), front + [[]], front + [digest];
    RightSpine(b);
    if front == [] {
      SingleLeaf(c, front, []);
    } else {
      TransparentIsIdeal();
      NextLevelDigests(c, a);
      RootStep(c, a);
      LastNode(c, front, []);
      TransparentHash(LastPair(front, []));
      RightSpine(NextLevel(c, a));
    }
  }

  // Equal lengths are needed: repeating the last of three blocks keeps the root.
  lemma LengthMatters(c: Crypto, p: Bytes, q: Bytes, r: Bytes)
    ensures RootOf(c, HashBlocks(c, [p, q, r])) == RootOf(c, HashBlocks(c, [p, q, r, r]))
  {
    var three, four := HashBlocks(c, [p, q, r]), HashBlocks(c, [p, q, r, r]);
    RootStep(c, three);
    RootStep(c, four);
    assert three[2..] == [c.sha256(r)] && four[2..] == [c.sha256(r), c.sha256(r)];
    assert NextLevel(c, four[2..]) == [c.sha256(c.sha256(r) + c.sha256(r))];
    assert NextLevel(c, three) == NextLevel(c, four);
  }
}
