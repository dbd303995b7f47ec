/** Merkle inclusion (`src/relations/merkle.rs`): the level reduction instantiated with the
    domain-separated SHAKE256 node hash, its prover and its two verifiers. */
module Merkle {
  import opened Bytes
  import opened Domain
  import opened Shake256
  import opened Reduction
  import opened Wrappers

  const ZERO_HASH: Hash32 := ZeroBytes(32)

  datatype Statement = Statement(root: Hash32, leaf: Hash32)
  datatype Witness = Witness(leaves: seq<ByteString>, index: nat)
  datatype Proof = Proof(siblings: seq<Hash32>, index: nat, leafCount: nat)

  function LeafInput(data: ByteString): ByteString {
    MERKLE_LEAF + data
  }

  function NodeInput(left: Hash32, right: Hash32): ByteString {
    MERKLE_NODE + left + right
  }

  function LeafHash(h: Xof, data: ByteString): Hash32 {
    Digest(h, LeafInput(data), HASH)
  }

  function NodeDigest(h: Xof, left: Hash32, right: Hash32): Hash32 {
    Digest(h, NodeInput(left, right), HASH)
  }

  /** The node hash as a combining function. */
  function NodeHash(h: Xof): (Hash32, Hash32) -> Hash32 {
    (left: Hash32, right: Hash32) => NodeDigest(h, left, right)
  }

  /** The only string with the tag in its first 24 bytes and the data after them. */
  lemma LeafString(data: ByteString, s: ByteString)
    ensures |s| >= 24 && s[..24] == MERKLE_LEAF && s[24..] == data <==> s == LeafInput(data)
  {
    LeafTagLength();
    hide MERKLE_LEAF;
    assert LeafInput(data)[..24] == MERKLE_LEAF && LeafInput(data)[24..] == data;
    if |s| >= 24 {
      assert s == s[..24] + s[24..];
    }
  }

  lemma LeafTagLength()
    ensures |MERKLE_LEAF| == 24
  {}

  lemma NodeTagLength()
    ensures |MERKLE_NODE| == 24
  {}

  /** The only 88-byte string with the tag, the left and the right child at bytes 0, 24 and 56. */
  lemma NodeString(left: Hash32, right: Hash32, s: ByteString)
    ensures |s| == 88 && s[..24] == MERKLE_NODE && s[24..56] == left && s[56..] == right <==>
            s == NodeInput(left, right)
  {
    NodeTagLength();
    hide MERKLE_NODE;
    var n := NodeInput(left, right);
    assert |n| == 88 && n[..24] == MERKLE_NODE && n[24..56] == left && n[56..] == right;
    if |s| == 88 {
      assert s == s[..24] + s[24..56] + s[56..];
    }
  }

  /** d is the first 32 bytes of the hash of any string with the tag at byte 0 and the data at byte 24. */
  ghost predicate HashesLeaf(h: Xof, data: ByteString, d: Hash32) {
    forall s :: |s| >= 24 && s[..24] == MERKLE_LEAF && s[24..] == data ==> d == h(s)[..32]
  }

  /** d is the first 32 bytes of the hash of any 88-byte string with the tag, left and right at bytes 0, 24, 56. */
  ghost predicate HashesNode(h: Xof, left: Hash32, right: Hash32, d: Hash32) {
    forall s :: |s| == 88 && s[..24] == MERKLE_NODE && s[24..56] == left && s[56..] == right ==> d == h(s)[..32]
  }

  /** `leaf_hash`: the first 32 bytes of the hash of the tag and the data. */
  method HashLeaf(h: Xof, data: ByteString) returns (d: Hash32)
    ensures d == LeafHash(h, data)
    ensures HashesLeaf(h, data, d)
  {
    hide MERKLE_LEAF, Digest;
    d := HashParts(h, [MERKLE_LEAF, data], HASH);
    ConcatTwo(MERKLE_LEAF, data);
    forall s | |s| >= 24 && s[..24] == MERKLE_LEAF && s[24..] == data
      ensures d == h(s)[..32]
    {
      LeafString(data, s);
    }
  }

  /** `node_hash`: the first 32 bytes of the hash of the tag, the left and the right child. */
  method HashNode(h: Xof, left: Hash32, right: Hash32) returns (d: Hash32)
    ensures d == NodeHash(h)(left, right)
    ensures HashesNode(h, left, right, d)
  {
    hide MERKLE_NODE, Digest;
    d := HashParts(h, [MERKLE_NODE, left, right], HASH);
    ConcatThree(MERKLE_NODE, left, right);
    forall s | |s| == 88 && s[..24] == MERKLE_NODE && s[24..56] == left && s[56..] == right
      ensures d == h(s)[..32]
    {
      NodeString(left, right, s);
    }
  }

  /** The leaf and node hashes, by the positions of the hashed bytes. */
  lemma HashPositions(h: Xof, data: ByteString, left: Hash32, right: Hash32)
    ensures HashesLeaf(h, data, LeafHash(h, data)) && HashesNode(h, left, right, NodeHash(h)(left, right))
  {
    hide MERKLE_LEAF, MERKLE_NODE, Digest;
    forall s | |s| >= 24 && s[..24] == MERKLE_LEAF && s[24..] == data
      ensures LeafHash(h, data) == h(s)[..32]
    {
      LeafString(data, s);
      DigestPrefix(h, s, 32);
    }
    forall s | |s| == 88 && s[..24] == MERKLE_NODE && s[24..56] == left && s[56..] == right
      ensures NodeHash(h)(left, right) == h(s)[..32]
    {
      NodeString(left, right, s);
      DigestPrefix(h, s, 32);
    }
  }

  function BaseLevel(h: Xof, leaves: seq<ByteString>): (level: seq<Hash32>)
    ensures |level| == |leaves|
  {
    seq(|leaves|, i requires 0 <= i < |leaves| => LeafHash(h, leaves[i]))
  }

  /** The Merkle root of a nonempty leaf list: its tree head in the sense of RFC 6962. */
  function Root(h: Xof, leaves: seq<ByteString>): Hash32
    requires leaves != []
  {
    TreeHead(NodeHash(h), BaseLevel(h, leaves))
  }

  function Path(h: Xof, leaves: seq<ByteString>, index: nat): seq<Hash32>
    requires index < |leaves|
  {
    AuditPath(NodeHash(h), BaseLevel(h, leaves), index)
  }

  // ----- the prover's loops -----------------------------------------------------------------------

  method HashLeaves(h: Xof, leaves: seq<ByteString>) returns (level: seq<Hash32>)
    ensures level == BaseLevel(h, leaves)
  {
    hide LeafHash, HashesLeaf;
    level := [];
    for i := 0 to |leaves|
      invariant level == BaseLevel(h, leaves)[..i]
    {
      var d := HashLeaf(h, leaves[i]);
      level := level + [d];
    }
  }

  method BuildNextLevel(h: Xof, level: seq<Hash32>) returns (next: seq<Hash32>)
    ensures next == NextLevel(NodeHash(h), level)
  {
    hide NextLevel, NodeHash, HashesNode;
    next := [];
    var i, n := 0, |level|;
    NextLevelEnds(NodeHash(h), level);
    while i < n
      invariant 0 <= i <= n + 1
      invariant next + NextLevel(NodeHash(h), From(level, i)) == NextLevel(NodeHash(h), level)
    {
      NextLevelStep(NodeHash(h), level, i);
      var node := level[i];
      if i + 1 < n {
        node := HashNode(h, level[i], level[i + 1]);
      }
      next := next + [node];
      i := i + 2;
    }
  }

  /** The branches that record the sibling of one level. */
  method RecordSibling(level: seq<Hash32>, idx: nat) returns (s: seq<Hash32>)
    requires idx < |level|
    ensures s == Sibling(level, idx)
  {
    var n := |level|;
    if idx == n - 1 && n % 2 == 1 {
      s := [];
    } else if idx % 2 == 0 {
      s := [level[idx + 1]];
    } else {
      s := [level[idx - 1]];
    }
  }

  /** The bottom-up reduction computes the tree head and the audit path of RFC 6962. */
  method RootAndPath(h: Xof, level0: seq<Hash32>, idx0: nat) returns (root: Hash32, path: seq<Hash32>)
    requires level0 != [] ==> idx0 < |level0|
    ensures level0 == [] ==> root == ZERO_HASH && path == []
    ensures level0 != [] ==> root == TreeHead(NodeHash(h), level0) && path == AuditPath(NodeHash(h), level0, idx0)
  {
    hide TreeHead, AuditPath, NextLevel, Sibling, NodeHash, Reduced;
    ghost var f := NodeHash(h);
    var level := level0;
    var idx: nat := idx0;
    path := [];
    ReducedStart(f, level0, idx0);
    while |level| > 1
      invariant Reduced(f, level0, idx0, level, idx, path)
      decreases |level|
    {
      ReducedStep(f, level0, idx0, level, idx, path);
      var siblings := RecordSibling(level, idx);
      path := path + siblings;
      level := BuildNextLevel(h, level);
      idx := idx / 2;
    }
    ReducedEnd(f, level0, idx0, level, idx, path);
    if level == [] {
      root := ZERO_HASH;
    } else {
      root := level[0];
    }
  }

  // ----- the prover -----------------------------------------------------------------------------

  method StatementFromWitness(h: Xof, w: Witness) returns (s: Statement)
    ensures w.index < |w.leaves| ==> s == Statement(Root(h, w.leaves), LeafHash(h, w.leaves[w.index]))
    ensures w.index >= |w.leaves| ==> s == Statement(ZERO_HASH, ZERO_HASH)
  {
    hide LeafHash, NodeHash, TreeHead, AuditPath;
    var base := HashLeaves(h, w.leaves);
    if base == [] || w.index >= |base| {
      return Statement(ZERO_HASH, ZERO_HASH);
    }
    var leaf := base[w.index];
    var root, _ := RootAndPath(h, base, w.index);
    return Statement(root, leaf);
  }

  method Prove(h: Xof, w: Witness) returns (r: Result<(Statement, Proof)>)
    ensures r.Err? <==> w.index >= |w.leaves|
    ensures r.Ok? ==>
      r.value == (Statement(Root(h, w.leaves), LeafHash(h, w.leaves[w.index])),
                  Proof(Path(h, w.leaves, w.index), w.index, |w.leaves|))
  {
    hide LeafHash, NodeHash, TreeHead, AuditPath;
    var base := HashLeaves(h, w.leaves);
    if base == [] || w.index >= |base| {
      return Err;
    }
    var leaf, leafCount := base[w.index], |base|;
    var root, siblings := RootAndPath(h, base, w.index);
    return Ok((Statement(root, leaf), Proof(siblings, w.index, leafCount)));
  }

  method MerkleRoot(h: Xof, leaves: seq<ByteString>) returns (r: Result<Hash32>)
    ensures r == if leaves == [] then Err else Ok(Root(h, leaves))
  {
    hide NodeHash, BaseLevel, TreeHead, AuditPath;
    if leaves == [] {
      return Err;
    }
    var base := HashLeaves(h, leaves);
    var root, _ := RootAndPath(h, base, 0);
    return Ok(root);
  }

  // ----- the verifiers -----------------------------------------------------------------------------

  predicate Accepts(h: Xof, leaf: Hash32, root: Hash32, index: nat, siblings: seq<Hash32>, leafCount: nat) {
    index < leafCount && Replay(NodeHash(h), leaf, index, leafCount, siblings) == Some(root)
  }

  /** The verifier of the relation. */
  method Verify(h: Xof, stmt: Statement, proof: Proof) returns (accepted: bool)
    ensures accepted <==> Accepts(h, stmt.leaf, stmt.root, proof.index, proof.siblings, proof.leafCount)
  {
    hide NodeHash, Replay, HashesNode;
    if proof.leafCount == 0 || proof.index >= proof.leafCount {
      return false;
    }
    var hash, used, ok := stmt.leaf, 0, true;
    var idx: nat, n: nat := proof.index, proof.leafCount;
    assert proof.siblings[0..] == proof.siblings;
    ghost var goal := Replay(NodeHash(h), stmt.leaf, proof.index, proof.leafCount, proof.siblings);
    while n > 1
      invariant used <= |proof.siblings| && ok
      invariant goal == Replay(NodeHash(h), hash, idx, n, proof.siblings[used..])
      decreases n
    {
      ReplayUnfold(NodeHash(h), hash, idx, n, proof.siblings[used..]);
      if idx == n - 1 && n % 2 == 1 {
      } else if used < |proof.siblings| {
        var sib := proof.siblings[used];
        assert proof.siblings[used..][1..] == proof.siblings[used + 1..];
        used := used + 1;
        if idx % 2 == 0 {
          hash := HashNode(h, hash, sib);
        } else {
          hash := HashNode(h, sib, hash);
        }
      } else {
        ok := false;
        break;
      }
      idx := idx / 2;
      n := (n + 1) / 2;
    }
    ReplayUnfold(NodeHash(h), hash, idx, n, proof.siblings[used..]);
    if used != |proof.siblings| {
      ok := false;
    }
    return ok && hash == stmt.root;
  }

  /** The standalone verifier: the same acceptance condition, so it agrees with Verify on every input. */
  method MerkleVerifyPath(h: Xof, leaf: Hash32, root: Hash32, index: nat, siblings: seq<Hash32>, leafCount: nat)
    returns (accepted: bool)
    ensures accepted <==> Accepts(h, leaf, root, index, siblings, leafCount)
  {
    hide NodeHash, Replay, HashesNode;
    if leafCount == 0 || index >= leafCount {
      return false;
    }
    var hash, used, ok := leaf, 0, true;
    var idx: nat, n: nat := index, leafCount;
    assert siblings[0..] == siblings;
    ghost var goal := Replay(NodeHash(h), leaf, index, leafCount, siblings);
    while n > 1
      invariant used <= |siblings| && ok
      invariant goal == Replay(NodeHash(h), hash, idx, n, siblings[used..])
      decreases n
    {
      ReplayUnfold(NodeHash(h), hash, idx, n, siblings[used..]);
      if idx == n - 1 && n % 2 == 1 {
      } else if used < |siblings| {
        var sib := siblings[used];
        assert siblings[used..][1..] == siblings[used + 1..];
        used := used + 1;
        if idx % 2 == 0 {
          hash := HashNode(h, hash, sib);
        } else {
          hash := HashNode(h, sib, hash);
        }
      } else {
        ok := false;
        break;
      }
      idx := idx / 2;
      n := (n + 1) / 2;
    }
    ReplayUnfold(NodeHash(h), hash, idx, n, siblings[used..]);
    if used != |siblings| {
      ok := false;
    }
    return ok && hash == root;
  }

  // ----- completeness and opening soundness -----------------------------------------------------------

  /** Every honest proof is accepted, against the same root for every position. */
  lemma Completeness(h: Xof, leaves: seq<ByteString>, index: nat)
    requires index < |leaves|
    ensures Accepts(h, LeafHash(h, leaves[index]), Root(h, leaves), index, Path(h, leaves, index), |leaves|)
  {
    hide NodeHash, LeafHash, Replay, TreeHead, AuditPath;
    ReplayHonest(NodeHash(h), BaseLevel(h, leaves), index);
  }

  /** Why the honest count matters for raw hashes: under another count, the hash of an inner node is accepted
      at a position where the tree has a leaf. */
  lemma OtherCountOpensInnerNode(h: Xof, a: ByteString, b: ByteString, c: ByteString)
    ensures Accepts(h, NodeDigest(h, LeafHash(h, a), LeafHash(h, b)), Root(h, [a, b, c]), 0, [LeafHash(h, c)], 2)
  {
    hide LeafHash, NodeDigest, Replay, TreeHead;
    var x, y, z := LeafHash(h, a), LeafHash(h, b), LeafHash(h, c);
    assert BaseLevel(h, [a, b, c]) == [x, y, z];
    OtherCountReplays(NodeHash(h), x, y, z);
  }

  /** The roots of two and three leaves, written out: the third leaf is promoted. */
  lemma SmallRoots(h: Xof, a: ByteString, b: ByteString, c: ByteString)
    ensures var f := NodeHash(h); var x, y, z := LeafHash(h, a), LeafHash(h, b), LeafHash(h, c);
      Root(h, [a]) == x && Root(h, [a, b]) == f(x, y) && Root(h, [a, b, c]) == f(f(x, y), z)
  {
    hide LeafHash, NodeHash, TreeHead;
    var f := NodeHash(h);
    var x, y, z := LeafHash(h, a), LeafHash(h, b), LeafHash(h, c);
    assert BaseLevel(h, [a]) == [x] && BaseLevel(h, [a, b]) == [x, y] && BaseLevel(h, [a, b, c]) == [x, y, z];
    Single(f, [x]);
    Single(f, [f(x, y)]);
    TreeHeadStep(f, [x, y]);
    NextLevelSmall(f, [x, y]);
    OtherCountReplays(f, x, y, z);
    ReplayUnfold(f, f(x, y), 0, 2, [z]);
    assert [z][1..] == [];
    ReplayUnfold(f, f(f(x, y), z), 0, 1, []);
  }

  lemma NodeInputInjective(l: Hash32, r: Hash32, l': Hash32, r': Hash32)
    requires NodeInput(l, r) == NodeInput(l', r')
    ensures l == l' && r == r'
  {
    var n := |MERKLE_NODE|;
    assert l == NodeInput(l, r)[n..n + HASH] && l' == NodeInput(l', r')[n..n + HASH];
    assert r == NodeInput(l, r)[n + HASH..] && r' == NodeInput(l', r')[n + HASH..];
  }

  /** The hashed strings of a clash of the node hash. */
  function ClashStrings(c: Clash<Hash32>): Pair {
    Pair(NodeInput(c.l, c.r), NodeInput(c.l', c.r'))
  }

  lemma ClashIsCollision(h: Xof, c: Clash<Hash32>)
    ensures Clashes(NodeHash(h), c) ==> Collision(h, ClashStrings(c).x, ClashStrings(c).y, HASH)
  {
    hide Digest, NodeInput;
    if NodeInput(c.l, c.r) == NodeInput(c.l', c.r') {
      NodeInputInjective(c.l, c.r, c.l', c.r');
    }
  }

  /** The strings hashed where two openings of one position part. */
  function OpeningsCollision(h: Xof, a: Hash32, sa: seq<Hash32>, b: Hash32, sb: seq<Hash32>, index: nat, n: nat): Pair {
    ClashStrings(OpeningsClash(NodeHash(h), a, sa, b, sb, index, n))
  }

  /** Two accepted openings of one position under one root, however that root was made, are the same opening or
      exhibit two node strings with the same hash. */
  lemma PositionBinding(h: Xof, root: Hash32, index: nat, n: nat,
                        a: Hash32, sa: seq<Hash32>, b: Hash32, sb: seq<Hash32>)
    ensures Accepts(h, a, root, index, sa, n) && Accepts(h, b, root, index, sb, n) ==>
      (a == b && sa == sb)
      || var c := OpeningsCollision(h, a, sa, b, sb, index, n); Collision(h, c.x, c.y, HASH)
  {
    hide NodeHash, OpeningsClash, Clashes, Replay, ClashStrings, Collision;
    if Accepts(h, a, root, index, sa, n) && Accepts(h, b, root, index, sb, n) {
      ReplayBinding(NodeHash(h), a, sa, b, sb, index, n);
      ClashIsCollision(h, OpeningsClash(NodeHash(h), a, sa, b, sb, index, n));
    }
  }

  /** Against the honest root, an accepted opening is the honest leaf hash with the honest path,
      or the replay exhibits two node strings with the same hash. */
  lemma OpeningSoundness(h: Xof, leaves: seq<ByteString>, index: nat, leaf: Hash32, siblings: seq<Hash32>)
    requires index < |leaves|
    ensures Accepts(h, leaf, Root(h, leaves), index, siblings, |leaves|) ==>
      (leaf == LeafHash(h, leaves[index]) && siblings == Path(h, leaves, index))
      || var c := OpeningsCollision(h, leaf, siblings, LeafHash(h, leaves[index]), Path(h, leaves, index),
                                    index, |leaves|);
         Collision(h, c.x, c.y, HASH)
  {
    hide LeafHash, Root, Path, OpeningsCollision, Collision, Accepts;
    Completeness(h, leaves, index);
    PositionBinding(h, Root(h, leaves), index, |leaves|, leaf, siblings,
                    LeafHash(h, leaves[index]), Path(h, leaves, index));
  }

  // ----- list binding -------------------------------------------------------------------------------------

  datatype Tree = Leaf(data: ByteString) | Node(left: Tree, right: Tree)

  function TreeOf(leaves: seq<ByteString>): Tree
    requires leaves != []
  {
    if |leaves| == 1 then Leaf(leaves[0])
    else
      var k := SplitPoint(|leaves|);
      Node(TreeOf(leaves[..k]), TreeOf(leaves[k..]))
  }

  function Flatten(t: Tree): seq<ByteString> {
    match t
    case Leaf(d) => [d]
    case Node(l, r) => Flatten(l) + Flatten(r)
  }

  /** The string hashed at the root of a tree. */
  function RootInput(h: Xof, t: Tree): ByteString
    decreases t, 0
  {
    match t
    case Leaf(d) => LeafInput(d)
    case Node(l, r) => NodeInput(TreeHash(h, l), TreeHash(h, r))
  }

  function TreeHash(h: Xof, t: Tree): Hash32
    decreases t, 1
  {
    Digest(h, RootInput(h, t), HASH)
  }

  lemma {:induction false} FlattenTreeOf(leaves: seq<ByteString>)
    requires leaves != []
    ensures Flatten(TreeOf(leaves)) == leaves
  {
    hide SplitPoint;
    if |leaves| > 1 {
      var k := SplitPoint(|leaves|);
      FlattenTreeOf(leaves[..k]);
      FlattenTreeOf(leaves[k..]);
      TakeDrop(leaves, k);
    }
  }

  lemma TakeDrop<T>(s: seq<T>, k: nat)
    requires k <= |s|
    ensures s[..k] + s[k..] == s
  {}

  lemma {:induction false} TreeHashIsRoot(h: Xof, leaves: seq<ByteString>)
    requires leaves != []
    ensures TreeHash(h, TreeOf(leaves)) == Root(h, leaves)
  {
    hide BaseLevel, NodeHash, LeafHash, TreeHash, TreeHead;
    if |leaves| > 1 {
      var k := SplitPoint(|leaves|);
      BaseLevelSplit(h, leaves, k);
      TreeHashIsRoot(h, leaves[..k]);
      TreeHashIsRoot(h, leaves[k..]);
      TreeHeadUnfold(NodeHash(h), BaseLevel(h, leaves));
      TreeHashNode(h, TreeOf(leaves[..k]), TreeOf(leaves[k..]));
    } else {
      BaseLevelSplit(h, leaves, 0);
      Single(NodeHash(h), BaseLevel(h, leaves));
      TreeHashLeaf(h, leaves[0]);
    }
  }

  lemma BaseLevelSplit(h: Xof, leaves: seq<ByteString>, k: nat)
    requires k <= |leaves|
    ensures BaseLevel(h, leaves)[..k] == BaseLevel(h, leaves[..k])
    ensures BaseLevel(h, leaves)[k..] == BaseLevel(h, leaves[k..])
    ensures |leaves| == 1 ==> BaseLevel(h, leaves)[0] == LeafHash(h, leaves[0])
  {
    hide LeafHash;
  }

  lemma TreeHashNode(h: Xof, l: Tree, r: Tree)
    ensures TreeHash(h, Node(l, r)) == NodeHash(h)(TreeHash(h, l), TreeHash(h, r))
  {
    hide Digest, NodeInput;
  }

  lemma TreeHashLeaf(h: Xof, d: ByteString)
    ensures TreeHash(h, Leaf(d)) == LeafHash(h, d)
  {
    hide Digest, LeafInput;
  }

  /** Walks two trees with equal hashes to the first place where the hashed strings differ. */
  function TreeCollision(h: Xof, s: Tree, t: Tree): Pair {
    if RootInput(h, s) != RootInput(h, t) || s.Leaf? || t.Leaf? then Pair(RootInput(h, s), RootInput(h, t))
    else if s.left != t.left then TreeCollision(h, s.left, t.left)
    else TreeCollision(h, s.right, t.right)
  }

  /** Leaf and node strings are separated by their tags. */
  lemma TagsSeparate(d: ByteString, l: Hash32, r: Hash32)
    ensures LeafInput(d) != NodeInput(l, r)
  {
    assert LeafInput(d)[17] == MERKLE_LEAF[17] == 108;
    assert NodeInput(l, r)[17] == MERKLE_NODE[17] == 110;
  }

  lemma LeafInputInjective(d: ByteString, d': ByteString)
    requires LeafInput(d) == LeafInput(d')
    ensures d == d'
  {
    assert d == LeafInput(d)[|MERKLE_LEAF|..] && d' == LeafInput(d')[|MERKLE_LEAF|..];
  }

  lemma {:induction false} TreeBinding(h: Xof, s: Tree, t: Tree)
    ensures s != t && TreeHash(h, s) == TreeHash(h, t) ==>
      var c := TreeCollision(h, s, t); Collision(h, c.x, c.y, HASH)
  {
    hide Digest, LeafInput, NodeInput;
    match (s, t)
    case (Leaf(d), Leaf(d')) =>
      if RootInput(h, s) == RootInput(h, t) {
        LeafInputInjective(d, d');
      }
    case (Leaf(d), Node(l, r)) => TagsSeparate(d, TreeHash(h, l), TreeHash(h, r));
    case (Node(l, r), Leaf(d)) => TagsSeparate(d, TreeHash(h, l), TreeHash(h, r));
    case (Node(l, r), Node(l', r')) =>
      if RootInput(h, s) == RootInput(h, t) {
        NodeInputInjective(TreeHash(h, l), TreeHash(h, r), TreeHash(h, l'), TreeHash(h, r'));
        if l != l' {
          TreeBinding(h, l, l');
        } else {
          TreeBinding(h, r, r');
        }
      }
  }

  /** Two different nonempty leaf lists, of any lengths, with the same root yield an explicit collision. */
  lemma ListBinding(h: Xof, a: seq<ByteString>, b: seq<ByteString>)
    requires a != [] && b != []
    ensures a != b && Root(h, a) == Root(h, b) ==>
      var c := TreeCollision(h, TreeOf(a), TreeOf(b)); Collision(h, c.x, c.y, HASH)
  {
    hide TreeCollision, Root, TreeHash, TreeOf, Collision;
    FlattenTreeOf(a);
    FlattenTreeOf(b);
    TreeHashIsRoot(h, a);
    TreeHashIsRoot(h, b);
    TreeBinding(h, TreeOf(a), TreeOf(b));
  }

  // ----- openings of any hash under any claimed position and count ---------------------------------------------

  /** The subtree that the sides lead to from the root; None if they lead below a leaf. */
  function Descend(t: Tree, sides: seq<bool>): Option<Tree>
    decreases |sides|
  {
    if |sides| == 0 then Some(t)
    else if t.Leaf? then None
    else Descend(if sides[|sides| - 1] then t.left else t.right, sides[..|sides| - 1])
  }

  /** The hashes of the subtrees beside that way, bottom-up. */
  function SiblingHashes(h: Xof, t: Tree, sides: seq<bool>): (s: seq<Hash32>)
    requires Descend(t, sides).Some?
    ensures |s| == |sides|
    decreases |sides|
  {
    if |sides| == 0 then []
    else
      var below, onRight := sides[..|sides| - 1], sides[|sides| - 1];
      if onRight then SiblingHashes(h, t.left, below) + [TreeHash(h, t.right)]
      else SiblingHashes(h, t.right, below) + [TreeHash(h, t.left)]
  }

  /** One more side at the top. */
  lemma DescendNode(l: Tree, r: Tree, below: seq<bool>, onRight: bool)
    ensures Descend(Node(l, r), below + [onRight]) == Descend(if onRight then l else r, below)
  {
    assert (below + [onRight])[..|below|] == below;
  }

  lemma SiblingHashesNode(h: Xof, l: Tree, r: Tree, below: seq<bool>, onRight: bool)
    requires Descend(if onRight then l else r, below).Some?
    ensures Descend(Node(l, r), below + [onRight]).Some?
    ensures SiblingHashes(h, Node(l, r), below + [onRight]) ==
            SiblingHashes(h, if onRight then l else r, below) + [TreeHash(h, if onRight then r else l)]
  {
    hide TreeHash;
    assert (below + [onRight])[..|below|] == below;
  }

  lemma TreeOfNode(leaves: seq<ByteString>)
    requires |leaves| >= 2
    ensures var k := SplitPoint(|leaves|); TreeOf(leaves) == Node(TreeOf(leaves[..k]), TreeOf(leaves[k..]))
  {
    hide SplitPoint;
  }

  lemma TreeOfOne(leaves: seq<ByteString>)
    requires |leaves| == 1
    ensures TreeOf(leaves) == Leaf(leaves[0])
  {}

  lemma {:induction false} ClimbFromSubtree(h: Xof, t: Tree, sides: seq<bool>)
    requires Descend(t, sides).Some?
    ensures Climb(NodeHash(h), TreeHash(h, Descend(t, sides).value), SiblingHashes(h, t, sides), sides) ==
            TreeHash(h, t)
    decreases |sides|
  {
    hide NodeHash, TreeHash;
    if |sides| > 0 {
      var below, onRight := sides[..|sides| - 1], sides[|sides| - 1];
      var child := if onRight then t.left else t.right;
      ClimbFromSubtree(h, child, below);
      TreeHashNode(h, t.left, t.right);
      assert SiblingHashes(h, t, sides)[..|below|] == SiblingHashes(h, child, below);
    }
  }

  /** The string hashed by a join. */
  function JoinInput(node: Hash32, sibling: Hash32, onRight: bool): ByteString {
    if onRight then NodeInput(node, sibling) else NodeInput(sibling, node)
  }

  /** Descends the honest tree along an opening, from the root, to where the hashed strings part. */
  function RawPair(h: Xof, x: Hash32, siblings: seq<Hash32>, sides: seq<bool>, t: Tree): Pair
    requires |siblings| == |sides|
    decreases |sides|
  {
    if |sides| == 0 then Pair([], [])
    else
      var k := |sides| - 1;
      var input := JoinInput(Climb(NodeHash(h), x, siblings[..k], sides[..k]), siblings[k], sides[k]);
      if input != RootInput(h, t) || t.Leaf? then Pair(input, RootInput(h, t))
      else RawPair(h, x, siblings[..k], sides[..k], if sides[k] then t.left else t.right)
  }

  lemma CombineIsDigest(h: Xof, node: Hash32, sibling: Hash32, onRight: bool)
    ensures Combine(NodeHash(h), node, sibling, onRight) == Digest(h, JoinInput(node, sibling, onRight), HASH)
  {
    hide Digest, NodeInput;
  }

  lemma JoinInputTagged(d: ByteString, node: Hash32, sibling: Hash32, onRight: bool)
    ensures LeafInput(d) != JoinInput(node, sibling, onRight)
  {
    hide LeafInput, NodeInput;
    TagsSeparate(d, node, sibling);
    TagsSeparate(d, sibling, node);
  }

  lemma JoinInputChild(h: Xof, node: Hash32, sibling: Hash32, onRight: bool, l: Tree, r: Tree)
    ensures JoinInput(node, sibling, onRight) == NodeInput(TreeHash(h, l), TreeHash(h, r)) ==>
      node == TreeHash(h, if onRight then l else r) && sibling == TreeHash(h, if onRight then r else l)
  {
    hide NodeInput, TreeHash;
    if JoinInput(node, sibling, onRight) == NodeInput(TreeHash(h, l), TreeHash(h, r)) {
      if onRight {
        NodeInputInjective(node, sibling, TreeHash(h, l), TreeHash(h, r));
      } else {
        NodeInputInjective(sibling, node, TreeHash(h, l), TreeHash(h, r));
      }
    }
  }

  /** The opening shows the subtree that the sides lead to, with the honest siblings. */
  predicate ShowsSubtree(h: Xof, x: Hash32, siblings: seq<Hash32>, sides: seq<bool>, t: Tree) {
    && Descend(t, sides).Some?
    && x == TreeHash(h, Descend(t, sides).value) && siblings == SiblingHashes(h, t, sides)
  }

  lemma ShowsNone(h: Xof, x: Hash32, t: Tree)
    ensures x == TreeHash(h, t) ==> ShowsSubtree(h, x, [], [], t)
  {
    hide TreeHash;
  }

  lemma ShowsAbove(h: Xof, x: Hash32, siblings: seq<Hash32>, sides: seq<bool>, t: Tree)
    requires t.Node? && |siblings| == |sides| > 0
    requires var k := |sides| - 1;
      && siblings[k] == TreeHash(h, if sides[k] then t.right else t.left)
      && ShowsSubtree(h, x, siblings[..k], sides[..k], if sides[k] then t.left else t.right)
    ensures ShowsSubtree(h, x, siblings, sides, t)
  {
    hide TreeHash, Descend, SiblingHashes;
    var k := |sides| - 1;
    assert sides == sides[..k] + [sides[k]] && siblings == siblings[..k] + [siblings[k]];
    DescendNode(t.left, t.right, sides[..k], sides[k]);
    SiblingHashesNode(h, t.left, t.right, sides[..k], sides[k]);
  }

  lemma {:induction false} ClimbToSubtree(h: Xof, x: Hash32, siblings: seq<Hash32>, sides: seq<bool>, t: Tree)
    requires |siblings| == |sides|
    ensures Climb(NodeHash(h), x, siblings, sides) == TreeHash(h, t) ==>
      ShowsSubtree(h, x, siblings, sides, t)
      || var c := RawPair(h, x, siblings, sides, t); Collision(h, c.x, c.y, HASH)
    decreases |sides|
  {
    hide Digest, LeafInput, NodeInput, NodeHash, Combine, JoinInput, ShowsSubtree;
    if |sides| == 0 {
      ShowsNone(h, x, t);
    } else {
      var k := |sides| - 1;
      var node := Climb(NodeHash(h), x, siblings[..k], sides[..k]);
      CombineIsDigest(h, node, siblings[k], sides[k]);
      if JoinInput(node, siblings[k], sides[k]) == RootInput(h, t) {
        if t.Leaf? {
          JoinInputTagged(t.data, node, siblings[k], sides[k]);
        } else {
          JoinInputChild(h, node, siblings[k], sides[k], t.left, t.right);
          var child := if sides[k] then t.left else t.right;
          ClimbToSubtree(h, x, siblings[..k], sides[..k], child);
          if ShowsSubtree(h, x, siblings[..k], sides[..k], child) {
            ShowsAbove(h, x, siblings, sides, t);
          }
        }
      }
    }
  }

  lemma DescendEnds(t: Tree, sides: seq<bool>)
    ensures |sides| == 0 ==> Descend(t, sides) == Some(t)
    ensures |sides| > 0 && t.Leaf? ==> Descend(t, sides) == None
  {}

  lemma SubSlices<T>(s: seq<T>, k: nat, lo: nat, len: nat)
    requires k <= |s|
    ensures lo + len <= k ==> s[..k][lo..lo + len] == s[lo..lo + len]
    ensures k + lo + len <= |s| ==> s[k..][lo..lo + len] == s[k + lo..k + lo + len]
  {}

  /** The subtree that the sides lead to is the tree of the leaves at the positions they lead to. */
  lemma {:induction false} DescendLocates(leaves: seq<ByteString>, sides: seq<bool>)
    requires leaves != []
    ensures Descend(TreeOf(leaves), sides).Some? <==> Locate(|leaves|, sides).Some?
    ensures var at := Locate(|leaves|, sides);
      at.Some? ==> Descend(TreeOf(leaves), sides) == Some(TreeOf(At(leaves, at.value)))
    decreases |sides|
  {
    hide SplitPoint, TreeOf, Descend;
    if |sides| == 0 {
      assert leaves[0..|leaves|] == leaves;
      DescendEnds(TreeOf(leaves), sides);
    } else if |leaves| == 1 {
      TreeOfOne(leaves);
      DescendEnds(TreeOf(leaves), sides);
    } else {
      var k, below, onRight := SplitPoint(|leaves|), sides[..|sides| - 1], sides[|sides| - 1];
      assert sides == below + [onRight];
      TreeOfNode(leaves);
      DescendNode(TreeOf(leaves[..k]), TreeOf(leaves[k..]), below, onRight);
      var part := if onRight then leaves[..k] else leaves[k..];
      DescendLocates(part, below);
      var at := Locate(|part|, below);
      if at.Some? {
        SubSlices(leaves, k, at.value.lo, at.value.len);
      }
    }
  }

  /** The leaves at the positions of a span. */
  function At(leaves: seq<ByteString>, s: Span): (r: seq<ByteString>)
    requires s.lo + s.len <= |leaves|
    ensures |r| == s.len
  {
    leaves[s.lo..s.lo + s.len]
  }

  /** The honest siblings along the sides. */
  function Beside(h: Xof, leaves: seq<ByteString>, sides: seq<bool>): seq<Hash32>
    requires leaves != [] && Locate(|leaves|, sides).Some?
  {
    DescendLocates(leaves, sides);
    SiblingHashes(h, TreeOf(leaves), sides)
  }

  /** The strings hashed where an opening parts from the honest tree. */
  function RawCollision(h: Xof, leaves: seq<ByteString>, x: Hash32, index: nat, siblings: seq<Hash32>, count: nat): Pair
    requires leaves != []
  {
    var sides := Sides(index, count);
    if |siblings| != |sides| then Pair([], []) else RawPair(h, x, siblings, sides, TreeOf(leaves))
  }

  /** Whatever hash, position and count a proof claims: if it is accepted under the honest root, then the sides of
      the claimed position lead to a subtree of the honest tree, the hash is the hash of that subtree and the
      siblings are the honest ones, or the opening exhibits an explicit collision. */
  lemma RawOpeningSound(h: Xof, leaves: seq<ByteString>, x: Hash32, index: nat, siblings: seq<Hash32>, count: nat)
    requires leaves != []
    ensures Accepts(h, x, Root(h, leaves), index, siblings, count) ==>
      var sides := Sides(index, count);
      var at := Locate(|leaves|, sides);
      (at.Some? && x == Root(h, At(leaves, at.value)) && siblings == Beside(h, leaves, sides))
      || var c := RawCollision(h, leaves, x, index, siblings, count); Collision(h, c.x, c.y, HASH)
  {
    hide NodeHash, Root, Replay, Climb, TreeOf, TreeHash, RawPair, Collision, Descend, SiblingHashes, Locate, Sides;
    var sides := Sides(index, count);
    ReplayIsClimb(NodeHash(h), x, index, count, siblings);
    TreeHashIsRoot(h, leaves);
    if |siblings| == |sides| {
      ClimbToSubtree(h, x, siblings, sides, TreeOf(leaves));
      DescendLocates(leaves, sides);
      var at := Locate(|leaves|, sides);
      if at.Some? {
        TreeHashIsRoot(h, At(leaves, at.value));
      }
    }
  }

  /** Conversely the hash of every subtree that the sides of a position in range lead to is accepted. */
  lemma RawOpeningComplete(h: Xof, leaves: seq<ByteString>, index: nat, count: nat)
    requires leaves != [] && index < count
    ensures var sides := Sides(index, count);
      var at := Locate(|leaves|, sides);
      at.Some? ==>
        Accepts(h, Root(h, At(leaves, at.value)), Root(h, leaves), index, Beside(h, leaves, sides), count)
  {
    hide NodeHash, Root, Replay, Climb, TreeOf, TreeHash, Descend, SiblingHashes, Locate, Sides;
    var sides := Sides(index, count);
    var at := Locate(|leaves|, sides);
    if at.Some? {
      DescendLocates(leaves, sides);
      ClimbFromSubtree(h, TreeOf(leaves), sides);
      TreeHashIsRoot(h, leaves);
      TreeHashIsRoot(h, At(leaves, at.value));
      ReplayIsClimb(NodeHash(h), Root(h, At(leaves, at.value)), index, count, Beside(h, leaves, sides));
    }
  }

  lemma {:induction false} HonestRawPair(h: Xof, t: Tree, sides: seq<bool>)
    requires Descend(t, sides).Some?
    ensures RawPair(h, TreeHash(h, Descend(t, sides).value), SiblingHashes(h, t, sides), sides, t) == Pair([], [])
    decreases |sides|
  {
    hide NodeHash, TreeHash, Climb, NodeInput, Combine;
    if |sides| > 0 {
      var below, onRight := sides[..|sides| - 1], sides[|sides| - 1];
      var child := if onRight then t.left else t.right;
      HonestRawPair(h, child, below);
      ClimbFromSubtree(h, child, below);
      assert SiblingHashes(h, t, sides)[..|below|] == SiblingHashes(h, child, below);
    }
  }

  /** Every opening accepted at (index, count) is the leaf at `index`, up to explicit collisions. */
  ghost predicate OpensOnlyLeaf(h: Xof, leaves: seq<ByteString>, index: nat, count: nat)
    requires index < |leaves|
  {
    forall x, siblings :: Accepts(h, x, Root(h, leaves), index, siblings, count) ==>
                            x == LeafHash(h, leaves[index]) || CollidesRaw(h, leaves, x, index, siblings, count)
  }

  ghost predicate CollidesRaw(h: Xof, leaves: seq<ByteString>, x: Hash32, index: nat, siblings: seq<Hash32>, count: nat)
    requires leaves != []
  {
    var c := RawCollision(h, leaves, x, index, siblings, count); Collision(h, c.x, c.y, HASH)
  }

  lemma HonestRawCollision(h: Xof, leaves: seq<ByteString>, index: nat, count: nat)
    requires leaves != []
    ensures var sides := Sides(index, count);
      var at := Locate(|leaves|, sides);
      at.Some? ==>
        RawCollision(h, leaves, Root(h, At(leaves, at.value)), index, Beside(h, leaves, sides), count) == Pair([], [])
  {
    hide Root, TreeOf, TreeHash, RawPair, Descend, SiblingHashes, Locate, Sides, Digest;
    var sides := Sides(index, count);
    var at := Locate(|leaves|, sides);
    if at.Some? {
      DescendLocates(leaves, sides);
      HonestRawPair(h, TreeOf(leaves), sides);
      TreeHashIsRoot(h, At(leaves, at.value));
    }
  }

  lemma HonestDoesNotCollide(h: Xof, leaves: seq<ByteString>, index: nat, count: nat)
    requires leaves != []
    ensures var sides := Sides(index, count);
      var at := Locate(|leaves|, sides);
      at.Some? ==>
        !CollidesRaw(h, leaves, Root(h, At(leaves, at.value)), index, Beside(h, leaves, sides), count)
  {
    hide Root, Locate, Sides, RawCollision, Beside, Collision;
    HonestRawCollision(h, leaves, index, count);
    CollisionDiffers(h, Pair([], []));
  }

  lemma OnlyLeafIff(h: Xof, leaves: seq<ByteString>, index: nat, count: nat)
    requires index < |leaves| && index < count
    ensures var at := Locate(|leaves|, Sides(index, count));
      OpensOnlyLeaf(h, leaves, index, count) <==>
      at.None? || Root(h, At(leaves, at.value)) == LeafHash(h, leaves[index])
  {
    hide Root, LeafHash, Accepts, Locate, Sides, RawCollision, Beside, Collision;
    var sides := Sides(index, count);
    var at := Locate(|leaves|, sides);
    HonestDoesNotCollide(h, leaves, index, count);
    RawOpeningComplete(h, leaves, index, count);
    hide CollidesRaw;
    if at.None? || Root(h, At(leaves, at.value)) == LeafHash(h, leaves[index]) {
      forall x, siblings | Accepts(h, x, Root(h, leaves), index, siblings, count)
        ensures x == LeafHash(h, leaves[index]) || CollidesRaw(h, leaves, x, index, siblings, count)
      {
        RawOpeningSound(h, leaves, x, index, siblings, count);
        RevealCollides(h, leaves, x, index, siblings, count);
      }
    }
  }

  lemma RevealCollides(h: Xof, leaves: seq<ByteString>, x: Hash32, index: nat, siblings: seq<Hash32>, count: nat)
    requires leaves != []
    ensures CollidesRaw(h, leaves, x, index, siblings, count) <==>
      var c := RawCollision(h, leaves, x, index, siblings, count); Collision(h, c.x, c.y, HASH)
  {
    hide RawCollision, Collision;
  }

  /** A leaf list has the root of one leaf hash exactly when it is that leaf, or its root string collides. */
  lemma RootIsLeafHash(h: Xof, leaves: seq<ByteString>, d: ByteString)
    requires leaves != []
    ensures Root(h, leaves) == LeafHash(h, d) <==>
      leaves == [d] || Collision(h, LeafInput(d), RootInput(h, TreeOf(leaves)), HASH)
  {
    hide Root, Digest, LeafInput, NodeInput;
    TreeHashIsRoot(h, leaves);
    if |leaves| == 1 {
      if LeafInput(leaves[0]) == LeafInput(d) {
        LeafInputInjective(leaves[0], d);
      }
    } else {
      var t := TreeOf(leaves);
      TagsSeparate(d, TreeHash(h, t.left), TreeHash(h, t.right));
    }
  }

  /** The exact condition for a claimed position and count.  The openings accepted at (index, count) under the honest
      root are the leaf at `index`, up to explicit collisions, if and only if the sides of (index, count) lead
      nowhere in the honest tree, or to that leaf (or a copy of it, or a subtree whose root string collides with
      it).  They lead to the position `index` exactly when they are the sides of (index, |leaves|). */
  lemma LeafOpeningsIff(h: Xof, leaves: seq<ByteString>, index: nat, count: nat)
    requires index < |leaves| && index < count
    ensures var at := Locate(|leaves|, Sides(index, count));
      && (at == Some(Span(index, 1)) <==> Sides(index, count) == Sides(index, |leaves|))
      && (OpensOnlyLeaf(h, leaves, index, count) <==>
          || at.None?
          || At(leaves, at.value) == [leaves[index]]
          || Collision(h, LeafInput(leaves[index]), RootInput(h, TreeOf(At(leaves, at.value))), HASH))
      && ((forall i :: 0 <= i < |leaves| && i != index ==> leaves[i] != leaves[index]) && at.Some? ==>
          (At(leaves, at.value) == [leaves[index]] <==> Sides(index, count) == Sides(index, |leaves|)))
  {
    hide OpensOnlyLeaf, Root, LeafHash, Sides, Locate, TreeOf, RootInput, Collision, LeafInput;
    LocateLeaf(|leaves|, Sides(index, count), index);
    OnlyLeafIff(h, leaves, index, count);
    var at := Locate(|leaves|, Sides(index, count));
    if at.Some? {
      RootIsLeafHash(h, At(leaves, at.value), leaves[index]);
      if At(leaves, at.value) == [leaves[index]] {
        assert At(leaves, at.value)[0] == leaves[at.value.lo];
      }
    }
  }

  /** Only the sides matter: claims with the same sides accept the same openings. */
  lemma SameSidesSameOpenings(h: Xof, x: Hash32, root: Hash32, siblings: seq<Hash32>,
                              index: nat, count: nat, index': nat, count': nat)
    requires index < count && index' < count' && Sides(index, count) == Sides(index', count')
    ensures Accepts(h, x, root, index, siblings, count) <==> Accepts(h, x, root, index', siblings, count')
  {
    hide NodeHash, Replay, Climb, Sides;
    ReplayIsClimb(NodeHash(h), x, index, count, siblings);
    ReplayIsClimb(NodeHash(h), x, index', count', siblings);
  }

  /** A count that is not the honest one can do no harm: three for four leaves at position 0. */
  lemma OtherCountOpensSameLeaf(h: Xof, x: Hash32, root: Hash32, siblings: seq<Hash32>)
    ensures Accepts(h, x, root, 0, siblings, 3) <==> Accepts(h, x, root, 0, siblings, 4)
  {
    hide Accepts;
    assert Sides(0, 2) == [true];
    assert Sides(0, 3) == [true] + Sides(0, 2) && Sides(0, 4) == [true] + Sides(0, 2);
    SameSidesSameOpenings(h, x, root, siblings, 0, 3, 0, 4);
  }

  lemma PathLeft(h: Xof, leaves: seq<ByteString>, index: nat)
    requires |leaves| >= 2 && index < SplitPoint(|leaves|)
    ensures var k := SplitPoint(|leaves|);
      Path(h, leaves, index) == Path(h, leaves[..k], index) + [Root(h, leaves[k..])]
  {
    hide BaseLevel, NodeHash, TreeHead, AuditPath, SplitPoint;
    AuditPathUnfold(NodeHash(h), BaseLevel(h, leaves), index);
    BaseLevelSplit(h, leaves, SplitPoint(|leaves|));
  }

  lemma PathRight(h: Xof, leaves: seq<ByteString>, index: nat)
    requires |leaves| >= 2 && SplitPoint(|leaves|) <= index < |leaves|
    ensures var k := SplitPoint(|leaves|);
      Path(h, leaves, index) == Path(h, leaves[k..], index - k) + [Root(h, leaves[..k])]
  {
    hide BaseLevel, NodeHash, TreeHead, AuditPath, SplitPoint;
    AuditPathUnfold(NodeHash(h), BaseLevel(h, leaves), index);
    BaseLevelSplit(h, leaves, SplitPoint(|leaves|));
  }

  lemma PathOne(h: Xof, leaves: seq<ByteString>)
    requires |leaves| == 1
    ensures Path(h, leaves, 0) == []
  {
    hide NodeHash;
    Single(NodeHash(h), BaseLevel(h, leaves));
  }

  lemma {:induction false} PathAlongSides(h: Xof, leaves: seq<ByteString>, index: nat)
    requires index < |leaves|
    ensures var t := TreeOf(leaves); var sides := PathSides(index, |leaves|);
      Descend(t, sides).Some? && Path(h, leaves, index) == SiblingHashes(h, t, sides)
  {
    hide Path, Root, TreeHash, SplitPoint, TreeOf, Descend, SiblingHashes, PathSides;
    if |leaves| == 1 {
      PathOne(h, leaves);
      PathSidesOne();
      DescendEnds(TreeOf(leaves), []);
    } else {
      var k := SplitPoint(|leaves|);
      var l, r := TreeOf(leaves[..k]), TreeOf(leaves[k..]);
      TreeOfNode(leaves);
      PathSidesUnfold(index, |leaves|);
      if index < k {
        PathLeft(h, leaves, index);
        TreeHashIsRoot(h, leaves[k..]);
        PathAlongSides(h, leaves[..k], index);
        SiblingHashesNode(h, l, r, PathSides(index, k), true);
      } else {
        PathRight(h, leaves, index);
        TreeHashIsRoot(h, leaves[..k]);
        PathAlongSides(h, leaves[k..], index - k);
        SiblingHashesNode(h, l, r, PathSides(index - k, |leaves| - k), false);
      }
    }
  }

  /** The audit path of a position is what lies beside its sides, which lead to that position. */
  lemma PathIsBeside(h: Xof, leaves: seq<ByteString>, index: nat)
    requires index < |leaves|
    ensures var sides := Sides(index, |leaves|);
      Locate(|leaves|, sides) == Some(Span(index, 1)) && Path(h, leaves, index) == Beside(h, leaves, sides)
  {
    hide Path, TreeOf, Descend, SiblingHashes, PathSides, Sides, Locate;
    LocateLeaf(|leaves|, Sides(index, |leaves|), index);
    SidesArePathSides(index, |leaves|);
    PathAlongSides(h, leaves, index);
  }

  // ----- membership, for any claimed position and count ------------------------------------------------------------

  /** The strings of the opening, or else those of the subtree it shows. */
  function MembershipCollision(h: Xof, leaves: seq<ByteString>, data: ByteString,
                               index: nat, siblings: seq<Hash32>, count: nat): Pair
    requires leaves != []
  {
    var c := RawCollision(h, leaves, LeafHash(h, data), index, siblings, count);
    var at := Locate(|leaves|, Sides(index, count));
    if c.x != c.y || at.None? then c else Pair(LeafInput(data), RootInput(h, TreeOf(At(leaves, at.value))))
  }

  lemma CollisionDiffers(h: Xof, c: Pair)
    ensures Collision(h, c.x, c.y, HASH) ==> c.x != c.y
  {}

  lemma OnlyElement(leaves: seq<ByteString>, s: Span, data: ByteString)
    requires s.lo + s.len <= |leaves|
    ensures At(leaves, s) == [data] ==> data in leaves
  {
    if At(leaves, s) == [data] {
      assert At(leaves, s)[0] == leaves[s.lo];
    }
  }

  /** The leaf count travels in the proof, so it is the prover's claim.  Whatever position and count are claimed,
      a value accepted under the honest root is one of the leaves, or the opening exhibits an explicit collision. */
  lemma MembershipSoundness(h: Xof, leaves: seq<ByteString>, data: ByteString,
                            index: nat, siblings: seq<Hash32>, leafCount: nat)
    requires leaves != []
    ensures Accepts(h, LeafHash(h, data), Root(h, leaves), index, siblings, leafCount) ==>
      data in leaves
      || var c := MembershipCollision(h, leaves, data, index, siblings, leafCount); Collision(h, c.x, c.y, HASH)
  {
    hide LeafHash, Root, Accepts, RawCollision, Locate, Sides, TreeOf, RootInput, Beside, Collision, LeafInput, At;
    RawOpeningSound(h, leaves, LeafHash(h, data), index, siblings, leafCount);
    HonestRawCollision(h, leaves, index, leafCount);
    var c := RawCollision(h, leaves, LeafHash(h, data), index, siblings, leafCount);
    CollisionDiffers(h, c);
    var at := Locate(|leaves|, Sides(index, leafCount));
    if at.Some? {
      RootIsLeafHash(h, At(leaves, at.value), data);
      OnlyElement(leaves, at.value, data);
    }
  }
}
