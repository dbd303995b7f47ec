/** The level reduction of `src/relations/merkle.rs`, for any node type and any combining function:
    hash pairs bottom-up, promote a lone trailing node.  It is related here to the recursive
    definitions of sections 2.1 and 2.1.1 of RFC 6962, which split at the largest power of two. */
module Reduction {
  import opened Wrappers

  // ----- the reference ------------------------------------------------------------------

  predicate IsPowerOfTwo(n: nat) {
    n == 1 || (n > 1 && n % 2 == 0 && IsPowerOfTwo(n / 2))
  }

  /** The largest power of two smaller than n. */
  function SplitPoint(n: nat): (k: nat)
    requires n >= 2
    ensures 1 <= k < n <= 2 * k
  {
    if n == 2 then 1 else 2 * SplitPoint((n + 1) / 2)
  }

  lemma {:induction false} SplitPointIsLargest(n: nat, p: nat)
    requires n >= 2
    ensures IsPowerOfTwo(SplitPoint(n))
    ensures IsPowerOfTwo(p) && p < n ==> p <= SplitPoint(n)
  {
    if n > 2 {
      SplitPointIsLargest((n + 1) / 2, p / 2);
    }
  }

  /** The Merkle tree head. */
  function TreeHead<T>(f: (T, T) -> T, level: seq<T>): T
    requires level != []
  {
    if |level| == 1 then level[0]
    else
      var k := SplitPoint(|level|);
      f(TreeHead(f, level[..k]), TreeHead(f, level[k..]))
  }

  /** The audit path of position idx, from the leaf upwards. */
  function AuditPath<T>(f: (T, T) -> T, level: seq<T>, idx: nat): seq<T>
    requires idx < |level|
  {
    if |level| == 1 then []
    else
      var k := SplitPoint(|level|);
      if idx < k then AuditPath(f, level[..k], idx) + [TreeHead(f, level[k..])]
      else AuditPath(f, level[k..], idx - k) + [TreeHead(f, level[..k])]
  }

  // ----- one bottom-up step ----------------------------------------------------------------

  function NextLevel<T>(f: (T, T) -> T, level: seq<T>): (next: seq<T>)
    ensures |next| == (|level| + 1) / 2
  {
    if |level| <= 1 then level
    else [f(level[0], level[1])] + NextLevel(f, level[2..])
  }

  predicate Promoted(idx: nat, n: nat) {
    idx + 1 == n && n % 2 == 1
  }

  /** The sibling recorded for idx at one level, if any. */
  function Sibling<T>(level: seq<T>, idx: nat): (s: seq<T>)
    requires idx < |level|
    ensures |s| == if Promoted(idx, |level|) then 0 else 1
  {
    if Promoted(idx, |level|) then []
    else if idx % 2 == 0 then [level[idx + 1]]
    else [level[idx - 1]]
  }

  /** Combine a node at position idx with its sibling, on the side the position says. */
  function Join<T>(f: (T, T) -> T, node: T, idx: nat, sibling: T): T {
    if idx % 2 == 0 then f(node, sibling) else f(sibling, node)
  }

  lemma {:induction false} NextLevelAt<T>(f: (T, T) -> T, level: seq<T>, j: nat)
    requires j < |NextLevel(f, level)|
    ensures NextLevel(f, level)[j] ==
      if j + j + 1 < |level| then f(level[j + j], level[j + j + 1]) else level[j + j]
  {
    if |level| > 1 && j > 0 {
      NextLevelAt(f, level[2..], j - 1);
    }
  }

  /** The step on the node at idx gives the node above it. */
  lemma NextLevelJoin<T>(f: (T, T) -> T, level: seq<T>, idx: nat)
    requires idx < |level|
    ensures NextLevel(f, level)[idx / 2] ==
      if Promoted(idx, |level|) then level[idx] else Join(f, level[idx], idx, Sibling(level, idx)[0])
  {
    hide NextLevel, Sibling, Join, Promoted;
    var j := idx / 2;
    if idx % 2 == 0 {
      assert idx == j + j;
      NextLevelJoinEven(f, level, j);
    } else {
      assert idx == j + j + 1;
      NextLevelJoinOdd(f, level, j);
    }
  }

  lemma NextLevelJoinEven<T>(f: (T, T) -> T, level: seq<T>, j: nat)
    requires j + j < |level|
    ensures NextLevel(f, level)[j] ==
      if Promoted(j + j, |level|) then level[j + j] else Join(f, level[j + j], j + j, Sibling(level, j + j)[0])
  {
    hide NextLevel;
    NextLevelAt(f, level, j);
    assert (j + j) % 2 == 0;
  }

  lemma NextLevelJoinOdd<T>(f: (T, T) -> T, level: seq<T>, j: nat)
    requires j + j + 1 < |level|
    ensures var idx := j + j + 1;
      NextLevel(f, level)[j] ==
      if Promoted(idx, |level|) then level[idx] else Join(f, level[idx], idx, Sibling(level, idx)[0])
  {
    hide NextLevel;
    NextLevelAt(f, level, j);
    assert (j + j + 1) % 2 == 1;
  }

  lemma {:induction false} NextLevelSplit<T>(f: (T, T) -> T, level: seq<T>, k: nat)
    requires k <= |level| && k % 2 == 0
    ensures NextLevel(f, level) == NextLevel(f, level[..k]) + NextLevel(f, level[k..])
  {
    if k == 0 {
      assert level[0..] == level;
    } else {
      NextLevelSplit(f, level[2..], k - 2);
      assert level[..k][2..] == level[2..][..k - 2];
      assert level[2..][k - 2..] == level[k..];
    }
  }

  lemma NextLevelHalves<T>(f: (T, T) -> T, level: seq<T>)
    requires |level| > 2
    ensures var k := SplitPoint(|level|); var next := NextLevel(f, level);
      && k % 2 == 0 && SplitPoint(|next|) == k / 2
      && next[..k / 2] == NextLevel(f, level[..k])
      && next[k / 2..] == NextLevel(f, level[k..])
  {
    hide NextLevel;
    NextLevelSplit(f, level, SplitPoint(|level|));
  }

  lemma NextLevelSmall<T>(f: (T, T) -> T, level: seq<T>)
    ensures |level| <= 1 ==> NextLevel(f, level) == level
    ensures |level| == 2 ==> NextLevel(f, level) == [f(level[0], level[1])]
  {}

  lemma Single<T>(f: (T, T) -> T, level: seq<T>)
    requires |level| == 1
    ensures TreeHead(f, level) == level[0] && AuditPath(f, level, 0) == []
  {}

  lemma TreeHeadUnfold<T>(f: (T, T) -> T, level: seq<T>)
    requires |level| >= 2
    ensures var k := SplitPoint(|level|);
      TreeHead(f, level) == f(TreeHead(f, level[..k]), TreeHead(f, level[k..]))
  {}

  lemma AuditPathUnfold<T>(f: (T, T) -> T, level: seq<T>, idx: nat)
    requires |level| >= 2 && idx < |level|
    ensures var k := SplitPoint(|level|);
      AuditPath(f, level, idx) ==
      if idx < k then AuditPath(f, level[..k], idx) + [TreeHead(f, level[k..])]
      else AuditPath(f, level[k..], idx - k) + [TreeHead(f, level[..k])]
  {
    hide TreeHead;
  }

  /** A reduction step leaves the tree head unchanged. */
  lemma {:induction false} TreeHeadStep<T>(f: (T, T) -> T, level: seq<T>)
    requires level != []
    ensures TreeHead(f, NextLevel(f, level)) == TreeHead(f, level)
    decreases |level|
  {
    hide TreeHead, NextLevel, SplitPoint;
    NextLevelSmall(f, level);
    if |level| >= 2 {
      var k := SplitPoint(|level|);
      TreeHeadUnfold(f, level);
      if |level| == 2 {
        Single(f, level[..k]);
        Single(f, level[k..]);
        Single(f, NextLevel(f, level));
      } else {
        NextLevelHalves(f, level);
        TreeHeadUnfold(f, NextLevel(f, level));
        TreeHeadStep(f, level[..k]);
        TreeHeadStep(f, level[k..]);
      }
    }
  }

  lemma SiblingLeft<T>(level: seq<T>, idx: nat, k: nat)
    requires k % 2 == 0 && idx < k < |level|
    ensures Sibling(level, idx) == Sibling(level[..k], idx) && idx / 2 < k / 2
  {}

  lemma SiblingRight<T>(level: seq<T>, idx: nat, k: nat)
    requires k % 2 == 0 && k <= idx < |level|
    ensures Sibling(level, idx) == Sibling(level[k..], idx - k)
    ensures k / 2 <= idx / 2 && (idx - k) / 2 == idx / 2 - k / 2
  {}

  /** A reduction step takes the recorded sibling off the front of the audit path. */
  lemma {:induction false} AuditPathStep<T>(f: (T, T) -> T, level: seq<T>, idx: nat)
    requires |level| >= 2 && idx < |level|
    ensures AuditPath(f, level, idx) == Sibling(level, idx) + AuditPath(f, NextLevel(f, level), idx / 2)
    decreases |level|
  {
    hide NextLevel, AuditPath, TreeHead, SplitPoint, Sibling, Promoted;
    var k, next := SplitPoint(|level|), NextLevel(f, level);
    AuditPathUnfold(f, level, idx);
    if |level| == 2 {
      AuditPathPair(f, level, idx);
    } else {
      NextLevelHalves(f, level);
      AuditPathUnfold(f, next, idx / 2);
      if idx < k {
        SiblingLeft(level, idx, k);
        TreeHeadStep(f, level[k..]);
        AuditPathStep(f, level[..k], idx);
      } else {
        TreeHeadStep(f, level[..k]);
        SiblingRight(level, idx, k);
        AuditPathRest(f, level[k..], idx - k);
        if |level| - k >= 2 {
          AuditPathStep(f, level[k..], idx - k);
        }
      }
    }
  }

  lemma AuditPathRest<T>(f: (T, T) -> T, rest: seq<T>, idx: nat)
    requires idx < |rest|
    ensures |rest| == 1 ==> Sibling(rest, idx) == [] && NextLevel(f, rest) == rest && AuditPath(f, rest, idx) == []
  {}

  lemma AuditPathPair<T>(f: (T, T) -> T, level: seq<T>, idx: nat)
    requires |level| == 2 && idx < 2
    ensures AuditPath(f, level, idx) == Sibling(level, idx)
    ensures AuditPath(f, NextLevel(f, level), idx / 2) == []
  {
    assert SplitPoint(2) == 1;
    assert |level[..1]| == 1 && |level[1..]| == 1;
  }

  /** The invariant of the prover's loop: the level reached has the head of the first, and the path collected so far
      and the path still to come make up the audit path. */
  ghost predicate Reduced<T>(f: (T, T) -> T, level0: seq<T>, idx0: nat, level: seq<T>, idx: nat, path: seq<T>) {
    if level0 == [] then level == [] && path == []
    else
      && level != [] && idx0 < |level0| && idx < |level|
      && TreeHead(f, level) == TreeHead(f, level0)
      && path + AuditPath(f, level, idx) == AuditPath(f, level0, idx0)
  }

  lemma ReducedStart<T>(f: (T, T) -> T, level: seq<T>, idx: nat)
    requires level != [] ==> idx < |level|
    ensures Reduced(f, level, idx, level, idx, [])
  {
    hide AuditPath, TreeHead;
  }

  lemma ReducedStep<T>(f: (T, T) -> T, level0: seq<T>, idx0: nat, level: seq<T>, idx: nat, path: seq<T>)
    requires Reduced(f, level0, idx0, level, idx, path) && |level| > 1
    ensures idx < |level| && |NextLevel(f, level)| < |level|
    ensures Reduced(f, level0, idx0, NextLevel(f, level), idx / 2, path + Sibling(level, idx))
  {
    hide NextLevel, AuditPath, TreeHead, Sibling;
    AuditPathStep(f, level, idx);
    TreeHeadStep(f, level);
    assert path + Sibling(level, idx) + AuditPath(f, NextLevel(f, level), idx / 2) ==
           path + (Sibling(level, idx) + AuditPath(f, NextLevel(f, level), idx / 2));
  }

  lemma ReducedEnd<T>(f: (T, T) -> T, level0: seq<T>, idx0: nat, level: seq<T>, idx: nat, path: seq<T>)
    requires Reduced(f, level0, idx0, level, idx, path) && |level| <= 1
    ensures level == [] <==> level0 == []
    ensures level0 == [] ==> path == []
    ensures level0 != [] ==>
      |level| == 1 && idx0 < |level0| && level[0] == TreeHead(f, level0) && path == AuditPath(f, level0, idx0)
  {
    hide AuditPath, TreeHead;
    if |level| == 1 {
      Single(f, level);
    }
  }

  /** What is left of a level from position i on. */
  function From<T>(level: seq<T>, i: nat): seq<T> {
    if i <= |level| then level[i..] else []
  }

  lemma NextLevelEnds<T>(f: (T, T) -> T, level: seq<T>)
    ensures From(level, 0) == level
    ensures NextLevel(f, []) == []
  {}

  lemma NextLevelStep<T>(f: (T, T) -> T, level: seq<T>, i: nat)
    requires i < |level|
    ensures NextLevel(f, From(level, i)) ==
      [if i + 1 < |level| then f(level[i], level[i + 1]) else level[i]] + NextLevel(f, From(level, i + 2))
  {
    var s := From(level, i);
    if i + 1 < |level| {
      assert s[2..] == From(level, i + 2);
    }
  }

  // ----- replaying an opening --------------------------------------------------------------------

  /** The node reached by an opening; None if a sibling is missing or left over. */
  function Replay<T>(f: (T, T) -> T, node: T, idx: nat, n: nat, siblings: seq<T>): Option<T>
    decreases n
  {
    if n <= 1 then if |siblings| == 0 then Some(node) else None
    else if Promoted(idx, n) then Replay(f, node, idx / 2, (n + 1) / 2, siblings)
    else if |siblings| == 0 then None
    else Replay(f, Join(f, node, idx, siblings[0]), idx / 2, (n + 1) / 2, siblings[1..])
  }

  lemma ReplayUnfold<T>(f: (T, T) -> T, node: T, idx: nat, n: nat, siblings: seq<T>)
    ensures Replay(f, node, idx, n, siblings) ==
      if n <= 1 then if |siblings| == 0 then Some(node) else None
      else if Promoted(idx, n) then Replay(f, node, idx / 2, (n + 1) / 2, siblings)
      else if |siblings| == 0 then None
      else Replay(f, Join(f, node, idx, siblings[0]), idx / 2, (n + 1) / 2, siblings[1..])
  {
    hide Join;
  }

  /** Replaying the audit path of any position ends at the tree head with no sibling left over. */
  lemma {:induction false} ReplayHonest<T>(f: (T, T) -> T, level: seq<T>, idx: nat)
    requires idx < |level|
    ensures Replay(f, level[idx], idx, |level|, AuditPath(f, level, idx)) == Some(TreeHead(f, level))
    decreases |level|
  {
    hide TreeHead, AuditPath, NextLevel, Join, Replay, Sibling, Promoted;
    var path := AuditPath(f, level, idx);
    ReplayUnfold(f, level[idx], idx, |level|, path);
    if |level| == 1 {
      Single(f, level);
    } else {
      var next := NextLevel(f, level);
      TreeHeadStep(f, level);
      AuditPathStep(f, level, idx);
      NextLevelJoin(f, level, idx);
      ReplayHonest(f, next, idx / 2);
      if !Promoted(idx, |level|) {
        assert path[0] == Sibling(level, idx)[0] && path[1..] == AuditPath(f, next, idx / 2);
      } else {
        assert path == AuditPath(f, next, idx / 2);
      }
    }
  }

  /** An inner node replays to the head of its tree under the count of the smaller tree above it. */
  lemma OtherCountReplays<T>(f: (T, T) -> T, x: T, y: T, z: T)
    ensures Replay(f, f(x, y), 0, 2, [z]) == Some(TreeHead(f, [x, y, z]))
  {
    hide Replay, TreeHead;
    ReplayUnfold(f, f(x, y), 0, 2, [z]);
    assert [z][1..] == [];
    ReplayUnfold(f, f(f(x, y), z), 0, 1, []);
    var level := [x, y, z];
    TreeHeadStep(f, level);
    NextLevelSmall(f, level[2..]);
    assert NextLevel(f, level) == [f(x, y)] + NextLevel(f, level[2..]) == [f(x, y), z];
    TreeHeadStep(f, [f(x, y), z]);
    NextLevelSmall(f, [f(x, y), z]);
    Single(f, [f(f(x, y), z)]);
  }

  /** Two argument pairs of f. */
  datatype Clash<T> = Clash(l: T, r: T, l': T, r': T)

  /** f takes the same value on the two different argument pairs. */
  predicate Clashes<T(==)>(f: (T, T) -> T, c: Clash<T>) {
    (c.l != c.l' || c.r != c.r') && f(c.l, c.r) == f(c.l', c.r')
  }

  function Arguments<T>(node: T, idx: nat, sibling: T, node': T, sibling': T): Clash<T> {
    if idx % 2 == 0 then Clash(node, sibling, node', sibling') else Clash(sibling, node, sibling', node')
  }

  lemma ArgumentsClash<T>(f: (T, T) -> T, node: T, idx: nat, sibling: T, node': T, sibling': T)
    requires Join(f, node, idx, sibling) == Join(f, node', idx, sibling')
    requires node != node' || sibling != sibling'
    ensures Clashes(f, Arguments(node, idx, sibling, node', sibling'))
  {}

  /** Replays two openings of one position side by side; where they meet although their arguments differ,
      those arguments are the clash. */
  function OpeningsClash<T(==)>(f: (T, T) -> T, a: T, sa: seq<T>, b: T, sb: seq<T>, idx: nat, n: nat): Clash<T>
    decreases n
  {
    if n > 1 && Promoted(idx, n) then OpeningsClash(f, a, sa, b, sb, idx / 2, (n + 1) / 2)
    else if n <= 1 || |sa| == 0 || |sb| == 0 then Clash(a, a, a, a)
    else
      var ua, ub := Join(f, a, idx, sa[0]), Join(f, b, idx, sb[0]);
      if ua == ub && (a != b || sa[0] != sb[0]) then Arguments(a, idx, sa[0], b, sb[0])
      else OpeningsClash(f, ua, sa[1..], ub, sb[1..], idx / 2, (n + 1) / 2)
  }

  /** Two openings of one position that replay to the same value are the same opening, or yield a clash of f. */
  lemma {:induction false} ReplayBinding<T>(f: (T, T) -> T, a: T, sa: seq<T>, b: T, sb: seq<T>, idx: nat, n: nat)
    requires Replay(f, a, idx, n, sa).Some? && Replay(f, a, idx, n, sa) == Replay(f, b, idx, n, sb)
    ensures (a == b && sa == sb) || Clashes(f, OpeningsClash(f, a, sa, b, sb, idx, n))
    decreases n
  {
    hide Join, Arguments, Clashes, Replay, Promoted;
    ReplayUnfold(f, a, idx, n, sa);
    ReplayUnfold(f, b, idx, n, sb);
    if n > 1 && Promoted(idx, n) {
      ReplayBinding(f, a, sa, b, sb, idx / 2, (n + 1) / 2);
    } else if n > 1 {
      var ua, ub := Join(f, a, idx, sa[0]), Join(f, b, idx, sb[0]);
      if ua == ub && (a != b || sa[0] != sb[0]) {
        ArgumentsClash(f, a, idx, sa[0], b, sb[0]);
      } else {
        ReplayBinding(f, ua, sa[1..], ub, sb[1..], idx / 2, (n + 1) / 2);
        assert sa == [sa[0]] + sa[1..] && sb == [sb[0]] + sb[1..];
      }
    }
  }

  // ----- the sides of an opening ------------------------------------------------------------------------

  /** The sides on which an opening of position idx out of n takes its siblings, bottom-up: true for the right. */
  function Sides(idx: nat, n: nat): seq<bool>
    decreases n
  {
    if n <= 1 then [] else SideAt(idx, n) + Sides(idx / 2, (n + 1) / 2)
  }

  function SideAt(idx: nat, n: nat): seq<bool> {
    if Promoted(idx, n) then [] else [idx % 2 == 0]
  }

  function Combine<T>(f: (T, T) -> T, node: T, sibling: T, onRight: bool): T {
    if onRight then f(node, sibling) else f(sibling, node)
  }

  /** The node after all the joins, the last one outermost. */
  function Climb<T>(f: (T, T) -> T, node: T, siblings: seq<T>, sides: seq<bool>): T
    requires |siblings| == |sides|
  {
    if |sides| == 0 then node
    else
      var k := |sides| - 1;
      Combine(f, Climb(f, node, siblings[..k], sides[..k]), siblings[k], sides[k])
  }

  lemma {:induction false} ClimbFirst<T>(f: (T, T) -> T, node: T, siblings: seq<T>, sides: seq<bool>)
    requires |siblings| == |sides| > 0
    ensures Climb(f, node, siblings, sides) ==
            Climb(f, Combine(f, node, siblings[0], sides[0]), siblings[1..], sides[1..])
    decreases |sides|
  {
    hide Combine;
    var k := |sides| - 1;
    if k == 0 {
      assert siblings[..0] == [] && siblings[1..] == [];
    } else {
      ClimbFirst(f, node, siblings[..k], sides[..k]);
      assert siblings[..k][1..] == siblings[1..][..k - 1] && sides[..k][1..] == sides[1..][..k - 1];
    }
  }

  /** Replaying is climbing along the sides, for any claimed position and size. */
  lemma {:induction false} ReplayIsClimb<T>(f: (T, T) -> T, node: T, idx: nat, n: nat, siblings: seq<T>)
    ensures Replay(f, node, idx, n, siblings).Some? <==> |siblings| == |Sides(idx, n)|
    ensures |siblings| == |Sides(idx, n)| ==>
      Replay(f, node, idx, n, siblings) == Some(Climb(f, node, siblings, Sides(idx, n)))
    decreases n
  {
    hide Climb, Promoted;
    var sides := Sides(idx, n);
    if n <= 1 {
      ClimbNone(f, node);
    } else if Promoted(idx, n) {
      ReplayIsClimb(f, node, idx / 2, (n + 1) / 2, siblings);
      assert sides == Sides(idx / 2, (n + 1) / 2);
    } else if |siblings| > 0 {
      ReplayIsClimb(f, Join(f, node, idx, siblings[0]), idx / 2, (n + 1) / 2, siblings[1..]);
      assert sides[1..] == Sides(idx / 2, (n + 1) / 2);
      if |siblings| == |sides| {
        ClimbFirst(f, node, siblings, sides);
      }
    }
  }

  lemma ClimbNone<T>(f: (T, T) -> T, node: T)
    ensures Climb(f, node, [], []) == node
  {}

  // ----- where sides lead, from the top ----------------------------------------------------------------------

  /** The sides of position i by the recursive definition of the tree. */
  function PathSides(i: nat, n: nat): seq<bool>
    requires i < n
  {
    if n == 1 then []
    else
      var k := SplitPoint(n);
      if i < k then PathSides(i, k) + [true] else PathSides(i - k, n - k) + [false]
  }

  lemma PathSidesUnfold(i: nat, n: nat)
    requires i < n && n >= 2
    ensures var k := SplitPoint(n);
      PathSides(i, n) == if i < k then PathSides(i, k) + [true] else PathSides(i - k, n - k) + [false]
  {}

  lemma PathSidesOne()
    ensures PathSides(0, 1) == []
  {}

  lemma SplitPointHalves(n: nat)
    requires n > 2
    ensures var k := SplitPoint(n); k % 2 == 0 && k >= 2 && SplitPoint((n + 1) / 2) == k / 2
  {}

  lemma SideAtLeft(i: nat, n: nat, k: nat)
    requires k % 2 == 0 && i < k < n
    ensures SideAt(i, n) == SideAt(i, k) && i / 2 < k / 2
  {}

  lemma SideAtRight(i: nat, n: nat, k: nat)
    requires k % 2 == 0 && k <= i < n
    ensures SideAt(i, n) == SideAt(i - k, n - k)
    ensures k / 2 <= i / 2 && (i - k) / 2 == i / 2 - k / 2 && (n - k + 1) / 2 == (n + 1) / 2 - k / 2
  {}

  lemma SideAtSmall(i: nat)
    ensures SideAt(0, 1) == []
    ensures i < 2 ==> SideAt(i, 2) == [i == 0]
  {}

  lemma {:induction false} PathSidesStep(i: nat, n: nat)
    requires i < n && n >= 2
    ensures PathSides(i, n) == SideAt(i, n) + PathSides(i / 2, (n + 1) / 2)
    decreases n
  {
    hide PathSides, SplitPoint, SideAt;
    var k := SplitPoint(n);
    PathSidesUnfold(i, n);
    PathSidesOne();
    SideAtSmall(i);
    if n > 2 {
      SplitPointHalves(n);
      PathSidesUnfold(i / 2, (n + 1) / 2);
      if i < k {
        SideAtLeft(i, n, k);
        PathSidesStep(i, k);
      } else {
        SideAtRight(i, n, k);
        if n - k >= 2 {
          PathSidesStep(i - k, n - k);
        }
      }
    }
  }

  /** The level-by-level sides are those of the recursive tree. */
  lemma {:induction false} SidesArePathSides(i: nat, n: nat)
    requires i < n
    ensures Sides(i, n) == PathSides(i, n)
    decreases n
  {
    hide PathSides, SideAt;
    if n == 1 {
      PathSidesOne();
    } else {
      PathSidesStep(i, n);
      SidesArePathSides(i / 2, (n + 1) / 2);
    }
  }

  /** A run of consecutive positions. */
  datatype Span = Span(lo: nat, len: nat)

  /** The positions under the subtree that the sides lead to from the root of a tree of n leaves; None if they lead
      below a leaf. */
  function Locate(n: nat, sides: seq<bool>): (r: Option<Span>)
    requires n >= 1
    ensures r.Some? ==> r.value.len >= 1 && r.value.lo + r.value.len <= n
    decreases |sides|
  {
    if |sides| == 0 then Some(Span(0, n))
    else if n == 1 then None
    else
      var k, below := SplitPoint(n), sides[..|sides| - 1];
      if sides[|sides| - 1] then Locate(k, below)
      else
        var r := Locate(n - k, below);
        if r.None? then None else Some(Span(k + r.value.lo, r.value.len))
  }

  /** Sides lead to the leaf at position i exactly when they are the sides of position i. */
  lemma {:induction false} LocateLeaf(n: nat, sides: seq<bool>, i: nat)
    requires n >= 1
    ensures Locate(n, sides) == Some(Span(i, 1)) <==> i < n && sides == Sides(i, n)
    decreases |sides|
  {
    hide Sides, SplitPoint;
    if i < n {
      SidesArePathSides(i, n);
    }
    if |sides| > 0 && n > 1 {
      var k, below := SplitPoint(n), sides[..|sides| - 1];
      assert sides == below + [sides[|sides| - 1]];
      LocateLeaf(k, below, i);
      if i < k {
        SidesArePathSides(i, k);
      } else {
        LocateLeaf(n - k, below, i - k);
        if i < n {
          SidesArePathSides(i - k, n - k);
        }
      }
    }
  }
}
