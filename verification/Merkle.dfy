/**
The Merkle tree over transaction digests, built level by level with a lone last node promoted, and
receipts: paths of sibling digests from a leaf to the root.
*/
module Merkle {
  import opened Bytes
  import opened Options

  type Digest = seq<byte>

  /** The hash function, over byte strings. */
  type Sha = seq<byte> -> Digest

  function Pair(sha: Sha, l: Digest, r: Digest): Digest {
    sha(l + r)
  }

  // ----- Levels

  function NextLevel(sha: Sha, level: seq<Digest>): (r: seq<Digest>)
    ensures |r| == (|level| + 1) / 2
  {
    if |level| <= 1 then level
    else [Pair(sha, level[0], level[1])] + NextLevel(sha, level[2..])
  }

  /** The root that building level upon level ends in. */
  function BottomUp(sha: Sha, level: seq<Digest>): Digest
    requires |level| > 0
    decreases |level|
  {
    if |level| == 1 then level[0] else BottomUp(sha, NextLevel(sha, level))
  }

  /** Every level of the tree, the root's first. */
  function Levels(sha: Sha, level: seq<Digest>): (r: seq<seq<Digest>>)
    requires |level| > 0
    ensures |r| > 0 && |r[0]| == 1 && r[0][0] == BottomUp(sha, level)
    ensures r[|r| - 1] == level
    decreases |level|
  {
    if |level| == 1 then [level] else Levels(sha, NextLevel(sha, level)) + [level]
  }

  class MerkleTree {
    const sha: Sha
    var leaves: seq<Digest>
    var levels: Option<seq<seq<Digest>>>

    constructor (sha: Sha)
      ensures this.sha == sha && leaves == [] && levels == None
    {
      this.sha := sha;
      leaves := [];
      levels := None;
    }

    method ResetTree()
      modifies this
      ensures leaves == [] && levels == None
    {
      leaves := [];
      levels := None;
    }

    method AddLeaf(values: seq<byte>, doHash: bool)
      modifies this`leaves
      ensures leaves == old(leaves) + [if doHash then sha(values) else values]
    {
      var digest := values;
      if doHash {
        digest := sha(values);
      }
      leaves := leaves + [digest];
    }

    /** Prepends the level above the topmost one. */
    method CalculateNextLevel()
      requires levels.Some? && |levels.value| > 0 && |levels.value[0]| > 1
      modifies this`levels
      ensures levels == Some([NextLevel(sha, old(levels.value[0]))] + old(levels.value))
    {
      hide NextLevel, Pair;
      var level := levels.value[0];
      var solo := |level| % 2 == 1;
      var count := if solo then |level| - 1 else |level|;
      var newLevel: seq<Digest> := [];
      var i := 0;
      while i < count
        invariant 0 <= i <= count && i % 2 == 0 && levels == old(levels)
        invariant newLevel + NextLevel(sha, level[i..]) == NextLevel(sha, level)
      {
        PairStep(sha, level, i);
        Reassociate(newLevel, [Pair(sha, level[i], level[i + 1])], NextLevel(sha, level[i + 2..]));
        newLevel := newLevel + [Pair(sha, level[i], level[i + 1])];
        i := i + 2;
      }
      LastNode(sha, level, i);
      if solo {
        newLevel := newLevel + [level[|level| - 1]];
      } else {
        assert newLevel + [] == newLevel;
      }
      levels := Some([newLevel] + levels.value);
    }

    method MakeTree()
      modifies this`levels
      ensures levels == if |leaves| > 0 then Some(Levels(sha, leaves)) else old(levels)
    {
      hide Levels, NextLevel;
      if |leaves| > 0 {
        levels := Some([leaves]);
        while |levels.value[0]| > 1
          invariant levels.Some? && |levels.value| > 0 && |levels.value[0]| > 0
          invariant Levels(sha, leaves) == Levels(sha, levels.value[0]) + levels.value[1..]
          decreases |levels.value[0]|
        {
          ghost var top, below := levels.value[0], levels.value[1..];
          CalculateNextLevel();
          assert levels.value[1..] == [top] + below;
          LevelsStep(sha, top, below);
        }
        assert levels.value == [levels.value[0]] + levels.value[1..];
        LevelsOfOne(sha, levels.value[0]);
      }
    }

    /** The root of the leaves, or no answer for a tree that never had a leaf. */
    method GetMerkleRoot() returns (root: Option<Digest>)
      requires levels.Some? ==> |levels.value| > 0 && |levels.value[0]| > 0
      modifies this`levels
      ensures |leaves| > 0 ==> root == Some(BottomUp(sha, leaves))
      ensures |leaves| == 0 && old(levels).None? ==> root == None
      ensures |leaves| == 0 && old(levels).Some? ==> root == Some(old(levels).value[0][0])
      ensures levels.Some? ==> |levels.value| > 0 && |levels.value[0]| > 0
    {
      MakeTree();
      if levels.None? {
        return None;
      }
      return Some(levels.value[0][0]);
    }
  }

  lemma LastNode(sha: Sha, level: seq<Digest>, i: nat)
    requires i <= |level| <= i + 1
    ensures NextLevel(sha, level[i..]) == if i < |level| then [level[i]] else []
  {
  }

  lemma LevelsOfOne(sha: Sha, level: seq<Digest>)
    requires |level| == 1
    ensures Levels(sha, level) == [level]
  {
  }

  lemma LevelsStep(sha: Sha, top: seq<Digest>, below: seq<seq<Digest>>)
    requires |top| > 1
    ensures Levels(sha, top) + below == Levels(sha, NextLevel(sha, top)) + ([top] + below)
  {
    hide NextLevel;
    var above := Levels(sha, NextLevel(sha, top));
    assert Levels(sha, top) == above + [top];
    Reassociate(above, [top], below);
  }

  lemma Reassociate<T>(a: seq<T>, b: seq<T>, c: seq<T>)
    ensures (a + b) + c == a + (b + c)
  {
  }

  lemma PairStep(sha: Sha, level: seq<Digest>, i: nat)
    requires i + 1 < |level|
    ensures NextLevel(sha, level[i..]) == [Pair(sha, level[i], level[i + 1])] + NextLevel(sha, level[i + 2..])
  {
    assert level[i..][2..] == level[i + 2..];
  }

  // ----- The same tree from the top down

  function Pow2(n: nat): (p: nat)
    ensures p > 0
  {
    if n == 0 then 1 else 2 * Pow2(n - 1)
  }

  /** The exponent of the largest power of two below `n`. */
  function SplitExponent(n: nat): (e: nat)
    requires n > 1
    ensures Pow2(e) < n <= 2 * Pow2(e)
  {
    if n == 2 then 0 else SplitExponent((n + 1) / 2) + 1
  }

  /** The tree of section 2.1 of RFC 6962, without its prefix bytes: the left part is the largest
      complete tree that leaves something for the right. */
  function TopDown(sha: Sha, leaves: seq<Digest>): Digest
    requires |leaves| > 0
    decreases |leaves|
  {
    if |leaves| == 1 then leaves[0]
    else
      var k := Pow2(SplitExponent(|leaves|));
      Pair(sha, TopDown(sha, leaves[..k]), TopDown(sha, leaves[k..]))
  }

  lemma {:induction false} NextLevelConcat(sha: Sha, a: seq<Digest>, b: seq<Digest>)
    requires |a| % 2 == 0
    ensures NextLevel(sha, a + b) == NextLevel(sha, a) + NextLevel(sha, b)
    decreases |a|
  {
    hide Pair;
    if a == [] {
      assert a + b == b;
    } else {
      var rest := a[2..];
      NextLevelConcat(sha, rest, b);
      assert (a + b)[2..] == rest + b;
      assert [Pair(sha, a[0], a[1])] + (NextLevel(sha, rest) + NextLevel(sha, b)) ==
             [Pair(sha, a[0], a[1])] + NextLevel(sha, rest) + NextLevel(sha, b);
    }
  }

  /** Levels above a complete left part join only at the root. */
  lemma {:induction false} RootSplits(sha: Sha, a: seq<Digest>, b: seq<Digest>, e: nat)
    requires |a| == Pow2(e) && 0 < |b| <= Pow2(e)
    ensures BottomUp(sha, a + b) == Pair(sha, BottomUp(sha, a), BottomUp(sha, b))
    decreases e
  {
    if e == 0 {
      assert a + b == [a[0], b[0]];
      assert NextLevel(sha, a + b) == [Pair(sha, a[0], b[0])];
    } else {
      var a', b' := NextLevel(sha, a), NextLevel(sha, b);
      NextLevelConcat(sha, a, b);
      RootSplits(sha, a', b', e - 1);
    }
  }

  lemma TopDownSplits(sha: Sha, leaves: seq<Digest>)
    requires |leaves| > 1
    ensures var k := Pow2(SplitExponent(|leaves|));
      TopDown(sha, leaves) == Pair(sha, TopDown(sha, leaves[..k]), TopDown(sha, leaves[k..]))
  {
    hide Pair, SplitExponent, Pow2;
  }

  lemma OneLeaf(sha: Sha, leaf: Digest)
    ensures BottomUp(sha, [leaf]) == leaf && TopDown(sha, [leaf]) == leaf
  {
    hide NextLevel, SplitExponent, Pow2;
  }

  /** The two constructions agree for every number of leaves. */
  lemma {:induction false} BottomUpIsTopDown(sha: Sha, leaves: seq<Digest>)
    requires |leaves| > 0
    ensures BottomUp(sha, leaves) == TopDown(sha, leaves)
    decreases |leaves|
  {
    hide BottomUp, TopDown, NextLevel, Pair, SplitExponent, Pow2;
    if |leaves| == 1 {
      OneLeaf(sha, leaves[0]);
      assert leaves == [leaves[0]];
    } else {
      var e := SplitExponent(|leaves|);
      var k := Pow2(e);
      var left, right := leaves[..k], leaves[k..];
      TopDownSplits(sha, leaves);
      BottomUpIsTopDown(sha, left);
      BottomUpIsTopDown(sha, right);
      assert leaves == left + right;
      RootSplits(sha, left, right, e);
    }
  }

  // ----- Receipts

  datatype Step = Left(hash: Digest) | Right(hash: Digest)

  function Fold(sha: Sha, leaf: Digest, proof: seq<Step>): Digest
    decreases |proof|
  {
    if proof == [] then leaf
    else
      var current := match proof[0]
        case Left(hash) => Pair(sha, hash, leaf)
        case Right(hash) => Pair(sha, leaf, hash);
      Fold(sha, current, proof[1..])
  }

  /** The loop that recomputes the root of a receipt. */
  method CalculateRoot(sha: Sha, leaf: Digest, proof: seq<Step>) returns (root: Digest)
    ensures root == Fold(sha, leaf, proof)
  {
    root := leaf;
    for i := 0 to |proof|
      invariant Fold(sha, leaf, proof) == Fold(sha, root, proof[i..])
    {
      var element := proof[i];
      assert proof[i..][1..] == proof[i + 1..];
      if element.Left? {
        root := sha(element.hash + root);
      } else {
        root := sha(root + element.hash);
      }
    }
  }

  /** The siblings on the way from leaf `i` up; a promoted node has none on its level. */
  function Path(sha: Sha, level: seq<Digest>, i: nat): seq<Step>
    requires i < |level|
    decreases |level|
  {
    if |level| == 1 then []
    else
      var sibling :=
        if i % 2 == 1 then [Left(level[i - 1])]
        else if i + 1 < |level| then [Right(level[i + 1])]
        else [];
      sibling + Path(sha, NextLevel(sha, level), i / 2)
  }

  lemma {:induction false} NextLevelAt(sha: Sha, level: seq<Digest>, j: nat)
    requires j < (|level| + 1) / 2
    ensures NextLevel(sha, level)[j] ==
      if 2 * j + 1 < |level| then Pair(sha, level[2 * j], level[2 * j + 1]) else level[2 * j]
    decreases |level|
  {
    if |level| > 1 && j > 0 {
      NextLevelAt(sha, level[2..], j - 1);
    }
  }

  lemma PathStep(sha: Sha, level: seq<Digest>, j: nat, right: bool)
    requires |level| > 1 && if right then 2 * j + 1 < |level| else 2 * j < |level|
    ensures var rest := Path(sha, NextLevel(sha, level), j);
      if right then Path(sha, level, 2 * j + 1) == [Left(level[2 * j])] + rest
      else Path(sha, level, 2 * j) == (if 2 * j + 1 < |level| then [Right(level[2 * j + 1])] else []) + rest
  {
    hide NextLevel;
    assert (2 * j + 1) / 2 == j && 2 * j / 2 == j;
  }

  /** One step up a path: from a node to the node above it. */
  lemma UpFromRight(sha: Sha, level: seq<Digest>, j: nat)
    requires 2 * j + 1 < |level|
    ensures Fold(sha, level[2 * j + 1], Path(sha, level, 2 * j + 1)) ==
            Fold(sha, NextLevel(sha, level)[j], Path(sha, NextLevel(sha, level), j))
  {
    hide NextLevel, Pair, Fold, Path;
    NextLevelAt(sha, level, j);
    PathStep(sha, level, j, true);
    FoldStep(sha, level[2 * j + 1], Left(level[2 * j]), Path(sha, NextLevel(sha, level), j));
  }

  lemma UpFromLeft(sha: Sha, level: seq<Digest>, j: nat)
    requires 2 * j < |level| && |level| > 1
    ensures Fold(sha, level[2 * j], Path(sha, level, 2 * j)) ==
            Fold(sha, NextLevel(sha, level)[j], Path(sha, NextLevel(sha, level), j))
  {
    hide NextLevel, Pair, Fold, Path;
    NextLevelAt(sha, level, j);
    PathStep(sha, level, j, false);
    var rest := Path(sha, NextLevel(sha, level), j);
    if 2 * j + 1 < |level| {
      FoldStep(sha, level[2 * j], Right(level[2 * j + 1]), rest);
    } else {
      assert [] + rest == rest;
    }
  }

  /** Every leaf's path leads to the root. */
  lemma {:induction false} PathLeadsToRoot(sha: Sha, level: seq<Digest>, i: nat)
    requires i < |level|
    ensures Fold(sha, level[i], Path(sha, level, i)) == BottomUp(sha, level)
    decreases |level|
  {
    hide NextLevel, Pair, Fold;
    if |level| == 1 {
      FoldNothing(sha, level[0]);
    } else {
      var j := i / 2;
      if i == 2 * j {
        UpFromLeft(sha, level, j);
      } else {
        UpFromRight(sha, level, j);
      }
      PathLeadsToRoot(sha, NextLevel(sha, level), j);
    }
  }

  lemma FoldNothing(sha: Sha, leaf: Digest)
    ensures Fold(sha, leaf, []) == leaf
  {
  }

  lemma FoldStep(sha: Sha, leaf: Digest, s: Step, rest: seq<Step>)
    ensures Fold(sha, leaf, [s] + rest) ==
      Fold(sha, if s.Left? then Pair(sha, s.hash, leaf) else Pair(sha, leaf, s.hash), rest)
  {
    assert ([s] + rest)[1..] == rest;
  }

  // ----- What a root commits to

  const DIGEST_SIZE: nat := 32

  /** Two different byte strings, and these two, that the hash function maps to the same digest. */
  ghost predicate Collision(sha: Sha, x: seq<byte>, y: seq<byte>) {
    x != y && sha(x) == sha(y)
  }

  ghost predicate SameDirections(p: seq<Step>, q: seq<Step>) {
    |p| == |q| && forall i :: 0 <= i < |p| ==> (p[i].Left? <==> q[i].Left?)
  }

  predicate Sized(proof: seq<Step>) {
    forall i :: 0 <= i < |proof| ==> |proof[i].hash| == DIGEST_SIZE
  }

  ghost predicate HashesSized(sha: Sha) {
    forall x :: |sha(x)| == DIGEST_SIZE
  }

  /** The bytes that are hashed to go one step up. */
  function Joined(current: Digest, step: Step): seq<byte> {
    match step
    case Left(hash) => hash + current
    case Right(hash) => current + hash
  }

  /** The bytes that are hashed at step `i` of a fold. */
  function Input(sha: Sha, leaf: Digest, proof: seq<Step>, i: nat): seq<byte>
    requires i < |proof|
    decreases i
  {
    if i == 0 then Joined(leaf, proof[0]) else Input(sha, sha(Joined(leaf, proof[0])), proof[1..], i - 1)
  }

  /** At some step the two folds hash different bytes to the same digest. */
  ghost predicate FoldsCollide(sha: Sha, leaf: Digest, p: seq<Step>, leaf2: Digest, q: seq<Step>)
    requires |p| == |q|
  {
    exists i :: 0 <= i < |p| && Collision(sha, Input(sha, leaf, p, i), Input(sha, leaf2, q, i))
  }

  lemma JoinedBinds(leaf: Digest, s: Step, leaf2: Digest, u: Step)
    requires |leaf| == |leaf2| && |s.hash| == |u.hash| && (s.Left? <==> u.Left?)
    requires Joined(leaf, s) == Joined(leaf2, u)
    ensures leaf == leaf2 && s == u
  {
    var x, y, n := Joined(leaf, s), Joined(leaf2, u), if s.Left? then |s.hash| else |leaf|;
    assert x[..n] == y[..n] && x[n..] == y[n..];
    if s.Left? {
      assert x[..n] == s.hash && y[..n] == u.hash && x[n..] == leaf && y[n..] == leaf2;
    } else {
      assert x[..n] == leaf && y[..n] == leaf2 && x[n..] == s.hash && y[n..] == u.hash;
    }
  }

  /** Two paths with the same directions and the same root have the same leaf and the same siblings,
      or else they hash different bytes to the same digest at some step. */
  lemma {:induction false} ProofBinds(sha: Sha, leaf: Digest, p: seq<Step>, leaf2: Digest, q: seq<Step>)
    requires HashesSized(sha) && |leaf| == |leaf2| == DIGEST_SIZE && Sized(p) && Sized(q)
    requires SameDirections(p, q) && Fold(sha, leaf, p) == Fold(sha, leaf2, q)
    ensures (leaf == leaf2 && p == q) || FoldsCollide(sha, leaf, p, leaf2, q)
    decreases |p|
  {
    if p != [] {
      var x, y := Joined(leaf, p[0]), Joined(leaf2, q[0]);
      FoldsUp(sha, leaf, p);
      FoldsUp(sha, leaf2, q);
      ProofBinds(sha, sha(x), p[1..], sha(y), q[1..]);
      if FoldsCollide(sha, sha(x), p[1..], sha(y), q[1..]) {
        CollideBelow(sha, leaf, p, leaf2, q);
      } else if x != y {
        assert Collision(sha, Input(sha, leaf, p, 0), Input(sha, leaf2, q, 0));
      } else {
        JoinedBinds(leaf, p[0], leaf2, q[0]);
        assert p == [p[0]] + p[1..] && q == [q[0]] + q[1..];
      }
    }
  }

  lemma FoldsUp(sha: Sha, leaf: Digest, p: seq<Step>)
    requires p != []
    ensures Fold(sha, leaf, p) == Fold(sha, sha(Joined(leaf, p[0])), p[1..])
  {
  }

  lemma CollideBelow(sha: Sha, leaf: Digest, p: seq<Step>, leaf2: Digest, q: seq<Step>)
    requires |p| == |q| && p != []
    requires FoldsCollide(sha, sha(Joined(leaf, p[0])), p[1..], sha(Joined(leaf2, q[0])), q[1..])
    ensures FoldsCollide(sha, leaf, p, leaf2, q)
  {
    var up, up2 := sha(Joined(leaf, p[0])), sha(Joined(leaf2, q[0]));
    var i :| 0 <= i < |p[1..]| && Collision(sha, Input(sha, up, p[1..], i), Input(sha, up2, q[1..], i));
    assert Collision(sha, Input(sha, leaf, p, i + 1), Input(sha, leaf2, q, i + 1));
  }

  lemma {:induction false} PathSized(sha: Sha, level: seq<Digest>, i: nat)
    requires HashesSized(sha) && i < |level|
    requires forall j :: 0 <= j < |level| ==> |level[j]| == DIGEST_SIZE
    ensures Sized(Path(sha, level, i))
    decreases |level|
  {
    if |level| > 1 {
      var next := NextLevel(sha, level);
      forall j | 0 <= j < |next|
        ensures |next[j]| == DIGEST_SIZE
      {
        NextLevelAt(sha, level, j);
      }
      PathSized(sha, next, i / 2);
    }
  }

  /** The directions from a leaf depend on the number of leaves alone. */
  lemma {:induction false} DirectionsAgree(sha: Sha, a: seq<Digest>, b: seq<Digest>, i: nat)
    requires |a| == |b| && i < |a|
    ensures SameDirections(Path(sha, a, i), Path(sha, b, i))
    decreases |a|
  {
    hide NextLevel;
    if |a| > 1 {
      DirectionsAgree(sha, NextLevel(sha, a), NextLevel(sha, b), i / 2);
    }
  }

  ghost predicate AllSized(leaves: seq<Digest>) {
    forall j :: 0 <= j < |leaves| ==> |leaves[j]| == DIGEST_SIZE
  }

  lemma {:induction false} FoldConcat(sha: Sha, leaf: Digest, p: seq<Step>, q: seq<Step>)
    ensures Fold(sha, leaf, p + q) == Fold(sha, Fold(sha, leaf, p), q)
    decreases |p|
  {
    if p == [] {
      assert p + q == q;
    } else {
      assert (p + q)[1..] == p[1..] + q;
      FoldsUp(sha, leaf, p + q);
      FoldsUp(sha, leaf, p);
      FoldConcat(sha, sha(Joined(leaf, p[0])), p[1..], q);
    }
  }

  lemma FoldSized(sha: Sha, leaf: Digest, p: seq<Step>)
    requires HashesSized(sha) && |leaf| == DIGEST_SIZE
    ensures |Fold(sha, leaf, p)| == DIGEST_SIZE
    decreases |p|
  {
    if p != [] {
      FoldsUp(sha, leaf, p);
      FoldSized(sha, sha(Joined(leaf, p[0])), p[1..]);
    }
  }

  /**
  A proof that folds to the root of a tree and whose directions are the last ones from leaf `i` is for the
  node `m` steps up from that leaf, `m` being how many directions it lacks, or else its fold and the leaf's
  own collide.
  */
  lemma ReceiptForNode(sha: Sha, leaves: seq<Digest>, i: nat, m: nat, leaf: Digest, proof: seq<Step>)
    requires HashesSized(sha) && i < |leaves| && |leaf| == DIGEST_SIZE && Sized(proof) && AllSized(leaves)
    requires m <= |Path(sha, leaves, i)| && SameDirections(proof, Path(sha, leaves, i)[m..])
    requires Fold(sha, leaf, proof) == BottomUp(sha, leaves)
    ensures var path := Path(sha, leaves, i);
      var node := Fold(sha, leaves[i], path[..m]);
      (leaf == node && proof == path[m..]) || FoldsCollide(sha, leaf, proof, node, path[m..])
  {
    hide Path, Fold, BottomUp, FoldsCollide;
    var path := Path(sha, leaves, i);
    PathLeadsToRoot(sha, leaves, i);
    PathSized(sha, leaves, i);
    assert path == path[..m] + path[m..];
    FoldConcat(sha, leaves[i], path[..m], path[m..]);
    FoldSized(sha, leaves[i], path[..m]);
    ProofBinds(sha, leaf, proof, Fold(sha, leaves[i], path[..m]), path[m..]);
  }

  /** A receipt with the directions of leaf `i` that folds to the root of the tree is for the digest
      at leaf `i`, or else its fold and the leaf's own collide. */
  lemma ReceiptForLeaf(sha: Sha, leaves: seq<Digest>, i: nat, leaf: Digest, proof: seq<Step>)
    requires HashesSized(sha) && i < |leaves| && |leaf| == DIGEST_SIZE && Sized(proof) && AllSized(leaves)
    requires SameDirections(proof, Path(sha, leaves, i)) && Fold(sha, leaf, proof) == BottomUp(sha, leaves)
    ensures var path := Path(sha, leaves, i);
      (leaf == leaves[i] && proof == path) || FoldsCollide(sha, leaf, proof, leaves[i], path)
  {
    hide Path, Fold, BottomUp, FoldsCollide;
    PathLeadsToRoot(sha, leaves, i);
    PathSized(sha, leaves, i);
    ProofBinds(sha, leaf, proof, leaves[i], Path(sha, leaves, i));
  }

  // ----- Which node a receipt is for

  /** How many siblings leaf `i` of `n` has on its way up. */
  function Depth(n: nat, i: nat): nat
    requires i < n
    decreases n
  {
    if n == 1 then 0 else (if i % 2 == 1 || i + 1 < n then 1 else 0) + Depth((n + 1) / 2, i / 2)
  }

  /** The leaf of `n` that the directions lead to, from the root down; any directions beyond it are left over, and
      where there are too few it is the first leaf below. */
  function LeafOf(n: nat, proof: seq<Step>): (i: nat)
    requires n > 0
    ensures i < n
    decreases n
  {
    if n == 1 then 0
    else
      var j := LeafOf((n + 1) / 2, proof);
      var d := Depth((n + 1) / 2, j);
      if 2 * j + 1 < n && d < |proof| && proof[|proof| - 1 - d].Left? then 2 * j + 1 else 2 * j
  }

  lemma {:induction false} PathDepth(sha: Sha, level: seq<Digest>, i: nat)
    requires i < |level|
    ensures |Path(sha, level, i)| == Depth(|level|, i)
    decreases |level|
  {
    hide NextLevel;
    if |level| > 1 {
      PathDepth(sha, NextLevel(sha, level), i / 2);
    }
  }

  /** The shorter of the two has the directions in which the longer ends. */
  ghost predicate EndAlike(p: seq<Step>, q: seq<Step>) {
    forall t :: 0 <= t < |p| && t < |q| ==> (FromEnd(p, t).Left? <==> FromEnd(q, t).Left?)
  }

  function FromEnd(p: seq<Step>, t: nat): Step
    requires t < |p|
  {
    p[|p| - 1 - t]
  }

  lemma AlikeLonger(p: seq<Step>, q: seq<Step>, s: Step)
    requires EndAlike(p, q) && (|q| < |p| ==> (FromEnd(p, |q|).Left? <==> s.Left?))
    ensures EndAlike(p, [s] + q)
  {
    var r := [s] + q;
    forall t | 0 <= t < |p| && t < |r|
      ensures FromEnd(p, t).Left? <==> FromEnd(r, t).Left?
    {
      if t < |q| {
        assert FromEnd(r, t) == FromEnd(q, t);
      }
    }
  }

  lemma {:induction false} LeafAlike(sha: Sha, level: seq<Digest>, proof: seq<Step>)
    requires |level| > 0
    ensures EndAlike(proof, Path(sha, level, LeafOf(|level|, proof)))
    decreases |level|
  {
    hide NextLevel, Path, EndAlike;
    if |level| == 1 {
      AlikeNothing(sha, level, proof);
    } else {
      var next := NextLevel(sha, level);
      var j := LeafOf(|next|, proof);
      var rest := Path(sha, next, j);
      LeafAlike(sha, next, proof);
      PathDepth(sha, next, j);
      var right := LeafOf(|level|, proof) == 2 * j + 1;
      PathStep(sha, level, j, right);
      if right {
        AlikeLonger(proof, rest, Left(level[2 * j]));
      } else if 2 * j + 1 < |level| {
        AlikeLonger(proof, rest, Right(level[2 * j + 1]));
      } else {
        assert [] + rest == rest;
      }
    }
  }

  lemma AlikeNothing(sha: Sha, level: seq<Digest>, proof: seq<Step>)
    requires |level| == 1
    ensures EndAlike(proof, Path(sha, level, 0))
  {
  }

  lemma LeafOfStep(n: nat, proof: seq<Step>)
    requires n > 1
    ensures var half := (n + 1) / 2;
      var j := LeafOf(half, proof);
      var d := Depth(half, j);
      && LeafOf(n, proof) == (if 2 * j + 1 < n && d < |proof| && FromEnd(proof, d).Left? then 2 * j + 1 else 2 * j)
      && Depth(n, LeafOf(n, proof)) == d + if 2 * j + 1 < n then 1 else 0
  {
    hide Depth;
    var j := LeafOf((n + 1) / 2, proof);
    DepthStep(n, 2 * j);
    if 2 * j + 1 < n {
      DepthStep(n, 2 * j + 1);
    }
  }

  lemma DepthStep(n: nat, i: nat)
    requires i < n && n > 1
    ensures Depth(n, i) == (if i % 2 == 1 || i + 1 < n then 1 else 0) + Depth((n + 1) / 2, i / 2)
  {
  }

  lemma FromEndLonger(p: seq<Step>, q: seq<Step>, t: nat)
    requires t < |q|
    ensures FromEnd(p + q, t) == FromEnd(q, t)
  {
  }

  /** Directions before those that lead to the leaf make no difference. */
  lemma {:induction false} LeafOfLonger(n: nat, p: seq<Step>, q: seq<Step>)
    requires n > 0 && |q| >= Depth(n, LeafOf(n, q))
    ensures LeafOf(n, p + q) == LeafOf(n, q)
    decreases n
  {
    hide Depth, LeafOf, FromEnd;
    if n > 1 {
      var half := (n + 1) / 2;
      LeafOfStep(n, q);
      LeafOfStep(n, p + q);
      LeafOfLonger(half, p, q);
      var d := Depth(half, LeafOf(half, q));
      if d < |q| {
        FromEndLonger(p, q, d);
      } else {
        LeafTooDeep(n, q);
      }
    }
  }

  /** Where the directions just reach the leaf above, that leaf has no sibling to go to. */
  lemma LeafTooDeep(n: nat, q: seq<Step>)
    requires n > 1 && |q| >= Depth(n, LeafOf(n, q))
    requires |q| <= Depth((n + 1) / 2, LeafOf((n + 1) / 2, q))
    ensures 2 * LeafOf((n + 1) / 2, q) + 1 >= n
  {
    hide Depth, LeafOf, FromEnd;
    LeafOfStep(n, q);
  }

  /** The directions of a leaf's own path lead to that leaf. */
  lemma {:induction false} LeafOfPath(sha: Sha, level: seq<Digest>, i: nat)
    requires i < |level|
    ensures LeafOf(|level|, Path(sha, level, i)) == i
    decreases |level|
  {
    hide NextLevel, Path;
    if |level| > 1 {
      var next, j := NextLevel(sha, level), i / 2;
      var rest := Path(sha, next, j);
      LeafOfPath(sha, next, j);
      PathDepth(sha, next, j);
      PathStep(sha, level, j, i % 2 == 1);
      var step := Path(sha, level, i)[..|Path(sha, level, i)| - |rest|];
      assert Path(sha, level, i) == step + rest;
      LeafOfLonger(|next|, step, rest);
    }
  }

  lemma AlikeDirections(p: seq<Step>, q: seq<Step>, n: nat)
    requires EndAlike(p, q) && n <= |p| && n <= |q|
    ensures SameDirections(p[|p| - n..], q[|q| - n..])
  {
    var a, b := p[|p| - n..], q[|q| - n..];
    forall i | 0 <= i < n
      ensures a[i].Left? <==> b[i].Left?
    {
      var t := n - 1 - i;
      assert FromEnd(p, t).Left? <==> FromEnd(q, t).Left?;
      assert a[i] == FromEnd(p, t) && b[i] == FromEnd(q, t);
    }
  }

  /** A proof with more directions than the leaf they lead to has siblings is for something hashed into that leaf. */
  lemma ReceiptBelowLeaf(sha: Sha, leaves: seq<Digest>, i: nat, m: nat, leaf: Digest, proof: seq<Step>)
    requires HashesSized(sha) && i < |leaves| && |leaf| == DIGEST_SIZE && Sized(proof) && AllSized(leaves)
    requires m <= |proof| && SameDirections(proof[m..], Path(sha, leaves, i))
    requires Fold(sha, leaf, proof) == BottomUp(sha, leaves)
    ensures var path, below := Path(sha, leaves, i), Fold(sha, leaf, proof[..m]);
      (below == leaves[i] && proof[m..] == path) || FoldsCollide(sha, below, proof[m..], leaves[i], path)
  {
    hide Path, Fold, BottomUp, FoldsCollide;
    assert proof == proof[..m] + proof[m..];
    FoldConcat(sha, leaf, proof[..m], proof[m..]);
    FoldSized(sha, leaf, proof[..m]);
    ReceiptForLeaf(sha, leaves, i, Fold(sha, leaf, proof[..m]), proof[m..]);
  }

  /** The fold of the receipt and that of the leaf its directions lead to hash different bytes to one digest, at some
      step of the part that they share. */
  ghost predicate ReceiptCollides(sha: Sha, leaves: seq<Digest>, leaf: Digest, proof: seq<Step>)
    requires |leaves| > 0
  {
    var i := LeafOf(|leaves|, proof);
    var path := Path(sha, leaves, i);
    if |proof| <= |path| then
      var m := |path| - |proof|;
      FoldsCollide(sha, leaf, proof, Fold(sha, leaves[i], path[..m]), path[m..])
    else
      var m := |proof| - |path|;
      FoldsCollide(sha, Fold(sha, leaf, proof[..m]), proof[m..], leaves[i], path)
  }

  /** With `i` the leaf that the directions lead to: the receipt is for the node as many steps above leaf `i` as it lacks,
      or for what is hashed into leaf `i` by the steps that it has too many. */
  ghost predicate IsFor(sha: Sha, leaves: seq<Digest>, leaf: Digest, proof: seq<Step>)
    requires |leaves| > 0
  {
    var i := LeafOf(|leaves|, proof);
    var path := Path(sha, leaves, i);
    if |proof| <= |path| then
      var m := |path| - |proof|;
      leaf == Fold(sha, leaves[i], path[..m]) && proof == path[m..]
    else
      var m := |proof| - |path|;
      Fold(sha, leaf, proof[..m]) == leaves[i] && proof[m..] == path
  }

  /**
  Any receipt at all that folds to the root of a tree, collisions apart: with `i` the leaf that its directions lead to,
  it is for a node above leaf `i` if it has fewer steps than that leaf's path, for leaf `i` itself if it has as many,
  and for something hashed into leaf `i` if it has more; the steps that they share are the same.
  */
  lemma ReceiptFor(sha: Sha, leaves: seq<Digest>, leaf: Digest, proof: seq<Step>)
    requires HashesSized(sha) && |leaves| > 0 && |leaf| == DIGEST_SIZE && Sized(proof) && AllSized(leaves)
    requires Fold(sha, leaf, proof) == BottomUp(sha, leaves)
    ensures ReceiptCollides(sha, leaves, leaf, proof) || IsFor(sha, leaves, leaf, proof)
  {
    hide Path, Fold, BottomUp, FoldsCollide, LeafOf, EndAlike, SameDirections;
    var i := LeafOf(|leaves|, proof);
    var path := Path(sha, leaves, i);
    LeafAlike(sha, leaves, proof);
    if |proof| <= |path| {
      AlikeDirections(proof, path, |proof|);
      assert proof[0..] == proof;
      ReceiptForNode(sha, leaves, i, |path| - |proof|, leaf, proof);
    } else {
      AlikeDirections(proof, path, |path|);
      assert path[0..] == path;
      ReceiptBelowLeaf(sha, leaves, i, |proof| - |path|, leaf, proof);
    }
  }

  /** The receipt is for a leaf of the tree: that leaf's digest and path. */
  ghost predicate ForSomeLeaf(sha: Sha, leaves: seq<Digest>, leaf: Digest, proof: seq<Step>) {
    exists i :: 0 <= i < |leaves| && leaf == leaves[i] && proof == Path(sha, leaves, i)
  }

  /**
  A receipt that folds to the root of a tree is for a leaf of it, collisions apart, if and only if it has as many steps
  as the leaf that its directions lead to; which can be told from the directions and the number of leaves.
  */
  lemma ReceiptForLeafIff(sha: Sha, leaves: seq<Digest>, leaf: Digest, proof: seq<Step>)
    requires HashesSized(sha) && |leaves| > 0 && |leaf| == DIGEST_SIZE && Sized(proof) && AllSized(leaves)
    requires Fold(sha, leaf, proof) == BottomUp(sha, leaves)
    ensures || ReceiptCollides(sha, leaves, leaf, proof)
            || (ForSomeLeaf(sha, leaves, leaf, proof) <==> |proof| == Depth(|leaves|, LeafOf(|leaves|, proof)))
  {
    hide Path, Fold, BottomUp, ReceiptCollides, LeafOf, Depth;
    var i := LeafOf(|leaves|, proof);
    PathDepth(sha, leaves, i);
    if |proof| == Depth(|leaves|, i) {
      ReceiptFor(sha, leaves, leaf, proof);
      assert Path(sha, leaves, i)[..0] == [] && Path(sha, leaves, i)[0..] == Path(sha, leaves, i);
      FoldNothing(sha, leaves[i]);
    }
    if ForSomeLeaf(sha, leaves, leaf, proof) {
      var k :| 0 <= k < |leaves| && leaf == leaves[k] && proof == Path(sha, leaves, k);
      LeafOfPath(sha, leaves, k);
    }
  }

  /** A root and a number of leaves determine every leaf, or else the folds of some leaf in the two trees collide. */
  lemma RootBindsLeaves(sha: Sha, a: seq<Digest>, b: seq<Digest>)
    requires HashesSized(sha) && |a| == |b| > 0 && AllSized(a) && AllSized(b)
    requires BottomUp(sha, a) == BottomUp(sha, b)
    ensures a == b || exists i :: 0 <= i < |a| && LeafFoldsCollide(sha, a, b, i)
  {
    hide Path, Fold, BottomUp, FoldsCollide;
    if a != b {
      var i :| 0 <= i < |a| && a[i] != b[i];
      DirectionsAgree(sha, a, b, i);
      PathLeadsToRoot(sha, a, i);
      PathSized(sha, a, i);
      ReceiptForLeaf(sha, b, i, a[i], Path(sha, a, i));
      assert LeafFoldsCollide(sha, a, b, i);
    }
  }

  /** The folds from leaf `i` to the roots of the two trees collide. */
  ghost predicate LeafFoldsCollide(sha: Sha, a: seq<Digest>, b: seq<Digest>, i: nat)
    requires |a| == |b| && i < |a|
  {
    var p, q := Path(sha, a, i), Path(sha, b, i);
    |p| == |q| && FoldsCollide(sha, a[i], p, b[i], q)
  }

  // ----- Leaves of receipts

  datatype Components = Components(writeSetDigest: Digest, commitEvidence: seq<byte>, claimsDigest: Option<Digest>)

  /** The bytes that are hashed to the digest of a leaf. */
  function LeafInput(sha: Sha, c: Components): seq<byte> {
    var evidence := sha(c.commitEvidence);
    match c.claimsDigest
    case Some(claims) => c.writeSetDigest + evidence + claims
    case None => c.writeSetDigest + evidence
  }

  function LeafDigest(sha: Sha, c: Components): Digest {
    sha(LeafInput(sha, c))
  }

  predicate ComponentsSized(c: Components) {
    && |c.writeSetDigest| == DIGEST_SIZE
    && (c.claimsDigest.Some? ==> |c.claimsDigest.value| == DIGEST_SIZE)
  }

  /** The two leaves hash different bytes to the same digest, or their commit evidences do. */
  ghost predicate LeavesCollide(sha: Sha, c: Components, d: Components) {
    || Collision(sha, LeafInput(sha, c), LeafInput(sha, d))
    || Collision(sha, c.commitEvidence, d.commitEvidence)
  }

  /** A leaf digest commits to all its components, and to whether there is a claims digest, or else
      the two leaves collide. */
  lemma LeafBinds(sha: Sha, c: Components, d: Components)
    requires HashesSized(sha) && ComponentsSized(c) && ComponentsSized(d)
    requires LeafDigest(sha, c) == LeafDigest(sha, d)
    ensures c == d || LeavesCollide(sha, c, d)
  {
    var ce, de := sha(c.commitEvidence), sha(d.commitEvidence);
    var cc := if c.claimsDigest.Some? then c.claimsDigest.value else [];
    var dc := if d.claimsDigest.Some? then d.claimsDigest.value else [];
    var x, y := c.writeSetDigest + ce + cc, d.writeSetDigest + de + dc;
    assert x == LeafInput(sha, c) && y == LeafInput(sha, d);
    if x == y {
      assert x[..32] == c.writeSetDigest && y[..32] == d.writeSetDigest;
      assert x[32..64] == ce && y[32..64] == de;
      assert x[64..] == cc && y[64..] == dc;
    }
  }

  /** Two receipts with the same root and the same directions are the same receipt, component by
      component, or else their folds or their leaves collide. */
  lemma ReceiptBinds(sha: Sha, c: Components, p: seq<Step>, d: Components, q: seq<Step>)
    requires HashesSized(sha) && ComponentsSized(c) && ComponentsSized(d) && Sized(p) && Sized(q)
    requires SameDirections(p, q)
    requires Fold(sha, LeafDigest(sha, c), p) == Fold(sha, LeafDigest(sha, d), q)
    ensures (c == d && p == q) || LeavesCollide(sha, c, d) ||
      FoldsCollide(sha, LeafDigest(sha, c), p, LeafDigest(sha, d), q)
  {
    hide FoldsCollide, LeavesCollide, Fold;
    ProofBinds(sha, LeafDigest(sha, c), p, LeafDigest(sha, d), q);
    if LeafDigest(sha, c) == LeafDigest(sha, d) {
      LeafBinds(sha, c, d);
    }
  }

  /**
  Without knowing the directions a verifier can be given an inner node for a leaf: the digest of leaf `i - 1`
  as the write set digest and the bytes hashed to leaf `i` as the commit evidence, with the rest of that
  leaf's path, fold to the root of the tree.
  */
  lemma InnerNodePasses(sha: Sha, leaves: seq<Digest>, i: nat, c: Components)
    requires i % 2 == 1 && i < |leaves| && leaves[i] == LeafDigest(sha, c)
    ensures var path := Path(sha, leaves, i);
      && path != []
      && Fold(sha, LeafDigest(sha, Components(leaves[i - 1], LeafInput(sha, c), None)), path[1..]) ==
        BottomUp(sha, leaves)
  {
    hide NextLevel, BottomUp, Fold;
    PathLeadsToRoot(sha, leaves, i);
    var path := Path(sha, leaves, i);
    assert path == [Left(leaves[i - 1])] + Path(sha, NextLevel(sha, leaves), i / 2);
    FoldsUp(sha, leaves[i], path);
  }

  /**
  And it can be given what is hashed into a leaf: if the write set digest of leaf `i` is the digest of some components,
  these pass with one step more than the path of that leaf.
  */
  lemma BelowLeafPasses(sha: Sha, leaves: seq<Digest>, i: nat, d: Components, evidence: seq<byte>)
    requires i < |leaves| && leaves[i] == LeafDigest(sha, Components(LeafDigest(sha, d), evidence, None))
    ensures Fold(sha, LeafDigest(sha, d), [Right(sha(evidence))] + Path(sha, leaves, i)) == BottomUp(sha, leaves)
  {
    hide NextLevel, BottomUp, Fold, Path;
    PathLeadsToRoot(sha, leaves, i);
    var proof := [Right(sha(evidence))] + Path(sha, leaves, i);
    assert proof[1..] == Path(sha, leaves, i);
    FoldsUp(sha, LeafDigest(sha, d), proof);
  }
}
