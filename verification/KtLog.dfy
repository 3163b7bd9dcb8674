/**
 What the key-transparency log promises: proofs made from a tree are accepted, accepted proofs say
 the truth about the tree, and along any run of consistent heads no index ever changes its leaf.
 */
module KtLog {
  import opened Prelude
  import opened KtTree
  import opened KtFold
  import opened KtVerify

  function Ids(ds: seq<Digest>): (ids: seq<ContentId>)
    ensures WellFormed(ids) && Digests(ids) == ds
  {
    seq(|ds|, k requires 0 <= k < |ds| => Blake3(ds[k]))
  }

  /** The proof carries the leaf at its index and that leaf's audit path. */
  ghost predicate Proves(proof: InclusionProof, leaves: seq<Digest>) {
    && proof.leafIndex < |leaves|
    && proof.leafHash == Blake3(leaves[proof.leafIndex])
    && proof.auditPath == Ids(AuditPath(proof.leafIndex, leaves))
  }

  /** `MerkleTree`: the reference log, appending in place. */
  class MerkleTree {
    var leaves: seq<Digest>

    constructor ()
      ensures leaves == []
    {
      leaves := [];
    }

    method Append(leafHash: ContentId) returns (index: Option<nat>)
      modifies this
      ensures leafHash.Malformed? ==> index == None && leaves == old(leaves)
      ensures leafHash.Blake3? ==> index == Some(|old(leaves)|) && leaves == old(leaves) + [leafHash.digest]
    {
      match leafHash {
        case Malformed(_) =>
          index := None;
        case Blake3(d) =>
          leaves := leaves + [d];
          index := Some(|leaves| - 1);
      }
    }

    /** The root against which exactly the tree's own leaves with their audit paths are accepted. */
    method Root() returns (root: Option<ContentId>)
      ensures root == None <==> leaves == []
      ensures root.Some? ==> root.value == Blake3(Mth(leaves))
      ensures root.Some? ==> forall proof: InclusionProof | proof.treeSize == |leaves| ::
        Included(proof, root.value) <==> Proves(proof, leaves)
    {
      if leaves == [] {
        return None;
      }
      forall proof: InclusionProof | proof.treeSize == |leaves|
        ensures Included(proof, Blake3(Mth(leaves))) <==> Proves(proof, leaves)
      {
        InclusionExact(proof, leaves);
      }
      return Some(Blake3(Mth(leaves)));
    }

    /** Every path the tree hands out is accepted for that leaf against the tree's own root. */
    method InclusionPath(index: U64) returns (path: Option<seq<ContentId>>)
      ensures path.Some? <==> index < |leaves|
      ensures path.Some? && |leaves| <= U64_MAX ==>
        Included(InclusionProof(|leaves|, index, Blake3(leaves[index]), path.value), Blake3(Mth(leaves)))
    {
      if index >= |leaves| {
        return None;
      }
      InclusionComplete(index, leaves);
      return Some(Ids(AuditPath(index, leaves)));
    }

    /** Every consistency path the tree hands out is accepted between its own prefix and itself. */
    method ConsistencyPath(first: U64) returns (path: Option<seq<ContentId>>)
      ensures path.Some? <==> 0 < first <= |leaves|
      ensures path.Some? && |leaves| <= U64_MAX ==>
        Consistent(TreeHead(first, Blake3(Mth(leaves[..first]))), TreeHead(|leaves|, Blake3(Mth(leaves))),
                   ConsistencyProof(first, |leaves|, path.value))
    {
      if first == 0 || first > |leaves| {
        return None;
      }
      if first == |leaves| {
        assert leaves[..first] == leaves;
        return Some([]);
      }
      ConsistencyComplete(first, leaves, true, Mth(leaves[..first]));
      return Some(Ids(Subproof(first, leaves, true)));
    }
  }

  // ---------------------------------------------------------------- completeness and soundness

  /** Inclusion completeness: the recursive audit path folds to the recursive tree hash. */
  lemma {:induction false} InclusionComplete(i: nat, leaves: seq<Digest>)
    requires i < |leaves|
    ensures RootOf(|leaves|, i, leaves[i], AuditPath(i, leaves)) == Some(Mth(leaves))
    decreases |leaves|
  {
    hide Split, PowerOfTwo;
    var n := |leaves|;
    if n > 1 {
      SplitIsLargestPowerBelow(n);
      var k := Split(n);
      assert Below(AuditPath(i, leaves)) == if i < k then AuditPath(i, leaves[..k]) else AuditPath(i - k, leaves[k..]);
      if i < k {
        InclusionComplete(i, leaves[..k]);
      } else {
        InclusionComplete(i - k, leaves[k..]);
      }
    }
  }

  /** Inclusion soundness and uniqueness: whatever folds to the root is the leaf with its own audit path. */
  lemma {:induction false} InclusionSound(i: nat, leaves: seq<Digest>, leaf: Digest, path: seq<Digest>)
    requires i < |leaves|
    requires RootOf(|leaves|, i, leaf, path) == Some(Mth(leaves))
    ensures leaf == leaves[i] && path == AuditPath(i, leaves)
    decreases |leaves|
  {
    hide Split, PowerOfTwo;
    var n := |leaves|;
    if n > 1 {
      SplitIsLargestPowerBelow(n);
      var k := Split(n);
      assert path == Below(path) + [Top(path)];
      assert Mth(leaves) == Node(Mth(leaves[..k]), Mth(leaves[k..]));
      if i < k {
        InclusionSound(i, leaves[..k], leaf, Below(path));
        assert AuditPath(i, leaves) == AuditPath(i, leaves[..k]) + [Mth(leaves[k..])];
      } else {
        InclusionSound(i - k, leaves[k..], leaf, Below(path));
        assert AuditPath(i, leaves) == AuditPath(i - k, leaves[k..]) + [Mth(leaves[..k])];
      }
    }
  }

  /** A prefix reaching past the split point has the same left half as the whole. */
  lemma MthOfLongPrefix(leaves: seq<Digest>, m: nat)
    requires 2 <= |leaves| && Split(|leaves|) < m <= |leaves|
    ensures var k := Split(|leaves|); 0 < k && Mth(leaves[..m]) == Node(Mth(leaves[..k]), Mth(leaves[k..][..m - k]))
  {
    hide Split, PowerOfTwo;
    var k := Split(|leaves|);
    SplitIsLargestPowerBelow(|leaves|);
    SplitIsUnique(m, k);
    assert leaves[..m][..k] == leaves[..k] && leaves[..m][k..] == leaves[k..][..m - k];
  }

  lemma BelowTop(path: seq<Digest>, top: Digest)
    ensures Below(path + [top]) == path && Top(path + [top]) == top
  {
  }

  /** Consistency completeness: the recursive subproof reconciles the prefix with the whole. */
  lemma {:induction false} ConsistencyComplete(m: nat, leaves: seq<Digest>, b: bool, oldRoot: Digest)
    requires 1 <= m <= |leaves|
    requires b ==> oldRoot == Mth(leaves[..m])
    ensures Reconcile(m, |leaves|, b, oldRoot, Subproof(m, leaves, b)) == Some(Pair(Mth(leaves[..m]), Mth(leaves)))
    decreases |leaves|
  {
    hide Split, PowerOfTwo, Mth, Subproof, Reconcile;
    var n := |leaves|;
    if m == n {
      assert leaves[..m] == leaves;
      SameSize(leaves, b, oldRoot);
    } else {
      SplitIsLargestPowerBelow(n);
      var k := Split(n);
      SubproofNode(m, leaves, b);
      MthNode(leaves);
      if m <= k {
        assert leaves[..k][..m] == leaves[..m];
        ConsistencyComplete(m, leaves[..k], b, oldRoot);
        ReconcileNode(m, n, b, oldRoot, Subproof(m, leaves[..k], b), Mth(leaves[k..]));
      } else {
        ConsistencyComplete(m - k, leaves[k..], false, oldRoot);
        ReconcileNode(m, n, b, oldRoot, Subproof(m - k, leaves[k..], false), Mth(leaves[..k]));
        MthOfLongPrefix(leaves, m);
      }
    }
  }

  lemma SameSize(leaves: seq<Digest>, b: bool, oldRoot: Digest)
    requires |leaves| >= 1 && (b ==> oldRoot == Mth(leaves))
    ensures Reconcile(|leaves|, |leaves|, b, oldRoot, Subproof(|leaves|, leaves, b))
         == Some(Pair(Mth(leaves), Mth(leaves)))
  {
    hide Mth;
  }

  lemma MthNode(leaves: seq<Digest>)
    requires |leaves| >= 2
    ensures var k := Split(|leaves|); 0 < k < |leaves| && Mth(leaves) == Node(Mth(leaves[..k]), Mth(leaves[k..]))
  {
    SplitIsLargestPowerBelow(|leaves|);
  }

  /** A subproof ends with the half that the boundary does not fall into. */
  lemma SubproofNode(m: nat, leaves: seq<Digest>, b: bool)
    requires 1 <= m < |leaves|
    ensures var k := Split(|leaves|);
      && 0 < k < |leaves|
      && Subproof(m, leaves, b) ==
         if m <= k then Subproof(m, leaves[..k], b) + [Mth(leaves[k..])]
         else Subproof(m - k, leaves[k..], false) + [Mth(leaves[..k])]
  {
    hide Split, PowerOfTwo, Mth;
    SplitIsLargestPowerBelow(|leaves|);
  }

  /** Reconciling takes the topmost path node last. */
  lemma ReconcileNode(m: nat, n: nat, b: bool, oldRoot: Digest, path: seq<Digest>, top: Digest)
    requires 1 <= m < n
    ensures var k := Split(n);
      && 0 < k < n
      && Reconcile(m, n, b, oldRoot, path + [top]) ==
         if m <= k then UnderRight(Reconcile(m, k, b, oldRoot, path), top)
         else UnderLeft(top, Reconcile(m - k, n - k, false, oldRoot, path))
  {
    hide Split, PowerOfTwo;
    SplitIsLargestPowerBelow(n);
    BelowTop(path, top);
  }

  /** Consistency soundness: reconciled roots of real trees are the roots of a prefix and its extension. */
  lemma {:induction false} ConsistencySound(d: seq<Digest>, e: seq<Digest>, b: bool, oldRoot: Digest, path: seq<Digest>)
    requires 1 <= |d| <= |e|
    requires Reconcile(|d|, |e|, b, oldRoot, path) == Some(Pair(Mth(d), Mth(e)))
    ensures d == e[..|d|]
    decreases |e|
  {
    hide Split, PowerOfTwo;
    var m, n := |d|, |e|;
    if m == n {
      MthInjective(d, e);
    } else {
      SplitIsLargestPowerBelow(n);
      var k := Split(n);
      if m <= k {
        ConsistencySound(d, e[..k], b, oldRoot, Below(path));
        assert e[..k][..m] == e[..m];
      } else {
        SplitIsUnique(m, k);
        MthInjective(d[..k], e[..k]);
        ConsistencySound(d[k..], e[k..], false, oldRoot, Below(path));
        assert d == d[..k] + d[k..] && e[..m] == e[..k] + e[k..][..m - k];
      }
    }
  }

  /** Proof uniqueness: only the recursive subproof reconciles a prefix with the whole. */
  lemma {:induction false} ConsistencyUnique(m: nat, leaves: seq<Digest>, b: bool, oldRoot: Digest, path: seq<Digest>)
    requires 1 <= m <= |leaves|
    requires Reconcile(m, |leaves|, b, oldRoot, path) == Some(Pair(Mth(leaves[..m]), Mth(leaves)))
    ensures path == Subproof(m, leaves, b)
    decreases |leaves|
  {
    hide Split, PowerOfTwo;
    var n := |leaves|;
    if m < n {
      SplitIsLargestPowerBelow(n);
      var k := Split(n);
      assert path == Below(path) + [Top(path)];
      assert Mth(leaves) == Node(Mth(leaves[..k]), Mth(leaves[k..]));
      if m <= k {
        assert leaves[..k][..m] == leaves[..m];
        ConsistencyUnique(m, leaves[..k], b, oldRoot, Below(path));
      } else {
        MthOfLongPrefix(leaves, m);
        ConsistencyUnique(m - k, leaves[k..], false, oldRoot, Below(path));
      }
    }
  }

  /** `verify_root` on a real tree accepts the leaf at the index with its own audit path, and nothing else. */
  lemma InclusionExact(proof: InclusionProof, leaves: seq<Digest>)
    requires 1 <= |leaves| == proof.treeSize
    ensures Included(proof, Blake3(Mth(leaves))) <==> Proves(proof, leaves)
  {
    hide Mth, AuditPath, Fold, RootOf;
    var i := proof.leafIndex;
    if i < |leaves| {
      InclusionComplete(i, leaves);
      if Included(proof, Blake3(Mth(leaves))) {
        InclusionSound(i, leaves, proof.leafHash.digest, Digests(proof.auditPath));
        SameIds(proof.auditPath, Ids(AuditPath(i, leaves)));
      }
    }
  }

  /**
   `verify_consistency` between two real trees accepts exactly when the first is a prefix of the second
   and the proof is the one `consistency_path` makes.
   */
  lemma ConsistencyExact(a: TreeHead, b: TreeHead, proof: ConsistencyProof, d: seq<Digest>, e: seq<Digest>)
    requires HeadOf(a, d) && HeadOf(b, e)
    ensures Consistent(a, b, proof) <==>
            d <= e && proof == ConsistencyProof(|d|, |e|, Ids(Subproof(|d|, e, true)))
  {
    hide Mth, Subproof, Reconcile;
    var m, n := |d|, |e|;
    if Consistent(a, b, proof) {
      if m == n {
        MthInjective(d, e);
        SubproofWhole(e);
        assert proof.proofPath == Ids([]);
      } else {
        var path := Digests(proof.proofPath);
        ConsistencySound(d, e, true, a.rootHash.digest, path);
        ConsistencyUnique(m, e, true, a.rootHash.digest, path);
        SameIds(proof.proofPath, Ids(path));
      }
    }
    if d <= e {
      assert d == e[..m];
      ConsistencyComplete(m, e, true, a.rootHash.digest);
      if m == n {
        SubproofWhole(e);
        assert d == e && |Ids([])| == 0;
      }
    }
  }

  lemma SubproofWhole(e: seq<Digest>)
    requires |e| >= 1
    ensures Subproof(|e|, e, true) == []
  {
  }

  lemma SameIds(x: seq<ContentId>, y: seq<ContentId>)
    requires WellFormed(x) && WellFormed(y) && Digests(x) == Digests(y)
    ensures x == y
  {
    assert |x| == |Digests(x)| && |y| == |Digests(y)|;
    forall k | 0 <= k < |x|
      ensures x[k] == y[k]
    {
      assert Digests(x)[k] == Digests(y)[k];
    }
  }

  /**
   The cases without a path: from the empty tree exactly the empty path is accepted, to every well-formed later
   head; between heads of one size exactly the empty path with equal roots; to a smaller head nothing.
   */
  lemma PathlessHeads(a: TreeHead, b: TreeHead, proof: ConsistencyProof)
    ensures a.treeSize == 0 < b.treeSize ==>
            (Consistent(a, b, proof) <==>
             a.rootHash.Blake3? && b.rootHash.Blake3? && proof == ConsistencyProof(0, b.treeSize, []))
    ensures a.treeSize == b.treeSize ==>
            (Consistent(a, b, proof) <==>
             a.rootHash.Blake3? && a.rootHash == b.rootHash && proof == ConsistencyProof(a.treeSize, b.treeSize, []))
    ensures a.treeSize > b.treeSize ==> !Consistent(a, b, proof)
  {
  }

  // ---------------------------------------------------------------- the tree from the bottom

  /** The next level up: neighbours are paired, a last one without neighbour is promoted. */
  function Level(ds: seq<Digest>): (r: seq<Digest>)
    ensures |r| == (|ds| + 1) / 2
  {
    seq((|ds| + 1) / 2, i requires 0 <= i < (|ds| + 1) / 2 =>
      if 2 * i + 1 < |ds| then Node(ds[2 * i], ds[2 * i + 1]) else ds[2 * i])
  }

  lemma MthLeaf(ds: seq<Digest>)
    requires |ds| == 1
    ensures Mth(ds) == ds[0]
  {
  }

  lemma LevelTwo(ds: seq<Digest>)
    requires |ds| == 2
    ensures Level(ds) == [Node(ds[0], ds[1])]
  {
  }

  /** The level over two halves, the left one even, is the two halves' levels. */
  lemma LevelHalves(ds: seq<Digest>, k: nat)
    requires 0 < k < |ds| && k % 2 == 0
    ensures Level(ds)[..k / 2] == Level(ds[..k]) && Level(ds)[k / 2..] == Level(ds[k..])
    ensures |ds[k..]| == 1 ==> Level(ds[k..]) == ds[k..]
  {
    var up := Level(ds);
    assert forall i | 0 <= i < k / 2 :: up[i] == Level(ds[..k])[i];
    assert forall i | 0 <= i < |up| - k / 2 :: up[k / 2 + i] == Level(ds[k..])[i];
  }

  /** The tree hash, built level by level. */
  lemma {:induction false} MthByLevel(ds: seq<Digest>)
    requires |ds| >= 1
    ensures |ds| == 1 ==> Mth(ds) == ds[0]
    ensures |ds| >= 2 ==> Mth(ds) == Mth(Level(ds))
    decreases |ds|
  {
    hide Split, PowerOfTwo, Mth, Level;
    var n := |ds|;
    if n == 1 {
      MthLeaf(ds);
    } else if n == 2 {
      SplitIsLargestPowerBelow(2);
      LevelTwo(ds);
      MthNode(ds);
      MthLeaf(ds[..1]);
      MthLeaf(ds[1..]);
      MthLeaf(Level(ds));
    } else if n > 2 {
      Halves(n);
      var k := Split(n);
      LevelHalves(ds, k);
      MthNode(ds);
      MthNode(Level(ds));
      MthByLevel(ds[..k]);
      MthByLevel(ds[k..]);
    }
  }

  // ---------------------------------------------------------------- from the verifiers alone

  /** The leaf that a root commits to at index `i` of `n`, if the hash opens that far. */
  function LeafAt(root: Digest, n: nat, i: nat): Option<Digest>
    requires i < n
    decreases n
  {
    if n == 1 then Some(root)
    else
      SplitIsLargestPowerBelow(n);
      var k := Split(n);
      if root.Atom? then None
      else if i < k then LeafAt(root.left, k, i)
      else LeafAt(root.right, n - k, i - k)
  }

  /** An accepted inclusion proof opens the root down to its leaf. */
  lemma {:induction false} FoldOpens(n: nat, i: nat, leaf: Digest, path: seq<Digest>)
    requires i < n && RootOf(n, i, leaf, path).Some?
    ensures LeafAt(RootOf(n, i, leaf, path).value, n, i) == Some(leaf)
    decreases n
  {
    hide Split, PowerOfTwo;
    if n > 1 {
      SplitIsLargestPowerBelow(n);
      var k := Split(n);
      if i < k {
        FoldOpens(k, i, leaf, Below(path));
      } else {
        FoldOpens(n - k, i - k, leaf, Below(path));
      }
    }
  }

  /** Reconciled roots commit to the same leaf at every index of the old tree. */
  lemma {:induction false} ReconcileKeepsLeaves(m: nat, n: nat, b: bool, oldRoot: Digest, path: seq<Digest>, i: nat)
    requires i < m <= n
    requires Reconcile(m, n, b, oldRoot, path).Some?
    ensures var r := Reconcile(m, n, b, oldRoot, path).value; LeafAt(r.was, m, i) == LeafAt(r.now, n, i)
    decreases n
  {
    hide Split, PowerOfTwo;
    if m < n {
      SplitIsLargestPowerBelow(n);
      var k := Split(n);
      if m <= k {
        ReconcileKeepsLeaves(m, k, b, oldRoot, Below(path), i);
      } else {
        SplitIsUnique(m, k);
        if i >= k {
          ReconcileKeepsLeaves(m - k, n - k, false, oldRoot, Below(path), i - k);
        }
      }
    }
  }

  /** A run: heads, each linked to the next by an accepted consistency proof. */
  ghost predicate Run(heads: seq<TreeHead>, proofs: seq<ConsistencyProof>) {
    && |heads| == |proofs| + 1
    && forall j | 0 <= j < |proofs| :: Consistent(heads[j], heads[j + 1], proofs[j])
  }

  /** Along a run sizes never shrink, and every index keeps what the earlier head committed to. */
  lemma {:induction false} RunKeepsLeaves(heads: seq<TreeHead>, proofs: seq<ConsistencyProof>, x: nat, y: nat, i: nat)
    requires Run(heads, proofs) && x < y < |heads|
    requires i < heads[x].treeSize
    ensures heads[x].treeSize <= heads[y].treeSize
    ensures heads[x].rootHash.Blake3? && heads[y].rootHash.Blake3?
    ensures LeafAt(heads[x].rootHash.digest, heads[x].treeSize, i) ==
      LeafAt(heads[y].rootHash.digest, heads[y].treeSize, i)
    decreases y
  {
    var z := y - 1;
    assert Consistent(heads[z], heads[z + 1], proofs[z]);
    if x < z {
      RunKeepsLeaves(heads, proofs, x, z, i);
    }
    if heads[z].treeSize < heads[y].treeSize {
      ReconcileKeepsLeaves(heads[z].treeSize, heads[y].treeSize, true, heads[z].rootHash.digest,
                           Digests(proofs[z].proofPath), i);
    }
  }

  /**
   Append-only, from the verifiers alone: whatever the log did to produce its heads, two inclusion
   proofs accepted for the same index against any two heads of one run carry the same leaf.
   */
  lemma AppendOnly(heads: seq<TreeHead>, proofs: seq<ConsistencyProof>, x: nat, y: nat, p: InclusionProof,
                   q: InclusionProof)
    requires Run(heads, proofs) && x <= y < |heads|
    requires IncludedIn(p, heads[x]) && IncludedIn(q, heads[y])
    requires p.leafIndex == q.leafIndex
    ensures p.leafHash == q.leafHash
  {
    FoldOpens(p.treeSize, p.leafIndex, p.leafHash.digest, Digests(p.auditPath));
    FoldOpens(q.treeSize, q.leafIndex, q.leafHash.digest, Digests(q.auditPath));
    if x < y {
      RunKeepsLeaves(heads, proofs, x, y, p.leafIndex);
    }
  }

  /** A head whose root is the tree hash of these leaves. */
  ghost predicate HeadOf(head: TreeHead, leaves: seq<Digest>) {
    1 <= |leaves| == head.treeSize && head.rootHash == Blake3(Mth(leaves))
  }

  /** Over real trees, every earlier tree of a run is exactly a prefix of every later one. */
  lemma {:induction false} RunOfTrees(heads: seq<TreeHead>, proofs: seq<ConsistencyProof>, trees: seq<seq<Digest>>,
                                      x: nat, y: nat)
    requires Run(heads, proofs) && x <= y < |heads| == |trees|
    requires forall j | 0 <= j < |heads| :: HeadOf(heads[j], trees[j])
    ensures trees[x] <= trees[y]
    decreases y
  {
    if x < y {
      var z := y - 1;
      assert Consistent(heads[z], heads[z + 1], proofs[z]) && HeadOf(heads[z], trees[z]) && HeadOf(heads[y], trees[y]);
      RunOfTrees(heads, proofs, trees, x, z);
      if heads[z].treeSize == heads[y].treeSize {
        MthInjective(trees[z], trees[y]);
      } else {
        ConsistencySound(trees[z], trees[y], true, heads[z].rootHash.digest, Digests(proofs[z].proofPath));
      }
    }
  }
}
