/**
 The two proof verifiers of the key-transparency log: bottom-up loops over index bits.  Each is proved
 to accept exactly what the top-down reconstruction of `KtFold` yields.
 */
module KtVerify {
  import opened Prelude
  import opened KtTree
  import opened KtFold

  datatype KtError = ProofInvalid | NotConsistent

  /** The fields of a signed tree head that proof verification reads. */
  datatype TreeHead = TreeHead(treeSize: U64, rootHash: ContentId)

  datatype InclusionProof = InclusionProof(
    treeSize: U64, leafIndex: U64, leafHash: ContentId, auditPath: seq<ContentId>)

  datatype ConsistencyProof = ConsistencyProof(firstSize: U64, secondSize: U64, proofPath: seq<ContentId>)

  ghost predicate WellFormed(ids: seq<ContentId>) {
    forall k | 0 <= k < |ids| :: ids[k].Blake3?
  }

  /** The digests of a list of addresses (a malformed one, which no accepted proof has, counts as `Atom(0)`). */
  ghost function Digests(ids: seq<ContentId>): (ds: seq<Digest>)
    ensures |ds| == |ids| && forall k | 0 <= k < |ids| :: ids[k].Blake3? ==> ds[k] == ids[k].digest
  {
    seq(|ids|, k requires 0 <= k < |ids| => if ids[k].Blake3? then ids[k].digest else Atom(0))
  }

  /** An inclusion proof for `root`: well formed, in range, and reconstructing that root. */
  ghost predicate Included(proof: InclusionProof, root: ContentId) {
    && proof.leafHash.Blake3? && root.Blake3? && WellFormed(proof.auditPath)
    && proof.leafIndex < proof.treeSize
    && RootOf(proof.treeSize, proof.leafIndex, proof.leafHash.digest, Digests(proof.auditPath)) == Some(root.digest)
  }

  /** A consistency proof between two heads: it reconstructs both of their roots. */
  ghost predicate Consistent(a: TreeHead, b: TreeHead, proof: ConsistencyProof) {
    && proof.firstSize == a.treeSize <= b.treeSize == proof.secondSize
    && a.rootHash.Blake3? && b.rootHash.Blake3?
    && if a.treeSize == b.treeSize then proof.proofPath == [] && a.rootHash == b.rootHash
       else if a.treeSize == 0 then proof.proofPath == []
       else
         && WellFormed(proof.proofPath)
         && Reconcile(a.treeSize, b.treeSize, true, a.rootHash.digest, Digests(proof.proofPath))
            == Some(Pair(a.rootHash.digest, b.rootHash.digest))
  }

  /** `fold_inclusion`: fold the audit path upward by shifting the node index and the last index. */
  method FoldInclusion(proof: InclusionProof, root: ContentId) returns (accepted: bool)
    ensures accepted <==> Included(proof, root)
  {
    hide Fold;
    if proof.leafHash.Malformed? || root.Malformed? || proof.leafIndex >= proof.treeSize {
      return false;
    }
    var path := proof.auditPath;
    var nodeIdx: nat, lastIdx: nat, r := proof.leafIndex, proof.treeSize - 1, proof.leafHash.digest;
    ghost var goal := RootOf(proof.treeSize, proof.leafIndex, r, Digests(path));
    assert Digests(path)[0..] == Digests(path);
    for j := 0 to |path|
      invariant nodeIdx <= lastIdx
      invariant WellFormed(path[..j])
      invariant RootOf(lastIdx + 1, nodeIdx, r, Digests(path)[j..]) == goal
    {
      if path[j].Malformed? {
        return false;
      }
      var p := path[j].digest;
      if lastIdx == 0 {
        FoldLeaf(Pair(r, r), Digests(path)[j..]);
        return false;
      }
      ghost var rest := Digests(path)[j..];
      assert rest[0] == p && rest[1..] == Digests(path)[j + 1..];
      if nodeIdx % 2 == 1 || nodeIdx == lastIdx {
        if nodeIdx % 2 == 0 {
          nodeIdx, lastIdx := SkipRightEdge(nodeIdx, Pair(r, r), rest);
        }
        FoldOdd(lastIdx + 1, nodeIdx, Pair(r, r), rest);
        r := Node(p, r);
      } else {
        FoldEven(lastIdx + 1, nodeIdx, Pair(r, r), rest);
        FoldNowOnly(lastIdx / 2 + 1, nodeIdx / 2, Pair(r, Node(r, p)), Pair(Node(r, p), Node(r, p)), rest[1..]);
        r := Node(r, p);
      }
      nodeIdx, lastIdx := nodeIdx / 2, lastIdx / 2;
    }
    assert path[..|path|] == path && Digests(path)[|path|..] == [];
    FoldShort(lastIdx + 1, nodeIdx, Pair(r, r));
    return lastIdx == 0 && r == root.digest;
  }

  /** The inner loop of `fold_inclusion`: climb the right edge, where there are no siblings. */
  method SkipRightEdge(idx: nat, ghost h: Pair, ghost path: seq<Digest>) returns (nodeIdx: nat, lastIdx: nat)
    requires idx > 0 && idx % 2 == 0
    ensures nodeIdx == lastIdx && nodeIdx % 2 == 1
    ensures Fold(lastIdx + 1, nodeIdx, h, path) == Fold(idx + 1, idx, h, path)
  {
    nodeIdx, lastIdx := idx, idx;
    while true
      invariant nodeIdx == lastIdx > 0 && nodeIdx % 2 == 0
      invariant Fold(lastIdx + 1, nodeIdx, h, path) == Fold(idx + 1, idx, h, path)
      decreases nodeIdx
    {
      FoldPromote(lastIdx + 1, nodeIdx, h, path);
      nodeIdx, lastIdx := nodeIdx / 2, lastIdx / 2;
      if nodeIdx % 2 == 1 || nodeIdx == 0 {
        break;
      }
    }
  }

  /** `verify_consistency`: fold the proof into both the old and the new root. */
  method VerifyConsistency(a: TreeHead, b: TreeHead, proof: ConsistencyProof) returns (r: Result<(), KtError>)
    ensures r.Ok? <==> Consistent(a, b, proof)
    ensures r.Err? ==> r.error == NotConsistent
  {
    var m, n := a.treeSize, b.treeSize;
    if proof.firstSize != m || proof.secondSize != n || m > n {
      return Err(NotConsistent);
    }
    if a.rootHash.Malformed? || b.rootHash.Malformed? {
      return Err(NotConsistent);
    }
    var oldRoot, newRoot := a.rootHash.digest, b.rootHash.digest;
    if m == n {
      return if proof.proofPath == [] && oldRoot == newRoot then Ok(()) else Err(NotConsistent);
    }
    if m == 0 {
      return if proof.proofPath == [] then Ok(()) else Err(NotConsistent);
    }
    var path: seq<Digest> := [];
    for j := 0 to |proof.proofPath|
      invariant WellFormed(proof.proofPath[..j]) && path == Digests(proof.proofPath[..j])
    {
      if proof.proofPath[j].Malformed? {
        return Err(NotConsistent);
      }
      path := path + [proof.proofPath[j].digest];
    }
    assert proof.proofPath[..|proof.proofPath|] == proof.proofPath;
    var ok := FoldConsistency(m, n, oldRoot, newRoot, path);
    return if ok then Ok(()) else Err(NotConsistent);
  }

  /** The folding part of `verify_consistency`, over decoded digests and with `0 < m < n`. */
  method FoldConsistency(m: nat, n: nat, oldRoot: Digest, newRoot: Digest, path: seq<Digest>) returns (ok: bool)
    requires 0 < m < n
    ensures ok <==> Reconcile(m, n, true, oldRoot, path) == Some(Pair(oldRoot, newRoot))
  {
    hide Fold, Reconcile;
    ghost var goal := Reconcile(m, n, true, oldRoot, path);
    var nodeIdx, lastIdx := m - 1, n - 1;
    while nodeIdx % 2 == 1
      invariant 0 <= nodeIdx < lastIdx
      decreases nodeIdx
      invariant Reconcile(nodeIdx + 1, lastIdx + 1, true, oldRoot, path) == goal
    {
      ReconcileEven(nodeIdx + 1, lastIdx + 1, true, oldRoot, path);
      nodeIdx, lastIdx := nodeIdx / 2, lastIdx / 2;
    }
    var it, oldHash, newHash := 0, oldRoot, oldRoot;
    if nodeIdx > 0 {
      if path == [] {
        ReconcileEmpty(nodeIdx + 1, lastIdx + 1, true, oldRoot);
        return false;
      }
      ReconcileSeedPath(nodeIdx + 1, lastIdx + 1, true, oldRoot, path);
      it, oldHash, newHash := 1, path[0], path[0];
    } else {
      ReconcileSeedOld(lastIdx + 1, oldRoot, path);
      assert path[0..] == path;
    }
    while nodeIdx > 0
      invariant 0 <= nodeIdx <= lastIdx && 0 <= it <= |path|
      invariant Fold(lastIdx + 1, nodeIdx, Pair(oldHash, newHash), path[it..]) == goal
    {
      if nodeIdx % 2 == 1 {
        if it == |path| {
          FoldShort(lastIdx + 1, nodeIdx, Pair(oldHash, newHash));
          return false;
        }
        FoldOdd(lastIdx + 1, nodeIdx, Pair(oldHash, newHash), path[it..]);
        oldHash, newHash, it := Node(path[it], oldHash), Node(path[it], newHash), it + 1;
      } else if nodeIdx < lastIdx {
        if it == |path| {
          FoldShort(lastIdx + 1, nodeIdx, Pair(oldHash, newHash));
          return false;
        }
        FoldEven(lastIdx + 1, nodeIdx, Pair(oldHash, newHash), path[it..]);
        newHash, it := Node(newHash, path[it]), it + 1;
      } else {
        FoldPromote(lastIdx + 1, nodeIdx, Pair(oldHash, newHash), path[it..]);
      }
      nodeIdx, lastIdx := nodeIdx / 2, lastIdx / 2;
    }
    while lastIdx > 0
      invariant nodeIdx == 0 <= lastIdx && 0 <= it <= |path|
      invariant Fold(lastIdx + 1, 0, Pair(oldHash, newHash), path[it..]) == goal
    {
      if it == |path| {
        assert path[it..] == [];
        FoldShort(lastIdx + 1, 0, Pair(oldHash, newHash));
        return false;
      }
      FoldEven(lastIdx + 1, 0, Pair(oldHash, newHash), path[it..]);
      newHash, it, lastIdx := Node(newHash, path[it]), it + 1, lastIdx / 2;
    }
    FoldLeaf(Pair(oldHash, newHash), path[it..]);
    return it == |path| && oldHash == oldRoot && newHash == newRoot;
  }

  /** `InclusionProof::verify_against`: the proof must be for the head's size and fold to its root. */
  method VerifyAgainst(proof: InclusionProof, sth: TreeHead) returns (r: Result<(), KtError>)
    ensures r.Ok? <==> IncludedIn(proof, sth)
    ensures r.Err? ==> r.error == ProofInvalid
  {
    if proof.treeSize != sth.treeSize {
      return Err(ProofInvalid);
    }
    var ok := FoldInclusion(proof, sth.rootHash);
    return if ok then Ok(()) else Err(ProofInvalid);
  }

  ghost predicate IncludedIn(proof: InclusionProof, sth: TreeHead) {
    proof.treeSize == sth.treeSize && Included(proof, sth.rootHash)
  }

  /** The new-tree half of a fold does not look at the old-tree half. */
  lemma {:induction false} FoldNowOnly(n: nat, i: nat, g: Pair, h: Pair, path: seq<Digest>)
    requires i < n && g.now == h.now
    ensures Fold(n, i, g, path).Some? <==> Fold(n, i, h, path).Some?
    ensures Fold(n, i, g, path).Some? ==> Fold(n, i, g, path).value.now == Fold(n, i, h, path).value.now
    decreases n
  {
    if n > 1 && path != [] {
      SplitIsLargestPowerBelow(n);
      var k := Split(n);
      if i < k {
        FoldNowOnly(k, i, g, h, Below(path));
      } else {
        FoldNowOnly(n - k, i - k, g, h, Below(path));
      }
    }
  }
}
