/**
 The RFC 6962 tree of the key-transparency log: the split point, the Merkle tree hash and the two
 kinds of proof, all generated by top-down recursion.

 BLAKE3 is ideal: the hash of two children is the free constructor `Node`, so it is injective.  An
 `Atom` is any 32-byte string that is not known to be such a hash.
 */
module KtTree {
  import opened Prelude

  datatype Digest = Atom(id: nat) | Node(left: Digest, right: Digest)

  /** A content address: a well-formed BLAKE3-256 one, or anything else. */
  datatype ContentId = Blake3(digest: Digest) | Malformed(raw: Bytes)

  /** The split point by halving: the form under which one tree level can be peeled off. */
  function Split(n: nat): nat
    requires n >= 2
  {
    if n == 2 then 1 else 2 * Split((n + 1) / 2)
  }

  predicate PowerOfTwo(k: nat) {
    k == 1 || (k > 1 && k % 2 == 0 && PowerOfTwo(k / 2))
  }

  /** `Split(n)` is the largest power of two strictly below `n`. */
  lemma {:induction false} SplitIsLargestPowerBelow(n: nat)
    requires n >= 2
    ensures PowerOfTwo(Split(n)) && Split(n) < n <= 2 * Split(n)
  {
    if n == 2 {
    } else {
      SplitIsLargestPowerBelow((n + 1) / 2);
    }
  }

  /** There is only one power of two `k` with `k < n <= 2k`. */
  lemma {:induction false} SplitIsUnique(n: nat, k: nat)
    requires n >= 2 && PowerOfTwo(k) && k < n <= 2 * k
    ensures k == Split(n)
  {
    if n == 2 {
    } else {
      SplitIsUnique((n + 1) / 2, k / 2);
    }
  }

  /** The doubling loop of the source computes the split point. */
  method SplitPoint(n: nat) returns (k: nat)
    ensures n < 2 ==> k == 1
    ensures n >= 2 ==> k == Split(n)
  {
    k := 1;
    while k * 2 < n
      invariant PowerOfTwo(k)
      invariant k == 1 || k < n
    {
      k := k * 2;
    }
    if n >= 2 {
      SplitIsUnique(n, k);
    }
  }

  /** RFC 6962 `MTH(D)` over leaf digests. */
  function Mth(leaves: seq<Digest>): Digest
    requires |leaves| >= 1
    decreases |leaves|
  {
    if |leaves| == 1 then leaves[0]
    else
      SplitIsLargestPowerBelow(|leaves|);
      var k := Split(|leaves|);
      Node(Mth(leaves[..k]), Mth(leaves[k..]))
  }

  /** RFC 6962 `PATH(m, D)`, bottom to top. */
  function AuditPath(m: nat, leaves: seq<Digest>): seq<Digest>
    requires m < |leaves|
    decreases |leaves|
  {
    if |leaves| <= 1 then []
    else
      SplitIsLargestPowerBelow(|leaves|);
      var k := Split(|leaves|);
      if m < k then AuditPath(m, leaves[..k]) + [Mth(leaves[k..])]
      else AuditPath(m - k, leaves[k..]) + [Mth(leaves[..k])]
  }

  /** RFC 6962 `SUBPROOF(m, D, b)`. */
  function Subproof(m: nat, leaves: seq<Digest>, b: bool): seq<Digest>
    requires 1 <= m <= |leaves|
    decreases |leaves|
  {
    if m == |leaves| then
      if b then [] else [Mth(leaves)]
    else
      SplitIsLargestPowerBelow(|leaves|);
      var k := Split(|leaves|);
      if m <= k then Subproof(m, leaves[..k], b) + [Mth(leaves[k..])]
      else Subproof(m - k, leaves[k..], false) + [Mth(leaves[..k])]
  }

  /** Equal roots over equally many leaves mean equal leaves. */
  lemma {:induction false} MthInjective(d: seq<Digest>, e: seq<Digest>)
    requires |d| == |e| >= 1
    requires Mth(d) == Mth(e)
    ensures d == e
    decreases |d|
  {
    if |d| > 1 {
      SplitIsLargestPowerBelow(|d|);
      var k := Split(|d|);
      MthInjective(d[..k], e[..k]);
      MthInjective(d[k..], e[k..]);
      assert d == d[..k] + d[k..] && e == e[..k] + e[k..];
    }
  }
}
