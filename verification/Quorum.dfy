/** Counting guardian counter-signatures, and when two quorums must share a guardian. */
module Quorum {
  import opened Prelude
  import opened CborBytes

  /** `verify_domain`: key, domain tag, message, signature. */
  type Verifier = (Bytes, Bytes, Bytes, Bytes) -> bool

  datatype GuardianApproval = GuardianApproval(guardian: Bytes, sig: Bytes)

  /** The listed guardians with at least one valid counter-signature. */
  ghost function Signers(verify: Verifier, guardians: seq<Bytes>, sigs: seq<GuardianApproval>, ds: Bytes,
                         preimage: Bytes): set<Bytes> {
    set s | s in sigs && s.guardian in guardians && verify(s.guardian, ds, preimage, s.sig) :: s.guardian
  }

  /**
   `count_quorum`: however the counter-signatures are ordered or repeated, the count is the number of
   distinct listed guardians who signed.
   */
  method CountQuorum(verify: Verifier, guardians: seq<Bytes>, sigs: seq<GuardianApproval>, ds: Bytes, preimage: Bytes)
    returns (n: nat)
    ensures n == |Signers(verify, guardians, sigs, ds, preimage)|
  {
    var counted: seq<Bytes> := [];
    for i := 0 to |sigs|
      invariant forall x, y | 0 <= x < y < |counted| :: counted[x] != counted[y]
      invariant (set g | g in counted) == Signers(verify, guardians, sigs[..i], ds, preimage)
    {
      var s := sigs[i];
      SignersGrow(verify, guardians, sigs, i, ds, preimage);
      if s.guardian !in guardians || s.guardian in counted {
        continue;
      }
      if verify(s.guardian, ds, preimage, s.sig) {
        counted := counted + [s.guardian];
      }
    }
    assert sigs[..|sigs|] == sigs;
    DistinctCount(counted);
    n := |counted|;
  }

  /** One more counter-signature adds its guardian if listed and valid. */
  lemma SignersGrow(verify: Verifier, guardians: seq<Bytes>, sigs: seq<GuardianApproval>, i: nat, ds: Bytes,
                    preimage: Bytes)
    requires i < |sigs|
    ensures Signers(verify, guardians, sigs[..i + 1], ds, preimage) ==
      Signers(verify, guardians, sigs[..i], ds, preimage) +
      (if sigs[i].guardian in guardians && verify(sigs[i].guardian, ds, preimage, sigs[i].sig)
       then {sigs[i].guardian} else {})
  {
    assert sigs[..i + 1] == sigs[..i] + [sigs[i]];
  }

  /** A list without repetition is as long as its set of elements is large. */
  lemma {:induction false} DistinctCount(xs: seq<Bytes>)
    requires forall x, y | 0 <= x < y < |xs| :: xs[x] != xs[y]
    ensures |set g | g in xs| == |xs|
  {
    if xs != [] {
      var k := |xs| - 1;
      DistinctCount(xs[..k]);
      assert (set g | g in xs) == (set g | g in xs[..k]) + {xs[k]};
      assert xs[k] !in xs[..k];
    }
  }

  /** A list has at most as many distinct elements as it has entries. */
  lemma {:induction false} AtMostLength(xs: seq<Bytes>)
    ensures |set g | g in xs| <= |xs|
  {
    if xs != [] {
      AtMostLength(xs[1..]);
      assert (set g | g in xs) == {xs[0]} + (set g | g in xs[1..]);
    }
  }

  /** The strict-majority bar as computed: on the guardian count truncated to 32 bits. */
  function MajorityMin(n: nat): nat {
    AsU32(n) / 2 + 1
  }

  /** The count, truncated as the source truncates it, reaches the bar. */
  ghost predicate Majority(verify: Verifier, guardians: seq<Bytes>, sigs: seq<GuardianApproval>, ds: Bytes,
                           preimage: Bytes) {
    AsU32(|Signers(verify, guardians, sigs, ds, preimage)|) >= MajorityMin(|guardians|)
  }

  lemma SignersListed(verify: Verifier, guardians: seq<Bytes>, sigs: seq<GuardianApproval>, ds: Bytes, preimage: Bytes)
    ensures Signers(verify, guardians, sigs, ds, preimage) <= (set g | g in guardians)
    ensures |Signers(verify, guardians, sigs, ds, preimage)| <= |guardians|
  {
    AtMostLength(guardians);
    SubsetSize(Signers(verify, guardians, sigs, ds, preimage), set g | g in guardians);
  }

  lemma SubsetSize<T>(a: set<T>, b: set<T>)
    requires a <= b
    ensures |a| <= |b|
  {
    assert b == a + (b - a);
  }

  lemma SignerSigned(verify: Verifier, guardians: seq<Bytes>, sigs: seq<GuardianApproval>, ds: Bytes, preimage: Bytes,
                     g: Bytes)
    requires g in Signers(verify, guardians, sigs, ds, preimage)
    ensures g in guardians && exists s :: s in sigs && s.guardian == g && verify(g, ds, preimage, s.sig)
  {
  }

  /** Below 2^32 guardians truncation changes nothing: a majority is more than half. */
  lemma MajorityMeans(verify: Verifier, guardians: seq<Bytes>, sigs: seq<GuardianApproval>, ds: Bytes, preimage: Bytes)
    requires |guardians| < U32_LIMIT && Majority(verify, guardians, sigs, ds, preimage)
    ensures Signers(verify, guardians, sigs, ds, preimage) <= (set g | g in guardians)
    ensures |Signers(verify, guardians, sigs, ds, preimage)| >= |guardians| / 2 + 1
  {
    hide Signers;
    SignersListed(verify, guardians, sigs, ds, preimage);
  }

  lemma MajoritiesMeet(guardians: seq<Bytes>, a: set<Bytes>, b: set<Bytes>)
    requires a <= (set g | g in guardians) && b <= (set g | g in guardians)
    requires |a| >= |guardians| / 2 + 1 && |b| >= |guardians| / 2 + 1
    ensures a * b != {}
  {
    AtMostLength(guardians);
    SubsetSize(a + b, set x | x in guardians);
    assert |a + b| == |a| + |b| - |a * b|;
  }

  /**
   Quorum intersection: two majorities of one guardian list share a guardian who validly signed both
   messages, whatever the messages, as long as the list is shorter than 2^32.
   */
  lemma QuorumsIntersect(verify: Verifier, guardians: seq<Bytes>,
                         sigs: seq<GuardianApproval>, ds: Bytes, preimage: Bytes,
                         sigs': seq<GuardianApproval>, ds': Bytes, preimage': Bytes) returns (g: Bytes)
    requires |guardians| < U32_LIMIT
    requires Majority(verify, guardians, sigs, ds, preimage)
    requires Majority(verify, guardians, sigs', ds', preimage')
    ensures g in guardians
    ensures exists s :: s in sigs && s.guardian == g && verify(g, ds, preimage, s.sig)
    ensures exists s :: s in sigs' && s.guardian == g && verify(g, ds', preimage', s.sig)
  {
    var a := Signers(verify, guardians, sigs, ds, preimage);
    var b := Signers(verify, guardians, sigs', ds', preimage');
    hide Signers, Majority;
    MajorityMeans(verify, guardians, sigs, ds, preimage);
    MajorityMeans(verify, guardians, sigs', ds', preimage');
    MajoritiesMeet(guardians, a, b);
    g :| g in a * b;
    SignerSigned(verify, guardians, sigs, ds, preimage, g);
    SignerSigned(verify, guardians, sigs', ds', preimage', g);
  }

  // ---------------------------------------------------------------- from 2^32 guardians on

  /** A signature check that insists on the sizes of Ed25519 keys and signatures and otherwise accepts. */
  function SizedVerifier(): Verifier {
    (k, d, m, s) => |k| == 32 && |s| == 64
  }

  /** The `i`-th 32-byte key. */
  function KeyOf(i: nat): (k: Bytes)
    ensures |k| == 32
  {
    BigEndian(i, 32)
  }

  lemma {:induction false} Pow256Grows(w: nat)
    requires w >= 8
    ensures Pow256(w) >= Pow256(8)
  {
    if w > 8 {
      Pow256Grows(w - 1);
    }
  }

  lemma KeysDiffer(i: nat, j: nat)
    requires i <= U64_MAX && j <= U64_MAX && i != j
    ensures KeyOf(i) != KeyOf(j)
  {
    hide Pow256, BigEndian, FromBigEndian;
    Pow256Values();
    Pow256Grows(32);
    BigEndianRead(i, 32);
    BigEndianRead(j, 32);
  }

  function KeysFrom(from: nat, n: nat): (ks: seq<Bytes>)
    ensures |ks| == n && forall i | 0 <= i < n :: ks[i] == KeyOf(from + i)
  {
    seq(n, i requires 0 <= i < n => KeyOf(from + i))
  }

  lemma KeysDistinct(from: nat, n: nat)
    requires from + n <= U64_MAX + 1
    ensures forall i, j | 0 <= i < j < n :: KeysFrom(from, n)[i] != KeysFrom(from, n)[j]
  {
    forall i, j | 0 <= i < j < n
      ensures KeysFrom(from, n)[i] != KeysFrom(from, n)[j]
    {
      KeysDiffer(from + i, from + j);
    }
  }

  /** The guardians with keys `from..from + n`, each signing once. */
  function SignedBy(from: nat, n: nat): (sigs: seq<GuardianApproval>)
    ensures |sigs| == n && forall i | 0 <= i < n :: sigs[i] == GuardianApproval(KeyOf(from + i), BigEndian(0, 64))
  {
    seq(n, i requires 0 <= i < n => GuardianApproval(KeyOf(from + i), BigEndian(0, 64)))
  }

  /** Exactly the signing guardians are counted. */
  lemma SignersOf(n: nat, from: nat, q: nat, ds: Bytes, preimage: Bytes)
    requires from + q <= n && from + q <= U64_MAX
    ensures Signers(SizedVerifier(), KeysFrom(0, n), SignedBy(from, q), ds, preimage) ==
      (set k | k in KeysFrom(from, q))
    ensures |Signers(SizedVerifier(), KeysFrom(0, n), SignedBy(from, q), ds, preimage)| == q
  {
    hide KeyOf;
    var sigs, keys := SignedBy(from, q), KeysFrom(from, q);
    var signers := Signers(SizedVerifier(), KeysFrom(0, n), sigs, ds, preimage);
    forall k | k in keys
      ensures k in signers
    {
      var i :| 0 <= i < q && keys[i] == k;
      assert KeysFrom(0, n)[from + i] == KeyOf(from + i);
      assert sigs[i] in sigs && sigs[i].guardian == k;
    }
    forall k | k in signers
      ensures k in keys
    {
      var s :| s in sigs && s.guardian == k;
      var i :| 0 <= i < q && sigs[i] == s;
      assert keys[i] == k;
    }
    assert signers == (set k | k in keys);
    KeysDistinct(from, q);
    DistinctCount(keys);
  }

  /**
   The bound is exact: for every list length from 2^32 on there are guardians, with keys and signatures of the
   right size and pairwise different as far as a list can be long, and two disjoint groups of signers that
   both pass the truncated majority test, on any two messages.
   */
  lemma LargeQuorumsNeedNotIntersect(n: nat, ds: Bytes, preimage: Bytes, ds': Bytes, preimage': Bytes)
    returns (guardians: seq<Bytes>, sigs: seq<GuardianApproval>, sigs': seq<GuardianApproval>)
    requires n >= U32_LIMIT
    ensures |guardians| == n && (n <= U64_MAX ==> forall i, j | 0 <= i < j < n :: guardians[i] != guardians[j])
    ensures Majority(SizedVerifier(), guardians, sigs, ds, preimage)
    ensures Majority(SizedVerifier(), guardians, sigs', ds', preimage')
    ensures Signers(SizedVerifier(), guardians, sigs, ds, preimage)
          * Signers(SizedVerifier(), guardians, sigs', ds', preimage') == {}
  {
    hide Signers, KeyOf, KeysFrom, SignedBy;
    var q := MajorityMin(n);
    guardians, sigs, sigs' := KeysFrom(0, n), SignedBy(0, q), SignedBy(q, q);
    if n <= U64_MAX {
      KeysDistinct(0, n);
    }
    SignersOf(n, 0, q, ds, preimage);
    SignersOf(n, q, q, ds', preimage');
    KeysApart(q);
  }

  /** The first `q` keys and the next `q` have none in common. */
  lemma KeysApart(q: nat)
    requires 2 * q <= U64_MAX
    ensures (set k | k in KeysFrom(0, q)) * (set k | k in KeysFrom(q, q)) == {}
  {
    hide KeyOf, KeysFrom;
    forall k | k in KeysFrom(0, q)
      ensures k !in KeysFrom(q, q)
    {
      var i :| 0 <= i < q && KeysFrom(0, q)[i] == k;
      forall j | 0 <= j < q
        ensures KeysFrom(q, q)[j] != k
      {
        KeysDiffer(i, q + j);
      }
    }
  }
}
