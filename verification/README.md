# Kotva core: a verified model of the deterministic protocol core

`kotva-core` is the reference implementation of the DMTAP messaging protocol's deterministic core. This
project models its five hardest parts in Dafny and proves what they are for:

1. **The key-transparency log** (`kt.rs`). Trees and proofs are made by top-down recursion (RFC 6962,
   sections 2.1 to 2.1.2) and checked by bottom-up loops that shift index bits. `KtTree` holds the recursion,
   `KtFold` what a path reconstructs along the shape of the tree and how one tree level is peeled off,
   `KtVerify` the loops, `KtLog` the log class and the theorems: an inclusion or consistency proof is accepted
   against real trees exactly if it is the one the log makes and tells the truth, and along any run of
   consistent heads no index ever changes its leaf, whatever the log did to produce the heads.
2. **The canonical CBOR codec** (`cbor.rs`, RFC 8949 section 4.2.1). `CborValue` is the encoder as a function,
   `CborParse` the strict decoder, error by error, `CborCodec` the buffer-writing encoder and the
   cursor-moving decoder proved against them. `CborExact`, `CborRoundTrip` and `CborPrefix` prove that decoder
   and encoder undo each other in both directions and that encodings are prefix-free. `CborMeaning` and `Utf8`
   say what the definitions in between mean: shortest among all heads, order by first difference, depth and
   distinct keys by the items inside a value, UTF-8 by scalar values, and every refusal by its cause.
3. **MOTE preimages and pipeline** (`mote.rs`). `MoteTypes` and `MoteCodec` are the wire objects,
   `MoteWire` the envelope, whose wire form is proved unique, `MotePreimage` the signed and authenticated byte
   strings and their injectivity, `MotePipeline` building and validating end to end, in memory and over the wire.
   `MoteMeaning` characterises every verdict on any envelope, `MotePayload` the byte strings that decode to a
   payload, `MoteTables` the keys on the wire.
4. **Recovery and delegation** (`identity.rs`, `capability.rs`). `Quorum`, `Recovery`, `KeyRotation` and
   `Capability` model quorum counting, the weakening order, hash-linked histories and attenuating chains, with
   theorems about whole runs and whole chains.
5. **Small algorithmic cores.** `Bom` is the bill-of-materials walk (`cad.rs`), `KeyName` the 80-bit word
   packing (`keyname.rs`), `Splice` the byte-splicing map editor of the vector scripts, which `SpliceCanon` ties
   to the canonical codec.

Idealised cryptography: the hash of two tree nodes is a free constructor; every other hash, signature and
sealing operation is a parameter, and each theorem writes out what it assumes of it: own signatures verify and
sealed payloads open, the hash does not collide on the objects at hand, and of the signatures that exist in a run
those that verify were made by the key's owner. `MotePipeline.BuiltIsCovered` and `MotePipeline.AssumptionsAreMet`
show that these assumptions hold together. Clocks and randomness are parameters.

Where properties turned out to need a condition, the condition is proved exact:

- Two majorities of one guardian list share a guardian only below 2^32 guardians, because the source truncates
  the list length to 32 bits before halving it. `Quorum.QuorumsIntersect` proves it below that length,
  `Quorum.LargeQuorumsNeedNotIntersect` gives disjoint majorities at every length from there on.
- `caveats_tightened` composes exactly if the outermost grant has no caveats or the innermost caveats have the
  shape every decoder gives them. `Capability.TighteningComposes` is that equivalence,
  `Capability.MalformedLeafEscapes` an accepted chain that breaks attenuation for every malformed value.
- `decode(encode(v))` succeeds exactly if the maps in `v` have distinct keys and nothing sits deeper than level
  64 (`CborRoundTrip.RoundTrip`).
- Every envelope has one wire form; a payload has a second one exactly if it has no extension headers, because
  its decoder also takes an explicit empty extension map (`MotePayload.PayloadIff`).
- The walk's totals are exact modulo 2^64 and so exact whenever the sums fit: products saturate, sums are a
  plain `+=`.

Two places where comments and code differ, modelled as the code does: major type 7 with additional information
0 to 19 is reported as an indefinite length (the comment speaks of 31 only), and `verify_at` looks up only the
token's own address among the revocations, while its comment says that an ancestor's address there rejects a
descendant too. `Capability.AncestorRevocationNotSeen` proves that it never does under an accepted chain.

Check everything with `dafny verify dfyconfig.toml`.

## Model

| member | source | states |
|---|---|---|
| KtTree.SplitPoint | crates/kotva-core/src/kt.rs:333-339 | the doubling loop yields the split point (1 below two leaves) |
| KtTree.SplitIsLargestPowerBelow | crates/kotva-core/src/kt.rs:332-339 | the split point is a power of two `k` with `k < n <= 2k` |
| KtTree.SplitIsUnique | crates/kotva-core/src/kt.rs:332-339 | no other power of two is |
| KtTree.MthInjective | crates/kotva-core/src/kt.rs:343-351 | equal tree hashes over equally many leaves mean equal leaves |
| KtLog.MthByLevel | crates/kotva-core/src/kt.rs:343-351 | the recursive tree hash is what pairing neighbours level by level, promoting a last odd one, gives |
| KtFold.FoldOdd | crates/kotva-core/src/kt.rs:419-434 | top-down reconstruction at an odd index equals one bottom-up step with the sibling on the left and both indices halved |
| KtFold.FoldEven | crates/kotva-core/src/kt.rs:430-434 | likewise for an even index short of the right edge, the sibling on the right and in the new tree only |
| KtFold.FoldPromote | crates/kotva-core/src/kt.rs:421-429 | an even index on the right edge climbs unchanged and takes no sibling |
| KtFold.ReconcileEven | crates/kotva-core/src/kt.rs:478-483 | trailing one bits of `m - 1` can be shifted off without changing what a consistency path reconstructs |
| KtFold.ReconcileSeedOld | crates/kotva-core/src/kt.rs:491-494 | for `m` a power of two the old root seeds both reconstructions |
| KtFold.ReconcileSeedPath | crates/kotva-core/src/kt.rs:486-490 | otherwise the first path node does |
| KtVerify.FoldInclusion | crates/kotva-core/src/kt.rs:396-437 | the bit-shifting loop accepts exactly the well-formed, in-range proofs whose top-down reconstruction is the root |
| KtVerify.SkipRightEdge | crates/kotva-core/src/kt.rs:421-429 | the inner loop ends at an odd index and keeps what is reconstructed |
| KtVerify.FoldConsistency | crates/kotva-core/src/kt.rs:477-532 | the three loops accept exactly if the top-down reconstruction yields both roots with the path used up |
| KtVerify.VerifyConsistency | crates/kotva-core/src/kt.rs:445-533 | accepts exactly the consistent triples, with the equal-size and empty-tree cases; any refusal is `NotConsistent` |
| KtVerify.VerifyAgainst | crates/kotva-core/src/kt.rs:197-202 | accepts exactly proofs for the head's size and root; any refusal is `ProofInvalid` |
| KtLog.MerkleTree.Append | crates/kotva-core/src/kt.rs:565-569 | appends a well-formed leaf and returns its index; a malformed one changes nothing |
| KtLog.MerkleTree.Root | crates/kotva-core/src/kt.rs:577-583 | nothing exactly for an empty tree; otherwise the tree hash, against which exactly the tree's own leaves with their audit paths are accepted |
| KtLog.MerkleTree.InclusionPath | crates/kotva-core/src/kt.rs:586-592 | a path for exactly the indices in range, accepted against the tree's own root |
| KtLog.MerkleTree.ConsistencyPath | crates/kotva-core/src/kt.rs:596-604 | a path for exactly `0 < first <= size`, accepted between the prefix and the tree |
| KtLog.InclusionComplete | crates/kotva-core/src/kt.rs:353-369 | the recursive audit path reconstructs the tree hash for every index |
| KtLog.InclusionSound | crates/kotva-core/src/kt.rs:353-369 | whatever reconstructs the tree hash is the leaf at that index with its own audit path |
| KtLog.InclusionExact | crates/kotva-core/src/kt.rs:396-437 | a proof is accepted against a real tree if and only if it carries the leaf at its index and that leaf's audit path |
| KtLog.ConsistencyComplete | crates/kotva-core/src/kt.rs:371-392 | the recursive subproof reconstructs the roots of the prefix and of the whole |
| KtLog.ConsistencySound | crates/kotva-core/src/kt.rs:445-533 | reconstructing the roots of two real trees forces the first to be exactly a prefix of the second |
| KtLog.ConsistencyUnique | crates/kotva-core/src/kt.rs:371-392 | no other path than the subproof does |
| KtLog.ConsistencyExact | crates/kotva-core/src/kt.rs:445-533 | between two real trees a proof is accepted if and only if the first is a prefix of the second and the proof is the log's own |
| KtLog.PathlessHeads | crates/kotva-core/src/kt.rs:453-469 | from the empty tree exactly the empty path is accepted, between equal sizes exactly the empty path with equal roots, to a smaller head nothing |
| KtLog.FoldOpens | crates/kotva-core/src/kt.rs:396-437 | an accepted inclusion proof opens the root hash down to its leaf |
| KtLog.ReconcileKeepsLeaves | crates/kotva-core/src/kt.rs:445-533 | two reconciled roots commit to the same leaf at every old index |
| KtLog.RunKeepsLeaves | crates/kotva-core/src/kt.rs:445-533 | along a run of consistent heads sizes never shrink and commitments never change |
| KtLog.AppendOnly | crates/kotva-core/src/kt.rs:197-202 | inclusion proofs accepted for one index against any two heads of a run carry the same leaf, from the verifiers alone |
| KtLog.RunOfTrees | crates/kotva-core/src/kt.rs:445-533 | over real trees every earlier tree of a run is a prefix of every later one |
| CborValue.HeadOrder | crates/kotva-core/src/cbor.rs:130-140 | shortest heads of unsigned keys sort bytewise exactly as the keys do numerically |
| CborMeaning.HeadShortest | crates/kotva-core/src/cbor.rs:85-102 | what is written is a head for the argument, and no head of any width for it is shorter |
| CborMeaning.ShortestOnly | crates/kotva-core/src/cbor.rs:227-264 | a head of a given width is read exactly if no narrower one holds its argument, and refused as `NonShortestForm` otherwise |
| CborMeaning.LtFirstDifference | crates/kotva-core/src/cbor.rs:140 | keys are ordered by their first differing byte, a proper prefix first |
| CborValue.OrderFromSorted | crates/kotva-core/src/cbor.rs:140 | the wire order is a permutation of all entries, ascending in encoded keys, equal keys in their original order |
| CborCodec.Encoder.WriteHead | crates/kotva-core/src/cbor.rs:85-102 | appends the shortest head |
| CborCodec.Encoder.Enc | crates/kotva-core/src/cbor.rs:111-165 | appends exactly the encoding |
| CborCodec.Encoder.EncItems | crates/kotva-core/src/cbor.rs:123-128 | the array loop |
| CborCodec.Encoder.EncEntries | crates/kotva-core/src/cbor.rs:129-163 | the map loops: pair, sort, emit |
| CborCodec.EncodeValue | crates/kotva-core/src/cbor.rs:105-109 | a fresh buffer with exactly the encoding |
| CborCodec.Decoder.Byte | crates/kotva-core/src/cbor.rs:212-216 | the next byte, or `Malformed` with the cursor unmoved |
| CborCodec.Decoder.Take | crates/kotva-core/src/cbor.rs:218-223 | the next `n` bytes, or `Malformed` with the cursor unmoved |
| CborCodec.Decoder.Argument | crates/kotva-core/src/cbor.rs:227-264 | agrees with the specification in value, cursor and error, width by width |
| CborCodec.Decoder.Value | crates/kotva-core/src/cbor.rs:266-308 | agrees with the specification in value, cursor and error |
| CborCodec.Decoder.ArrayItems | crates/kotva-core/src/cbor.rs:292-299 | the array loop |
| CborCodec.Decoder.MapValue | crates/kotva-core/src/cbor.rs:310-364 | the map loop with its two output lists, key order, duplicates and key kinds |
| CborCodec.Decoder.NextEntry | crates/kotva-core/src/cbor.rs:325-359 | one turn of that loop, in the order of its checks |
| CborCodec.Decoder.Simple | crates/kotva-core/src/cbor.rs:366-391 | booleans accepted, everything else refused with its own error |
| CborCodec.DecodeBytes | crates/kotva-core/src/cbor.rs:187-194 | one item and nothing after it |
| CborMeaning.RefusedByFirstByte | crates/kotva-core/src/cbor.rs:266-391 | the error for every input that its first byte already rules out |
| CborMeaning.PairRefused | crates/kotva-core/src/cbor.rs:325-359 | two entries are refused as out of order, duplicate or mixed exactly if their keys are, and accepted otherwise |
| CborMeaning.TrailingRefused | crates/kotva-core/src/cbor.rs:190-192 | anything after one item is refused as trailing |
| CborMeaning.TextRefused | crates/kotva-core/src/cbor.rs:286-291 | a text string is malformed exactly if its bytes are not UTF-8 |
| CborMeaning.CutShort | crates/kotva-core/src/cbor.rs:218-223 | a string cut short is malformed |
| CborMeaning.DeepRefused | crates/kotva-core/src/cbor.rs:203-209 | sixty-five arrays inside each other are malformed, however the input goes on |
| Utf8.ValidIff | crates/kotva-core/src/cbor.rs:289 | bytes are valid UTF-8 exactly if they encode a list of Unicode scalar values |
| CborMeaning.LeafExamples | crates/kotva-core/src/cbor.rs:111-122 | encodings of numbers, booleans and strings from appendix A of RFC 8949 |
| CborMeaning.ArrayExample | crates/kotva-core/src/cbor.rs:123-128 | an array from the same appendix |
| CborMeaning.MapExample | crates/kotva-core/src/cbor.rs:129-146 | a map given out of order is written in key order |
| CborMeaning.TextMapExample | crates/kotva-core/src/cbor.rs:147-163 | a text-keyed map from the same appendix |
| CborExact.HeadRead | crates/kotva-core/src/cbor.rs:227-264 | a shortest head is read back as written |
| CborExact.ArgumentExact | crates/kotva-core/src/cbor.rs:227-264 | a head that is read is the shortest one for its argument |
| CborExact.ValueExact | crates/kotva-core/src/cbor.rs:266-364 | every accepted item stands in the input exactly as its encoding, and is canonical |
| CborExact.DecodeExact | crates/kotva-core/src/cbor.rs:184-194 | `encode(decode(b)) == b` for every accepted `b` |
| CborRoundTrip.ValueRoundTrip | crates/kotva-core/src/cbor.rs:266-364 | an encoding anywhere in the input is read back in normal form if decodable, and refused otherwise |
| CborRoundTrip.RoundTrip | crates/kotva-core/src/cbor.rs:105-194 | `decode(encode(v))` succeeds exactly for distinct keys and depth at most 64, and yields the normal form |
| CborMeaning.RoundTripByItems | crates/kotva-core/src/cbor.rs:203-209 | the round trip succeeds exactly if every item inside the value sits no deeper than level 64 and every map among them has distinct keys |
| CborRoundTrip.NormalAscends | crates/kotva-core/src/cbor.rs:129-146 | the normal form of an integer-keyed map has all its entries in numeric key order |
| CborRoundTrip.DecodeIff | crates/kotva-core/src/cbor.rs:105-194 | `decode(b) == v` if and only if `b` is the encoding of `v` and `v` is canonical |
| CborPrefix.SkipValue | crates/kotva-core/src/cbor.rs:105-165 | the encoding of any value can be skipped by following heads only |
| CborPrefix.PrefixFree | crates/kotva-core/src/cbor.rs:105-165 | two encodings that begin the same bytes are equal, and so are the remainders |
| CborPrefix.EncodeInjective | crates/kotva-core/src/cbor.rs:105-165 | the encoding determines the normal form |
| CborPrefix.EncodeNormal | crates/kotva-core/src/cbor.rs:105-165 | the normal form of any value encodes to the same bytes, repeated keys and any depth included |
| CborPrefix.EncodeIff | crates/kotva-core/src/cbor.rs:105-165 | two values share an encoding if and only if they share a normal form |
| CborFields.Fields.TakeField | crates/kotva-core/src/cbor.rs:418-423 | removes and returns the first entry under the key, keeping the others in order |
| CborFields.TakeSlot | crates/kotva-core/src/cbor.rs:418-428 | reading fields in key order finds each written slot, present or absent |
| CborFields.BuildInjective | crates/kotva-core/src/mote.rs:737-753 | a wire object's slots are determined by the map they build |
| CborFields.NormalBuild | crates/kotva-core/src/mote.rs:737-753 | maps built under ascending keys are in wire order already |
| CborFields.DecodableBuild | crates/kotva-core/src/cbor.rs:266-364 | such a map is decodable exactly if its slots' values are, one level deeper |
| MoteCodec.DurabilityWritten | crates/kotva-core/src/mote.rs:1283-1310 | decode after encode is the identity |
| MoteCodec.ManifestWritten | crates/kotva-core/src/mote.rs:972-994 | decode after encode is the identity |
| MoteCodec.AttachmentWritten | crates/kotva-core/src/mote.rs:889-915 | decode after encode is the identity |
| MoteCodec.HeadersWritten | crates/kotva-core/src/mote.rs:820-871 | decode after encode gives the headers back with extensions in wire order |
| MoteCodec.PayloadWritten | crates/kotva-core/src/mote.rs:737-796 | decode after encode gives the payload back up to the order of extensions |
| MotePayload.PayloadRead | crates/kotva-core/src/mote.rs:779-796 | a canonical value that reads as a payload is its encoding, or that with an empty extension map spelled out |
| MotePayload.PayloadIff | crates/kotva-core/src/mote.rs:737-796 | bytes decode to a payload if and only if they are what the encoder writes for it or, without extension headers, the form with an explicit empty extension map |
| MotePayload.FormsDiffer | crates/kotva-core/src/mote.rs:860-867 | those are two different forms, so exactly such payloads have two |
| Prelude.SuiteFromByte | crates/kotva-core/src/suite.rs:97-106 | a byte names a suite exactly if it is that suite's own byte |
| MoteTypes.KindFromByte | crates/kotva-core/src/mote.rs:242-264 | a byte names a kind exactly if it is that kind's own byte |
| MoteWire.TagWritten | crates/kotva-core/src/mote.rs:546-571 | decode after encode is the identity |
| MoteWire.ChallengeWritten | crates/kotva-core/src/mote.rs:403-513 | decode after encode is the identity, for all four kinds of challenge |
| MoteWire.KeyPackageWritten | crates/kotva-core/src/mote.rs:583-601 | decode after encode is the identity |
| MoteWire.EnvelopeWritten | crates/kotva-core/src/mote.rs:648-718 | decode after encode is the identity |
| MoteWire.ReadExact | crates/kotva-core/src/cbor.rs:418-442 | reading ascending keys until `deny_unknown` passes accounts for every entry of a canonical map |
| MoteWire.ChallengeRead | crates/kotva-core/src/mote.rs:463-513 | a canonical value that reads as a challenge is that challenge's encoding |
| MoteWire.EnvelopeRead | crates/kotva-core/src/mote.rs:689-718 | a canonical value that reads as an envelope is that envelope's encoding |
| MoteWire.EnvelopeIff | crates/kotva-core/src/mote.rs:648-718 | `from_det_cbor` yields an envelope if and only if the bytes are what `det_cbor` writes for it: no envelope has two wire forms |
| MoteTables.TagTable | crates/kotva-core/src/mote.rs:546-553 | the keys and discriminators of the three delivery tags |
| MoteTables.ArcTable | crates/kotva-core/src/mote.rs:405-416 | the keys of an anonymous credential |
| MoteTables.PowTable | crates/kotva-core/src/mote.rs:417-431 | the keys of a proof of work |
| MoteTables.PostageTable | crates/kotva-core/src/mote.rs:432-446 | the keys of a postage stamp |
| MoteTables.VouchTable | crates/kotva-core/src/mote.rs:447-454 | the keys of a vouch |
| MoteTables.DurabilityTable | crates/kotva-core/src/mote.rs:1283-1295 | the keys of a durability contract and its class bytes |
| MoteTables.ManifestTable | crates/kotva-core/src/mote.rs:972-984 | the keys of a manifest reference |
| MoteTables.AttachmentTable | crates/kotva-core/src/mote.rs:889-903 | the keys of an attachment |
| MoteTables.HeadersTable | crates/kotva-core/src/mote.rs:820-841 | the keys of the headers |
| MoteTables.PayloadTable | crates/kotva-core/src/mote.rs:737-753 | the keys of a payload, with and without its signature |
| MoteTables.KeyPackageTable | crates/kotva-core/src/mote.rs:583-592 | the keys of a key package reference |
| MoteTables.EnvelopeTable | crates/kotva-core/src/mote.rs:648-678 | the keys of an envelope |
| MoteTables.FieldErrors | crates/kotva-core/src/cbor.rs:426-469 | missing and left-over keys and fields of the wrong type or size have their own errors |
| MoteTables.UnknownErrors | crates/kotva-core/src/mote.rs:560-609 | unregistered suites, kinds and discriminators have theirs |
| MotePreimage.TagInjective | crates/kotva-core/src/mote.rs:546-558 | a delivery tag at the front of a byte string is read off unambiguously |
| MotePreimage.ChallengeBytesInjective | crates/kotva-core/src/mote.rs:1573-1576 | challenge bytes determine the challenge; an absent one never collides with a present one |
| MotePreimage.AadInjective | crates/kotva-core/src/mote.rs:1554-1561 | the additional data determines suite, kind, time and tag |
| MotePreimage.SenderAuthedInjective | crates/kotva-core/src/mote.rs:1567-1578 | with ids of one length, as the 33-byte ones are, the sender preimage determines id, tag, time, kind and challenge |
| MotePreimage.BodyInjective | crates/kotva-core/src/mote.rs:763-765 | the signing body determines the content up to the order of extensions |
| MotePreimage.BoundInjective | crates/kotva-core/src/mote.rs:1585-1591 | the payload preimage determines content, kind, time and tag |
| MotePreimage.BoundIsNeverUnbound | crates/kotva-core/src/mote.rs:1598-1600 | no bound preimage equals any unbound one |
| MotePreimage.AadLayout | crates/kotva-core/src/mote.rs:1554-1561 | suite, kind, eight bytes of time, then the tag |
| MotePreimage.SenderLayout | crates/kotva-core/src/mote.rs:1567-1578 | id, tag, eight bytes of time, kind, then the challenge or a null byte |
| MotePreimage.BoundLayout | crates/kotva-core/src/mote.rs:1585-1591 | signing body, kind, eight bytes of time, then the tag |
| MotePreimage.PushAad | crates/kotva-core/src/mote.rs:1554-1561 | pushing the fields one by one gives the additional data |
| MotePreimage.PushSenderAuthed | crates/kotva-core/src/mote.rs:1567-1578 | pushing the fields one by one gives the sender preimage |
| MotePreimage.PushBound | crates/kotva-core/src/mote.rs:1585-1589 | pushing the fields one by one gives the payload preimage |
| MoteMeaning.DomainsDiffer | crates/kotva-core/src/mote.rs:51-52 | what is signed as a payload is never what is signed as a header |
| MotePipeline.TiersEnforced | crates/kotva-core/src/mote.rs:929-951 | the tier check passes exactly if each attachment uses the mechanism its size demands, with valid durability terms |
| MotePipeline.BuildMote | crates/kotva-core/src/mote.rs:1644-1774 | fills in signatures and seal step by step to exactly the specified envelope, or the first error, for either suite |
| MoteMeaning.BuiltCarries | crates/kotva-core/src/mote.rs:1644-1702 | a built envelope carries the draft's fields, its own address, the ephemeral key and signature, and the sealed payload with the draft's content |
| MoteMeaning.BuiltFails | crates/kotva-core/src/mote.rs:1656-1679 | building fails exactly if an attachment is outside its tier or sealing fails |
| MotePipeline.PayloadDecodable | crates/kotva-core/src/mote.rs:779-796 | a payload is decodable exactly if its extension headers are |
| MotePipeline.SealedPayloadDecodes | crates/kotva-core/src/mote.rs:1862 | sealed bytes decode to the payload in normal form, or not at all, exactly by its headers |
| MotePipeline.BuildValidateAgree | crates/kotva-core/src/mote.rs:1811-1899 | the recipient's verdict on a built envelope, in every case: not for us, deferred, undecodable headers, vouch for another, or accepted with the payload sent |
| MotePipeline.BuildValidateWire | crates/kotva-core/src/mote.rs:1811-1899 | a built envelope, encoded and decoded again, decodes and gets that same verdict |
| MotePipeline.ColdNeverOpens | crates/kotva-core/src/mote.rs:1850-1861 | a cold envelope without a challenge gets the same verdict whatever `open` does, and is never accepted |
| MoteMeaning.HeaderVerdict | crates/kotva-core/src/mote.rs:1816-1848 | the header checks in order: version, suite, content address, ephemeral signature, routing, each with its error |
| MoteMeaning.DeferredIff | crates/kotva-core/src/mote.rs:1850-1856 | deferred exactly if the header stands and the envelope is cold; no answer without an error unless the header stands |
| MoteMeaning.AcceptedIff | crates/kotva-core/src/mote.rs:1811-1899 | accepted exactly if the header stands, the envelope is not cold, opens to the payload, is signed in its own context, and any vouch names the sender |
| MoteMeaning.OpenedVerdict | crates/kotva-core/src/mote.rs:1872-1898 | after opening: accepted, vouch for another, context mismatch for a bare signature, or bad signature |
| MoteMeaning.UnopenedVerdict | crates/kotva-core/src/mote.rs:1858-1862 | when opening or decoding fails: that error |
| MoteMeaning.HeaderWasSigned | crates/kotva-core/src/mote.rs:1829-1843 | id, destination, time, kind and challenge of any accepted or deferred envelope were signed together by the ephemeral key |
| MoteMeaning.BuiltIsSent | crates/kotva-core/src/mote.rs:1699-1700 | an honest sender meets what that assumes |
| MotePipeline.AcceptedWasSigned | crates/kotva-core/src/mote.rs:1864-1882 | an accepted envelope carries content, kind, time and destination that the sender's key signed together, provided that the existing signatures that verify under the key are the owner's |
| MotePipeline.BuiltIsCovered | crates/kotva-core/src/mote.rs:1663-1674 | with working cryptography and a signature that binds its message, a built payload meets those provisos with the log of what was built |
| MotePipeline.AssumptionsAreMet | crates/kotva-core/src/mote.rs:1811-1899 | they are met together with working cryptography by an envelope that the sender's own key made and the recipient accepts |
| Quorum.CountQuorum | crates/kotva-core/src/identity.rs:907-926 | counts the distinct listed guardians with a valid signature, in any order and with any repetition |
| Quorum.QuorumsIntersect | crates/kotva-core/src/identity.rs:1100-1107 | two majorities of a list shorter than 2^32 share a guardian who signed both |
| Quorum.LargeQuorumsNeedNotIntersect | crates/kotva-core/src/identity.rs:1100-1107 | at every length from 2^32 on two disjoint groups both pass on any two messages, with 32-byte keys and 64-byte signatures |
| Recovery.ThresholdMin | crates/kotva-core/src/identity.rs:938-940 | the smallest predicate count, 0 for an empty threshold |
| Recovery.AtLeastAsStrongTransitive | crates/kotva-core/src/identity.rs:943-958 | method strength is transitive |
| Recovery.LowerIff | crates/kotva-core/src/identity.rs:935-940 | a minimum is lower exactly if some number of factors meets that threshold and not the other |
| Recovery.WeakeningIff | crates/kotva-core/src/identity.rs:974-982 | no weakening exactly if every phrase key and labelled device key is kept, every social method has one with all its guardians and no lower threshold, and no fewer factors meet either threshold |
| Recovery.SocialKeptMeans | crates/kotva-core/src/identity.rs:953-955 | where a social method is kept, no group too small for the old threshold can meet the new one |
| Recovery.VerifyPolicyChain | crates/kotva-core/src/identity.rs:1031-1047 | accepts exactly complete hash-linked chains with increasing versions |
| Recovery.VersionsRise | crates/kotva-core/src/identity.rs:1031-1047 | along an accepted chain versions rise over any distance and only genesis has no predecessor |
| Recovery.EvictedMethods | crates/kotva-core/src/identity.rs:1015-1020 | lists exactly the methods of any version that the newest one lacks |
| Recovery.IsWeakeningVsHistory | crates/kotva-core/src/identity.rs:1005-1023 | true exactly if a method or threshold is weakened or an evicted method returns |
| Recovery.AuthorizeRecoveryChange | crates/kotva-core/src/identity.rs:1077-1118 | the verdict, error by error: chain, then weakening, then quorum, veto and window |
| Recovery.Verdict | crates/kotva-core/src/identity.rs:1077-1118 | a change passes exactly if the chain verifies and any weakening is guarded |
| Recovery.VerdictErrors | crates/kotva-core/src/identity.rs:1089-1117 | each error with its condition |
| Recovery.GuardedIff | crates/kotva-core/src/identity.rs:1094-1117 | below 2^32 guardians a guarded step is a majority that meets the rotation threshold, no majority veto, and 72 hours passed |
| Recovery.ApprovalIsNoVeto | crates/kotva-core/src/identity.rs:814-817 | what is signed as an approval is never what is signed as a veto |
| Recovery.UnguardedKeepsStrength | crates/kotva-core/src/identity.rs:974-982 | without a guarded step in between no later version is weaker in any method or threshold |
| Recovery.UnguardedKeepsFactors | crates/kotva-core/src/identity.rs:1077-1118 | without a guarded step in between every factor, by its key material, and both thresholds are kept |
| Recovery.AdditionsPass | crates/kotva-core/src/identity.rs:1061-1093 | a change that keeps all methods and thresholds and adds methods no version ever had passes at once |
| Recovery.WeakerOnlyIfGuarded | crates/kotva-core/src/identity.rs:1077-1118 | if a later version is weaker than an earlier one, a step in between met quorum, veto and window |
| Recovery.ReturnOnlyIfGuarded | crates/kotva-core/src/identity.rs:1015-1023 | a method evicted and present again came back through a guarded step after its eviction |
| Recovery.GuardedRunExists | crates/kotva-core/src/identity.rs:1077-1118 | such runs exist: a quorum can evict a method and later take it back |
| Recovery.HistoryUnique | crates/kotva-core/src/identity.rs:1031-1047 | two accepted histories with the same tip are equal |
| Recovery.WeakeningsShareApprover | crates/kotva-core/src/identity.rs:1094-1107 | two weakening changes authorised under one guardian list share an approver |
| KeyRotation.PolicyGuardians | crates/kotva-core/src/identity.rs:1281-1290 | lists exactly the guardians of the social methods |
| KeyRotation.PolicyGuardiansJoin | crates/kotva-core/src/identity.rs:1281-1290 | listing is method by method, in order and with repetitions |
| KeyRotation.KeyRotationIsQuorumBacked | crates/kotva-core/src/identity.rs:1302-1313 | true exactly if a quorum is claimed and the policy's guardians reach the bar |
| KeyRotation.QuorumBackedIff | crates/kotva-core/src/identity.rs:1292-1313 | below 2^32 guardians: a claimed quorum, a majority of co-signers, and as many as the rotation threshold asks |
| KeyRotation.DelayedIff | crates/kotva-core/src/identity.rs:1345-1354 | no quorum claimed, no majority veto, and 72 hours passed |
| KeyRotation.CosigningIsNoVeto | crates/kotva-core/src/identity.rs:1127-1130 | what is signed as an approval of a rotation is never what is signed as its veto |
| KeyRotation.AuthorizeKeyRotation | crates/kotva-core/src/identity.rs:1329-1356 | passes exactly without a policy, by quorum, or by delay without veto |
| KeyRotation.RotationsShareCosigner | crates/kotva-core/src/identity.rs:1292-1313 | two quorum-backed rotations under one policy share a co-signer among its guardians |
| KeyRotation.VetoedOnlyWithTurncoat | crates/kotva-core/src/identity.rs:1341-1355 | a rotation vetoed by a majority is authorised only if a guardian both vetoed and co-signed it |
| Capability.ScopeCoversTransitive | crates/kotva-core/src/capability.rs:105-108 | scope covering is transitive |
| Capability.ScopeMeans | crates/kotva-core/src/capability.rs:105-108 | a scope covers itself and exactly what extends it after a slash |
| Capability.TighteningMeans | crates/kotva-core/src/capability.rs:113-125 | tightening keeps every condition; malformed caveats cover nothing and are covered only where there are none |
| Capability.CoversMeans | crates/kotva-core/src/capability.rs:127-133 | a grant covers exactly those whose resource and ability are its own or extend them after a slash, with all its conditions |
| Capability.GrantFrom | crates/kotva-core/src/capability.rs:159-174 | every decoded grant has absent caveats or a text map |
| Capability.GrantWritten | crates/kotva-core/src/capability.rs:148-174 | decode after encode gives the grant back up to the order of caveats |
| Capability.TighteningComposes | crates/kotva-core/src/capability.rs:113-125 | two tightenings compose if and only if the outermost has no caveats or the innermost has decoded shape |
| Capability.TighteningDoesNotAlwaysCompose | crates/kotva-core/src/capability.rs:113-125 | a concrete triple that does not |
| Capability.CoversComposes | crates/kotva-core/src/capability.rs:129-133 | covering composes under the same condition |
| Capability.VerifyChain | crates/kotva-core/src/capability.rs:309-338 | the loop yields the first error of the walk up the chain, or acceptance |
| Capability.ChainIff | crates/kotva-core/src/capability.rs:309-338 | accepted exactly if the token and every ancestor are signed, each hangs on the next by address, key, window and grants, and the last has no parent |
| Capability.LinkErrors | crates/kotva-core/src/capability.rs:313-330 | the errors of one link with their conditions |
| Capability.VerifyChainRooted | crates/kotva-core/src/capability.rs:346-357 | accepts exactly accepted chains whose root issuer is the trusted one |
| Capability.VerifyAtIff | crates/kotva-core/src/capability.rs:370-382 | each answer with its condition: signed, inside the window, not itself listed |
| Capability.AttenuationEndToEnd | crates/kotva-core/src/capability.rs:309-382 | every leaf grant is covered by some grant of every ancestor, windows nest, and a clock that suits the leaf suits every ancestor |
| Capability.MalformedLeafEscapes | crates/kotva-core/src/capability.rs:309-338 | for every malformed caveat value an accepted chain whose leaf the root does not cover |
| Capability.ChainUnique | crates/kotva-core/src/capability.rs:309-357 | a token determines its accepted ancestors and so its root issuer |
| Capability.NeverOwnAncestor | crates/kotva-core/src/capability.rs:309-338 | no token occurs among its own accepted ancestors |
| Capability.AncestorRevocationNotSeen | crates/kotva-core/src/capability.rs:370-382 | listing an ancestor's address among the revocations never changes the verdict on a descendant |
| Capability.AuthorityFlows | crates/kotva-core/src/capability.rs:312-336 | each issuer is the next audience, and exactly the last ancestor has no parent |
| Bom.Walker.Recurse | crates/kotva-core/src/cad.rs:435-466 | fails exactly on a cycle, otherwise restores the path and adds exactly the walk's contributions |
| Bom.WalkBom | crates/kotva-core/src/cad.rs:431-471 | fails exactly if some reference path repeats a reference; otherwise each leaf gets the sum over all root-to-leaf paths of the capped product, modulo 2^64 |
| Bom.CyclicIff | crates/kotva-core/src/cad.rs:446-450 | the walk's cycle test agrees with repetition along some path |
| Bom.TrailsComplete | crates/kotva-core/src/cad.rs:446-465 | no root-to-leaf path is missed |
| Bom.TrailsDistinct | crates/kotva-core/src/cad.rs:446-465 | none is counted twice |
| Bom.SaturationIsCap | crates/kotva-core/src/cad.rs:451 | saturating at every level equals capping the whole product |
| Bom.ContributionsAreTrails | crates/kotva-core/src/cad.rs:446-465 | the walk contributes, path by path, the capped product |
| Bom.WalkMeaning | crates/kotva-core/src/cad.rs:431-471 | the accumulated table of an acyclic walk is the table of path sums |
| KeyName.IndicesFromHash | crates/kotva-core/src/keyname.rs:53-70 | the eight ten-bit groups write the same number as the first ten bytes, despite the 32-bit accumulator |
| KeyName.PrefixFromIndices | crates/kotva-core/src/keyname.rs:122-135 | the repacking loop writes the same number back as ten bytes |
| KeyName.TenBitsSurvive | crates/kotva-core/src/keyname.rs:60-64 | the bits read off the accumulator do not depend on what overflowed |
| KeyName.PackingBijection | crates/kotva-core/src/keyname.rs:53-135 | packing is a bijection between ten-byte prefixes and eight-word names |
| KeyName.ChecksumMeans | crates/kotva-core/src/keyname.rs:75-82 | the checksum is the number in the first ten bits of the tagged hash |
| KeyName.EncodeKey | crates/kotva-core/src/keyname.rs:88-97 | the name of the first ten bytes of the key's hash |
| KeyName.WordIndex | crates/kotva-core/src/keyname.rs:48-50 | the first position of the word, or nothing exactly if it is not listed |
| KeyName.VerifyName | crates/kotva-core/src/keyname.rs:104-137 | accepts exactly the names of ten-byte prefixes |
| KeyName.NinthWordDecides | crates/kotva-core/src/keyname.rs:104-137 | eight listed words and a ninth are a name exactly if the ninth is the word at that number for the prefix the eight spell |
| KeyName.Matches | crates/kotva-core/src/keyname.rs:140-142 | true exactly for the key's own name |
| KeyName.SplitJoin | crates/kotva-core/src/keyname.rs:96-105 | joined hyphen-free words split back |
| KeyName.NameInjective | crates/kotva-core/src/keyname.rs:88-97 | names are equal exactly if prefixes are |
| KeyName.SharedNames | crates/kotva-core/src/keyname.rs:88-97 | two keys share a name exactly if their hash prefixes agree |
| Splice.HeadReads | conformance/vectors/verify_pub_vectors.py:50-65 | a shortest head is read back |
| Splice.CborSkipValue | conformance/vectors/verify_pub_vectors.py:68-83 | the loops yield the position after the value, or fail |
| Splice.CborMapSpans | conformance/vectors/verify_pub_vectors.py:86-98 | the loop yields the span of every key |
| Splice.CborStripKey | conformance/vectors/verify_pub_vectors.py:101-110 | a fresh head and the kept spans in ascending key order |
| Splice.EncodeArray | conformance/vectors/gen_pub_vectors.py:137-141 | the appending loop yields head and items |
| Splice.EncodeMap | conformance/vectors/gen_pub_vectors.py:144-150 | the appending loop yields head and entries in key order |
| Splice.ValSkips | conformance/vectors/verify_pub_vectors.py:68-83 | skipping lands exactly on the end of every encoded value, nested to any depth |
| Splice.SpansFound | conformance/vectors/verify_pub_vectors.py:86-98 | scanning finds, for each key, exactly the bytes of its entry |
| Splice.EncMapIsEntries | conformance/vectors/gen_pub_vectors.py:144-150 | the encoding of distinct keys depends on the entries only, not on their order |
| Splice.SpliceIsReencode | conformance/vectors/verify_pub_vectors.py:101-110 | stripping a key from an encoded map equals encoding the pairs without that key |
| SpliceCanon.ScriptsAreCanonical | conformance/vectors/gen_pub_vectors.py:111-150 | the scripts write exactly the canonical encoding of every value they can build |
| SpliceCanon.SpliceIsCanonical | conformance/vectors/verify_pub_vectors.py:101-110 | splicing a key out of a canonical map gives the canonical map of the other entries |
| SpliceCanon.AnyHeadReads | conformance/vectors/verify_pub_vectors.py:50-65 | a head of any width is read, shortest or not |
| SpliceCanon.StripRefuses | conformance/vectors/verify_pub_vectors.py:86-89 | only a map can be edited |
| SpliceCanon.IntegersSkip | conformance/vectors/verify_pub_vectors.py:68-71 | integers of either sign are skipped by their head |
| SpliceCanon.SkipRefuses | conformance/vectors/verify_pub_vectors.py:68-83 | text, tags, simple values, reserved heads and the end of the buffer are not skipped |

## Left out

- Cryptography: BLAKE3, Ed25519, ML-DSA, HPKE and X-Wing are parameters or free constructors; `pq.rs` is not part of this model.
- Tree heads carry size and root only: suite, log id, timestamp, signature, their CBOR forms and `verify_identity` are settled by the codec theorems and one comparison each.
- Lengths of byte strings, arrays and maps below 2^64 appear as the predicate `Fits`; every Rust vector meets it. Positions and lengths use a 64-bit `usize`.
- `DurabilityClass::Unknown` with a byte 0 to 3, a value no decoder makes, has no counterpart.
- `validate_pinned`, the suite ratchet, `check_retention` and the manifest chunk functions of `mote.rs`.
- Policies and rotation records: `RecoveryPolicy::verify`, `Threshold::at_least_as_strong_as`, their CBOR forms, `prefer_rotation_fork` and rollback checks; content ids are a parameter, and uniqueness assumes no collision on the policies at hand.
- Tokens: signature check and content address are parameters over the whole token; revocation objects are not modelled.
- `AssemblyStructure` without its CBOR form, `ref_kind` and transforms; the quantity sum wraps as in a build without overflow checks, where a checked build would stop instead.
- The embedded word list: assumed to hold 1024 different words without hyphens.
- Python integers of 2^64 and more as keys or lengths, where the scripts raise an error; `enc_tstr` and `cbor_decode_map`.
- Trackers and caches, attestation, directory, deniable messages, push, policy, mixnet, location, public objects, onion packets and calls: single comparisons or field codecs over the same CBOR core.
- Error-code tables, vector generation, lint tools and the synchronisation vectors, which hold expected answers and no merge code.
