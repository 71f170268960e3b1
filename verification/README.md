# Merkle Tree Certificates: a verified model

This project models the demo implementation of draft-ietf-plants-merkle-tree-certs
(the Go code under `demo/`) and proves what it is for: its Merkle subtree engine
computes the hashes and proofs of RFC 9162 and of the draft; a certificate that a CA issues
from its log is accepted exactly when the relying party's policy allows it; and a
certificate that evaluates to the hash of a log's subtree is the one of the logged entry.

Check it with `dafny verify dfyconfig.toml`.

## The parts

- `Bits` - 64-bit arithmetic with wrap-around, shifts, masks, exclusive or, bit length and
  trailing zeros, and the lemmas that read them as quotients and remainders by powers of two.
- `Hashing` - bytes, and the three hashes of the tree as parameters. Nothing is assumed of
  them; binding is always stated as "equal, or here is an explicit collision".
- `Subtrees`, `MerkleSpec` - the validity of subtrees, the two that cover an interval, and
  the recursive MTH and PATH of RFC 9162 that everything is measured against.
- `MerkleTree`, `SubtreeProofs`, `InclusionProofs`, `ConsistencyProofs` - the table of full
  nodes by level as a class, and the bottom-up loops over it.
- `ConsistencyCheck` - the checking procedure of section 4.4.3 of the draft. The demo
  generates consistency proofs but does not check them, so this is the specification side.
- `TrustAnchors`, `TrustAnchorText`, `TrustAnchorPatterns` - IDs and patterns as bytes and text.
- `Wire`, `MtcProofs`, `Cosigning`, `Certificates`, `Issuance` - byte reader and writer, DER
  elements, the MTCProof, the signed message, the certificate, and CreateCertificate.
- `Policies` - the cosigner policy as an object built call by call, and its meaning.
- `Scheduling` - the entry, checkpoint and landmark loop of the generator.
- `Verification` - the one-pass entry hash, the verifier, and the end-to-end theorems.
- `EntryBinding` - what a certificate that evaluates to a log's subtree hash must be.

Loops of the Go code are methods with loops, proved equal to functions on values; what the
code promises is then proved of those functions. A Go string or slice is a sequence of
bytes. The draft version is a value from plants-04 to plants-07. SHA-256, signing and
verifying are function parameters; where a theorem needs that a signature verifies, it says
so (`KeysMatch`).

## Where code and draft part

- The draft asks that landmark sizes strictly increase; the generator appends a landmark for
  each occurrence of the name, so an entry that lists "landmark" twice repeats one
  (`Scheduling.LandmarksIncrease` gives the exact condition, `LandmarksCanRepeat` an input).
- `AddUint48` keeps the low 48 bits of start and end without an error, so a subtree that ends
  at or above 2^48 is written with other coordinates (`MtcProofs.ProofRoundTrip` has the exact
  condition).
- The DER writer accepts contents up to 0xfffffffe bytes, the reader only elements shorter
  than 2^32 bytes (`Wire.ReadElementWritten` has the exact condition). The end-to-end theorems
  are about certificates below that size.
- The draft wants signing and verifying to fail for IDs with a component out of range. The demo
  signs over the text "<invalid: ...>" instead (`Cosigning.UnreadableIdIsSigned` has an input,
  `MessageFields` the exact condition for a message). The text is still different for
  different IDs, so no two messages coincide.
- A created certificate with repeated or empty cosigner IDs, or malformed entry extensions,
  is written without an error and rejected by every verifier (`Verification.IssuedIsAcceptedIff`).

## Model

| member | source | states |
|---|---|---|
| Subtrees.IsValidSubtreeIsExact | demo/log.go:40-49 | The 64-bit check says yes exactly when start <= end and start is a multiple of BIT_CEIL(end - start), for all 64-bit inputs, also where the shift leaves zero because the power of two is 2^64. |
| Subtrees.CoverOfInterval | demo/log.go:229-255 | For every start <= end the two results are subtrees, adjacent, cover the interval without extra entries on the right, and neither is larger than BIT_CEIL(end - start); for at most one entry they are [start, end) and [end, end). |
| Subtrees.LeftIsFull | draft-ietf-plants-merkle-tree-certs.md:876-895 | The left subtree of an interval that is not empty is full: its size is a power of two, the least that reaches back to start; with two or more entries the right one is not empty. |
| Subtrees.LeftIsSmallest | draft-ietf-plants-merkle-tree-certs.md:897 | No subtree that contains [start, end1) is smaller than the left one. |
| Subtrees.CoverIsExact | demo/log.go:229-255 | For all 64-bit start and end: the answer is d if and only if start <= end and d is a pair of adjacent subtrees that cover the interval with nothing extra on the right, the left one non-empty unless the interval is and as small as its part allows, the right one non-empty for two or more entries. There is exactly one such pair. |
| Subtrees.CoverIsUnique | draft-ietf-plants-merkle-tree-certs.md:865-878 | No two different pairs cover an interval in this way, short intervals included. |
| Subtrees.IntervalSplit | demo/log.go:241-254 | The exclusive or, masks and bit lengths in closed form: mid is the multiple of 2^split between start and end, and the left subtree starts BIT_CEIL(mid - start) before it. |
| MerkleSpec.MthIsListMth | draft-ietf-plants-merkle-tree-certs.md:453-458 | The reference hash over positions lo, hi is MTH of section 2.1.1 of RFC 9162 on the list D[lo:hi] and depends on nothing else. |
| MerkleSpec.MthOfPrefix | draft-ietf-plants-merkle-tree-certs.md:992-996 | Appending entries to the log changes no subtree hash. |
| MerkleSpec.MthOfFew | draft-ietf-plants-merkle-tree-certs.md:453 | MTH of no entry, one and two entries, over SHA-256 with its domain bytes. |
| Hashing.NodeCollisionIsSha256Collision | demo/log.go:30-38 | Two child pairs with one node hash are two different byte strings with one SHA-256 value. |
| MerkleTree.LeafLevel | demo/log.go:66-71 | Level 0 of the table: node j is the leaf hash of entry j. |
| MerkleTree.NextLevel | demo/log.go:78-82 | From level i to level i + 1: floor(n / 2^(i+1)) nodes, node j the hash of D[2^(i+1) j : 2^(i+1) (j+1)]. |
| MerkleTree.StaticMerkleTree.constructor | demo/log.go:64-85 | The table is complete: every level up to one of fewer than two nodes, each row with exactly the full nodes and their hashes. |
| MerkleTree.StaticMerkleTree.Size | demo/log.go:87 | The size of the tree is the number of entries. |
| MerkleTree.StaticMerkleTree.FullSubtreeHashByLevel | demo/log.go:89-94 | A look-up of a full node of the tree is in range and is MTH of the entries under it. |
| MerkleTree.StaticMerkleTree.FullNodeIsInTable | demo/log.go:53-55 | Every full node inside the tree has its place in the table, so no look-up panics. |
| SubtreeProofs.RightEdgeLevel | demo/log.go:106-110 | The trailing zeros of ^last - start in wrapping 64-bit arithmetic are those of end - start, for every non-empty subtree. |
| SubtreeProofs.SubtreeHash | demo/log.go:96-124 | Answers exactly for the subtrees within the tree, and then with MTH(D[start:end]); every look-up is in range. |
| SubtreeProofs.ClimbRightEdge | demo/log.go:106-123 | The climb along the right edge, which may skip levels, ends at MTH(D[start:end]). |
| SubtreeProofs.SubtreeInclusionProof | demo/log.go:126-160 | Answers exactly for an entry of a subtree within the tree, with the hashes of PATH (section 2.1.3.1 of RFC 9162) on D[start:end]. |
| SubtreeProofs.ClimbPath | demo/log.go:136-159 | The bottom-up loop emits the top-down path; the inner SubtreeHash call never fails. |
| InclusionProofs.EvaluateSubtreeInclusionProof | demo/log.go:257-292 | Terminates, also in the inner shift loop, and computes the level-by-level climb over whole hashes, or the error. |
| InclusionProofs.EvaluationAccepts | draft-ietf-plants-merkle-tree-certs.md:2247-2260 | A proof is accepted if and only if the position is in a subtree and the proof has HashSize * (l1 + l2) bytes, l1 = BIT_WIDTH(fn XOR sn) and l2 = POPCOUNT(fn >> l1); that is at most BIT_WIDTH(end - start - 1) hashes. |
| InclusionProofs.InclusionRoundTrip | demo/log.go:126-292 | Evaluating the generated proof from the leaf hash of the entry gives the subtree hash; the generator emits exactly l1 + l2 hashes. |
| InclusionProofs.PathClimbs | draft-ietf-plants-merkle-tree-certs.md:572-578 | The same on hashes: PATH climbs from the leaf to MTH. |
| InclusionProofs.ClimbBinds | demo/log.go:266-291 | Two accepted evaluations at one position with one result start from the same entry hash and use the same proof, or two different child pairs with one node hash appear at the same step. |
| InclusionProofs.InclusionBinds | draft-ietf-plants-merkle-tree-certs.md:1792 | If an evaluation gives the tree's subtree hash, then the entry hash is that of the entry and the proof is the generated one, or the evaluation collides with the nodes on the entry's own path. |
| InclusionProofs.ChunksOfFlatten | demo/log.go:271-272 | The concatenated hashes of a proof split back into the hashes. |
| InclusionProofs.FlattenOfChunks | demo/log.go:271-272 | Every proof of whole hashes is the concatenation of its hashes. |
| ConsistencyProofs.SubtreeConsistencyProof | demo/log.go:162-176 | Answers exactly for a subtree within a tree of size n within the log, with the hashes of SUBTREE_PROOF(start, end, D_n). |
| ConsistencyProofs.SubtreeSubproof | demo/log.go:178-227 | From checked inputs no step fails: every window and sibling is a subtree, windows shrink, and the result is SUBTREE_SUBPROOF. |
| ConsistencyProofs.SpansFromStart | demo/log.go:212-217 | A subtree that spans the split of its window starts where the window does, and its part on the right is a subtree. |
| ConsistencyProofs.OmittedHash | draft-ietf-plants-merkle-tree-certs.md:670 | The subtree's own hash is left out of the proof exactly when its size is a power of two or it ends where the tree does; otherwise the proof is the same whether or not the hash is known. |
| ConsistencyProofs.FromStartIsRfcProof | draft-ietf-plants-merkle-tree-certs.md:702-706 | From start zero the proof is the consistency proof of section 2.1.4.1 of RFC 9162. |
| ConsistencyProofs.OfEntryIsPath | draft-ietf-plants-merkle-tree-certs.md:708-712 | For a single entry the recursion gives the same hashes as the inclusion proof of the loop. |
| ConsistencyCheck.VerifySubtreeConsistencyProof | draft-ietf-plants-merkle-tree-certs.md:802-828 | The draft's checking procedure, as a loop over fn, sn and tn, decides the level-by-level relation Accepts. It is the specification side: the demo has no such checker. |
| ConsistencyCheck.CheckClimb | draft-ietf-plants-merkle-tree-certs.md:810-818 | Skipping to the first common node. |
| ConsistencyCheck.ClimbLoop | draft-ietf-plants-merkle-tree-certs.md:819-828 | The loop over the proof, with its inner shifts, rebuilds both hashes. |
| ConsistencyCheck.GeneratedIsAccepted | demo/log.go:162-227 | Every generated consistency proof is accepted, for every subtree and every n with end <= n <= size, against MTH(D[start:end]) and MTH(D[0:n]). |
| ConsistencyCheck.AcceptedAgree | draft-ietf-plants-merkle-tree-certs.md:796-828 | Two accepted proofs at one position for one root are the same proof of the same subtree hash, or they collide on the way to the root. |
| ConsistencyCheck.AcceptedIsGenerated | draft-ietf-plants-merkle-tree-certs.md:796-828 | A proof accepted against the root of D[0:n] is for a subtree within D[0:n], it is the generated one and its subtree hash is MTH(D[start:end]), the empty subtree included, short of a collision with the tree's own nodes. |
| TrustAnchors.ParseBase128 | demo/config.go:257-279 | Reads one subidentifier (section 8.19 of X.690): at least one byte, no leading 0x80, value below 2^32. |
| TrustAnchors.AppendBase128 | demo/config.go:281-299 | Appends the groups of seven bits, most significant first, one group for zero. |
| TrustAnchors.ReadWritten | demo/config.go:257-299 | Reading what was appended gives the value and leaves exactly what follows. |
| TrustAnchors.ReadIsCanonical | demo/config.go:257-299 | What is accepted is the encoding of its value: there is no second form. |
| TrustAnchors.ComponentsOfEncoded | demo/config.go:301-316 | A list of components encodes to bytes that read back as the list. |
| TrustAnchors.EncodedComponents | demo/config.go:318-337 | An ID is the encoding of its components. |
| TrustAnchorText.TrustAnchorIDString | demo/config.go:318-337 | The text of an ID is its components in decimal, joined by dots; anything else gets the marked hexadecimal form. |
| TrustAnchorText.TrustAnchorIDFromString | demo/config.go:303-316 | Parses exactly the dot-separated decimal numbers below 2^32, into the encoding of their list. |
| TrustAnchorText.IdTextRoundTrip | demo/config.go:303-337 | FromString(String(id)) is id for every valid ID. |
| TrustAnchorText.IdFromTextIsId | demo/config.go:303-316 | Whatever text is accepted, the result is a valid ID. |
| TrustAnchorText.IdTextInjective | demo/config.go:318-337 | No two byte strings, valid IDs or not, have the same text, so maps keyed by text are keyed by ID. |
| TrustAnchorText.TextOfIdFromText | demo/config.go:303-337 | A text that is accepted is written back as it was if and only if no component has a leading zero. |
| TrustAnchorText.TextsAre | demo/config.go:318-337 | Digits, separators and the marked hexadecimal form, as characters. |
| TrustAnchorPatterns.TrustAnchorIDPatternString | demo/config.go:398-431 | The text of a pattern is its ranges, a point range as a number, an infinite one as {min-}. |
| TrustAnchorPatterns.TrustAnchorIDPatternFromString | demo/config.go:362-396 | Parses numbers and braced ranges into the encoded pattern. |
| TrustAnchorPatterns.ReadWrittenRange | demo/config.go:350-360 | A written range reads back: 0x80 marks infinity and starts no subidentifier. |
| TrustAnchorPatterns.ReadRangeIsCanonical | demo/config.go:408-428 | What reads as a range is the encoding of that range. |
| TrustAnchorPatterns.PatternTextRoundTrip | demo/config.go:362-431 | FromString(String(p)) is p for every valid pattern. |
| TrustAnchorPatterns.ParseRangeIs | demo/config.go:364-390 | Exactly these parts are accepted: a number, and in braces a number, a dash and nothing or a number. |
| TrustAnchorPatterns.TrustAnchorIDToPattern | demo/config.go:442-455 | The pattern of an ID has one point range for each component. |
| TrustAnchorPatterns.PatternOfIdText | demo/config.go:442-455 | That pattern has the text of the ID. |
| Wire.ReadPrefixedWritten | demo/verify_proof.go:40-47 | A length-prefixed vector reads back and leaves what follows. |
| Wire.PrefixedIsWritten | demo/verify_proof.go:40-47 | Every vector that is read is the one that would be written. |
| Wire.ValueFirst | demo/verify_proof.go:72-74 | Integers are big-endian: the first byte is the most significant. |
| Wire.ReadElementWritten | demo/verify_proof.go:130-137 | A DER element that was written reads back exactly when it is shorter than 2^32 bytes: the writer goes a little further than the reader. |
| Wire.ElementIsWritten | demo/verify_proof.go:130-137 | The encoding is distinguished (section 10.1 of X.690): what is read is what would be written. |
| Wire.IntegerRoundTrip | demo/encode.go:304 | Every 64-bit serial survives INTEGER encoding and decoding. |
| Wire.IntegerIsCanonical | demo/verify_proof.go:201 | An INTEGER that reads as a serial is the one that would be written for it. |
| MtcProofs.CompareIdsIs | draft-ietf-plants-merkle-tree-certs.md:1294-1297 | The comparison is the draft's order: shorter IDs first; of one length, by the first byte that differs. |
| MtcProofs.CompareIdsOrder | demo/encode.go:402-404 | That order is strict and total: exactly one of before, equal, after, and transitive. |
| MtcProofs.CanonicalIs | draft-ietf-plants-merkle-tree-certs.md:1294-1299 | The parser's running condition says, over indices, that no ID is empty and each comes before the next. |
| MtcProofs.ParseMTCProof | demo/verify_proof.go:49-116 | The cursor-driven parser computes the parse of the structure, with its error cases; what it accepts has non-empty cosigner IDs, every neighbouring pair ascending in the draft's order, and ascending extension types. |
| MtcProofs.ParseEntryExtensions | demo/verify_proof.go:77-88 | Extension types must be strictly ascending. |
| MtcProofs.ParseCosignatures | demo/verify_proof.go:98-113 | Accepts only non-empty cosigner IDs of which each comes before the next: shorter first, then by the first byte that differs. |
| MtcProofs.ParseOfEncoded | demo/encode.go:461-501 | What the parser sees of any written proof: coordinates cut to 48 bits, and nothing unless extensions and cosigners are in order. |
| MtcProofs.ProofRoundTrip | demo/verify_proof.go:62-115 | A structure parses back to itself if and only if its coordinates are below 2^48, its extensions are the parse of their bytes and its cosigners are in the draft's order. |
| MtcProofs.ExtensionsRoundTrip | demo/verify_proof.go:78-88 | An extension list survives exactly when its types strictly ascend. |
| MtcProofs.ParsedIsEncoded | demo/verify_proof.go:62-115 | Every byte string that parses is, byte for byte, the encoding of its parse. |
| MtcProofs.SortIsCanonical | demo/encode.go:428-433 | Sorting yields the order the parser demands if and only if the IDs are distinct and non-empty, and keeps the multiset of cosignatures. |
| MtcProofs.CanonicalIsUnique | draft-ietf-plants-merkle-tree-certs.md:1294-1299 | There is only one canonical order of a multiset of cosignatures, so the choice of sorting algorithm does not matter. |
| MtcProofs.SignaturesRoundTrip | demo/verify_proof.go:98-113 | Written cosignatures are accepted if and only if they are in the draft's order. |
| MtcProofs.DistinctIdsAre | draft-ietf-plants-merkle-tree-certs.md:1294 | The IDs are distinct, said over the list of IDs by index. |
| MtcProofs.ProofFits | demo/encode.go:461-501 | A proof can be written if and only if extensions and inclusion proof are below 2^16 bytes, IDs below 2^8, signatures below 2^16, and all cosignatures below 2^16, from plants-06 on 2^24. |
| MtcProofs.ProofLayout | draft-ietf-plants-merkle-tree-certs.md:1281-1287 | Where each field of the written structure is, with its length prefix. |
| MtcProofs.SignatureLayout | draft-ietf-plants-merkle-tree-certs.md:1276-1279 | Where ID and signature of each cosignature are. |
| Cosigning.MessageFields | draft-ietf-plants-merkle-tree-certs.md:1095-1138 | A message exists exactly for a subtree, names of at most 255 bytes, and no timestamp unless the subtree starts at zero; then it reads back, field by field in the order of the draft, as what was signed. |
| Cosigning.OriginIs | draft-ietf-plants-merkle-tree-certs.md:1119-1127 | Cosigner name and log origin are the fixed text followed by the text of the ID. |
| Cosigning.LabelIs | draft-ietf-plants-merkle-tree-certs.md:1115 | The label of the message, as characters. |
| Cosigning.MessageIsDrafts | demo/cosign.go:31-63 | The bytes signed for a subtree are exactly those in which a reader finds the draft's fields: cosigner, zero timestamp, log, start, end, hash. |
| Cosigning.UnreadableIdIsSigned | demo/cosign.go:27-63 | The draft wants signing to fail for an ID with a component out of range; the demo signs over the marked form of the ID. The input is an ID whose component is 2^32. |
| Cosigning.MessageInjective | demo/cosign.go:31-63 | Two signed messages are equal only if cosigner ID, log ID, timestamp, start, end and hash all are, for all byte strings as IDs. |
| Cosigning.LogID | demo/encode.go:388-396 | The CA ID followed by the components 0 and the log number. |
| Cosigning.LogIdComponents | draft-ietf-plants-merkle-tree-certs.md:984-990 | The log ID of a valid CA ID is a valid ID with exactly those components. |
| Cosigning.LogIdInjective | demo/encode.go:388-396 | Different CAs or log numbers have different log IDs. |
| Policies.Policy.constructor | demo/policy.go:16-23 | A new policy is empty. |
| Policies.Policy.AddCosigner | demo/policy.go:217-235 | The whole new state of the policy: a new name for a new cosigner, or an error and no change. |
| Policies.Policy.AddCA | demo/policy.go:198-214 | The whole new state of the policy: a cosigner, an entry with its index and the serials outside the given range revoked, or an error and no change. |
| Policies.Policy.AddGroup | demo/policy.go:237-260 | The whole new state of the policy: a group of names that exist already, or an error and no change. |
| Policies.Policy.RequireCosignersForCA | demo/policy.go:262-273 | The whole new state of the policy: one more requirement of one CA. |
| Policies.Policy.RequireCosignersForAllCAs | demo/policy.go:275-282 | The whole new state of the policy: one more requirement of all CAs. |
| Policies.Policy.RevokeRange | demo/policy.go:284-294 | The whole new state of the policy: one more revoked range of one CA. |
| Policies.Policy.AddTrustedSubtree | demo/policy.go:296-311 | The whole new state of the policy: one more trusted subtree of one CA, if it is a subtree. |
| Policies.CallKeepsForm | demo/policy.go:119-311 | Every call keeps the policy well formed: indices in bounds, group members earlier than the group, each CA's cosigner the one of its own name. |
| Policies.EveryPolicyIsWellFormed | demo/policy.go:119-311 | Hence every policy built by any sequence of calls, failing ones included, is well formed. |
| Policies.RunAppend | demo/policy.go:119-311 | Calls take effect one after the other; one that fails changes nothing. |
| Policies.CallSucceeds | demo/policy.go:119-311 | Exactly which calls succeed: new names, known members and requirements, a range that is not inverted, a subtree that is one. |
| Policies.AddedCosignerMeans | demo/policy.go:217-235 | A new cosigner is found under the text of its ID, and nothing else changes. |
| Policies.AddedCAMeans | demo/policy.go:198-206 | A new CA has the cosigner just added, no requirements and no trusted subtrees. |
| Policies.EvaluateGroups | demo/policy.go:332-347 | The single forward pass gives every cosigner and group its recursive quorum meaning. |
| Policies.SatisfiedIsMonotone | demo/policy.go:325-347 | More valid cosigners never satisfy less. |
| Policies.MeaningIsKept | demo/policy.go:237-260 | Groups and cosigners added later leave the meaning of earlier ones. |
| Policies.AddedGroupMeans | demo/policy.go:237-260 | A new group is satisfied exactly when at least `number` of its named members are; all other names mean what they meant. |
| Policies.AddedCARevokes | demo/policy.go:207-212 | A CA added with a serial range has exactly the serials outside it revoked; other CAs are untouched. |
| Policies.RevokedExactly | demo/policy.go:284-294 | Revoking a range revokes exactly its serials, for exactly that CA. |
| Policies.TrustedOneMore | demo/policy.go:44-51 | A trusted subtree is found at its own log and position only, and the first one at a position wins. |
| Policies.TrustedExactly | demo/policy.go:296-311 | Trusting a subtree adds it for that CA, log and position, unless one was there, and changes nothing else. |
| Policies.FindTrustedSubtree | demo/policy.go:44-51 | The first entry with this log, start and end. |
| Scheduling.BuildSchedule | demo/generate.go:115-218 | The loop succeeds if and only if the log of entries can be scheduled; then entries, certificates and landmarks are as that log alone determines. |
| Scheduling.SchedulableIs | demo/generate.go:146-218 | What can be scheduled: every entry can be marshalled, every certificate has either coordinates or a checkpoint, and known cosigners, and every checkpoint asked for is named by that or a later entry. |
| Scheduling.ExpandedIs | demo/generate.go:139-150 | A configuration stands for one entry, or for as many as it says. |
| Scheduling.AddEntry | demo/generate.go:146-212 | One entry: fails exactly for a bad entry and otherwise keeps the invariant over log, certificates, waiting lists, sequence sizes and landmarks. |
| Scheduling.ScheduleCertificates | demo/generate.go:153-186 | Certificates are scheduled in order; the waiting ones are noted with the last size of their sequence and their landmark number. |
| Scheduling.FindCosigners | demo/generate.go:172-184 | Succeeds exactly when every named cosigner is known. |
| Scheduling.ReachCheckpoints | demo/generate.go:188-212 | The checkpoints of an entry, in order, update sizes and landmarks and resolve waiting certificates. |
| Scheduling.ReachCheckpoint | demo/generate.go:189-211 | One checkpoint: never fails, and gives every certificate that waited for it the covering subtree that holds its index. |
| Scheduling.WaitingCertificateCovers | demo/generate.go:163-210 | For a certificate waiting for any sequence: n is the first size above its index whose entry names the sequence, m the last size up to its index whose entry does, or 0, and its subtree is the one of the two results for [m, n) that holds its index. |
| Scheduling.FixedCertificate | demo/generate.go:157-171 | A certificate with coordinates keeps them; only landmark certificates have a landmark number. |
| Scheduling.EveryCertificateOnce | demo/generate.go:154-185 | Every certificate of every entry is scheduled exactly once. |
| Scheduling.ScheduledInOrder | demo/generate.go:154-185 | In the order of entries and, within one, of certificates. |
| Scheduling.CertificateIsCovered | demo/generate.go:196-210 | Each checkpoint-based certificate ends up with a valid subtree that contains its index and lies within the final log. |
| Scheduling.LandmarkNumber | demo/generate.go:165-168 | A landmark certificate with number L has landmarks[L-1] <= index < landmarks[L] and one of the two subtrees the summary prints for landmark L. |
| Scheduling.LandmarksAre | demo/generate.go:138-193 | The landmark sizes are zero and the sizes whose entry names the landmark sequence, and no others. |
| Scheduling.LandmarksAscend | demo/generate.go:352-371 | Landmarks never go back, so the summary never fails. |
| Scheduling.LandmarksIncrease | draft-ietf-plants-merkle-tree-certs.md:1339 | The draft wants each landmark larger than the last; the loop keeps to that if and only if no entry names the landmark sequence twice. |
| Scheduling.LandmarksCanRepeat | demo/generate.go:189-193 | A configuration that names it twice gets the landmarks 0, 1, 1. |
| Certificates.NameRoundTrip | demo/encode.go:88-110 | The issuer name written for a CA reads back as its ID: from plants-06 on for every byte string, before for exactly the valid IDs. |
| Certificates.NameIsWritten | demo/policy.go:63-113 | A name that reads as a CA's is one attribute of the version's type and nothing more: from plants-06 on, byte for byte the name written for the ID. |
| Certificates.OidsAre | demo/encode.go:31-39 | The algorithm and attribute identifiers, by their arcs, in each version. |
| Certificates.FixedPartsAre | demo/encode.go:66-70 | The version and digest bytes are the DER elements they stand for. |
| Certificates.CertificateIsWritten | demo/verify_proof.go:139-157 | A certificate with signature bytes is the certificate around its parts, with no unused bits. |
| Certificates.ElementThenRest | demo/verify_proof.go:130-137 | An element is read the same whatever follows it. |
| Certificates.ReadIsElement | demo/verify_proof.go:130-137 | Whatever is read as an element is one, with the same contents. |
| Issuance.SerialParts | demo/encode.go:447-454 | Index and log number make a 64-bit serial, and the verifier's mask and shift take it apart again. |
| Issuance.CreateCertificate | demo/encode.go:406-504 | The certificate, or the error, as determined by the log, the cosigners and the entry; CreatedIf and CreatedOnlyIf say when there is one and what is in it. |
| Issuance.CreatedOnlyIf | demo/encode.go:406-504 | A created certificate is for an entry inside a subtree of the log, below index 2^48; it has the serial index + log number * 2^48, PATH as inclusion proof and, sorted, the extra cosignatures and one by each cosigner, which fit. |
| Issuance.CreatedIf | demo/encode.go:406-504 | Under these conditions a certificate is created, if the DER parts are below 2^28 bytes. |
| Issuance.Cosign | demo/encode.go:421-427 | Exactly one cosignature for each cosigner, in order, with its ID and the signature it gives on the draft's message for log, subtree and hash; absent exactly when some cosigner cannot sign. |
| Issuance.SignedIs | demo/encode.go:421-427 | The same of the specification function. |
| Issuance.SignedIds | demo/encode.go:421-427 | The IDs in the certificate are those of the extra cosignatures and then of the cosigners. |
| Issuance.SignedHas | demo/encode.go:421-427 | Every cosigner's signature over the subtree is among the cosignatures. |
| Verification.HashEntry | demo/verify_proof.go:181-217 | The running hash, element by element: what is fed, what is skipped, and the serial. |
| Verification.FeedOfBuilt | demo/encode.go:347-386 | For a TBSCertificate built from an entry the one pass feeds exactly 0x00 and the marshalled log entry, which it never holds. |
| Verification.FieldsOfBuilt | demo/encode.go:301-316 | A parser finds the CA's name and the key in a built TBSCertificate. |
| Verification.CheckRevoked | demo/verify_proof.go:219-223 | A serial is rejected exactly when some revoked range contains it. |
| Verification.CheckClaim | demo/verify_proof.go:219-235 | Revocation, serial split, log ID and evaluation of the inclusion proof. |
| Verification.CheckCosignatures | demo/verify_proof.go:244-258 | Cosigner i counts if and only if some cosignature has its ID and its verify accepts that signature on the draft's message for log, subtree and hash; unknown IDs and names of groups are ignored. |
| Verification.CountsIffSigned | demo/verify_proof.go:244-258 | The same of the specification function; a cosigner whose verify fails on every such pair does not count. |
| Verification.VerifiesIs | demo/cosign.go:227-254 | A signature verifies exactly when the cosigner's verify accepts it on the draft's message. |
| Verification.Unsatisfied | demo/verify_proof.go:266-275 | Exactly the requirements that the recursive meaning does not satisfy. |
| Verification.CheckPolicy | demo/verify_proof.go:260-280 | Nothing is missing exactly when the CA's cosigner and all requirements are satisfied; otherwise exactly the unmet ones are listed. |
| Verification.RequirementAdds | demo/policy.go:262-273 | Requiring a name for a CA asks for just that more of that CA and nothing of others. |
| Verification.RequirementForAllAdds | demo/policy.go:275-282 | Requiring a name for all CAs asks for just that more of each. |
| Verification.VerifyMTCProof | demo/verify_proof.go:166-281 | Accepts exactly the certificates that pass every check and whose trusted subtree matches or, without one, whose signers satisfy the policy; a result says whether a trusted subtree decided and otherwise lists exactly the requirements the signers do not meet. |
| Verification.AcceptedIffSigned | demo/verify_proof.go:237-280 | Acceptance of a checked certificate, in terms of who has really signed. |
| Verification.AcceptedIsSignedByCA | draft-ietf-plants-merkle-tree-certs.md:1788 | Without a trusted subtree at its position, an accepted certificate holds a signature under the CA's own ID that the CA cosigner's verify accepts on the message with that cosigner, timestamp 0, the log, start, end and hash. |
| Verification.BuiltParses | demo/encode.go:445-503 | A created certificate parses into the parts it was made of, and its signature bytes are the encoded MTCProof. |
| Verification.IssuedIsChecked | demo/verify_proof.go:166-235 | From an issued certificate the verifier works out exactly the entry that is in the log, its log ID and the hash of its subtree; or it stops, exactly if the extensions or cosigner IDs are malformed or the serial is revoked. |
| Verification.IssuedIsAcceptedIff | demo/verify_proof.go:237-280 | End to end: an issued certificate is accepted if and only if its extensions are well formed, the IDs of extra cosignatures and cosigners distinct and non-empty, its serial not revoked, and its subtree trusted or, with none trusted there, the cosigners with an accepted signature among the extra ones or made by the given cosigners enough for the policy. |
| Verification.CountedFromInputs | demo/encode.go:421-433 | Who counts and whether IDs repeat, from the cosigners and extra cosignatures given. |
| Verification.ValidUnordered | demo/encode.go:428-433 | Who has cosigned does not depend on the order of the cosignatures. |
| Verification.SignedIsValid | demo/cosign.go:160-189 | A cosigner whose keys belong together counts as valid for what it signed. |
| Verification.HonestQuorumIsAccepted | draft-ietf-plants-merkle-tree-certs.md:1477 | If cosigners that really signed satisfy the policy, the certificate is accepted, whatever other cosignatures are in it. |
| Verification.ClaimedIsLogged | draft-ietf-plants-merkle-tree-certs.md:1792 | If the hash a certificate evaluates to is that of a subtree of a log, the bytes fed are those of the logged entry, or there is an explicit collision. |
| EntryBinding.ElementCancel | draft-ietf-plants-merkle-tree-certs.md:1882-1884 | Elements delimit themselves: equal concatenations have equal first elements and equal rests. |
| EntryBinding.PartsOf | demo/verify_proof.go:190-217 | The pieces of any TBSCertificate that passes the one-pass hash, what is fed of them, and that the serial has no other encoding. |
| EntryBinding.PiecesAreOfEntry | draft-ietf-plants-merkle-tree-certs.md:1884 | If the bytes fed are those of a log entry, every piece is the entry's, and the key has the entry's key hash. |
| EntryBinding.NotTheNullEntry | demo/encode.go:334-345 | No certificate stands for the null entry. |
| EntryBinding.TbsIsOfEntry | draft-ietf-plants-merkle-tree-certs.md:1882-1890 | A TBSCertificate whose feed is a log entry is byte for byte the one the CA builds for that entry and serial, unless its key only shares the hash. |
| EntryBinding.CheckedIsCertificate | demo/verify_proof.go:166-235 | What passes the checks is byte for byte the certificate around its TBSCertificate and an encoded MTCProof, with the version's algorithm, no unused bits, cosigners in the draft's order, a known CA, a log number other than zero and a serial that is not revoked. |
| EntryBinding.CertificateIsOfLoggedEntry | draft-ietf-plants-merkle-tree-certs.md:1878-1890 | Non-malleability and authenticity: a certificate that evaluates to the hash of a log's subtree has the TBSCertificate the CA builds for the entry at its index and names that CA's log, or an explicit collision of tree, entry or key is at hand. |

## Left out

- Draft versions before plants-04 (null first entry, 64-bit coordinates, no extensions): the verifier command refuses them, and plants-04 as well; plants-04 is kept because its formats cost nothing.
- Real cryptography: SHA-256, ECDSA, Ed25519 and ML-DSA. Signing is a function of the message that may fail, so the randomness of a signature is not modelled.
- Policies.Policy.AddCA: takes the ID, the key or its absence, and the serial range; parsing the key and the MTC CA extension out of the CA certificate is not modelled, and a CA in the policy always has its certificate.
- Go's X.509 parser beyond the DER structure the verifier relies on; object identifiers are compared by their contents octets. Issuer and subject unique IDs, as everything after the key, are part of the opaque rest.
- Validity, subject and X.509 extensions (key usage, names, basic constraints, time encoding) are opaque DER.
- The certificate knobs BitFlipProof, UnusedBit with its retries, DontSortCosigners and the Override fields.
- A CA entry is a value in the policy's map, so sharing an entry by reference is not modelled.
- Verification.IssuedIsAcceptedIff: is about certificates shorter than 2^32 bytes and subtrees that end below 2^48, because beyond those sizes the written bytes do not read back (`ReadElementWritten`, `ProofRoundTrip`).
- Issuance.CreatedIf: asks for DER parts below 2^28 bytes, because the exact limit is that of the writer on the whole certificate, 0xfffffffe bytes of contents.
- MtcProofs.SortCosignatures: insertion stands for the library sort; on distinct IDs the result is the same (`CanonicalIsUnique`), on equal IDs the certificate is rejected whatever the order.
- Verification.VerifyMTCProof: the list of individual verification errors and all error texts are collapsed into the absence of a result; the evaluation of groups is used but not returned.
- Verification.HashEntry: the hash object is the list of bytes written to it so far.
- Scheduling.BuildSchedule: the cosigners found for a certificate are not stored in its record, a marshalled entry is given with its configuration, and a log too long for a Go slice is an error.
- SignCheckpoint, checkpoint and tile files, key IDs and path names, property lists, PEM output, JSON configuration, policy files and flags: input and output only.
- The printing commands and the tile size estimate.
- Other implementations of the MerkleTree interface: only the static table is modelled.
