/** CreateCertificate: cosign the subtree, sort the cosignatures, and serialise. */
module Issuance {
  import opened Bits
  import opened Hashing
  import opened Subtrees
  import opened MerkleSpec
  import opened MerkleTree
  import opened SubtreeProofs
  import opened InclusionProofs
  import opened TrustAnchorText
  import opened TrustAnchors
  import opened Wire
  import opened MtcProofs
  import opened Cosigning
  import opened Certificates

  datatype CAConfig = CAConfig(version: DraftVersion, id: Bytes, logNumber: uint16)

  /** A cosigner's private side; sign is abstract and may fail. */
  datatype Cosigner = Cosigner(id: Bytes, sign: Bytes -> Option<Bytes>)

  function Sign(c: Cosigner, logId: Bytes, start: uint64, end: uint64, hash: HashValue): Option<Bytes> {
    match CosignedMessage(c.id, logId, 0, start, end, hash)
    case None => None
    case Some(m) => c.sign(m)
  }

  function Signed(cosigners: seq<Cosigner>, logId: Bytes, start: uint64, end: uint64, hash: HashValue): Option<seq<Cosignature>> {
    if |cosigners| == 0 then Some([])
    else
      var c := cosigners[|cosigners| - 1];
      match Signed(cosigners[..|cosigners| - 1], logId, start, end, hash)
      case None => None
      case Some(sigs) =>
        match Sign(c, logId, start, end, hash)
        case None => None
        case Some(sig) => Some(sigs + [Cosignature(c.id, sig)])
  }

  /** Cosigner c signs the draft's message for this subtree with s. */
  ghost predicate Signs(c: Cosigner, logId: Bytes, start: nat, end: nat, hash: HashValue, s: Bytes) {
    exists m :: IsSubtreeMessage(m, c.id, logId, start, end, hash) && c.sign(m) == Some(s)
  }

  ghost predicate CannotSign(c: Cosigner, logId: Bytes, start: nat, end: nat, hash: HashValue) {
    forall s :: !Signs(c, logId, start, end, hash, s)
  }

  lemma {:induction false} SignIs(c: Cosigner, logId: Bytes, start: uint64, end: uint64, hash: HashValue, s: Bytes)
    ensures Sign(c, logId, start, end, hash) == Some(s) <==> Signs(c, logId, start, end, hash, s)
  {
    hide CosignedMessage, IsSubtreeMessage;
    var m := CosignedMessage(c.id, logId, 0, start, end, hash);
    if m.Some? { MessageIsDrafts(c.id, logId, start, end, hash, m.value); }
    if n :| IsSubtreeMessage(n, c.id, logId, start, end, hash) && c.sign(n) == Some(s) {
      MessageIsDrafts(c.id, logId, start, end, hash, n);
    }
  }

  lemma {:induction false} SignFails(c: Cosigner, logId: Bytes, start: uint64, end: uint64, hash: HashValue)
    ensures Sign(c, logId, start, end, hash).None? <==> CannotSign(c, logId, start, end, hash)
  {
    hide Sign, Signs;
    forall s ensures Sign(c, logId, start, end, hash) == Some(s) <==> Signs(c, logId, start, end, hash, s) {
      SignIs(c, logId, start, end, hash, s);
    }
  }

  /** One cosignature for each cosigner, in order, bearing its ID and its signature. */
  ghost predicate AreCosignatures(cosigners: seq<Cosigner>, logId: Bytes, start: nat, end: nat, hash: HashValue, sigs: seq<Cosignature>) {
    && |sigs| == |cosigners|
    && forall j :: 0 <= j < |cosigners| ==>
         sigs[j].id == cosigners[j].id && Signs(cosigners[j], logId, start, end, hash, sigs[j].signature)
  }

  /** Cosigning fails exactly when some cosigner cannot sign. */
  lemma {:induction false} SignedIs(cosigners: seq<Cosigner>, logId: Bytes, start: uint64, end: uint64, hash: HashValue)
    ensures Signed(cosigners, logId, start, end, hash).Some? ==>
      AreCosignatures(cosigners, logId, start, end, hash, Signed(cosigners, logId, start, end, hash).value)
    ensures Signed(cosigners, logId, start, end, hash).None? <==>
      exists j :: 0 <= j < |cosigners| && CannotSign(cosigners[j], logId, start, end, hash)
  {
    hide Sign, Signs, CannotSign;
    if |cosigners| != 0 {
      var n := |cosigners| - 1;
      SignedIs(cosigners[..n], logId, start, end, hash);
      var last := Sign(cosigners[n], logId, start, end, hash);
      SignFails(cosigners[n], logId, start, end, hash);
      if last.Some? { SignIs(cosigners[n], logId, start, end, hash, last.value); }
      if Signed(cosigners[..n], logId, start, end, hash).None? {
        var j :| 0 <= j < n && CannotSign(cosigners[..n][j], logId, start, end, hash);
        assert cosigners[j] == cosigners[..n][j];
      }
      if j :| 0 <= j < n && CannotSign(cosigners[j], logId, start, end, hash) {
        assert cosigners[..n][j] == cosigners[j];
      }
    }
  }

  /** index | logNumber << 48 */
  function Serial(index: uint64, logNumber: uint16): nat { Or(index, Shl64(logNumber, 48)) }

  /** The serial splits back into index and log number. */
  lemma {:induction false} SerialParts(index: uint64, logNumber: uint16)
    requires index < 0x1_0000_0000_0000
    ensures Serial(index, logNumber) == index + logNumber * 0x1_0000_0000_0000 < 0x1_0000_0000_0000_0000
    ensures And(Serial(index, logNumber), 0xFFFF_FFFF_FFFF) == index
    ensures Shr(Serial(index, logNumber), 48) == logNumber
  {
    hide And, Or, Shr, Shl, Shl64, Low, Pow2;
    Pow2Is64();
    ShlIsMul(logNumber, 48);
    Shl64Exact(logNumber, 48);
    OrDisjoint(index, logNumber, 48);
    var serial := index + logNumber * 0x1_0000_0000_0000;
    ShrLowUnique(serial, 48, logNumber, index);
    AndMask(serial, 48, 0xFFFF_FFFF_FFFF);
  }

  /** The certificate for entry `index` of the log D in the subtree [start, end), or
      None when the demo reports an error. */
  function Created(sha256: Bytes -> HashValue, cfg: CAConfig, D: seq<Bytes>, cosigners: seq<Cosigner>, entry: EntryConfig,
      extra: seq<Cosignature>, index: uint64, start: uint64, end: uint64): Option<Bytes>
  {
    if entry.isNull || !IsSubtree(start, end) || end > |D| then None
    else
      var h := Sha256Hasher(sha256);
      match Signed(cosigners, LogIdOf(cfg.id, cfg.logNumber), start, end, Mth(h, D, start, end))
      case None => None
      case Some(sigs) =>
        if index > 0xFFFF_FFFF_FFFF || index < start || end <= index then None
        else
          CertificateOf(cfg.version,
            TbsCertificate(cfg.version, cfg.id, Serial(index, cfg.logNumber), entry),
            EncodeProof(cfg.version, entry.mtcExtensions, start, end, Flatten(Path(h, D, index, start, end)),
              SortCosignatures(extra + sigs)))
  }

  method CreateCertificate(sha256: Bytes -> HashValue, cfg: CAConfig, issuanceLog: StaticMerkleTree, cosigners: seq<Cosigner>,
      entry: EntryConfig, extra: seq<Cosignature>, index: uint64, start: uint64, end: uint64) returns (r: Option<Bytes>)
    requires issuanceLog.Valid() && issuanceLog.hasher == Sha256Hasher(sha256)
    ensures r == Created(sha256, cfg, issuanceLog.entries, cosigners, entry, extra, index, start, end)
  {
    hide Mth, Path, Flatten, IsSubtree, CertificateOf, TbsCertificate, EncodeProof, SortCosignatures, Sha256Hasher, LogIdOf, Serial, Signed;
    if entry.isNull { return None; }
    var logId := LogID(cfg.id, cfg.logNumber);
    var subtree := SubtreeHash(issuanceLog, start, end);
    if subtree.Err? { return None; }
    var sigs := Cosign(cosigners, logId, start, end, subtree.value);
    if sigs.None? { return None; }
    var cosigs := SortCosignatures(extra + sigs.value);
    if index > 0xFFFF_FFFF_FFFF { return None; }
    var serial := Serial(index, cfg.logNumber);
    var proof := SubtreeInclusionProof(issuanceLog, index, start, end);
    if proof.Err? { return None; }
    return CertificateOf(cfg.version,
      TbsCertificate(cfg.version, cfg.id, serial, entry),
      EncodeProof(cfg.version, entry.mtcExtensions, start, end, proof.value, cosigs));
  }

  method Cosign(cosigners: seq<Cosigner>, logId: Bytes, start: uint64, end: uint64, hash: HashValue)
    returns (r: Option<seq<Cosignature>>)
    ensures r == Signed(cosigners, logId, start, end, hash)
    ensures r.Some? ==> |r.value| == |cosigners|
    ensures r.Some? ==> forall j :: 0 <= j < |cosigners| ==>
      r.value[j].id == cosigners[j].id && Signs(cosigners[j], logId, start, end, hash, r.value[j].signature)
    ensures r.None? <==> exists j :: 0 <= j < |cosigners| && CannotSign(cosigners[j], logId, start, end, hash)
  {
    hide Sign, Signs, CannotSign;
    SignedIs(cosigners, logId, start, end, hash);
    var cosigs: seq<Cosignature> := [];
    for i := 0 to |cosigners|
      invariant Signed(cosigners[..i], logId, start, end, hash) == Some(cosigs)
    {
      assert cosigners[..i + 1][..i] == cosigners[..i];
      var sig := Sign(cosigners[i], logId, start, end, hash);
      if sig.None? {
        SignedStops(cosigners, i + 1, logId, start, end, hash);
        return None;
      }
      cosigs := cosigs + [Cosignature(cosigners[i].id, sig.value)];
    }
    assert cosigners[..|cosigners|] == cosigners;
    return Some(cosigs);
  }

  lemma {:induction false} SignedStops(cosigners: seq<Cosigner>, i: nat, logId: Bytes, start: uint64, end: uint64, hash: HashValue)
    requires i <= |cosigners| && Signed(cosigners[..i], logId, start, end, hash).None?
    ensures Signed(cosigners, logId, start, end, hash).None?
    decreases |cosigners|
  {
    hide Sign;
    if i == |cosigners| {
      assert cosigners[..i] == cosigners;
    } else {
      assert cosigners[..|cosigners| - 1][..i] == cosigners[..i];
      SignedStops(cosigners[..|cosigners| - 1], i, logId, start, end, hash);
    }
  }

  /** Every cosigner's signature is among the cosignatures. */
  lemma {:induction false} SignedHas(cosigners: seq<Cosigner>, j: nat, logId: Bytes, start: uint64, end: uint64, hash: HashValue)
    requires j < |cosigners| && Signed(cosigners, logId, start, end, hash).Some?
    ensures Sign(cosigners[j], logId, start, end, hash).Some?
    ensures Cosignature(cosigners[j].id, Sign(cosigners[j], logId, start, end, hash).value)
      in Signed(cosigners, logId, start, end, hash).value
  {
    hide Sign;
    if j < |cosigners| - 1 { SignedHas(cosigners[..|cosigners| - 1], j, logId, start, end, hash); }
  }

  // ----- When a certificate can be created, and what is in it -----

  /** The IDs that a certificate will list, from the inputs alone. */
  function GivenIds(extra: seq<Cosignature>, cosigners: seq<Cosigner>): seq<Bytes> {
    IdsOf(extra) + seq(|cosigners|, j requires 0 <= j < |cosigners| => cosigners[j].id)
  }

  lemma {:induction false} SignedIds(extra: seq<Cosignature>, cosigners: seq<Cosigner>, logId: Bytes, start: uint64, end: uint64, hash: HashValue)
    requires Signed(cosigners, logId, start, end, hash).Some?
    ensures IdsOf(extra + Signed(cosigners, logId, start, end, hash).value) == GivenIds(extra, cosigners)
  {
    hide Signed, Signs;
    SignedIs(cosigners, logId, start, end, hash);
  }

  /** A list of the right cosignatures is the one that Signed gives. */
  lemma {:induction false} CosignaturesAreSigned(cosigners: seq<Cosigner>, logId: Bytes, start: uint64, end: uint64, hash: HashValue, sigs: seq<Cosignature>)
    ensures AreCosignatures(cosigners, logId, start, end, hash, sigs) <==> Signed(cosigners, logId, start, end, hash) == Some(sigs)
  {
    hide Signed, Signs, Sign, CannotSign;
    SignedIs(cosigners, logId, start, end, hash);
    if AreCosignatures(cosigners, logId, start, end, hash, sigs) {
      forall j | 0 <= j < |cosigners| ensures Sign(cosigners[j], logId, start, end, hash) == Some(sigs[j].signature) {
        SignIs(cosigners[j], logId, start, end, hash, sigs[j].signature);
      }
      if Signed(cosigners, logId, start, end, hash).None? {
        var j :| 0 <= j < |cosigners| && CannotSign(cosigners[j], logId, start, end, hash);
        SignFails(cosigners[j], logId, start, end, hash);
      }
      var all := Signed(cosigners, logId, start, end, hash).value;
      forall j | 0 <= j < |cosigners| ensures all[j] == sigs[j] {
        SignIs(cosigners[j], logId, start, end, hash, all[j].signature);
      }
      assert all == sigs;
    }
  }

  /** A certificate that was created is for an entry inside its subtree of the log, below
      index 2^48, and every cosigner has signed. */
  lemma {:induction false} CreatedOnlyIf(sha256: Bytes -> HashValue, cfg: CAConfig, D: seq<Bytes>, cosigners: seq<Cosigner>, entry: EntryConfig,
      extra: seq<Cosignature>, index: uint64, start: uint64, end: uint64) returns (sigs: seq<Cosignature>)
    requires Created(sha256, cfg, D, cosigners, entry, extra, index, start, end).Some?
    ensures !entry.isNull && IsSubtree(start, end) && start <= index < end <= |D| && index < 0x1_0000_0000_0000
    ensures AreCosignatures(cosigners, LogIdOf(cfg.id, cfg.logNumber), start, end, Mth(Sha256Hasher(sha256), D, start, end), sigs)
    ensures |entry.mtcExtensions| < 0x1_0000 && EachFits(extra + sigs)
    ensures ListSize(extra + sigs) < (if cfg.version == Plants04 || cfg.version == Plants05 then 0x1_0000 else 0x100_0000)
    ensures CertificateOf(cfg.version, TbsCertificate(cfg.version, cfg.id, index + cfg.logNumber * 0x1_0000_0000_0000, entry),
      EncodeProof(cfg.version, entry.mtcExtensions, start, end, Flatten(Path(Sha256Hasher(sha256), D, index, start, end)),
        SortCosignatures(extra + sigs))) == Created(sha256, cfg, D, cosigners, entry, extra, index, start, end)
  {
    hide Mth, Path, Flatten, IsSubtree, TbsCertificate, EncodeProof, SortCosignatures, Sha256Hasher, LogIdOf, Serial, Signed,
      AreCosignatures, EachFits, ListSize, Element, SigAlg;
    var h := Sha256Hasher(sha256);
    sigs := Signed(cosigners, LogIdOf(cfg.id, cfg.logNumber), start, end, Mth(h, D, start, end)).value;
    CosignaturesAreSigned(cosigners, LogIdOf(cfg.id, cfg.logNumber), start, end, Mth(h, D, start, end), sigs);
    SerialParts(index, cfg.logNumber);
    ProofFits(cfg.version, entry.mtcExtensions, start, end, Flatten(Path(h, D, index, start, end)), SortCosignatures(extra + sigs));
    SortKeepsSize(extra + sigs);
  }

  /** And under these conditions one is created, if its parts are not huge. */
  lemma {:induction false} CreatedIf(sha256: Bytes -> HashValue, cfg: CAConfig, D: seq<Bytes>, cosigners: seq<Cosigner>, entry: EntryConfig,
      extra: seq<Cosignature>, index: uint64, start: uint64, end: uint64, sigs: seq<Cosignature>)
    requires !entry.isNull && IsSubtree(start, end) && start <= index < end <= |D| && index < 0x1_0000_0000_0000
    requires AreCosignatures(cosigners, LogIdOf(cfg.id, cfg.logNumber), start, end, Mth(Sha256Hasher(sha256), D, start, end), sigs)
    requires |entry.mtcExtensions| < 0x1_0000 && EachFits(extra + sigs)
    requires ListSize(extra + sigs) < (if cfg.version == Plants04 || cfg.version == Plants05 then 0x1_0000 else 0x100_0000)
    requires |cfg.id| + |IdText(cfg.id)| < 0x1000_0000
    requires |entry.validity| + |entry.subject| + |entry.publicKey| + |entry.extensions| < 0x1000_0000
    ensures Created(sha256, cfg, D, cosigners, entry, extra, index, start, end).Some?
  {
    hide Mth, Path, Flatten, IsSubtree, TbsCertificate, EncodeProof, SortCosignatures, Sha256Hasher, LogIdOf, Serial, Signed,
      AreCosignatures, EachFits, ListSize, CertificateOf, IdText;
    var h := Sha256Hasher(sha256);
    CosignaturesAreSigned(cosigners, LogIdOf(cfg.id, cfg.logNumber), start, end, Mth(h, D, start, end), sigs);
    SerialParts(index, cfg.logNumber);
    ProofIsShort(h, D, index, start, end);
    var inclusion := Flatten(Path(h, D, index, start, end));
    SortKeepsSize(extra + sigs);
    ProofFits(cfg.version, entry.mtcExtensions, start, end, inclusion, SortCosignatures(extra + sigs));
    ProofLengthIs(cfg.version, entry.mtcExtensions, start, end, inclusion, SortCosignatures(extra + sigs));
    TbsFits(cfg.version, cfg.id, Serial(index, cfg.logNumber), entry);
    CertificateFits(cfg.version, TbsCertificate(cfg.version, cfg.id, Serial(index, cfg.logNumber), entry).value,
      EncodeProof(cfg.version, entry.mtcExtensions, start, end, inclusion, SortCosignatures(extra + sigs)).value);
  }

  lemma {:induction false} ProofIsShort(h: Hasher, D: seq<Bytes>, index: nat, start: nat, end: uint64)
    requires IsSubtree(start, end) && start <= index < end <= |D|
    ensures |Flatten(Path(h, D, index, start, end))| <= 2048
  {
    hide Path, IsSubtree;
    InclusionRoundTrip(h, D, index, start, end);
    LenBound(end - start - 1, 64);
  }
}
