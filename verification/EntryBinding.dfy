/** What a checked certificate says about the log: short of a collision, its
    TBSCertificate is, byte for byte, the one the CA builds for the logged entry.
 */
module EntryBinding {
  import opened Bits
  import opened Hashing
  import opened Subtrees
  import opened MerkleSpec
  import opened InclusionProofs
  import opened TrustAnchorText
  import opened Wire
  import opened MtcProofs
  import opened Cosigning
  import opened Certificates
  import opened Policies
  import opened Verification

  // ----- Equal feeds have equal pieces -----

  /** Elements delimit themselves. */
  lemma {:induction false} ElementCancel(e1: Bytes, rest1: Bytes, e2: Bytes, rest2: Bytes, tag: byte)
    requires IsElement(e1, tag) && IsElement(e2, tag)
    requires e1 + rest1 == e2 + rest2
    ensures e1 == e2 && rest1 == rest2
  {
    hide IsElement, ReadAsn1Element;
    FeedWhole([], e1, tag, rest1);
    FeedWhole([], e2, tag, rest2);
  }

  lemma {:induction false} TagFirst(e: Bytes, rest: Bytes, tag: byte)
    requires IsElement(e, tag)
    ensures |e| != 0 && (e + rest)[0] == tag
  {
    hide ReadLength;
  }

  /** The version is there in both or neither: an element of the other tag follows. */
  lemma {:induction false} VersionCancel(ver: Bytes, name1: Bytes, rest1: Bytes, name2: Bytes, rest2: Bytes)
    requires ver == [] || IsElement(ver, VERSION_TAG)
    requires IsElement(name1, SEQUENCE)
    requires ver + (name1 + rest1) == V3 + (name2 + rest2)
    ensures ver == V3 && name1 + rest1 == name2 + rest2
  {
    hide IsElement;
    V3IsElement();
    TagFirst(V3, name2 + rest2, VERSION_TAG);
    TagFirst(name1, rest1, SEQUENCE);
    if ver != [] { ElementCancel(ver, name1 + rest1, V3, name2 + rest2, VERSION_TAG); }
  }

  lemma {:induction false} StartCancel(exts1: Bytes, rest1: Bytes, exts2: Bytes, rest2: Bytes)
    requires |exts1| < 0x1_0000 && |exts2| < 0x1_0000
    requires FeedStart(exts1) + rest1 == FeedStart(exts2) + rest2
    ensures exts1 == exts2 && rest1 == rest2
  {
    hide BigEndian, FeedStart;
    Widths();
    StartPieces(exts1, rest1);
    StartPieces(exts2, rest2);
    var a1, a2 := BigEndian(|exts1|, 2) + exts1, BigEndian(|exts2|, 2) + exts2;
    var b1, b2 := BigEndian(1, 2) + rest1, BigEndian(1, 2) + rest2;
    DropFirst([0x00], a1 + b1, a2 + b2);
    PrefixedInjective(2, exts1, exts2, b1, b2);
    DropFirst(BigEndian(1, 2), rest1, rest2);
  }

  lemma {:induction false} DropFirst(first: Bytes, a: Bytes, b: Bytes)
    requires first + a == first + b
    ensures a == b
  {
    assert (first + a)[|first|..] == a && (first + b)[|first|..] == b;
  }

  lemma {:induction false} DigestCancel(mark: Bytes, digest1: HashValue, rest1: Bytes, digest2: HashValue, rest2: Bytes)
    requires mark + digest1 + rest1 == mark + digest2 + rest2
    ensures digest1 == digest2 && rest1 == rest2
  {
    AppendAssoc(mark, digest1, rest1);
    AppendAssoc(mark, digest2, rest2);
    DropFirst(mark, digest1 + rest1, digest2 + rest2);
    assert (digest1 + rest1)[..32] == digest1 && (digest2 + rest2)[..32] == digest2;
    DropFirst(digest1, rest1, rest2);
  }

  // ----- The pieces of what was fed -----

  /** The elements the verifier meets in a TBSCertificate; the key's algorithm is the
      first element inside the key. */
  datatype Parts = Parts(version: Bytes, number: Bytes, alg: Bytes, name: Bytes, validity: Bytes, subject: Bytes,
    key: Bytes, keyAlg: Bytes, tail: Bytes)

  predicate AreElements(q: Parts) {
    && (q.version == [] || IsElement(q.version, VERSION_TAG))
    && IsElement(q.number, INTEGER) && IsElement(q.alg, SEQUENCE)
    && IsElement(q.name, SEQUENCE) && IsElement(q.validity, SEQUENCE) && IsElement(q.subject, SEQUENCE)
    && IsElement(q.key, SEQUENCE) && IsElement(q.keyAlg, SEQUENCE)
  }

  function FromName(q: Parts): Bytes { q.name + (q.validity + (q.subject + (q.key + q.tail))) }

  function FedFromName(q: Parts, digest: HashValue): Bytes {
    q.name + (q.validity + (q.subject + (q.keyAlg + ([0x04, 0x20] + digest + q.tail))))
  }

  lemma {:induction false} ReadPiece(s: Bytes, tag: byte) returns (e: Bytes, rest: Bytes)
    requires ReadAsn1Element(s, tag).Some?
    ensures ReadAsn1Element(s, tag) == Some(Read(e, rest))
    ensures IsElement(e, tag) && s == e + rest
    ensures ReadAsn1(s, tag).Some? && ReadAsn1(s, tag).value.rest == rest
    ensures IsElementOf(e, tag, ReadAsn1(s, tag).value.v)
  {
    hide ReadTlv;
    ReadIsElement(s, tag);
    e, rest := ReadAsn1Element(s, tag).value.v, ReadAsn1Element(s, tag).value.rest;
  }

  lemma {:induction false} ReadContents(s: Bytes, tag: byte)
    ensures ReadAsn1(s, tag).Some? <==> ReadAsn1Element(s, tag).Some?
  {
    hide ReadTlv;
  }

  lemma {:induction false} PartsFromName(sha256: Bytes -> HashValue, fed: Bytes, s: Bytes, rawKey: Bytes, serial: nat) returns (q: Parts)
    requires FeedNames(sha256, fed, s, rawKey, serial).Some?
    ensures IsElement(q.name, SEQUENCE) && IsElement(q.validity, SEQUENCE) && IsElement(q.subject, SEQUENCE)
    ensures IsElement(q.key, SEQUENCE) && IsElement(q.keyAlg, SEQUENCE)
    ensures s == FromName(q)
    ensures FeedNames(sha256, fed, s, rawKey, serial) == Some(Fed(fed + FedFromName(q, sha256(rawKey)), serial))
  {
    hide IsElement, IsElementOf, ReadAsn1Element, ReadAsn1;
    var name, s1 := ReadPiece(s, SEQUENCE);
    var validity, s2 := ReadPiece(s1, SEQUENCE);
    var subject, s3 := ReadPiece(s2, SEQUENCE);
    ReadContents(s3, SEQUENCE);
    var key, tail := ReadPiece(s3, SEQUENCE);
    var keyAlg, bits := ReadPiece(ReadAsn1(s3, SEQUENCE).value.v, SEQUENCE);
    q := Parts([], [], [], name, validity, subject, key, keyAlg, tail);
    PiecesJoin(fed, q, sha256(rawKey));
  }

  lemma {:induction false} PiecesJoin(fed: Bytes, q: Parts, digest: HashValue)
    ensures fed + q.name + q.validity + q.subject + q.keyAlg + [0x04, 0x20] + digest + q.tail == fed + FedFromName(q, digest)
  {
    var t3 := [0x04, 0x20] + digest + q.tail;
    var t2 := q.keyAlg + t3;
    var t1 := q.subject + t2;
    var t0 := q.validity + t1;
    var whole := fed + (q.name + t0);
    FeedPiece(fed, q.name, t0, whole);
    FeedPiece(fed + q.name, q.validity, t1, whole);
    FeedPiece(fed + q.name + q.validity, q.subject, t2, whole);
    FeedPiece(fed + q.name + q.validity + q.subject, q.keyAlg, t3, whole);
    LastPieces(fed + q.name + q.validity + q.subject + q.keyAlg, [0x04, 0x20], digest, q.tail);
  }

  lemma {:induction false} PartsOf(sha256: Bytes -> HashValue, version: DraftVersion, fed: Bytes, content: Bytes, rawKey: Bytes) returns (q: Parts)
    requires FeedContent(sha256, version, fed, content, rawKey).Some?
    ensures AreElements(q) && Some(q.alg) == SigAlg(version)
    ensures content == q.version + (q.number + (q.alg + FromName(q)))
    ensures var r := FeedContent(sha256, version, fed, content, rawKey).value;
      r.bytes == fed + q.version + FedFromName(q, sha256(rawKey))
      && r.serial < 0x1_0000_0000_0000_0000 && IsElementOf(q.number, INTEGER, IntegerContent(r.serial))
  {
    hide IsElement, IsElementOf, ReadAsn1Element, ReadAsn1, FeedNames, SigAlg, IntegerValue, IntegerContent, FromName, FedFromName;
    var ver, s1 := ReadVersion(fed, content);
    ReadContents(s1, INTEGER);
    var number, s2 := ReadPiece(s1, INTEGER);
    var c := ReadAsn1(s1, INTEGER).value.v;
    IntegerIsCanonical(c);
    IntegerFits(c);
    var alg, s3 := ReadPiece(s2, SEQUENCE);
    var n := PartsFromName(sha256, fed + ver, s3, rawKey, IntegerValue(c).value);
    q := n.(version := ver, number := number, alg := alg);
    SameFromName(n, q, sha256(rawKey));
  }

  lemma {:induction false} SameFromName(n: Parts, q: Parts, digest: HashValue)
    requires q == n.(version := q.version, number := q.number, alg := q.alg)
    ensures FromName(n) == FromName(q) && FedFromName(n, digest) == FedFromName(q, digest)
  {
  }

  /** The version element, or nothing. */
  lemma {:induction false} ReadVersion(fed: Bytes, content: Bytes) returns (ver: Bytes, rest: Bytes)
    requires var r := if |content| != 0 && content[0] == VERSION_TAG then FeedElement(Run(fed, content), VERSION_TAG) else Some(Run(fed, content));
      r.Some?
    ensures content == ver + rest && (ver == [] || IsElement(ver, VERSION_TAG))
    ensures var r := if |content| != 0 && content[0] == VERSION_TAG then FeedElement(Run(fed, content), VERSION_TAG) else Some(Run(fed, content));
      r == Some(Run(fed + ver, rest))
  {
    hide IsElement, ReadAsn1Element, ReadAsn1;
    if |content| != 0 && content[0] == VERSION_TAG {
      ver, rest := ReadPiece(content, VERSION_TAG);
    } else {
      ver, rest := [], content;
      assert fed + ver == fed && ver + rest == content;
    }
  }

  // ----- The certificate is the one of the entry -----

  /** The log entry that was fed determines every piece but the number; the key as far
      as its hash does. */
  lemma {:induction false} PiecesAreOfEntry(sha256: Bytes -> HashValue, version: DraftVersion, issuer: Bytes, entry: EntryConfig,
      extsRaw: Bytes, q: Parts, digest: HashValue)
    requires !entry.isNull && LogEntry(sha256, version, issuer, entry).Some? && IsDerEntry(entry)
    requires X509Name(version, issuer).Some? && |X509Name(version, issuer).value| < 0x1_0000_0000
    requires |extsRaw| < 0x1_0000 && |entry.mtcExtensions| < 0x1_0000 && AreElements(q)
    requires FeedStart(extsRaw) + q.version + FedFromName(q, digest) == [0x00] + LogEntry(sha256, version, issuer, entry).value
    ensures extsRaw == entry.mtcExtensions && q.version == V3 && Some(q.name) == X509Name(version, issuer)
    ensures q.validity == entry.validity && q.subject == entry.subject && q.tail == entry.extensions
    ensures Some(q.keyAlg) == KeyAlgorithm(entry.publicKey) && digest == sha256(entry.publicKey)
  {
    hide IsElement, IsElementOf, X509Name, LogEntry, KeyAlgorithm, FeedStart, CaIdFromName, ReadAsn1Element;
    var name := X509Name(version, issuer).value;
    NameRoundTrip(version, issuer);
    KeyAlgorithmReads(sha256, version, issuer, entry);
    var content, alg, bits := KeyParts(entry.publicKey);
    KeyAlgIsElement(content);
    EntryPieces(sha256, version, issuer, entry, alg, name);
    var mark: Bytes := [0x04, 0x20];
    var l3, e3 := mark + digest + q.tail, mark + sha256(entry.publicKey) + entry.extensions;
    var l2, e2 := q.keyAlg + l3, alg + e3;
    var l1, e1 := q.subject + l2, entry.subject + e2;
    var l0, e0 := q.validity + l1, entry.validity + e1;
    AppendAssoc(FeedStart(extsRaw), q.version, q.name + l0);
    StartCancel(extsRaw, q.version + (q.name + l0), entry.mtcExtensions, V3 + (name + e0));
    VersionCancel(q.version, q.name, l0, name, e0);
    ElementCancel(q.name, l0, name, e0, SEQUENCE);
    ElementCancel(q.validity, l1, entry.validity, e1, SEQUENCE);
    ElementCancel(q.subject, l2, entry.subject, e2, SEQUENCE);
    ElementCancel(q.keyAlg, l3, alg, e3, SEQUENCE);
    DigestCancel(mark, digest, q.tail, sha256(entry.publicKey), entry.extensions);
  }

  lemma {:induction false} KeyAlgIsElement(content: Bytes)
    requires ReadAsn1Element(content, SEQUENCE).Some?
    ensures IsElement(ReadAsn1Element(content, SEQUENCE).value.v, SEQUENCE)
  {
    hide ReadTlv, ReadAsn1Element, IsElement;
    var e, rest := ReadPiece(content, SEQUENCE);
  }

  /** A certificate's entry is never the null entry. */
  lemma {:induction false} NotTheNullEntry(sha256: Bytes -> HashValue, version: DraftVersion, issuer: Bytes, entry: EntryConfig,
      extsRaw: Bytes, rest: Bytes)
    requires |extsRaw| < 0x1_0000
    requires LogEntry(sha256, version, issuer, entry).Some?
    requires FeedStart(extsRaw) + rest == [0x00] + LogEntry(sha256, version, issuer, entry).value
    ensures !entry.isNull
  {
    hide FeedStart, X509Name, EntryTail;
    if entry.isNull {
      hide BigEndian;
      Widths();
      StartPieces(extsRaw, rest);
      DropFirst([0x00], (BigEndian(|extsRaw|, 2) + extsRaw) + (BigEndian(1, 2) + rest), LogEntry(sha256, version, issuer, entry).value);
      PrefixedInjective(2, extsRaw, [], BigEndian(1, 2) + rest, BigEndian(0, 2));
      TypesDiffer(rest);
    }
  }

  lemma {:induction false} TypesDiffer(rest: Bytes)
    ensures BigEndian(1, 2) + rest != BigEndian(0, 2)
  {
    Widths();
    ValueOfBigEndian(0, 2);
    ValueOfBigEndian(1, 2);
    assert rest == [] ==> BigEndian(1, 2) + rest == BigEndian(1, 2);
  }

  lemma {:induction false} ElementIs(e: Bytes, tag: byte, content: Bytes)
    requires IsElementOf(e, tag, content)
    ensures Element(tag, content) == Some(e)
  {
    hide Element;
    ElementIsWritten(e);
    assert Element(tag, content).value + [] == Element(tag, content).value;
  }

  lemma {:induction false} ContentFromPieces(version: DraftVersion, issuer: Bytes, serial: nat, entry: EntryConfig,
      number: Bytes, alg: Bytes, name: Bytes, key: Bytes)
    requires Element(INTEGER, IntegerContent(serial)) == Some(number)
    requires Some(alg) == SigAlg(version) && Some(name) == X509Name(version, issuer) && key == entry.publicKey
    ensures TbsContent(version, issuer, serial, entry) ==
      Some(V3 + (number + (alg + (name + (entry.validity + (entry.subject + (key + entry.extensions)))))))
  {
    hide Element, SigAlg, X509Name, IntegerContent;
  }

  lemma {:induction false} EntryLimits(sha256: Bytes -> HashValue, version: DraftVersion, issuer: Bytes, entry: EntryConfig)
    requires !entry.isNull && LogEntry(sha256, version, issuer, entry).Some?
    ensures X509Name(version, issuer).Some? && |entry.mtcExtensions| < 0x1_0000
    ensures |X509Name(version, issuer).value| <= |LogEntry(sha256, version, issuer, entry).value|
  {
    hide X509Name, EntryTail, BigEndian;
    Widths();
  }

  /** A TBSCertificate whose feed is a log entry is the one that the CA builds for that
      entry and serial, or its key collides with the entry's. */
  lemma {:induction false} TbsIsOfEntry(sha256: Bytes -> HashValue, version: DraftVersion, extsRaw: Bytes, rawTbs: Bytes, fields: TbsFields,
      issuer: Bytes, entry: EntryConfig)
    requires EntryFeed(sha256, version, extsRaw, rawTbs, fields.key).Some? && |extsRaw| < 0x1_0000
    requires ParseTbsFields(ReadAsn1(rawTbs, SEQUENCE).value.v) == Some(fields)
    requires LogEntry(sha256, version, issuer, entry).Some? && (entry.isNull || IsDerEntry(entry))
    requires |LogEntry(sha256, version, issuer, entry).value| < 0x1_0000_0000
    requires EntryFeed(sha256, version, extsRaw, rawTbs, fields.key).value.bytes == [0x00] + LogEntry(sha256, version, issuer, entry).value
    ensures !entry.isNull && extsRaw == entry.mtcExtensions && Some(fields.issuer) == X509Name(version, issuer)
    ensures sha256(fields.key) == sha256(entry.publicKey)
    ensures fields.key == entry.publicKey ==>
      TbsCertificate(version, issuer, EntryFeed(sha256, version, extsRaw, rawTbs, fields.key).value.serial, entry) == Some(rawTbs)
  {
    hide LogEntry, IsDerEntry, X509Name, FeedContent, ParseTbsFields, FeedStart, TbsContent, IsElement, IsElementOf, SigAlg,
      ReadAsn1Element, IntegerContent, Element, KeyAlgorithm, FedFromName;
    var content := ReadAsn1(rawTbs, SEQUENCE).value.v;
    ReadContents(rawTbs, SEQUENCE);
    var e, rest := ReadPiece(rawTbs, SEQUENCE);
    assert e + [] == e;
    ElementIs(e, SEQUENCE, content);
    var q := PartsOf(sha256, version, FeedStart(extsRaw), content, fields.key);
    var digest := sha256(fields.key);
    AppendAssoc(FeedStart(extsRaw), q.version, FedFromName(q, digest));
    NotTheNullEntry(sha256, version, issuer, entry, extsRaw, q.version + FedFromName(q, digest));
    EntryLimits(sha256, version, issuer, entry);
    PiecesAreOfEntry(sha256, version, issuer, entry, extsRaw, q, digest);
    FieldsOfParts(q.number, q.alg, q.name, q.validity, q.subject, q.key, q.tail);
    if fields.key == entry.publicKey {
      var serial := EntryFeed(sha256, version, extsRaw, rawTbs, fields.key).value.serial;
      ElementIs(q.number, INTEGER, IntegerContent(serial));
      ContentFromPieces(version, issuer, serial, entry, q.number, q.alg, q.name, q.key);
    }
  }

  /** Where a claim comes from. */
  lemma {:induction false} CheckedFeed(sha256: Bytes -> HashValue, version: DraftVersion, cert: X509, p: State)
    requires Checked(sha256, version, cert, p).Some?
    ensures var claim := Checked(sha256, version, cert, p).value;
      && EntryFeed(sha256, version, claim.proof.extsRaw, cert.rawTbs, cert.rawKey) == Some(Fed(claim.entryBytes, claim.serial))
      && |claim.proof.extsRaw| < 0x1_0000
      && CaIdFromName(version, cert.rawIssuer).Some?
      && claim.logId == LogIdOf(CaIdFromName(version, cert.rawIssuer).value, claim.log)
  {
    hide CaIdFromName, IdText, EntryFeed, ParseProof, SignatureBytes, SigAlg, Evaluation, IsRevoked, And, Shr, LogIdOf, BigEndian;
    ParsedIsEncoded(version, SignatureBytes(cert.raw).value);
    Widths();
  }

  /** What it takes to be checked. The certificate is of the version's algorithm in both
      places, its signature is a written MTCProof in whole bytes and in the draft's
      order, the issuer is a CA of the policy, its log is not number zero, and the serial
      is not revoked. */
  lemma {:induction false} CheckedIsCertificate(sha256: Bytes -> HashValue, version: DraftVersion, raw: Bytes, cert: X509, p: State, claim: Claim)
    returns (caId: Bytes)
    requires ParseCertificate(raw) == Some(cert) && Checked(sha256, version, cert, p) == Some(claim)
    ensures CertificateOf(version, Some(cert.rawTbs), EncodeProof(version, claim.proof.extsRaw, claim.proof.start, claim.proof.end,
      claim.proof.inclusionProof, claim.proof.signatures)) == Some(raw)
    ensures InDraftOrder(claim.proof.signatures) && TypesAscend(claim.proof.exts)
    ensures CaIdFromName(version, cert.rawIssuer) == Some(caId) && IdText(caId) in p.cas && claim.ca == p.cas[IdText(caId)]
    ensures claim.logId == LogIdOf(caId, claim.log) && claim.log != 0
    ensures claim.serial < 0x1_0000_0000_0000_0000 && claim.serial / 0x1_0000_0000_0000 == claim.log
    ensures !IsRevoked(claim.ca.revokedRanges, claim.serial)
  {
    hide CaIdFromName, IdText, EntryFeed, ParseProof, SignatureBytes, SigAlg, Evaluation, IsRevoked, And, Shr, LogIdOf, BigEndian,
      ParseCertificate, EncodeProof, InDraftOrder, TypesAscend, CertificateOf, Sha256Hasher;
    var sig := SignatureBytes(cert.raw).value;
    RawIsKept(raw, cert);
    ParsedIsEncoded(version, sig);
    CertificateIsWritten(raw, cert, sig);
    CertificateFrom(version, raw, cert, sig);
    FedSerialFits(sha256, version, claim.proof.extsRaw, cert.rawTbs, cert.rawKey);
    SerialSplit(claim.serial);
    caId := CaIdFromName(version, cert.rawIssuer).value;
  }

  lemma {:induction false} CertificateFrom(version: DraftVersion, raw: Bytes, cert: X509, sig: Bytes)
    requires Wrap(SEQUENCE, Append(Some(cert.rawTbs), Append(Some(cert.rawSigAlg), Wrap(BIT_STRING, Some([0x00] + sig))))) == Some(raw)
    requires Some(cert.rawSigAlg) == SigAlg(version)
    ensures CertificateOf(version, Some(cert.rawTbs), Some(sig)) == Some(raw)
  {
    hide Element, SigAlg;
  }

  lemma {:induction false} RawIsKept(raw: Bytes, cert: X509)
    requires ParseCertificate(raw) == Some(cert)
    ensures cert.raw == raw
  {
    hide ReadAsn1, ReadAsn1Element, ParseTbsFields;
  }

  /** The top 16 bits of a serial are its log number. */
  lemma {:induction false} SerialSplit(serial: uint64)
    ensures Shr(serial, 48) == serial / 0x1_0000_0000_0000 < 0x1_0000
  {
    hide Shr, Pow2;
    Pow2Is64();
    LowIsMod(serial, 48);
  }

  lemma {:induction false} FieldsOfCertificate(raw: Bytes, cert: X509)
    requires ParseCertificate(raw) == Some(cert)
    ensures ReadAsn1(cert.rawTbs, SEQUENCE).Some?
    ensures ParseTbsFields(ReadAsn1(cert.rawTbs, SEQUENCE).value.v) == Some(TbsFields(cert.rawIssuer, cert.rawKey))
  {
    hide ReadAsn1, ReadAsn1Element, ParseTbsFields;
  }

  /** Soundness. If the hash that a certificate evaluates to is that of the subtree of a
      log D, then its TBSCertificate is byte for byte the one that the CA builds for
      the entry at its index, its cosigned log is that CA's, and its extensions are the
      entry's; or there is an explicit collision, of the tree, of the entry or of the
      public key. */
  lemma {:induction false} CertificateIsOfLoggedEntry(sha256: Bytes -> HashValue, version: DraftVersion, raw: Bytes, cert: X509, p: State,
      D: seq<Bytes>, issuer: Bytes, entry: EntryConfig)
    requires ParseCertificate(raw) == Some(cert) && Checked(sha256, version, cert, p).Some?
    requires var claim := Checked(sha256, version, cert, p).value;
      claim.proof.start <= claim.proof.end <= |D| && claim.hash == Mth(Sha256Hasher(sha256), D, claim.proof.start, claim.proof.end)
    requires var index := And(Checked(sha256, version, cert, p).value.serial, 0xFFFF_FFFF_FFFF);
      index < |D| && LogEntry(sha256, version, issuer, entry) == Some(D[index]) && |D[index]| < 0x1_0000_0000
    requires entry.isNull || IsDerEntry(entry)
    ensures var claim := Checked(sha256, version, cert, p).value;
      var index := And(claim.serial, 0xFFFF_FFFF_FFFF);
      && claim.proof.start <= index < claim.proof.end && |claim.proof.inclusionProof| % 32 == 0
      && (|| (!entry.isNull && TbsCertificate(version, issuer, claim.serial, entry) == Some(cert.rawTbs)
              && claim.logId == LogIdOf(issuer, claim.log) && claim.proof.extsRaw == entry.mtcExtensions)
          || (cert.rawKey != entry.publicKey && sha256(cert.rawKey) == sha256(entry.publicKey))
          || ClaimCollides(sha256, claim, D, index))
  {
    hide Checked, ParseCertificate, LogEntry, IsDerEntry, EntryFeed, ParseTbsFields, TbsCertificate, ClaimCollides, And, Mth, X509Name,
      CaIdFromName, LogIdOf, Sha256Hasher, IsSubtree, ReadAsn1, IsElement;
    var claim := Checked(sha256, version, cert, p).value;
    ClaimedIsLogged(sha256, version, cert, p, D);
    CheckedFeed(sha256, version, cert, p);
    FieldsOfCertificate(raw, cert);
    var index := And(claim.serial, 0xFFFF_FFFF_FFFF);
    if claim.entryBytes == [0x00] + D[index] {
      TbsIsOfEntry(sha256, version, claim.proof.extsRaw, cert.rawTbs, TbsFields(cert.rawIssuer, cert.rawKey), issuer, entry);
      EntryLimits(sha256, version, issuer, entry);
      NameRoundTrip(version, issuer);
    }
  }
}
