/** Issuing a certificate and verifying it: the CA's serialiser, the verifier's
    one-pass hash of the log entry, and the decision about the cosignatures.
 */
module Verification {
  import opened Bits
  import opened Hashing
  import opened Subtrees
  import opened MerkleSpec
  import opened MerkleTree
  import opened SubtreeProofs
  import opened InclusionProofs
  import opened TrustAnchors
  import opened TrustAnchorText
  import opened Wire
  import opened MtcProofs
  import opened Cosigning
  import opened Issuance
  import opened Certificates
  import opened Policies

  // ----- The one-pass entry hash -----

  /** What the verifier has fed to the hash, and the serial it met on the way. */
  datatype Fed = Fed(bytes: Bytes, serial: nat)

  /** A hash run that copies one element of the input. */
  datatype Run = Run(fed: Bytes, rest: Bytes)

  /** hashASN1Element */
  function FeedElement(run: Run, tag: byte): Option<Run> {
    match ReadAsn1Element(run.rest, tag)
    case None => None
    case Some(e) => Some(Run(run.fed + e.v, e.rest))
  }

  /** The start of the hash: domain separator, extensions, entry type. */
  function FeedStart(extsRaw: Bytes): Bytes {
    [0x00] + BigEndian(|extsRaw|, 2) + extsRaw + BigEndian(1, 2)
  }

  /** The TBSCertificate walked once: some elements are fed, some skipped, and the key
      is replaced by its hash. */
  function EntryFeed(sha256: Bytes -> HashValue, version: DraftVersion, extsRaw: Bytes, rawTbs: Bytes, rawKey: Bytes): Option<Fed> {
    match ReadAsn1(rawTbs, SEQUENCE)
    case None => None
    case Some(tbs) =>
      if |tbs.rest| != 0 then None
      else FeedContent(sha256, version, FeedStart(extsRaw), tbs.v, rawKey)
  }

  function FeedContent(sha256: Bytes -> HashValue, version: DraftVersion, fed: Bytes, content: Bytes, rawKey: Bytes): Option<Fed> {
    match (if |content| != 0 && content[0] == VERSION_TAG then FeedElement(Run(fed, content), VERSION_TAG) else Some(Run(fed, content)))
    case None => None
    case Some(r1) =>
    match ReadAsn1(r1.rest, INTEGER)
    case None => None
    case Some(number) =>
    match IntegerValue(number.v)
    case None => None
    case Some(serial) =>
    match ReadAsn1Element(number.rest, SEQUENCE)
    case None => None
    case Some(alg) =>
      if Some(alg.v) != SigAlg(version) then None
      else FeedNames(sha256, fed := r1.fed, s := alg.rest, rawKey := rawKey, serial := serial)
  }

  /** From the issuer on. */
  function FeedNames(sha256: Bytes -> HashValue, fed: Bytes, s: Bytes, rawKey: Bytes, serial: nat): Option<Fed> {
    match FeedElement(Run(fed, s), SEQUENCE)
    case None => None
    case Some(issuer) =>
    match FeedElement(issuer, SEQUENCE)
    case None => None
    case Some(validity) =>
    match FeedElement(validity, SEQUENCE)
    case None => None
    case Some(subject) =>
    match ReadAsn1(subject.rest, SEQUENCE)
    case None => None
    case Some(key) =>
    match FeedElement(Run(subject.fed, key.v), SEQUENCE)
    case None => None
    case Some(alg) => Some(Fed(alg.fed + [0x04, 0x20] + sha256(rawKey) + key.rest, serial))
  }

  /** The hash as the verifier runs it: `fed` is what has been written so far. */
  method HashEntry(sha256: Bytes -> HashValue, version: DraftVersion, extsRaw: Bytes, rawTbs: Bytes, rawKey: Bytes)
    returns (res: Option<Fed>)
    ensures res == EntryFeed(sha256, version, extsRaw, rawTbs, rawKey)
  {
    hide ReadAsn1, ReadAsn1Element, IntegerValue, SigAlg, BigEndian;
    var fed: Bytes := [0x00];
    fed := fed + BigEndian(|extsRaw|, 2);
    fed := fed + extsRaw;
    fed := fed + BigEndian(1, 2);
    var tbsRead := ReadAsn1(rawTbs, SEQUENCE);
    if tbsRead.None? || |tbsRead.value.rest| != 0 { return None; }
    var tbs := tbsRead.value.v;
    if |tbs| != 0 && tbs[0] == VERSION_TAG {
      var e := ReadAsn1Element(tbs, VERSION_TAG);
      if e.None? { return None; }
      fed := fed + e.value.v;
      tbs := e.value.rest;
    }
    var number := ReadAsn1(tbs, INTEGER);
    if number.None? { return None; }
    var serial := IntegerValue(number.value.v);
    if serial.None? { return None; }
    var alg := ReadAsn1Element(number.value.rest, SEQUENCE);
    if alg.None? || Some(alg.value.v) != SigAlg(version) { return None; }
    var issuer := ReadAsn1Element(alg.value.rest, SEQUENCE);
    if issuer.None? { return None; }
    fed := fed + issuer.value.v;
    var validity := ReadAsn1Element(issuer.value.rest, SEQUENCE);
    if validity.None? { return None; }
    fed := fed + validity.value.v;
    var subject := ReadAsn1Element(validity.value.rest, SEQUENCE);
    if subject.None? { return None; }
    fed := fed + subject.value.v;
    var key := ReadAsn1(subject.value.rest, SEQUENCE);
    if key.None? { return None; }
    var keyAlg := ReadAsn1Element(key.value.v, SEQUENCE);
    if keyAlg.None? { return None; }
    fed := fed + keyAlg.value.v;
    fed := fed + [0x04, 0x20];
    fed := fed + sha256(rawKey);
    fed := fed + key.value.rest;
    return Some(Fed(fed, serial.value));
  }

  /** Validity and subject are single DER SEQUENCEs, as Go's encoders make them. */
  predicate IsDerEntry(entry: EntryConfig) {
    IsElement(entry.validity, SEQUENCE) && IsElement(entry.subject, SEQUENCE)
  }

  lemma {:induction false} FeedWhole(fed: Bytes, e: Bytes, tag: byte, rest: Bytes)
    requires IsElement(e, tag)
    ensures FeedElement(Run(fed, e + rest), tag) == Some(Run(fed + e, rest))
    ensures SkipElement(e + rest, tag) == Some(rest)
    ensures ReadAsn1Element(e + rest, tag) == Some(Read(e, rest))
  {
    hide ReadTlv, ReadAsn1Element, ReadAsn1;
    ElementOf(e, tag);
    ElementThenRest(e, tag, ReadTlv(e).value.v.content, rest);
  }

  lemma {:induction false} ElementOf(e: Bytes, tag: byte)
    requires IsElement(e, tag)
    ensures IsElementOf(e, tag, ReadTlv(e).value.v.content)
  {
  }

  lemma {:induction false} V3IsElement()
    ensures IsElement(V3, VERSION_TAG)
    ensures V3[0] == VERSION_TAG
  {
    assert V3[1..] == [0x03, 0x02, 0x01, 0x02];
    assert V3[1..][1..] == [0x02, 0x01, 0x02];
  }

  /** A key whose algorithm can be read is one SEQUENCE that starts with it. */
  lemma {:induction false} KeyParts(key: Bytes) returns (content: Bytes, alg: Bytes, bits: Bytes)
    requires KeyAlgorithm(key).Some?
    ensures IsElementOf(key, SEQUENCE, content)
    ensures alg == KeyAlgorithm(key).value
    ensures ReadAsn1Element(content, SEQUENCE) == Some(Read(alg, bits))
  {
    hide ReadTlv, ReadAsn1Element;
    content := ReadAsn1(key, SEQUENCE).value.v;
    alg := ReadAsn1Element(content, SEQUENCE).value.v;
    bits := ReadAsn1Element(content, SEQUENCE).value.rest;
  }

  /** The parts of a built TBSCertificate, each of them one element. */
  lemma {:induction false} TbsParts(version: DraftVersion, issuer: Bytes, serial: uint64, entry: EntryConfig)
    returns (number: Bytes, alg: Bytes, name: Bytes)
    requires TbsContent(version, issuer, serial, entry).Some? && IsDerEntry(entry)
    requires |TbsContent(version, issuer, serial, entry).value| < 0x1_0000_0000
    ensures IsElementOf(number, INTEGER, IntegerContent(serial))
    ensures Some(alg) == SigAlg(version) && IsElement(alg, SEQUENCE)
    ensures Some(name) == X509Name(version, issuer) && IsElement(name, SEQUENCE)
    ensures TbsContent(version, issuer, serial, entry).value ==
      V3 + (number + (alg + (name + (entry.validity + (entry.subject + (entry.publicKey + entry.extensions))))))
  {
    hide IsElement, IsElementOf, Element, SigAlg, X509Name, IntegerContent, CaIdFromName;
    number := Element(INTEGER, IntegerContent(serial)).value;
    alg := SigAlg(version).value;
    name := X509Name(version, issuer).value;
    BuiltIsElement(INTEGER, IntegerContent(serial));
    SigAlgIsElement(version);
    NameRoundTrip(version, issuer);
  }

  /** A parser finds the issuer name and the key among the parts. */
  lemma {:induction false} FieldsOfParts(number: Bytes, alg: Bytes, name: Bytes, validity: Bytes, subject: Bytes, key: Bytes, tail: Bytes)
    requires IsElement(number, INTEGER) && IsElement(alg, SEQUENCE) && IsElement(name, SEQUENCE)
    requires IsElement(validity, SEQUENCE) && IsElement(subject, SEQUENCE) && IsElement(key, SEQUENCE)
    ensures ParseTbsFields(V3 + (number + (alg + (name + (validity + (subject + (key + tail))))))) == Some(TbsFields(name, key))
  {
    hide IsElement, ReadAsn1Element, SkipElement;
    var r6 := key + tail;
    var r5 := subject + r6;
    var r4 := validity + r5;
    var r3 := name + r4;
    var r2 := alg + r3;
    var r1 := number + r2;
    V3IsElement();
    FeedWhole([], V3, VERSION_TAG, r1);
    FeedWhole([], number, INTEGER, r2);
    FeedWhole([], alg, SEQUENCE, r3);
    FeedWhole([], name, SEQUENCE, r4);
    FeedWhole([], validity, SEQUENCE, r5);
    FeedWhole([], subject, SEQUENCE, r6);
    FeedWhole([], key, SEQUENCE, tail);
    assert (V3 + r1)[0] == V3[0];
  }

  lemma {:induction false} FieldsOfBuilt(version: DraftVersion, issuer: Bytes, serial: uint64, entry: EntryConfig)
    requires TbsContent(version, issuer, serial, entry).Some? && IsDerEntry(entry)
    requires |TbsContent(version, issuer, serial, entry).value| < 0x1_0000_0000
    requires IsElement(entry.publicKey, SEQUENCE)
    ensures ParseTbsFields(TbsContent(version, issuer, serial, entry).value)
      == Some(TbsFields(X509Name(version, issuer).value, entry.publicKey))
  {
    hide TbsContent, IsElement, IsElementOf, SigAlg, X509Name, ParseTbsFields, IntegerContent;
    var number, alg, name := TbsParts(version, issuer, serial, entry);
    IsOneElement(number, INTEGER, IntegerContent(serial));
    FieldsOfParts(number, alg, name, entry.validity, entry.subject, entry.publicKey, entry.extensions);
  }

  lemma {:induction false} IsOneElement(e: Bytes, tag: byte, content: Bytes)
    requires IsElementOf(e, tag, content)
    ensures IsElement(e, tag)
  {
  }

  /** One more piece fed. */
  lemma {:induction false} FeedPiece(fed: Bytes, piece: Bytes, rest: Bytes, whole: Bytes)
    requires fed + (piece + rest) == whole
    ensures (fed + piece) + rest == whole
  {
    AppendAssoc(fed, piece, rest);
  }

  lemma {:induction false} StartPieces(extsRaw: Bytes, rest: Bytes)
    ensures FeedStart(extsRaw) + rest == [0x00] + ((BigEndian(|extsRaw|, 2) + extsRaw) + (BigEndian(1, 2) + rest))
  {
    hide BigEndian;
    var a, b, c, d: Bytes := [0x00], BigEndian(|extsRaw|, 2), extsRaw, BigEndian(1, 2);
    AppendAssoc(a, b, c);
    AppendAssoc(a, b + c, d);
    AppendAssoc(a, (b + c) + d, rest);
    AppendAssoc(b + c, d, rest);
  }

  /** The log entry as the pieces the verifier will meet. */
  lemma {:induction false} EntryPieces(sha256: Bytes -> HashValue, version: DraftVersion, issuer: Bytes, entry: EntryConfig, alg: Bytes, name: Bytes)
    requires !entry.isNull && LogEntry(sha256, version, issuer, entry).Some?
    requires Some(alg) == KeyAlgorithm(entry.publicKey) && Some(name) == X509Name(version, issuer)
    ensures [0x00] + LogEntry(sha256, version, issuer, entry).value ==
      FeedStart(entry.mtcExtensions) + (V3 + (name + (entry.validity + (entry.subject + (alg +
        ([0x04, 0x20] + sha256(entry.publicKey) + entry.extensions))))))
  {
    hide BigEndian, KeyAlgorithm, X509Name, FeedStart;
    StartPieces(entry.mtcExtensions, V3 + (name + (entry.validity + (entry.subject + (alg +
      ([0x04, 0x20] + sha256(entry.publicKey) + entry.extensions))))));
  }

  lemma {:induction false} LastPieces(fed: Bytes, mark: Bytes, digest: Bytes, rest: Bytes)
    ensures fed + mark + digest + rest == fed + (mark + digest + rest)
  {
    AppendAssoc(fed, mark, digest);
    AppendAssoc(fed, mark + digest, rest);
  }

  lemma {:induction false} FeedNamesOfBuilt(sha256: Bytes -> HashValue, fed: Bytes, name: Bytes, entry: EntryConfig, serial: nat,
      content: Bytes, alg: Bytes, bits: Bytes)
    requires IsElement(name, SEQUENCE) && IsDerEntry(entry)
    requires IsElementOf(entry.publicKey, SEQUENCE, content)
    requires ReadAsn1Element(content, SEQUENCE) == Some(Read(alg, bits))
    ensures FeedNames(sha256, fed, name + (entry.validity + (entry.subject + (entry.publicKey + entry.extensions))), entry.publicKey, serial)
      == Some(Fed(fed + (name + (entry.validity + (entry.subject + (alg +
           ([0x04, 0x20] + sha256(entry.publicKey) + entry.extensions))))), serial))
  {
    hide IsElement, IsElementOf, ReadAsn1Element, ReadAsn1;
    var r6 := entry.publicKey + entry.extensions;
    var r5 := entry.subject + r6;
    var r4 := entry.validity + r5;
    FeedWhole(fed, name, SEQUENCE, r4);
    FeedWhole(fed + name, entry.validity, SEQUENCE, r5);
    FeedWhole(fed + name + entry.validity, entry.subject, SEQUENCE, r6);
    ElementThenRest(entry.publicKey, SEQUENCE, content, entry.extensions);
    var t3 := [0x04, 0x20] + sha256(entry.publicKey) + entry.extensions;
    var t2 := alg + t3;
    var t1 := entry.subject + t2;
    var t0 := entry.validity + t1;
    var whole := fed + (name + t0);
    FeedPiece(fed, name, t0, whole);
    FeedPiece(fed + name, entry.validity, t1, whole);
    FeedPiece(fed + name + entry.validity, entry.subject, t2, whole);
    FeedPiece(fed + name + entry.validity + entry.subject, alg, t3, whole);
    LastPieces(fed + name + entry.validity + entry.subject + alg, [0x04, 0x20], sha256(entry.publicKey), entry.extensions);
  }

  /** The one pass rebuilds the log entry: for a TBSCertificate built from an entry,
      exactly 0x00 and the marshalled entry are fed, and the serial is recovered. */
  lemma {:induction false} FeedOfBuilt(sha256: Bytes -> HashValue, version: DraftVersion, issuer: Bytes, serial: uint64, entry: EntryConfig)
    requires TbsContent(version, issuer, serial, entry).Some? && IsDerEntry(entry)
    requires |TbsContent(version, issuer, serial, entry).value| < 0x1_0000_0000
    requires !entry.isNull && LogEntry(sha256, version, issuer, entry).Some?
    ensures FeedContent(sha256, version, FeedStart(entry.mtcExtensions), TbsContent(version, issuer, serial, entry).value, entry.publicKey)
      == Some(Fed([0x00] + LogEntry(sha256, version, issuer, entry).value, serial))
  {
    hide TbsContent, LogEntry, IsElement, IsElementOf, SigAlg, X509Name, ReadAsn1Element, ReadAsn1, IntegerContent, IntegerValue, FeedNames, FeedElement, FeedStart, KeyAlgorithm;
    var number, alg, name := TbsParts(version, issuer, serial, entry);
    KeyAlgorithmReads(sha256, version, issuer, entry);
    var content, keyAlg, bits := KeyParts(entry.publicKey);
    var r3 := name + (entry.validity + (entry.subject + (entry.publicKey + entry.extensions)));
    var r2 := alg + r3;
    var r1 := number + r2;
    var fed := FeedStart(entry.mtcExtensions);
    V3IsElement();
    FeedWhole(fed, V3, VERSION_TAG, r1);
    ElementThenRest(number, INTEGER, IntegerContent(serial), r2);
    IntegerRoundTrip(serial);
    FeedWhole([], alg, SEQUENCE, r3);
    FeedNamesOfBuilt(sha256, fed + V3, name, entry, serial, content, keyAlg, bits);
    EntryPieces(sha256, version, issuer, entry, keyAlg, name);
    assert (V3 + r1)[0] == V3[0];
    AppendAssoc(fed, V3, name + (entry.validity + (entry.subject + (keyAlg +
      ([0x04, 0x20] + sha256(entry.publicKey) + entry.extensions)))));
  }

  lemma {:induction false} KeyAlgorithmReads(sha256: Bytes -> HashValue, version: DraftVersion, issuer: Bytes, entry: EntryConfig)
    requires !entry.isNull && LogEntry(sha256, version, issuer, entry).Some?
    ensures KeyAlgorithm(entry.publicKey).Some?
    ensures IsElement(entry.publicKey, SEQUENCE)
  {
    hide KeyAlgorithm, X509Name, ReadTlv;
    var content, alg, bits := KeyParts(entry.publicKey);
  }

  // ----- The decision -----

  /** What a certificate claims, once everything but the cosignatures is checked. */
  datatype Claim = Claim(ca: TrustedCA, logId: Bytes, log: uint16, proof: MtcProof, hash: HashValue, serial: nat, entryBytes: Bytes)

  function ProofOf(version: DraftVersion, cert: X509): Option<MtcProof> {
    if Some(cert.rawSigAlg) != SigAlg(version) then None
    else
      match SignatureBytes(cert.raw)
      case None => None
      case Some(sig) => ParseProof(version, sig)
  }

  /** The claim that a fed entry and a proof make about a CA's log. */
  function ClaimOf(sha256: Bytes -> HashValue, caId: Bytes, ca: TrustedCA, proof: MtcProof, fed: Fed): Option<Claim> {
    var index, log := And(fed.serial, 0xFFFF_FFFF_FFFF), Shr(fed.serial, 48) % 0x1_0000;
    if IsRevoked(ca.revokedRanges, fed.serial) || log == 0 then None
    else
      match Evaluation(Sha256Hasher(sha256), index, proof.start, proof.end, sha256(fed.bytes), proof.inclusionProof)
      case Err => None
      case Ok(hash) => Some(Claim(ca, LogIdOf(caId, log), log, proof, hash, fed.serial, fed.bytes))
  }

  function Checked(sha256: Bytes -> HashValue, version: DraftVersion, cert: X509, p: State): Option<Claim> {
    match CaIdFromName(version, cert.rawIssuer)
    case None => None
    case Some(caId) =>
      if IdText(caId) !in p.cas then None
      else
        match ProofOf(version, cert)
        case None => None
        case Some(proof) =>
        match EntryFeed(sha256, version, proof.extsRaw, cert.rawTbs, cert.rawKey)
        case None => None
        case Some(fed) => ClaimOf(sha256, caId, p.cas[IdText(caId)], proof, fed)
  }

  /** The ID of a cosignature names cosigner i. */
  predicate NamesCosigner(p: State, id: Bytes, i: nat) {
    IdText(id) in p.names && p.names[IdText(id)] == PolicyIndex(false, i)
  }

  /** CosignerPublic.Verify */
  predicate Verifies(c: CosignerPublic, logId: Bytes, start: uint64, end: uint64, hash: HashValue, signature: Bytes) {
    match CosignedMessage(c.id, logId, 0, start, end, hash)
    case None => false
    case Some(m) => c.verify(m, signature)
  }

  /** Some cosignature in the list is from cosigner i and verifies. */
  predicate IsCosigned(p: State, i: nat, logId: Bytes, start: uint64, end: uint64, hash: HashValue, sigs: seq<Cosignature>)
    requires i < |p.cosigners|
  {
    exists k :: 0 <= k < |sigs| && NamesCosigner(p, sigs[k].id, i)
      && Verifies(p.cosigners[i], logId, start, end, hash, sigs[k].signature)
  }

  /** The list holds a signature of this cosigner, under its own ID, that verifies on
      the draft's message for the subtree. */
  ghost predicate HasSigned(c: CosignerPublic, logId: Bytes, start: nat, end: nat, hash: HashValue, sigs: seq<Cosignature>) {
    exists k, m :: 0 <= k < |sigs| && sigs[k].id == c.id
      && IsSubtreeMessage(m, c.id, logId, start, end, hash) && c.verify(m, sigs[k].signature)
  }

  lemma {:induction false} NameIsOwnId(p: State, id: Bytes, i: nat)
    requires WellFormed(p) && i < |p.cosigners|
    ensures NamesCosigner(p, id, i) <==> id == p.cosigners[i].id
  {
    hide IdText, Layered, AllRefer, GoodCA;
    assert IsNamed(p, i);
    if NamesCosigner(p, id, i) {
      assert IsNameOf(p, IdText(id));
      IdTextInjective(id, p.cosigners[i].id);
    }
  }

  lemma {:induction false} VerifiesIs(c: CosignerPublic, logId: Bytes, start: uint64, end: uint64, hash: HashValue, signature: Bytes)
    ensures Verifies(c, logId, start, end, hash, signature) <==>
      exists m :: IsSubtreeMessage(m, c.id, logId, start, end, hash) && c.verify(m, signature)
  {
    hide CosignedMessage, IsSubtreeMessage;
    var m := CosignedMessage(c.id, logId, 0, start, end, hash);
    if m.Some? { MessageIsDrafts(c.id, logId, start, end, hash, m.value); }
    if n :| IsSubtreeMessage(n, c.id, logId, start, end, hash) && c.verify(n, signature) {
      MessageIsDrafts(c.id, logId, start, end, hash, n);
    }
  }

  /** A cosigner counts exactly when it has signed. */
  lemma {:induction false} CountsIffSigned(p: State, i: nat, logId: Bytes, start: uint64, end: uint64, hash: HashValue, sigs: seq<Cosignature>)
    requires WellFormed(p) && i < |p.cosigners|
    ensures IsCosigned(p, i, logId, start, end, hash, sigs) <==> HasSigned(p.cosigners[i], logId, start, end, hash, sigs)
  {
    hide WellFormed, NamesCosigner, Verifies, IsSubtreeMessage;
    var c := p.cosigners[i];
    forall k | 0 <= k < |sigs|
      ensures NamesCosigner(p, sigs[k].id, i) <==> sigs[k].id == c.id
      ensures Verifies(c, logId, start, end, hash, sigs[k].signature) <==>
        exists m :: IsSubtreeMessage(m, c.id, logId, start, end, hash) && c.verify(m, sigs[k].signature)
    {
      NameIsOwnId(p, sigs[k].id, i);
      VerifiesIs(c, logId, start, end, hash, sigs[k].signature);
    }
    if IsCosigned(p, i, logId, start, end, hash, sigs) {
      var k :| 0 <= k < |sigs| && NamesCosigner(p, sigs[k].id, i) && Verifies(c, logId, start, end, hash, sigs[k].signature);
      assert sigs[k].id == c.id;
    }
    if HasSigned(c, logId, start, end, hash, sigs) {
      var k, m :| 0 <= k < |sigs| && sigs[k].id == c.id
        && IsSubtreeMessage(m, c.id, logId, start, end, hash) && c.verify(m, sigs[k].signature);
      assert NamesCosigner(p, sigs[k].id, i);
    }
  }

  function ValidCosigners(p: State, logId: Bytes, start: uint64, end: uint64, hash: HashValue, sigs: seq<Cosignature>): (v: seq<bool>)
    ensures |v| == |p.cosigners|
  {
    seq(|p.cosigners|, i requires 0 <= i < |p.cosigners| => IsCosigned(p, i, logId, start, end, hash, sigs))
  }

  /** The CA's own cosigner and every requirement are satisfied. */
  predicate PolicyHolds(p: State, ca: TrustedCA, valid: seq<bool>)
    requires Layered(p.groups, |valid|)
    requires ca.cosignerIndex < |valid|
    requires AllRefer(ca.requirements, |valid|, |p.groups|) && AllRefer(p.requirementsForAllCAs, |valid|, |p.groups|)
  {
    && Satisfied(p.groups, valid, PolicyIndex(false, ca.cosignerIndex))
    && (forall k :: 0 <= k < |ca.requirements| ==> Satisfied(p.groups, valid, ca.requirements[k]))
    && (forall k :: 0 <= k < |p.requirementsForAllCAs| ==> Satisfied(p.groups, valid, p.requirementsForAllCAs[k]))
  }

  /** Requiring a cosigner or group for a CA asks for just that more. */
  lemma {:induction false} RequirementAdds(p: State, ca: Bytes, name: Bytes, valid: seq<bool>)
    requires WellFormed(p) && RequiredForCA(p, ca, name).Some? && |valid| == |p.cosigners|
    ensures var q, key := RequiredForCA(p, ca, name).value, IdText(ca);
      && GoodCA(p, key) && GoodCA(q, key) && q.groups == p.groups && Refers(p.names[name], |valid|, |p.groups|)
      && (PolicyHolds(q, q.cas[key], valid) <==>
           PolicyHolds(p, p.cas[key], valid) && Satisfied(p.groups, valid, p.names[name]))
      && forall k :: k in p.cas && k != key ==> q.cas[k] == p.cas[k]
  {
    hide Satisfied, IdText;
    var q, key := RequiredForCA(p, ca, name).value, IdText(ca);
    RequireKeepsForm(p, ca, name);
    assert GoodCA(p, key) && GoodCA(q, key);
    var ids, n := q.cas[key].requirements, |p.cas[key].requirements|;
    assert ids[n] == p.names[name];
    assert forall k :: 0 <= k < n ==> ids[k] == p.cas[key].requirements[k];
  }

  lemma {:induction false} RequirementForAllAdds(p: State, name: Bytes, key: Bytes, valid: seq<bool>)
    requires WellFormed(p) && RequiredForAllCAs(p, name).Some? && |valid| == |p.cosigners| && key in p.cas
    ensures var q := RequiredForAllCAs(p, name).value;
      && GoodCA(p, key) && q.cas == p.cas && q.groups == p.groups && Refers(p.names[name], |valid|, |p.groups|)
      && AllRefer(q.requirementsForAllCAs, |valid|, |q.groups|)
      && (PolicyHolds(q, q.cas[key], valid) <==>
           PolicyHolds(p, p.cas[key], valid) && Satisfied(p.groups, valid, p.names[name]))
  {
    hide Satisfied, IdText;
    var q := RequiredForAllCAs(p, name).value;
    RequireAllKeepsForm(p, name);
    assert GoodCA(p, key);
    var ids, n := q.requirementsForAllCAs, |p.requirementsForAllCAs|;
    assert ids[n] == p.names[name];
    assert forall k :: 0 <= k < n ==> ids[k] == p.requirementsForAllCAs[k];
  }

  /** A CA of the policy. */
  predicate IsCAOf(p: State, ca: TrustedCA) {
    exists key :: key in p.cas && p.cas[key] == ca
  }

  lemma {:induction false} CARefers(p: State, ca: TrustedCA)
    requires WellFormed(p) && IsCAOf(p, ca)
    ensures Layered(p.groups, |p.cosigners|) && ca.cosignerIndex < |p.cosigners|
    ensures AllRefer(ca.requirements, |p.cosigners|, |p.groups|)
    ensures AllRefer(p.requirementsForAllCAs, |p.cosigners|, |p.groups|)
  {
    hide Layered, AllRefer, IdText;
    var key :| key in p.cas && p.cas[key] == ca;
    assert GoodCA(p, key);
  }

  /** A trusted subtree decides by its hash alone, otherwise the policy does. */
  predicate Decision(p: State, claim: Claim)
    requires WellFormed(p) && IsCAOf(p, claim.ca)
    requires claim.proof.start < 0x1_0000_0000_0000 && claim.proof.end < 0x1_0000_0000_0000
  {
    CARefers(p, claim.ca);
    match FindTrusted(claim.ca.trustedSubtrees, claim.log, claim.proof.start, claim.proof.end)
    case Some(expected) => expected == claim.hash
    case None => PolicyHolds(p, claim.ca,
      ValidCosigners(p, claim.logId, claim.proof.start, claim.proof.end, claim.hash, claim.proof.signatures))
  }

  lemma {:induction false} CheckedFacts(sha256: Bytes -> HashValue, version: DraftVersion, cert: X509, p: State)
    requires Checked(sha256, version, cert, p).Some?
    ensures var claim := Checked(sha256, version, cert, p).value;
      && IsCAOf(p, claim.ca)
      && claim.proof.start < 0x1_0000_0000_0000 && claim.proof.end < 0x1_0000_0000_0000
  {
    hide CaIdFromName, IdText, EntryFeed, ParseProof, SignatureBytes, SigAlg, Evaluation, IsRevoked, And, Shr, LogIdOf;
    ParsedIsEncoded(version, SignatureBytes(cert.raw).value);
    var key := IdText(CaIdFromName(version, cert.rawIssuer).value);
    assert key in p.cas;
  }

  /** VerifyMTCProof returns no error. */
  predicate Accepted(sha256: Bytes -> HashValue, version: DraftVersion, cert: X509, p: State)
    requires WellFormed(p)
  {
    var c := Checked(sha256, version, cert, p);
    c.Some? && (CheckedFacts(sha256, version, cert, p); Decision(p, c.value))
  }

  // ----- The verifier -----

  datatype VerifyResult = VerifyResult(trustedSubtree: bool, unsatisfied: seq<PolicyIndex>)

  method CheckRevoked(ranges: seq<RevokedRange>, serial: nat) returns (revoked: bool)
    ensures revoked == IsRevoked(ranges, serial)
  {
    for k := 0 to |ranges|
      invariant forall j :: 0 <= j < k ==> !(ranges[j].minSerial <= serial <= ranges[j].maxSerial)
    {
      if serial >= ranges[k].minSerial && serial <= ranges[k].maxSerial { return true; }
    }
    return false;
  }

  /** The checks before the cosignatures. */
  method CheckClaim(sha256: Bytes -> HashValue, caId: Bytes, ca: TrustedCA, proof: MtcProof, fed: Fed) returns (r: Option<Claim>)
    requires fed.serial < 0x1_0000_0000_0000_0000
    requires proof.start < 0x1_0000_0000_0000 && proof.end < 0x1_0000_0000_0000
    ensures r == ClaimOf(sha256, caId, ca, proof, fed)
  {
    hide Evaluation, And, Shr, LogIdOf, Sha256Hasher, IsRevoked;
    var revoked := CheckRevoked(ca.revokedRanges, fed.serial);
    if revoked { return None; }
    var index := And(fed.serial, 0xFFFF_FFFF_FFFF);
    var log := Shr(fed.serial, 48) % 0x1_0000;
    if log == 0 { return None; }
    var logId := LogID(caId, log);
    var hash := EvaluateSubtreeInclusionProof(Sha256Hasher(sha256), index, proof.start, proof.end,
      sha256(fed.bytes), proof.inclusionProof);
    match hash {
      case Err => return None;
      case Ok(h) => return Some(Claim(ca, logId, log, proof, h, fed.serial, fed.bytes));
    }
  }

  lemma {:induction false} FedSerialFits(sha256: Bytes -> HashValue, version: DraftVersion, extsRaw: Bytes, rawTbs: Bytes, rawKey: Bytes)
    requires EntryFeed(sha256, version, extsRaw, rawTbs, rawKey).Some?
    ensures EntryFeed(sha256, version, extsRaw, rawTbs, rawKey).value.serial < 0x1_0000_0000_0000_0000
  {
    hide ReadAsn1, ReadAsn1Element, IntegerValue, SigAlg, FeedElement, FeedStart;
    var fed, content := FeedStart(extsRaw), ReadAsn1(rawTbs, SEQUENCE).value.v;
    var s := if |content| != 0 && content[0] == VERSION_TAG then FeedElement(Run(fed, content), VERSION_TAG).value.rest else content;
    IntegerFits(ReadAsn1(s, INTEGER).value.v);
  }

  /** Which cosigners have a cosignature that verifies; unknown IDs and names of
      groups are ignored. */
  method CheckCosignatures(p: State, claim: Claim) returns (satisfied: seq<bool>)
    requires WellFormed(p)
    requires claim.proof.start < 0x1_0000_0000_0000 && claim.proof.end < 0x1_0000_0000_0000
    ensures satisfied == ValidCosigners(p, claim.logId, claim.proof.start, claim.proof.end, claim.hash, claim.proof.signatures)
    ensures |satisfied| == |p.cosigners|
    ensures forall i :: 0 <= i < |p.cosigners| ==> (satisfied[i] <==>
      HasSigned(p.cosigners[i], claim.logId, claim.proof.start, claim.proof.end, claim.hash, claim.proof.signatures))
  {
    hide HasSigned, IdText, Layered, AllRefer, GoodCA, Verifies;
    var start, end := claim.proof.start, claim.proof.end;
    var sigs := claim.proof.signatures;
    var found := new bool[|p.cosigners|](i => false);
    for k := 0 to |sigs|
      invariant forall i :: 0 <= i < |p.cosigners| ==>
        found[i] == IsCosigned(p, i, claim.logId, start, end, claim.hash, sigs[..k])
    {
      var name := IdText(sigs[k].id);
      label before:
      if name in p.names && !p.names[name].isGroup {
        var idx := p.names[name].index;
        assert Refers(p.names[name], |p.cosigners|, |p.groups|);
        if Verifies(p.cosigners[idx], claim.logId, start, end, claim.hash, sigs[k].signature) {
          found[idx] := true;
        }
      }
      forall i | 0 <= i < |p.cosigners|
        ensures found[i] == IsCosigned(p, i, claim.logId, start, end, claim.hash, sigs[..k + 1])
      {
        CosignedOneMore(p, i, claim.logId, start, end, claim.hash, sigs, k);
      }
    }
    assert sigs[..|sigs|] == sigs;
    satisfied := found[..];
    forall i | 0 <= i < |p.cosigners|
      ensures satisfied[i] <==> HasSigned(p.cosigners[i], claim.logId, start, end, claim.hash, sigs)
    {
      CountsIffSigned(p, i, claim.logId, start, end, claim.hash, sigs);
    }
  }

  lemma {:induction false} CosignedOneMore(p: State, i: nat, logId: Bytes, start: uint64, end: uint64, hash: HashValue, sigs: seq<Cosignature>, k: nat)
    requires i < |p.cosigners| && k < |sigs|
    ensures IsCosigned(p, i, logId, start, end, hash, sigs[..k + 1]) <==>
      IsCosigned(p, i, logId, start, end, hash, sigs[..k])
      || (NamesCosigner(p, sigs[k].id, i) && Verifies(p.cosigners[i], logId, start, end, hash, sigs[k].signature))
  {
    hide Verifies, NamesCosigner;
    if IsCosigned(p, i, logId, start, end, hash, sigs[..k]) {
      var j :| 0 <= j < k && NamesCosigner(p, sigs[..k][j].id, i) && Verifies(p.cosigners[i], logId, start, end, hash, sigs[..k][j].signature);
      assert sigs[..k + 1][j] == sigs[..k][j];
    }
    if IsCosigned(p, i, logId, start, end, hash, sigs[..k + 1]) {
      var j :| 0 <= j < k + 1 && NamesCosigner(p, sigs[..k + 1][j].id, i) && Verifies(p.cosigners[i], logId, start, end, hash, sigs[..k + 1][j].signature);
      if j < k { assert sigs[..k][j] == sigs[..k + 1][j]; }
    }
    assert sigs[..k + 1][k] == sigs[k];
  }

  /** The requirements that are not met, in order. */
  method Unsatisfied(r: PolicyResult, groups: seq<PolicyGroup>, ids: seq<PolicyIndex>) returns (missing: seq<PolicyIndex>)
    requires |r.groups| == |groups| && Layered(groups, |r.cosigners|)
    requires AllRefer(ids, |r.cosigners|, |groups|)
    requires forall idx :: Refers(idx, |r.cosigners|, |groups|) ==> (IsSatisfied(r, idx) <==> Satisfied(groups, r.cosigners, idx))
    ensures forall idx :: idx in missing <==> (idx in ids && Refers(idx, |r.cosigners|, |groups|) && !Satisfied(groups, r.cosigners, idx))
  {
    hide Satisfied, Layered, IsSatisfied;
    missing := [];
    for k := 0 to |ids|
      invariant forall idx :: idx in missing <==>
        (idx in ids[..k] && Refers(idx, |r.cosigners|, |groups|) && !Satisfied(groups, r.cosigners, idx))
    {
      assert ids[..k + 1] == ids[..k] + [ids[k]];
      if !IsSatisfied(r, ids[k]) { missing := missing + [ids[k]]; }
    }
    assert ids[..|ids|] == ids;
  }

  /** A requirement on a certificate of this CA that the valid cosigners do not meet. */
  ghost predicate IsMissing(p: State, ca: TrustedCA, valid: seq<bool>, idx: PolicyIndex) {
    && Layered(p.groups, |valid|) && Refers(idx, |valid|, |p.groups|)
    && (idx == PolicyIndex(false, ca.cosignerIndex) || idx in ca.requirements || idx in p.requirementsForAllCAs)
    && !Satisfied(p.groups, valid, idx)
  }

  /** The quorum evaluation and the list of what is missing. */
  method CheckPolicy(p: State, ca: TrustedCA, valid: seq<bool>) returns (missing: seq<PolicyIndex>)
    requires |valid| == |p.cosigners| && Layered(p.groups, |valid|) && ca.cosignerIndex < |valid|
    requires AllRefer(ca.requirements, |valid|, |p.groups|) && AllRefer(p.requirementsForAllCAs, |valid|, |p.groups|)
    ensures |missing| == 0 <==> PolicyHolds(p, ca, valid)
    ensures forall idx :: idx in missing <==> IsMissing(p, ca, valid, idx)
  {
    hide Satisfied, Layered;
    var r := EvaluateGroups(p.groups, valid);
    var own := PolicyIndex(false, ca.cosignerIndex);
    var fromOwn := Unsatisfied(r, p.groups, [own]);
    var fromCA := Unsatisfied(r, p.groups, ca.requirements);
    var fromAll := Unsatisfied(r, p.groups, p.requirementsForAllCAs);
    missing := fromOwn + fromCA + fromAll;
    NoneMissing(p.groups, valid, [own], fromOwn);
    NoneMissing(p.groups, valid, ca.requirements, fromCA);
    NoneMissing(p.groups, valid, p.requirementsForAllCAs, fromAll);
    assert [own][0] == own;
  }

  lemma {:induction false} NoneMissing(groups: seq<PolicyGroup>, valid: seq<bool>, ids: seq<PolicyIndex>, missing: seq<PolicyIndex>)
    requires Layered(groups, |valid|) && AllRefer(ids, |valid|, |groups|)
    requires forall idx :: idx in missing <==> (idx in ids && Refers(idx, |valid|, |groups|) && !Satisfied(groups, valid, idx))
    ensures |missing| == 0 <==> forall k :: 0 <= k < |ids| ==> Satisfied(groups, valid, ids[k])
  {
    hide Satisfied, Layered;
    if |missing| != 0 {
      assert missing[0] in missing;
      var k :| 0 <= k < |ids| && ids[k] == missing[0];
      assert !Satisfied(groups, valid, ids[k]);
    } else {
      forall k | 0 <= k < |ids| ensures Satisfied(groups, valid, ids[k]) {
        assert Refers(ids[k], |valid|, |groups|);
        assert ids[k] !in missing;
      }
    }
  }

  /** Which cosigners have signed, in the order of the policy. */
  ghost function Signers(p: State, logId: Bytes, start: nat, end: nat, hash: HashValue, sigs: seq<Cosignature>): (v: seq<bool>)
    ensures |v| == |p.cosigners|
  {
    seq(|p.cosigners|, i requires 0 <= i < |p.cosigners| => HasSigned(p.cosigners[i], logId, start, end, hash, sigs))
  }

  lemma {:induction false} ValidAreSigners(p: State, logId: Bytes, start: uint64, end: uint64, hash: HashValue, sigs: seq<Cosignature>)
    requires WellFormed(p)
    ensures ValidCosigners(p, logId, start, end, hash, sigs) == Signers(p, logId, start, end, hash, sigs)
  {
    hide IsCosigned, HasSigned, WellFormed;
    forall i | 0 <= i < |p.cosigners|
      ensures IsCosigned(p, i, logId, start, end, hash, sigs) <==> HasSigned(p.cosigners[i], logId, start, end, hash, sigs)
    {
      CountsIffSigned(p, i, logId, start, end, hash, sigs);
    }
  }

  /** The result says whether a trusted subtree decided; if not, it lists exactly the
      requirements that those who have signed do not meet. */
  ghost predicate IsResultFor(p: State, claim: Claim, r: VerifyResult) {
    && (r.trustedSubtree <==> FindTrusted(claim.ca.trustedSubtrees, claim.log, claim.proof.start, claim.proof.end).Some?)
    && (r.trustedSubtree ==> r.unsatisfied == [])
    && (!r.trustedSubtree ==> forall idx :: idx in r.unsatisfied <==>
         IsMissing(p, claim.ca, Signers(p, claim.logId, claim.proof.start, claim.proof.end, claim.hash, claim.proof.signatures), idx))
  }

  /** VerifyMTCProof. The result is absent when the demo returns none; it names what
      is missing when the policy is not satisfied. */
  method VerifyMTCProof(sha256: Bytes -> HashValue, version: DraftVersion, cert: X509, policy: Policy)
    returns (accepted: bool, result: Option<VerifyResult>)
    requires WellFormed(policy.Value())
    ensures accepted == Accepted(sha256, version, cert, policy.Value())
    ensures accepted ==> result.Some? && |result.value.unsatisfied| == 0
    ensures result.Some? && !accepted ==> !result.value.trustedSubtree && |result.value.unsatisfied| != 0
    ensures result.Some? ==>
      && Checked(sha256, version, cert, policy.Value()).Some?
      && IsResultFor(policy.Value(), Checked(sha256, version, cert, policy.Value()).value, result.value)
  {
    hide IsMissing, Signers, WellFormed, CaIdFromName, IdText, SignatureBytes, ParseProof, SigAlg, EntryFeed, ClaimOf, FindTrusted, ValidCosigners, PolicyHolds, Layered, AllRefer, IsCAOf;
    ghost var p := policy.Value();
    var caId := CaIdFromName(version, cert.rawIssuer);
    if caId.None? { return false, None; }
    if IdText(caId.value) !in policy.cas { return false, None; }
    var ca := policy.cas[IdText(caId.value)];

    if Some(cert.rawSigAlg) != SigAlg(version) { return false, None; }
    var sig := SignatureBytes(cert.raw);
    if sig.None? { return false, None; }
    var proof := ParseMTCProof(version, sig.value);
    if proof.None? { return false, None; }
    ParsedIsEncoded(version, sig.value);

    var fed := HashEntry(sha256, version, proof.value.extsRaw, cert.rawTbs, cert.rawKey);
    if fed.None? { return false, None; }
    FedSerialFits(sha256, version, proof.value.extsRaw, cert.rawTbs, cert.rawKey);
    var claim := CheckClaim(sha256, caId.value, ca, proof.value, fed.value);
    if claim.None? { return false, None; }
    CheckedFacts(sha256, version, cert, p);
    ClaimKeeps(sha256, caId.value, ca, proof.value, fed.value);
    CARefers(p, ca);

    var expected := FindTrustedSubtree(ca, claim.value.log, proof.value.start, proof.value.end);
    if expected.Some? {
      if expected.value != claim.value.hash { return false, None; }
      return true, Some(VerifyResult(true, []));
    }
    var state := State(policy.names, policy.cosigners, policy.groups, policy.requirementsForAllCAs, policy.cas);
    var valid := CheckCosignatures(state, claim.value);
    var missing := CheckPolicy(state, ca, valid);
    ValidAreSigners(p, claim.value.logId, proof.value.start, proof.value.end, claim.value.hash, proof.value.signatures);
    accepted, result := |missing| == 0, Some(VerifyResult(false, missing));
  }

  lemma {:induction false} ClaimKeeps(sha256: Bytes -> HashValue, caId: Bytes, ca: TrustedCA, proof: MtcProof, fed: Fed)
    requires ClaimOf(sha256, caId, ca, proof, fed).Some?
    ensures ClaimOf(sha256, caId, ca, proof, fed).value.proof == proof
    ensures ClaimOf(sha256, caId, ca, proof, fed).value.ca == ca
  {
    hide Evaluation, And, Shr, LogIdOf, Sha256Hasher, IsRevoked;
  }

  // ----- What acceptance says about signatures -----

  /** A certificate that is checked is accepted exactly when its trusted subtree has its
      hash or, with none trusted there, those who have signed satisfy the policy. */
  lemma {:induction false} AcceptedIffSigned(sha256: Bytes -> HashValue, version: DraftVersion, cert: X509, p: State)
    requires WellFormed(p) && Checked(sha256, version, cert, p).Some?
    ensures var claim := Checked(sha256, version, cert, p).value;
      IsCAOf(p, claim.ca) && (CARefers(p, claim.ca);
      Accepted(sha256, version, cert, p) <==>
        match FindTrusted(claim.ca.trustedSubtrees, claim.log, claim.proof.start, claim.proof.end)
        case Some(expected) => expected == claim.hash
        case None => PolicyHolds(p, claim.ca,
          Signers(p, claim.logId, claim.proof.start, claim.proof.end, claim.hash, claim.proof.signatures)))
  {
    hide Checked, WellFormed, PolicyHolds, ValidCosigners, Signers, FindTrusted, Layered, AllRefer, IsCAOf;
    var claim := Checked(sha256, version, cert, p).value;
    CheckedFacts(sha256, version, cert, p);
    CARefers(p, claim.ca);
    ValidAreSigners(p, claim.logId, claim.proof.start, claim.proof.end, claim.hash, claim.proof.signatures);
  }

  /** Authenticity: without a trusted subtree at its position, an accepted certificate
      holds a signature of the CA's own cosigner, under that cosigner's ID, which
      verifies on the draft's message for the log, the subtree and its hash. */
  lemma {:induction false} AcceptedIsSignedByCA(sha256: Bytes -> HashValue, version: DraftVersion, cert: X509, p: State, claim: Claim)
    returns (i: nat, k: nat, m: Bytes)
    requires WellFormed(p) && Accepted(sha256, version, cert, p)
    requires Checked(sha256, version, cert, p) == Some(claim)
    requires FindTrusted(claim.ca.trustedSubtrees, claim.log, claim.proof.start, claim.proof.end).None?
    ensures i == claim.ca.cosignerIndex && i < |p.cosigners| && k < |claim.proof.signatures|
    ensures CaIdFromName(version, cert.rawIssuer) == Some(p.cosigners[i].id)
    ensures claim.proof.signatures[k].id == p.cosigners[i].id
    ensures IsSubtree(claim.proof.start, claim.proof.end)
    ensures ReadMessage(m) == Some(Message(
      DraftOrigin(p.cosigners[i].id), 0, DraftOrigin(claim.logId), claim.proof.start, claim.proof.end, claim.hash))
    ensures p.cosigners[i].verify(m, claim.proof.signatures[k].signature)
  {
    hide *;
    CAHasSigned(sha256, version, cert, p, claim);
    OwnCosigner(sha256, version, cert, p, claim);
    i := claim.ca.cosignerIndex;
    k, m := SignatureOf(p.cosigners[i], claim.logId, claim.proof.start, claim.proof.end, claim.hash, claim.proof.signatures);
  }

  lemma {:induction false} SignatureOf(c: CosignerPublic, logId: Bytes, start: nat, end: nat, hash: HashValue, sigs: seq<Cosignature>)
    returns (k: nat, m: Bytes)
    requires HasSigned(c, logId, start, end, hash, sigs)
    ensures k < |sigs| && sigs[k].id == c.id && IsSubtree(start, end)
    ensures ReadMessage(m) == Some(Message(
      DraftOrigin(c.id), 0, DraftOrigin(logId), start, end, hash))
    ensures c.verify(m, sigs[k].signature)
  {
    hide ReadMessage, IsSubtree, DraftOrigin;
    k, m :| 0 <= k < |sigs| && sigs[k].id == c.id && IsSubtreeMessage(m, c.id, logId, start, end, hash) && c.verify(m, sigs[k].signature);
  }

  lemma {:induction false} CAHasSigned(sha256: Bytes -> HashValue, version: DraftVersion, cert: X509, p: State, claim: Claim)
    requires WellFormed(p) && Accepted(sha256, version, cert, p)
    requires Checked(sha256, version, cert, p) == Some(claim)
    requires FindTrusted(claim.ca.trustedSubtrees, claim.log, claim.proof.start, claim.proof.end).None?
    ensures claim.ca.cosignerIndex < |p.cosigners|
    ensures HasSigned(p.cosigners[claim.ca.cosignerIndex], claim.logId, claim.proof.start, claim.proof.end, claim.hash, claim.proof.signatures)
  {
    hide Checked, WellFormed, FindTrusted, Layered, AllRefer, IsCAOf, Accepted, HasSigned;
    AcceptedIffSigned(sha256, version, cert, p);
    CARefers(p, claim.ca);
  }

  /** The CA of a claim is the issuer's, and its cosigner bears the issuer's ID. */
  lemma {:induction false} OwnCosigner(sha256: Bytes -> HashValue, version: DraftVersion, cert: X509, p: State, claim: Claim)
    requires WellFormed(p) && Checked(sha256, version, cert, p) == Some(claim)
    ensures claim.ca.cosignerIndex < |p.cosigners|
    ensures CaIdFromName(version, cert.rawIssuer) == Some(p.cosigners[claim.ca.cosignerIndex].id)
  {
    hide CaIdFromName, IdText, ProofOf, EntryFeed, Layered, AllRefer, Evaluation, IsRevoked, And, Shr, LogIdOf, Sha256Hasher;
    var id := CaIdFromName(version, cert.rawIssuer).value;
    assert GoodCA(p, IdText(id));
    IdTextInjective(p.cosigners[p.cas[IdText(id)].cosignerIndex].id, id);
  }

  // ----- From issuance to verification -----

  /** The certificate that was created parses into the parts it was made of. */
  lemma {:induction false} BuiltParses(version: DraftVersion, issuer: Bytes, serial: uint64, entry: EntryConfig, proof: Bytes, raw: Bytes)
    returns (cert: X509)
    requires CertificateOf(version, TbsCertificate(version, issuer, serial, entry), Some(proof)) == Some(raw)
    requires |raw| < 0x1_0000_0000 && IsDerEntry(entry) && IsElement(entry.publicKey, SEQUENCE)
    ensures ParseCertificate(raw) == Some(cert)
    ensures Some(cert.rawSigAlg) == SigAlg(version)
    ensures Some(cert.rawIssuer) == X509Name(version, issuer) && |cert.rawIssuer| < |raw|
    ensures cert.raw == raw && cert.rawKey == entry.publicKey
    ensures SignatureBytes(raw) == Some(proof)
    ensures TbsContent(version, issuer, serial, entry).Some?
    ensures |TbsContent(version, issuer, serial, entry).value| < |raw|
    ensures IsElementOf(cert.rawTbs, SEQUENCE, TbsContent(version, issuer, serial, entry).value)
  {
    hide TbsContent, Element, IsElement, IsElementOf, SigAlg, X509Name, ParseTbsFields, ReadTlv, ReadAsn1, ReadAsn1Element;
    var content := TbsContent(version, issuer, serial, entry).value;
    var tbs := TbsCertificate(version, issuer, serial, entry).value;
    var alg := SigAlg(version).value;
    var bits := [0x00] + proof;
    var sig := Element(BIT_STRING, bits).value;
    var tail := alg + sig;
    var inner := tbs + tail;
    ElementGrows(SEQUENCE, inner);
    ElementGrows(SEQUENCE, content);
    BuiltIsElement(SEQUENCE, inner);
    WholeElement(raw, SEQUENCE, inner);
    BuiltIsElement(SEQUENCE, content);
    ElementThenRest(tbs, SEQUENCE, content, tail);
    WholeElement(tbs, SEQUENCE, content);
    SigAlgIsElement(version);
    ElementOf(alg, SEQUENCE);
    ElementThenRest(alg, SEQUENCE, ReadTlv(alg).value.v.content, sig);
    BuiltIsElement(BIT_STRING, bits);
    WholeElement(sig, BIT_STRING, bits);
    FieldsOfBuilt(version, issuer, serial, entry);
    assert bits[1..] == proof;
    NameFits(version, issuer, serial, entry);
    cert := X509(raw, tbs, X509Name(version, issuer).value, alg, entry.publicKey);
  }

  lemma {:induction false} NameFits(version: DraftVersion, issuer: Bytes, serial: uint64, entry: EntryConfig)
    requires TbsContent(version, issuer, serial, entry).Some?
    ensures X509Name(version, issuer).Some?
    ensures |X509Name(version, issuer).value| <= |TbsContent(version, issuer, serial, entry).value|
  {
    hide Element, SigAlg, X509Name, IntegerContent;
  }

  /** Order does not matter to who has cosigned. */
  lemma {:induction false} CosignedUnordered(p: State, i: nat, logId: Bytes, start: uint64, end: uint64, hash: HashValue,
      a: seq<Cosignature>, b: seq<Cosignature>)
    requires i < |p.cosigners| && multiset(a) == multiset(b)
    requires IsCosigned(p, i, logId, start, end, hash, a)
    ensures IsCosigned(p, i, logId, start, end, hash, b)
  {
    hide Verifies, NamesCosigner;
    var k :| 0 <= k < |a| && NamesCosigner(p, a[k].id, i) && Verifies(p.cosigners[i], logId, start, end, hash, a[k].signature);
    assert a[k] in multiset(a);
    assert a[k] in b;
    var j :| 0 <= j < |b| && b[j] == a[k];
  }

  lemma {:induction false} ValidUnordered(p: State, logId: Bytes, start: uint64, end: uint64, hash: HashValue,
      a: seq<Cosignature>, b: seq<Cosignature>)
    requires multiset(a) == multiset(b)
    ensures ValidCosigners(p, logId, start, end, hash, a) == ValidCosigners(p, logId, start, end, hash, b)
  {
    hide IsCosigned;
    forall i | 0 <= i < |p.cosigners|
      ensures IsCosigned(p, i, logId, start, end, hash, a) <==> IsCosigned(p, i, logId, start, end, hash, b)
    {
      if IsCosigned(p, i, logId, start, end, hash, a) { CosignedUnordered(p, i, logId, start, end, hash, a, b); }
      if IsCosigned(p, i, logId, start, end, hash, b) { CosignedUnordered(p, i, logId, start, end, hash, b, a); }
    }
  }

  /** A certificate issued from the log D: its inputs and the bytes that came out. */
  ghost predicate IsIssued(sha256: Bytes -> HashValue, cfg: CAConfig, D: seq<Bytes>, cosigners: seq<Cosigner>, entry: EntryConfig,
      extra: seq<Cosignature>, index: uint64, start: uint64, end: uint64, raw: Bytes)
  {
    && Created(sha256, cfg, D, cosigners, entry, extra, index, start, end) == Some(raw)
    && |raw| < 0x1_0000_0000
    && IsDerEntry(entry)
    && index < |D| && LogEntry(sha256, cfg.version, cfg.id, entry) == Some(D[index])
    && 1 <= cfg.logNumber
    && end < 0x1_0000_0000_0000
    && (cfg.version.Plants06? || cfg.version.Plants07? || IsId(cfg.id))
  }

  /** All cosignatures of an issued certificate, in the order they were collected. */
  ghost function CosignaturesOf(sha256: Bytes -> HashValue, cfg: CAConfig, D: seq<Bytes>, cosigners: seq<Cosigner>,
      extra: seq<Cosignature>, start: uint64, end: uint64): seq<Cosignature>
    requires start <= end <= |D|
  {
    var sigs := Signed(cosigners, LogIdOf(cfg.id, cfg.logNumber), start, end, Mth(Sha256Hasher(sha256), D, start, end));
    if sigs.Some? then extra + sigs.value else extra
  }

  lemma {:induction false} IssuedParts(sha256: Bytes -> HashValue, cfg: CAConfig, D: seq<Bytes>, cosigners: seq<Cosigner>, entry: EntryConfig,
      extra: seq<Cosignature>, index: uint64, start: uint64, end: uint64, raw: Bytes) returns (proof: Bytes)
    requires IsIssued(sha256, cfg, D, cosigners, entry, extra, index, start, end, raw)
    ensures IsSubtree(start, end) && start <= index < end <= |D| && index < 0x1_0000_0000_0000
    ensures !entry.isNull
    ensures Some(proof) == EncodeProof(cfg.version, entry.mtcExtensions, start, end,
      Flatten(Path(Sha256Hasher(sha256), D, index, start, end)),
      SortCosignatures(CosignaturesOf(sha256, cfg, D, cosigners, extra, start, end)))
    ensures CertificateOf(cfg.version, TbsCertificate(cfg.version, cfg.id, Serial(index, cfg.logNumber), entry), Some(proof)) == Some(raw)
  {
    hide Path, Mth, Flatten, Signed, TbsCertificate, EncodeProof, SortCosignatures, Serial, Low, CeilLog, LogEntry, LogIdOf, IsDerEntry, Element, SigAlg;
    var h := Sha256Hasher(sha256);
    var sigs := Signed(cosigners, LogIdOf(cfg.id, cfg.logNumber), start, end, Mth(h, D, start, end)).value;
    proof := EncodeProof(cfg.version, entry.mtcExtensions, start, end, Flatten(Path(h, D, index, start, end)),
      SortCosignatures(extra + sigs)).value;
  }

  /** The verifier reads the issued proof back, if the entry's extensions are a
      well-formed list and the cosignatures could be brought into canonical order. */
  lemma {:induction false} IssuedProof(version: DraftVersion, extsRaw: Bytes, start: uint64, end: uint64, inclusion: Bytes,
      sigs: seq<Cosignature>, proof: Bytes)
    requires start <= end < 0x1_0000_0000_0000
    requires EncodeProof(version, extsRaw, start, end, inclusion, sigs) == Some(proof)
    ensures ParseProof(version, proof) ==
      if ParseExtensions(extsRaw, -1).Some? && Canonical(sigs, None) then
        Some(MtcProof(extsRaw, ParseExtensions(extsRaw, -1).value, start, end, inclusion, sigs))
      else None
  {
    hide EncodeProof, ParseProof, ParseExtensions, Canonical, Value, BigEndian;
    ParseOfEncoded(version, extsRaw, start, end, inclusion, sigs);
    Widths();
    FitsIffExact(start, 6);
    FitsIffExact(end, 6);
  }

  /** The one pass over the issued certificate feeds the entry that is in the log. */
  lemma {:induction false} IssuedFeed(sha256: Bytes -> HashValue, cfg: CAConfig, serial: uint64, entry: EntryConfig, tbs: Bytes)
    requires TbsContent(cfg.version, cfg.id, serial, entry).Some?
    requires |TbsContent(cfg.version, cfg.id, serial, entry).value| < 0x1_0000_0000
    requires IsElementOf(tbs, SEQUENCE, TbsContent(cfg.version, cfg.id, serial, entry).value)
    requires IsDerEntry(entry) && !entry.isNull && LogEntry(sha256, cfg.version, cfg.id, entry).Some?
    ensures EntryFeed(sha256, cfg.version, entry.mtcExtensions, tbs, entry.publicKey)
      == Some(Fed([0x00] + LogEntry(sha256, cfg.version, cfg.id, entry).value, serial))
  {
    hide TbsContent, LogEntry, IsElementOf, IsDerEntry, FeedContent, ReadAsn1, FeedStart;
    WholeElement(tbs, SEQUENCE, TbsContent(cfg.version, cfg.id, serial, entry).value);
    FeedOfBuilt(sha256, cfg.version, cfg.id, serial, entry);
  }

  lemma {:induction false} LeafOfFed(sha256: Bytes -> HashValue, entry: Bytes)
    ensures Sha256Hasher(sha256).leaf(entry) == sha256([0x00] + entry)
  {
  }

  /** The claim of an issued certificate is the truth about the log. */
  lemma {:induction false} IssuedClaim(sha256: Bytes -> HashValue, cfg: CAConfig, D: seq<Bytes>, index: uint64, ca: TrustedCA, proof: MtcProof)
    requires IsSubtree(proof.start, proof.end) && proof.start <= index < proof.end <= |D|
    requires index < 0x1_0000_0000_0000 && 1 <= cfg.logNumber
    requires proof.inclusionProof == Flatten(Path(Sha256Hasher(sha256), D, index, proof.start, proof.end))
    ensures ClaimOf(sha256, cfg.id, ca, proof, Fed([0x00] + D[index], Serial(index, cfg.logNumber))) ==
      if IsRevoked(ca.revokedRanges, Serial(index, cfg.logNumber)) then None
      else Some(Claim(ca, LogIdOf(cfg.id, cfg.logNumber), cfg.logNumber, proof,
        Mth(Sha256Hasher(sha256), D, proof.start, proof.end), Serial(index, cfg.logNumber), [0x00] + D[index]))
  {
    hide *;
    var serial, h := Serial(index, cfg.logNumber), Sha256Hasher(sha256);
    SerialParts(index, cfg.logNumber);
    LeafOfFed(sha256, D[index]);
    InclusionRoundTrip(h, D, index, proof.start, proof.end);
    ClaimFrom(sha256, cfg.id, ca, proof, Fed([0x00] + D[index], serial), index, cfg.logNumber, Mth(h, D, proof.start, proof.end));
  }

  lemma {:induction false} ClaimFrom(sha256: Bytes -> HashValue, caId: Bytes, ca: TrustedCA, proof: MtcProof, fed: Fed,
      index: nat, log: uint16, hash: HashValue)
    requires And(fed.serial, 0xFFFF_FFFF_FFFF) == index && Shr(fed.serial, 48) == log && log != 0
    requires Evaluation(Sha256Hasher(sha256), index, proof.start, proof.end, sha256(fed.bytes), proof.inclusionProof) == Ok(hash)
    ensures ClaimOf(sha256, caId, ca, proof, fed) ==
      if IsRevoked(ca.revokedRanges, fed.serial) then None
      else Some(Claim(ca, LogIdOf(caId, log), log, proof, hash, fed.serial, fed.bytes))
  {
    hide Evaluation, And, Shr, LogIdOf, IsRevoked, Sha256Hasher;
  }

  lemma {:induction false} CheckedFrom(sha256: Bytes -> HashValue, version: DraftVersion, cert: X509, p: State, caId: Bytes, sig: Bytes)
    requires CaIdFromName(version, cert.rawIssuer) == Some(caId) && IdText(caId) in p.cas
    requires Some(cert.rawSigAlg) == SigAlg(version) && SignatureBytes(cert.raw) == Some(sig)
    ensures Checked(sha256, version, cert, p) ==
      match ParseProof(version, sig)
      case None => None
      case Some(proof) =>
        match EntryFeed(sha256, version, proof.extsRaw, cert.rawTbs, cert.rawKey)
        case None => None
        case Some(fed) => ClaimOf(sha256, caId, p.cas[IdText(caId)], proof, fed)
  {
    hide CaIdFromName, IdText, SignatureBytes, SigAlg, ParseProof, EntryFeed, ClaimOf;
  }

  lemma {:induction false} IssuedConfig(sha256: Bytes -> HashValue, cfg: CAConfig, D: seq<Bytes>, cosigners: seq<Cosigner>, entry: EntryConfig,
      extra: seq<Cosignature>, index: uint64, start: uint64, end: uint64, raw: Bytes)
    requires IsIssued(sha256, cfg, D, cosigners, entry, extra, index, start, end, raw)
    ensures |raw| < 0x1_0000_0000 && IsDerEntry(entry)
    ensures index < |D| && LogEntry(sha256, cfg.version, cfg.id, entry) == Some(D[index])
    ensures 1 <= cfg.logNumber && end < 0x1_0000_0000_0000
    ensures cfg.version.Plants06? || cfg.version.Plants07? || IsId(cfg.id)
  {
    hide Created, LogEntry, IsDerEntry, IsId;
  }

  /** What the verifier works out from an issued certificate before it looks at the
      cosignatures: the entry that is in the log and the hash of its subtree. */
  lemma {:induction false} IssuedIsChecked(sha256: Bytes -> HashValue, cfg: CAConfig, D: seq<Bytes>, cosigners: seq<Cosigner>, entry: EntryConfig,
      extra: seq<Cosignature>, index: uint64, start: uint64, end: uint64, raw: Bytes, p: State) returns (cert: X509)
    requires IsIssued(sha256, cfg, D, cosigners, entry, extra, index, start, end, raw)
    requires IdText(cfg.id) in p.cas
    ensures start <= index < end <= |D|
    ensures ParseCertificate(raw) == Some(cert)
    ensures var ca := p.cas[IdText(cfg.id)];
      var serial := index + cfg.logNumber * 0x1_0000_0000_0000;
      var sigs := SortCosignatures(CosignaturesOf(sha256, cfg, D, cosigners, extra, start, end));
      Checked(sha256, cfg.version, cert, p) ==
        if ParseExtensions(entry.mtcExtensions, -1).Some? && Canonical(sigs, None) && !IsRevoked(ca.revokedRanges, serial) then
          Some(Claim(ca, LogIdOf(cfg.id, cfg.logNumber), cfg.logNumber,
            MtcProof(entry.mtcExtensions, ParseExtensions(entry.mtcExtensions, -1).value, start, end,
              Flatten(Path(Sha256Hasher(sha256), D, index, start, end)), sigs),
            Mth(Sha256Hasher(sha256), D, start, end), serial, [0x00] + D[index]))
        else None
  {
    hide *;
    IssuedConfig(sha256, cfg, D, cosigners, entry, extra, index, start, end, raw);
    var proof := IssuedParts(sha256, cfg, D, cosigners, entry, extra, index, start, end, raw);
    SerialParts(index, cfg.logNumber);
    var serial := Serial(index, cfg.logNumber);
    KeyAlgorithmReads(sha256, cfg.version, cfg.id, entry);
    cert := BuiltParses(cfg.version, cfg.id, serial, entry, proof, raw);
    NameRoundTrip(cfg.version, cfg.id);
    CheckedFrom(sha256, cfg.version, cert, p, cfg.id, proof);
    var inclusion := Flatten(Path(Sha256Hasher(sha256), D, index, start, end));
    var sigs := SortCosignatures(CosignaturesOf(sha256, cfg, D, cosigners, extra, start, end));
    IssuedProof(cfg.version, entry.mtcExtensions, start, end, inclusion, sigs, proof);
    IssuedFeed(sha256, cfg, serial, entry, cert.rawTbs);
    if ParseProof(cfg.version, proof).Some? {
      IssuedClaim(sha256, cfg, D, index, p.cas[IdText(cfg.id)], ParseProof(cfg.version, proof).value);
    }
  }

  /** The same of the cosignatures as they were collected. */
  lemma {:induction false} IssuedDecision(sha256: Bytes -> HashValue, cfg: CAConfig, D: seq<Bytes>, cosigners: seq<Cosigner>, entry: EntryConfig,
      extra: seq<Cosignature>, index: uint64, start: uint64, end: uint64, raw: Bytes, p: State)
    requires IsIssued(sha256, cfg, D, cosigners, entry, extra, index, start, end, raw)
    requires WellFormed(p) && IdText(cfg.id) in p.cas
    ensures start <= end <= |D| && ParseCertificate(raw).Some?
    ensures var ca := p.cas[IdText(cfg.id)];
      var hash := Mth(Sha256Hasher(sha256), D, start, end);
      var sigs := CosignaturesOf(sha256, cfg, D, cosigners, extra, start, end);
      IsCAOf(p, ca) && (CARefers(p, ca);
      Accepted(sha256, cfg.version, ParseCertificate(raw).value, p) <==>
        (&& ParseExtensions(entry.mtcExtensions, -1).Some?
         && DistinctIds(sigs)
         && !IsRevoked(ca.revokedRanges, index + cfg.logNumber * 0x1_0000_0000_0000)
         && (match FindTrusted(ca.trustedSubtrees, cfg.logNumber, start, end)
             case Some(expected) => expected == hash
             case None => PolicyHolds(p, ca, ValidCosigners(p, LogIdOf(cfg.id, cfg.logNumber), start, end, hash, sigs)))))
  {
    hide IsIssued, ParseCertificate, Checked, Mth, CosignaturesOf, SortCosignatures, Canonical, DistinctIds, ParseExtensions,
      IsRevoked, FindTrusted, PolicyHolds, ValidCosigners, LogIdOf, Flatten, Path, WellFormed, IdText, Sha256Hasher;
    var cert := IssuedIsChecked(sha256, cfg, D, cosigners, entry, extra, index, start, end, raw, p);
    IssuedConfig(sha256, cfg, D, cosigners, entry, extra, index, start, end, raw);
    var ca := p.cas[IdText(cfg.id)];
    assert IdText(cfg.id) in p.cas;
    CARefers(p, ca);
    var hash := Mth(Sha256Hasher(sha256), D, start, end);
    var sigs := CosignaturesOf(sha256, cfg, D, cosigners, extra, start, end);
    SortIsCanonical(sigs);
    ValidUnordered(p, LogIdOf(cfg.id, cfg.logNumber), start, end, hash, SortCosignatures(sigs), sigs);
  }

  /** Cosigner c of the policy will count: a cosignature given as extra, or one that a
      cosigner of this ID makes, verifies on the draft's message. */
  ghost predicate WillCount(c: CosignerPublic, cosigners: seq<Cosigner>, extra: seq<Cosignature>,
      logId: Bytes, start: nat, end: nat, hash: HashValue)
  {
    exists m :: IsSubtreeMessage(m, c.id, logId, start, end, hash) &&
      (|| (exists k :: 0 <= k < |extra| && extra[k].id == c.id && c.verify(m, extra[k].signature))
       || (exists j :: 0 <= j < |cosigners| && cosigners[j].id == c.id
            && cosigners[j].sign(m).Some? && c.verify(m, cosigners[j].sign(m).value)))
  }

  ghost function Counting(p: State, cosigners: seq<Cosigner>, extra: seq<Cosignature>,
      logId: Bytes, start: nat, end: nat, hash: HashValue): (v: seq<bool>)
    ensures |v| == |p.cosigners|
  {
    seq(|p.cosigners|, i requires 0 <= i < |p.cosigners| => WillCount(p.cosigners[i], cosigners, extra, logId, start, end, hash))
  }

  /** There is only one message for a cosigner, log and subtree. */
  lemma {:induction false} OneMessage(m: Bytes, n: Bytes, id: Bytes, logId: Bytes, start: uint64, end: uint64, hash: HashValue)
    requires IsSubtreeMessage(m, id, logId, start, end, hash) && IsSubtreeMessage(n, id, logId, start, end, hash)
    ensures m == n
  {
    hide IsSubtreeMessage, CosignedMessage;
    MessageIsDrafts(id, logId, start, end, hash, m);
    MessageIsDrafts(id, logId, start, end, hash, n);
  }

  lemma {:induction false} SignedWillCount(c: CosignerPublic, cosigners: seq<Cosigner>, extra: seq<Cosignature>,
      logId: Bytes, start: uint64, end: uint64, hash: HashValue, sigs: seq<Cosignature>)
    requires AreCosignatures(cosigners, logId, start, end, hash, sigs)
    ensures HasSigned(c, logId, start, end, hash, extra + sigs) ==> WillCount(c, cosigners, extra, logId, start, end, hash)
  {
    hide IsSubtreeMessage;
    var all := extra + sigs;
    if k, m :| 0 <= k < |all| && all[k].id == c.id && IsSubtreeMessage(m, c.id, logId, start, end, hash) && c.verify(m, all[k].signature) {
      if k < |extra| {
        assert extra[k] == all[k];
      } else {
        var j := k - |extra|;
        assert sigs[j] == all[k] && Signs(cosigners[j], logId, start, end, hash, sigs[j].signature);
        var n :| IsSubtreeMessage(n, cosigners[j].id, logId, start, end, hash) && cosigners[j].sign(n) == Some(sigs[j].signature);
        OneMessage(m, n, c.id, logId, start, end, hash);
      }
    }
  }

  lemma {:induction false} WillCountSigned(c: CosignerPublic, cosigners: seq<Cosigner>, extra: seq<Cosignature>,
      logId: Bytes, start: uint64, end: uint64, hash: HashValue, sigs: seq<Cosignature>)
    requires AreCosignatures(cosigners, logId, start, end, hash, sigs)
    requires WillCount(c, cosigners, extra, logId, start, end, hash)
    ensures HasSigned(c, logId, start, end, hash, extra + sigs)
  {
    hide IsSubtreeMessage;
    var all := extra + sigs;
    var m :| IsSubtreeMessage(m, c.id, logId, start, end, hash) &&
      (|| (exists k :: 0 <= k < |extra| && extra[k].id == c.id && c.verify(m, extra[k].signature))
       || (exists j :: 0 <= j < |cosigners| && cosigners[j].id == c.id
            && cosigners[j].sign(m).Some? && c.verify(m, cosigners[j].sign(m).value)));
    if k :| 0 <= k < |extra| && extra[k].id == c.id && c.verify(m, extra[k].signature) {
      assert all[k] == extra[k];
    } else {
      var j :| 0 <= j < |cosigners| && cosigners[j].id == c.id && cosigners[j].sign(m).Some? && c.verify(m, cosigners[j].sign(m).value);
      assert all[|extra| + j] == sigs[j] && Signs(cosigners[j], logId, start, end, hash, sigs[j].signature);
      var n :| IsSubtreeMessage(n, cosigners[j].id, logId, start, end, hash) && cosigners[j].sign(n) == Some(sigs[j].signature);
      OneMessage(m, n, c.id, logId, start, end, hash);
    }
  }

  /** Who counts, and whether IDs repeat, from the inputs alone. */
  lemma {:induction false} CountedFromInputs(p: State, cosigners: seq<Cosigner>, extra: seq<Cosignature>,
      logId: Bytes, start: uint64, end: uint64, hash: HashValue, sigs: seq<Cosignature>)
    requires WellFormed(p) && Signed(cosigners, logId, start, end, hash) == Some(sigs)
    ensures ValidCosigners(p, logId, start, end, hash, extra + sigs) == Counting(p, cosigners, extra, logId, start, end, hash)
    ensures DistinctIds(extra + sigs) <==> AreDistinct(GivenIds(extra, cosigners))
  {
    hide WellFormed, ValidCosigners, HasSigned, WillCount, Signed, AreCosignatures, DistinctIds, AreDistinct, IdsOf, GivenIds;
    SignedIds(extra, cosigners, logId, start, end, hash);
    DistinctIdsAre(extra + sigs);
    CosignaturesAreSigned(cosigners, logId, start, end, hash, sigs);
    ValidAreSigners(p, logId, start, end, hash, extra + sigs);
    forall i | 0 <= i < |p.cosigners|
      ensures HasSigned(p.cosigners[i], logId, start, end, hash, extra + sigs)
        <==> WillCount(p.cosigners[i], cosigners, extra, logId, start, end, hash)
    {
      SignedWillCount(p.cosigners[i], cosigners, extra, logId, start, end, hash, sigs);
      if WillCount(p.cosigners[i], cosigners, extra, logId, start, end, hash) {
        WillCountSigned(p.cosigners[i], cosigners, extra, logId, start, end, hash, sigs);
      }
    }
  }

  /** End to end. An issued certificate is accepted exactly when: its extensions are a
      well-formed list, the IDs of the extra cosignatures and of the cosigners are
      distinct and not empty, its serial is not revoked, and either the verifier trusts
      a subtree at its position and that has the hash of the log's, or it trusts none
      there and the cosigners that will count satisfy the CA's cosigner and every
      requirement. */
  lemma {:induction false} IssuedIsAcceptedIff(sha256: Bytes -> HashValue, cfg: CAConfig, D: seq<Bytes>, cosigners: seq<Cosigner>, entry: EntryConfig,
      extra: seq<Cosignature>, index: uint64, start: uint64, end: uint64, raw: Bytes, p: State)
    requires IsIssued(sha256, cfg, D, cosigners, entry, extra, index, start, end, raw)
    requires WellFormed(p) && IdText(cfg.id) in p.cas
    ensures start <= end <= |D| && ParseCertificate(raw).Some?
    ensures var ca := p.cas[IdText(cfg.id)];
      var hash := Mth(Sha256Hasher(sha256), D, start, end);
      IsCAOf(p, ca) && (CARefers(p, ca);
      Accepted(sha256, cfg.version, ParseCertificate(raw).value, p) <==>
        (&& ParseExtensions(entry.mtcExtensions, -1).Some?
         && AreDistinct(GivenIds(extra, cosigners))
         && !IsRevoked(ca.revokedRanges, index + cfg.logNumber * 0x1_0000_0000_0000)
         && (match FindTrusted(ca.trustedSubtrees, cfg.logNumber, start, end)
             case Some(expected) => expected == hash
             case None => PolicyHolds(p, ca, Counting(p, cosigners, extra, LogIdOf(cfg.id, cfg.logNumber), start, end, hash)))))
  {
    hide *;
    IssuedDecision(sha256, cfg, D, cosigners, entry, extra, index, start, end, raw, p);
    CAIsIn(p, IdText(cfg.id));
    CARefers(p, p.cas[IdText(cfg.id)]);
    IssuedSigned(sha256, cfg, D, cosigners, entry, extra, index, start, end, raw);
    var logId, hash := LogIdOf(cfg.id, cfg.logNumber), Mth(Sha256Hasher(sha256), D, start, end);
    var sigs := Signed(cosigners, logId, start, end, hash).value;
    CollectedAre(sha256, cfg, D, cosigners, extra, start, end, sigs);
    CountedFromInputs(p, cosigners, extra, logId, start, end, hash, sigs);
  }

  lemma {:induction false} CAIsIn(p: State, key: Bytes)
    requires key in p.cas
    ensures IsCAOf(p, p.cas[key])
  {
  }

  lemma {:induction false} CollectedAre(sha256: Bytes -> HashValue, cfg: CAConfig, D: seq<Bytes>, cosigners: seq<Cosigner>,
      extra: seq<Cosignature>, start: uint64, end: uint64, sigs: seq<Cosignature>)
    requires start <= end <= |D|
    requires Signed(cosigners, LogIdOf(cfg.id, cfg.logNumber), start, end, Mth(Sha256Hasher(sha256), D, start, end)) == Some(sigs)
    ensures CosignaturesOf(sha256, cfg, D, cosigners, extra, start, end) == extra + sigs
  {
    hide Mth, Signed, LogIdOf, Sha256Hasher;
  }

  // ----- Cosigners that sign honestly count -----

  /** The usual assumption about a signature scheme: what this private side signs, that
      public side verifies. */
  ghost predicate KeysMatch(c: Cosigner, k: CosignerPublic) {
    c.id == k.id && forall m, s :: c.sign(m) == Some(s) ==> k.verify(m, s)
  }

  lemma {:induction false} SignedIsValid(sha256: Bytes -> HashValue, cfg: CAConfig, D: seq<Bytes>, cosigners: seq<Cosigner>,
      extra: seq<Cosignature>, start: uint64, end: uint64, p: State, i: nat, j: nat)
    requires WellFormed(p) && i < |p.cosigners| && j < |cosigners| && start <= end <= |D|
    requires Signed(cosigners, LogIdOf(cfg.id, cfg.logNumber), start, end, Mth(Sha256Hasher(sha256), D, start, end)).Some?
    requires KeysMatch(cosigners[j], p.cosigners[i])
    ensures IsCosigned(p, i, LogIdOf(cfg.id, cfg.logNumber), start, end, Mth(Sha256Hasher(sha256), D, start, end),
      CosignaturesOf(sha256, cfg, D, cosigners, extra, start, end))
  {
    hide Mth, LogIdOf, Signed, CosignedMessage, IdText, Layered, AllRefer, GoodCA, Sha256Hasher;
    var logId, hash := LogIdOf(cfg.id, cfg.logNumber), Mth(Sha256Hasher(sha256), D, start, end);
    var sigs := CosignaturesOf(sha256, cfg, D, cosigners, extra, start, end);
    SignedHas(cosigners, j, logId, start, end, hash);
    var sig := Cosignature(cosigners[j].id, Sign(cosigners[j], logId, start, end, hash).value);
    assert sig in sigs;
    var k :| 0 <= k < |sigs| && sigs[k] == sig;
    assert IsNamed(p, i);
    assert NamesCosigner(p, sigs[k].id, i);
    assert Verifies(p.cosigners[i], logId, start, end, hash, sigs[k].signature);
  }

  lemma {:induction false} HonestWillCount(c: CosignerPublic, cosigners: seq<Cosigner>, j: nat, extra: seq<Cosignature>,
      logId: Bytes, start: uint64, end: uint64, hash: HashValue)
    requires j < |cosigners| && KeysMatch(cosigners[j], c)
    requires Signed(cosigners, logId, start, end, hash).Some?
    ensures WillCount(c, cosigners, extra, logId, start, end, hash)
  {
    hide IsSubtreeMessage, Signed, CannotSign;
    SignedIs(cosigners, logId, start, end, hash);
    var s := Signed(cosigners, logId, start, end, hash).value[j].signature;
    assert Signs(cosigners[j], logId, start, end, hash, s);
    var m :| IsSubtreeMessage(m, cosigners[j].id, logId, start, end, hash) && cosigners[j].sign(m) == Some(s);
    assert c.verify(m, s);
  }

  /** If cosigners that really signed satisfy the policy, the certificate is accepted:
      whatever else is in the list of cosignatures cannot spoil it. */
  lemma {:induction false} HonestQuorumIsAccepted(sha256: Bytes -> HashValue, cfg: CAConfig, D: seq<Bytes>, cosigners: seq<Cosigner>, entry: EntryConfig,
      extra: seq<Cosignature>, index: uint64, start: uint64, end: uint64, raw: Bytes, p: State, honest: seq<bool>)
    requires IsIssued(sha256, cfg, D, cosigners, entry, extra, index, start, end, raw)
    requires WellFormed(p) && IdText(cfg.id) in p.cas && |honest| == |p.cosigners|
    requires forall i :: 0 <= i < |honest| && honest[i] ==> exists j :: 0 <= j < |cosigners| && KeysMatch(cosigners[j], p.cosigners[i])
    requires ParseExtensions(entry.mtcExtensions, -1).Some?
    requires AreDistinct(GivenIds(extra, cosigners))
    requires !IsRevoked(p.cas[IdText(cfg.id)].revokedRanges, index + cfg.logNumber * 0x1_0000_0000_0000)
    requires FindTrusted(p.cas[IdText(cfg.id)].trustedSubtrees, cfg.logNumber, start, end).None?
    requires IsCAOf(p, p.cas[IdText(cfg.id)]) && (CARefers(p, p.cas[IdText(cfg.id)]); PolicyHolds(p, p.cas[IdText(cfg.id)], honest))
    ensures ParseCertificate(raw).Some?
    ensures Accepted(sha256, cfg.version, ParseCertificate(raw).value, p)
  {
    hide *;
    var ca := p.cas[IdText(cfg.id)];
    IssuedIsAcceptedIff(sha256, cfg, D, cosigners, entry, extra, index, start, end, raw, p);
    IssuedSigned(sha256, cfg, D, cosigners, entry, extra, index, start, end, raw);
    CARefers(p, ca);
    var logId, hash := LogIdOf(cfg.id, cfg.logNumber), Mth(Sha256Hasher(sha256), D, start, end);
    HonestCount(p, cosigners, extra, logId, start, end, hash, honest);
    MoreHolds(p, ca, honest, Counting(p, cosigners, extra, logId, start, end, hash));
  }

  lemma {:induction false} HonestCount(p: State, cosigners: seq<Cosigner>, extra: seq<Cosignature>,
      logId: Bytes, start: uint64, end: uint64, hash: HashValue, honest: seq<bool>)
    requires |honest| == |p.cosigners| && Signed(cosigners, logId, start, end, hash).Some?
    requires forall i :: 0 <= i < |honest| && honest[i] ==> exists j :: 0 <= j < |cosigners| && KeysMatch(cosigners[j], p.cosigners[i])
    ensures forall i :: 0 <= i < |honest| && honest[i] ==> Counting(p, cosigners, extra, logId, start, end, hash)[i]
  {
    hide WillCount, Signed, KeysMatch;
    forall i | 0 <= i < |honest| && honest[i] ensures WillCount(p.cosigners[i], cosigners, extra, logId, start, end, hash) {
      var j :| 0 <= j < |cosigners| && KeysMatch(cosigners[j], p.cosigners[i]);
      HonestWillCount(p.cosigners[i], cosigners, j, extra, logId, start, end, hash);
    }
  }

  lemma {:induction false} IssuedSigned(sha256: Bytes -> HashValue, cfg: CAConfig, D: seq<Bytes>, cosigners: seq<Cosigner>, entry: EntryConfig,
      extra: seq<Cosignature>, index: uint64, start: uint64, end: uint64, raw: Bytes)
    requires IsIssued(sha256, cfg, D, cosigners, entry, extra, index, start, end, raw)
    requires start <= end <= |D|
    ensures Signed(cosigners, LogIdOf(cfg.id, cfg.logNumber), start, end, Mth(Sha256Hasher(sha256), D, start, end)).Some?
  {
    hide Mth, Signed, LogIdOf, Sha256Hasher, CertificateOf, LogEntry, IsDerEntry, Path, Flatten, EncodeProof;
  }

  lemma {:induction false} MoreHolds(p: State, ca: TrustedCA, fewer: seq<bool>, more: seq<bool>)
    requires |fewer| == |more| == |p.cosigners| && (forall i :: 0 <= i < |fewer| && fewer[i] ==> more[i])
    requires Layered(p.groups, |p.cosigners|) && ca.cosignerIndex < |p.cosigners|
    requires AllRefer(ca.requirements, |p.cosigners|, |p.groups|) && AllRefer(p.requirementsForAllCAs, |p.cosigners|, |p.groups|)
    ensures PolicyHolds(p, ca, fewer) ==> PolicyHolds(p, ca, more)
  {
    hide Satisfied, Layered;
    forall idx | Refers(idx, |p.cosigners|, |p.groups|)
      ensures Satisfied(p.groups, fewer, idx) ==> Satisfied(p.groups, more, idx)
    {
      SatisfiedIsMonotone(p.groups, fewer, more, idx);
    }
  }

  // ----- What an accepted claim says about the log -----

  /** An explicit collision between a claim and a log D: of SHA-256 on the bytes fed for
      the certificate and those of the entry at its index, or of the node hash between
      the evaluation and the tree's own path. */
  ghost predicate ClaimCollides(sha256: Bytes -> HashValue, claim: Claim, D: seq<Bytes>, index: nat)
    requires claim.proof.start <= index < claim.proof.end <= |D| && |claim.proof.inclusionProof| % 32 == 0
  {
    var h, fn, sn := Sha256Hasher(sha256), index - claim.proof.start, claim.proof.end - claim.proof.start - 1;
    || (claim.entryBytes != [0x00] + D[index] && sha256(claim.entryBytes) == sha256([0x00] + D[index]))
    || Collide(h, Hashed(h, fn, sn, sha256(claim.entryBytes), Chunks(claim.proof.inclusionProof)),
         Hashed(h, fn, sn, h.leaf(D[index]), Path(h, D, index, claim.proof.start, claim.proof.end)))
  }

  /** If the hash that a certificate evaluates to is that of the subtree of a log D, the
      bytes fed for the certificate are 0x00 and the entry at its index, short of a
      collision. */
  lemma {:induction false} ClaimedIsLogged(sha256: Bytes -> HashValue, version: DraftVersion, cert: X509, p: State, D: seq<Bytes>)
    requires Checked(sha256, version, cert, p).Some?
    requires var claim := Checked(sha256, version, cert, p).value;
      claim.proof.start <= claim.proof.end <= |D| && claim.hash == Mth(Sha256Hasher(sha256), D, claim.proof.start, claim.proof.end)
    ensures var claim := Checked(sha256, version, cert, p).value;
      var index := And(claim.serial, 0xFFFF_FFFF_FFFF);
      && IsSubtree(claim.proof.start, claim.proof.end) && claim.proof.start <= index < claim.proof.end
      && |claim.proof.inclusionProof| % 32 == 0
      && (claim.entryBytes == [0x00] + D[index] || ClaimCollides(sha256, claim, D, index))
  {
    hide CaIdFromName, IdText, ProofOf, EntryFeed, IsRevoked, And, Shr, LogIdOf, Mth, Path, Flatten, Chunks, Hashed, Collide, ClimbBytes, Sha256Hasher, Low, CeilLog;
    var claim := Checked(sha256, version, cert, p).value;
    var index := And(claim.serial, 0xFFFF_FFFF_FFFF);
    LeafOfFed(sha256, D[index]);
    InclusionBinds(Sha256Hasher(sha256), D, index, claim.proof.start, claim.proof.end, sha256(claim.entryBytes), claim.proof.inclusionProof);
  }
}
