/** The certificate and the log entry that a CA builds from one configuration, and
    the fields a parser finds in the certificate.
 */
module Certificates {
  import opened Bits
  import opened Hashing
  import opened Wire
  import opened MtcProofs
  import opened TrustAnchors
  import opened TrustAnchorText

  // ----- Reading elements of a given tag -----

  /** ReadASN1: the contents. */
  function ReadAsn1(s: Bytes, tag: byte): Option<Read<Bytes>> {
    match ReadTlv(s)
    case None => None
    case Some(r) => if r.v.tag == tag then Some(Read(r.v.content, r.rest)) else None
  }

  /** ReadASN1Element: the whole element. */
  function ReadAsn1Element(s: Bytes, tag: byte): (r: Option<Read<Bytes>>)
    ensures r.Some? ==> s == r.value.v + r.value.rest
  {
    match ReadTlv(s)
    case None => None
    case Some(r) => if r.v.tag == tag then Some(Read(s[..|s| - |r.rest|], s[|s| - |r.rest|..])) else None
  }

  /** Exactly one element of the tag, with these contents. */
  predicate IsElementOf(e: Bytes, tag: byte, content: Bytes) {
    ReadTlv(e) == Some(Read(Tlv(tag, content), []))
  }

  predicate IsElement(e: Bytes, tag: byte) {
    ReadTlv(e).Some? && ReadTlv(e).value.v.tag == tag && |ReadTlv(e).value.rest| == 0
  }

  lemma {:induction false} BuiltIsElement(tag: byte, content: Bytes)
    requires Element(tag, content).Some? && |Element(tag, content).value| < 0x1_0000_0000
    requires tag as nat % 32 != 31
    ensures IsElementOf(Element(tag, content).value, tag, content)
  {
    hide Element, ReadTlv;
    var e := Element(tag, content).value;
    ReadElementWritten(tag, content, []);
    assert e + [] == e;
  }

  /** An element is read the same whatever follows it. */
  lemma {:induction false} ElementThenRest(e: Bytes, tag: byte, content: Bytes, rest: Bytes)
    requires IsElementOf(e, tag, content)
    ensures ReadAsn1(e + rest, tag) == Some(Read(content, rest))
    ensures ReadAsn1Element(e + rest, tag) == Some(Read(e, rest))
  {
    hide Element;
    TagIsLow(e);
    ElementIsWritten(e);
    var w := Element(tag, content).value;
    assert w + [] == w;
    ReadElementWritten(tag, content, []);
    ReadElementWritten(tag, content, rest);
    assert (e + rest)[..|e|] == e && (e + rest)[|e|..] == rest;
  }

  lemma {:induction false} TagIsLow(e: Bytes)
    requires ReadTlv(e).Some?
    ensures ReadTlv(e).value.v.tag as nat % 32 != 31
  {
  }

  /** Whatever is read as an element is one. */
  lemma {:induction false} ReadIsElement(s: Bytes, tag: byte)
    requires ReadAsn1Element(s, tag).Some?
    ensures var e := ReadAsn1Element(s, tag).value;
      s == e.v + e.rest && IsElementOf(e.v, tag, ReadTlv(s).value.v.content)
      && ReadAsn1(s, tag) == Some(Read(ReadTlv(s).value.v.content, e.rest))
  {
    hide Element;
    TagIsLow(s);
    ElementIsWritten(s);
    var r := ReadTlv(s).value;
    var w := Element(tag, r.v.content).value;
    ReadElementWritten(tag, r.v.content, r.rest);
    ReadElementWritten(tag, r.v.content, []);
    assert w + [] == w;
    assert (w + r.rest)[..|w|] == w;
  }

  // ----- Fixed parts -----

  /** version [0] EXPLICIT INTEGER 2 */
  const V3: Bytes := [0xA0, 0x03, 0x02, 0x01, 0x02]

  /** 1.3.6.1.5.5.7.6.67, and 1.3.6.1.4.1.44363.47.0 before plants-07 */
  function MtcProofOid(version: DraftVersion): Bytes {
    if version.Plants07? then [0x2B, 0x06, 0x01, 0x05, 0x05, 0x07, 0x06, 0x43]
    else [0x2B, 0x06, 0x01, 0x04, 0x01, 0x82, 0xDA, 0x4B, 0x2F, 0x00]
  }

  /** 1.3.6.1.5.5.7.25.3, and 1.3.6.1.4.1.44363.47.3 or .1 before */
  function NameOid(version: DraftVersion): Bytes {
    if version.Plants07? then [0x2B, 0x06, 0x01, 0x05, 0x05, 0x07, 0x19, 0x03]
    else if version.Plants06? then [0x2B, 0x06, 0x01, 0x04, 0x01, 0x82, 0xDA, 0x4B, 0x2F, 0x03]
    else [0x2B, 0x06, 0x01, 0x04, 0x01, 0x82, 0xDA, 0x4B, 0x2F, 0x01]
  }

  function Wrap(tag: byte, content: Option<Bytes>): (r: Option<Bytes>)
    ensures r.Some? ==> content.Some? && |content.value| < |r.value|
  {
    match content case None => None case Some(c) => Element(tag, c)
  }

  /** addMTCProofSigAlg */
  function SigAlg(version: DraftVersion): Option<Bytes> {
    Wrap(SEQUENCE, Element(OID, MtcProofOid(version)))
  }

  /** From plants-06 on the ID is a RELATIVE-OID, before it is text. */
  function NameValue(version: DraftVersion, id: Bytes): Option<Bytes> {
    if version.Plants06? || version.Plants07? then Element(RELATIVE_OID, id) else Element(UTF8_STRING, IdText(id))
  }

  /** addX509Name */
  function X509Name(version: DraftVersion, id: Bytes): Option<Bytes> {
    Wrap(SEQUENCE, Wrap(SET, Wrap(SEQUENCE, Append(Element(OID, NameOid(version)), NameValue(version, id)))))
  }

  /** The contents of an OBJECT IDENTIFIER (section 8.19 of X.690): the first two arcs
      share a subidentifier. */
  function OidOf(first: nat, second: nat, arcs: seq<uint32>): Bytes
    requires 40 * first + second < 0x1_0000_0000
  {
    EncodeId([40 * first + second] + arcs)
  }

  lemma {:induction false} TwoByteArc()
    ensures Subidentifier(44363) == [0x82, 0xDA, 0x4B]
  {
    assert MoreGroups(0) == [];
    assert MoreGroups(2) == MoreGroups(0) + [0x82];
    assert MoreGroups(346) == MoreGroups(2) + [0xDA];
  }

  lemma {:induction false} OneByteArc(v: nat)
    requires v < 128
    ensures Subidentifier(v) == [v as byte]
  {
    assert MoreGroups(0) == [];
  }

  lemma {:induction false} ArcsOf(bytes: Bytes, arcs: seq<uint32>)
    requires |bytes| == |arcs|
    requires forall k :: 0 <= k < |arcs| ==> bytes[k] as int == arcs[k] < 128
    ensures EncodeId(arcs) == bytes
  {
    hide Subidentifier;
    if |arcs| != 0 {
      OneByteArc(arcs[0]);
      ArcsOf(bytes[1..], arcs[1..]);
      assert bytes == [bytes[0]] + bytes[1..];
    }
  }

  lemma {:induction false} ExperimentArcs(last: Bytes, arcs: seq<uint32>)
    requires |last| == |arcs|
    requires forall k :: 0 <= k < |arcs| ==> last[k] as int == arcs[k] < 128
    ensures OidOf(1, 3, [6, 1, 4, 1] + ([44363] + arcs)) == [0x2B, 0x06, 0x01, 0x04, 0x01, 0x82, 0xDA, 0x4B] + last
  {
    hide Subidentifier, EncodeId;
    var head: seq<uint32> := [43, 6, 1, 4, 1];
    ArcsOf([0x2B, 0x06, 0x01, 0x04, 0x01], head);
    ArcsOf(last, arcs);
    OneArc(44363);
    TwoByteArc();
    EncodeConcat([44363], arcs);
    EncodeConcat(head, [44363] + arcs);
    assert head + ([44363] + arcs) == [43] + ([6, 1, 4, 1] + ([44363] + arcs));
  }

  lemma {:induction false} OneArc(v: uint32)
    ensures EncodeId([v]) == Subidentifier(v)
  {
    assert [v][1..] == [];
  }

  /** The identifiers by their arcs, in each version. */
  lemma {:induction false} OidsAre(version: DraftVersion)
    ensures MtcProofOid(version) ==
      if version == Plants07 then OidOf(1, 3, [6, 1, 5, 5, 7, 6, 67]) else OidOf(1, 3, [6, 1, 4, 1] + ([44363] + [47, 0]))
    ensures NameOid(version) ==
      if version == Plants07 then OidOf(1, 3, [6, 1, 5, 5, 7, 25, 3])
      else OidOf(1, 3, [6, 1, 4, 1] + ([44363] + [47, if version == Plants06 then 3 else 1]))
  {
    hide OidOf, Subidentifier;
    LowArcs([0x06, 0x01, 0x05, 0x05, 0x07, 0x06, 0x43], [6, 1, 5, 5, 7, 6, 67]);
    LowArcs([0x06, 0x01, 0x05, 0x05, 0x07, 0x19, 0x03], [6, 1, 5, 5, 7, 25, 3]);
    ExperimentArcs([0x2F, 0x00], [47, 0]);
    ExperimentArcs([0x2F, 0x01], [47, 1]);
    ExperimentArcs([0x2F, 0x03], [47, 3]);
  }

  lemma {:induction false} LowArcs(bytes: Bytes, arcs: seq<uint32>)
    requires |bytes| == |arcs|
    requires forall k :: 0 <= k < |arcs| ==> bytes[k] as int == arcs[k] < 128
    ensures OidOf(1, 3, arcs) == [0x2B] + bytes
  {
    ArcsOf([0x2B] + bytes, [43] + arcs);
  }

  /** The fixed bytes are the elements they stand for. */
  lemma {:induction false} FixedPartsAre(digest: HashValue)
    ensures Wrap(VERSION_TAG, Element(INTEGER, IntegerContent(2))) == Some(V3)
    ensures Element(0x04, digest) == Some([0x04, 0x20] + digest)
  {
    hide Element;
    assert BigEndian(2, 1) == BigEndian(0, 0) + [2];
    assert IntegerContent(2) == [2];
    ShortElement(INTEGER, [2]);
    ShortElement(VERSION_TAG, [0x02, 0x01, 0x02]);
    ShortElement(0x04, digest);
    assert [INTEGER, 0x01] + [0x02] == [0x02, 0x01, 0x02];
    assert [VERSION_TAG, 0x03] + [0x02, 0x01, 0x02] == V3;
  }

  lemma {:induction false} ShortElement(tag: byte, content: Bytes)
    requires |content| < 128
    ensures Element(tag, content) == Some([tag, |content| as byte] + content)
  {
    assert LengthField(|content|) == [|content| as byte];
    assert [tag] + [|content| as byte] == [tag, |content| as byte];
  }

  // ----- The log entry and the certificate -----

  /** Validity, subject and extensions are DER made elsewhere. */
  datatype EntryConfig = EntryConfig(
    isNull: bool,
    validity: Bytes,
    subject: Bytes,
    publicKey: Bytes,
    extensions: Bytes,
    mtcExtensions: Bytes)

  /** The algorithm of a public key: the first element of its only SEQUENCE. */
  function KeyAlgorithm(publicKey: Bytes): Option<Bytes> {
    match ReadAsn1(publicKey, SEQUENCE)
    case None => None
    case Some(key) =>
      if |key.rest| != 0 then None
      else
        match ReadAsn1Element(key.v, SEQUENCE)
        case None => None
        case Some(alg) => Some(alg.v)
  }

  /** What log entry and certificate share, from the validity on. */
  function EntryTail(sha256: Bytes -> HashValue, entry: EntryConfig): Option<Bytes> {
    Append(Some(entry.validity), Append(Some(entry.subject), Append(KeyAlgorithm(entry.publicKey),
      Some([0x04, 0x20] + sha256(entry.publicKey) + entry.extensions))))
  }

  /** MarshalTBSCertificateLogEntry, from plants-04 on */
  function LogEntry(sha256: Bytes -> HashValue, version: DraftVersion, issuer: Bytes, entry: EntryConfig): Option<Bytes> {
    if entry.isNull then Append(Prefixed(2, []), Some(BigEndian(0, 2)))
    else
      Append(Prefixed(2, entry.mtcExtensions), Append(Some(BigEndian(1, 2)), Append(Some(V3),
        Append(X509Name(version, issuer), EntryTail(sha256, entry)))))
  }

  /** The contents of the TBSCertificate. */
  function TbsContent(version: DraftVersion, issuer: Bytes, serial: nat, entry: EntryConfig): Option<Bytes> {
    Append(Some(V3), Append(Element(INTEGER, IntegerContent(serial)), Append(SigAlg(version),
      Append(X509Name(version, issuer), Append(Some(entry.validity), Append(Some(entry.subject),
        Some(entry.publicKey + entry.extensions)))))))
  }

  /** AddTBSCertificate */
  function TbsCertificate(version: DraftVersion, issuer: Bytes, serial: nat, entry: EntryConfig): Option<Bytes> {
    Wrap(SEQUENCE, TbsContent(version, issuer, serial, entry))
  }

  /** The certificate around a TBSCertificate and an encoded MTCProof; the leading
      zero of the BIT STRING says that no bits are unused. */
  function CertificateOf(version: DraftVersion, tbs: Option<Bytes>, proof: Option<Bytes>): Option<Bytes> {
    Wrap(SEQUENCE, Append(tbs, Append(SigAlg(version), Wrap(BIT_STRING, Append(Some([0x00]), proof)))))
  }

  lemma {:induction false} ElementFits(tag: byte, content: Bytes)
    requires |content| <= 0xFFFF_FFFE
    ensures Element(tag, content).Some? && |Element(tag, content).value| <= |content| + 6
  {
    hide LengthField;
  }

  lemma {:induction false} NameFitsWhen(version: DraftVersion, id: Bytes)
    requires |id| + |IdText(id)| < 0x1000_0000
    ensures X509Name(version, id).Some? && |X509Name(version, id).value| <= |id| + |IdText(id)| + 40
  {
    hide Element, IdText;
    ElementFits(OID, NameOid(version));
    var oid := Element(OID, NameOid(version)).value;
    if version.Plants06? || version.Plants07? { ElementFits(RELATIVE_OID, id); } else { ElementFits(UTF8_STRING, IdText(id)); }
    var attr := oid + NameValue(version, id).value;
    ElementFits(SEQUENCE, attr);
    ElementFits(SET, Element(SEQUENCE, attr).value);
    ElementFits(SEQUENCE, Element(SET, Element(SEQUENCE, attr).value).value);
  }

  lemma {:induction false} SigAlgFits(version: DraftVersion)
    ensures SigAlg(version).Some? && |SigAlg(version).value| <= 22
  {
    hide Element;
    ElementFits(OID, MtcProofOid(version));
    ElementFits(SEQUENCE, Element(OID, MtcProofOid(version)).value);
  }

  /** A TBSCertificate of parts that are not too long can be written. */
  lemma {:induction false} TbsFits(version: DraftVersion, issuer: Bytes, serial: uint64, entry: EntryConfig)
    requires |issuer| + |IdText(issuer)| < 0x1000_0000
    requires |entry.validity| + |entry.subject| + |entry.publicKey| + |entry.extensions| < 0x1000_0000
    ensures TbsCertificate(version, issuer, serial, entry).Some?
    ensures |TbsCertificate(version, issuer, serial, entry).value| < 0x2000_0100
  {
    hide Element, IdText, X509Name, SigAlg, IntegerContent;
    NameFitsWhen(version, issuer);
    SigAlgFits(version);
    IntegerRoundTrip(serial);
    ElementFits(INTEGER, IntegerContent(serial));
    ElementFits(SEQUENCE, TbsContent(version, issuer, serial, entry).value);
  }

  lemma {:induction false} CertificateFits(version: DraftVersion, tbs: Bytes, proof: Bytes)
    requires |tbs| < 0x2000_0100 && |proof| < 0x2000_0000
    ensures CertificateOf(version, Some(tbs), Some(proof)).Some?
  {
    hide Element, SigAlg;
    SigAlgFits(version);
    var bits: Bytes := [0x00] + proof;
    ElementFits(BIT_STRING, bits);
    ElementFits(SEQUENCE, tbs + (SigAlg(version).value + Element(BIT_STRING, bits).value));
  }

  // ----- The fields of a certificate -----

  /** The raw fields that Go's parser exposes and the verifier uses. */
  datatype X509 = X509(raw: Bytes, rawTbs: Bytes, rawIssuer: Bytes, rawSigAlg: Bytes, rawKey: Bytes)

  function SkipElement(s: Bytes, tag: byte): Option<Bytes> {
    match ReadAsn1Element(s, tag) case None => None case Some(r) => Some(r.rest)
  }

  datatype TbsFields = TbsFields(issuer: Bytes, key: Bytes)

  function ParseTbsFields(content: Bytes): Option<TbsFields> {
    match (if |content| != 0 && content[0] == VERSION_TAG then SkipElement(content, VERSION_TAG) else Some(content))
    case None => None
    case Some(s1) =>
    match SkipElement(s1, INTEGER)
    case None => None
    case Some(s2) =>
    match SkipElement(s2, SEQUENCE)
    case None => None
    case Some(s3) =>
    match ReadAsn1Element(s3, SEQUENCE)
    case None => None
    case Some(issuer) =>
    match SkipElement(issuer.rest, SEQUENCE)
    case None => None
    case Some(s4) =>
    match SkipElement(s4, SEQUENCE)
    case None => None
    case Some(s5) =>
    match ReadAsn1Element(s5, SEQUENCE)
    case None => None
    case Some(key) => Some(TbsFields(issuer.v, key.v))
  }

  /** The DER structure of a certificate, as far as the verifier depends on it. */
  function ParseCertificate(raw: Bytes): Option<X509> {
    match ReadAsn1(raw, SEQUENCE)
    case None => None
    case Some(cert) =>
      if |cert.rest| != 0 then None
      else
        match ReadAsn1Element(cert.v, SEQUENCE)
        case None => None
        case Some(tbs) =>
        match ReadAsn1Element(tbs.rest, SEQUENCE)
        case None => None
        case Some(alg) =>
        match ReadAsn1(alg.rest, BIT_STRING)
        case None => None
        case Some(sig) =>
        match ReadAsn1(tbs.v, SEQUENCE)
        case None => None
        case Some(content) =>
        match ParseTbsFields(content.v)
        case None => None
        case Some(f) =>
          if |sig.rest| != 0 then None
          else Some(X509(raw, tbs.v, f.issuer, alg.v, f.key))
  }

  /** certSignatureBytes: the signature again, from the raw certificate, which must be
      a whole number of bytes. */
  function SignatureBytes(raw: Bytes): Option<Bytes> {
    match ReadAsn1(raw, SEQUENCE)
    case None => None
    case Some(cert) =>
    match ReadAsn1(cert.v, SEQUENCE)
    case None => None
    case Some(tbs) =>
    match ReadAsn1(tbs.rest, SEQUENCE)
    case None => None
    case Some(alg) =>
    match ReadAsn1(alg.rest, BIT_STRING)
    case None => None
    case Some(sig) => if |sig.v| == 0 || sig.v[0] != 0 then None else Some(sig.v[1..])
  }

  /** caIDFromX509Name: a single attribute of the version's type. */
  function CaIdFromName(version: DraftVersion, name: Bytes): Option<Bytes> {
    match ReadAsn1(name, SEQUENCE)
    case None => None
    case Some(dn) =>
    match ReadAsn1(dn.v, SET)
    case None => None
    case Some(rdn) =>
    match ReadAsn1(rdn.v, SEQUENCE)
    case None => None
    case Some(attr) =>
    match ReadAsn1(attr.v, OID)
    case None => None
    case Some(oid) =>
      if |dn.rest| != 0 || oid.v != NameOid(version) || |rdn.rest| != 0 || |attr.rest| != 0 then None
      else if version.Plants06? || version.Plants07? then
        match ReadAsn1(oid.rest, RELATIVE_OID)
        case None => None
        case Some(id) => if |id.rest| != 0 then None else Some(id.v)
      else
        match ReadAsn1(oid.rest, UTF8_STRING)
        case None => None
        case Some(text) => if |text.rest| != 0 then None else IdFromText(text.v)
  }

  // ----- Parsing what was built -----

  lemma {:induction false} WholeElement(e: Bytes, tag: byte, content: Bytes)
    requires IsElementOf(e, tag, content)
    ensures ReadAsn1(e, tag) == Some(Read(content, []))
    ensures ReadAsn1Element(e, tag) == Some(Read(e, []))
  {
    ElementThenRest(e, tag, content, []);
    assert e + [] == e;
  }

  lemma {:induction false} WrapIsElement(tag: byte, content: Bytes)
    requires Wrap(tag, Some(content)).Some? && |Wrap(tag, Some(content)).value| < 0x1_0000_0000
    requires tag as nat % 32 != 31
    ensures IsElementOf(Wrap(tag, Some(content)).value, tag, content)
  {
    BuiltIsElement(tag, content);
  }

  lemma {:induction false} SigAlgIsElement(version: DraftVersion)
    ensures SigAlg(version).Some?
    ensures IsElement(SigAlg(version).value, SEQUENCE)
  {
    hide ReadTlv;
    var oid := Element(OID, MtcProofOid(version));
    WrapIsElement(SEQUENCE, oid.value);
  }

  /** The name of a CA names the CA: from plants-06 on for every byte string, before
      for exactly the valid IDs. */
  lemma {:induction false} NameRoundTrip(version: DraftVersion, id: Bytes)
    requires X509Name(version, id).Some? && |X509Name(version, id).value| < 0x1_0000_0000
    ensures IsElement(X509Name(version, id).value, SEQUENCE)
    ensures CaIdFromName(version, X509Name(version, id).value) ==
      if version.Plants06? || version.Plants07? || IsId(id) then Some(id) else None
  {
    hide ReadAsn1, ReadTlv, IdText, IdFromText, IsId, Element, NameOid;
    var value := NameValue(version, id);
    var oid := Element(OID, NameOid(version));
    var attr := oid.value + value.value;
    var rdn := Element(SEQUENCE, attr).value;
    var dn := Element(SET, rdn).value;
    var name := Element(SEQUENCE, dn).value;
    ElementGrows(SEQUENCE, dn);
    ElementGrows(SET, rdn);
    ElementGrows(SEQUENCE, attr);
    BuiltIsElement(SEQUENCE, dn);
    WholeElement(name, SEQUENCE, dn);
    BuiltIsElement(SET, rdn);
    WholeElement(dn, SET, rdn);
    BuiltIsElement(SEQUENCE, attr);
    WholeElement(rdn, SEQUENCE, attr);
    BuiltIsElement(OID, NameOid(version));
    ElementThenRest(oid.value, OID, NameOid(version), value.value);
    if version.Plants06? || version.Plants07? {
      BuiltIsElement(RELATIVE_OID, id);
      WholeElement(value.value, RELATIVE_OID, id);
    } else {
      BuiltIsElement(UTF8_STRING, IdText(id));
      WholeElement(value.value, UTF8_STRING, IdText(id));
      if IsId(id) { IdTextRoundTrip(id); } else { InvalidTextIsNoId(id); }
    }
  }

  lemma {:induction false} ElementGrows(tag: byte, content: Bytes)
    requires Element(tag, content).Some?
    ensures |content| < |Element(tag, content).value|
  {
  }

  /** The text of what is not an ID does not parse. */
  lemma {:induction false} InvalidTextIsNoId(id: Bytes)
    requires !IsId(id)
    ensures IdFromText(IdText(id)) == None
  {
    hide IsId, Hex, DecValue, EncodeId;
    IdTextStart(id);
    var s := IdText(id);
    SplitStart(s);
    ParseAllStops(Split(s), 1);
    assert Split(s)[..1][..0] == [];
  }

  lemma {:induction false} SplitStart(s: Bytes)
    requires |s| != 0 && s[0] == 0x3C
    ensures ParseAll(Split(s)[..1]).None?
  {
    var first := Split(s)[..1];
    assert first[0][0] == 0x3C;
    assert !IsNumber(first[0]);
    assert first[..0] == [];
  }

  // ----- Nothing else parses -----

  /** What is read as the contents of an element was written as one. */
  lemma {:induction false} ContentsAreWritten(s: Bytes, tag: byte)
    requires ReadAsn1(s, tag).Some?
    ensures var r := ReadAsn1(s, tag).value;
      Element(tag, r.v).Some? && s == Element(tag, r.v).value + r.rest
  {
    hide Element, ReadTlv;
    ElementIsWritten(s);
  }

  lemma {:induction false} WholeIsWritten(s: Bytes, tag: byte)
    requires ReadAsn1(s, tag).Some? && |ReadAsn1(s, tag).value.rest| == 0
    ensures Element(tag, ReadAsn1(s, tag).value.v) == Some(s)
  {
    hide Element, ReadAsn1;
    ContentsAreWritten(s, tag);
    var e := Element(tag, ReadAsn1(s, tag).value.v).value;
    assert e + [] == e;
  }

  /** A name that is read as a CA's consists of one attribute of the version's type with
      that ID, and nothing more: from plants-06 on it is the name written for the ID. */
  lemma {:induction false} NameIsWritten(version: DraftVersion, name: Bytes) returns (text: Bytes)
    requires CaIdFromName(version, name).Some?
    ensures version == Plants06 || version == Plants07 ==>
      X509Name(version, CaIdFromName(version, name).value) == Some(name)
    ensures version == Plants04 || version == Plants05 ==>
      && IdFromText(text) == CaIdFromName(version, name)
      && Wrap(SEQUENCE, Wrap(SET, Wrap(SEQUENCE, Append(Element(OID, NameOid(version)), Element(UTF8_STRING, text))))) == Some(name)
  {
    hide ReadAsn1, Element, IdFromText, NameOid;
    var dn := ReadAsn1(name, SEQUENCE).value;
    WholeIsWritten(name, SEQUENCE);
    var rdn := ReadAsn1(dn.v, SET).value;
    WholeIsWritten(dn.v, SET);
    var attr := ReadAsn1(rdn.v, SEQUENCE).value;
    WholeIsWritten(rdn.v, SEQUENCE);
    var oid := ReadAsn1(attr.v, OID).value;
    ContentsAreWritten(attr.v, OID);
    if version == Plants06 || version == Plants07 {
      WholeIsWritten(oid.rest, RELATIVE_OID);
      text := [];
    } else {
      WholeIsWritten(oid.rest, UTF8_STRING);
      text := ReadAsn1(oid.rest, UTF8_STRING).value.v;
    }
  }

  /** A certificate with a signature of whole bytes is the certificate around its
      TBSCertificate, algorithm and signature, with no bits unused. */
  lemma {:induction false} CertificateIsWritten(raw: Bytes, cert: X509, sig: Bytes)
    requires ParseCertificate(raw) == Some(cert) && SignatureBytes(raw) == Some(sig)
    ensures Wrap(SEQUENCE, Append(Some(cert.rawTbs), Append(Some(cert.rawSigAlg), Wrap(BIT_STRING, Some([0x00] + sig))))) == Some(raw)
  {
    hide ReadTlv, Element, ParseTbsFields;
    var outer := ReadAsn1(raw, SEQUENCE).value;
    WholeIsWritten(raw, SEQUENCE);
    SameElement(outer.v, SEQUENCE);
    var tbs := ReadAsn1Element(outer.v, SEQUENCE).value;
    SameElement(tbs.rest, SEQUENCE);
    var alg := ReadAsn1Element(tbs.rest, SEQUENCE).value;
    var bits := ReadAsn1(alg.rest, BIT_STRING).value;
    WholeIsWritten(alg.rest, BIT_STRING);
    assert bits.v == [bits.v[0]] + bits.v[1..];
  }

  lemma {:induction false} SameElement(s: Bytes, tag: byte)
    requires ReadAsn1Element(s, tag).Some?
    ensures ReadAsn1(s, tag).Some? && ReadAsn1(s, tag).value.rest == ReadAsn1Element(s, tag).value.rest
  {
    hide ReadTlv, Element;
    ReadIsElement(s, tag);
  }
}
