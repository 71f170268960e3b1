/** The MTCProof structure that a certificate carries as its signature: what the CA
    writes and what the verifier parses.
 */
module MtcProofs {
  import opened Bits
  import opened Hashing
  import opened Wire

  /** The draft versions that have a CA certificate format, oldest first. */
  datatype DraftVersion = Plants04 | Plants05 | Plants06 | Plants07

  datatype EntryExtension = EntryExtension(extType: nat, extValue: Bytes)

  datatype Cosignature = Cosignature(id: Bytes, signature: Bytes)

  datatype MtcProof = MtcProof(
    extsRaw: Bytes,
    exts: seq<EntryExtension>,
    start: nat,
    end: nat,
    inclusionProof: Bytes,
    signatures: seq<Cosignature>)

  // ----- The canonical order of cosigners -----

  /** bytes.Compare */
  function CompareBytes(a: Bytes, b: Bytes): int {
    if |a| == 0 && |b| == 0 then 0
    else if |a| == 0 then -1
    else if |b| == 0 then 1
    else if a[0] < b[0] then -1
    else if a[0] > b[0] then 1
    else CompareBytes(a[1..], b[1..])
  }

  /** compareCosignerIDs: shorter first, then byte by byte. */
  function CompareIds(a: Bytes, b: Bytes): int {
    if |a| < |b| then -1 else if |a| > |b| then 1 else CompareBytes(a, b)
  }

  lemma {:induction false} CompareBytesOrder(a: Bytes, b: Bytes, c: Bytes)
    ensures CompareBytes(a, b) == 0 <==> a == b
    ensures CompareBytes(b, a) == -CompareBytes(a, b)
    ensures CompareBytes(a, b) <= 0 && CompareBytes(b, c) <= 0 ==> CompareBytes(a, c) <= 0
  {
    if |a| != 0 && |b| != 0 {
      CompareBytesOrder(a[1..], b[1..], if |c| == 0 then [] else c[1..]);
      assert a == [a[0]] + a[1..] && b == [b[0]] + b[1..];
    }
  }

  /** A strict total order: exactly one of before, equal and after. */
  lemma {:induction false} CompareIdsOrder(a: Bytes, b: Bytes, c: Bytes)
    ensures CompareIds(a, b) == 0 <==> a == b
    ensures CompareIds(b, a) == -CompareIds(a, b)
    ensures CompareIds(a, b) < 0 && CompareIds(b, c) < 0 ==> CompareIds(a, c) < 0
  {
    hide CompareBytes;
    CompareBytesOrder(a, b, c);
    CompareBytesOrder(b, c, a);
    CompareBytesOrder(a, c, b);
  }

  /** Shorter IDs first; IDs of one length by the first byte in which they differ. */
  predicate IdBefore(a: Bytes, b: Bytes) {
    || |a| < |b|
    || (|a| == |b| && exists k :: 0 <= k < |a| && a[..k] == b[..k] && a[k] < b[k])
  }

  lemma {:induction false} CompareBytesIs(a: Bytes, b: Bytes)
    requires |a| == |b|
    ensures CompareBytes(a, b) < 0 <==> exists k :: 0 <= k < |a| && a[..k] == b[..k] && a[k] < b[k]
  {
    if |a| != 0 {
      var x, y := a[1..], b[1..];
      CompareBytesIs(x, y);
      if CompareBytes(a, b) < 0 {
        FirstDifference(a, b);
      }
      if k :| 0 <= k < |a| && a[..k] == b[..k] && a[k] < b[k] {
        if k != 0 {
          assert a[0] == a[..k][0] == b[..k][0] == b[0];
          assert x[..k - 1] == a[..k][1..] && y[..k - 1] == b[..k][1..];
          assert x[k - 1] < y[k - 1];
        }
      }
    }
  }

  lemma {:induction false} FirstDifference(a: Bytes, b: Bytes)
    requires |a| == |b| && CompareBytes(a, b) < 0
    ensures exists k :: 0 <= k < |a| && a[..k] == b[..k] && a[k] < b[k]
  {
    if a[0] < b[0] {
      assert a[..0] == b[..0];
    } else {
      FirstDifference(a[1..], b[1..]);
      var k :| 0 <= k < |a| - 1 && a[1..][..k] == b[1..][..k] && a[1..][k] < b[1..][k];
      assert a[..k + 1] == [a[0]] + a[1..][..k] && b[..k + 1] == [b[0]] + b[1..][..k];
      assert a[k + 1] < b[k + 1];
    }
  }

  /** The order is the draft's. */
  lemma {:induction false} CompareIdsIs(a: Bytes, b: Bytes)
    ensures CompareIds(a, b) < 0 <==> IdBefore(a, b)
    ensures CompareIds(a, b) > 0 <==> IdBefore(b, a)
  {
    hide CompareBytes;
    CompareBytesOrder(a, b, a);
    if |a| == |b| {
      CompareBytesIs(a, b);
      CompareBytesIs(b, a);
    }
  }

  /** What the draft demands of a list of cosignatures: no empty ID, and each comes
      strictly before the next. */
  predicate InDraftOrder(sigs: seq<Cosignature>) {
    && (forall k :: 0 <= k < |sigs| ==> |sigs[k].id| != 0)
    && forall k :: 0 <= k < |sigs| - 1 ==> IdBefore(sigs[k].id, sigs[k + 1].id)
  }

  lemma {:induction false} CanonicalIs(sigs: seq<Cosignature>, prev: Option<Bytes>)
    ensures Canonical(sigs, prev) <==>
      InDraftOrder(sigs) && (|sigs| != 0 && prev.Some? ==> IdBefore(prev.value, sigs[0].id))
  {
    hide CompareIds, IdBefore;
    if |sigs| != 0 {
      var rest := sigs[1..];
      CanonicalIs(rest, Some(sigs[0].id));
      if prev.Some? { CompareIdsIs(prev.value, sigs[0].id); }
      DraftOrderSplit(sigs);
    }
  }

  lemma {:induction false} DraftOrderSplit(sigs: seq<Cosignature>)
    requires |sigs| != 0
    ensures InDraftOrder(sigs) <==>
      |sigs[0].id| != 0 && InDraftOrder(sigs[1..]) && (|sigs| > 1 ==> IdBefore(sigs[0].id, sigs[1].id))
  {
    hide IdBefore;
    var rest := sigs[1..];
    forall k | 0 <= k < |rest| ensures rest[k] == sigs[k + 1] {}
    if InDraftOrder(rest) && |sigs[0].id| != 0 && (|sigs| > 1 ==> IdBefore(sigs[0].id, sigs[1].id)) {
      forall k | 0 <= k < |sigs| ensures |sigs[k].id| != 0 { if k != 0 { assert sigs[k] == rest[k - 1]; } }
      forall k | 0 <= k < |sigs| - 1 ensures IdBefore(sigs[k].id, sigs[k + 1].id) {
        if k != 0 { assert sigs[k] == rest[k - 1] && sigs[k + 1] == rest[k]; }
      }
    }
  }

  /** Non-empty IDs in strictly ascending order, all after prev. */
  predicate Canonical(sigs: seq<Cosignature>, prev: Option<Bytes>) {
    |sigs| == 0 ||
    (&& |sigs[0].id| != 0
     && (prev.Some? ==> CompareIds(prev.value, sigs[0].id) < 0)
     && Canonical(sigs[1..], Some(sigs[0].id)))
  }

  /** Extension types in strictly ascending order, all above last. */
  predicate Ascending(exts: seq<EntryExtension>, last: int) {
    |exts| == 0 || (exts[0].extType > last && Ascending(exts[1..], exts[0].extType))
  }

  predicate TypesAscend(exts: seq<EntryExtension>) {
    forall k :: 0 <= k < |exts| - 1 ==> exts[k].extType < exts[k + 1].extType
  }

  lemma {:induction false} AscendingIs(exts: seq<EntryExtension>, last: int)
    ensures Ascending(exts, last) <==> TypesAscend(exts) && (|exts| != 0 ==> last < exts[0].extType)
  {
    if |exts| != 0 {
      var rest := exts[1..];
      AscendingIs(rest, exts[0].extType);
      forall k | 0 <= k < |rest| ensures rest[k] == exts[k + 1] {}
      if Ascending(exts, last) {
        forall k | 0 <= k < |exts| - 1 ensures exts[k].extType < exts[k + 1].extType {
          if k != 0 { assert exts[k] == rest[k - 1] && exts[k + 1] == rest[k]; }
        }
      }
    }
  }

  // ----- Writing -----

  function Append(a: Option<Bytes>, b: Option<Bytes>): Option<Bytes> {
    if a.Some? && b.Some? then Some(a.value + b.value) else None
  }

  function EncodeExtensions(exts: seq<EntryExtension>): Option<Bytes> {
    if |exts| == 0 then Some([])
    else
      Append(Append(Some(BigEndian(exts[0].extType, 2)), Prefixed(2, exts[0].extValue)),
        EncodeExtensions(exts[1..]))
  }

  function EncodeSignatures(sigs: seq<Cosignature>): Option<Bytes> {
    if |sigs| == 0 then Some([])
    else
      Append(Append(Prefixed(1, sigs[0].id), Prefixed(2, sigs[0].signature)), EncodeSignatures(sigs[1..]))
  }

  function SignaturesWidth(version: DraftVersion): nat {
    if version.Plants06? || version.Plants07? then 3 else 2
  }

  /** The body of the signature that CreateCertificate writes; AddUint48 keeps the
      low 48 bits. */
  function EncodeProof(version: DraftVersion, extsRaw: Bytes, start: nat, end: nat, inclusionProof: Bytes,
      sigs: seq<Cosignature>): Option<Bytes>
  {
    match EncodeSignatures(sigs)
    case None => None
    case Some(list) =>
      Append(Prefixed(2, extsRaw),
        Append(Some(BigEndian(start, 6)),
          Append(Some(BigEndian(end, 6)),
            Append(Prefixed(2, inclusionProof), Prefixed(SignaturesWidth(version), list)))))
  }

  // ----- Parsing -----

  datatype ReadExt = ReadExt(ext: EntryExtension, rest: Bytes)

  function ReadExtension(s: Bytes): (r: Option<ReadExt>)
    ensures r.Some? ==> |r.value.rest| < |s|
  {
    match ReadUint(s, 2)
    case None => None
    case Some(t) =>
      match ReadPrefixed(t.rest, 2)
      case None => None
      case Some(v) => Some(ReadExt(EntryExtension(t.v, v.v), v.rest))
  }

  function ParseExtensions(s: Bytes, last: int): Option<seq<EntryExtension>>
    decreases |s|
  {
    if |s| == 0 then Some([])
    else
      match ReadExtension(s)
      case None => None
      case Some(r) =>
        if r.ext.extType <= last then None
        else
          match ParseExtensions(r.rest, r.ext.extType)
          case None => None
          case Some(more) => Some([r.ext] + more)
  }

  datatype ReadSig = ReadSig(sig: Cosignature, rest: Bytes)

  function ReadSignature(s: Bytes): (r: Option<ReadSig>)
    ensures r.Some? ==> |r.value.rest| < |s|
  {
    match ReadPrefixed(s, 1)
    case None => None
    case Some(id) =>
      if |id.v| == 0 then None
      else
        match ReadPrefixed(id.rest, 2)
        case None => None
        case Some(v) => Some(ReadSig(Cosignature(id.v, v.v), v.rest))
  }

  function ParseSignatures(s: Bytes, prev: Option<Bytes>): Option<seq<Cosignature>>
    decreases |s|
  {
    if |s| == 0 then Some([])
    else
      match ReadSignature(s)
      case None => None
      case Some(r) =>
        if prev.Some? && CompareIds(prev.value, r.sig.id) >= 0 then None
        else
          match ParseSignatures(r.rest, Some(r.sig.id))
          case None => None
          case Some(more) => Some([r.sig] + more)
  }

  /** The fields of the structure, lists not yet parsed. */
  datatype RawProof = RawProof(extsRaw: Bytes, start: nat, end: nat, inclusionProof: Bytes, sigs: Bytes)

  function ReadRawProof(version: DraftVersion, s: Bytes): Option<RawProof> {
    match ReadPrefixed(s, 2)
    case None => None
    case Some(exts) =>
    match ReadUint(exts.rest, 6)
    case None => None
    case Some(start) =>
    match ReadUint(start.rest, 6)
    case None => None
    case Some(end) =>
    match ReadPrefixed(end.rest, 2)
    case None => None
    case Some(inclusion) =>
    match ReadPrefixed(inclusion.rest, SignaturesWidth(version))
    case None => None
    case Some(sigs) =>
      if |sigs.rest| != 0 then None
      else Some(RawProof(exts.v, start.v, end.v, inclusion.v, sigs.v))
  }

  function ParseProof(version: DraftVersion, s: Bytes): Option<MtcProof> {
    match ReadRawProof(version, s)
    case None => None
    case Some(raw) =>
      match ParseExtensions(raw.extsRaw, -1)
      case None => None
      case Some(exts) =>
        match ParseSignatures(raw.sigs, None)
        case None => None
        case Some(sigs) => Some(MtcProof(raw.extsRaw, exts, raw.start, raw.end, raw.inclusionProof, sigs))
  }

  /** Put what a loop has read before what is still to be read. */
  ghost function After<T>(done: seq<T>, more: Option<seq<T>>): Option<seq<T>> {
    match more case None => None case Some(m) => Some(done + m)
  }

  lemma {:induction false} AfterEnds<T>(done: seq<T>, more: Option<seq<T>>)
    ensures After([], more) == more
    ensures After(done, Some([])) == Some(done)
  {
    if more.Some? { assert [] + more.value == more.value; }
    assert done + [] == done;
  }

  lemma {:induction false} AfterStep<T>(done: seq<T>, x: T, more: Option<seq<T>>)
    ensures After(done, After([x], more)) == After(done + [x], more)
  {
    if more.Some? { assert done + ([x] + more.value) == (done + [x]) + more.value; }
  }

  lemma {:induction false} ParseExtensionsStep(s: Bytes, last: int)
    ensures |s| == 0 ==> ParseExtensions(s, last) == Some([])
    ensures |s| != 0 ==> (ParseExtensions(s, last) ==
      match ReadExtension(s)
      case None => None
      case Some(r) =>
        if r.ext.extType <= last then None else After([r.ext], ParseExtensions(r.rest, r.ext.extType)))
  {
  }

  lemma {:induction false} ParseSignaturesStep(s: Bytes, prev: Option<Bytes>)
    ensures |s| == 0 ==> ParseSignatures(s, prev) == Some([])
    ensures |s| != 0 ==> (ParseSignatures(s, prev) ==
      match ReadSignature(s)
      case None => None
      case Some(r) =>
        if prev.Some? && CompareIds(prev.value, r.sig.id) >= 0 then None
        else After([r.sig], ParseSignatures(r.rest, Some(r.sig.id))))
  {
  }

  method ParseMTCProof(version: DraftVersion, sig: Bytes) returns (res: Option<MtcProof>)
    ensures res == ParseProof(version, sig)
    ensures res.Some? ==> InDraftOrder(res.value.signatures) && TypesAscend(res.value.exts)
  {
    hide ParseExtensions, ParseSignatures, After, ReadUint, ReadPrefixed, CompareIds;
    var s := sig;
    var extsRead := ReadPrefixed(s, 2);
    if extsRead.None? { return None; }
    var startRead := ReadUint(extsRead.value.rest, 6);
    if startRead.None? { return None; }
    var endRead := ReadUint(startRead.value.rest, 6);
    if endRead.None? { return None; }
    s := endRead.value.rest;

    var exts := ParseEntryExtensions(extsRead.value.v);
    if exts.None? { return None; }

    var inclusion := ReadPrefixed(s, 2);
    if inclusion.None? { return None; }
    var sigsRead := ReadPrefixed(inclusion.value.rest, SignaturesWidth(version));
    if sigsRead.None? || |sigsRead.value.rest| != 0 { return None; }

    var sigs := ParseCosignatures(sigsRead.value.v);
    if sigs.None? { return None; }
    return Some(MtcProof(extsRead.value.v, exts.value, startRead.value.v, endRead.value.v,
      inclusion.value.v, sigs.value));
  }

  method ParseEntryExtensions(raw: Bytes) returns (res: Option<seq<EntryExtension>>)
    ensures res == ParseExtensions(raw, -1)
    ensures res.Some? ==> TypesAscend(res.value)
  {
    hide ParseExtensions, After;
    var entryExts, last: int := raw, -1;
    var exts: seq<EntryExtension> := [];
    AfterEnds<EntryExtension>([], ParseExtensions(raw, -1));
    while |entryExts| != 0
      invariant After(exts, ParseExtensions(entryExts, last)) == ParseExtensions(raw, -1)
      decreases |entryExts|
    {
      ParseExtensionsStep(entryExts, last);
      AfterNone<EntryExtension>(exts);
      var r := ReadExtension(entryExts);
      if r.None? || r.value.ext.extType <= last { return None; }
      AfterStep(exts, r.value.ext, ParseExtensions(r.value.rest, r.value.ext.extType));
      last := r.value.ext.extType;
      exts := exts + [r.value.ext];
      entryExts := r.value.rest;
    }
    ParseExtensionsStep(entryExts, last);
    AfterEnds<EntryExtension>(exts, None);
    ExtensionsAreWritten(raw, -1);
    AscendingIs(exts, -1);
    return Some(exts);
  }

  lemma {:induction false} AfterNone<T>(done: seq<T>)
    ensures After(done, None) == None
  {
  }

  method ParseCosignatures(list: Bytes) returns (res: Option<seq<Cosignature>>)
    ensures res == ParseSignatures(list, None)
    ensures res.Some? ==> InDraftOrder(res.value)
  {
    hide ParseSignatures, After, CompareIds;
    var sigs, rest := [], list;
    var prevID: Option<Bytes> := None;
    AfterEnds<Cosignature>([], ParseSignatures(list, None));
    while |rest| != 0
      invariant After(sigs, ParseSignatures(rest, prevID)) == ParseSignatures(list, None)
      decreases |rest|
    {
      ParseSignaturesStep(rest, prevID);
      AfterNone<Cosignature>(sigs);
      var r := ReadSignature(rest);
      if r.None? { return None; }
      if prevID.Some? && CompareIds(prevID.value, r.value.sig.id) >= 0 { return None; }
      AfterStep(sigs, r.value.sig, ParseSignatures(r.value.rest, Some(r.value.sig.id)));
      prevID := Some(r.value.sig.id);
      sigs := sigs + [r.value.sig];
      rest := r.value.rest;
    }
    ParseSignaturesStep(rest, prevID);
    AfterEnds<Cosignature>(sigs, None);
    SignaturesAreWritten(list, None);
    CanonicalIs(sigs, None);
    return Some(sigs);
  }

  // ----- Parsing undoes writing -----

  lemma {:induction false} ReadExtensionWritten(ext: EntryExtension, rest: Bytes)
    requires ext.extType < 0x1_0000 && Prefixed(2, ext.extValue).Some?
    ensures ReadExtension(BigEndian(ext.extType, 2) + Prefixed(2, ext.extValue).value + rest) == Some(ReadExt(ext, rest))
  {
    hide BigEndian, Prefixed, ReadUint, ReadPrefixed;
    Widths();
    var value := Prefixed(2, ext.extValue).value;
    AppendAssoc(BigEndian(ext.extType, 2), value, rest);
    ReadUintWritten(ext.extType, 2, value + rest);
    ReadPrefixedWritten(2, ext.extValue, rest);
  }

  predicate TypesFit(exts: seq<EntryExtension>) {
    forall k :: 0 <= k < |exts| ==> exts[k].extType < 0x1_0000
  }

  lemma {:induction false} ParseEncodedExtensions(exts: seq<EntryExtension>, last: int)
    requires TypesFit(exts) && EncodeExtensions(exts).Some?
    ensures ParseExtensions(EncodeExtensions(exts).value, last) == if Ascending(exts, last) then Some(exts) else None
  {
    hide BigEndian, Prefixed, ReadExtension;
    if |exts| != 0 {
      var rest := EncodeExtensions(exts[1..]).value;
      ParseEncodedExtensions(exts[1..], exts[0].extType);
      ReadExtensionWritten(exts[0], rest);
      assert exts == [exts[0]] + exts[1..];
    }
  }

  lemma {:induction false} ExtensionIsWritten(s: Bytes)
    requires ReadExtension(s).Some?
    ensures var r := ReadExtension(s).value;
      && r.ext.extType < 0x1_0000 && Prefixed(2, r.ext.extValue).Some?
      && s == BigEndian(r.ext.extType, 2) + Prefixed(2, r.ext.extValue).value + r.rest
  {
    hide BigEndian, Prefixed, ReadUint, ReadPrefixed;
    Widths();
    var r := ReadExtension(s).value;
    UintIsWritten(s, 2);
    PrefixedIsWritten(ReadUint(s, 2).value.rest, 2);
    AppendAssoc(BigEndian(r.ext.extType, 2), Prefixed(2, r.ext.extValue).value, r.rest);
  }

  lemma {:induction false} ExtensionsAreWritten(s: Bytes, last: int)
    requires ParseExtensions(s, last).Some?
    ensures var exts := ParseExtensions(s, last).value;
      EncodeExtensions(exts) == Some(s) && Ascending(exts, last) && TypesFit(exts)
    decreases |s|
  {
    hide BigEndian, Prefixed, ReadExtension;
    if |s| != 0 {
      var r := ReadExtension(s).value;
      ExtensionIsWritten(s);
      ExtensionsAreWritten(r.rest, r.ext.extType);
      var exts := ParseExtensions(s, last).value;
      assert exts[1..] == ParseExtensions(r.rest, r.ext.extType).value;
    }
  }

  lemma {:induction false} ReadSignatureWritten(sig: Cosignature, rest: Bytes)
    requires Prefixed(1, sig.id).Some? && Prefixed(2, sig.signature).Some?
    ensures ReadSignature(Prefixed(1, sig.id).value + Prefixed(2, sig.signature).value + rest)
      == if |sig.id| != 0 then Some(ReadSig(sig, rest)) else None
  {
    hide Prefixed, ReadPrefixed;
    var id, value := Prefixed(1, sig.id).value, Prefixed(2, sig.signature).value;
    AppendAssoc(id, value, rest);
    ReadPrefixedWritten(1, sig.id, value + rest);
    ReadPrefixedWritten(2, sig.signature, rest);
  }

  lemma {:induction false} ParseEncodedSignatures(sigs: seq<Cosignature>, prev: Option<Bytes>)
    requires EncodeSignatures(sigs).Some?
    ensures ParseSignatures(EncodeSignatures(sigs).value, prev) == if Canonical(sigs, prev) then Some(sigs) else None
  {
    hide Prefixed, ReadSignature, CompareIds;
    if |sigs| != 0 {
      var rest := EncodeSignatures(sigs[1..]).value;
      ParseEncodedSignatures(sigs[1..], Some(sigs[0].id));
      ReadSignatureWritten(sigs[0], rest);
      assert sigs == [sigs[0]] + sigs[1..];
    }
  }

  lemma {:induction false} SignatureIsWritten(s: Bytes)
    requires ReadSignature(s).Some?
    ensures var r := ReadSignature(s).value;
      && |r.sig.id| != 0 && Prefixed(1, r.sig.id).Some? && Prefixed(2, r.sig.signature).Some?
      && s == Prefixed(1, r.sig.id).value + Prefixed(2, r.sig.signature).value + r.rest
  {
    hide Prefixed, ReadPrefixed;
    var r := ReadSignature(s).value;
    PrefixedIsWritten(s, 1);
    PrefixedIsWritten(ReadPrefixed(s, 1).value.rest, 2);
    AppendAssoc(Prefixed(1, r.sig.id).value, Prefixed(2, r.sig.signature).value, r.rest);
  }

  lemma {:induction false} SignaturesAreWritten(s: Bytes, prev: Option<Bytes>)
    requires ParseSignatures(s, prev).Some?
    ensures var sigs := ParseSignatures(s, prev).value;
      EncodeSignatures(sigs) == Some(s) && Canonical(sigs, prev)
    decreases |s|
  {
    hide Prefixed, ReadSignature, CompareIds;
    if |s| != 0 {
      var r := ReadSignature(s).value;
      SignatureIsWritten(s);
      SignaturesAreWritten(r.rest, Some(r.sig.id));
      var sigs := ParseSignatures(s, prev).value;
      assert sigs[1..] == ParseSignatures(r.rest, Some(r.sig.id)).value;
    }
  }

  lemma {:induction false} ReadRawWritten(version: DraftVersion, extsRaw: Bytes, start: nat, end: nat, inclusionProof: Bytes, list: Bytes)
    requires Prefixed(2, extsRaw).Some? && Prefixed(2, inclusionProof).Some?
    requires Prefixed(SignaturesWidth(version), list).Some?
    ensures ReadRawProof(version,
        Prefixed(2, extsRaw).value + (BigEndian(start, 6) + (BigEndian(end, 6) +
          (Prefixed(2, inclusionProof).value + Prefixed(SignaturesWidth(version), list).value))))
      == Some(RawProof(extsRaw, Value(BigEndian(start, 6)), Value(BigEndian(end, 6)), inclusionProof, list))
  {
    hide BigEndian, Prefixed, ReadUint, ReadPrefixed, SignaturesWidth, Value;
    var w := SignaturesWidth(version);
    var tail := Prefixed(w, list).value;
    var fromInclusion := Prefixed(2, inclusionProof).value + tail;
    var fromEnd := BigEndian(end, 6) + fromInclusion;
    var fromStart := BigEndian(start, 6) + fromEnd;
    ReadPrefixedWritten(2, extsRaw, fromStart);
    ReadUintOf(BigEndian(start, 6), fromEnd);
    ReadUintOf(BigEndian(end, 6), fromInclusion);
    ReadPrefixedWritten(2, inclusionProof, tail);
    ReadPrefixedWritten(w, list, []);
    assert tail + [] == tail;
  }

  lemma {:induction false} ReadUintOf(s: Bytes, rest: Bytes)
    ensures ReadUint(s + rest, |s|) == Some(Read(Value(s), rest))
  {
    assert (s + rest)[..|s|] == s && (s + rest)[|s|..] == rest;
  }

  lemma {:induction false} RawIsWritten(version: DraftVersion, s: Bytes)
    requires ReadRawProof(version, s).Some?
    ensures var r := ReadRawProof(version, s).value;
      && Prefixed(2, r.extsRaw).Some? && Prefixed(2, r.inclusionProof).Some?
      && Prefixed(SignaturesWidth(version), r.sigs).Some?
      && r.start < 0x1_0000_0000_0000 && r.end < 0x1_0000_0000_0000
      && s == Prefixed(2, r.extsRaw).value + (BigEndian(r.start, 6) + (BigEndian(r.end, 6) +
          (Prefixed(2, r.inclusionProof).value + Prefixed(SignaturesWidth(version), r.sigs).value)))
  {
    hide BigEndian, Prefixed, ReadUint, ReadPrefixed, SignaturesWidth;
    Widths();
    var w := SignaturesWidth(version);
    var afterExts := ReadPrefixed(s, 2).value.rest;
    var afterStart := ReadUint(afterExts, 6).value.rest;
    var afterEnd := ReadUint(afterStart, 6).value.rest;
    var afterInclusion := ReadPrefixed(afterEnd, 2).value.rest;
    PrefixedIsWritten(s, 2);
    UintIsWritten(afterExts, 6);
    UintIsWritten(afterStart, 6);
    PrefixedIsWritten(afterEnd, 2);
    PrefixedIsWritten(afterInclusion, w);
    var tail := Prefixed(w, ReadPrefixed(afterInclusion, w).value.v).value;
    assert tail + [] == tail;
  }

  /** What a verifier of the same version sees of a written proof: coordinates cut to
      48 bits, and nothing at all unless the extensions are a well-formed list in
      ascending order and the cosigners are in canonical order. */
  lemma {:induction false} ParseOfEncoded(version: DraftVersion, extsRaw: Bytes, start: nat, end: nat,
      inclusionProof: Bytes, sigs: seq<Cosignature>)
    requires EncodeProof(version, extsRaw, start, end, inclusionProof, sigs).Some?
    ensures ParseProof(version, EncodeProof(version, extsRaw, start, end, inclusionProof, sigs).value) ==
      if ParseExtensions(extsRaw, -1).Some? && Canonical(sigs, None) then
        Some(MtcProof(extsRaw, ParseExtensions(extsRaw, -1).value,
          Value(BigEndian(start, 6)), Value(BigEndian(end, 6)), inclusionProof, sigs))
      else None
  {
    hide BigEndian, Prefixed, SignaturesWidth, ReadRawProof, EncodeSignatures, ParseSignatures, ParseExtensions, Canonical, Value;
    var list := EncodeSignatures(sigs).value;
    ReadRawWritten(version, extsRaw, start, end, inclusionProof, list);
    ParseEncodedSignatures(sigs, None);
  }

  lemma {:induction false} FitsIffExact(n: nat, width: nat)
    ensures Value(BigEndian(n, width)) == n <==> n < Pow256(width)
  {
    if n < Pow256(width) { ValueOfBigEndian(n, width); }
  }

  /** A structure parses back to itself exactly when it is well formed: coordinates
      below 2^48, extensions the parse of their raw bytes, cosigners in the draft's order. */
  lemma {:induction false} ProofRoundTrip(version: DraftVersion, p: MtcProof)
    requires EncodeProof(version, p.extsRaw, p.start, p.end, p.inclusionProof, p.signatures).Some?
    ensures ParseProof(version, EncodeProof(version, p.extsRaw, p.start, p.end, p.inclusionProof, p.signatures).value) == Some(p)
      <==> (&& p.start < 0x1_0000_0000_0000 && p.end < 0x1_0000_0000_0000
            && ParseExtensions(p.extsRaw, -1) == Some(p.exts)
            && InDraftOrder(p.signatures))
  {
    hide InDraftOrder, BigEndian, EncodeProof, ParseProof, ParseExtensions, Canonical, Value;
    Widths();
    CanonicalIs(p.signatures, None);
    FitsIffExact(p.start, 6);
    FitsIffExact(p.end, 6);
    ParseOfEncoded(version, p.extsRaw, p.start, p.end, p.inclusionProof, p.signatures);
  }

  /** Extensions written from a list are the parse of their bytes exactly when the
      list is in ascending order. */
  lemma {:induction false} ExtensionsRoundTrip(exts: seq<EntryExtension>)
    requires TypesFit(exts) && EncodeExtensions(exts).Some?
    ensures ParseExtensions(EncodeExtensions(exts).value, -1) == Some(exts) <==> TypesAscend(exts)
  {
    hide TypesAscend, EncodeExtensions, ParseExtensions, Ascending;
    ParseEncodedExtensions(exts, -1);
    AscendingIs(exts, -1);
  }

  /** Every byte string that parses is the encoding of what it parses to. */
  lemma {:induction false} ParsedIsEncoded(version: DraftVersion, s: Bytes)
    requires ParseProof(version, s).Some?
    ensures var p := ParseProof(version, s).value;
      && EncodeProof(version, p.extsRaw, p.start, p.end, p.inclusionProof, p.signatures) == Some(s)
      && EncodeExtensions(p.exts) == Some(p.extsRaw)
      && Ascending(p.exts, -1) && TypesFit(p.exts) && Canonical(p.signatures, None)
      && TypesAscend(p.exts) && InDraftOrder(p.signatures)
      && p.start < 0x1_0000_0000_0000 && p.end < 0x1_0000_0000_0000
  {
    hide InDraftOrder, TypesAscend, BigEndian, Prefixed, SignaturesWidth, ReadRawProof, EncodeSignatures, EncodeExtensions, ParseSignatures, ParseExtensions, Canonical, Ascending, TypesFit;
    var raw := ReadRawProof(version, s).value;
    RawIsWritten(version, s);
    ExtensionsAreWritten(raw.extsRaw, -1);
    SignaturesAreWritten(raw.sigs, None);
    AscendingIs(ParseExtensions(raw.extsRaw, -1).value, -1);
    CanonicalIs(ParseSignatures(raw.sigs, None).value, None);
  }

  /** Written cosignatures are accepted exactly in the draft's order. */
  lemma {:induction false} SignaturesRoundTrip(sigs: seq<Cosignature>)
    requires EncodeSignatures(sigs).Some?
    ensures ParseSignatures(EncodeSignatures(sigs).value, None) == (if InDraftOrder(sigs) then Some(sigs) else None)
  {
    hide EncodeSignatures, ParseSignatures, Canonical, InDraftOrder;
    ParseEncodedSignatures(sigs, None);
    CanonicalIs(sigs, None);
  }

  // ----- Sorting the cosignatures -----

  /** Insertion by the canonical order; it stands for the library sort, whose result
      on distinct IDs is the same. */
  function Insert(c: Cosignature, sigs: seq<Cosignature>): seq<Cosignature> {
    if |sigs| == 0 || CompareIds(c.id, sigs[0].id) <= 0 then [c] + sigs
    else [sigs[0]] + Insert(c, sigs[1..])
  }

  function SortCosignatures(sigs: seq<Cosignature>): seq<Cosignature> {
    if |sigs| == 0 then [] else Insert(sigs[0], SortCosignatures(sigs[1..]))
  }

  predicate HasId(sigs: seq<Cosignature>, id: Bytes) {
    exists k :: 0 <= k < |sigs| && sigs[k].id == id
  }

  predicate DistinctIds(sigs: seq<Cosignature>) {
    |sigs| == 0 || (|sigs[0].id| != 0 && !HasId(sigs[1..], sigs[0].id) && DistinctIds(sigs[1..]))
  }

  lemma {:induction false} HasIdSplit(sigs: seq<Cosignature>, id: Bytes)
    requires |sigs| != 0
    ensures HasId(sigs, id) <==> sigs[0].id == id || HasId(sigs[1..], id)
  {
    if HasId(sigs, id) && sigs[0].id != id {
      var k :| 0 <= k < |sigs| && sigs[k].id == id;
      assert sigs[1..][k - 1].id == id;
    }
    if HasId(sigs[1..], id) {
      var k :| 0 <= k < |sigs[1..]| && sigs[1..][k].id == id;
      assert sigs[k + 1].id == id;
    }
  }

  lemma {:induction false} InsertIds(c: Cosignature, sigs: seq<Cosignature>, id: Bytes)
    ensures HasId(Insert(c, sigs), id) <==> c.id == id || HasId(sigs, id)
    ensures multiset(Insert(c, sigs)) == multiset(sigs) + multiset{c}
  {
    hide HasId, CompareIds;
    var r := Insert(c, sigs);
    HasIdSplit(r, id);
    if r == [c] + sigs {
      assert r[1..] == sigs;
    } else {
      InsertIds(c, sigs[1..], id);
      HasIdSplit(sigs, id);
      assert r[1..] == Insert(c, sigs[1..]);
      assert sigs == [sigs[0]] + sigs[1..];
    }
  }

  lemma {:induction false} SortIds(sigs: seq<Cosignature>, id: Bytes)
    ensures HasId(SortCosignatures(sigs), id) <==> HasId(sigs, id)
    ensures multiset(SortCosignatures(sigs)) == multiset(sigs)
  {
    hide HasId, Insert;
    if |sigs| != 0 {
      SortIds(sigs[1..], id);
      HasIdSplit(sigs, id);
      InsertIds(sigs[0], SortCosignatures(sigs[1..]), id);
      assert sigs == [sigs[0]] + sigs[1..];
    }
  }

  lemma {:induction false} InsertIsCanonical(c: Cosignature, sigs: seq<Cosignature>, prev: Option<Bytes>)
    requires Canonical(sigs, prev) && |c.id| != 0 && !HasId(sigs, c.id)
    requires prev.Some? ==> CompareIds(prev.value, c.id) < 0
    ensures Canonical(Insert(c, sigs), prev)
  {
    hide HasId, CompareIds;
    var r := Insert(c, sigs);
    if |sigs| == 0 {
      assert r == [c] && r[1..] == [];
    } else {
      HasIdSplit(sigs, c.id);
      CompareIdsOrder(c.id, sigs[0].id, c.id);
      if CompareIds(c.id, sigs[0].id) <= 0 {
        assert r[1..] == sigs;
      } else {
        InsertIsCanonical(c, sigs[1..], Some(sigs[0].id));
        assert r[1..] == Insert(c, sigs[1..]);
      }
    }
  }

  /** Every cosignature of a canonical list comes after prev. */
  lemma {:induction false} AllAfter(sigs: seq<Cosignature>, prev: Bytes, k: nat)
    requires Canonical(sigs, Some(prev)) && k < |sigs|
    ensures CompareIds(prev, sigs[k].id) < 0
  {
    hide CompareIds;
    if k != 0 {
      AllAfter(sigs[1..], sigs[0].id, k - 1);
      CompareIdsOrder(prev, sigs[0].id, sigs[k].id);
    }
  }

  lemma {:induction false} CanonicalIsDistinct(sigs: seq<Cosignature>, prev: Option<Bytes>)
    requires Canonical(sigs, prev)
    ensures DistinctIds(sigs)
  {
    hide CompareIds;
    if |sigs| != 0 {
      CanonicalIsDistinct(sigs[1..], Some(sigs[0].id));
      if HasId(sigs[1..], sigs[0].id) {
        var k :| 0 <= k < |sigs[1..]| && sigs[1..][k].id == sigs[0].id;
        AllAfter(sigs[1..], sigs[0].id, k);
        CompareIdsOrder(sigs[0].id, sigs[0].id, sigs[0].id);
      }
    }
  }

  lemma {:induction false} InsertDistinct(c: Cosignature, sigs: seq<Cosignature>)
    requires DistinctIds(Insert(c, sigs))
    ensures |c.id| != 0 && !HasId(sigs, c.id) && DistinctIds(sigs)
  {
    hide HasId, CompareIds;
    var r := Insert(c, sigs);
    if r == [c] + sigs {
      assert r[1..] == sigs;
    } else {
      assert r[1..] == Insert(c, sigs[1..]);
      InsertDistinct(c, sigs[1..]);
      InsertIds(c, sigs[1..], sigs[0].id);
      HasIdSplit(sigs, c.id);
    }
  }

  /** Sorting gives the order the parser demands exactly when the IDs are distinct
      and not empty, and no cosignature is lost or added. */
  lemma {:induction false} SortIsCanonical(sigs: seq<Cosignature>)
    ensures Canonical(SortCosignatures(sigs), None) <==> DistinctIds(sigs)
    ensures InDraftOrder(SortCosignatures(sigs)) <==> DistinctIds(sigs)
    ensures multiset(SortCosignatures(sigs)) == multiset(sigs)
  {
    hide HasId, Insert, Canonical, CompareIds, InDraftOrder;
    SortIds(sigs, []);
    CanonicalIs(SortCosignatures(sigs), None);
    if DistinctIds(sigs) { SortDistinct(sigs); }
    if Canonical(SortCosignatures(sigs), None) {
      CanonicalIsDistinct(SortCosignatures(sigs), None);
      DistinctBeforeSort(sigs);
    }
  }

  lemma {:induction false} SortDistinct(sigs: seq<Cosignature>)
    requires DistinctIds(sigs)
    ensures Canonical(SortCosignatures(sigs), None)
  {
    hide HasId, Insert;
    if |sigs| != 0 {
      SortDistinct(sigs[1..]);
      SortIds(sigs[1..], sigs[0].id);
      InsertIsCanonical(sigs[0], SortCosignatures(sigs[1..]), None);
    }
  }

  lemma {:induction false} DistinctBeforeSort(sigs: seq<Cosignature>)
    requires DistinctIds(SortCosignatures(sigs))
    ensures DistinctIds(sigs)
  {
    hide HasId, Insert;
    if |sigs| != 0 {
      InsertDistinct(sigs[0], SortCosignatures(sigs[1..]));
      DistinctBeforeSort(sigs[1..]);
      SortIds(sigs[1..], sigs[0].id);
    }
  }

  /** A canonical list is determined by its members, so the choice of the sorting
      algorithm does not matter. */
  lemma {:induction false} CanonicalIsUnique(a: seq<Cosignature>, b: seq<Cosignature>, prev: Option<Bytes>)
    requires Canonical(a, prev) && Canonical(b, prev)
    requires multiset(a) == multiset(b)
    ensures a == b
  {
    hide CompareIds;
    if |a| == 0 || |b| == 0 {
      assert |multiset(a)| == |a| && |multiset(b)| == |b|;
    } else {
      if a[0] != b[0] {
        SmallestFirst(a, b);
        SmallestFirst(b, a);
        CompareIdsOrder(a[0].id, b[0].id, a[0].id);
      }
      assert a == [a[0]] + a[1..] && b == [b[0]] + b[1..];
      assert multiset(a[1..]) == multiset(a) - multiset{a[0]};
      assert multiset(b[1..]) == multiset(b) - multiset{b[0]};
      CanonicalIsUnique(a[1..], b[1..], Some(a[0].id));
    }
  }

  lemma {:induction false} SmallestFirst(a: seq<Cosignature>, b: seq<Cosignature>)
    requires |a| != 0 && |b| != 0 && a[0] != b[0]
    requires Canonical(a[1..], Some(a[0].id))
    requires multiset(a) == multiset(b)
    ensures CompareIds(a[0].id, b[0].id) < 0
  {
    hide CompareIds;
    assert b[0] in multiset(a);
    var k :| 0 <= k < |a| && a[k] == b[0];
    AllAfter(a[1..], a[0].id, k - 1);
  }

  // ----- Distinct IDs and sizes, as sums over the list -----

  function IdsOf(sigs: seq<Cosignature>): (ids: seq<Bytes>)
    ensures |ids| == |sigs|
  {
    seq(|sigs|, k requires 0 <= k < |sigs| => sigs[k].id)
  }

  /** No ID is empty and no two are equal. */
  predicate AreDistinct(ids: seq<Bytes>) {
    && (forall k :: 0 <= k < |ids| ==> |ids[k]| != 0)
    && forall a, b :: 0 <= a < b < |ids| ==> ids[a] != ids[b]
  }

  lemma {:induction false} DistinctIdsAre(sigs: seq<Cosignature>)
    ensures DistinctIds(sigs) <==> AreDistinct(IdsOf(sigs))
  {
    if |sigs| != 0 {
      var ids, rest := IdsOf(sigs), IdsOf(sigs[1..]);
      DistinctIdsAre(sigs[1..]);
      assert ids[1..] == rest;
      DistinctSplit(ids);
      if HasId(sigs[1..], sigs[0].id) {
        var k :| 0 <= k < |sigs[1..]| && sigs[1..][k].id == sigs[0].id;
        assert rest[k] == ids[0];
      }
      if ids[0] in rest {
        var k :| 0 <= k < |rest| && rest[k] == ids[0];
        assert sigs[1..][k].id == sigs[0].id;
      }
    }
  }

  lemma {:induction false} DistinctSplit(ids: seq<Bytes>)
    requires |ids| != 0
    ensures AreDistinct(ids) <==> |ids[0]| != 0 && ids[0] !in ids[1..] && AreDistinct(ids[1..])
  {
    var rest := ids[1..];
    if AreDistinct(ids) {
      forall k | 0 <= k < |rest| ensures rest[k] != ids[0] && |rest[k]| != 0 { assert rest[k] == ids[k + 1]; }
      forall a, b | 0 <= a < b < |rest| ensures rest[a] != rest[b] { assert ids[a + 1] != ids[b + 1]; }
    }
    if |ids[0]| != 0 && ids[0] !in rest && AreDistinct(rest) {
      forall k | 0 <= k < |ids| ensures |ids[k]| != 0 { if k != 0 { assert ids[k] == rest[k - 1]; } }
      forall a, b | 0 <= a < b < |ids| ensures ids[a] != ids[b] {
        assert ids[b] == rest[b - 1];
        if a != 0 { assert ids[a] == rest[a - 1]; }
      }
    }
  }

  /** IDs of at most 255 bytes and signatures of at most 65535. */
  predicate EachFits(sigs: seq<Cosignature>) {
    forall k :: 0 <= k < |sigs| ==> |sigs[k].id| < 0x100 && |sigs[k].signature| < 0x1_0000
  }

  /** A cosignature takes three bytes more than its ID and signature. */
  function ListSize(sigs: seq<Cosignature>): nat {
    if |sigs| == 0 then 0 else 3 + |sigs[0].id| + |sigs[0].signature| + ListSize(sigs[1..])
  }

  lemma {:induction false} SignaturesFit(sigs: seq<Cosignature>)
    ensures EncodeSignatures(sigs).Some? <==> EachFits(sigs)
    ensures EncodeSignatures(sigs).Some? ==> |EncodeSignatures(sigs).value| == ListSize(sigs)
  {
    hide BigEndian, Pow256;
    Widths();
    if |sigs| != 0 {
      SignaturesFit(sigs[1..]);
      if EachFits(sigs[1..]) && |sigs[0].id| < 0x100 && |sigs[0].signature| < 0x1_0000 {
        forall k | 0 <= k < |sigs| ensures |sigs[k].id| < 0x100 && |sigs[k].signature| < 0x1_0000 {
          if k != 0 { assert sigs[k] == sigs[1..][k - 1]; }
        }
      }
    }
  }

  /** When a proof can be written: the lists have room, with a longer list of
      cosignatures from plants-06 on. */
  lemma {:induction false} ProofFits(version: DraftVersion, extsRaw: Bytes, start: nat, end: nat, inclusionProof: Bytes, sigs: seq<Cosignature>)
    ensures EncodeProof(version, extsRaw, start, end, inclusionProof, sigs).Some? <==>
      && |extsRaw| < 0x1_0000 && |inclusionProof| < 0x1_0000 && EachFits(sigs)
      && ListSize(sigs) < (if version == Plants04 || version == Plants05 then 0x1_0000 else 0x100_0000)
  {
    hide BigEndian, EncodeSignatures, EachFits, ListSize, Pow256;
    Widths();
    SignaturesFit(sigs);
  }

  lemma {:induction false} ProofLengthIs(version: DraftVersion, extsRaw: Bytes, start: nat, end: nat, inclusionProof: Bytes, sigs: seq<Cosignature>)
    requires EncodeProof(version, extsRaw, start, end, inclusionProof, sigs).Some?
    ensures |EncodeProof(version, extsRaw, start, end, inclusionProof, sigs).value|
      <= 19 + |extsRaw| + |inclusionProof| + ListSize(sigs)
  {
    hide BigEndian, EncodeSignatures, EachFits, ListSize, Pow256;
    SignaturesFit(sigs);
  }

  /** Sorting changes neither what fits nor how much room it takes. */
  lemma {:induction false} SortKeepsSize(sigs: seq<Cosignature>)
    ensures ListSize(SortCosignatures(sigs)) == ListSize(sigs)
    ensures EachFits(SortCosignatures(sigs)) <==> EachFits(sigs)
  {
    hide Insert;
    if |sigs| != 0 {
      SortKeepsSize(sigs[1..]);
      InsertSize(sigs[0], SortCosignatures(sigs[1..]));
      EachFitsSplit(sigs);
    }
  }

  lemma {:induction false} EachFitsSplit(sigs: seq<Cosignature>)
    requires |sigs| != 0
    ensures EachFits(sigs) <==> |sigs[0].id| < 0x100 && |sigs[0].signature| < 0x1_0000 && EachFits(sigs[1..])
  {
    forall k | 0 <= k < |sigs| - 1 ensures sigs[1..][k] == sigs[k + 1] {}
    if |sigs[0].id| < 0x100 && |sigs[0].signature| < 0x1_0000 && EachFits(sigs[1..]) {
      forall k | 0 <= k < |sigs| ensures |sigs[k].id| < 0x100 && |sigs[k].signature| < 0x1_0000 {
        if k != 0 { assert sigs[k] == sigs[1..][k - 1]; }
      }
    }
  }

  lemma {:induction false} InsertSize(c: Cosignature, sigs: seq<Cosignature>)
    ensures ListSize(Insert(c, sigs)) == 3 + |c.id| + |c.signature| + ListSize(sigs)
    ensures EachFits(Insert(c, sigs)) <==> |c.id| < 0x100 && |c.signature| < 0x1_0000 && EachFits(sigs)
  {
    hide CompareIds, EachFits;
    var r := Insert(c, sigs);
    EachFitsSplit(r);
    if r == [c] + sigs {
      assert r[1..] == sigs;
    } else {
      InsertSize(c, sigs[1..]);
      EachFitsSplit(sigs);
      assert r[1..] == Insert(c, sigs[1..]);
    }
  }

  // ----- Where the fields are -----

  /** A cosignature: the length of the ID in one byte, the ID, the length of the
      signature in two, the signature; then the others. */
  lemma {:induction false} SignatureLayout(sigs: seq<Cosignature>)
    requires |sigs| != 0 && EncodeSignatures(sigs).Some?
    ensures var s, id, signature := EncodeSignatures(sigs).value, sigs[0].id, sigs[0].signature;
      && |s| >= 3 + |id| + |signature| && EncodeSignatures(sigs[1..]).Some?
      && Value(s[..1]) == |id| && s[1..1 + |id|] == id
      && Value(s[1 + |id|..3 + |id|]) == |signature| && s[3 + |id|..3 + |id| + |signature|] == signature
      && s[3 + |id| + |signature|..] == EncodeSignatures(sigs[1..]).value
  {
    hide BigEndian, Value, EncodeSignatures;
    Widths();
    SignaturesSplit(sigs);
    var id, signature, rest := sigs[0].id, sigs[0].signature, EncodeSignatures(sigs[1..]).value;
    var a, b := BigEndian(|id|, 1), BigEndian(|signature|, 2);
    ValueOfBigEndian(|id|, 1);
    ValueOfBigEndian(|signature|, 2);
    var s := EncodeSignatures(sigs).value;
    assert s == a + id + (b + signature) + rest;
    assert s[..1] == a && s[1..1 + |id|] == id && s[1 + |id|..3 + |id|] == b;
    assert s[3 + |id|..3 + |id| + |signature|] == signature && s[3 + |id| + |signature|..] == rest;
  }

  lemma {:induction false} SignaturesSplit(sigs: seq<Cosignature>)
    requires |sigs| != 0 && EncodeSignatures(sigs).Some?
    ensures Prefixed(1, sigs[0].id).Some? && Prefixed(2, sigs[0].signature).Some? && EncodeSignatures(sigs[1..]).Some?
    ensures EncodeSignatures(sigs).value ==
      Prefixed(1, sigs[0].id).value + Prefixed(2, sigs[0].signature).value + EncodeSignatures(sigs[1..]).value
  {
    hide Prefixed;
  }

  /** The structure: extensions, start, end, inclusion proof, cosignatures. */
  lemma {:induction false} ProofLayout(version: DraftVersion, extsRaw: Bytes, start: nat, end: nat, inclusionProof: Bytes, sigs: seq<Cosignature>)
    requires EncodeProof(version, extsRaw, start, end, inclusionProof, sigs).Some?
    requires start < 0x1_0000_0000_0000 && end < 0x1_0000_0000_0000
    ensures var s, n, m := EncodeProof(version, extsRaw, start, end, inclusionProof, sigs).value, 2 + |extsRaw|, |inclusionProof|;
      var w := if version == Plants04 || version == Plants05 then 2 else 3;
      && |s| >= n + 14 + m + w && EncodeSignatures(sigs).Some?
      && Value(s[..2]) == |extsRaw| && s[2..n] == extsRaw
      && Value(s[n..n + 6]) == start && Value(s[n + 6..n + 12]) == end
      && Value(s[n + 12..n + 14]) == m && s[n + 14..n + 14 + m] == inclusionProof
      && Value(s[n + 14 + m..n + 14 + m + w]) == |EncodeSignatures(sigs).value|
      && s[n + 14 + m + w..] == EncodeSignatures(sigs).value
  {
    hide BigEndian, Value, EncodeSignatures, Pow256;
    Widths();
    var list := EncodeSignatures(sigs).value;
    var w := SignaturesWidth(version);
    var a, b, c, d, e := BigEndian(|extsRaw|, 2), BigEndian(start, 6), BigEndian(end, 6), BigEndian(|inclusionProof|, 2), BigEndian(|list|, w);
    ValueOfBigEndian(|extsRaw|, 2);
    ValueOfBigEndian(start, 6);
    ValueOfBigEndian(end, 6);
    ValueOfBigEndian(|inclusionProof|, 2);
    ValueOfBigEndian(|list|, w);
    var s := EncodeProof(version, extsRaw, start, end, inclusionProof, sigs).value;
    assert s == (a + extsRaw) + (b + (c + ((d + inclusionProof) + (e + list))));
    var n, m := 2 + |extsRaw|, |inclusionProof|;
    assert s[..2] == a && s[2..n] == extsRaw && s[n..n + 6] == b && s[n + 6..n + 12] == c;
    assert s[n + 12..n + 14] == d && s[n + 14..n + 14 + m] == inclusionProof;
    assert s[n + 14 + m..n + 14 + m + w] == e && s[n + 14 + m + w..] == list;
  }
}
