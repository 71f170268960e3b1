/** What a cosigner signs, and the ID of a log. */
module Cosigning {
  import opened Bits
  import opened Hashing
  import opened Subtrees
  import opened TrustAnchors
  import opened TrustAnchorText
  import opened Wire

  /** "oid/1.3.6.1.4.1." */
  const ORIGIN_PREFIX: Bytes :=
    [0x6F, 0x69, 0x64, 0x2F, 0x31, 0x2E, 0x33, 0x2E, 0x36, 0x2E, 0x31, 0x2E, 0x34, 0x2E, 0x31, 0x2E]

  function TlogOrigin(id: Bytes): Bytes { ORIGIN_PREFIX + IdText(id) }

  /** "subtree/v1\n\0" */
  const MESSAGE_LABEL: Bytes := [0x73, 0x75, 0x62, 0x74, 0x72, 0x65, 0x65, 0x2F, 0x76, 0x31, 0x0A, 0x00]

  /** cosignedMessage, from plants-04 on. It fails for a timestamp on anything but a
      checkpoint, for an origin longer than 255 bytes and for an invalid subtree. */
  function CosignedMessage(cosignerId: Bytes, logId: Bytes, timestamp: uint64, start: uint64, end: uint64, hash: HashValue): Option<Bytes> {
    if timestamp != 0 && start != 0 then None
    else
      match Prefixed(1, TlogOrigin(cosignerId))
      case None => None
      case Some(cosignerName) =>
        match Prefixed(1, TlogOrigin(logId))
        case None => None
        case Some(logOrigin) =>
          if !IsValidSubtree(start, end) then None
          else Some(MESSAGE_LABEL + (cosignerName + (BigEndian(timestamp, 8) + (logOrigin
            + (BigEndian(start, 8) + (BigEndian(end, 8) + hash))))))
  }

  /** LogID, from plants-04 on */
  method LogID(caId: Bytes, logNumber: uint16) returns (id: Bytes)
    ensures id == LogIdOf(caId, logNumber)
  {
    id := AppendBase128(caId, 0);
    id := AppendBase128(id, logNumber);
  }

  function LogIdOf(caId: Bytes, logNumber: uint16): Bytes {
    caId + Subidentifier(0) + Subidentifier(logNumber)
  }

  lemma {:induction false} PrefixedInjective(width: nat, a: Bytes, b: Bytes, restA: Bytes, restB: Bytes)
    requires Prefixed(width, a).Some? && Prefixed(width, b).Some?
    requires Prefixed(width, a).value + restA == Prefixed(width, b).value + restB
    ensures a == b && restA == restB
  {
    hide Prefixed, ReadPrefixed;
    ReadPrefixedWritten(width, a, restA);
    ReadPrefixedWritten(width, b, restB);
  }

  /** The fields of a signed message, read in the order of the draft's CosignedSubtree. */
  datatype Message = Message(cosignerName: Bytes, timestamp: nat, logOrigin: Bytes, start: nat, end: nat, hash: Bytes)

  function ReadMessage(m: Bytes): Option<Message> {
    if !(MESSAGE_LABEL <= m) then None
    else
      match ReadPrefixed(m[|MESSAGE_LABEL|..], 1)
      case None => None
      case Some(name) =>
      match ReadUint(name.rest, 8)
      case None => None
      case Some(timestamp) =>
      match ReadPrefixed(timestamp.rest, 1)
      case None => None
      case Some(origin) =>
      match ReadUint(origin.rest, 8)
      case None => None
      case Some(start) =>
      match ReadUint(start.rest, 8)
      case None => None
      case Some(end) =>
        if |end.rest| != 32 then None
        else Some(Message(name.v, timestamp.v, origin.v, start.v, end.v, end.rest))
  }

  lemma {:induction false} ReadWord64(v: uint64, rest: Bytes)
    ensures ReadUint(BigEndian(v, 8) + rest, 8) == Some(Read(v, rest))
  {
    hide BigEndian, ReadUint, Pow256;
    Widths();
    ReadUintWritten(v, 8, rest);
  }

  /** The message carries every field in its place, and is there exactly for a
      subtree, short names, and no timestamp unless the subtree starts at zero. */
  lemma {:induction false} MessageFields(cosignerId: Bytes, logId: Bytes, timestamp: uint64, start: uint64, end: uint64, hash: HashValue)
    ensures CosignedMessage(cosignerId, logId, timestamp, start, end, hash).Some? <==>
      && IsSubtree(start, end) && (timestamp == 0 || start == 0)
      && |TlogOrigin(cosignerId)| <= 255 && |TlogOrigin(logId)| <= 255
    ensures CosignedMessage(cosignerId, logId, timestamp, start, end, hash).Some? ==>
      ReadMessage(CosignedMessage(cosignerId, logId, timestamp, start, end, hash).value)
      == Some(Message(TlogOrigin(cosignerId), timestamp, TlogOrigin(logId), start, end, hash))
  {
    hide TlogOrigin, BigEndian, IsValidSubtree, IsSubtree, MESSAGE_LABEL, ReadUint, ReadPrefixed;
    Widths();
    IsValidSubtreeIsExact(start, end);
    if CosignedMessage(cosignerId, logId, timestamp, start, end, hash).Some? {
      hide Prefixed;
      var name, origin := Prefixed(1, TlogOrigin(cosignerId)).value, Prefixed(1, TlogOrigin(logId)).value;
      var fromEnd := BigEndian(end, 8) + hash;
      var fromStart := BigEndian(start, 8) + fromEnd;
      var fromTime := BigEndian(timestamp, 8) + (origin + fromStart);
      assert (MESSAGE_LABEL + (name + fromTime))[|MESSAGE_LABEL|..] == name + fromTime;
      ReadPrefixedWritten(1, TlogOrigin(cosignerId), fromTime);
      ReadWord64(timestamp, origin + fromStart);
      ReadPrefixedWritten(1, TlogOrigin(logId), fromStart);
      ReadWord64(start, fromEnd);
      ReadWord64(end, hash);
    }
  }

  /** The origin as the draft words it: a fixed text, then the text of the ID. */
  function DraftOrigin(id: Bytes): Bytes { Ascii("oid/1.3.6.1.4.1.") + IdText(id) }

  /** m is the message of the draft for these fields: what a reader finds in it. */
  predicate IsSubtreeMessage(m: Bytes, cosignerId: Bytes, logId: Bytes, start: nat, end: nat, hash: HashValue) {
    && IsSubtree(start, end)
    && ReadMessage(m) == Some(Message(
         DraftOrigin(cosignerId), 0, DraftOrigin(logId), start, end, hash))
  }

  lemma {:induction false} OriginIs(id: Bytes)
    ensures TlogOrigin(id) == DraftOrigin(id)
  {
    hide IdText;
    assert ORIGIN_PREFIX == Ascii("oid/1.3.6.1.4.1.");
  }

  lemma {:induction false} LabelIs()
    ensures MESSAGE_LABEL == Ascii("subtree/v1\n\0")
  {
  }

  lemma {:induction false} WordIsWritten(s: Bytes)
    requires ReadUint(s, 8).Some?
    ensures ReadUint(s, 8).value.v < 0x1_0000_0000_0000_0000
    ensures s == BigEndian(ReadUint(s, 8).value.v, 8) + ReadUint(s, 8).value.rest
  {
    hide BigEndian, Pow256;
    Widths();
    UintIsWritten(s, 8);
  }

  /** Fields determine the message that carries them. */
  lemma {:induction false} ReadMessageIsWritten(m: Bytes)
    requires ReadMessage(m).Some?
    ensures var f := ReadMessage(m).value;
      && Prefixed(1, f.cosignerName).Some? && Prefixed(1, f.logOrigin).Some? && |f.hash| == 32
      && m == MESSAGE_LABEL + (Prefixed(1, f.cosignerName).value + (BigEndian(f.timestamp, 8) + (Prefixed(1, f.logOrigin).value
           + (BigEndian(f.start, 8) + (BigEndian(f.end, 8) + f.hash)))))
  {
    hide Prefixed, ReadPrefixed, ReadUint, BigEndian, MESSAGE_LABEL;
    var s0 := m[|MESSAGE_LABEL|..];
    assert m == MESSAGE_LABEL + s0;
    PrefixedIsWritten(s0, 1);
    var s1 := ReadPrefixed(s0, 1).value.rest;
    WordIsWritten(s1);
    var s2 := ReadUint(s1, 8).value.rest;
    PrefixedIsWritten(s2, 1);
    var s3 := ReadPrefixed(s2, 1).value.rest;
    WordIsWritten(s3);
    WordIsWritten(ReadUint(s3, 8).value.rest);
  }

  /** The code's message for a subtree signature is the draft's, if there is one. */
  lemma {:induction false} MessageIsDrafts(cosignerId: Bytes, logId: Bytes, start: uint64, end: uint64, hash: HashValue, m: Bytes)
    ensures CosignedMessage(cosignerId, logId, 0, start, end, hash) == Some(m)
      <==> IsSubtreeMessage(m, cosignerId, logId, start, end, hash)
  {
    hide TlogOrigin, DraftOrigin, ReadMessage, IsSubtree, IsValidSubtree, Prefixed, BigEndian, MESSAGE_LABEL, IdText;
    OriginIs(cosignerId);
    OriginIs(logId);
    MessageFields(cosignerId, logId, 0, start, end, hash);
    if IsSubtreeMessage(m, cosignerId, logId, start, end, hash) {
      IsValidSubtreeIsExact(start, end);
      ReadMessageIsWritten(m);
    }
  }

  /** The draft wants signing to fail when a component of an ID is out of range. The
      demo signs over the marked form of the ID instead; here the component is 2^32. */
  lemma {:induction false} UnreadableIdIsSigned(hash: HashValue)
    ensures var id: Bytes := [0x90, 0x80, 0x80, 0x80, 0x00];
      !IsId(id) && CosignedMessage(id, id, 0, 0, 1, hash).Some?
  {
    hide CosignedMessage, Prefixed, BigEndian, Hex;
    var id: Bytes := [0x90, 0x80, 0x80, 0x80, 0x00];
    TooLarge(id);
    HexLength(id);
    ZeroIsAligned(1);
    MessageFields(id, id, 0, 0, 1, hash);
  }

  lemma {:induction false} TooLarge(id: Bytes)
    requires id == [0x90, 0x80, 0x80, 0x80, 0x00]
    ensures !IsId(id)
  {
    assert ReadGroups(0x200_0000, [0x00]) == None;
    assert id[1..] == [0x80, 0x80, 0x80, 0x00];
    assert id[1..][1..] == [0x80, 0x80, 0x00];
    assert id[1..][1..][1..] == [0x80, 0x00];
    assert id[1..][1..][1..][1..] == [0x00];
    assert ReadGroups(0x4_0000, [0x80, 0x00]) == ReadGroups(0x200_0000, [0x00]);
    assert ReadGroups(0x800, [0x80, 0x80, 0x00]) == ReadGroups(0x4_0000, [0x80, 0x00]);
    assert ReadGroups(0x10, [0x80, 0x80, 0x80, 0x00]) == ReadGroups(0x800, [0x80, 0x80, 0x00]);
  }

  lemma {:induction false} OriginInjective(a: Bytes, b: Bytes)
    requires TlogOrigin(a) == TlogOrigin(b)
    ensures a == b
  {
    hide IdText;
    assert TlogOrigin(a)[|ORIGIN_PREFIX|..] == IdText(a);
    assert TlogOrigin(b)[|ORIGIN_PREFIX|..] == IdText(b);
    IdTextInjective(a, b);
  }

  /** Two signed messages coincide only when every field does, for all byte strings
      as IDs. */
  lemma {:induction false} MessageInjective(
      c1: Bytes, l1: Bytes, t1: uint64, s1: uint64, e1: uint64, h1: HashValue,
      c2: Bytes, l2: Bytes, t2: uint64, s2: uint64, e2: uint64, h2: HashValue)
    requires CosignedMessage(c1, l1, t1, s1, e1, h1).Some?
    requires CosignedMessage(c1, l1, t1, s1, e1, h1) == CosignedMessage(c2, l2, t2, s2, e2, h2)
    ensures c1 == c2 && l1 == l2 && t1 == t2 && s1 == s2 && e1 == e2 && h1 == h2
  {
    hide CosignedMessage, ReadMessage, TlogOrigin, IsSubtree;
    MessageFields(c1, l1, t1, s1, e1, h1);
    MessageFields(c2, l2, t2, s2, e2, h2);
    OriginInjective(c1, c2);
    OriginInjective(l1, l2);
  }

  lemma {:induction false} LogIdComponents(caId: Bytes, logNumber: uint16)
    requires IsId(caId)
    ensures Components(LogIdOf(caId, logNumber)) == Some(Components(caId).value + [0, logNumber])
    ensures IsId(LogIdOf(caId, logNumber))
  {
    hide EncodeId, Components, Subidentifier;
    var parts := Components(caId).value;
    EncodedComponents(caId);
    EncodeAppend(parts, 0);
    EncodeAppend(parts + [0], logNumber);
    ComponentsOfEncoded(parts + [0] + [logNumber]);
    assert parts + [0] + [logNumber] == parts + [0, logNumber];
  }

  /** Different CAs or log numbers have different log IDs, which are IDs again. */
  lemma {:induction false} LogIdInjective(ca1: Bytes, n1: uint16, ca2: Bytes, n2: uint16)
    requires IsId(ca1) && IsId(ca2)
    requires LogIdOf(ca1, n1) == LogIdOf(ca2, n2)
    ensures ca1 == ca2 && n1 == n2
  {
    hide EncodeId, Components, Subidentifier, LogIdOf;
    LogIdComponents(ca1, n1);
    LogIdComponents(ca2, n2);
    var p1, p2 := Components(ca1).value, Components(ca2).value;
    var q1, q2 := p1 + [0, n1], p2 + [0, n2];
    assert q1[..|p1|] == p1 && q2[..|p2|] == p2 && q1[|p1| + 1] == n1 && q2[|p2| + 1] == n2;
    EncodedComponents(ca1);
    EncodedComponents(ca2);
  }
}
