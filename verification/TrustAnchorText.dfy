/** The text form of trust anchor IDs and patterns: decimal components separated by
    dots, ranges in braces, and a marked hexadecimal form for byte strings that are
    not IDs at all.
 */
module TrustAnchorText {
  import opened Bits
  import opened Hashing
  import opened TrustAnchors

  const DOT: byte := 0x2E
  const DASH: byte := 0x2D
  const OPEN: byte := 0x7B
  const CLOSE: byte := 0x7D

  // ----- Decimal numbers -----

  predicate IsDigit(b: byte) { 0x30 <= b <= 0x39 }

  predicate IsNumber(s: Bytes) { 0 < |s| && forall k :: 0 <= k < |s| ==> IsDigit(s[k]) }

  function Dec(v: nat): (s: Bytes)
    ensures IsNumber(s)
  {
    if v < 10 then [(0x30 + v) as byte] else Dec(v / 10) + [(0x30 + v % 10) as byte]
  }

  function DecValue(s: Bytes): int {
    if |s| == 0 then 0 else DecValue(s[..|s| - 1]) * 10 + (s[|s| - 1] as int - 0x30)
  }

  /** strconv.ParseUint(s, 10, 32) */
  function ParseUint(s: Bytes): Option<uint32> {
    if IsNumber(s) && 0 <= DecValue(s) < 0x1_0000_0000 then Some(DecValue(s)) else None
  }

  lemma {:induction false} DecValueOfDec(v: nat)
    ensures DecValue(Dec(v)) == v
  {
    var last: Bytes := [(0x30 + v % 10) as byte];
    if v < 10 {
      assert Dec(v)[..0] == [];
    } else {
      DecValueOfDec(v / 10);
      assert (Dec(v / 10) + last)[..|Dec(v / 10)|] == Dec(v / 10);
    }
  }

  lemma {:induction false} ParseUintOfDec(v: uint32)
    ensures ParseUint(Dec(v)) == Some(v)
  {
    hide Dec, DecValue, IsNumber;
    DecValueOfDec(v);
  }

  // ----- Joining and splitting at dots -----

  function Join(parts: seq<Bytes>): Bytes {
    if |parts| == 0 then [] else if |parts| == 1 then parts[0] else parts[0] + [DOT] + Join(parts[1..])
  }

  /** strings.Split(s, ".") */
  function Split(s: Bytes): (parts: seq<Bytes>)
    ensures 0 < |parts|
  {
    if |s| == 0 then [[]]
    else
      var tail := Split(s[1..]);
      if s[0] == DOT then [[]] + tail else [[s[0]] + tail[0]] + tail[1..]
  }

  lemma {:induction false} SplitAtDot(p: Bytes, rest: Bytes)
    requires DOT !in p
    ensures Split(p + [DOT] + rest) == [p] + Split(rest)
  {
    var s := p + [DOT] + rest;
    if |p| == 0 {
      assert s[1..] == rest;
    } else {
      SplitAtDot(p[1..], rest);
      assert s[1..] == p[1..] + [DOT] + rest;
      assert [p[0]] + p[1..] == p;
    }
  }

  lemma {:induction false} SplitWhole(p: Bytes)
    requires DOT !in p
    ensures Split(p) == [p]
  {
    if |p| != 0 {
      SplitWhole(p[1..]);
      assert [p[0]] + p[1..] == p;
    }
  }

  lemma {:induction false} SplitJoin(parts: seq<Bytes>)
    requires 0 < |parts|
    requires forall k :: 0 <= k < |parts| ==> DOT !in parts[k]
    ensures Split(Join(parts)) == parts
  {
    hide Split;
    if |parts| == 1 {
      SplitWhole(parts[0]);
    } else {
      SplitJoin(parts[1..]);
      SplitAtDot(parts[0], Join(parts[1..]));
      assert parts == [parts[0]] + parts[1..];
    }
  }

  lemma {:induction false} JoinAppend(parts: seq<Bytes>, p: Bytes)
    ensures Join(parts + [p]) == if |parts| == 0 then p else Join(parts) + [DOT] + p
  {
    if |parts| == 0 {
      assert parts + [p] == [p];
    } else {
      JoinAppend(parts[1..], p);
      assert (parts + [p])[1..] == parts[1..] + [p];
      if |parts| == 1 {
        assert parts[1..] == [];
      } else {
        JoinAssoc(parts[0] + [DOT], Join(parts[1..]), [DOT], p);
      }
    }
  }

  lemma {:induction false} JoinAssoc(a: Bytes, b: Bytes, c: Bytes, d: Bytes)
    ensures a + (b + c + d) == (a + b) + c + d
  {
  }

  // ----- IDs -----

  function Texts(parts: seq<uint32>): (t: seq<Bytes>)
    ensures |t| == |parts|
  {
    seq(|parts|, k requires 0 <= k < |parts| => Dec(parts[k]))
  }

  function HexDigit(n: nat): byte
    requires n < 16
  {
    if n < 10 then (0x30 + n) as byte else (0x57 + n) as byte
  }

  function Hex(s: Bytes): Bytes {
    if |s| == 0 then []
    else [HexDigit(s[0] as nat / 16), HexDigit(s[0] as nat % 16)] + Hex(s[1..])
  }

  /** "<invalid: ...>" */
  function InvalidText(t: Bytes): Bytes {
    [0x3C, 0x69, 0x6E, 0x76, 0x61, 0x6C, 0x69, 0x64, 0x3A, 0x20] + Hex(t) + [0x3E]
  }

  /** TrustAnchorID.String */
  function IdText(id: Bytes): Bytes {
    if IsId(id) then Join(Texts(Components(id).value)) else InvalidText(id)
  }

  function ParseAll(parts: seq<Bytes>): Option<seq<uint32>> {
    if |parts| == 0 then Some([])
    else
      match ParseAll(parts[..|parts| - 1])
      case None => None
      case Some(values) =>
        match ParseUint(parts[|parts| - 1])
        case None => None
        case Some(v) => Some(values + [v])
  }

  /** TrustAnchorIDFromString */
  function IdFromText(s: Bytes): Option<Bytes> {
    match ParseAll(Split(s))
    case None => None
    case Some(values) => Some(EncodeId(values))
  }

  /** The components of an ID of which `done` have been read and `rest` has not. */
  ghost function Resume(done: seq<uint32>, rest: Bytes): Option<seq<uint32>> {
    match Components(rest)
    case None => None
    case Some(more) => Some(done + more)
  }

  lemma {:induction false} ResumeEnds(t: Bytes, done: seq<uint32>)
    ensures Resume([], t) == Components(t)
    ensures Resume(done, []) == Some(done)
  {
    if Components(t).Some? { assert [] + Components(t).value == Components(t).value; }
    assert done + [] == done;
  }

  lemma {:induction false} ResumeStep(rest: Bytes, done: seq<uint32>)
    requires |rest| != 0
    ensures Resume(done, rest) ==
      match ReadSubidentifier(rest) case None => None case Some(p) => Resume(done + [p.v], p.rest)
  {
    hide ReadSubidentifier;
    if ReadSubidentifier(rest).Some? {
      var p := ReadSubidentifier(rest).value;
      if Components(p.rest).Some? {
        var more := Components(p.rest).value;
        assert done + ([p.v] + more) == (done + [p.v]) + more;
      }
    }
  }

  method TrustAnchorIDString(t: Bytes) returns (text: Bytes)
    ensures text == IdText(t)
  {
    hide Components, Resume, Dec, Join, InvalidText, ReadSubidentifier;
    if |t| == 0 { return InvalidText(t); }
    var rest := t;
    ghost var done: seq<uint32> := [];
    text := [];
    JoinNone();
    ResumeEnds(t, []);
    while |rest| != 0
      invariant Resume(done, rest) == Components(t)
      invariant text == Join(Texts(done))
      invariant |text| != 0 <==> |done| != 0
      decreases |rest|
    {
      ResumeStep(rest, done);
      var p := ParseBase128(rest);
      if p.None? { return InvalidText(t); }
      TextsAppend(done, p.value.v);
      JoinAppend(Texts(done), Dec(p.value.v));
      if |text| != 0 { text := text + [DOT]; }
      text := text + Dec(p.value.v);
      done := done + [p.value.v];
      rest := p.value.rest;
    }
    ResumeEnds(t, done);
  }

  lemma {:induction false} JoinNone()
    ensures Join(Texts([])) == []
  {
  }

  lemma {:induction false} TextsAppend(parts: seq<uint32>, v: uint32)
    ensures Texts(parts + [v]) == Texts(parts) + [Dec(v)]
  {
  }

  method TrustAnchorIDFromString(s: Bytes) returns (t: Option<Bytes>)
    ensures t == IdFromText(s)
  {
    hide EncodeId, Split, ParseUint;
    var parts := Split(s);
    var id: Bytes := [];
    ghost var values: seq<uint32> := [];
    EncodeNone();
    for i := 0 to |parts|
      invariant ParseAll(parts[..i]) == Some(values)
      invariant id == EncodeId(values)
      invariant |values| == i
    {
      assert parts[..i + 1][..i] == parts[..i];
      var v := ParseUint(parts[i]);
      if v.None? {
        ParseAllStops(parts, i + 1);
        return None;
      }
      id := AppendBase128(id, v.value);
      EncodeAppend(values, v.value);
      values := values + [v.value];
    }
    assert parts[..|parts|] == parts;
    EncodeSome(values);
    if |id| == 0 { return None; }
    return Some(id);
  }

  lemma {:induction false} EncodeNone()
    ensures EncodeId([]) == []
  {
  }

  lemma {:induction false} EncodeSome(values: seq<uint32>)
    ensures |values| != 0 ==> |EncodeId(values)| != 0
  {
  }

  lemma {:induction false} ParseAllStops(parts: seq<Bytes>, i: nat)
    requires i <= |parts|
    requires ParseAll(parts[..i]).None?
    ensures ParseAll(parts).None?
    decreases |parts|
  {
    if i == |parts| {
      assert parts[..i] == parts;
    } else {
      assert parts[..|parts| - 1][..i] == parts[..i];
      ParseAllStops(parts[..|parts| - 1], i);
    }
  }

  lemma {:induction false} NumberHasNoDot(s: Bytes)
    requires IsNumber(s)
    ensures DOT !in s && DASH !in s && OPEN !in s
  {
  }

  lemma {:induction false} ParseAllOfTexts(parts: seq<uint32>)
    ensures ParseAll(Texts(parts)) == Some(parts)
  {
    hide Dec, ParseUint;
    if |parts| != 0 {
      var n := |parts| - 1;
      ParseAllOfTexts(parts[..n]);
      assert Texts(parts)[..n] == Texts(parts[..n]);
      ParseUintOfDec(parts[n]);
      assert parts == parts[..n] + [parts[n]];
    }
  }

  /** The text of an ID reads back as the ID. */
  lemma {:induction false} IdTextRoundTrip(id: Bytes)
    requires IsId(id)
    ensures IdFromText(IdText(id)) == Some(id)
  {
    hide Dec, Join, Split, EncodeId, Components, ParseAll;
    var parts := Components(id).value;
    EncodedComponents(id);
    if |parts| == 0 { EncodeNone(); }
    forall k | 0 <= k < |parts| ensures DOT !in Texts(parts)[k] { NumberHasNoDot(Dec(parts[k])); }
    SplitJoin(Texts(parts));
    ParseAllOfTexts(parts);
  }

  /** Whatever text is accepted, the result is an ID. */
  lemma {:induction false} IdFromTextIsId(s: Bytes)
    requires IdFromText(s).Some?
    ensures IsId(IdFromText(s).value)
  {
    hide EncodeId, Components, Split;
    var parts := ParseAll(Split(s)).value;
    ComponentsOfEncoded(parts);
    ParseAllLength(Split(s));
    EncodeSome(parts);
  }

  lemma {:induction false} ParseAllLength(parts: seq<Bytes>)
    requires ParseAll(parts).Some?
    ensures |ParseAll(parts).value| == |parts|
  {
    if |parts| != 0 { ParseAllLength(parts[..|parts| - 1]); }
  }

  lemma {:induction false} HexInjective(a: Bytes, b: Bytes)
    requires Hex(a) == Hex(b)
    ensures a == b
  {
    HexLength(a);
    HexLength(b);
    if |a| != 0 {
      HexHead(a);
      HexHead(b);
      HexInjective(a[1..], b[1..]);
      assert a == [a[0]] + a[1..] && b == [b[0]] + b[1..];
    }
  }

  lemma {:induction false} HexLength(a: Bytes)
    ensures |Hex(a)| == 2 * |a|
  {
    if |a| != 0 { HexLength(a[1..]); }
  }

  lemma {:induction false} HexHead(a: Bytes)
    requires |a| != 0
    ensures |Hex(a)| >= 2
    ensures Hex(a)[0] == HexDigit(a[0] as nat / 16) && Hex(a)[1] == HexDigit(a[0] as nat % 16)
    ensures Hex(a)[2..] == Hex(a[1..])
  {
  }

  lemma {:induction false} IdTextStart(id: Bytes)
    ensures |IdText(id)| != 0
    ensures IsId(id) <==> IdText(id)[0] != 0x3C
  {
    hide Dec, Components, Hex;
    if IsId(id) {
      var parts := Components(id).value;
      EncodedComponents(id);
      if |parts| == 0 { EncodeNone(); }
      assert Texts(parts)[0] == Dec(parts[0]);
      assert IsDigit(Dec(parts[0])[0]);
      JoinStart(Texts(parts));
    }
  }

  lemma {:induction false} JoinStart(parts: seq<Bytes>)
    requires |parts| != 0 && |parts[0]| != 0
    ensures |Join(parts)| != 0 && Join(parts)[0] == parts[0][0]
  {
  }

  /** No two byte strings, IDs or not, have the same text. */
  lemma {:induction false} IdTextInjective(a: Bytes, b: Bytes)
    requires IdText(a) == IdText(b)
    ensures a == b
  {
    hide Join, Components, Hex, IsId, IdFromText;
    IdTextStart(a);
    IdTextStart(b);
    if IsId(a) {
      IdTextRoundTrip(a);
      IdTextRoundTrip(b);
    } else {
      var t := IdText(a);
      assert t[10..|t| - 1] == Hex(a) && t[10..|t| - 1] == Hex(b);
      HexInjective(a, b);
    }
  }

  /** The characters, as characters. */
  lemma {:induction false} TextsAre(t: Bytes)
    ensures [DOT, DASH, OPEN, CLOSE] == Ascii(".-{}")
    ensures !IsId(t) ==> IdText(t) == Ascii("<invalid: ") + Hex(t) + Ascii(">")
    ensures forall n :: 0 <= n < 10 ==> Dec(n) == [Ascii("0123456789")[n]]
    ensures forall n :: 0 <= n < 16 ==> HexDigit(n) == Ascii("0123456789abcdef")[n]
  {
    hide Hex, IsId;
  }

  // ----- Which texts are written back as they were -----

  /** A number is written back as it was unless it has leading zeros. */
  lemma {:induction false} DecOfDecValue(s: Bytes)
    requires IsNumber(s)
    ensures 0 <= DecValue(s)
    ensures Dec(DecValue(s)) == s <==> |s| == 1 || s[0] != 0x30
    ensures |s| > 1 && s[0] != 0x30 ==> DecValue(s) >= 10
  {
    var n := |s| - 1;
    var init, last := s[..n], s[n];
    assert s == init + [last];
    if n == 0 {
      DecValueOne(s);
    } else {
      DecOfDecValue(init);
      DecValueStep(s, init, last);
      DecStart(DecValue(s));
    }
  }

  lemma {:induction false} DecValueOne(s: Bytes)
    requires |s| == 1 && IsDigit(s[0])
    ensures DecValue(s) == s[0] as int - 0x30 && Dec(DecValue(s)) == s
  {
    assert s[..0] == [];
    assert DecValue([]) == 0;
  }

  lemma {:induction false} DecValueStep(s: Bytes, init: Bytes, last: byte)
    requires |init| != 0 && s == init + [last] && IsDigit(last) && 0 <= DecValue(init)
    ensures DecValue(s) == DecValue(init) * 10 + (last as int - 0x30)
    ensures DecValue(init) != 0 ==> Dec(DecValue(s)) == Dec(DecValue(init)) + [last]
    ensures DecValue(init) == 0 ==> Dec(DecValue(s)) == [last]
  {
    assert s[..|init|] == init;
  }

  /** Only zero is written with a leading zero. */
  lemma {:induction false} DecStart(v: nat)
    ensures |Dec(v)| > 1 ==> Dec(v)[0] != 0x30
    ensures v >= 10 <==> |Dec(v)| > 1
    ensures Dec(v)[0] == 0x30 <==> v == 0
  {
    if v >= 10 { DecStart(v / 10); }
  }

  predicate NoLeadingZero(part: Bytes) { |part| == 1 || (|part| != 0 && part[0] != 0x30) }

  lemma {:induction false} PartsWrittenBack(parts: seq<Bytes>)
    requires ParseAll(parts).Some?
    ensures Texts(ParseAll(parts).value) == parts <==> forall k :: 0 <= k < |parts| ==> NoLeadingZero(parts[k])
    ensures |ParseAll(parts).value| == |parts|
  {
    hide Dec, DecValue, NoLeadingZero;
    if |parts| != 0 {
      var n := |parts| - 1;
      var init, values := parts[..n], ParseAll(parts).value;
      PartsWrittenBack(init);
      assert values[..n] == ParseAll(init).value;
      PartWrittenBack(parts[n]);
      assert Texts(values) == Texts(values[..n]) + [Dec(values[n])];
      assert parts == init + [parts[n]];
      if Texts(values) == parts { assert Texts(values)[..n] == init && Texts(values)[n] == parts[n]; }
      if forall k :: 0 <= k < |parts| ==> NoLeadingZero(parts[k]) {
        forall k | 0 <= k < n ensures NoLeadingZero(init[k]) { assert init[k] == parts[k]; }
      }
    }
  }

  lemma {:induction false} PartWrittenBack(part: Bytes)
    requires ParseUint(part).Some?
    ensures Dec(ParseUint(part).value) == part <==> NoLeadingZero(part)
  {
    hide Dec, DecValue;
    DecOfDecValue(part);
  }

  lemma {:induction false} JoinSplit(s: Bytes)
    ensures Join(Split(s)) == s
  {
    if |s| != 0 {
      JoinSplit(s[1..]);
      var tail := Split(s[1..]);
      assert s == [s[0]] + s[1..];
      if s[0] == DOT {
        assert ([[]] + tail)[1..] == tail;
      } else {
        assert ([[s[0]] + tail[0]] + tail[1..])[1..] == tail[1..];
        if |tail| > 1 { assert ([s[0]] + tail[0]) + [DOT] + Join(tail[1..]) == [s[0]] + (tail[0] + [DOT] + Join(tail[1..])); }
      }
    }
  }

  /** A text that is accepted is the text of its ID exactly when none of its components
      has a leading zero. */
  lemma {:induction false} TextOfIdFromText(s: Bytes)
    requires IdFromText(s).Some?
    ensures IdText(IdFromText(s).value) == s <==> forall k :: 0 <= k < |Split(s)| ==> NoLeadingZero(Split(s)[k])
  {
    hide Join, Split, Components, EncodeId, ParseAll, NoLeadingZero, Dec;
    var values := ParseAll(Split(s)).value;
    IdFromTextIsId(s);
    ComponentsOfEncoded(values);
    PartsWrittenBack(Split(s));
    JoinSplit(s);
    if IdText(IdFromText(s).value) == s {
      forall k | 0 <= k < |values| ensures DOT !in Texts(values)[k] { NumberHasNoDot(Dec(values[k])); }
      SplitJoin(Texts(values));
    }
  }
}
