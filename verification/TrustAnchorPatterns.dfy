/** Trust anchor ID patterns: for each component a range, whose upper end may be
    infinite. In bytes, infinity is the single byte 0x80, which starts no
    subidentifier.
 */
module TrustAnchorPatterns {
  import opened Bits
  import opened Hashing
  import opened TrustAnchors
  import opened TrustAnchorText

  datatype Range = Range(min: uint32, max: Option<uint32>)

  function EncodeRange(r: Range): Bytes {
    Subidentifier(r.min) + (match r.max case None => [0x80] case Some(m) => Subidentifier(m))
  }

  function EncodePattern(ranges: seq<Range>): Bytes {
    if |ranges| == 0 then [] else EncodeRange(ranges[0]) + EncodePattern(ranges[1..])
  }

  datatype ParsedRange = ParsedRange(r: Range, rest: Bytes)

  function ReadRange(s: Bytes): (p: Option<ParsedRange>)
    ensures p.Some? ==> |p.value.rest| < |s|
  {
    match ReadSubidentifier(s)
    case None => None
    case Some(min) =>
      if |min.rest| > 0 && min.rest[0] == 0x80 then Some(ParsedRange(Range(min.v, None), min.rest[1..]))
      else
        match ReadSubidentifier(min.rest)
        case None => None
        case Some(max) => Some(ParsedRange(Range(min.v, Some(max.v)), max.rest))
  }

  function Ranges(s: Bytes): Option<seq<Range>>
    decreases |s|
  {
    if |s| == 0 then Some([])
    else
      match ReadRange(s)
      case None => None
      case Some(p) =>
        match Ranges(p.rest)
        case None => None
        case Some(more) => Some([p.r] + more)
  }

  predicate IsPattern(s: Bytes) { 0 < |s| && Ranges(s).Some? }

  // ----- Bytes -----

  lemma {:induction false} ReadWrittenRange(r: Range, rest: Bytes)
    ensures ReadRange(EncodeRange(r) + rest) == Some(ParsedRange(r, rest))
  {
    hide ReadSubidentifier, Subidentifier;
    match r.max {
      case None =>
        var inf: Bytes := [0x80];
        AppendAssoc(Subidentifier(r.min), inf, rest);
        ReadWritten(r.min, inf + rest);
        assert (inf + rest)[1..] == rest;
      case Some(m) =>
        AppendAssoc(Subidentifier(r.min), Subidentifier(m), rest);
        ReadWritten(r.min, Subidentifier(m) + rest);
        ReadWritten(m, rest);
        SubidentifierStart(m);
        assert (Subidentifier(m) + rest)[0] == Subidentifier(m)[0];
    }
  }

  lemma {:induction false} ReadRangeIsCanonical(s: Bytes)
    requires ReadRange(s).Some?
    ensures s == EncodeRange(ReadRange(s).value.r) + ReadRange(s).value.rest
  {
    hide ReadSubidentifier, Subidentifier;
    var min := ReadSubidentifier(s).value;
    var p := ReadRange(s).value;
    ReadIsCanonical(s);
    if |min.rest| > 0 && min.rest[0] == 0x80 {
      assert min.rest == [0x80] + min.rest[1..];
      AppendAssoc(Subidentifier(min.v), [0x80], p.rest);
    } else {
      ReadIsCanonical(min.rest);
      AppendAssoc(Subidentifier(min.v), Subidentifier(p.r.max.value), p.rest);
    }
  }

  lemma {:induction false} RangesOfEncoded(ranges: seq<Range>)
    ensures Ranges(EncodePattern(ranges)) == Some(ranges)
  {
    hide ReadRange, EncodeRange;
    if |ranges| != 0 {
      RangesOfEncoded(ranges[1..]);
      ReadWrittenRange(ranges[0], EncodePattern(ranges[1..]));
      assert ranges == [ranges[0]] + ranges[1..];
    }
  }

  lemma {:induction false} EncodedRanges(s: Bytes)
    requires Ranges(s).Some?
    ensures EncodePattern(Ranges(s).value) == s
    decreases |s|
  {
    hide ReadRange, EncodeRange;
    if |s| != 0 {
      var p := ReadRange(s).value;
      ReadRangeIsCanonical(s);
      EncodedRanges(p.rest);
      assert Ranges(s).value[1..] == Ranges(p.rest).value;
    }
  }

  lemma {:induction false} EncodePatternAppend(ranges: seq<Range>, r: Range)
    ensures EncodePattern(ranges + [r]) == EncodePattern(ranges) + EncodeRange(r)
  {
    hide EncodeRange;
    if |ranges| == 0 {
      assert ranges + [r] == [r];
      assert [r][1..] == [];
    } else {
      EncodePatternAppend(ranges[1..], r);
      assert (ranges + [r])[1..] == ranges[1..] + [r];
      AppendAssoc(EncodeRange(ranges[0]), EncodePattern(ranges[1..]), EncodeRange(r));
    }
  }

  // ----- Text -----

  function RangeText(r: Range): Bytes {
    match r.max
    case None => [OPEN] + (Dec(r.min) + [DASH]) + [CLOSE]
    case Some(m) =>
      if m == r.min then Dec(r.min) else [OPEN] + (Dec(r.min) + [DASH] + Dec(m)) + [CLOSE]
  }

  function RangeTexts(ranges: seq<Range>): (t: seq<Bytes>)
    ensures |t| == |ranges|
  {
    seq(|ranges|, k requires 0 <= k < |ranges| => RangeText(ranges[k]))
  }

  /** TrustAnchorIDPattern.String */
  function PatternText(s: Bytes): Bytes {
    if IsPattern(s) then Join(RangeTexts(Ranges(s).value)) else InvalidText(s)
  }

  function FirstDash(s: Bytes): (k: nat)
    ensures k <= |s|
    ensures k < |s| ==> s[k] == DASH
  {
    if |s| == 0 || s[0] == DASH then 0 else 1 + FirstDash(s[1..])
  }

  /** What is between the braces: "min-" or "min-max". */
  function ParseBounds(s: Bytes): Option<Range> {
    var d := FirstDash(s);
    if d == |s| then None
    else
      match ParseUint(s[..d])
      case None => None
      case Some(min) =>
        if d + 1 == |s| then Some(Range(min, None))
        else
          match ParseUint(s[d + 1..])
          case None => None
          case Some(max) => Some(Range(min, Some(max)))
  }

  function ParseRange(part: Bytes): Option<Range> {
    if |part| != 0 && part[0] == OPEN && part[|part| - 1] == CLOSE then ParseBounds(part[1..|part| - 1])
    else
      match ParseUint(part)
      case None => None
      case Some(v) => Some(Range(v, Some(v)))
  }

  function ParseRanges(parts: seq<Bytes>): Option<seq<Range>> {
    if |parts| == 0 then Some([])
    else
      match ParseRanges(parts[..|parts| - 1])
      case None => None
      case Some(ranges) =>
        match ParseRange(parts[|parts| - 1])
        case None => None
        case Some(r) => Some(ranges + [r])
  }

  /** TrustAnchorIDPatternFromString */
  function PatternFromText(s: Bytes): Option<Bytes> {
    match ParseRanges(Split(s))
    case None => None
    case Some(ranges) => Some(EncodePattern(ranges))
  }

  /** The ranges of a pattern of which `done` have been read and `rest` has not. */
  ghost function Resume(done: seq<Range>, rest: Bytes): Option<seq<Range>> {
    match Ranges(rest)
    case None => None
    case Some(more) => Some(done + more)
  }

  lemma {:induction false} ResumeEnds(t: Bytes, done: seq<Range>)
    ensures Resume([], t) == Ranges(t)
    ensures Resume(done, []) == Some(done)
  {
    if Ranges(t).Some? { assert [] + Ranges(t).value == Ranges(t).value; }
    assert done + [] == done;
  }

  lemma {:induction false} ResumeStep(rest: Bytes, done: seq<Range>)
    requires |rest| != 0
    ensures Resume(done, rest) ==
      match ReadRange(rest) case None => None case Some(p) => Resume(done + [p.r], p.rest)
  {
    hide ReadRange;
    if ReadRange(rest).Some? {
      var p := ReadRange(rest).value;
      if Ranges(p.rest).Some? {
        var more := Ranges(p.rest).value;
        assert done + ([p.r] + more) == (done + [p.r]) + more;
      }
    }
  }

  lemma {:induction false} RangeTextsAppend(ranges: seq<Range>, r: Range)
    ensures RangeTexts(ranges + [r]) == RangeTexts(ranges) + [RangeText(r)]
    ensures RangeTexts([]) == []
  {
  }

  method TrustAnchorIDPatternString(t: Bytes) returns (text: Bytes)
    ensures text == PatternText(t)
  {
    hide Ranges, Resume, Dec, Join, InvalidText, ReadSubidentifier;
    if |t| == 0 { return InvalidText(t); }
    var rest := t;
    ghost var done: seq<Range> := [];
    text := [];
    JoinNoRanges();
    ResumeEnds(t, []);
    while |rest| != 0
      invariant Resume(done, rest) == Ranges(t)
      invariant text == Join(RangeTexts(done))
      invariant |text| != 0 <==> |done| != 0
      decreases |rest|
    {
      ResumeStep(rest, done);
      if |text| != 0 { text := text + [DOT]; }
      var min := ParseBase128(rest);
      if min.None? { return InvalidText(t); }
      rest := min.value.rest;
      var r;
      if |rest| > 0 && rest[0] == 0x80 {
        r := Range(min.value.v, None);
        text := text + ([OPEN] + (Dec(min.value.v) + [DASH]) + [CLOSE]);
        rest := rest[1..];
      } else {
        var max := ParseBase128(rest);
        if max.None? { return InvalidText(t); }
        rest := max.value.rest;
        r := Range(min.value.v, Some(max.value.v));
        if min.value.v == max.value.v {
          text := text + Dec(min.value.v);
        } else {
          text := text + ([OPEN] + (Dec(min.value.v) + [DASH] + Dec(max.value.v)) + [CLOSE]);
        }
      }
      RangeTextsAppend(done, r);
      JoinAppend(RangeTexts(done), RangeText(r));
      done := done + [r];
    }
    ResumeEnds(t, done);
  }

  lemma {:induction false} JoinNoRanges()
    ensures Join(RangeTexts([])) == []
  {
  }

  method TrustAnchorIDPatternFromString(s: Bytes) returns (t: Option<Bytes>)
    ensures t == PatternFromText(s)
  {
    hide EncodePattern, Split, ParseUint;
    var parts := Split(s);
    var pattern: Bytes := [];
    ghost var ranges: seq<Range> := [];
    EncodeNoRanges();
    for i := 0 to |parts|
      invariant ParseRanges(parts[..i]) == Some(ranges)
      invariant pattern == EncodePattern(ranges)
      invariant |ranges| == i
    {
      assert parts[..i + 1][..i] == parts[..i];
      var r := ParseRange(parts[i]);
      if r.None? {
        ParseRangesStops(parts, i + 1);
        return None;
      }
      var withMin := AppendBase128(pattern, r.value.min);
      EncodePatternAppend(ranges, r.value);
      match r.value.max {
        case None =>
          AppendAssoc(pattern, Subidentifier(r.value.min), [0x80]);
          pattern := withMin + [0x80];
        case Some(m) =>
          AppendAssoc(pattern, Subidentifier(r.value.min), Subidentifier(m));
          pattern := AppendBase128(withMin, m);
      }
      ranges := ranges + [r.value];
    }
    assert parts[..|parts|] == parts;
    EncodeSomeRanges(ranges);
    if |pattern| == 0 { return None; }
    return Some(pattern);
  }

  lemma {:induction false} EncodeNoRanges()
    ensures EncodePattern([]) == []
  {
  }

  lemma {:induction false} EncodeSomeRanges(ranges: seq<Range>)
    ensures |ranges| != 0 ==> |EncodePattern(ranges)| != 0
  {
  }

  lemma {:induction false} ParseRangesStops(parts: seq<Bytes>, i: nat)
    requires i <= |parts|
    requires ParseRanges(parts[..i]).None?
    ensures ParseRanges(parts).None?
    decreases |parts|
  {
    hide ParseRange;
    if i == |parts| {
      assert parts[..i] == parts;
    } else {
      assert parts[..|parts| - 1][..i] == parts[..i];
      ParseRangesStops(parts[..|parts| - 1], i);
    }
  }

  lemma {:induction false} FirstDashIs(s: Bytes, rest: Bytes)
    requires DASH !in s
    ensures FirstDash(s + [DASH] + rest) == |s|
  {
    var t := s + [DASH] + rest;
    if |s| != 0 {
      FirstDashIs(s[1..], rest);
      assert t[1..] == s[1..] + [DASH] + rest;
    }
  }

  lemma {:induction false} BoundsOfText(min: uint32, rest: Bytes)
    ensures ParseBounds(Dec(min) + [DASH] + rest) ==
      if |rest| == 0 then Some(Range(min, None))
      else match ParseUint(rest) case None => None case Some(max) => Some(Range(min, Some(max)))
  {
    hide Dec, ParseUint, FirstDash;
    var s := Dec(min) + [DASH] + rest;
    NumberHasNoDot(Dec(min));
    FirstDashIs(Dec(min), rest);
    ParseUintOfDec(min);
    assert s[..|Dec(min)|] == Dec(min);
    assert s[|Dec(min)| + 1..] == rest;
  }

  lemma {:induction false} RangeTextRoundTrip(r: Range)
    ensures ParseRange(RangeText(r)) == Some(r)
    ensures DOT !in RangeText(r)
  {
    hide Dec, ParseUint, ParseBounds;
    NumberHasNoDot(Dec(r.min));
    ParseUintOfDec(r.min);
    match r.max {
      case None =>
        var inner := Dec(r.min) + [DASH];
        assert inner == Dec(r.min) + [DASH] + [];
        BoundsOfText(r.min, []);
        Unbrace(inner);
      case Some(m) =>
        NumberHasNoDot(Dec(m));
        if m == r.min {
          assert Dec(m)[0] != OPEN;
        } else {
          ParseUintOfDec(m);
          BoundsOfText(r.min, Dec(m));
          Unbrace(Dec(r.min) + [DASH] + Dec(m));
        }
    }
  }

  lemma {:induction false} Unbrace(inner: Bytes)
    ensures var t := [OPEN] + inner + [CLOSE];
      t[0] == OPEN && t[|t| - 1] == CLOSE && t[1..|t| - 1] == inner
  {
  }

  function Braced(a: Bytes, b: Bytes): Bytes { [OPEN] + (a + [DASH] + b) + [CLOSE] }

  /** In braces: a number, a dash, and nothing or a number. */
  ghost predicate IsBracedRange(part: Bytes, r: Range) {
    exists a, b :: part == Braced(a, b) && ParseUint(a) == Some(r.min)
      && (if b == [] then r.max == None else r.max == ParseUint(b) != None)
  }

  /** Exactly these parts are ranges: a number, which stands for itself, and braces. */
  lemma {:induction false} ParseRangeIs(part: Bytes, r: Range)
    ensures ParseRange(part) == Some(r) <==>
      (ParseUint(part) == Some(r.min) && r.max == Some(r.min)) || IsBracedRange(part, r)
  {
    hide ParseUint, ParseBounds, IsBracedRange;
    NumbersOnly(part);
    if part != [] && part[0] == OPEN && part[|part| - 1] == CLOSE {
      BoundsAre(part, r);
    } else {
      BracedEnds(part, r);
    }
  }

  lemma {:induction false} BracedEnds(part: Bytes, r: Range)
    ensures IsBracedRange(part, r) ==> part != [] && part[0] == OPEN && part[|part| - 1] == CLOSE
  {
    hide ParseUint;
  }

  lemma {:induction false} NumbersOnly(part: Bytes)
    ensures ParseUint(part).Some? ==> part != [] && part[0] != OPEN && DASH !in part
    ensures ParseUint([]) == None
  {
    hide DecValue;
  }

  lemma {:induction false} BoundsAre(part: Bytes, r: Range)
    requires part != [] && part[0] == OPEN && part[|part| - 1] == CLOSE
    ensures ParseBounds(part[1..|part| - 1]) == Some(r) <==> IsBracedRange(part, r)
  {
    hide ParseUint, FirstDash;
    var s := part[1..|part| - 1];
    assert part == [OPEN] + s + [CLOSE];
    if IsBracedRange(part, r) {
      var a, b :| part == Braced(a, b) && ParseUint(a) == Some(r.min)
        && (if b == [] then r.max == None else r.max == ParseUint(b) != None);
      BoundsOfBraced(part, a, b);
    }
    if ParseBounds(s) == Some(r) {
      var d := FirstDash(s);
      var a, b := s[..d], s[d + 1..];
      assert s == a + [DASH] + b;
      assert part == Braced(a, b);
      assert b == [] <==> d + 1 == |s|;
    }
  }

  lemma {:induction false} BoundsOfBraced(part: Bytes, a: Bytes, b: Bytes)
    requires part == Braced(a, b) && ParseUint(a).Some?
    ensures |part| > 1 && ParseBounds(part[1..|part| - 1]) ==
      if b == [] then Some(Range(ParseUint(a).value, None))
      else match ParseUint(b) case None => None case Some(max) => Some(Range(ParseUint(a).value, Some(max)))
  {
    hide ParseUint, FirstDash;
    var s := a + [DASH] + b;
    assert part[1..|part| - 1] == s;
    NumbersOnly(a);
    FirstDashIs(a, b);
    assert s[..|a|] == a && s[|a| + 1..] == b;
  }

  lemma {:induction false} ParseRangesOfTexts(ranges: seq<Range>)
    ensures ParseRanges(RangeTexts(ranges)) == Some(ranges)
  {
    hide RangeText, ParseRange;
    if |ranges| != 0 {
      var n := |ranges| - 1;
      ParseRangesOfTexts(ranges[..n]);
      assert RangeTexts(ranges)[..n] == RangeTexts(ranges[..n]);
      RangeTextRoundTrip(ranges[n]);
      assert ranges == ranges[..n] + [ranges[n]];
    }
  }

  /** The text of a pattern reads back as the pattern. */
  lemma {:induction false} PatternTextRoundTrip(s: Bytes)
    requires IsPattern(s)
    ensures PatternFromText(PatternText(s)) == Some(s)
  {
    hide Join, Split, EncodePattern, Ranges, RangeText, ParseRanges;
    var ranges := Ranges(s).value;
    EncodedRanges(s);
    if |ranges| == 0 { EncodeNoRanges(); }
    forall k | 0 <= k < |ranges| ensures DOT !in RangeTexts(ranges)[k] { RangeTextRoundTrip(ranges[k]); }
    SplitJoin(RangeTexts(ranges));
    ParseRangesOfTexts(ranges);
  }

  // ----- From an ID to the pattern that matches it alone -----

  function PointRanges(parts: seq<uint32>): (r: seq<Range>)
    ensures |r| == |parts|
  {
    seq(|parts|, k requires 0 <= k < |parts| => Range(parts[k], Some(parts[k])))
  }

  method TrustAnchorIDToPattern(id: Bytes) returns (pattern: Bytes)
    requires Components(id).Some?
    ensures pattern == EncodePattern(PointRanges(Components(id).value))
  {
    hide Subidentifier, ReadSubidentifier, EncodePattern, Components, TrustAnchorText.Resume;
    pattern := [];
    var rest := id;
    ghost var done: seq<uint32> := [];
    EncodeNoRanges();
    TrustAnchorText.ResumeEnds(id, []);
    while |rest| != 0
      invariant TrustAnchorText.Resume(done, rest) == Components(id)
      invariant pattern == EncodePattern(PointRanges(done))
      decreases |rest|
    {
      TrustAnchorText.ResumeStep(rest, done);
      var p := ParseBase128(rest);
      var v := p.value.v;
      EncodePatternAppend(PointRanges(done), Range(v, Some(v)));
      assert PointRanges(done + [v]) == PointRanges(done) + [Range(v, Some(v))];
      AppendAssoc(pattern, Subidentifier(v), Subidentifier(v));
      pattern := AppendBase128(pattern, v);
      pattern := AppendBase128(pattern, v);
      done := done + [v];
      rest := p.value.rest;
    }
    TrustAnchorText.ResumeEnds(id, done);
  }

  /** The pattern of an ID has the text of the ID. */
  lemma {:induction false} PatternOfIdText(id: Bytes)
    requires IsId(id)
    ensures PatternText(EncodePattern(PointRanges(Components(id).value))) == IdText(id)
  {
    hide Join, EncodePattern, Ranges, Dec, Components;
    var parts := Components(id).value;
    EncodedComponents(id);
    if |parts| == 0 { EncodeNone(); }
    RangesOfEncoded(PointRanges(parts));
    EncodeSomeRanges(PointRanges(parts));
    assert RangeTexts(PointRanges(parts)) == Texts(parts);
  }
}
