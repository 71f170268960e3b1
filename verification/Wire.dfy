/** The byte reader and writer of the demo (golang.org/x/crypto/cryptobyte) as far
    as it is used: big-endian integers, length prefixes, and DER elements with
    single-byte tags (sections 8.1 and 10.1 of X.690).
 */
module Wire {
  import opened Bits
  import opened Hashing

  datatype Read<+T> = Read(v: T, rest: Bytes)

  // ----- Big-endian integers -----

  function Pow256(width: nat): (p: nat)
    ensures 0 < p
  {
    if width == 0 then 1 else 256 * Pow256(width - 1)
  }

  /** The last `width` bytes of n. */
  function BigEndian(n: nat, width: nat): (s: Bytes)
    ensures |s| == width
  {
    if width == 0 then [] else BigEndian(n / 256, width - 1) + [(n % 256) as byte]
  }

  function Value(s: Bytes): (n: nat)
    ensures n < Pow256(|s|)
  {
    if |s| == 0 then 0 else Value(s[..|s| - 1]) * 256 + s[|s| - 1] as nat
  }

  lemma {:induction false} ValueOfBigEndian(n: nat, width: nat)
    requires n < Pow256(width)
    ensures Value(BigEndian(n, width)) == n
  {
    if width != 0 {
      ValueOfBigEndian(n / 256, width - 1);
      ValueAppend(BigEndian(n / 256, width - 1), (n % 256) as byte);
    }
  }

  lemma {:induction false} ValueAppend(s: Bytes, b: byte)
    ensures Value(s + [b]) == Value(s) * 256 + b as nat
  {
    assert (s + [b])[..|s|] == s;
  }

  /** The first byte is the most significant one. */
  lemma {:induction false} ValueFirst(s: Bytes)
    requires |s| != 0
    ensures Value(s) == s[0] as nat * Pow256(|s| - 1) + Value(s[1..])
  {
    if |s| == 1 {
      assert s[..0] == [] && s[1..] == [];
    } else {
      var init := s[..|s| - 1];
      ValueFirst(init);
      assert s[1..] == init[1..] + [s[|s| - 1]];
      ValueAppend(init[1..], s[|s| - 1]);
      Shift256(s[0] as nat, Pow256(|s| - 2));
    }
  }

  lemma {:induction false} Shift256(b: nat, p: nat)
    ensures b * (256 * p) == (b * p) * 256
  {
  }

  lemma {:induction false} BigEndianOfValue(s: Bytes)
    ensures BigEndian(Value(s), |s|) == s
  {
    if |s| != 0 {
      BigEndianOfValue(s[..|s| - 1]);
      assert s == s[..|s| - 1] + [s[|s| - 1]];
    }
  }

  lemma {:induction false} Widths()
    ensures Pow256(1) == 0x100 && Pow256(2) == 0x1_0000 && Pow256(3) == 0x100_0000 && Pow256(4) == 0x1_0000_0000
    ensures Pow256(6) == 0x1_0000_0000_0000 && Pow256(8) == 0x1_0000_0000_0000_0000
  {
    assert Pow256(4) == 256 * (256 * (256 * (256 * Pow256(0))));
    assert Pow256(8) == 256 * (256 * (256 * (256 * Pow256(4))));
  }

  // ----- Reading -----

  function ReadBytes(s: Bytes, n: nat): Option<Read<Bytes>> {
    if n <= |s| then Some(Read(s[..n], s[n..])) else None
  }

  function ReadUint(s: Bytes, width: nat): (r: Option<Read<nat>>)
    ensures r.Some? ==> r.value.v < Pow256(width) && |s| == width + |r.value.rest|
  {
    if width <= |s| then Some(Read(Value(s[..width]), s[width..])) else None
  }

  /** A vector with a length prefix of the given width. */
  function ReadPrefixed(s: Bytes, width: nat): (r: Option<Read<Bytes>>)
    ensures r.Some? ==> |s| == width + |r.value.v| + |r.value.rest|
    ensures r.Some? ==> |r.value.v| < Pow256(width)
  {
    match ReadUint(s, width)
    case None => None
    case Some(len) => ReadBytes(len.rest, len.v)
  }

  // ----- Writing -----

  /** A child with a length prefix; the builder fails when the length does not fit. */
  function Prefixed(width: nat, content: Bytes): (r: Option<Bytes>)
    ensures r.Some? ==> |r.value| == width + |content|
  {
    if |content| < Pow256(width) then Some(BigEndian(|content|, width) + content) else None
  }

  lemma {:induction false} ReadUintWritten(n: nat, width: nat, rest: Bytes)
    requires n < Pow256(width)
    ensures ReadUint(BigEndian(n, width) + rest, width) == Some(Read(n, rest))
  {
    ValueOfBigEndian(n, width);
    var s := BigEndian(n, width) + rest;
    assert s[..width] == BigEndian(n, width) && s[width..] == rest;
  }

  lemma {:induction false} UintIsWritten(s: Bytes, width: nat)
    requires ReadUint(s, width).Some?
    ensures s == BigEndian(ReadUint(s, width).value.v, width) + ReadUint(s, width).value.rest
  {
    BigEndianOfValue(s[..width]);
    assert s == s[..width] + s[width..];
  }

  lemma {:induction false} ReadPrefixedWritten(width: nat, content: Bytes, rest: Bytes)
    requires Prefixed(width, content).Some?
    ensures ReadPrefixed(Prefixed(width, content).value + rest, width) == Some(Read(content, rest))
  {
    hide BigEndian, ReadUint, Pow256;
    AppendAssoc(BigEndian(|content|, width), content, rest);
    ReadUintWritten(|content|, width, content + rest);
    assert (content + rest)[..|content|] == content && (content + rest)[|content|..] == rest;
  }

  lemma {:induction false} PrefixedIsWritten(s: Bytes, width: nat)
    requires ReadPrefixed(s, width).Some?
    ensures Prefixed(width, ReadPrefixed(s, width).value.v).Some?
    ensures s == Prefixed(width, ReadPrefixed(s, width).value.v).value + ReadPrefixed(s, width).value.rest
  {
    hide BigEndian, ReadUint, Pow256;
    UintIsWritten(s, width);
    var len := ReadUint(s, width).value;
    var r := ReadPrefixed(s, width).value;
    assert len.rest == r.v + r.rest;
    AppendAssoc(BigEndian(len.v, width), r.v, r.rest);
  }

  // ----- DER elements -----

  const INTEGER: byte := 0x02
  const BIT_STRING: byte := 0x03
  const OID: byte := 0x06
  const UTF8_STRING: byte := 0x0C
  const RELATIVE_OID: byte := 0x0D
  const SEQUENCE: byte := 0x30
  const SET: byte := 0x31
  /** [0], constructed */
  const VERSION_TAG: byte := 0xA0

  /** The number of octets a long-form length takes. */
  function LengthOctets(n: nat): nat {
    if n <= 0xFF then 1 else if n <= 0xFFFF then 2 else if n <= 0xFF_FFFF then 3 else 4
  }

  function LengthField(n: nat): Bytes
    requires n <= 0xFFFF_FFFE
  {
    if n < 128 then [n as byte]
    else [(128 + LengthOctets(n)) as byte] + BigEndian(n, LengthOctets(n))
  }

  /** An element; the builder fails for contents longer than 0xfffffffe. */
  function Element(tag: byte, content: Bytes): (r: Option<Bytes>)
    ensures r.Some? ==> |content| + 2 <= |r.value| <= |content| + 6
  {
    if |content| <= 0xFFFF_FFFE then Some([tag] + LengthField(|content|) + content) else None
  }

  datatype Tlv = Tlv(tag: byte, content: Bytes)

  /** The length field: its value and how many bytes it takes. The long form must be
      needed, must have no leading zero, and the whole element must be shorter than
      2^32 bytes. */
  function ReadLength(s: Bytes): (r: Option<Read<nat>>)
    ensures r.Some? ==> |r.value.rest| < |s|
  {
    if |s| == 0 then None
    else if s[0] < 128 then Some(Read(s[0] as nat, s[1..]))
    else
      var k := s[0] as nat - 128;
      if k == 0 || k > 4 then None
      else
        match ReadUint(s[1..], k)
        case None => None
        case Some(len) =>
          if len.v < 128 || len.v < Pow256(k - 1) || 2 + k + len.v >= 0x1_0000_0000 then None
          else Some(len)
  }

  /** ReadAnyASN1: tags of more than one byte are not supported. */
  function ReadTlv(s: Bytes): (r: Option<Read<Tlv>>)
    ensures r.Some? ==> |r.value.rest| < |s|
  {
    if |s| == 0 || s[0] as nat % 32 == 31 then None
    else
      match ReadLength(s[1..])
      case None => None
      case Some(len) =>
        match ReadBytes(len.rest, len.v)
        case None => None
        case Some(content) => Some(Read(Tlv(s[0], content.v), content.rest))
  }

  lemma {:induction false} OctetsFit(n: nat)
    requires 128 <= n <= 0xFFFF_FFFE
    ensures var k := LengthOctets(n); 1 <= k <= 4 && n < Pow256(k) && Pow256(k - 1) <= n
  {
    Widths();
    assert Pow256(0) == 1;
  }

  lemma {:induction false} ReadLengthWritten(n: nat, rest: Bytes)
    requires n <= 0xFFFF_FFFE
    ensures ReadLength(LengthField(n) + rest) ==
      if 1 + |LengthField(n)| + n < 0x1_0000_0000 then Some(Read(n, rest)) else None
  {
    hide BigEndian, ReadUint, Pow256, LengthOctets;
    var s := LengthField(n) + rest;
    if n < 128 {
      assert s[1..] == rest;
    } else {
      OctetsFit(n);
      var k := LengthOctets(n);
      assert s[1..] == BigEndian(n, k) + rest;
      ReadUintWritten(n, k, rest);
    }
  }

  /** Reading a written element gives it back, exactly when its whole encoding is
      shorter than 2^32 bytes: the writer goes a little further than the reader. */
  lemma {:induction false} ReadElementWritten(tag: byte, content: Bytes, rest: Bytes)
    requires Element(tag, content).Some?
    requires tag as nat % 32 != 31
    ensures ReadTlv(Element(tag, content).value + rest) ==
      if |Element(tag, content).value| < 0x1_0000_0000 then Some(Read(Tlv(tag, content), rest)) else None
  {
    hide LengthField, ReadLength;
    var n := |content|;
    var s := Element(tag, content).value + rest;
    ReadLengthWritten(n, content + rest);
    assert s[1..] == LengthField(n) + (content + rest);
    assert (content + rest)[..n] == content && (content + rest)[n..] == rest;
  }

  lemma {:induction false} LengthIsWritten(s: Bytes)
    requires ReadLength(s).Some?
    ensures ReadLength(s).value.v <= 0xFFFF_FFFE
    ensures s == LengthField(ReadLength(s).value.v) + ReadLength(s).value.rest
  {
    hide BigEndian;
    var len := ReadLength(s).value;
    if s[0] < 128 {
      assert s == [s[0]] + s[1..];
    } else {
      var k := s[0] as nat - 128;
      UintIsWritten(s[1..], k);
      OctetsAre(len.v, k);
      assert s == [s[0]] + s[1..];
      AppendAssoc([s[0]], BigEndian(len.v, k), len.rest);
    }
  }

  lemma {:induction false} OctetsAre(n: nat, k: nat)
    requires 1 <= k <= 4
    requires 128 <= n && Pow256(k - 1) <= n < Pow256(k)
    ensures LengthOctets(n) == k
  {
    Widths();
    assert Pow256(0) == 1;
  }

  /** The encoding is distinguished: what is read is what would be written. */
  lemma {:induction false} ElementIsWritten(s: Bytes)
    requires ReadTlv(s).Some?
    ensures var r := ReadTlv(s).value;
      Element(r.v.tag, r.v.content).Some? && s == Element(r.v.tag, r.v.content).value + r.rest
  {
    hide LengthField, ReadLength;
    var len := ReadLength(s[1..]).value;
    var r := ReadTlv(s).value;
    LengthIsWritten(s[1..]);
    assert len.rest == r.v.content + r.rest;
    assert s == [s[0]] + s[1..];
    FourParts([s[0]], LengthField(len.v), r.v.content, r.rest);
  }

  lemma {:induction false} FourParts(a: Bytes, b: Bytes, c: Bytes, d: Bytes)
    ensures a + (b + (c + d)) == (a + b + c) + d
  {
  }

  // ----- Integers -----

  /** Octets of a non-negative INTEGER: as few as keep the sign bit clear. */
  function IntegerOctets(v: nat): (n: nat)
    ensures 1 <= n
  {
    if v < 128 then 1 else 1 + IntegerOctets(v / 256)
  }

  /** AddASN1Uint64 */
  function IntegerContent(v: nat): Bytes { BigEndian(v, IntegerOctets(v)) }

  /** The contents of an INTEGER read into a uint64: minimal, not negative, at most
      64 bits. */
  function IntegerValue(c: Bytes): Option<nat> {
    if |c| == 0 then None
    else if |c| > 1 && c[0] == 0 && c[1] < 128 then None
    else if c[0] >= 128 then None
    else if |c| > 9 || (|c| == 9 && c[0] != 0) then None
    else Some(Value(c))
  }

  lemma {:induction false} IntegerFirst(v: nat)
    ensures var c := IntegerContent(v); c[0] < 128 && (|c| > 1 && c[0] == 0 ==> c[1] >= 128)
    ensures v < Pow256(IntegerOctets(v))
  {
    if v >= 128 {
      IntegerFirst(v / 256);
      var c := IntegerContent(v / 256);
      assert IntegerContent(v) == c + [(v % 256) as byte];
    }
  }

  /** Contents that are minimal and not negative have the length the writer would choose. */
  lemma {:induction false} OctetsOfMinimal(c: Bytes)
    requires |c| != 0 && c[0] < 128
    requires |c| > 1 && c[0] == 0 ==> c[1] >= 128
    ensures IntegerOctets(Value(c)) == |c|
    ensures |c| > 1 ==> Value(c) >= 128
    decreases |c|
  {
    hide Value, IntegerOctets, BigEndian;
    var init, last := c[..|c| - 1], c[|c| - 1];
    assert c == init + [last];
    ValueAppend(init, last);
    if |c| == 1 {
      ValueOfNone();
      OctetsStep(0, last as nat);
    } else {
      if |c| == 2 {
        assert init == [] + [c[0]];
        ValueAppend([], c[0]);
        ValueOfNone();
      }
      OctetsOfMinimal(init);
      OctetsStep(Value(init), last as nat);
    }
  }

  lemma {:induction false} ValueOfNone()
    ensures Value([]) == 0
  {
  }

  lemma {:induction false} OctetsStep(w: nat, b: nat)
    requires b < 256
    ensures IntegerOctets(w * 256 + b) == if w == 0 && b < 128 then 1 else 1 + IntegerOctets(w)
  {
    assert (w * 256 + b) / 256 == w;
  }

  /** An INTEGER that is read is the one that would be written. */
  lemma {:induction false} IntegerIsCanonical(c: Bytes)
    requires IntegerValue(c).Some?
    ensures IntegerContent(IntegerValue(c).value) == c
  {
    hide Value, BigEndian, IntegerOctets;
    OctetsOfMinimal(c);
    BigEndianOfValue(c);
  }

  lemma {:induction false} IntegerOctetsBound(v: nat, k: nat)
    requires 1 <= k && 2 * v < Pow256(k)
    ensures IntegerOctets(v) <= k
  {
    if v >= 128 {
      if k == 1 { Widths(); }
      IntegerOctetsBound(v / 256, k - 1);
    }
  }

  lemma {:induction false} IntegerRoundTrip(v: uint64)
    ensures IntegerValue(IntegerContent(v)) == Some(v)
    ensures |IntegerContent(v)| <= 9
  {
    hide BigEndian, IntegerOctets;
    var n := IntegerOctets(v);
    Widths();
    assert Pow256(9) == 256 * Pow256(8);
    IntegerOctetsBound(v, 9);
    IntegerFirst(v);
    ValueOfBigEndian(v, n);
    if n == 9 { LeadingOctet(v, 8); }
  }

  lemma {:induction false} ValueOfZeroFirst(c: Bytes)
    requires |c| != 0 && c[0] == 0
    ensures Value(c) < Pow256(|c| - 1)
  {
    if |c| == 1 {
      assert c[..0] == [];
    } else {
      ValueOfZeroFirst(c[..|c| - 1]);
    }
  }

  lemma {:induction false} IntegerFits(c: Bytes)
    requires IntegerValue(c).Some?
    ensures IntegerValue(c).value < 0x1_0000_0000_0000_0000
  {
    hide Value;
    Widths();
    if |c| == 9 { ValueOfZeroFirst(c); } else { Pow256Mono(|c|, 8); }
  }

  lemma {:induction false} Pow256Mono(a: nat, b: nat)
    requires a <= b
    ensures Pow256(a) <= Pow256(b)
  {
    if a < b { Pow256Mono(a, b - 1); }
  }

  /** The first octet is what lies above the others. */
  lemma {:induction false} LeadingOctet(v: nat, k: nat)
    requires v < Pow256(k)
    ensures BigEndian(v, k + 1)[0] == 0
  {
    if k != 0 { LeadingOctet(v / 256, k - 1); }
  }
}
