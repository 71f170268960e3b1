/** Trust anchor IDs and patterns: relative object identifiers in base 128
    (section 8.20 of X.690) and their text form. Go strings are byte strings, and
    so is text here.
 */
module TrustAnchors {
  import opened Bits
  import opened Hashing

  type uint32 = x: int | 0 <= x < 0x1_0000_0000

  // ----- Subidentifiers -----

  /** The groups of seven bits of a value, most significant first, each with the
      high bit that announces another group. */
  function MoreGroups(v: nat): Bytes {
    if v == 0 then [] else MoreGroups(v / 128) + [(128 + v % 128) as byte]
  }

  /** One subidentifier, section 8.19 of X.690: the last group has no high bit, and
      zero takes one group. */
  function Subidentifier(v: nat): (b: Bytes)
    ensures 0 < |b|
  {
    MoreGroups(v / 128) + [(v % 128) as byte]
  }

  datatype Parsed = Parsed(v: uint32, rest: Bytes)

  /** parseBase128 from its loop on: ret holds the groups read so far. */
  function ReadGroups(ret: nat, s: Bytes): (p: Option<Parsed>)
    requires ret < 0x1_0000_0000
    ensures p.Some? ==> |p.value.rest| < |s|
    decreases |s|
  {
    if |s| == 0 || ret >= 0x200_0000 then None
    else
      var v := ret * 128 + s[0] as int % 128;
      if s[0] < 128 then Some(Parsed(v, s[1..])) else ReadGroups(v, s[1..])
  }

  function ReadSubidentifier(s: Bytes): (p: Option<Parsed>)
    ensures p.Some? ==> |p.value.rest| < |s|
  {
    if |s| == 0 || s[0] == 0x80 then None else ReadGroups(0, s)
  }

  /** The overflow condition of the loop: ret << 7 in 32 bits, shifted back. */
  lemma {:induction false} ShiftLosesBits(ret: uint32)
    ensures ((ret * 128) % 0x1_0000_0000) / 128 != ret <==> ret >= 0x200_0000
  {
  }

  method ParseBase128(input: Bytes) returns (res: Option<Parsed>)
    ensures res == ReadSubidentifier(input)
  {
    var ret: uint32, rest := 0, input;
    if |rest| == 0 { return None; }
    if rest[0] == 0x80 { return None; }
    while true
      invariant ReadGroups(ret, rest) == ReadGroups(0, input)
      decreases |rest|
    {
      ShiftLosesBits(ret);
      if |rest| == 0 || ((ret * 128) % 0x1_0000_0000) / 128 != ret { return None; }
      var b := rest[0];
      ret := ret * 128 + b as int % 128;
      rest := rest[1..];
      if b < 128 { return Some(Parsed(ret, rest)); }
    }
  }

  /** How many groups of seven bits a value has. */
  function GroupCount(v: nat): nat {
    if v == 0 then 0 else 1 + GroupCount(v / 128)
  }

  lemma {:induction false} Shr7(v: nat)
    ensures Shr(v, 7) == v / 128
  {
    LowIsMod(v, 7);
    assert Pow2(7) == 128;
  }

  /** Shifting by whole groups. */
  lemma {:induction false} ShrGroups(v: nat, k: nat)
    ensures Shr(v, 7 * (k + 1)) == Shr(v, 7 * k) / 128
    ensures Shr(v, 7 * k) == 0 <==> GroupCount(v) <= k
    decreases k
  {
    ShrAdd(v, 7 * k, 7);
    Shr7(Shr(v, 7 * k));
    if k == 0 {
      ShrZero(v);
    } else {
      ShrAdd(v, 7, 7 * (k - 1));
      Shr7(v);
      ShrGroups(v / 128, k - 1);
    }
  }

  method AppendBase128(dst: Bytes, v: uint32) returns (out: Bytes)
    ensures out == dst + Subidentifier(v)
  {
    hide Shr, MoreGroups, GroupCount;
    var l := 0;
    var n: uint32 := v;
    GroupsOfZero();
    while n != 0
      invariant l + GroupCount(n) == GroupCount(v)
    {
      GroupsOf(n);
      l := l + 1;
      n := n / 128;
    }
    if v == 0 { l := 1; }
    out := dst;
    GroupsOf(v);
    ShrGroups(v, l);
    assert dst + [] == dst;
    while l > 0
      invariant l <= GroupCount(v) || (v == 0 && l <= 1)
      invariant out == dst + if l == 0 then Subidentifier(v) else MoreGroups(Shr(v, 7 * l))
      decreases l
    {
      ShrGroups(v, l - 1);
      GroupsOf(Shr(v, 7 * (l - 1)));
      var b := Shr(v, 7 * (l - 1)) % 128;
      if l > 1 { b := b + 128; }
      out := out + [b as byte];
      if l == 1 { ShrZero(v); }
      assert out == dst + ((if l == 1 then MoreGroups(v / 128) else MoreGroups(Shr(v, 7 * l))) + [b as byte]);
      l := l - 1;
    }
  }

  lemma {:induction false} GroupsOfZero()
    ensures GroupCount(0) == 0
    ensures MoreGroups(0) == []
  {
  }

  lemma {:induction false} GroupsOf(v: nat)
    ensures v != 0 ==> GroupCount(v) == 1 + GroupCount(v / 128)
    ensures v != 0 ==> MoreGroups(v) == MoreGroups(v / 128) + [(128 + v % 128) as byte]
  {
  }

  // ----- Reading undoes writing, and nothing else reads -----

  lemma {:induction false} ReadMoreGroups(u: nat, tail: Bytes)
    requires u < 0x200_0000
    ensures ReadGroups(0, MoreGroups(u) + tail) == ReadGroups(u, tail)
    decreases u
  {
    if u == 0 {
      assert MoreGroups(0) + tail == tail;
    } else {
      var last: Bytes := [(128 + u % 128) as byte];
      AppendAssoc(MoreGroups(u / 128), last, tail);
      ReadMoreGroups(u / 128, last + tail);
      assert (last + tail)[1..] == tail;
    }
  }

  /** The first group is never zero unless the value is, so 0x80 starts nothing. */
  lemma {:induction false} MoreGroupsStart(u: nat)
    requires 0 < u
    ensures 0 < |MoreGroups(u)| && MoreGroups(u)[0] > 0x80
    decreases u
  {
    if u / 128 != 0 { MoreGroupsStart(u / 128); }
  }

  lemma {:induction false} SubidentifierStart(v: nat)
    ensures Subidentifier(v)[0] != 0x80
  {
    if v / 128 != 0 { MoreGroupsStart(v / 128); }
  }

  lemma {:induction false} ReadWritten(v: uint32, rest: Bytes)
    ensures ReadSubidentifier(Subidentifier(v) + rest) == Some(Parsed(v, rest))
  {
    hide MoreGroups;
    SubidentifierStart(v);
    var last: Bytes := [(v % 128) as byte];
    AppendAssoc(MoreGroups(v / 128), last, rest);
    ReadMoreGroups(v / 128, last + rest);
    assert (last + rest)[1..] == rest;
    assert (Subidentifier(v) + rest)[0] == Subidentifier(v)[0];
  }

  lemma {:induction false} GroupsAreCanonical(ret: nat, s: Bytes)
    requires ret < 0x1_0000_0000
    requires ReadGroups(ret, s).Some?
    requires ret != 0 || s[0] != 0x80
    ensures MoreGroups(ret) + s == Subidentifier(ReadGroups(ret, s).value.v) + ReadGroups(ret, s).value.rest
    decreases |s|
  {
    var b, rest := s[0], s[1..];
    var v := ret * 128 + b as int % 128;
    assert v / 128 == ret && v % 128 == b as int % 128;
    assert s == [b] + rest;
    AppendAssoc(MoreGroups(ret), [b], rest);
    if b >= 128 { GroupsAreCanonical(v, rest); }
  }

  /** Whatever is accepted is the encoding of its value. */
  lemma {:induction false} ReadIsCanonical(s: Bytes)
    requires ReadSubidentifier(s).Some?
    ensures s == Subidentifier(ReadSubidentifier(s).value.v) + ReadSubidentifier(s).value.rest
  {
    GroupsAreCanonical(0, s);
    assert [] + s == s;
  }

  // ----- IDs -----

  function EncodeId(parts: seq<uint32>): Bytes {
    if |parts| == 0 then [] else Subidentifier(parts[0]) + EncodeId(parts[1..])
  }

  /** The components of an ID, if it is a list of subidentifiers. */
  function Components(id: Bytes): (parts: Option<seq<uint32>>)
    decreases |id|
  {
    if |id| == 0 then Some([])
    else
      match ReadSubidentifier(id)
      case None => None
      case Some(p) =>
        match Components(p.rest)
        case None => None
        case Some(rest) => Some([p.v] + rest)
  }

  predicate IsId(id: Bytes) { 0 < |id| && Components(id).Some? }

  lemma {:induction false} ComponentsOfEncoded(parts: seq<uint32>)
    ensures Components(EncodeId(parts)) == Some(parts)
  {
    hide Subidentifier, ReadSubidentifier;
    if |parts| != 0 {
      ComponentsOfEncoded(parts[1..]);
      ReadWritten(parts[0], EncodeId(parts[1..]));
      assert parts == [parts[0]] + parts[1..];
    }
  }

  lemma {:induction false} EncodedComponents(id: Bytes)
    requires Components(id).Some?
    ensures EncodeId(Components(id).value) == id
    decreases |id|
  {
    hide Subidentifier, ReadSubidentifier;
    if |id| != 0 {
      var p := ReadSubidentifier(id).value;
      ReadIsCanonical(id);
      EncodedComponents(p.rest);
      var parts := Components(id).value;
      assert parts[1..] == Components(p.rest).value;
    }
  }

  lemma {:induction false} EncodeConcat(a: seq<uint32>, b: seq<uint32>)
    ensures EncodeId(a + b) == EncodeId(a) + EncodeId(b)
  {
    hide Subidentifier;
    if |a| == 0 {
      assert a + b == b;
    } else {
      EncodeConcat(a[1..], b);
      assert (a + b)[1..] == a[1..] + b;
      AppendAssoc(Subidentifier(a[0]), EncodeId(a[1..]), EncodeId(b));
    }
  }

  lemma {:induction false} EncodeAppend(parts: seq<uint32>, v: uint32)
    ensures EncodeId(parts + [v]) == EncodeId(parts) + Subidentifier(v)
  {
    hide Subidentifier;
    if |parts| == 0 {
      assert parts + [v] == [v];
      assert EncodeId([v]) == Subidentifier(v) + EncodeId([]);
      assert [v][1..] == [];
    } else {
      EncodeAppend(parts[1..], v);
      assert (parts + [v])[1..] == parts[1..] + [v];
      AppendAssoc(Subidentifier(parts[0]), EncodeId(parts[1..]), Subidentifier(v));
    }
  }
}
