/** Subtree hashes and inclusion proofs, read bottom-up from the table of full
    nodes, against the top-down definitions of RFC 9162.
 */
module SubtreeProofs {
  import opened Bits
  import opened Hashing
  import opened Subtrees
  import opened MerkleSpec
  import opened MerkleTree

  // ----- The right edge of a subtree -----

  /** The level of the largest full node on the right edge: for a subtree, the
      trailing zeros of ^last - start in 64 bits are those of its size. */
  lemma {:induction false} RightEdgeLevel(start: uint64, end: uint64)
    requires start < end && IsSubtree(start, end)
    ensures TrailingZeros64(Sub64(Not64(end - 1), start)) == TrailingZeros(end - start)
  {
    var k := TrailingZeros(end - start);
    SizeLevel(start, end);
    SumOfEnds(start, end, k);
    Negate(start + end, Sub64(Not64(end - 1), start), k);
  }

  /** The size of a subtree is a multiple of 2^k for the level k of its right
      edge, its start too, and k does not exceed the height of the subtree. */
  lemma {:induction false} SizeLevel(start: uint64, end: uint64)
    requires start < end && IsSubtree(start, end)
    ensures var k := TrailingZeros(end - start);
      && k <= CeilLog(end - start) && k < 64
      && Low(end - start, k) == 0 && Low(end - start, k + 1) != 0
      && Low(start, k) == 0 && Low(end, k) == 0
      && Pow2(k) <= end - start
  {
    var size, k := end - start, TrailingZeros(end - start);
    TrailingZerosDivides(size, k);
    TrailingZerosDivides(size, k + 1);
    LowSize(size, k);
    LevelBounds(size, k);
    LowDown(start, k, CeilLog(size));
    LowAdd(start, size, k);
  }

  lemma {:induction false} LevelBounds(size: uint64, k: nat)
    requires Pow2(k) <= size
    ensures k <= CeilLog(size) && k < 64
  {
    Pow2Is64();
    if 64 <= k { Pow2Mono(64, k); }
    if CeilLog(size) < k { Pow2Mono(CeilLog(size), k); }
  }

  lemma {:induction false} LowSize(x: nat, k: nat)
    requires 0 < x && Low(x, k) == 0
    ensures Pow2(k) <= x
  {
    ShlLow(0, k);
    ShlOne(k);
    LowGap(0, x, k);
  }

  lemma {:induction false} SumOfEnds(start: nat, end: nat, k: nat)
    requires start <= end
    requires Low(start, k) == 0 && Low(end, k) == 0 && Low(end - start, k + 1) != 0
    ensures Low(start + end, k) == 0 && Low(start + end, k + 1) != 0
  {
    LowAdd(start, end, k);
    assert (2 * start) / 2 == start;
    LowAdd(2 * start, end - start, k + 1);
  }

  /** Negation modulo 2^64 keeps the trailing zeros. */
  lemma {:induction false} Negate(s: nat, v: uint64, k: nat)
    requires k < 64
    requires s + v == 0x1_0000_0000_0000_0000 || s + v == 0x2_0000_0000_0000_0000
    requires Low(s, k) == 0 && Low(s, k + 1) != 0
    ensures TrailingZeros64(v) == k
  {
    hide Low, TrailingZeros;
    Pow2Is64();
    var t := s + v;
    assert Low(t, 64) == 0 by {
      if t == Pow2(64) { LowPow2(t, 64); } else { LowPow2(t, 65); LowDown(t, 64, 65); }
    }
    LowDown(t, k, 64);
    LowDown(t, k + 1, 64);
    LowSub(t, s, k);
    if Low(v, k + 1) == 0 { LowSub(t, v, k + 1); }
    TrailingZerosUnique(v, k);
  }

  // ----- SubtreeHash -----

  /** The state of the climb along the right edge: ret is the hash of the node
      `last` of the given level, cut off at the end of the subtree. */
  ghost predicate OnRightEdge(h: Hasher, D: seq<Bytes>, start: nat, end: nat,
      level: nat, first: nat, last: nat, ret: HashValue)
  {
    && start < end <= |D| && IsSubtree(start, end)
    && level <= CeilLog(end - start)
    && first == Shr(start, level) && last == Shr(end - 1, level)
    && Shl(last, level) < end <= Shl(last, level) + Pow2(level)
    && ret == Mth(h, D, Shl(last, level), end)
  }

  lemma {:induction false} RightEdgeStart(h: Hasher, D: seq<Bytes>, start: uint64, end: uint64, level: nat)
    requires start < end <= |D| && IsSubtree(start, end)
    requires level == TrailingZeros64(Sub64(Not64(end - 1), start))
    ensures var last := Shr(end - 1, level);
      && Shl(last, level) + Pow2(level) <= |D|
      && OnRightEdge(h, D, start, end, level, Shr(start, level), last,
           Mth(h, D, Shl(last, level), Shl(last, level) + Pow2(level)))
  {
    hide Low, CeilLog, Mth, Shl, Shr, Pow2, TrailingZeros, TrailingZeros64;
    RightEdgeLevel(start, end);
    SizeLevel(start, end);
    AlignDown(end - 1, end, level);
    ShlShr(end - 1, level);
  }

  /** One step up: an odd position has a full left sibling. */
  lemma {:induction false} RightEdgeUp(h: Hasher, D: seq<Bytes>, start: nat, end: nat,
      level: nat, first: nat, last: nat, ret: HashValue)
    requires OnRightEdge(h, D, start, end, level, first, last, ret)
    requires first < last
    ensures Shr(last, 1) < last
    ensures And(last, 1) != 1 ==> OnRightEdge(h, D, start, end, level + 1, Shr(first, 1), Shr(last, 1), ret)
    ensures And(last, 1) == 1 ==>
      && 1 <= last
      && Shl(last - 1, level) + Pow2(level) <= |D|
      && OnRightEdge(h, D, start, end, level + 1, Shr(first, 1), Shr(last, 1),
           h.node(Mth(h, D, Shl(last - 1, level), Shl(last - 1, level) + Pow2(level)), ret))
  {
    hide Low, CeilLog, Mth, Shl, Shr, Pow2, IsSubtree;
    if level == CeilLog(end - start) { MeetsAtTop(start, end); }
    ShrStep(start, level);
    ShrStep(end - 1, level);
    LastBit(first);
    LastBit(last);
    RightEdgeParent(h, D, level, last, end);
  }

  lemma {:induction false} RightEdgeParent(h: Hasher, D: seq<Bytes>, level: nat, last: nat, end: nat)
    requires Shl(last, level) < end <= Shl(last, level) + Pow2(level)
    requires end <= |D|
    ensures Shl(last / 2, level + 1) < end <= Shl(last / 2, level + 1) + Pow2(level + 1)
    ensures last % 2 == 0 ==> Shl(last / 2, level + 1) == Shl(last, level)
    ensures last % 2 == 1 ==>
      && Shl(last - 1, level) + Pow2(level) == Shl(last, level)
      && Mth(h, D, Shl(last / 2, level + 1), end)
         == h.node(Mth(h, D, Shl(last - 1, level), Shl(last, level)), Mth(h, D, Shl(last, level), end))
  {
    hide Mth, Shl, Pow2;
    Children(level, last / 2);
    if last % 2 == 1 { MthParent(h, D, Shl(last - 1, level), end, level); }
  }

  /** At the height of the subtree, start and the last position meet. */
  lemma {:induction false} MeetsAtTop(start: nat, end: nat)
    requires start < end && IsSubtree(start, end)
    ensures Shr(end - 1, CeilLog(end - start)) == Shr(start, CeilLog(end - start))
  {
    var c := CeilLog(end - start);
    LowAdd(start, end - 1 - start, c);
    ShrOut(end - 1 - start, c);
  }

  lemma {:induction false} RightEdgeTop(h: Hasher, D: seq<Bytes>, start: nat, end: nat,
      level: nat, first: nat, last: nat, ret: HashValue)
    requires OnRightEdge(h, D, start, end, level, first, last, ret)
    requires last <= first
    ensures ret == Mth(h, D, start, end)
  {
    ShrMono(start, end - 1, level);
    LowDown(start, level, CeilLog(end - start));
    ShlShr(start, level);
  }

  method SubtreeHash(mt: StaticMerkleTree, start: uint64, end: uint64) returns (r: Result<HashValue>)
    requires mt.Valid()
    ensures r ==
      if IsSubtree(start, end) && end <= |mt.entries|
      then Ok(Mth(mt.hasher, mt.entries, start, end)) else Err
  {
    IsValidSubtreeIsExact(start, end);
    if !IsValidSubtree(start, end) { return Err; }
    if end > mt.Size() { return Err; }
    if start == end { return Ok(mt.hasher.empty); }
    var v := ClimbRightEdge(mt, start, end);
    return Ok(v);
  }

  /** SubtreeHash past its checks. */
  method ClimbRightEdge(mt: StaticMerkleTree, start: uint64, end: uint64) returns (ret: HashValue)
    requires mt.Valid()
    requires start < end <= |mt.entries| && IsSubtree(start, end)
    ensures ret == Mth(mt.hasher, mt.entries, start, end)
  {
    hide *;
    ghost var h, D := mt.hasher, mt.entries;
    var first: uint64, last: uint64 := start, end - 1;
    var level := TrailingZeros64(Sub64(Not64(last), first));
    RightEdgeStart(h, D, start, end, level);
    first := Shr(first, level);
    last := Shr(last, level);
    ret := mt.FullSubtreeHashByLevel(level, last);
    while first < last
      invariant OnRightEdge(h, D, start, end, level, first, last, ret)
      decreases last
    {
      RightEdgeUp(h, D, start, end, level, first, last, ret);
      if And(last, 1) == 1 {
        var left := mt.FullSubtreeHashByLevel(level, last - 1);
        ret := mt.hasher.node(left, ret);
      }
      level := level + 1;
      first := Shr(first, 1);
      last := Shr(last, 1);
    }
    RightEdgeTop(h, D, start, end, level, first, last, ret);
  }

  // ----- SubtreeInclusionProof -----

  /** A proof on the wire: its hashes one after the other. */
  function Flatten(hashes: seq<HashValue>): (b: Bytes)
    ensures |b| == 32 * |hashes|
  {
    if |hashes| == 0 then [] else Flatten(hashes[..|hashes| - 1]) + hashes[|hashes| - 1]
  }

  lemma {:induction false} FlattenNone()
    ensures Flatten([]) == []
  {
  }

  lemma {:induction false} FlattenAppend(hashes: seq<HashValue>, v: HashValue)
    ensures Flatten(hashes + [v]) == Flatten(hashes) + v
  {
    assert (hashes + [v])[..|hashes|] == hashes;
  }

  /** The state of the climb from the entry: the hashes so far are the path of the
      entry in the node of the given level that contains it. */
  ghost predicate OnPath(h: Hasher, D: seq<Bytes>, index: nat, start: nat, end: nat,
      level: nat, hashes: seq<HashValue>)
  {
    var i := Shr(index, level);
    && start <= index < end <= |D| && IsSubtree(start, end)
    && level <= CeilLog(end - start)
    && Shl(i, level) <= index < NodeEnd(level, i, end)
    && hashes == Path(h, D, index, Shl(i, level), NodeEnd(level, i, end))
  }

  lemma {:induction false} PathStart(h: Hasher, D: seq<Bytes>, index: nat, start: nat, end: nat)
    requires start <= index < end <= |D| && IsSubtree(start, end)
    ensures OnPath(h, D, index, start, end, 0, [])
  {
    assert Pow2(0) == 1;
  }

  /** Nodes before the last one of their level are full; the last one is cut off. */
  lemma {:induction false} NodeAtEdge(level: nat, j: nat, end: nat)
    requires 0 < end
    ensures j < Shr(end - 1, level) ==>
      Shl(j, level) + Pow2(level) < end && NodeEnd(level, j, end) == Shl(j, level) + Pow2(level)
    ensures j == Shr(end - 1, level) ==>
      Shl(j, level) < end <= Shl(j, level) + Pow2(level) && NodeEnd(level, j, end) == end
  {
    ShlNext(j, level);
    ShlLe(j + 1, level, end - 1);
    NodeOf(level, end - 1);
  }

  /** From a left child that has a sibling. */
  lemma {:induction false} PathFromLeft(h: Hasher, D: seq<Bytes>, index: nat, level: nat, i: nat, end: nat)
    requires i % 2 == 0
    requires Shl(i, level) <= index < Shl(i, level) + Pow2(level) < end <= |D|
    ensures Shl(i, level) + Pow2(level) == Shl(i + 1, level)
    ensures NodeEnd(level, i, end) == Shl(i, level) + Pow2(level)
    ensures NodeEnd(level + 1, i / 2, end) == NodeEnd(level, i + 1, end)
    ensures Shl(i / 2, level + 1) == Shl(i, level)
    ensures Path(h, D, index, Shl(i / 2, level + 1), NodeEnd(level + 1, i / 2, end))
      == Path(h, D, index, Shl(i, level), NodeEnd(level, i, end))
         + [Mth(h, D, Shl(i + 1, level), NodeEnd(level, i + 1, end))]
    ensures Mth(h, D, Shl(i / 2, level + 1), NodeEnd(level + 1, i / 2, end))
      == h.node(Mth(h, D, Shl(i, level), NodeEnd(level, i, end)),
                Mth(h, D, Shl(i + 1, level), NodeEnd(level, i + 1, end)))
  {
    hide Path, Mth, Shl, Pow2;
    Children(level, i / 2);
    ParentEnd(level, i, end);
    MthParent(h, D, Shl(i, level), NodeEnd(level + 1, i / 2, end), level);
    PathParent(h, D, index, Shl(i, level), NodeEnd(level + 1, i / 2, end), level);
  }

  lemma {:induction false} ParentEnd(level: nat, i: nat, end: nat)
    requires i % 2 == 0
    requires Shl(i, level) + Pow2(level) < end
    ensures NodeEnd(level + 1, i / 2, end) == NodeEnd(level, i + 1, end)
    ensures Shl(i, level) + Pow2(level) < NodeEnd(level + 1, i / 2, end) <= Shl(i, level) + 2 * Pow2(level)
  {
    Children(level, i / 2);
  }

  /** From a right child. */
  lemma {:induction false} PathFromRight(h: Hasher, D: seq<Bytes>, index: nat, level: nat, i: nat, end: nat)
    requires i % 2 == 1
    requires Shl(i, level) <= index < NodeEnd(level, i, end)
    requires end <= |D|
    ensures Shl(i - 1, level) + Pow2(level) == Shl(i, level)
    ensures NodeEnd(level + 1, i / 2, end) == NodeEnd(level, i, end)
    ensures Shl(i / 2, level + 1) == Shl(i - 1, level)
    ensures Path(h, D, index, Shl(i / 2, level + 1), NodeEnd(level + 1, i / 2, end))
      == Path(h, D, index, Shl(i, level), NodeEnd(level, i, end))
         + [Mth(h, D, Shl(i - 1, level), Shl(i - 1, level) + Pow2(level))]
    ensures Mth(h, D, Shl(i / 2, level + 1), NodeEnd(level + 1, i / 2, end))
      == h.node(Mth(h, D, Shl(i - 1, level), Shl(i - 1, level) + Pow2(level)),
                Mth(h, D, Shl(i, level), NodeEnd(level, i, end)))
  {
    hide Path, Mth, Shl, Pow2;
    Children(level, i / 2);
    ParentEnd(level, i - 1, end);
    MthParent(h, D, Shl(i - 1, level), NodeEnd(level, i, end), level);
    PathParent(h, D, index, Shl(i - 1, level), NodeEnd(level, i, end), level);
  }

  /** From a node without a sibling, which is its own parent. */
  lemma {:induction false} PathAlone(level: nat, i: nat, end: nat)
    requires i % 2 == 0
    requires Shl(i, level) < end <= Shl(i, level) + Pow2(level)
    ensures Shl(i / 2, level + 1) == Shl(i, level)
    ensures NodeEnd(level + 1, i / 2, end) == NodeEnd(level, i, end) == end
  {
    Children(level, i / 2);
  }

  /** Positions one level up, and a bound on the level while start and last differ. */
  lemma {:induction false} LevelUp(start: nat, index: nat, end: nat, level: nat)
    requires start <= index < end && IsSubtree(start, end)
    requires level <= CeilLog(end - start)
    requires Shr(start, level) < Shr(end - 1, level)
    ensures level + 1 <= CeilLog(end - start)
    ensures Shr(index, level) <= Shr(end - 1, level)
    ensures Shr(start, level + 1) == Shr(start, level) / 2 == Shr(Shr(start, level), 1)
    ensures Shr(index, level + 1) == Shr(index, level) / 2 == Shr(Shr(index, level), 1)
    ensures Shr(end - 1, level + 1) == Shr(end - 1, level) / 2 == Shr(Shr(end - 1, level), 1)
  {
    if level == CeilLog(end - start) { MeetsAtTop(start, end); }
    ShrStep(start, level);
    ShrStep(index, level);
    ShrStep(end - 1, level);
    ShrMono(index, end - 1, level);
    LastBit(Shr(start, level));
    LastBit(Shr(index, level));
    LastBit(Shr(end - 1, level));
  }

  /** The three cases of one step up: the sibling is full, or it is the node on
      the right edge, or there is none. */
  lemma {:induction false} PathUp(h: Hasher, D: seq<Bytes>, index: nat, start: nat, end: nat,
      level: nat, i: nat, last: nat, hashes: seq<HashValue>)
    requires OnPath(h, D, index, start, end, level, hashes)
    requires Shr(start, level) < last
    requires i == Shr(index, level) && last == Shr(end - 1, level)
    ensures level + 1 <= CeilLog(end - start)
    ensures var sibling := Xor(i, 1);
      && (sibling < last ==>
           && Shl(sibling, level) + Pow2(level) <= |D|
           && OnPath(h, D, index, start, end, level + 1,
                hashes + [Mth(h, D, Shl(sibling, level), Shl(sibling, level) + Pow2(level))]))
      && (sibling == last ==>
           && Shl(last, level) < end
           && IsSubtree(Shl(last, level), end)
           && OnPath(h, D, index, start, end, level + 1, hashes + [Mth(h, D, Shl(last, level), end)]))
      && (sibling > last ==>
           OnPath(h, D, index, start, end, level + 1, hashes))
  {
    hide Path, Mth, Shl, Shr, Xor, Low, Pow2, CeilLog, NodeEnd, IsSubtree;
    var sibling := Xor(i, 1);
    XorOne(i);
    LevelUp(start, index, end, level);
    NodeAtEdge(level, i, end);
    NodeAtEdge(level, sibling, end);
    NodeOf(level + 1, index);
    if sibling > last {
      PathAlone(level, i, end);
    } else if i % 2 == 1 {
      PathFromRight(h, D, index, level, i, end);
    } else {
      PathFromLeft(h, D, index, level, i, end);
    }
    if sibling == last {
      ShlLow(last, level);
      AlignedIsSubtree(Shl(last, level), end, level);
    }
  }

  lemma {:induction false} PathTop(h: Hasher, D: seq<Bytes>, index: nat, start: nat, end: nat,
      level: nat, hashes: seq<HashValue>)
    requires OnPath(h, D, index, start, end, level, hashes)
    requires Shr(end - 1, level) <= Shr(start, level)
    ensures hashes == Path(h, D, index, start, end)
  {
    hide Path, Shl, Shr, Low, CeilLog, NodeEnd;
    ShrMono(start, index, level);
    ShrMono(index, end - 1, level);
    LowDown(start, level, CeilLog(end - start));
    ShlShr(start, level);
    NodeAtEdge(level, Shr(index, level), end);
  }

  method SubtreeInclusionProof(mt: StaticMerkleTree, index: uint64, start: uint64, end: uint64) returns (r: Result<Bytes>)
    requires mt.Valid()
    ensures r ==
      if IsSubtree(start, end) && end <= |mt.entries| && start <= index < end
      then Ok(Flatten(Path(mt.hasher, mt.entries, index, start, end))) else Err
  {
    IsValidSubtreeIsExact(start, end);
    if !IsValidSubtree(start, end) { return Err; }
    if end > mt.Size() { return Err; }
    if start > index || index >= end { return Err; }
    var proof := ClimbPath(mt, index, start, end);
    return Ok(proof);
  }

  /** SubtreeInclusionProof past its checks. */
  method ClimbPath(mt: StaticMerkleTree, index: uint64, start: uint64, end: uint64) returns (proof: Bytes)
    requires mt.Valid()
    requires start <= index < end <= |mt.entries| && IsSubtree(start, end)
    ensures proof == Flatten(Path(mt.hasher, mt.entries, index, start, end))
  {
    hide *;
    ghost var h, D := mt.hasher, mt.entries;
    ghost var hashes: seq<HashValue> := [];
    proof := [];
    var level := 0;
    var first: uint64, i: uint64, last: uint64 := start, index, end - 1;
    PathStart(h, D, index, start, end);
    ShrZero(start);
    ShrZero(index);
    ShrZero(end - 1);
    FlattenNone();
    while first < last
      invariant OnPath(h, D, index, start, end, level, hashes)
      invariant first == Shr(start, level) && i == Shr(index, level) && last == Shr(end - 1, level)
      invariant proof == Flatten(hashes)
      decreases last
    {
      PathUp(h, D, index, start, end, level, i, last, hashes);
      LevelUp(start, index, end, level);
      XorOne(i);
      var sibling := Xor(i, 1);
      if sibling < last {
        var v := mt.FullSubtreeHashByLevel(level, sibling);
        FlattenAppend(hashes, v);
        proof := proof + v;
        hashes := hashes + [v];
      } else if sibling == last {
        Shl64Exact(last, level);
        var v := SubtreeHash(mt, Shl64(last, level), end);
        FlattenAppend(hashes, v.value);
        proof := proof + v.value;
        hashes := hashes + [v.value];
      }
      level := level + 1;
      first := Shr(first, 1);
      i := Shr(i, 1);
      last := Shr(last, 1);
    }
    PathTop(h, D, index, start, end, level, hashes);
  }
}
