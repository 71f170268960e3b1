/** Evaluating a subtree inclusion proof: what it accepts, that it undoes the
    generator, and that it binds the entry to the subtree hash.
 */
module InclusionProofs {
  import opened Bits
  import opened Hashing
  import opened Subtrees
  import opened MerkleSpec
  import opened SubtreeProofs

  // ----- Proofs as bytes -----

  /** The hashes of a proof of whole hashes. */
  function Chunks(b: Bytes): (hashes: seq<HashValue>)
    requires |b| % 32 == 0
    ensures 32 * |hashes| == |b|
  {
    if |b| == 0 then [] else [b[..32]] + Chunks(b[32..])
  }

  lemma {:induction false} FlattenCons(v: HashValue, hashes: seq<HashValue>)
    ensures Flatten([v] + hashes) == v + Flatten(hashes)
  {
    hide Flatten;
    FlattenNone();
    if |hashes| == 0 {
      assert [v] + hashes == [] + [v];
      FlattenAppend([], v);
      assert [] + v == v + [];
    } else {
      var init, last := hashes[..|hashes| - 1], hashes[|hashes| - 1];
      assert hashes == init + [last];
      FlattenCons(v, init);
      FlattenAppend(init, last);
      FlattenAppend([v] + init, last);
      assert [v] + hashes == ([v] + init) + [last];
      AppendAssoc(v, Flatten(init), last);
    }
  }

  lemma {:induction false} ChunksOfFlatten(hashes: seq<HashValue>)
    ensures |Flatten(hashes)| % 32 == 0
    ensures Chunks(Flatten(hashes)) == hashes
  {
    if |hashes| != 0 {
      ChunksOfFlatten(hashes[1..]);
      assert hashes == [hashes[0]] + hashes[1..];
      FlattenCons(hashes[0], hashes[1..]);
      var b := Flatten(hashes);
      assert b[..32] == hashes[0] && b[32..] == Flatten(hashes[1..]);
    }
  }

  lemma {:induction false} FlattenOfChunks(b: Bytes)
    requires |b| % 32 == 0
    ensures Flatten(Chunks(b)) == b
  {
    if |b| == 0 {
    } else {
      FlattenOfChunks(b[32..]);
      FlattenCons(b[..32], Chunks(b[32..]));
      assert b == b[..32] + b[32..];
    }
  }

  // ----- The climb, one level at a time -----

  /** Going up from position fn of sn + 1: at each level the node has a left
      sibling, or a right one, or, last in an odd row, none at all. */
  function Climb(h: Hasher, fn: nat, sn: nat, r: HashValue, path: seq<HashValue>): Option<HashValue>
    decreases sn
  {
    if sn == 0 then (if |path| == 0 then Some(r) else None)
    else if fn == sn && fn % 2 == 0 then Climb(h, fn / 2, sn / 2, r, path)
    else if |path| == 0 then None
    else if fn % 2 == 1 then Climb(h, fn / 2, sn / 2, h.node(path[0], r), path[1..])
    else Climb(h, fn / 2, sn / 2, h.node(r, path[0]), path[1..])
  }

  /** The climb fed by a proof in bytes, which must be whole hashes. */
  function ClimbBytes(h: Hasher, fn: nat, sn: nat, r: HashValue, proof: Bytes): Option<HashValue> {
    if |proof| % 32 == 0 then Climb(h, fn, sn, r, Chunks(proof)) else None
  }

  /** What EvaluateSubtreeInclusionProof answers. */
  function Evaluation(h: Hasher, index: nat, start: nat, end: nat, entryHash: HashValue, proof: Bytes): Result<HashValue> {
    if IsSubtree(start, end) && start <= index < end then
      match ClimbBytes(h, index - start, end - start - 1, entryHash, proof)
      case Some(v) => Ok(v)
      case None => Err
    else Err
  }

  /** The levels a node without sibling goes up on its own change nothing. */
  lemma {:induction false} BytesSkip(h: Hasher, fn: nat, sn: nat, r: HashValue, proof: Bytes)
    requires fn == sn && And(fn, 1) == 0 && 0 < fn
    ensures 0 < Shr(fn, 1) < fn
    ensures ClimbBytes(h, fn, sn, r, proof) == ClimbBytes(h, Shr(fn, 1), Shr(sn, 1), r, proof)
  {
    LastBit(fn);
  }

  lemma {:induction false} BytesLeft(h: Hasher, fn: nat, sn: nat, r: HashValue, p: HashValue, rest: Bytes)
    requires And(fn, 1) != 0 && fn <= sn
    ensures Shr(fn, 1) <= Shr(sn, 1)
    ensures ClimbBytes(h, fn, sn, r, p + rest) == ClimbBytes(h, Shr(fn, 1), Shr(sn, 1), h.node(p, r), rest)
  {
    LastBit(fn);
    LastBit(sn);
    assert (p + rest)[..32] == p && (p + rest)[32..] == rest;
    if |rest| % 32 == 0 {
      assert Chunks(p + rest)[1..] == Chunks(rest);
    }
  }

  lemma {:induction false} BytesRight(h: Hasher, fn: nat, sn: nat, r: HashValue, p: HashValue, rest: Bytes)
    requires And(fn, 1) != 1 && fn < sn
    ensures Shr(fn, 1) <= Shr(sn, 1)
    ensures ClimbBytes(h, fn, sn, r, p + rest) == ClimbBytes(h, Shr(fn, 1), Shr(sn, 1), h.node(r, p), rest)
  {
    LastBit(fn);
    LastBit(sn);
    assert (p + rest)[..32] == p && (p + rest)[32..] == rest;
    if |rest| % 32 == 0 {
      assert Chunks(p + rest)[1..] == Chunks(rest);
    }
  }

  /** Where the loop stops. */
  lemma {:induction false} BytesEnd(h: Hasher, fn: nat, sn: nat, r: HashValue, rest: Bytes)
    ensures 0 < |rest| < 32 ==> ClimbBytes(h, fn, sn, r, rest) == None
    ensures 0 < |rest| && sn == 0 ==> ClimbBytes(h, fn, sn, r, rest) == None
    ensures |rest| == 0 && fn <= sn ==> ClimbBytes(h, fn, sn, r, rest) == if sn == 0 then Some(r) else None
  {
    if |rest| == 0 && fn <= sn { ClimbEnd(h, fn, sn, r); }
  }

  lemma {:induction false} ClimbEnd(h: Hasher, fn: nat, sn: nat, r: HashValue)
    requires fn <= sn
    ensures Climb(h, fn, sn, r, []) == if sn == 0 then Some(r) else None
  {
    if sn != 0 && fn == sn && fn % 2 == 0 { ClimbEnd(h, fn / 2, sn / 2, r); }
  }

  method EvaluateSubtreeInclusionProof(h: Hasher, index: uint64, start: uint64, end: uint64, entryHash: HashValue, proof: Bytes)
    returns (res: Result<HashValue>)
    ensures res == Evaluation(h, index, start, end, entryHash, proof)
  {
    IsValidSubtreeIsExact(start, end);
    if !IsValidSubtree(start, end) { return Err; }
    if start > index || index >= end { return Err; }
    var v := ClimbProof(h, index - start, end - start - 1, entryHash, proof);
    res := match v case Some(root) => Ok(root) case None => Err;
  }

  /** EvaluateSubtreeInclusionProof past its checks. */
  method ClimbProof(h: Hasher, fn0: uint64, sn0: uint64, entryHash: HashValue, proof: Bytes) returns (res: Option<HashValue>)
    requires fn0 <= sn0
    ensures res == ClimbBytes(h, fn0, sn0, entryHash, proof)
  {
    hide Climb, ClimbBytes, Chunks, And, Shr;
    var fn, sn, r, rest := fn0, sn0, entryHash, proof;
    while |rest| != 0
      invariant fn <= sn
      invariant ClimbBytes(h, fn, sn, r, rest) == ClimbBytes(h, fn0, sn0, entryHash, proof)
      decreases |rest|
    {
      BytesEnd(h, fn, sn, r, rest);
      if |rest| < 32 { return None; }
      var p: HashValue := rest[..32];
      assert rest == p + rest[32..];
      rest := rest[32..];
      if sn == 0 { return None; }
      if And(fn, 1) == 1 || fn == sn {
        ghost var r0 := r;
        r := h.node(p, r);
        while And(fn, 1) == 0
          invariant fn <= sn && (And(fn, 1) == 0 ==> fn == sn && 0 < fn)
          invariant ClimbBytes(h, fn, sn, r0, p + rest) == ClimbBytes(h, fn0, sn0, entryHash, proof)
          decreases fn
        {
          BytesSkip(h, fn, sn, r0, p + rest);
          fn := Shr(fn, 1);
          sn := Shr(sn, 1);
        }
        BytesLeft(h, fn, sn, r0, p, rest);
      } else {
        BytesRight(h, fn, sn, r, p, rest);
        r := h.node(r, p);
      }
      fn := Shr(fn, 1);
      sn := Shr(sn, 1);
    }
    BytesEnd(h, fn, sn, r, rest);
    if sn != 0 { return None; }
    return Some(r);
  }

  // ----- Which proofs are accepted -----

  /** The number of hashes in a proof: one for each level up to where the paths of
      the entry and of the last entry meet, then one for each left turn above. */
  function ProofLength(fn: nat, sn: nat): nat {
    Len(Xor(fn, sn)) + PopCount(Shr(fn, Len(Xor(fn, sn))))
  }

  lemma {:induction false} ProofLengthStep(fn: nat, sn: nat)
    requires fn <= sn && 0 < sn
    ensures ProofLength(fn, sn) ==
      (if fn == sn && fn % 2 == 0 then 0 else 1) + ProofLength(fn / 2, sn / 2)
  {
    XorStep(fn, sn);
    LenStep(Xor(fn, sn));
    if fn == sn { ShrZero(fn); ShrZero(fn / 2); }
  }

  lemma {:induction false} ClimbAccepts(h: Hasher, fn: nat, sn: nat, r: HashValue, path: seq<HashValue>)
    requires fn <= sn
    ensures Climb(h, fn, sn, r, path).Some? <==> |path| == ProofLength(fn, sn)
    decreases sn
  {
    hide ProofLength;
    if sn == 0 {
      ProofLengthZero();
    } else {
      ProofLengthStep(fn, sn);
      if fn == sn && fn % 2 == 0 {
        ClimbAccepts(h, fn / 2, sn / 2, r, path);
      } else if |path| != 0 {
        var r' := if fn % 2 == 1 then h.node(path[0], r) else h.node(r, path[0]);
        ClimbAccepts(h, fn / 2, sn / 2, r', path[1..]);
      }
    }
  }

  lemma {:induction false} ProofLengthZero()
    ensures ProofLength(0, 0) == 0
  {
  }

  /** No proof is longer than BIT_WIDTH(sn) hashes. */
  lemma {:induction false} ProofLengthBound(fn: nat, sn: nat)
    requires fn <= sn
    ensures ProofLength(fn, sn) <= Len(sn)
    decreases sn
  {
    hide ProofLength;
    if sn == 0 {
      ProofLengthZero();
    } else {
      ProofLengthStep(fn, sn);
      ProofLengthBound(fn / 2, sn / 2);
    }
  }

  lemma {:induction false} ClimbBytesAccepts(h: Hasher, fn: nat, sn: nat, r: HashValue, proof: Bytes)
    requires fn <= sn
    ensures ClimbBytes(h, fn, sn, r, proof).Some? <==> |proof| == 32 * ProofLength(fn, sn)
  {
    hide ProofLength, Climb, Chunks;
    if |proof| % 32 == 0 { ClimbAccepts(h, fn, sn, r, Chunks(proof)); }
  }

  /** The evaluator accepts exactly, for a position in a subtree, the proofs of
      HashSize * (l1 + l2) bytes, whatever they contain; and nothing elsewhere. */
  lemma {:induction false} EvaluationAccepts(h: Hasher, index: nat, start: nat, end: nat, entryHash: HashValue, proof: Bytes)
    ensures Evaluation(h, index, start, end, entryHash, proof).Ok? <==>
      && IsSubtree(start, end) && start <= index < end
      && |proof| == 32 * ProofLength(index - start, end - start - 1)
    ensures start <= index < end ==> ProofLength(index - start, end - start - 1) <= Len(end - start - 1)
  {
    hide ProofLength, ClimbBytes, IsSubtree;
    if start <= index < end {
      ProofLengthBound(index - start, end - start - 1);
      ClimbBytesAccepts(h, index - start, end - start - 1, entryHash, proof);
    }
  }

  // ----- Binding -----

  datatype Pair = Pair(left: HashValue, right: HashValue)

  function HashPair(h: Hasher, p: Pair): HashValue { h.node(p.left, p.right) }

  /** The child pairs an evaluation hashes, lowest first. */
  function Hashed(h: Hasher, fn: nat, sn: nat, r: HashValue, path: seq<HashValue>): seq<Pair>
    decreases sn
  {
    if sn == 0 || |path| == 0 then []
    else if fn == sn && fn % 2 == 0 then Hashed(h, fn / 2, sn / 2, r, path)
    else
      var p := if fn % 2 == 1 then Pair(path[0], r) else Pair(r, path[0]);
      [p] + Hashed(h, fn / 2, sn / 2, HashPair(h, p), path[1..])
  }

  /** Two runs collide at step k: they hash different pairs to the same value. */
  ghost predicate Collide(h: Hasher, a: seq<Pair>, b: seq<Pair>) {
    exists k :: 0 <= k < |a| && k < |b| && a[k] != b[k] && HashPair(h, a[k]) == HashPair(h, b[k])
  }

  lemma {:induction false} CollideLater(h: Hasher, p: Pair, a: seq<Pair>, q: Pair, b: seq<Pair>)
    requires Collide(h, a, b)
    ensures Collide(h, [p] + a, [q] + b)
  {
    var k :| 0 <= k < |a| && k < |b| && a[k] != b[k] && HashPair(h, a[k]) == HashPair(h, b[k]);
    assert ([p] + a)[k + 1] == a[k] && ([q] + b)[k + 1] == b[k];
  }

  lemma {:induction false} CollideNow(h: Hasher, p: Pair, a: seq<Pair>, q: Pair, b: seq<Pair>)
    requires p != q && HashPair(h, p) == HashPair(h, q)
    ensures Collide(h, [p] + a, [q] + b)
  {
    assert ([p] + a)[0] == p && ([q] + b)[0] == q;
  }

  /** Two accepted evaluations at one position with one result start from the same
      entry hash and use the same proof, or else they collide on the way. */
  lemma {:induction false} ClimbBinds(h: Hasher, fn: nat, sn: nat,
      r1: HashValue, path1: seq<HashValue>, r2: HashValue, path2: seq<HashValue>)
    requires fn <= sn
    requires Climb(h, fn, sn, r1, path1).Some?
    requires Climb(h, fn, sn, r1, path1) == Climb(h, fn, sn, r2, path2)
    ensures (r1 == r2 && path1 == path2)
      || Collide(h, Hashed(h, fn, sn, r1, path1), Hashed(h, fn, sn, r2, path2))
    decreases sn
  {
    hide Collide;
    if sn == 0 {
    } else if fn == sn && fn % 2 == 0 {
      ClimbBinds(h, fn / 2, sn / 2, r1, path1, r2, path2);
    } else {
      var p := if fn % 2 == 1 then Pair(path1[0], r1) else Pair(r1, path1[0]);
      var q := if fn % 2 == 1 then Pair(path2[0], r2) else Pair(r2, path2[0]);
      var a := Hashed(h, fn / 2, sn / 2, HashPair(h, p), path1[1..]);
      var b := Hashed(h, fn / 2, sn / 2, HashPair(h, q), path2[1..]);
      ClimbBinds(h, fn / 2, sn / 2, HashPair(h, p), path1[1..], HashPair(h, q), path2[1..]);
      if Collide(h, a, b) {
        CollideLater(h, p, a, q, b);
      } else if p != q {
        CollideNow(h, p, a, q, b);
      } else {
        assert path1 == [path1[0]] + path1[1..];
        assert path2 == [path2[0]] + path2[1..];
      }
    }
  }

  // ----- The evaluator undoes the generator -----

  /** Below the top of a subtree its start is even at every level, so positions
      relative to it have the parity and the siblings of the absolute ones. */
  lemma {:induction false} Relative(start: nat, x: nat, end: nat, level: nat)
    requires start <= x < end && IsSubtree(start, end)
    requires level <= CeilLog(end - start)
    ensures Shr(start, level) <= Shr(x, level)
    ensures Shr(x - start, level) == Shr(x, level) - Shr(start, level)
    ensures level < CeilLog(end - start) ==> Shr(start, level) % 2 == 0
  {
    LowDown(start, level, CeilLog(end - start));
    LowAdd(start, x - start, level);
    if level < CeilLog(end - start) {
      LowDown(start, level + 1, CeilLog(end - start));
      EvenBelow(start, level);
    }
  }

  lemma {:induction false} EvenBelow(x: nat, k: nat)
    requires Low(x, k + 1) == 0
    ensures Shr(x, k) % 2 == 0
  {
    if k != 0 { EvenBelow(x / 2, k - 1); }
  }

  /** The hash of the node of the given level that contains index. */
  ghost function NodeHash(h: Hasher, D: seq<Bytes>, index: nat, end: nat, level: nat): HashValue
    requires index < end <= |D|
  {
    NodeOf(level, index);
    Mth(h, D, Shl(Shr(index, level), level), NodeEnd(level, Shr(index, level), end))
  }

  lemma {:induction false} NodeHashUp(h: Hasher, D: seq<Bytes>, index: nat, start: nat, end: nat,
      level: nat, hashes: seq<HashValue>)
    requires OnPath(h, D, index, start, end, level, hashes)
    requires Shr(start, level) < Shr(end - 1, level)
    ensures index < end <= |D|
    ensures var i, last := Shr(index, level), Shr(end - 1, level);
      var sibling := Xor(i, 1);
      var here, parent := NodeHash(h, D, index, end, level), NodeHash(h, D, index, end, level + 1);
      if sibling > last then
        i == last && i % 2 == 0 && parent == here
        && OnPath(h, D, index, start, end, level + 1, hashes)
      else
        Shl(sibling, level) < NodeEnd(level, sibling, end) <= |D|
        && var v := Mth(h, D, Shl(sibling, level), NodeEnd(level, sibling, end));
        && OnPath(h, D, index, start, end, level + 1, hashes + [v])
        && (if i % 2 == 1 then parent == h.node(v, here) else i < last && parent == h.node(here, v))
  {
    hide Path, Mth, Shl, Shr, Xor, Low, Pow2, CeilLog, NodeEnd, IsSubtree;
    var i, last := Shr(index, level), Shr(end - 1, level);
    XorOne(i);
    PathUp(h, D, index, start, end, level, i, last, hashes);
    LevelUp(start, index, end, level);
    NodeAtEdge(level, i, end);
    NodeAtEdge(level, Xor(i, 1), end);
    NodeOf(level, index);
    NodeOf(level + 1, index);
    if Xor(i, 1) > last {
      PathAlone(level, i, end);
    } else if i % 2 == 1 {
      PathFromRight(h, D, index, level, i, end);
    } else {
      PathFromLeft(h, D, index, level, i, end);
    }
  }

  lemma {:induction false} NodeHashTop(h: Hasher, D: seq<Bytes>, index: nat, start: nat, end: nat,
      level: nat, hashes: seq<HashValue>)
    requires OnPath(h, D, index, start, end, level, hashes)
    requires Shr(end - 1, level) <= Shr(start, level)
    ensures index < end <= |D| && start <= index
    ensures NodeHash(h, D, index, end, level) == Mth(h, D, start, end)
    ensures hashes == Path(h, D, index, start, end)
    ensures Shr(end - 1, level) == Shr(index, level) == Shr(start, level)
  {
    hide Path, Shl, Shr, Low, CeilLog, NodeEnd;
    PathTop(h, D, index, start, end, level, hashes);
    ShrMono(start, index, level);
    ShrMono(index, end - 1, level);
    LowDown(start, level, CeilLog(end - start));
    ShlShr(start, level);
    NodeAtEdge(level, Shr(index, level), end);
  }

  lemma {:induction false} OnPathRange(h: Hasher, D: seq<Bytes>, index: nat, start: nat, end: nat,
      level: nat, hashes: seq<HashValue>)
    requires OnPath(h, D, index, start, end, level, hashes)
    ensures start <= index < end <= |D| && IsSubtree(start, end) && level <= CeilLog(end - start)
  {
  }

  lemma {:induction false} ClimbLeft(h: Hasher, fn: nat, sn: nat, r: HashValue, p: HashValue, rest: seq<HashValue>)
    requires fn % 2 == 1 && fn <= sn
    ensures Climb(h, fn, sn, r, [p] + rest) == Climb(h, fn / 2, sn / 2, h.node(p, r), rest)
  {
    assert ([p] + rest)[1..] == rest;
  }

  lemma {:induction false} ClimbRight(h: Hasher, fn: nat, sn: nat, r: HashValue, p: HashValue, rest: seq<HashValue>)
    requires fn % 2 == 0 && fn < sn
    ensures Climb(h, fn, sn, r, [p] + rest) == Climb(h, fn / 2, sn / 2, h.node(r, p), rest)
  {
    assert ([p] + rest)[1..] == rest;
  }

  lemma {:induction false} ClimbSkip(h: Hasher, fn: nat, r: HashValue, path: seq<HashValue>)
    requires fn % 2 == 0
    ensures Climb(h, fn, fn, r, path) == Climb(h, fn / 2, fn / 2, r, path)
  {
  }

  /** Positions relative to the start, at one level and the next. */
  lemma {:induction false} RelativeUp(start: nat, index: nat, end: nat, level: nat)
    requires start <= index < end && IsSubtree(start, end)
    requires level <= CeilLog(end - start)
    requires Shr(start, level) < Shr(end - 1, level)
    ensures Shr(index - start, level) <= Shr(end - 1 - start, level)
    ensures Shr(index - start, level) % 2 == Shr(index, level) % 2
    ensures Shr(index - start, level) < Shr(end - 1 - start, level) <==> Shr(index, level) < Shr(end - 1, level)
    ensures Shr(index - start, level + 1) == Shr(index - start, level) / 2
    ensures Shr(end - 1 - start, level + 1) == Shr(end - 1 - start, level) / 2
    ensures Shr(end - 1, level + 1) < Shr(end - 1, level)
  {
    hide Shr, Low, CeilLog, IsSubtree;
    Relative(start, index, end, level);
    Relative(start, end - 1, end, level);
    LevelUp(start, index, end, level);
    ShrStep(index - start, level);
    ShrStep(end - 1 - start, level);
  }

  /** At the top there is nothing left to climb. */
  lemma {:induction false} RelativeTop(start: nat, index: nat, end: nat, level: nat)
    requires start <= index < end && IsSubtree(start, end)
    requires level <= CeilLog(end - start)
    requires Shr(end - 1, level) == Shr(index, level) == Shr(start, level)
    ensures Shr(index - start, level) == 0 && Shr(end - 1 - start, level) == 0
  {
    hide Shr, Low, CeilLog, IsSubtree;
    Relative(start, index, end, level);
    Relative(start, end - 1, end, level);
  }

  /** From any level, the rest of the path leads the climb to the subtree hash. */
  lemma {:induction false} ClimbFrom(h: Hasher, D: seq<Bytes>, index: nat, start: nat, end: nat,
      level: nat, hashes: seq<HashValue>) returns (rest: seq<HashValue>)
    requires OnPath(h, D, index, start, end, level, hashes)
    ensures start <= index < end <= |D|
    ensures Path(h, D, index, start, end) == hashes + rest
    ensures Climb(h, Shr(index - start, level), Shr(end - 1 - start, level), NodeHash(h, D, index, end, level), rest)
      == Some(Mth(h, D, start, end))
    decreases Shr(end - 1, level)
  {
    hide *;
    OnPathRange(h, D, index, start, end, level, hashes);
    var here := NodeHash(h, D, index, end, level);
    if Shr(end - 1, level) <= Shr(start, level) {
      NodeHashTop(h, D, index, start, end, level, hashes);
      RelativeTop(start, index, end, level);
      rest := [];
      ClimbEnd(h, 0, 0, here);
    } else {
      var fn, sn := Shr(index - start, level), Shr(end - 1 - start, level);
      RelativeUp(start, index, end, level);
      NodeHashUp(h, D, index, start, end, level, hashes);
      var sibling := Xor(Shr(index, level), 1);
      if sibling > Shr(end - 1, level) {
        rest := ClimbFrom(h, D, index, start, end, level + 1, hashes);
        ClimbSkip(h, fn, here, rest);
      } else {
        var v := Mth(h, D, Shl(sibling, level), NodeEnd(level, sibling, end));
        var tail := ClimbFrom(h, D, index, start, end, level + 1, hashes + [v]);
        rest := [v] + tail;
        assert hashes + rest == (hashes + [v]) + tail;
        if fn % 2 == 1 {
          ClimbLeft(h, fn, sn, here, v, tail);
        } else {
          ClimbRight(h, fn, sn, here, v, tail);
        }
      }
    }
  }

  /** The round trip: from the entry's leaf hash, the generated path climbs to the
      subtree hash. */
  lemma {:induction false} PathClimbs(h: Hasher, D: seq<Bytes>, index: nat, start: nat, end: nat)
    requires IsSubtree(start, end) && start <= index < end <= |D|
    ensures Climb(h, index - start, end - start - 1, h.leaf(D[index]), Path(h, D, index, start, end))
      == Some(Mth(h, D, start, end))
  {
    hide Climb, Path, CeilLog, Low;
    PathStart(h, D, index, start, end);
    var rest := ClimbFrom(h, D, index, start, end, 0, []);
    assert [] + rest == rest;
    LeafNode(h, D, index, end);
    ShrZero(index - start);
    ShrZero(end - 1 - start);
  }

  lemma {:induction false} LeafNode(h: Hasher, D: seq<Bytes>, index: nat, end: nat)
    requires index < end <= |D|
    ensures NodeHash(h, D, index, end, 0) == h.leaf(D[index])
  {
    assert Pow2(0) == 1;
  }

  lemma {:induction false} InclusionRoundTrip(h: Hasher, D: seq<Bytes>, index: nat, start: nat, end: nat)
    requires IsSubtree(start, end) && start <= index < end <= |D|
    ensures Evaluation(h, index, start, end, h.leaf(D[index]), Flatten(Path(h, D, index, start, end)))
      == Ok(Mth(h, D, start, end))
    ensures |Path(h, D, index, start, end)| == ProofLength(index - start, end - start - 1)
    ensures |Path(h, D, index, start, end)| <= Len(end - start - 1)
  {
    hide Climb, Path, IsSubtree, ProofLength, Chunks, Flatten;
    var path := Path(h, D, index, start, end);
    PathClimbs(h, D, index, start, end);
    ChunksOfFlatten(path);
    ClimbAccepts(h, index - start, end - start - 1, h.leaf(D[index]), path);
    ProofLengthBound(index - start, end - start - 1);
  }

  /** Binding to the tree: an entry hash and a proof that evaluate to the hash of a
      subtree of D are the entry's leaf hash and the generated proof, unless the
      evaluation collides with the tree's own nodes on the path of the entry. */
  lemma {:induction false} InclusionBinds(h: Hasher, D: seq<Bytes>, index: nat, start: nat, end: nat,
      entryHash: HashValue, proof: Bytes)
    requires IsSubtree(start, end) && start <= index < end <= |D|
    requires Evaluation(h, index, start, end, entryHash, proof) == Ok(Mth(h, D, start, end))
    ensures |proof| % 32 == 0
    ensures (entryHash == h.leaf(D[index]) && proof == Flatten(Path(h, D, index, start, end)))
      || Collide(h,
           Hashed(h, index - start, end - start - 1, entryHash, Chunks(proof)),
           Hashed(h, index - start, end - start - 1, h.leaf(D[index]), Path(h, D, index, start, end)))
  {
    hide Climb, Path, IsSubtree, Chunks, Flatten, Hashed, Collide;
    PathClimbs(h, D, index, start, end);
    FlattenOfChunks(proof);
    ClimbBinds(h, index - start, end - start - 1, entryHash, Chunks(proof),
      h.leaf(D[index]), Path(h, D, index, start, end));
  }
}
