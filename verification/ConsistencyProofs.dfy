/** Subtree consistency proofs: the generator of the demo and the recursive
    definition it implements, and the checking procedure of the draft, which is
    the specification side here.
 */
module ConsistencyProofs {
  import opened Bits
  import opened Hashing
  import opened Subtrees
  import opened MerkleSpec
  import opened MerkleTree
  import opened SubtreeProofs

  // ----- SUBTREE_SUBPROOF -----

  /** SUBTREE_SUBPROOF(start - lo, end - lo, D[lo:hi], known) of the draft. */
  function SubProof(h: Hasher, D: seq<Bytes>, start: nat, end: nat, lo: nat, hi: nat, known: bool): seq<HashValue>
    requires lo <= start < end <= hi <= |D|
    decreases hi - lo
  {
    if start == lo && end == hi then
      if known then [] else [Mth(h, D, lo, hi)]
    else
      var mid := lo + SplitSize(hi - lo);
      if end <= mid then SubProof(h, D, start, end, lo, mid, known) + [Mth(h, D, mid, hi)]
      else if mid <= start then SubProof(h, D, start, end, mid, hi, known) + [Mth(h, D, lo, mid)]
      else SubProof(h, D, mid, end, mid, hi, false) + [Mth(h, D, lo, mid)]
  }

  /** SUBTREE_PROOF(start, end, D_n) of the draft. */
  function SubtreeProof(h: Hasher, D: seq<Bytes>, start: nat, end: nat, n: nat): seq<HashValue>
    requires start <= end <= n <= |D|
  {
    if start == end then [] else SubProof(h, D, start, end, 0, n, true)
  }

  /** SUBPROOF of section 2.1.4.1 of RFC 9162: consistency of D[lo:end] with D[lo:hi]. */
  function RfcSubProof(h: Hasher, D: seq<Bytes>, end: nat, lo: nat, hi: nat, known: bool): seq<HashValue>
    requires lo < end <= hi <= |D|
    decreases hi - lo
  {
    if end == hi then
      if known then [] else [Mth(h, D, lo, hi)]
    else
      var mid := lo + SplitSize(hi - lo);
      if end <= mid then RfcSubProof(h, D, end, lo, mid, known) + [Mth(h, D, mid, hi)]
      else RfcSubProof(h, D, end, mid, hi, false) + [Mth(h, D, lo, mid)]
  }

  /** From the start of the tree it is the consistency proof of RFC 9162. */
  lemma {:induction false} FromStartIsRfcProof(h: Hasher, D: seq<Bytes>, end: nat, lo: nat, hi: nat, known: bool)
    requires lo < end <= hi <= |D|
    ensures SubProof(h, D, lo, end, lo, hi, known) == RfcSubProof(h, D, end, lo, hi, known)
    decreases hi - lo
  {
    hide Mth;
    if end != hi {
      var mid := lo + SplitSize(hi - lo);
      if end <= mid {
        FromStartIsRfcProof(h, D, end, lo, mid, known);
      } else {
        FromStartIsRfcProof(h, D, end, mid, hi, false);
      }
    }
  }

  /** For a single entry it is the inclusion proof: the recursion and the loop of
      the demo emit the same hashes. */
  lemma {:induction false} OfEntryIsPath(h: Hasher, D: seq<Bytes>, i: nat, lo: nat, hi: nat)
    requires lo <= i < hi <= |D|
    ensures SubProof(h, D, i, i + 1, lo, hi, true) == Path(h, D, i, lo, hi)
    decreases hi - lo
  {
    hide Mth;
    if hi - lo > 1 {
      var mid := lo + SplitSize(hi - lo);
      if i < mid {
        OfEntryIsPath(h, D, i, lo, mid);
      } else {
        OfEntryIsPath(h, D, i, mid, hi);
      }
    }
  }

  // ----- Windows -----

  /** The two halves of a window of two or more entries are subtrees; the first is full. */
  lemma {:induction false} Halves(lo: nat, hi: nat) returns (l: nat)
    requires IsSubtree(lo, hi) && 2 <= hi - lo
    ensures CeilLog(hi - lo) == l + 1
    ensures SplitSize(hi - lo) == Pow2(l)
    ensures lo + Pow2(l) < hi <= lo + 2 * Pow2(l)
    ensures Low(lo, l + 1) == 0 && Low(lo, l) == 0 && Low(lo + Pow2(l), l) == 0
    ensures IsSubtree(lo, lo + Pow2(l)) && IsSubtree(lo + Pow2(l), hi)
  {
    hide Low, SplitSize, IsSubtree;
    l := HeightOf(lo, hi);
    SplitSizeIs(hi - lo, l);
    LowDown(lo, l, l + 1);
    LowPow2(Pow2(l), l);
    LowAdd(lo, Pow2(l), l);
    AlignedIsSubtree(lo, lo + Pow2(l), l);
    AlignedIsSubtree(lo + Pow2(l), hi, l);
  }

  lemma {:induction false} HeightOf(lo: nat, hi: nat) returns (l: nat)
    requires IsSubtree(lo, hi) && 2 <= hi - lo
    ensures CeilLog(hi - lo) == l + 1
    ensures Pow2(l) < hi - lo <= 2 * Pow2(l)
    ensures Low(lo, l + 1) == 0
  {
    assert Pow2(0) == 1;
    l := CeilLog(hi - lo) - 1;
  }

  /** A subtree that spans the split of its window starts where the window does. */
  lemma {:induction false} SpansFromStart(start: nat, end: nat, lo: nat, hi: nat, l: nat)
    requires IsSubtree(start, end)
    requires lo <= start < lo + Pow2(l) < end <= hi <= lo + 2 * Pow2(l)
    requires Low(lo, l + 1) == 0 && Low(lo + Pow2(l), l) == 0
    ensures start == lo
    ensures IsSubtree(lo + Pow2(l), end)
  {
    hide Low, SplitSize;
    var c := CeilLog(end - start);
    if c <= l {
      LowDown(lo + Pow2(l), c, l);
      LowGap(start, lo + Pow2(l), c);
    } else {
      LowDown(start, l + 1, c);
      if lo < start { LowGap(lo, start, l + 1); }
    }
    AlignedIsSubtree(lo + Pow2(l), end, l);
  }

  /** A subtree that ends at the end of a full window has a power of two as size. */
  lemma {:induction false} FullAtEdge(start: nat, end: nat, l: nat)
    requires IsSubtree(start, end) && start < end <= start + Pow2(l)
    requires Low(end, l) == 0
    ensures end - start == Pow2(CeilLog(end - start))
  {
    var c := CeilLog(end - start);
    CeilLogLeast(end - start, l);
    LowDown(end, c, l);
    LowGap(start, end, c);
  }

  /** The hash of the subtree is omitted from its proof exactly when the subtree is
      full or ends where the tree does: then it would come first; otherwise it
      makes no difference whether the verifier knows it. */
  lemma {:induction false} OmittedHash(h: Hasher, D: seq<Bytes>, start: nat, end: nat, lo: nat, hi: nat)
    requires IsSubtree(start, end) && IsSubtree(lo, hi)
    requires lo <= start < end <= hi <= |D|
    ensures SubProof(h, D, start, end, lo, hi, false) ==
      if end - start == Pow2(CeilLog(end - start)) || end == hi
      then [Mth(h, D, start, end)] + SubProof(h, D, start, end, lo, hi, true)
      else SubProof(h, D, start, end, lo, hi, true)
    decreases hi - lo
  {
    hide Mth, Low, CeilLog, SplitSize, IsSubtree, Pow2;
    if start == lo && end == hi {
      return;
    }
    var l := Halves(lo, hi);
    var mid := lo + Pow2(l);
    if end <= mid {
      OmittedHash(h, D, start, end, lo, mid);
      if end == mid { FullAtEdge(start, end, l); }
    } else if mid <= start {
      OmittedHash(h, D, start, end, mid, hi);
    } else {
      SpansFromStart(start, end, lo, hi, l);
      NotFull(end - lo, hi - lo, l);
    }
  }

  lemma {:induction false} NotFull(size: nat, width: nat, l: nat)
    requires Pow2(l) < size < width <= 2 * Pow2(l)
    ensures size != Pow2(CeilLog(size))
  {
    CeilLogLeast(size, l);
    if l < CeilLog(size) { Pow2Mono(l + 1, CeilLog(size)); }
  }

  // ----- The generator -----

  lemma {:induction false} SplitInWords(lo: uint64, hi: uint64)
    requires IsSubtree(lo, hi) && 2 <= hi - lo
    ensures Len(hi - lo - 1) >= 1
    ensures Add64(lo, Shl64(1, Len(hi - lo - 1) - 1)) == lo + SplitSize(hi - lo)
  {
    hide IsSubtree, Low, SplitSize, Shl64;
    var l := Halves(lo, hi);
    LenBound(hi - lo - 1, 64);
    Shl64One(l);
  }

  method SubtreeConsistencyProof(mt: StaticMerkleTree, start: uint64, end: uint64, n: uint64) returns (r: Result<Bytes>)
    requires mt.Valid()
    ensures r ==
      if IsSubtree(start, end) && end <= n <= |mt.entries|
      then Ok(Flatten(SubtreeProof(mt.hasher, mt.entries, start, end, n))) else Err
  {
    IsValidSubtreeIsExact(start, end);
    if !IsValidSubtree(start, end) { return Err; }
    if end > n { return Err; }
    if n > mt.Size() { return Err; }
    if start == end { FlattenNone(); return Ok([]); }
    ZeroIsAligned(n);
    r := SubtreeSubproof(mt, start, end, 0, n, true);
  }

  /** From the checked inputs no call fails: every window and sibling is a subtree. */
  method SubtreeSubproof(mt: StaticMerkleTree, start: uint64, end: uint64, lo: uint64, hi: uint64, known: bool)
    returns (r: Result<Bytes>)
    requires mt.Valid()
    requires IsSubtree(start, end) && IsSubtree(lo, hi)
    requires lo <= start < end <= hi <= |mt.entries|
    ensures r == Ok(Flatten(SubProof(mt.hasher, mt.entries, start, end, lo, hi, known)))
    decreases hi - lo
  {
    hide Mth, Low, CeilLog, IsSubtree, Pow2, SplitSize, Len, Flatten, Shl64, Add64;
    if start == lo && end == hi {
      if known { FlattenNone(); return Ok([]); }
      var whole := SubtreeHash(mt, lo, hi);
      if whole.Err? { return Err; }
      FlattenOne(whole.value);
      return Ok(whole.value);
    }
    SplitInWords(lo, hi);
    ghost var l := Halves(lo, hi);
    var k := Shl64(1, Len(hi - lo - 1) - 1);
    var split := Add64(lo, k);
    var siblingStart, siblingEnd;
    if end <= split {
      r := SubtreeSubproof(mt, start, end, lo, split, known);
      siblingStart, siblingEnd := split, hi;
    } else if split <= start {
      r := SubtreeSubproof(mt, start, end, split, hi, known);
      siblingStart, siblingEnd := lo, split;
    } else {
      SpansFromStart(start, end, lo, hi, l);
      r := SubtreeSubproof(mt, split, end, split, hi, false);
      siblingStart, siblingEnd := lo, split;
    }
    if r.Err? { return Err; }
    var sibling := SubtreeHash(mt, siblingStart, siblingEnd);
    if sibling.Err? { return Err; }
    ghost var hashes :=
      if end <= split then SubProof(mt.hasher, mt.entries, start, end, lo, split, known)
      else if split <= start then SubProof(mt.hasher, mt.entries, start, end, split, hi, known)
      else SubProof(mt.hasher, mt.entries, split, end, split, hi, false);
    FlattenAppend(hashes, sibling.value);
    return Ok(r.value + sibling.value);
  }

  lemma {:induction false} FlattenOne(v: HashValue)
    ensures Flatten([v]) == v
  {
    FlattenNone();
    FlattenAppend([], v);
    assert [] + [v] == [v];
    assert [] + v == v;
  }
}
