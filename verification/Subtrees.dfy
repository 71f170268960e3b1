/** Which intervals are subtrees, and the two subtrees that cover an interval. */
module Subtrees {
  import opened Bits
  import opened Hashing

  // ----- Meaning -----

  /** The least k with n <= 2^k. */
  function CeilLog(n: nat): (k: nat)
    ensures n <= Pow2(k)
    ensures 0 < k ==> Pow2(k - 1) < n
  {
    if n == 0 then 0 else Len(n - 1)
  }

  /** BIT_CEIL: the least power of two that is at least n; one for zero. */
  function BitCeil(n: nat): (c: nat)
    ensures n <= c
    ensures 1 < c ==> c < 2 * n
  {
    Pow2(CeilLog(n))
  }

  /** [start, end) is a subtree: start is a multiple of BIT_CEIL(end - start). */
  predicate IsSubtree(start: nat, end: nat) {
    start <= end && Low(start, CeilLog(end - start)) == 0
  }

  lemma {:induction false} CeilLogLeast(n: nat, k: nat)
    ensures n <= Pow2(k) <==> CeilLog(n) <= k
  {
    if n != 0 { LenBound(n - 1, k); }
  }

  lemma {:induction false} CeilLogMono(m: nat, n: nat)
    requires m <= n
    ensures CeilLog(m) <= CeilLog(n)
    ensures BitCeil(m) <= BitCeil(n)
  {
    CeilLogLeast(m, CeilLog(n));
    Pow2Mono(CeilLog(m), CeilLog(n));
  }

  lemma {:induction false} CeilLogOfPow2(n: nat, k: nat)
    requires n == Pow2(k)
    ensures CeilLog(n) == k
  {
    LenUnique(n - 1, k);
  }

  /** An interval no longer than 2^k that starts at a multiple of 2^k is a subtree. */
  lemma {:induction false} AlignedIsSubtree(start: nat, end: nat, k: nat)
    requires start <= end <= start + Pow2(k)
    requires Low(start, k) == 0
    ensures IsSubtree(start, end)
  {
    CeilLogLeast(end - start, k);
    LowDown(start, CeilLog(end - start), k);
  }

  /** Every list of first entries is a subtree. */
  lemma {:induction false} ZeroIsAligned(n: nat)
    ensures IsSubtree(0, n)
    ensures Low(0, CeilLog(n)) == 0
  {
    ShlLow(0, CeilLog(n));
    ShlOne(CeilLog(n));
  }

  // ----- The validity check, in 64-bit arithmetic -----

  predicate IsValidSubtree(start: uint64, end: uint64) {
    if start > end then false
    else if start == end then true
    else
      var ceil := Shl64(1, 64 - LeadingZeros64(end - start - 1));
      And(start, Sub64(ceil, 1)) == 0
  }

  /** The check is exact on all 64-bit inputs, also when the power of two is 2^64
      and the shift leaves zero. */
  lemma {:induction false} IsValidSubtreeIsExact(start: uint64, end: uint64)
    ensures IsValidSubtree(start, end) <==> IsSubtree(start, end)
    ensures IsValidSubtree(start, end) <==> start <= end && start % BitCeil(end - start) == 0
  {
    if start < end {
      var k := CeilLog(end - start);
      LenBound(end - start - 1, 64);
      assert 64 - LeadingZeros64(end - start - 1) == k;
      Mask64Value(k);
      AndMask(start, k, Mask64(k));
    }
    if start <= end { LowIsMod(start, CeilLog(end - start)); }
  }

  // ----- Covering an interval -----

  datatype Cover = Cover(start1: uint64, end1: uint64, start2: uint64, end2: uint64)

  function SubtreesForInterval(start: uint64, end: uint64): Result<Cover> {
    if start > end then Err
    else if end - start <= 1 then Ok(Cover(start, end, end, end))
    else
      var last := end - 1;
      var split := Len(Xor(start, last)) - 1;
      var mask := Mask64(split);
      var mid := And(last, Not64(mask));
      var leftSplit := Len(And(Not64(start), mask));
      var start1 := And(start, Not64(Mask64(leftSplit)));
      Ok(Cover(start1, mid, mid, end))
  }

  /** The arithmetic of the long case: start and last lie in the two halves of one
      aligned block that meet at mid, and the left subtree reaches back from mid
      by the least power of two that covers start. */
  lemma {:induction false} IntervalSplit(start: uint64, end: uint64) returns (split: nat, mid: uint64)
    requires end - start > 1
    ensures start < mid < end <= mid + Pow2(split)
    ensures Low(mid, split) == 0
    ensures mid <= start + Pow2(split)
    ensures BitCeil(mid - start) <= mid
    ensures SubtreesForInterval(start, end) == Ok(Cover(mid - BitCeil(mid - start), mid, mid, end))
  {
    hide SubtreesForInterval, Low, Xor, Len, CeilLog;
    split := SplitLevel(start, end - 1);
    mid := SplitPoint(start, end - 1, split);
    LeftStart(start, mid, split);
    MasksAreRemainders(start, end, split, mid, CeilLog(mid - start));
  }

  lemma {:induction false} LeftStart(start: nat, mid: nat, split: nat)
    requires start < mid <= start + Pow2(split)
    requires Low(mid, split) == 0
    ensures CeilLog(mid - start) <= split
    ensures BitCeil(mid - start) <= mid
    ensures start - Low(start, CeilLog(mid - start)) == mid - BitCeil(mid - start)
  {
    CeilLogLeast(mid - start, split);
    LowDown(mid, CeilLog(mid - start), split);
    AlignDown(start, mid, CeilLog(mid - start));
  }

  lemma {:induction false} MasksAreRemainders(start: uint64, end: uint64, split: nat, mid: uint64, k: nat)
    requires end - start > 1
    requires split + 1 == Len(Xor(start, end - 1)) <= 64
    requires mid == end - 1 - Low(end - 1, split)
    requires start < mid && mid - start - 1 == Pow2(split) - 1 - Low(start, split)
    requires k == CeilLog(mid - start) <= split
    requires Pow2(k) <= mid && start - Low(start, k) == mid - Pow2(k)
    ensures SubtreesForInterval(start, end) == Ok(Cover(mid - Pow2(k), mid, mid, end))
  {
    ClearBits(end - 1, split, mid);
    GapBits(start, split, mid, k);
    ClearBits(start, k, mid - Pow2(k));
    CoverFromParts(start, end, split, mid, k, mid - Pow2(k));
  }

  /** The function's body, with its intermediate values named. */
  lemma {:induction false} CoverFromParts(start: uint64, end: uint64, split: nat, mid: uint64, k: nat, start1: uint64)
    requires end - start > 1
    requires split + 1 == Len(Xor(start, end - 1))
    requires mid == And(end - 1, Not64(Mask64(split)))
    requires k == Len(And(Not64(start), Mask64(split)))
    requires start1 == And(start, Not64(Mask64(k)))
    ensures SubtreesForInterval(start, end) == Ok(Cover(start1, mid, mid, end))
  {
  }

  lemma {:induction false} ClearBits(x: uint64, k: nat, r: nat)
    requires k <= 64
    requires r == x - Low(x, k)
    ensures And(x, Not64(Mask64(k))) == r
  {
    AndNotMask(x, k);
  }

  lemma {:induction false} GapBits(start: uint64, split: nat, mid: nat, k: nat)
    requires split <= 64
    requires start < mid && mid - start - 1 == Pow2(split) - 1 - Low(start, split)
    requires k == CeilLog(mid - start)
    ensures Len(And(Not64(start), Mask64(split))) == k
  {
    NotAndMask(start, split);
  }

  /** split is the level below the one where the two paths meet. */
  lemma {:induction false} SplitLevel(start: uint64, last: uint64) returns (split: nat)
    requires start < last
    ensures split + 1 == Len(Xor(start, last)) <= 64
    ensures Shr(last, split) == Shr(start, split) + 1
  {
    split := Len(Xor(start, last)) - 1;
    XorLen(start, last, split);
    XorLen(start, last, split + 1);
    XorLen(start, last, 64);
    Pow2Is64();
    ShrOut(start, 64);
    ShrOut(last, 64);
    ShrStep(start, split);
    ShrStep(last, split);
    ShrMono(start, last, split);
  }

  lemma {:induction false} SplitPoint(start: nat, last: nat, split: nat) returns (mid: nat)
    requires Shr(last, split) == Shr(start, split) + 1
    ensures mid == last - Low(last, split)
    ensures start < mid <= last < mid + Pow2(split)
    ensures Low(mid, split) == 0
    ensures mid - start - 1 == Pow2(split) - 1 - Low(start, split)
  {
    var q, P := Shr(start, split), Pow2(split);
    ShrLow(start, split);
    ShrLow(last, split);
    MulNext(q, P);
    mid := last - Low(last, split);
    LowClear(last, split);
  }

  /** Rounding x down to a multiple of 2^k lands one step before the next multiple. */
  lemma {:induction false} AlignDown(x: nat, next: nat, k: nat)
    requires Low(next, k) == 0
    requires x < next <= x + Pow2(k)
    ensures x - Low(x, k) == next - Pow2(k)
  {
    var y, p := x - Low(x, k), Pow2(k);
    LowClear(x, k);
    LowGap(y, next, k);
    if y + p < next {
      LowPow2(p, k);
      LowAdd(y, p, k);
      LowGap(y + p, next, k);
    }
  }

  /** What the draft promises of the two subtrees, for every interval. */
  lemma {:induction false} CoverOfInterval(start: uint64, end: uint64)
    requires start <= end
    ensures SubtreesForInterval(start, end).Ok?
    ensures var c := SubtreesForInterval(start, end).value;
      && IsSubtree(c.start1, c.end1) && IsSubtree(c.start2, c.end2)
      && c.start1 <= start <= c.end1 == c.start2 <= end == c.end2
      && c.end1 - c.start1 <= BitCeil(end - start)
      && c.end2 - c.start2 <= BitCeil(end - start)
      && (end - start <= 1 ==> c.start1 == start && c.end1 == c.start2 == c.end2 == end)
  {
    hide Low;
    if end - start <= 1 {
      assert Pow2(0) == 1;
      AlignedIsSubtree(start, end, 0);
      AlignedIsSubtree(end, end, 0);
    } else {
      var split, mid := IntervalSplit(start, end);
      AlignedIsSubtree(mid, end, split);
      LeftIsFull(start, end);
      CeilLogMono(mid - start, end - start);
    }
  }

  /** The left subtree of an interval that is not empty is full: its size is a power
      of two, the least that reaches back to start. It ends before the interval does
      when there are two or more entries. */
  lemma {:induction false} LeftIsFull(start: uint64, end: uint64)
    requires start < end
    ensures SubtreesForInterval(start, end).Ok?
    ensures var c := SubtreesForInterval(start, end).value;
      && c.start1 <= start < c.end1 <= end
      && (end - start > 1 ==> c.end1 < end)
      && IsSubtree(c.start1, c.end1)
      && c.end1 - c.start1 == BitCeil(c.end1 - start)
      && CeilLog(c.end1 - c.start1) == CeilLog(c.end1 - start)
  {
    if end - start == 1 {
      hide Low;
      assert Pow2(0) == 1;
      LowPow2(1, 0);
      AlignedIsSubtree(start, end, 0);
      CeilLogOfPow2(1, 0);
    } else {
      hide SubtreesForInterval, Low;
      var split, mid := IntervalSplit(start, end);
      var k, size := CeilLog(mid - start), BitCeil(mid - start);
      CeilLogLeast(mid - start, split);
      LowDown(mid, k, split);
      CeilLogOfPow2(size, k);
      BeforeMultiple(mid, size, k);
    }
  }

  lemma {:induction false} BeforeMultiple(mid: nat, size: nat, k: nat)
    requires Low(mid, k) == 0
    requires size == Pow2(k) <= mid
    ensures Low(mid - size, k) == 0
  {
    LowPow2(size, k);
    LowSub(mid, size, k);
  }

  /** No valid subtree that contains [start, end1) is smaller than the left one. */
  lemma {:induction false} LeftIsSmallest(start: uint64, end: uint64, c: Cover, s: nat, e: nat)
    requires start < end
    requires SubtreesForInterval(start, end) == Ok(c)
    requires IsSubtree(s, e)
    requires s <= start && c.end1 <= e
    ensures c.end1 - c.start1 <= e - s
  {
    LeftIsFull(start, end);
    SmallestAligned(start, c.start1, c.end1, s, e);
  }

  lemma {:induction false} SmallestAligned(start: nat, start1: nat, end1: nat, s: nat, e: nat)
    requires IsSubtree(start1, end1) && IsSubtree(s, e)
    requires start1 <= start < end1 && s <= start && end1 <= e
    requires CeilLog(end1 - start1) == CeilLog(end1 - start)
    requires end1 - start1 == Pow2(CeilLog(end1 - start1))
    ensures end1 - start1 <= e - s
  {
    if e - s < end1 - start1 {
      CeilLogMono(end1 - start, e - s);
      CeilLogMono(e - s, end1 - start1);
      if start1 < s { LowGap(start1, s, CeilLog(e - s)); }
    }
  }

  /** Two adjacent subtrees that cover [start, end) and add nothing on the right. The
      left one is not empty unless the interval is, and it is as small as its part of
      the interval allows; the right one is not empty if there are two or more entries. */
  predicate IsCover(start: nat, end: nat, d: Cover) {
    && IsSubtree(d.start1, d.end1) && IsSubtree(d.start2, d.end2)
    && d.start1 <= start <= d.end1 == d.start2 <= end == d.end2
    && d.end1 - d.start1 == (if start == end then 0 else BitCeil(d.end1 - start))
    && (start < end ==> start < d.end1)
    && (end - start > 1 ==> d.end1 < end)
  }

  /** The answer is the one such pair, for every interval, and there is none for an
      interval that ends before it starts. */
  lemma {:induction false} CoverIsExact(start: uint64, end: uint64, d: Cover)
    ensures SubtreesForInterval(start, end) == Ok(d) <==> start <= end && IsCover(start, end, d)
  {
    hide SubtreesForInterval, IsCover;
    StartBeforeEnd(start, end);
    if start <= end {
      CoverIsCover(start, end);
      if IsCover(start, end, d) { CoverIsUnique(start, end, SubtreesForInterval(start, end).value, d); }
    }
  }

  lemma {:induction false} StartBeforeEnd(start: uint64, end: uint64)
    ensures SubtreesForInterval(start, end).Ok? <==> start <= end
  {
    hide And, Not64, Mask64, Len, Xor;
  }

  lemma {:induction false} CoverIsCover(start: uint64, end: uint64)
    requires start <= end
    ensures SubtreesForInterval(start, end).Ok? && IsCover(start, end, SubtreesForInterval(start, end).value)
  {
    hide SubtreesForInterval, IsSubtree, BitCeil;
    CoverOfInterval(start, end);
    if start < end { LeftIsFull(start, end); }
  }

  lemma {:induction false} CoverIsUnique(start: uint64, end: uint64, c: Cover, d: Cover)
    requires start <= end
    requires SubtreesForInterval(start, end) == Ok(c) && IsCover(start, end, d)
    ensures d == c
  {
    if end - start <= 1 {
      hide Low;
      assert Pow2(0) == 1;
      CeilLogOfPow2(1, 0);
    } else {
      hide SubtreesForInterval;
      LongCoverIsUnique(start, end, c, d);
    }
  }

  lemma {:induction false} LongCoverIsUnique(start: uint64, end: uint64, c: Cover, d: Cover)
    requires end - start > 1
    requires SubtreesForInterval(start, end) == Ok(c)
    requires IsSubtree(d.start1, d.end1) && IsSubtree(d.start2, d.end2)
    requires d.start1 <= start < d.end1 == d.start2 < end == d.end2
    requires d.end1 - d.start1 == BitCeil(d.end1 - start)
    ensures d == c
  {
    hide SubtreesForInterval;
    var split, mid := IntervalSplit(start, end);
    var level := MeetingLevel(start, end, d);
    if level <= split {
      LowDown(mid, level, split);
      OneMultiple(start, end, d.end1, mid, level);
    } else {
      LowDown(d.end1, split, level);
      OneMultiple(start, end, mid, d.end1, split);
    }
  }

  /** A level whose blocks meet where the two subtrees do. */
  lemma {:induction false} MeetingLevel(start: nat, end: nat, d: Cover) returns (level: nat)
    requires IsSubtree(d.start1, d.end1) && IsSubtree(d.start2, d.end2)
    requires d.start1 <= start < d.end1 == d.start2 < end == d.end2
    requires d.end1 - d.start1 == BitCeil(d.end1 - start)
    ensures Low(d.end1, level) == 0
    ensures d.end1 <= start + Pow2(level) && end <= d.end1 + Pow2(level)
  {
    hide Low;
    var a, b := CeilLog(d.end1 - start), CeilLog(d.end2 - d.start2);
    var size := Pow2(a);
    CeilLogOfPow2(size, a);
    LowPow2(size, a);
    LowAdd(d.start1, size, a);
    Pow2Mono(if a <= b then a else b, if a <= b then b else a);
    level := if a <= b then b else a;
  }

  lemma {:induction false} OneMultiple(start: nat, end: nat, x: nat, y: nat, k: nat)
    requires Low(x, k) == 0 && Low(y, k) == 0
    requires start < x < end && start < y < end
    requires x <= start + Pow2(k) && end <= x + Pow2(k)
    ensures x == y
  {
    hide Low;
    if x < y { LowGap(x, y, k); }
    if y < x { LowGap(y, x, k); }
  }
}
