/** The draft's procedure for checking a subtree consistency proof (section 4.4.3
    of draft-ietf-plants-merkle-tree-certs), with its three positions, and what it
    accepts: every generated proof, and nothing else short of a collision.
 */
module ConsistencyCheck {
  import opened Bits
  import opened Hashing
  import opened Subtrees
  import opened MerkleSpec
  import opened SubtreeProofs
  import opened InclusionProofs
  import opened ConsistencyProofs

  // ----- The procedure, one level at a time -----

  /** How many levels the procedure skips before the first hash: to where the
      subtree is a single node, or, when it does not end where the tree does, to
      the largest full node on its right edge. */
  function SkipLevels(fn: nat, sn: nat, tn: nat): nat
    requires fn <= sn
    decreases sn
  {
    if fn != sn && (sn == tn || sn % 2 == 1) then 1 + SkipLevels(fn / 2, sn / 2, tn / 2) else 0
  }

  /** The climb that rebuilds the subtree hash fr and the root sr from one proof. */
  function ClimbBoth(h: Hasher, fn: nat, sn: nat, tn: nat, fr: HashValue, sr: HashValue, proof: seq<HashValue>)
    : Option<(HashValue, HashValue)>
    decreases tn
  {
    if tn == 0 then (if |proof| == 0 then Some((fr, sr)) else None)
    else if sn == tn && sn % 2 == 0 then ClimbBoth(h, fn / 2, sn / 2, tn / 2, fr, sr, proof)
    else if |proof| == 0 then None
    else
      var c, rest := proof[0], proof[1..];
      if sn % 2 == 1 then
        ClimbBoth(h, fn / 2, sn / 2, tn / 2, if fn < sn then h.node(c, fr) else fr, h.node(c, sr), rest)
      else
        ClimbBoth(h, fn / 2, sn / 2, tn / 2, fr, h.node(sr, c), rest)
  }

  /** The part of the procedure after fn, sn and tn are set to start, end - 1, n - 1. */
  predicate AcceptsClimb(h: Hasher, fn: nat, sn: nat, tn: nat, proof: seq<HashValue>, nodeHash: HashValue, rootHash: HashValue)
    requires fn <= sn
  {
    var k := SkipLevels(fn, sn, tn);
    if Shr(fn, k) == Shr(sn, k) then
      ClimbBoth(h, Shr(fn, k), Shr(sn, k), Shr(tn, k), nodeHash, nodeHash, proof) == Some((nodeHash, rootHash))
    else
      && |proof| != 0
      && ClimbBoth(h, Shr(fn, k), Shr(sn, k), Shr(tn, k), proof[0], proof[0], proof[1..]) == Some((nodeHash, rootHash))
  }

  predicate Accepts(h: Hasher, start: nat, end: nat, n: nat, proof: seq<HashValue>, nodeHash: HashValue, rootHash: HashValue) {
    && IsSubtree(start, end) && end <= n
    && (if start == end then |proof| == 0 && nodeHash == h.empty
        else AcceptsClimb(h, start, end - 1, n - 1, proof, nodeHash, rootHash))
  }

  // ----- The procedure as the draft words it -----

  lemma {:induction false} SkipMore(fn: nat, sn: nat, tn: nat)
    requires fn < sn <= tn
    requires sn == tn || sn % 2 == 1
    ensures fn / 2 <= sn / 2 <= tn / 2
    ensures sn == tn <==> sn / 2 == tn / 2
    ensures SkipLevels(fn, sn, tn) == 1 + SkipLevels(fn / 2, sn / 2, tn / 2)
  {
  }

  lemma {:induction false} SkipDone(fn: nat, sn: nat, tn: nat)
    requires fn <= sn <= tn
    requires fn == sn || (sn != tn && sn % 2 == 0)
    ensures SkipLevels(fn, sn, tn) == 0
  {
  }

  /** The node without right sibling goes up on its own. */
  lemma {:induction false} BothSkip(h: Hasher, fn: nat, sn: nat, tn: nat, fr: HashValue, sr: HashValue, proof: seq<HashValue>)
    requires fn <= sn == tn && 0 < sn && sn % 2 == 0
    ensures 0 < sn / 2 < sn && fn / 2 <= sn / 2 == tn / 2
    ensures fn < sn <==> fn / 2 < sn / 2
    ensures ClimbBoth(h, fn, sn, tn, fr, sr, proof) == ClimbBoth(h, fn / 2, sn / 2, tn / 2, fr, sr, proof)
  {
  }

  lemma {:induction false} BothLeft(h: Hasher, fn: nat, sn: nat, tn: nat, fr: HashValue, sr: HashValue, c: HashValue, rest: seq<HashValue>)
    requires fn <= sn <= tn && sn % 2 == 1
    ensures fn / 2 <= sn / 2 <= tn / 2
    ensures ClimbBoth(h, fn, sn, tn, fr, sr, [c] + rest)
      == ClimbBoth(h, fn / 2, sn / 2, tn / 2, if fn < sn then h.node(c, fr) else fr, h.node(c, sr), rest)
  {
    assert ([c] + rest)[1..] == rest;
  }

  lemma {:induction false} BothRight(h: Hasher, fn: nat, sn: nat, tn: nat, fr: HashValue, sr: HashValue, c: HashValue, rest: seq<HashValue>)
    requires fn <= sn < tn && sn % 2 == 0
    ensures fn / 2 <= sn / 2 <= tn / 2
    ensures ClimbBoth(h, fn, sn, tn, fr, sr, [c] + rest)
      == ClimbBoth(h, fn / 2, sn / 2, tn / 2, fr, h.node(sr, c), rest)
  {
    assert ([c] + rest)[1..] == rest;
  }

  lemma {:induction false} BothEnd(h: Hasher, fn: nat, sn: nat, tn: nat, fr: HashValue, sr: HashValue, proof: seq<HashValue>)
    requires fn <= sn <= tn
    ensures tn == 0 && |proof| != 0 ==> ClimbBoth(h, fn, sn, tn, fr, sr, proof) == None
    ensures |proof| == 0 ==> ClimbBoth(h, fn, sn, tn, fr, sr, proof) == if tn == 0 then Some((fr, sr)) else None
    decreases tn
  {
    if tn != 0 && |proof| == 0 && sn == tn && sn % 2 == 0 { BothEnd(h, fn / 2, sn / 2, tn / 2, fr, sr, proof); }
  }

  /** The checking procedure, step by step. */
  method VerifySubtreeConsistencyProof(h: Hasher, start: uint64, end: uint64, n: uint64,
      proof: seq<HashValue>, nodeHash: HashValue, rootHash: HashValue) returns (ok: bool)
    ensures ok == Accepts(h, start, end, n, proof, nodeHash, rootHash)
  {
    IsValidSubtreeIsExact(start, end);
    if !IsValidSubtree(start, end) || end > n { return false; }
    if start == end { return |proof| == 0 && nodeHash == h.empty; }
    ok := CheckClimb(h, start, end - 1, n - 1, proof, nodeHash, rootHash);
  }

  method CheckClimb(h: Hasher, start: nat, last: nat, lastOfTree: nat,
      proof: seq<HashValue>, nodeHash: HashValue, rootHash: HashValue) returns (ok: bool)
    requires start <= last <= lastOfTree
    ensures ok == AcceptsClimb(h, start, last, lastOfTree, proof, nodeHash, rootHash)
  {
    hide ClimbBoth, SkipLevels, Shr, And;
    var fn, sn, tn := start, last, lastOfTree;
    ghost var k := 0;
    ShrZero(fn);
    ShrZero(sn);
    ShrZero(tn);
    while fn != sn && (sn == tn || sn % 2 == 1)
      invariant fn <= sn <= tn
      invariant fn == Shr(start, k) && sn == Shr(last, k) && tn == Shr(lastOfTree, k)
      invariant SkipLevels(start, last, lastOfTree) == k + SkipLevels(fn, sn, tn)
      decreases sn
    {
      SkipMore(fn, sn, tn);
      ShrStep(start, k);
      ShrStep(last, k);
      ShrStep(lastOfTree, k);
      fn, sn, tn := fn / 2, sn / 2, tn / 2;
      k := k + 1;
    }
    SkipDone(fn, sn, tn);
    if fn == sn {
      ok := ClimbLoop(h, fn, sn, tn, nodeHash, proof, nodeHash, rootHash);
    } else if |proof| == 0 {
      ok := false;
    } else {
      ok := ClimbLoop(h, fn, sn, tn, proof[0], proof[1..], nodeHash, rootHash);
    }
  }

  method ClimbLoop(h: Hasher, fn0: nat, sn0: nat, tn0: nat, first: HashValue, proof: seq<HashValue>,
      nodeHash: HashValue, rootHash: HashValue) returns (ok: bool)
    requires fn0 <= sn0 <= tn0
    ensures ok == (ClimbBoth(h, fn0, sn0, tn0, first, first, proof) == Some((nodeHash, rootHash)))
  {
    hide ClimbBoth;
    var fn, sn, tn, fr, sr := fn0, sn0, tn0, first, first;
    var i := 0;
    assert proof[0..] == proof;
    while i < |proof|
      invariant 0 <= i <= |proof|
      invariant fn <= sn <= tn
      invariant ClimbBoth(h, fn, sn, tn, fr, sr, proof[i..]) == ClimbBoth(h, fn0, sn0, tn0, first, first, proof)
    {
      var c := proof[i];
      assert proof[i..] == [c] + proof[i + 1..];
      BothEnd(h, fn, sn, tn, fr, sr, proof[i..]);
      if tn == 0 { return false; }
      if sn % 2 == 1 || sn == tn {
        ghost var fr0, sr0 := fr, sr;
        if fn < sn { fr := h.node(c, fr); }
        sr := h.node(c, sr);
        while sn % 2 == 0
          invariant fn <= sn <= tn && (sn % 2 == 0 ==> sn == tn && 0 < sn)
          invariant fr == if fn < sn then h.node(c, fr0) else fr0
          invariant ClimbBoth(h, fn, sn, tn, fr0, sr0, proof[i..]) == ClimbBoth(h, fn0, sn0, tn0, first, first, proof)
          decreases sn
        {
          BothSkip(h, fn, sn, tn, fr0, sr0, proof[i..]);
          fn, sn, tn := fn / 2, sn / 2, tn / 2;
        }
        BothLeft(h, fn, sn, tn, fr0, sr0, c, proof[i + 1..]);
      } else {
        BothRight(h, fn, sn, tn, fr, sr, c, proof[i + 1..]);
        sr := h.node(sr, c);
      }
      fn, sn, tn := fn / 2, sn / 2, tn / 2;
      i := i + 1;
    }
    BothEnd(h, fn, sn, tn, fr, sr, proof[i..]);
    ok := tn == 0 && fr == nodeHash && sr == rootHash;
  }

  // ----- Every generated proof is accepted -----

  lemma {:induction false} SubFromLeft(h: Hasher, D: seq<Bytes>, s: nat, end: nat, lo: nat, hi: nat, l: nat, known: bool)
    requires lo <= s < end <= lo + Pow2(l) < hi <= lo + 2 * Pow2(l)
    requires hi <= |D|
    ensures SubProof(h, D, s, end, lo, hi, known)
      == SubProof(h, D, s, end, lo, lo + Pow2(l), known) + [Mth(h, D, lo + Pow2(l), hi)]
  {
    hide Mth, Pow2, SplitSize;
    SplitSizeIs(hi - lo, l);
  }

  lemma {:induction false} SubFromRight(h: Hasher, D: seq<Bytes>, s: nat, end: nat, lo: nat, hi: nat, l: nat, known: bool)
    requires lo + Pow2(l) <= s < end <= hi <= lo + 2 * Pow2(l)
    requires hi <= |D|
    ensures SubProof(h, D, s, end, lo, hi, known)
      == SubProof(h, D, s, end, lo + Pow2(l), hi, known) + [Mth(h, D, lo, lo + Pow2(l))]
  {
    hide Mth, Pow2, SplitSize;
    SplitSizeIs(hi - lo, l);
  }

  lemma {:induction false} SubAcross(h: Hasher, D: seq<Bytes>, end: nat, lo: nat, hi: nat, l: nat, known: bool)
    requires lo + Pow2(l) < end < hi <= lo + 2 * Pow2(l)
    requires hi <= |D|
    ensures SubProof(h, D, lo, end, lo, hi, known)
      == SubProof(h, D, lo + Pow2(l), end, lo + Pow2(l), hi, false) + [Mth(h, D, lo, lo + Pow2(l))]
  {
    hide Mth, Pow2, SplitSize;
    SplitSizeIs(hi - lo, l);
  }

  /** Where the part of the subtree inside the window of the given level starts. */
  ghost function PartStart(start: nat, end: nat, level: nat): nat
    requires 0 < end
  {
    if start < Shl(Shr(end - 1, level), level) then Shl(Shr(end - 1, level), level) else start
  }

  /** The state of the climb: the window is the node of the given level, in the tree
      of size n, that contains the last entry of the subtree. The hashes so far are
      the proof for the part of the subtree inside the window, and fr and sr are
      the hashes of that part and of the window. */
  ghost predicate OnWindow(h: Hasher, D: seq<Bytes>, start: nat, end: nat, n: nat,
      level: nat, hashes: seq<HashValue>, fr: HashValue, sr: HashValue)
  {
    && start < end <= n <= |D| && IsSubtree(start, end)
    && var j, s := Shr(end - 1, level), PartStart(start, end, level);
    && var lo, hi := Shl(j, level), NodeEnd(level, j, n);
    && lo <= s < end <= hi
    && hashes == SubProof(h, D, s, end, lo, hi, lo <= start)
    && fr == Mth(h, D, s, end) && sr == Mth(h, D, lo, hi)
    && (start < lo ==> end < hi || (j % 2 == 0 && j < Shr(n - 1, level)))
  }

  lemma {:induction false} OnWindowRange(h: Hasher, D: seq<Bytes>, start: nat, end: nat, n: nat,
      level: nat, hashes: seq<HashValue>, fr: HashValue, sr: HashValue)
    requires OnWindow(h, D, start, end, n, level, hashes, fr, sr)
    ensures start < end <= n <= |D| && IsSubtree(start, end)
    ensures Shr(end - 1, level) <= Shr(n - 1, level)
    ensures Shr(start, level) <= Shr(end - 1, level)
    ensures Shr(start, level) < Shr(end - 1, level) <==> start < Shl(Shr(end - 1, level), level)
    ensures Shr(start, level + 1) == Shr(start, level) / 2
    ensures Shr(end - 1, level + 1) == Shr(end - 1, level) / 2
    ensures Shr(n - 1, level + 1) == Shr(n - 1, level) / 2
  {
    hide Shl, Shr, Mth, SubProof;
    ShrMono(end - 1, n - 1, level);
    ShrMono(start, end - 1, level);
    ShlLe(Shr(end - 1, level), level, start);
    ShrStep(start, level);
    ShrStep(end - 1, level);
    ShrStep(n - 1, level);
  }

  /** Without a right sibling the window stays as it is. */
  lemma {:induction false} WindowAlone(h: Hasher, D: seq<Bytes>, start: nat, end: nat, n: nat,
      level: nat, hashes: seq<HashValue>, fr: HashValue, sr: HashValue)
    requires OnWindow(h, D, start, end, n, level, hashes, fr, sr)
    requires Shr(end - 1, level) == Shr(n - 1, level) && Shr(end - 1, level) % 2 == 0
    ensures OnWindow(h, D, start, end, n, level + 1, hashes, fr, sr)
  {
    hide Shl, Shr, Mth, SubProof, NodeEnd, IsSubtree;
    OnWindowRange(h, D, start, end, n, level, hashes, fr, sr);
    var j := Shr(end - 1, level);
    NodeAtEdge(level, j, n);
    PathAlone(level, j, n);
  }

  /** With a right sibling the part of the subtree stays as it is. */
  lemma {:induction false} WindowFromLeft(h: Hasher, D: seq<Bytes>, start: nat, end: nat, n: nat,
      level: nat, hashes: seq<HashValue>, fr: HashValue, sr: HashValue) returns (c: HashValue)
    requires OnWindow(h, D, start, end, n, level, hashes, fr, sr)
    requires Shr(end - 1, level) < Shr(n - 1, level) && Shr(end - 1, level) % 2 == 0
    ensures OnWindow(h, D, start, end, n, level + 1, hashes + [c], fr, h.node(sr, c))
  {
    hide Shl, Shr, Mth, SubProof, IsSubtree, Pow2;
    OnWindowRange(h, D, start, end, n, level, hashes, fr, sr);
    var j, s := Shr(end - 1, level), PartStart(start, end, level);
    var lo := Shl(j, level);
    NodeAtEdge(level, j, n);
    ParentEnd(level, j, n);
    Children(level, j / 2);
    var hi := NodeEnd(level + 1, j / 2, n);
    c := Mth(h, D, lo + Pow2(level), hi);
    SubFromLeft(h, D, s, end, lo, hi, level, lo <= start);
    MthParent(h, D, lo, hi, level);
  }

  /** A right child: the left sibling belongs to the subtree exactly when the subtree
      starts before the window, and then it starts at or before the sibling. */
  lemma {:induction false} WindowFromRight(h: Hasher, D: seq<Bytes>, start: nat, end: nat, n: nat,
      level: nat, hashes: seq<HashValue>, fr: HashValue, sr: HashValue) returns (c: HashValue)
    requires OnWindow(h, D, start, end, n, level, hashes, fr, sr)
    requires Shr(end - 1, level) % 2 == 1
    ensures OnWindow(h, D, start, end, n, level + 1, hashes + [c],
      if Shr(start, level) < Shr(end - 1, level) then h.node(c, fr) else fr, h.node(c, sr))
  {
    hide Shl, Shr, Mth, SubProof, IsSubtree, Pow2;
    OnWindowRange(h, D, start, end, n, level, hashes, fr, sr);
    var j := Shr(end - 1, level);
    Children(level, j / 2);
    var lo, mid := Shl(j - 1, level), Shl(j, level);
    var hi := NodeEnd(level, j, n);
    ParentEnd(level, j - 1, n);
    c := Mth(h, D, lo, mid);
    MthParent(h, D, lo, hi, level);
    if mid <= start {
      SubFromRight(h, D, start, end, lo, hi, level, true);
    } else {
      if lo <= start {
        ShlLow(j / 2, level + 1);
        ShlLow(j, level);
        SpansFromStart(start, end, lo, hi, level);
      }
      SubAcross(h, D, end, lo, hi, level, lo <= start);
      MthParent(h, D, lo, end, level);
    }
  }

  /** At the top of the tree the window is the tree and the part is the subtree. */
  lemma {:induction false} WindowTop(h: Hasher, D: seq<Bytes>, start: nat, end: nat, n: nat,
      level: nat, hashes: seq<HashValue>, fr: HashValue, sr: HashValue)
    requires OnWindow(h, D, start, end, n, level, hashes, fr, sr)
    requires Shr(n - 1, level) == 0
    ensures hashes == SubProof(h, D, start, end, 0, n, true)
    ensures fr == Mth(h, D, start, end) && sr == Mth(h, D, 0, n)
  {
    hide Shl, Shr, Mth, SubProof, IsSubtree, NodeEnd;
    OnWindowRange(h, D, start, end, n, level, hashes, fr, sr);
    NodeAtEdge(level, 0, n);
    ShlOne(level);
  }

  /** From any level, the rest of the proof leads the climb to both hashes. */
  lemma {:induction false} BothFrom(h: Hasher, D: seq<Bytes>, start: nat, end: nat, n: nat,
      level: nat, hashes: seq<HashValue>, fr: HashValue, sr: HashValue) returns (rest: seq<HashValue>)
    requires OnWindow(h, D, start, end, n, level, hashes, fr, sr)
    ensures start < end <= n <= |D|
    ensures SubProof(h, D, start, end, 0, n, true) == hashes + rest
    ensures ClimbBoth(h, Shr(start, level), Shr(end - 1, level), Shr(n - 1, level), fr, sr, rest)
      == Some((Mth(h, D, start, end), Mth(h, D, 0, n)))
    decreases Shr(n - 1, level)
  {
    hide *;
    OnWindowRange(h, D, start, end, n, level, hashes, fr, sr);
    var fn, sn, tn := Shr(start, level), Shr(end - 1, level), Shr(n - 1, level);
    if tn == 0 {
      WindowTop(h, D, start, end, n, level, hashes, fr, sr);
      rest := [];
      BothEnd(h, fn, sn, tn, fr, sr, rest);
    } else if sn == tn && sn % 2 == 0 {
      WindowAlone(h, D, start, end, n, level, hashes, fr, sr);
      rest := BothFrom(h, D, start, end, n, level + 1, hashes, fr, sr);
      BothSkip(h, fn, sn, tn, fr, sr, rest);
    } else if sn % 2 == 1 {
      var c := WindowFromRight(h, D, start, end, n, level, hashes, fr, sr);
      var fr' := if fn < sn then h.node(c, fr) else fr;
      var tail := BothFrom(h, D, start, end, n, level + 1, hashes + [c], fr', h.node(c, sr));
      BothLeft(h, fn, sn, tn, fr, sr, c, tail);
      rest := [c] + tail;
      assert hashes + rest == (hashes + [c]) + tail;
    } else {
      var c := WindowFromLeft(h, D, start, end, n, level, hashes, fr, sr);
      var tail := BothFrom(h, D, start, end, n, level + 1, hashes + [c], fr, h.node(sr, c));
      BothRight(h, fn, sn, tn, fr, sr, c, tail);
      rest := [c] + tail;
      assert hashes + rest == (hashes + [c]) + tail;
    }
  }

  /** Where the skipped levels lead. */
  lemma {:induction false} SkipReaches(fn: nat, sn: nat, tn: nat, meet: nat)
    requires fn <= sn <= tn
    requires Shr(fn, meet) == Shr(sn, meet)
    ensures var k := SkipLevels(fn, sn, tn);
      && k <= meet
      && (Shr(fn, k) == Shr(sn, k) || (Shr(sn, k) % 2 == 0 && Shr(sn, k) < Shr(tn, k)))
      && (sn < tn ==> Low(sn + 1, k) == 0)
      && (sn == tn ==> Shr(fn, k) == Shr(sn, k) == Shr(tn, k))
    decreases sn
  {
    if fn != sn && (sn == tn || sn % 2 == 1) {
      SkipMore(fn, sn, tn);
      SkipReaches(fn / 2, sn / 2, tn / 2, meet - 1);
      if sn < tn { assert (sn + 1) / 2 == sn / 2 + 1; }
    }
  }

  /** The window the climb starts from ends where the subtree does. */
  lemma {:induction false} FirstWindow(h: Hasher, D: seq<Bytes>, start: nat, end: nat, n: nat)
    returns (k: nat, first: HashValue)
    requires IsSubtree(start, end) && start < end <= n <= |D|
    ensures k == SkipLevels(start, end - 1, n - 1)
    ensures if Shr(start, k) == Shr(end - 1, k)
      then first == Mth(h, D, start, end) && OnWindow(h, D, start, end, n, k, [], first, first)
      else OnWindow(h, D, start, end, n, k, [first], first, first)
  {
    hide Shl, Shr, Low, Mth, CeilLog, SkipLevels, NodeEnd;
    k := SkipLevels(start, end - 1, n - 1);
    MeetsAtTop(start, end);
    SkipReaches(start, end - 1, n - 1, CeilLog(end - start));
    var j := Shr(end - 1, k);
    var lo := Shl(j, k);
    ShrMono(start, end - 1, k);
    ShlLe(j, k, start);
    LowDown(start, k, CeilLog(end - start));
    ShlShr(start, k);
    ShlShr(end - 1, k);
    WindowEnd(end, n, k);
    first := Mth(h, D, lo, end);
  }

  lemma {:induction false} WindowEnd(end: nat, n: nat, k: nat)
    requires 0 < end <= n
    requires end < n ==> Low(end, k) == 0
    requires end == n || Low(end, k) == 0
    ensures NodeEnd(k, Shr(end - 1, k), n) == end
  {
    hide Shl, Shr, Low, Pow2;
    if end < n {
      LowSize(end, k);
      AlignDown(end - 1, end, k);
      ShlShr(end - 1, k);
    } else {
      NodeAtEdge(k, Shr(end - 1, k), n);
    }
  }

  /** Completeness: the procedure accepts every proof the demo generates, against
      the hash of the subtree and the root of the tree of any size up to the log's. */
  lemma {:induction false} GeneratedIsAccepted(h: Hasher, D: seq<Bytes>, start: nat, end: nat, n: nat)
    requires IsSubtree(start, end) && end <= n <= |D|
    ensures Accepts(h, start, end, n, SubtreeProof(h, D, start, end, n), Mth(h, D, start, end), Mth(h, D, 0, n))
  {
    hide SubProof, ClimbBoth, SkipLevels, Shr, OnWindow, Low, CeilLog;
    if start == end { return; }
    hide Mth;
    var k, first := FirstWindow(h, D, start, end, n);
    if Shr(start, k) == Shr(end - 1, k) {
      var rest := BothFrom(h, D, start, end, n, k, [], first, first);
      assert [] + rest == rest;
    } else {
      var rest := BothFrom(h, D, start, end, n, k, [first], first, first);
      assert ([first] + rest)[1..] == rest;
    }
  }

  // ----- Nothing else is accepted, short of a collision -----

  /** The child pairs hashed into the root, lowest first. */
  function HashedRoot(h: Hasher, sn: nat, tn: nat, sr: HashValue, proof: seq<HashValue>): seq<Pair>
    decreases tn
  {
    if tn == 0 || |proof| == 0 then []
    else if sn == tn && sn % 2 == 0 then HashedRoot(h, sn / 2, tn / 2, sr, proof)
    else
      var p := if sn % 2 == 1 then Pair(proof[0], sr) else Pair(sr, proof[0]);
      [p] + HashedRoot(h, sn / 2, tn / 2, HashPair(h, p), proof[1..])
  }

  lemma {:induction false} BothBinds(h: Hasher, fn: nat, sn: nat, tn: nat,
      fr1: HashValue, sr1: HashValue, proof1: seq<HashValue>, fr2: HashValue, sr2: HashValue, proof2: seq<HashValue>)
    requires fn <= sn <= tn
    requires ClimbBoth(h, fn, sn, tn, fr1, sr1, proof1).Some?
    requires ClimbBoth(h, fn, sn, tn, fr2, sr2, proof2).Some?
    requires ClimbBoth(h, fn, sn, tn, fr1, sr1, proof1).value.1 == ClimbBoth(h, fn, sn, tn, fr2, sr2, proof2).value.1
    ensures (sr1 == sr2 && proof1 == proof2)
      || Collide(h, HashedRoot(h, sn, tn, sr1, proof1), HashedRoot(h, sn, tn, sr2, proof2))
    decreases tn
  {
    hide Collide;
    if tn == 0 {
    } else if sn == tn && sn % 2 == 0 {
      BothBinds(h, fn / 2, sn / 2, tn / 2, fr1, sr1, proof1, fr2, sr2, proof2);
    } else {
      var c1, rest1, c2, rest2 := proof1[0], proof1[1..], proof2[0], proof2[1..];
      var p := if sn % 2 == 1 then Pair(c1, sr1) else Pair(sr1, c1);
      var q := if sn % 2 == 1 then Pair(c2, sr2) else Pair(sr2, c2);
      var f1 := if sn % 2 == 1 && fn < sn then h.node(c1, fr1) else fr1;
      var f2 := if sn % 2 == 1 && fn < sn then h.node(c2, fr2) else fr2;
      var a := HashedRoot(h, sn / 2, tn / 2, HashPair(h, p), rest1);
      var b := HashedRoot(h, sn / 2, tn / 2, HashPair(h, q), rest2);
      BothBinds(h, fn / 2, sn / 2, tn / 2, f1, HashPair(h, p), rest1, f2, HashPair(h, q), rest2);
      if Collide(h, a, b) {
        CollideLater(h, p, a, q, b);
      } else if p != q {
        CollideNow(h, p, a, q, b);
      } else {
        assert proof1 == [c1] + rest1;
        assert proof2 == [c2] + rest2;
      }
    }
  }

  /** What the procedure hashes into the root. */
  function RootPairs(h: Hasher, start: nat, end: nat, n: nat, proof: seq<HashValue>, nodeHash: HashValue): seq<Pair>
    requires start < end <= n
  {
    var k := SkipLevels(start, end - 1, n - 1);
    var sn, tn := Shr(end - 1, k), Shr(n - 1, k);
    if Shr(start, k) == sn then HashedRoot(h, sn, tn, nodeHash, proof)
    else if |proof| == 0 then []
    else HashedRoot(h, sn, tn, proof[0], proof[1..])
  }

  /** Two accepted proofs of one position against one root are the same proof of the
      same subtree hash, or the two checks collide on the way to the root. */
  lemma {:induction false} AcceptedAgree(h: Hasher, start: nat, end: nat, n: nat, rootHash: HashValue,
      proof1: seq<HashValue>, nodeHash1: HashValue, proof2: seq<HashValue>, nodeHash2: HashValue)
    requires start < end
    requires Accepts(h, start, end, n, proof1, nodeHash1, rootHash)
    requires Accepts(h, start, end, n, proof2, nodeHash2, rootHash)
    ensures (nodeHash1 == nodeHash2 && proof1 == proof2)
      || Collide(h, RootPairs(h, start, end, n, proof1, nodeHash1), RootPairs(h, start, end, n, proof2, nodeHash2))
  {
    hide ClimbBoth, SkipLevels, Shr, Collide, HashedRoot, IsSubtree;
    var k := SkipLevels(start, end - 1, n - 1);
    var fn, sn, tn := Shr(start, k), Shr(end - 1, k), Shr(n - 1, k);
    ShrMono(start, end - 1, k);
    ShrMono(end - 1, n - 1, k);
    if fn == sn {
      BothBinds(h, fn, sn, tn, nodeHash1, nodeHash1, proof1, nodeHash2, nodeHash2, proof2);
    } else {
      BothBinds(h, fn, sn, tn, proof1[0], proof1[0], proof1[1..], proof2[0], proof2[0], proof2[1..]);
      assert proof1 == [proof1[0]] + proof1[1..];
      assert proof2 == [proof2[0]] + proof2[1..];
    }
  }

  /** Soundness: a proof accepted against the root of the tree over D[0:n] is for a
      subtree within that tree, it is the generated one, and the subtree hash is that
      of D[start:end], short of a collision with the tree's own nodes. */
  lemma {:induction false} AcceptedIsGenerated(h: Hasher, D: seq<Bytes>, start: nat, end: nat, n: nat,
      proof: seq<HashValue>, nodeHash: HashValue)
    requires n <= |D|
    requires Accepts(h, start, end, n, proof, nodeHash, Mth(h, D, 0, n))
    ensures IsSubtree(start, end) && end <= n
    ensures (nodeHash == Mth(h, D, start, end) && proof == SubtreeProof(h, D, start, end, n))
      || (start < end && Collide(h, RootPairs(h, start, end, n, proof, nodeHash),
           RootPairs(h, start, end, n, SubtreeProof(h, D, start, end, n), Mth(h, D, start, end))))
  {
    hide AcceptsClimb, SubProof, Collide, RootPairs, Low, CeilLog;
    if start < end {
      hide Mth;
      GeneratedIsAccepted(h, D, start, end, n);
      AcceptedAgree(h, start, end, n, Mth(h, D, 0, n), proof, nodeHash,
        SubtreeProof(h, D, start, end, n), Mth(h, D, start, end));
    }
  }
}
