/** The recursive definitions of RFC 9162 and of the subtree draft, over the
    entries D[lo:hi] named by absolute positions. These are the reference against
    which the loops of the demo are proved.
 */
module MerkleSpec {
  import opened Bits
  import opened Hashing
  import opened Subtrees

  /** The largest power of two smaller than n. */
  function SplitSize(n: nat): (k: nat)
    requires 2 <= n
    ensures k < n <= 2 * k
  {
    if n == 2 then 1 else 2 * SplitSize((n + 1) / 2)
  }

  /** MTH, section 2.1.1 of RFC 9162, on D[lo:hi]. */
  function Mth(h: Hasher, D: seq<Bytes>, lo: nat, hi: nat): HashValue
    requires lo <= hi <= |D|
    decreases hi - lo
  {
    if lo == hi then h.empty
    else if hi - lo == 1 then h.leaf(D[lo])
    else
      var mid := lo + SplitSize(hi - lo);
      h.node(Mth(h, D, lo, mid), Mth(h, D, mid, hi))
  }

  /** PATH, section 2.1.3.1 of RFC 9162, for entry i of D[lo:hi]. */
  function Path(h: Hasher, D: seq<Bytes>, i: nat, lo: nat, hi: nat): seq<HashValue>
    requires lo <= i < hi <= |D|
    decreases hi - lo
  {
    if hi - lo == 1 then []
    else
      var mid := lo + SplitSize(hi - lo);
      if i < mid then Path(h, D, i, lo, mid) + [Mth(h, D, mid, hi)]
      else Path(h, D, i, mid, hi) + [Mth(h, D, lo, mid)]
  }

  /** MTH of a list, exactly as section 2.1.1 of RFC 9162 writes it. */
  function ListMth(h: Hasher, d: seq<Bytes>): HashValue
    decreases |d|
  {
    if |d| == 0 then h.empty
    else if |d| == 1 then h.leaf(d[0])
    else
      var k := SplitSize(|d|);
      h.node(ListMth(h, d[..k]), ListMth(h, d[k..]))
  }

  /** The first cases, over SHA-256: nothing, one entry, and two. */
  lemma {:induction false} MthOfFew(sha256: Bytes -> HashValue, D: seq<Bytes>, i: nat)
    requires i + 2 <= |D|
    ensures var h := Sha256Hasher(sha256);
      && Mth(h, D, i, i) == sha256([])
      && Mth(h, D, i, i + 1) == sha256([0x00] + D[i])
      && Mth(h, D, i, i + 2) == sha256([0x01] + sha256([0x00] + D[i]) + sha256([0x00] + D[i + 1]))
  {
    var h := Sha256Hasher(sha256);
    assert SplitSize(2) == 1;
    assert Mth(h, D, i, i + 2) == h.node(Mth(h, D, i, i + 1), Mth(h, D, i + 1, i + 2));
  }

  /** Naming a sublist by its bounds changes nothing: Mth depends on D[lo:hi] only. */
  lemma {:induction false} MthIsListMth(h: Hasher, D: seq<Bytes>, lo: nat, hi: nat, d: seq<Bytes>)
    requires lo <= hi <= |D|
    requires d == D[lo..hi]
    ensures Mth(h, D, lo, hi) == ListMth(h, d)
    decreases hi - lo
  {
    if hi - lo >= 2 {
      var k := SplitSize(hi - lo);
      MthIsListMth(h, D, lo, lo + k, d[..k]);
      MthIsListMth(h, D, lo + k, hi, d[k..]);
    }
  }

  /** Appending entries leaves every subtree of the smaller tree as it was. */
  lemma {:induction false} MthOfPrefix(h: Hasher, D: seq<Bytes>, E: seq<Bytes>, lo: nat, hi: nat)
    requires lo <= hi <= |D|
    ensures Mth(h, D + E, lo, hi) == Mth(h, D, lo, hi)
  {
    MthIsListMth(h, D, lo, hi, D[lo..hi]);
    assert (D + E)[lo..hi] == D[lo..hi];
    MthIsListMth(h, D + E, lo, hi, D[lo..hi]);
  }

  // ----- Nodes by level -----
  //
  // Node j of level l covers [j << l, (j + 1) << l), cut off at the end of the
  // tree it is in.

  function NodeEnd(l: nat, j: nat, end: nat): nat {
    if Shl(j, l) + Pow2(l) <= end then Shl(j, l) + Pow2(l) else end
  }

  /** The powers of two determine it: a list of 2^l + 1 to 2^(l + 1) entries is split at 2^l. */
  lemma {:induction false} SplitSizeIs(n: nat, l: nat)
    requires Pow2(l) < n <= 2 * Pow2(l)
    ensures SplitSize(n) == Pow2(l)
  {
    if l != 0 { SplitSizeIs((n + 1) / 2, l - 1); }
  }

  /** A node with a right child splits between its children. */
  lemma {:induction false} MthParent(h: Hasher, D: seq<Bytes>, lo: nat, hi: nat, l: nat)
    requires lo + Pow2(l) < hi <= lo + 2 * Pow2(l)
    requires hi <= |D|
    ensures Mth(h, D, lo, hi) == h.node(Mth(h, D, lo, lo + Pow2(l)), Mth(h, D, lo + Pow2(l), hi))
  {
    SplitSizeIs(hi - lo, l);
  }

  lemma {:induction false} PathParent(h: Hasher, D: seq<Bytes>, i: nat, lo: nat, hi: nat, l: nat)
    requires lo + Pow2(l) < hi <= lo + 2 * Pow2(l)
    requires lo <= i < hi <= |D|
    ensures Path(h, D, i, lo, hi) ==
      if i < lo + Pow2(l) then Path(h, D, i, lo, lo + Pow2(l)) + [Mth(h, D, lo + Pow2(l), hi)]
      else Path(h, D, i, lo + Pow2(l), hi) + [Mth(h, D, lo, lo + Pow2(l))]
  {
    hide Pow2, SplitSize, Mth;
    SplitSizeIs(hi - lo, l);
  }

  /** The positions of the two children of node i of level l + 1. */
  lemma {:induction false} Children(l: nat, i: nat)
    ensures Shl(2 * i, l) == Shl(i, l + 1)
    ensures Shl(2 * i + 1, l) == Shl(i, l + 1) + Pow2(l)
    ensures Pow2(l + 1) == 2 * Pow2(l)
  {
    ShlDouble(i, l);
    ShlNext(2 * i, l);
  }

  /** The node of level l that contains position x. */
  lemma {:induction false} NodeOf(l: nat, x: nat)
    ensures Shl(Shr(x, l), l) <= x < Shl(Shr(x, l), l) + Pow2(l)
  {
    ShlShr(x, l);
  }
}
