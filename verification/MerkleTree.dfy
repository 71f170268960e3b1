/** The Merkle Tree held as a table of full nodes by level, and the operations
    that read it: subtree hashes and inclusion proofs.
 */
module MerkleTree {
  import opened Bits
  import opened Hashing
  import opened Subtrees
  import opened MerkleSpec

  /** row is level i of the table over D: floor(|D| / 2^i) nodes, node j being the
      hash of D[2^i * j : 2^i * (j + 1)]. */
  ghost predicate IsLevel(h: Hasher, D: seq<Bytes>, i: nat, row: seq<HashValue>) {
    && |row| == Shr(|D|, i)
    && forall j :: 0 <= j < |row| ==> IsFullNode(h, D, i, j, row[j])
  }

  ghost predicate IsFullNode(h: Hasher, D: seq<Bytes>, i: nat, j: nat, v: HashValue) {
    Shl(j, i) + Pow2(i) <= |D| && v == Mth(h, D, Shl(j, i), Shl(j, i) + Pow2(i))
  }

  /** Node j of level i + 1 from its two children. */
  lemma {:induction false} JoinNodes(h: Hasher, D: seq<Bytes>, i: nat, j: nat, l: HashValue, r: HashValue)
    requires IsFullNode(h, D, i, 2 * j, l)
    requires IsFullNode(h, D, i, 2 * j + 1, r)
    ensures IsFullNode(h, D, i + 1, j, h.node(l, r))
  {
    hide Mth, Shl, Pow2;
    Children(i, j);
    MthParent(h, D, Shl(j, i + 1), Shl(j, i + 1) + Pow2(i + 1), i);
  }

  /** Level 0 is the entries' leaf hashes. */
  method LeafLevel(h: Hasher, entries: seq<Bytes>) returns (row: seq<HashValue>)
    ensures IsLevel(h, entries, 0, row)
  {
    var level := new HashValue[|entries|];
    var i := 0;
    while i < |entries|
      invariant 0 <= i <= |entries|
      invariant forall j :: 0 <= j < i ==> IsFullNode(h, entries, 0, j, level[j])
    {
      level[i] := h.leaf(entries[i]);
      i := i + 1;
    }
    row := level[..];
  }

  method NextLevel(h: Hasher, ghost D: seq<Bytes>, ghost l: nat, last: seq<HashValue>) returns (row: seq<HashValue>)
    requires IsLevel(h, D, l, last)
    ensures IsLevel(h, D, l + 1, row)
    ensures |row| == |last| / 2
  {
    var level := new HashValue[|last| / 2];
    var i := 0;
    while i < |last| / 2
      invariant 0 <= i <= |last| / 2
      invariant forall j :: 0 <= j < i ==> IsFullNode(h, D, l + 1, j, level[j])
    {
      JoinNodes(h, D, l, i, last[2 * i], last[2 * i + 1]);
      level[i] := h.node(last[2 * i], last[2 * i + 1]);
      i := i + 1;
    }
    ShrStep(|D|, l);
    row := level[..];
  }

  class StaticMerkleTree {
    const hasher: Hasher
    var levels: seq<seq<HashValue>>
    ghost var entries: seq<Bytes>

    ghost predicate Valid()
      reads this
    {
      && |entries| < 0x8000_0000_0000_0000
      && 1 <= |levels|
      && (forall i :: 0 <= i < |levels| ==> IsLevel(hasher, entries, i, levels[i]))
      && (forall i :: 0 <= i < |levels| - 1 ==> 2 <= |levels[i]|)
      && |levels[|levels| - 1]| < 2
    }

    /** The caller's list of entries is a Go slice, so its length fits an int. */
    constructor (h: Hasher, inputs: seq<Bytes>)
      requires |inputs| < 0x8000_0000_0000_0000
      ensures Valid() && entries == inputs && hasher == h
    {
      hasher := h;
      entries := inputs;
      var level := LeafLevel(h, inputs);
      var rows := [level];
      while 2 <= |rows[|rows| - 1]|
        invariant 1 <= |rows|
        invariant forall i :: 0 <= i < |rows| ==> IsLevel(h, inputs, i, rows[i])
        invariant forall i :: 0 <= i < |rows| - 1 ==> 2 <= |rows[i]|
        decreases |rows[|rows| - 1]|
      {
        level := NextLevel(h, inputs, |rows| - 1, rows[|rows| - 1]);
        rows := rows + [level];
      }
      levels := rows;
    }

    function Size(): (n: uint64)
      requires Valid()
      reads this
      ensures n == |entries|
    {
      |levels[0]|
    }

    /** A look-up outside the range of the tree is a panic in the demo. */
    function FullSubtreeHashByLevel(level: nat, idx: uint64): (v: HashValue)
      requires Valid()
      requires Shl(idx, level) + Pow2(level) <= |entries|
      reads this
      ensures v == Mth(hasher, entries, Shl(idx, level), Shl(idx, level) + Pow2(level))
    {
      FullNodeIsInTable(level, idx);
      assert IsFullNode(hasher, entries, level, idx, levels[level][idx]);
      levels[level][idx]
    }

    /** Every full node of the tree is in the table. */
    lemma {:induction false} FullNodeIsInTable(level: nat, idx: nat)
      requires Valid()
      requires Shl(idx, level) + Pow2(level) <= |entries|
      ensures idx <= 0x7FFF_FFFF_FFFF_FFFF
      ensures level < |levels| && idx < |levels[level]|
    {
      ShlNext(idx, level);
      ShlLe(idx + 1, level, |entries|);
      if |levels| <= level { ShrLast(|entries|, |levels| - 1, level); }
    }
  }

  lemma {:induction false} ShrLast(n: nat, a: nat, b: nat)
    requires Shr(n, a) < 2
    requires a < b
    ensures Shr(n, b) == 0
    decreases b
  {
    ShrStep(n, b - 1);
    if a < b - 1 { ShrLast(n, a, b - 1); }
  }
}
