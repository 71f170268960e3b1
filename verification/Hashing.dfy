/** Bytes, results, and the hash functions of the tree, which are parameters of
    the whole development: nothing is assumed about them. */
module Hashing {

  newtype byte = b: int | 0 <= b < 256

  type Bytes = seq<byte>

  lemma {:induction false} AppendAssoc(a: Bytes, b: Bytes, c: Bytes)
    ensures (a + b) + c == a + (b + c)
  {
  }

  /** The bytes of a text of ASCII characters. */
  function Ascii(s: string): (b: Bytes)
    requires forall k :: 0 <= k < |s| ==> s[k] as int < 128
    ensures |b| == |s|
  {
    seq(|s|, k requires 0 <= k < |s| => s[k] as int as byte)
  }

  datatype Option<+T> = None | Some(value: T)

  datatype Result<+T> = Ok(value: T) | Err

  /** HashValue of the demo: the HashSize = 32 bytes of a SHA-256 output. */
  type HashValue = h: Bytes | |h| == 32 witness seq(32, _ => 0)

  /** HashEmpty, HashLeaf and HashNode of the demo. */
  datatype Hasher = Hasher(
    empty: HashValue,
    leaf: Bytes -> HashValue,
    node: (HashValue, HashValue) -> HashValue)

  /** The three hashes as the code derives them from SHA-256, with the domain
      separation bytes 0x00 and 0x01. */
  function Sha256Hasher(sha256: Bytes -> HashValue): Hasher {
    Hasher(
      sha256([]),
      (entry: Bytes) => sha256([0] + entry),
      (l: HashValue, r: HashValue) => sha256([1] + l + r))
  }

  /** A collision of the node hash is a collision of SHA-256 itself. */
  lemma {:induction false} NodeCollisionIsSha256Collision(sha256: Bytes -> HashValue,
      l1: HashValue, r1: HashValue, l2: HashValue, r2: HashValue)
    requires (l1, r1) != (l2, r2)
    requires Sha256Hasher(sha256).node(l1, r1) == Sha256Hasher(sha256).node(l2, r2)
    ensures [1] + l1 + r1 != [1] + l2 + r2
    ensures sha256([1] + l1 + r1) == sha256([1] + l2 + r2)
  {
    var x, y := [1] + l1 + r1, [1] + l2 + r2;
    assert x[1..33] == l1 && x[33..] == r1;
    assert y[1..33] == l2 && y[33..] == r2;
  }
}
