/** Fixed-width unsigned arithmetic and bit operations, in the terms the Go code
    uses them (shifts, masks, exclusive or, bit length, trailing zeros), and the
    lemmas that read each of them as division and remainder by a power of two.
 */
module Bits {

  type uint16 = x: int | 0 <= x < 0x1_0000

  type uint64 = x: int | 0 <= x < 0x1_0000_0000_0000_0000

  function Pow2(k: nat): (p: nat)
    ensures 0 < p
  {
    if k == 0 then 1 else 2 * Pow2(k - 1)
  }

  // ----- The operations -----

  /** x >> k */
  function Shr(x: nat, k: nat): (r: nat)
    ensures r <= x
  {
    if k == 0 then x else Shr(x / 2, k - 1)
  }

  /** x << k on unbounded naturals. */
  function Shl(x: nat, k: nat): (r: nat)
    ensures x <= r
  {
    if k == 0 then x else 2 * Shl(x, k - 1)
  }

  /** The k least significant bits of x. */
  function Low(x: nat, k: nat): (r: nat)
    ensures r <= x
    ensures r < Pow2(k)
  {
    if k == 0 then 0 else x % 2 + 2 * Low(x / 2, k - 1)
  }

  /** bits.Len64: the number of bits needed to write x, zero for zero. */
  function Len(x: nat): (n: nat)
    ensures x < Pow2(n)
    ensures 0 < n ==> Pow2(n - 1) <= x
  {
    if x == 0 then 0 else 1 + Len(x / 2)
  }

  /** bits.LeadingZeros64 */
  function LeadingZeros64(x: uint64): nat {
    LenBound(x, 64);
    64 - Len(x)
  }

  function TrailingZeros(x: nat): nat
    requires 0 < x
  {
    if x % 2 == 1 then 0 else 1 + TrailingZeros(x / 2)
  }

  /** bits.TrailingZeros64, which is 64 for zero. */
  function TrailingZeros64(x: uint64): nat {
    if x == 0 then 64 else TrailingZeros(x)
  }

  function And(x: nat, y: nat): (r: nat)
    ensures r <= x && r <= y
  {
    if x == 0 || y == 0 then 0
    else (if x % 2 == 1 && y % 2 == 1 then 1 else 0) + 2 * And(x / 2, y / 2)
  }

  function Or(x: nat, y: nat): nat {
    if x == 0 && y == 0 then 0
    else (if x % 2 == 1 || y % 2 == 1 then 1 else 0) + 2 * Or(x / 2, y / 2)
  }

  function Xor(x: nat, y: nat): (r: nat)
    ensures r == 0 <==> x == y
  {
    if x == 0 && y == 0 then 0
    else (if x % 2 != y % 2 then 1 else 0) + 2 * Xor(x / 2, y / 2)
  }

  function PopCount(x: nat): nat {
    if x == 0 then 0 else x % 2 + PopCount(x / 2)
  }

  /** The complement ^x of a 64-bit value. */
  function Not64(x: uint64): uint64 { 0xFFFF_FFFF_FFFF_FFFF - x }

  /** Addition and subtraction wrap around at 2^64. */
  function Add64(x: uint64, y: uint64): uint64 {
    if x + y < 0x1_0000_0000_0000_0000 then x + y else x + y - 0x1_0000_0000_0000_0000
  }

  function Sub64(x: uint64, y: uint64): uint64 {
    if y <= x then x - y else x - y + 0x1_0000_0000_0000_0000
  }

  /** x << k: each step drops the top bit, so a count of 64 or more leaves zero. */
  function Shl64(x: uint64, k: nat): uint64 {
    if k == 0 then x else
    var y := Shl64(x, k - 1);
    Add64(y, y)
  }

  // ----- Powers of two -----

  lemma {:induction false} Pow2Is64()
    ensures Pow2(64) == 0x1_0000_0000_0000_0000
    ensures Pow2(48) == 0x1_0000_0000_0000
    ensures Pow2(63) == 0x8000_0000_0000_0000
  {
    assert Pow2(16) == 0x1_0000;
    Pow2Add(16, 16);
    Pow2Add(32, 16);
    Pow2Add(48, 15);
    assert Pow2(15) == 0x8000;
    assert Pow2(64) == 2 * Pow2(63);
  }

  lemma {:induction false} Pow2Add(a: nat, b: nat)
    ensures Pow2(a + b) == Pow2(a) * Pow2(b)
  {
    if a != 0 { Pow2Add(a - 1, b); }
  }

  lemma {:induction false} Pow2Mono(a: nat, b: nat)
    requires a <= b
    ensures Pow2(a) <= Pow2(b)
    ensures a < b ==> 2 * Pow2(a) <= Pow2(b)
  {
    if a < b { Pow2Mono(a, b - 1); }
  }

  /** Len(x) is the least n with x < 2^n. */
  lemma {:induction false} LenBound(x: nat, n: nat)
    ensures x < Pow2(n) <==> Len(x) <= n
    ensures n == 64 ==> (x < 0x1_0000_0000_0000_0000 <==> Len(x) <= n)
  {
    if n == 64 { Pow2Is64(); }
    if Len(x) <= n { Pow2Mono(Len(x), n); } else { Pow2Mono(n, Len(x) - 1); }
  }

  lemma {:induction false} LenUnique(x: nat, n: nat)
    requires x < Pow2(n)
    requires 0 < n ==> Pow2(n - 1) <= x
    ensures Len(x) == n
  {
    LenBound(x, n);
    if 0 < n { LenBound(x, n - 1); }
  }

  // ----- Shifts and low bits are quotient and remainder -----

  lemma {:induction false} ShrLow(x: nat, k: nat)
    ensures x == Shr(x, k) * Pow2(k) + Low(x, k)
    ensures Low(x, k) < Pow2(k)
  {
    if k != 0 {
      ShrLow(x / 2, k - 1);
      MulDouble(Shr(x, k), Pow2(k - 1));
    }
  }

  lemma {:induction false} ShrLowUnique(x: nat, k: nat, q: nat, r: nat)
    requires x == q * Pow2(k) + r
    requires r < Pow2(k)
    ensures Shr(x, k) == q
    ensures Low(x, k) == r
  {
    if k == 0 {
      assert Pow2(0) == 1;
    } else {
      MulDouble(q, Pow2(k - 1));
      ShrLowUnique(x / 2, k - 1, q, r / 2);
    }
  }

  /** Low(x, k) is x mod 2^k and Shr(x, k) is x div 2^k. */
  lemma {:induction false} LowIsMod(x: nat, k: nat)
    ensures Low(x, k) == x % Pow2(k)
    ensures Shr(x, k) == x / Pow2(k)
  {
    ShrLow(x, k);
    DivUnique(x, Pow2(k), Shr(x, k), Low(x, k));
  }

  lemma {:induction false} DivUnique(x: nat, d: nat, q: nat, r: nat)
    requires x == q * d + r
    requires r < d
    ensures x / d == q
    ensures x % d == r
  {
    assert x == (x / d) * d + x % d;
    if q < x / d { MulMono(q + 1, x / d, d); }
    if x / d < q { MulMono(x / d + 1, q, d); }
  }

  lemma {:induction false} MulDouble(q: nat, p: nat)
    ensures q * (2 * p) == 2 * (q * p)
  {
  }

  lemma {:induction false} MulNext(q: nat, p: nat)
    ensures (q + 1) * p == q * p + p
  {
  }

  lemma {:induction false} MulMono(a: nat, b: nat, d: nat)
    requires a <= b
    ensures a * d <= b * d
  {
  }

  lemma {:induction false} ShrZero(x: nat)
    ensures Shr(x, 0) == x
  {
  }

  /** Shifting once more halves the result. */
  lemma {:induction false} ShrStep(x: nat, k: nat)
    ensures Shr(x, k + 1) == Shr(x, k) / 2
  {
    if k != 0 { ShrStep(x / 2, k - 1); }
  }

  lemma {:induction false} ShrAdd(x: nat, a: nat, b: nat)
    ensures Shr(x, a + b) == Shr(Shr(x, a), b)
  {
    if a != 0 { ShrAdd(x / 2, a - 1, b); }
  }

  lemma {:induction false} ShrMono(x: nat, y: nat, k: nat)
    requires x <= y
    ensures Shr(x, k) <= Shr(y, k)
  {
    if k != 0 { ShrMono(x / 2, y / 2, k - 1); }
  }

  lemma {:induction false} ShrOut(x: nat, k: nat)
    ensures Shr(x, k) == 0 <==> x < Pow2(k)
  {
    if k != 0 { ShrOut(x / 2, k - 1); }
  }

  /** A multiple of 2^b is a multiple of every smaller power of two. */
  lemma {:induction false} LowDown(x: nat, a: nat, b: nat)
    requires a <= b
    requires Low(x, b) == 0
    ensures Low(x, a) == 0
  {
    if a != 0 { LowDown(x / 2, a - 1, b - 1); }
  }

  lemma {:induction false} LowAdd(x: nat, y: nat, k: nat)
    requires Low(x, k) == 0
    ensures Low(x + y, k) == Low(y, k)
    ensures Shr(x + y, k) == Shr(x, k) + Shr(y, k)
  {
    if k != 0 {
      assert (x + y) / 2 == x / 2 + y / 2;
      LowAdd(x / 2, y / 2, k - 1);
    }
  }

  lemma {:induction false} LowSub(x: nat, y: nat, k: nat)
    requires Low(x, k) == 0 && Low(y, k) == 0
    requires y <= x
    ensures Low(x - y, k) == 0
    ensures Shr(x - y, k) == Shr(x, k) - Shr(y, k)
  {
    LowAdd(y, x - y, k);
  }

  /** Clearing the low k bits leaves a multiple of 2^k. */
  lemma {:induction false} LowClear(x: nat, k: nat)
    ensures Low(x - Low(x, k), k) == 0
  {
    if k != 0 {
      LowClear(x / 2, k - 1);
      assert (x - Low(x, k)) / 2 == x / 2 - Low(x / 2, k - 1);
    }
  }

  lemma {:induction false} LowPow2(x: nat, k: nat)
    requires x == Pow2(k)
    ensures Low(x, k) == 0
  {
    if k != 0 { LowPow2(x / 2, k - 1); }
  }

  /** Two multiples of 2^k less than 2^k apart are equal. */
  lemma {:induction false} LowGap(x: nat, y: nat, k: nat)
    requires Low(x, k) == 0 && Low(y, k) == 0
    requires x < y
    ensures x + Pow2(k) <= y
  {
    LowSub(y, x, k);
    ShrLow(y - x, k);
    if Shr(y - x, k) != 0 { MulMono(1, Shr(y - x, k), Pow2(k)); }
  }

  // ----- Shifts to the left -----

  lemma {:induction false} ShlIsMul(x: nat, k: nat)
    ensures Shl(x, k) == x * Pow2(k)
  {
    if k != 0 {
      ShlIsMul(x, k - 1);
      MulDouble(x, Pow2(k - 1));
    }
  }

  lemma {:induction false} ShlOne(k: nat)
    ensures Shl(1, k) == Pow2(k)
    ensures Shl(0, k) == 0
  {
    if k != 0 { ShlOne(k - 1); }
  }

  lemma {:induction false} ShlNext(x: nat, k: nat)
    ensures Shl(x + 1, k) == Shl(x, k) + Pow2(k)
  {
    if k != 0 { ShlNext(x, k - 1); }
  }

  lemma {:induction false} ShlDouble(x: nat, k: nat)
    ensures Shl(2 * x, k) == Shl(x, k + 1)
  {
    if k != 0 { ShlDouble(x, k - 1); }
  }

  /** Shifting right and back clears the low bits. */
  lemma {:induction false} ShlShr(x: nat, k: nat)
    ensures x == Shl(Shr(x, k), k) + Low(x, k)
  {
    if k != 0 { ShlShr(x / 2, k - 1); }
  }

  lemma {:induction false} ShlLow(x: nat, k: nat)
    ensures Low(Shl(x, k), k) == 0
    ensures Shr(Shl(x, k), k) == x
  {
    if k != 0 {
      ShlLow(x, k - 1);
      var y := Shl(x, k - 1);
      assert (2 * y) / 2 == y && (2 * y) % 2 == 0;
    }
  }

  lemma {:induction false} ShlLe(x: nat, k: nat, n: nat)
    ensures Shl(x, k) <= n <==> x <= Shr(n, k)
  {
    if k != 0 { ShlLe(x, k - 1, n / 2); }
  }

  /** A shift whose result is in range does not wrap. */
  lemma {:induction false} Shl64Exact(x: uint64, k: nat)
    requires Shl(x, k) < 0x1_0000_0000_0000_0000
    ensures Shl64(x, k) == Shl(x, k)
  {
    if k != 0 { Shl64Exact(x, k - 1); }
  }

  lemma {:induction false} Shl64One(k: nat)
    requires k <= 64
    ensures Shl64(1, k) == if k == 64 then 0 else Pow2(k)
  {
    Pow2Is64();
    var j := if k == 64 then 63 else k;
    Pow2Mono(j, 63);
    ShlOne(j);
    Shl64Exact(1, j);
  }

  /** (1 << k) - 1, which is all ones when the shift leaves zero. */
  function Mask64(k: nat): uint64 { Sub64(Shl64(1, k), 1) }

  lemma {:induction false} Mask64Value(k: nat)
    requires k <= 64
    ensures Mask64(k) == Pow2(k) - 1
  {
    Shl64One(k);
    Pow2Is64();
    if k < 64 { Pow2Mono(k, 63); }
  }

  // ----- Masks -----

  /** x & (2^k - 1) keeps the low k bits. */
  lemma {:induction false} AndMask(x: nat, k: nat, mask: nat)
    requires mask == Pow2(k) - 1
    ensures And(x, mask) == Low(x, k)
  {
    if k != 0 {
      AndMask(x / 2, k - 1, mask / 2);
      AndOdd(x, mask / 2);
    }
  }

  /** x & 1 and x >> 1 are the last bit and the rest. */
  lemma {:induction false} LastBit(x: nat)
    ensures And(x, 1) == x % 2
    ensures Shr(x, 1) == x / 2
  {
    AndMask(x, 1, 1);
  }

  lemma {:induction false} AndOdd(x: nat, y: nat)
    ensures And(x, 2 * y + 1) == x % 2 + 2 * And(x / 2, y)
  {
    assert (2 * y + 1) / 2 == y && (2 * y + 1) % 2 == 1;
  }

  lemma {:induction false} AndEven(x: nat, y: nat)
    ensures And(x, 2 * y) == 2 * And(x / 2, y)
  {
    assert (2 * y) / 2 == y && (2 * y) % 2 == 0;
  }

  /** x & ^(2^k - 1) clears the low k bits, for k up to 64. */
  lemma {:induction false} AndNotMask(x: uint64, k: nat)
    requires k <= 64
    ensures And(x, Not64(Mask64(k))) == x - Low(x, k)
  {
    Mask64Value(k);
    Pow2Is64();
    AndHigh(x, k, 64, Not64(Mask64(k)));
  }

  lemma {:induction false} AndHigh(x: nat, k: nat, n: nat, mask: nat)
    requires k <= n
    requires x < Pow2(n)
    requires mask + Pow2(k) == Pow2(n)
    ensures And(x, mask) == x - Low(x, k)
  {
    if k == 0 {
      AndFull(x, n, mask);
    } else {
      var half := Pow2(n - 1) - Pow2(k - 1);
      AndHigh(x / 2, k - 1, n - 1, half);
      AndEven(x, half);
    }
  }

  lemma {:induction false} AndFull(x: nat, n: nat, mask: nat)
    requires x < Pow2(n)
    requires mask + 1 == Pow2(n)
    ensures And(x, mask) == x
  {
    AndMask(x, n, mask);
    ShrOut(x, n);
    ShrLow(x, n);
  }

  /** (^x) & (2^k - 1) complements the low k bits of x, for k up to 64. */
  lemma {:induction false} NotAndMask(x: uint64, k: nat)
    requires k <= 64
    ensures And(Not64(x), Mask64(k)) == Pow2(k) - 1 - Low(x, k)
  {
    Mask64Value(k);
    Pow2Is64();
    AndMask(Not64(x), k, Mask64(k));
    LowNot(x, Not64(x), k, 64);
  }

  lemma {:induction false} LowNot(x: nat, y: nat, k: nat, n: nat)
    requires k <= n
    requires x + y + 1 == Pow2(n)
    ensures Low(y, k) == Pow2(k) - 1 - Low(x, k)
  {
    if k != 0 { LowNot(x / 2, y / 2, k - 1, n - 1); }
  }

  /** x | (y << k) is x + y * 2^k when x has at most k bits. */
  lemma {:induction false} OrDisjoint(x: nat, y: nat, k: nat)
    requires x < Pow2(k)
    ensures Or(x, y * Pow2(k)) == x + y * Pow2(k)
  {
    if k == 0 {
      OrZero(y);
    } else {
      MulDouble(y, Pow2(k - 1));
      OrDisjoint(x / 2, y, k - 1);
    }
  }

  lemma {:induction false} OrZero(y: nat)
    ensures Or(0, y) == y
  {
    if y != 0 { OrZero(y / 2); }
  }

  // ----- Exclusive or -----

  /** The bit length of x ^ y is the number of levels to go up until the paths of
      x and y meet. */
  lemma {:induction false} XorLen(x: nat, y: nat, k: nat)
    ensures Len(Xor(x, y)) <= k <==> Shr(x, k) == Shr(y, k)
    decreases k
  {
    if k != 0 {
      XorLen(x / 2, y / 2, k - 1);
      XorStep(x, y);
      LenStep(Xor(x, y));
    }
  }

  lemma {:induction false} LenStep(x: nat)
    ensures Len(x) == if x == 0 then 0 else 1 + Len(x / 2)
  {
  }

  lemma {:induction false} XorStep(x: nat, y: nat)
    ensures Xor(x, y) / 2 == Xor(x / 2, y / 2)
    ensures Xor(x, y) % 2 == if x % 2 != y % 2 then 1 else 0
  {
  }

  /** x ^ 1 is the sibling of x. */
  lemma {:induction false} XorOne(x: nat)
    ensures Xor(x, 1) == if x % 2 == 0 then x + 1 else x - 1
  {
    XorNone(x / 2);
  }

  lemma {:induction false} XorNone(x: nat)
    ensures Xor(x, 0) == x
  {
    if x != 0 { XorNone(x / 2); }
  }

  // ----- Trailing zeros -----

  /** 2^TrailingZeros(x) is the largest power of two that divides x. */
  lemma {:induction false} TrailingZerosDivides(x: nat, k: nat)
    requires 0 < x
    ensures Low(x, k) == 0 <==> k <= TrailingZeros(x)
  {
    if k != 0 && x % 2 == 0 { TrailingZerosDivides(x / 2, k - 1); }
  }

  lemma {:induction false} TrailingZerosUnique(x: nat, k: nat)
    requires 0 < x
    requires Low(x, k) == 0 && Low(x, k + 1) != 0
    ensures TrailingZeros(x) == k
  {
    TrailingZerosDivides(x, k);
    TrailingZerosDivides(x, k + 1);
  }
}
