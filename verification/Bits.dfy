/** Unsigned bit operations on naturals, as the kernel's headers use them
    (`klib.h` rounding masks, `mmu.h` index and permission masks). */
module Bits {

  const TWO32: nat := 0x1_0000_0000

  type Byte = x: int | 0 <= x < 256

  /** Little-endian 32-bit word. */
  function Word32(b0: Byte, b1: Byte, b2: Byte, b3: Byte): (w: nat)
    ensures w < TWO32
  {
    b0 + 0x100 * b1 + 0x1_0000 * b2 + 0x100_0000 * b3
  }

  function Pow2(k: nat): (p: nat)
    ensures p >= 1
  {
    if k == 0 then 1 else 2 * Pow2(k - 1)
  }

  /** Bitwise conjunction, bit by bit from the low end. */
  function And(a: nat, b: nat): nat
    decreases a
  {
    if a == 0 || b == 0 then 0
    else 2 * And(a / 2, b / 2) + (if a % 2 == 1 && b % 2 == 1 then 1 else 0)
  }

  /** Bitwise disjunction, bit by bit from the low end. */
  function Or(a: nat, b: nat): nat
    decreases a + b
  {
    if a == 0 then b
    else if b == 0 then a
    else 2 * Or(a / 2, b / 2) + (if a % 2 == 1 || b % 2 == 1 then 1 else 0)
  }

  /** `~a` for a 32-bit word. */
  function Not32(a: nat): nat
    requires a < TWO32
  {
    TWO32 - 1 - a
  }

  lemma {:induction false} Pow2Half(x: nat, k: nat)
    requires k > 0
    ensures x % Pow2(k) == 2 * ((x / 2) % Pow2(k - 1)) + x % 2
  {
    var p := Pow2(k - 1);
    var q, r := (x / 2) / p, (x / 2) % p;
    assert x == 2 * (q * p + r) + x % 2;
    assert x == q * (2 * p) + (2 * r + x % 2);
    ModUnique(x, 2 * p, q, 2 * r + x % 2);
  }

  /** Uniqueness of quotient and remainder. */
  lemma {:induction false} ModUnique(x: int, m: int, q: int, r: int)
    requires m > 0 && 0 <= r < m && x == q * m + r
    ensures x / m == q && x % m == r
  {
    var q', r' := x / m, x % m;
    assert x == q' * m + r';
    assert (q - q') * m == r' - r;
    if q > q' {
      assert (q - q') * m >= m by { MulMono(1, q - q', m); }
    } else if q < q' {
      MulMono(q - q', -1, m);
    }
  }

  lemma QuotientNat(a: nat, m: nat)
    requires m > 0
    ensures a / m >= 0
  {
  }

  lemma {:induction false} MulMono(a: int, b: int, m: int)
    requires a <= b && m >= 0
    ensures a * m <= b * m
  {
  }

  lemma Pow2Double(k: nat)
    ensures Pow2(k) == if k == 0 then 1 else 2 * Pow2(k - 1)
  {
  }

  lemma AndStep(a: nat, b: nat)
    ensures a == 0 || b == 0 ==> And(a, b) == 0
    ensures a > 0 && b > 0 ==> And(a, b) == 2 * And(a / 2, b / 2) + (if a % 2 == 1 && b % 2 == 1 then 1 else 0)
  {
  }

  lemma AndEvenMask(x: nat, m: nat)
    ensures And(x, 2 * m) == 2 * And(x / 2, m)
  {
    hide And;
    AndStep(x, 2 * m);
    AndStep(x / 2, m);
    assert 2 * m / 2 == m && 2 * m % 2 == 0;
  }

  lemma AndOddMask(x: nat, m: nat)
    ensures And(x, 2 * m + 1) == 2 * And(x / 2, m) + x % 2
  {
    hide And;
    AndStep(x, 2 * m + 1);
    AndStep(x / 2, m);
    assert (2 * m + 1) / 2 == m && (2 * m + 1) % 2 == 1;
  }

  /** Masking with 2^k - 1 is the remainder modulo 2^k. */
  lemma {:induction false} AndLowMask(x: nat, k: nat)
    ensures And(x, Pow2(k) - 1) == x % Pow2(k)
    decreases k
  {
    hide And, Pow2;
    Pow2Double(k);
    if k == 0 {
      AndStep(x, 0);
    } else {
      AndLowMask(x / 2, k - 1);
      Pow2Half(x, k);
      AndOddMask(x, Pow2(k - 1) - 1);
    }
  }

  /** Masking a w-bit word with its bits k..w-1 clears the low k bits. */
  lemma {:induction false} AndHighMask(x: nat, k: nat, w: nat)
    requires k <= w && x < Pow2(w)
    ensures Pow2(k) <= Pow2(w)
    ensures And(x, Pow2(w) - Pow2(k)) == x - x % Pow2(k)
    decreases k
  {
    hide And, Pow2;
    Pow2Mono(k, w);
    Pow2Double(k);
    if k == 0 {
      AndLowMask(x, w);
      ModUnique(x, Pow2(w), 0, x);
    } else {
      Pow2Double(w);
      AndHighMask(x / 2, k - 1, w - 1);
      Pow2Half(x, k);
      AndEvenMask(x, Pow2(w - 1) - Pow2(k - 1));
    }
  }

  lemma {:induction false} Pow2Mono(k: nat, w: nat)
    requires k <= w
    ensures Pow2(k) <= Pow2(w)
    decreases w
  {
    if k < w { Pow2Mono(k, w - 1); }
  }

  /** Joining a multiple of 2^k with a value below 2^k is addition. */
  lemma {:induction false} OrDisjoint(hi: nat, lo: nat, k: nat)
    requires hi % Pow2(k) == 0 && lo < Pow2(k)
    ensures Or(hi, lo) == hi + lo
    decreases k
  {
    if k == 0 || hi == 0 || lo == 0 {
    } else {
      Pow2Half(hi, k);
      OrDisjoint(hi / 2, lo / 2, k - 1);
    }
  }

  lemma {:induction false} OrBound(a: nat, b: nat, k: nat)
    requires a < Pow2(k) && b < Pow2(k)
    ensures Or(a, b) < Pow2(k)
    decreases k
  {
    if k == 0 || a == 0 || b == 0 {
    } else {
      OrBound(a / 2, b / 2, k - 1);
    }
  }

  // ----- klib.h -----

  /** `size & ~(bound - 1)` on 32-bit words (klib.h:86). */
  function Down2(size: nat, bound: nat): nat
    requires 1 <= bound < TWO32
  {
    And(size, Not32(bound - 1))
  }

  /** `(size + bound - 1) & ~(bound - 1)` with the sum taken modulo 2^32 (klib.h:96). */
  function Up2(size: nat, bound: nat): nat
    requires 1 <= bound < TWO32
  {
    And((size + bound - 1) % TWO32, Not32(bound - 1))
  }

  lemma Pow2Of32()
    ensures Pow2(32) == TWO32
  {
    assert Pow2(8) == 256;
    assert Pow2(16) == 65536;
    assert Pow2(24) == 0x100_0000;
  }

  /** `down2` rounds to the multiple of a power of two at or below `size`. */
  lemma {:induction false} Down2Rounds(size: nat, k: nat)
    requires size < TWO32 && k < 32
    ensures 1 <= Pow2(k) < TWO32
    ensures Down2(size, Pow2(k)) == size - size % Pow2(k)
  {
    Pow2Of32();
    Pow2Below(k, 32);
    AndHighMask(size, k, 32);
  }

  lemma {:induction false} Pow2Below(k: nat, w: nat)
    requires k < w
    ensures Pow2(k) < Pow2(w)
    decreases w
  {
    if k + 1 < w { Pow2Below(k, w - 1); }
  }

  /** `up2` gives the least multiple of 2^k at or above `size`, provided the sum does not wrap. */
  lemma {:induction false} Up2Rounds(size: nat, k: nat)
    requires k < 32 && size + Pow2(k) <= TWO32
    ensures Pow2(k) < TWO32
    ensures var u := Up2(size, Pow2(k));
      && u % Pow2(k) == 0
      && size <= u < size + Pow2(k)
      && u / Pow2(k) == (size + Pow2(k) - 1) / Pow2(k)
      && u == u / Pow2(k) * Pow2(k)
  {
    hide And, Pow2;
    var p := Pow2(k);
    Pow2Of32();
    Pow2Below(k, 32);
    var s := size + p - 1;
    Down2Rounds(s, k);
    assert s % TWO32 == s;
    RoundsTo(size, p, Up2(size, p));
  }

  lemma RoundsTo(size: nat, p: nat, u: nat)
    requires p >= 1 && u == (size + p - 1) - (size + p - 1) % p
    ensures u % p == 0 && size <= u < size + p
    ensures u / p == (size + p - 1) / p && u == u / p * p
  {
    var s := size + p - 1;
    var q, r := s / p, s % p;
    assert s == q * p + r;
    ModUnique(q * p, p, q, 0);
  }

  /** The wrapped case: a size within `bound` of 2^32 is rounded to zero. */
  lemma {:induction false} Up2Wraps(size: nat, k: nat)
    requires k < 32 && size < TWO32 < size + Pow2(k)
    ensures Pow2(k) < TWO32
    ensures Up2(size, Pow2(k)) == 0
  {
    var p := Pow2(k);
    Pow2Of32();
    Pow2Below(k, 32);
    var s := size + p - 1 - TWO32;
    ModUnique(size + p - 1, TWO32, 1, s);
    Down2Rounds(s, k);
    ModUnique(s, p, 0, s);
  }

  /** So `up2` rounds up exactly when the sum stays within 32 bits. */
  lemma {:induction false} Up2RoundsIff(size: nat, k: nat)
    requires k < 32 && size < TWO32 && size > 0
    ensures Pow2(k) < TWO32
    ensures size <= Up2(size, Pow2(k)) <==> size + Pow2(k) <= TWO32
  {
    Pow2Of32();
    Pow2Below(k, 32);
    if size + Pow2(k) <= TWO32 { Up2Rounds(size, k); } else { Up2Wraps(size, k); }
  }
}
