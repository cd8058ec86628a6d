/**
 * The alignment arithmetic of the raw pool's constructor: the power-of-two
 * test on the requested alignment, and the forward adjustment that moves the
 * start of the reserved block to the next aligned address.
 *
 * The source works with bitwise AND on unsigned integers. Here BitAnd is
 * defined on naturals one binary digit at a time, and the lemmas connect the
 * bitwise formulations the code uses to the arithmetic ones callers rely on.
 */
module Alignment {

  /** An unsigned 8-bit integer: the type the pool keeps its alignment in. */
  newtype uint8 = x: int | 0 <= x < 0x100

  /** Width in bytes of a native address (a 64-bit platform is assumed). */
  const PointerWidth: nat := 8

  /** The alignment a raw pool uses when its caller gives none. */
  const DefaultAlignment: uint8 := 4

  /** 2 to the power k. */
  function Pow2(k: nat): (r: nat)
    ensures r >= 1
  {
    if k == 0 then 1 else 2 * Pow2(k - 1)
  }

  /** x is one of 1, 2, 4, 8, ... */
  predicate IsPow2(x: nat)
  {
    x == 1 || (x > 1 && x % 2 == 0 && IsPow2(x / 2))
  }

  /** Bitwise AND of two naturals, computed from the lowest binary digit up. */
  function BitAnd(x: nat, y: nat): (r: nat)
    ensures r <= x && r <= y
  {
    if x == 0 || y == 0 then 0
    else 2 * BitAnd(x / 2, y / 2) + (if x % 2 == 1 && y % 2 == 1 then 1 else 0)
  }

  lemma {:induction false} BitAndSelf(x: nat)
    ensures BitAnd(x, x) == x
  {
    if x != 0 {
      BitAndSelf(x / 2);
    }
  }

  /**
   * The test the constructor applies to a nonzero alignment: `a & (a - 1)`
   * is zero exactly when a is a power of two.
   */
  lemma {:induction false} PowerOfTwoTest(a: nat)
    requires a > 0
    ensures BitAnd(a, a - 1) == 0 <==> IsPow2(a)
  {
    if a == 1 {
    } else if a % 2 == 0 {
      assert (a - 1) / 2 == a / 2 - 1 && (a - 1) % 2 == 1;
      PowerOfTwoTest(a / 2);
    } else {
      assert a / 2 == (a - 1) / 2 && a / 2 >= 1;
      BitAndSelf(a / 2);
    }
  }

  /** d * (q + k) is d * q plus d * k, and at least d * q + d when k >= 1. */
  lemma MulStep(d: nat, q: nat, k: nat)
    requires k >= 1
    ensures d * (q + k) == d * q + d * k
    ensures d * k >= d
  {
  }

  /** A quotient and remainder that satisfy the division equation are the ones. */
  lemma DivModUnique(x: nat, d: nat, m: nat, t: nat)
    requires d > 0 && t < d && x == d * m + t
    ensures x / d == m && x % d == t
  {
    var q, r := x / d, x % d;
    assert x == d * q + r;
    if q < m {
      MulStep(d, q, m - q);
      assert false;
    } else if q > m {
      MulStep(d, m, q - m);
      assert false;
    }
  }

  /** Multiplication by a natural is monotone. */
  lemma MulLe(i: nat, j: nat, d: nat)
    requires i <= j
    ensures i * d <= j * d
  {
    if i < j {
      MulStep(d, i, j - i);
    }
  }

  /** Exact division undoes multiplication. */
  lemma DivExact(i: nat, d: nat)
    requires d > 0
    ensures (i * d) / d == i && (i * d) % d == 0
  {
    DivModUnique(i * d, d, i, 0);
  }

  /** An aligned base plus any multiple of an aligned stride stays aligned. */
  lemma AlignedStride(f: nat, a: nat, i: nat, size: nat)
    requires a > 0 && f % a == 0 && size % a == 0
    ensures (f + i * size) % a == 0
  {
    var m, n := f / a, size / a;
    assert f == a * m;
    assert size == a * n;
    assert i * size == a * (i * n);
    DivModUnique(f + i * size, a, m + i * n, 0);
  }

  /** Writing x as 2q + r and q as b*m + s gives x mod 2b as 2s + r. */
  lemma ModOfDouble(x: nat, b: nat)
    requires b > 0
    ensures x % (2 * b) == 2 * ((x / 2) % b) + x % 2
  {
    var q, r := x / 2, x % 2;
    var m, s := q / b, q % b;
    assert q == b * m + s;
    assert x == 2 * q + r;
    assert 2 * q == (2 * b) * m + 2 * s;
    DivModUnique(x, 2 * b, m, 2 * s + r);
  }

  /** For a power of two a, masking with a - 1 keeps the remainder modulo a. */
  lemma {:induction false} MaskIsMod(x: nat, a: nat)
    requires IsPow2(a)
    ensures BitAnd(x, a - 1) == x % a
    decreases a
  {
    if a == 1 {
    } else if x == 0 {
    } else {
      var b := a / 2;
      assert a - 1 == 2 * (b - 1) + 1;
      assert (a - 1) / 2 == b - 1 && (a - 1) % 2 == 1;
      MaskIsMod(x / 2, b);
      ModOfDouble(x, b);
    }
  }

  /** The powers of two below 2^k are 2^0 .. 2^(k-1). */
  lemma {:induction false} PowersBelow(x: nat, k: nat)
    requires IsPow2(x) && x < Pow2(k)
    ensures exists j: nat :: j < k && x == Pow2(j)
  {
    if x == 1 {
      assert x == Pow2(0);
    } else {
      PowersBelow(x / 2, k - 1);
      var j: nat :| j < k - 1 && x / 2 == Pow2(j);
      assert x == Pow2(j + 1);
    }
  }

  /**
   * The constructor's check on its alignment argument: nonzero and
   * `alignment & (alignment - 1) == 0`. It accepts exactly the powers of two.
   */
  predicate IsValidAlignment(alignment: uint8)
    ensures IsValidAlignment(alignment) <==> IsPow2(alignment as nat)
  {
    if alignment == 0 then false
    else
      PowerOfTwoTest(alignment as nat);
      BitAnd(alignment as nat, (alignment - 1) as nat) == 0
  }

  /** The powers of two an 8-bit alignment can hold. */
  const AlignmentValues: set<uint8> := {1, 2, 4, 8, 16, 32, 64, 128}

  /** Held in 8 bits, a valid alignment is one of 1, 2, 4, ..., 128. */
  lemma ValidAlignments(alignment: uint8)
    ensures IsValidAlignment(alignment) <==> exists j: nat :: j < 8 && alignment as nat == Pow2(j)
    ensures IsValidAlignment(alignment) <==> alignment in AlignmentValues
  {
    assert Pow2(8) == 256 by {
      assert Pow2(1) == 2 && Pow2(2) == 4 && Pow2(3) == 8 && Pow2(4) == 16;
      assert Pow2(5) == 32 && Pow2(6) == 64 && Pow2(7) == 128;
    }
    if IsPow2(alignment as nat) {
      PowersBelow(alignment as nat, 8);
    }
    assert IsPow2(1) && IsPow2(2) && IsPow2(4) && IsPow2(8);
    assert IsPow2(16) && IsPow2(32) && IsPow2(64) && IsPow2(128);
  }

  /** `raw & (alignment - 1)`: how far raw lies past the previous aligned address. */
  function Misalignment(raw: nat, alignment: nat): (m: nat)
    requires IsPow2(alignment)
    ensures m == raw % alignment
    ensures m < alignment
  {
    MaskIsMod(raw, alignment);
    BitAnd(raw, alignment - 1)
  }

  /**
   * `alignment - (raw & (alignment - 1))`: the bytes from raw to the first
   * aligned address strictly after it. An already aligned raw address is moved
   * by a whole alignment, never by zero.
   */
  function Adjustment(raw: nat, alignment: nat): (adj: nat)
    requires IsPow2(alignment)
    ensures 1 <= adj <= alignment
    ensures (raw + adj) % alignment == 0
    ensures raw % alignment == 0 <==> adj == alignment
  {
    var adj := alignment - Misalignment(raw, alignment);
    assert raw == alignment * (raw / alignment) + raw % alignment;
    assert raw + adj == alignment * (raw / alignment) + alignment;
    assert alignment * (raw / alignment) + alignment == alignment * (raw / alignment + 1);
    DivModUnique(raw + adj, alignment, raw / alignment + 1, 0);
    adj
  }
}
