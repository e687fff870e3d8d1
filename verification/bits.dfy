/** Unsigned machine integers and the bitwise operations the renderer uses,
    stated on unbounded naturals. */
module Bits {
  import opened Wrappers

  const U32_MAX: nat := 0xFFFF_FFFF
  const U64_MAX: nat := 0xFFFF_FFFF_FFFF_FFFF

  predicate IsU32(x: int) { 0 <= x <= U32_MAX }

  /** A `u8`. */
  type Byte = x: nat | x < 256

  const U8_MAX: Byte := 255

  /** `u32` arithmetic as a debug build executes it: `None` where the source panics. */
  function CheckedAdd(a: nat, b: nat): (r: Option<nat>)
    ensures r.Some? <==> a + b <= U32_MAX
    ensures r.Some? ==> r.value == a + b
  {
    if a + b <= U32_MAX then Some(a + b) else None
  }

  function CheckedSub(a: nat, b: nat): (r: Option<nat>)
    ensures r.Some? <==> b <= a
    ensures r.Some? ==> r.value + b == a
  {
    if b <= a then Some(a - b) else None
  }

  function CheckedMul(a: nat, b: nat): (r: Option<nat>)
    ensures r.Some? <==> a * b <= U32_MAX
    ensures r.Some? ==> r.value == a * b
  {
    if a * b <= U32_MAX then Some(a * b) else None
  }

  function Pow2(k: nat): (r: nat)
    ensures r >= 1
  {
    if k == 0 then 1 else 2 * Pow2(k - 1)
  }

  ghost predicate IsPowerOfTwo(a: nat) { exists k: nat :: Pow2(k) == a }

  lemma {:induction false} Pow2Add(a: nat, b: nat)
    ensures Pow2(a + b) == Pow2(a) * Pow2(b)
    decreases a
  {
    if a > 0 {
      Pow2Add(a - 1, b);
    }
  }

  lemma Pow2Of32()
    ensures Pow2(32) == U32_MAX + 1
  {
    assert Pow2(4) == 16;
    Pow2Add(4, 4);
    Pow2Add(8, 8);
    Pow2Add(16, 16);
  }

  /** Bitwise AND of two naturals, one binary digit at a time. */
  function BitAnd(x: nat, y: nat): nat
    decreases x
  {
    if x == 0 || y == 0 then 0
    else 2 * BitAnd(x / 2, y / 2) + (if x % 2 == 1 && y % 2 == 1 then 1 else 0)
  }

  lemma {:induction false} BitAndLe(x: nat, y: nat)
    ensures BitAnd(x, y) <= x
    decreases x
  {
    if x != 0 && y != 0 {
      BitAndLe(x / 2, y / 2);
    }
  }

  /** Bitwise NOT of a 32-bit value. */
  function NotU32(m: nat): nat
    requires m <= U32_MAX
  {
    U32_MAX - m
  }

  lemma MulMonotone(k: int, d: int)
    requires d > 0
    ensures k >= 1 ==> k * d >= d
    ensures k <= -1 ==> k * d <= -d
  {
    if k >= 1 {
      assert k * d == (k - 1) * d + d;
    } else if k <= -1 {
      assert k * d == (k + 1) * d - d;
    }
  }

  /** Multiplication as repeated addition.  Byte-layout proofs use it so that the
      solver reasons about sizes linearly, one lemma step at a time. */
  function Mul(a: nat, b: nat): nat {
    if a == 0 then 0 else Mul(a - 1, b) + b
  }

  lemma {:induction false} MulIsProduct(a: nat, b: nat)
    ensures Mul(a, b) == a * b
  {
    if a > 0 {
      MulIsProduct(a - 1, b);
      MulSucc(a - 1, b);
    }
  }

  lemma {:induction false} MulAdd(a: nat, c: nat, b: nat)
    ensures Mul(a, b) + Mul(c, b) == Mul(a + c, b)
    decreases c
  {
    if c > 0 {
      MulAdd(a, c - 1, b);
    }
  }

  lemma MulMono(a: nat, c: nat, b: nat)
    requires a <= c
    ensures Mul(a, b) <= Mul(c, b)
  {
    MulAdd(a, c - a, b);
  }

  lemma MulSucc(a: int, b: int)
    ensures (a + 1) * b == a * b + b
  {
  }

  lemma MulMonoLe(a: int, c: int, b: int)
    requires a <= c && b >= 0
    ensures a * b <= c * b
  {
    assert c * b - a * b == (c - a) * b;
    MulNonNeg(c - a, b);
  }

  lemma MulNonNeg(a: int, b: int)
    requires a >= 0 && b >= 0
    ensures a * b >= 0
  {
  }

  lemma ModAddMultiple(x: nat, y: nat, b: nat)
    requires b > 0 && x % b == 0 && y % b == 0
    ensures (x + y) % b == 0
  {
    assert x == (x / b) * b && y == (y / b) * b;
    assert x + y == (x / b + y / b) * b;
    ModUnique(x + y, b, x / b + y / b, 0);
  }

  /** Euclidean division is unique: a decomposition x == q*d + r with 0 <= r < d
      is the one `/` and `%` compute. */
  lemma ModUnique(x: int, d: int, q: int, r: int)
    requires d > 0 && 0 <= r < d && x == q * d + r
    ensures x % d == r && x / d == q
  {
    var q', r' := x / d, x % d;
    assert (q - q') * d == r' - r;
    MulMonotone(q - q', d);
  }

  lemma {:induction false} Pow2Mono(k: nat, n: nat)
    requires k <= n
    ensures Pow2(k) <= Pow2(n)
    decreases n
  {
    if k < n {
      Pow2Mono(k, n - 1);
    }
  }

  /** `x % 2^k` is the low k bits: the low bit of x followed by the low k-1 bits of x/2. */
  lemma {:induction false} ModPow2Step(x: nat, k: nat)
    requires k > 0
    ensures x % Pow2(k) == 2 * ((x / 2) % Pow2(k - 1)) + x % 2
  {
    var p := Pow2(k - 1);
    var q := x / 2;
    assert x == 2 * q + x % 2;
    assert q == (q / p) * p + q % p;
    assert x == (q / p) * (2 * p) + (2 * (q % p) + x % 2);
    ModUnique(x, 2 * p, q / p, 2 * (q % p) + x % 2);
  }

  /** ANDing with a mask of the low n bits keeps a value below 2^n. */
  lemma {:induction false} BitAndLowMask(x: nat, n: nat)
    requires x < Pow2(n)
    ensures BitAnd(x, Pow2(n) - 1) == x
  {
    if x == 0 {
    } else {
      assert n > 0;
      var m := Pow2(n) - 1;
      assert m % 2 == 1 && m / 2 == Pow2(n - 1) - 1;
      BitAndLowMask(x / 2, n - 1);
    }
  }

  /** ANDing a value below 2^n with the mask of bits k..n-1 clears its low k bits. */
  lemma {:induction false} BitAndHighMask(x: nat, n: nat, k: nat)
    requires k <= n && x < Pow2(n)
    ensures Pow2(k) <= Pow2(n)
    ensures BitAnd(x, Pow2(n) - Pow2(k)) == x - x % Pow2(k)
    decreases k, 1
  {
    Pow2Mono(k, n);
    if k == 0 {
      BitAndLowMask(x, n);
    } else if x == 0 || k == n {
      HighMaskWhole(x, n, k);
    } else {
      HighMaskHalf(x, n, k);
    }
  }

  /** The inductive case of BitAndHighMask: the claim for x/2 and bits k-1..n-2. */
  lemma {:induction false} HighMaskHalf(x: nat, n: nat, k: nat)
    requires 0 < k < n && 0 < x < Pow2(n)
    ensures Pow2(k) <= Pow2(n)
    ensures BitAnd(x, Pow2(n) - Pow2(k)) == x - x % Pow2(k)
    decreases k, 0
  {
    var h, n1, k1 := x / 2, n - 1, k - 1;
    HalfBelow(x, n);
    BitAndHighMask(h, n1, k1);
    HighMaskStep(x, n, k, h, n1, k1);
  }

  /** With no bits above the mask's, or nothing to clear, the mask clears all of x. */
  lemma HighMaskWhole(x: nat, n: nat, k: nat)
    requires 0 < k <= n && x < Pow2(n) && (x == 0 || k == n) && Pow2(k) <= Pow2(n)
    ensures BitAnd(x, Pow2(n) - Pow2(k)) == x - x % Pow2(k)
  {
    ModUnique(x, Pow2(k), 0, x);
  }

  lemma HalfBelow(x: nat, n: nat)
    requires 0 < n && x < Pow2(n)
    ensures x / 2 < Pow2(n - 1)
  {
  }

  /** One bit of the induction: the mask of bits k..n-1 is twice the mask of bits
      k-1..n-2, so it clears the low bit of x and the low k-1 bits of x/2. */
  lemma HighMaskStep(x: nat, n: nat, k: nat, h: nat, n1: nat, k1: nat)
    requires 0 < k < n && 0 < x && h == x / 2 && n1 == n - 1 && k1 == k - 1
    requires Pow2(k1) <= Pow2(n1)
    requires BitAnd(h, Pow2(n1) - Pow2(k1)) == h - h % Pow2(k1)
    ensures Pow2(k) <= Pow2(n)
    ensures BitAnd(x, Pow2(n) - Pow2(k)) == x - x % Pow2(k)
  {
    var p, q := Pow2(k1), Pow2(n1);
    var pk, pn := Pow2(k), Pow2(n);
    assert pk == 2 * p && pn == 2 * q;
    Pow2Mono(k, n1);
    BitAndEvenMask(x, pn - pk, q - p);
    ModPow2Step(x, k);
    HalvingArith(x, h, x % 2, h % p, BitAnd(h, q - p), BitAnd(x, pn - pk), x % pk);
  }

  /** The linear step behind HighMaskStep, on plain numbers. */
  lemma HalvingArith(x: int, h: int, lo: int, hm: int, a: int, b: int, m: int)
    requires x == 2 * h + lo && a == h - hm && b == 2 * a && m == 2 * hm + lo
    ensures b == x - m
  {
  }

  /** ANDing with an even mask clears the low bit and ANDs the rest. */
  lemma BitAndEvenMask(x: nat, m: nat, half: nat)
    requires m == 2 * half && x > 0 && half > 0
    ensures BitAnd(x, m) == 2 * BitAnd(x / 2, half)
  {
    assert m % 2 == 0 && m / 2 == half;
  }

  /** The 32-bit mask `!(a - 1)` of a power of two `a` clears the low bits of a `u32`. */
  lemma MaskU32(x: nat, k: nat)
    requires x <= U32_MAX && Pow2(k) <= U32_MAX
    ensures BitAnd(x, NotU32(Pow2(k) - 1)) == x - x % Pow2(k)
  {
    Pow2Of32();
    if k >= 32 {
      Pow2Mono(32, k);
    }
    BitAndHighMask(x, 32, k);
  }

  /** Rust's `contains` on a flag set: every bit of `flag` is set in `flags`. */
  predicate Contains(flags: nat, flag: nat) { BitAnd(flags, flag) == flag }

  /** A single-bit flag is contained exactly when that bit of the set is one. */
  lemma {:induction false} ContainsBit(flags: nat, b: nat)
    ensures Contains(flags, Pow2(b)) <==> (flags / Pow2(b)) % 2 == 1
  {
    if b == 0 {
      if flags != 0 {
        assert BitAnd(flags / 2, 0) == 0;
      }
    } else if flags == 0 {
      assert flags / Pow2(b) == 0;
    } else {
      assert Pow2(b) % 2 == 0 && Pow2(b) / 2 == Pow2(b - 1);
      ContainsBit(flags / 2, b - 1);
      assert flags / Pow2(b) == (flags / 2) / Pow2(b - 1) by { DivDiv(flags, Pow2(b - 1)); }
    }
  }

  lemma DivDiv(x: nat, p: nat)
    requires p > 0
    ensures x / (2 * p) == (x / 2) / p
  {
    var q := (x / 2) / p;
    var r := (x / 2) % p;
    assert x / 2 == q * p + r;
    assert x == q * (2 * p) + (2 * r + x % 2);
    ModUnique(x, 2 * p, q, 2 * r + x % 2);
  }

  const I32_MIN: int := -0x8000_0000
  const I32_MAX: int := 0x7FFF_FFFF

  /** Rust's `as i32` on an integer: keep the low 32 bits and read them as two's
      complement. */
  function AsI32(x: int): (r: int)
    ensures I32_MIN <= r <= I32_MAX
    ensures (x - r) % (U32_MAX + 1) == 0
    ensures I32_MIN <= x <= I32_MAX ==> r == x
  {
    var low := x % (U32_MAX + 1);
    if low <= I32_MAX then low
    else low - (U32_MAX + 1)
  }

  /** Rust's `as u32` on an unsigned value: keep the low 32 bits. */
  function AsU32(x: nat): (r: nat)
    ensures r <= U32_MAX
    ensures (x - r) % (U32_MAX + 1) == 0
    ensures x <= U32_MAX ==> r == x
  {
    x % (U32_MAX + 1)
  }
}
