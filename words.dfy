/** Fixed-width C integers: `unsigned int` arithmetic modulo 2^32, the bitwise
    AND that the page-alignment mask uses, and the conversion between
    `unsigned int` and `int` that bootmgr.c performs when it stores a size
    through an `int*` and reads it back into an `unsigned int`. */
module Words {

  const TWO32: int := 0x1_0000_0000
  const TWO64: int := 0x1_0000_0000_0000_0000

  /** C `unsigned int` (32 bits). */
  type u32 = x: int | 0 <= x < 0x1_0000_0000

  /** C `int` (32 bits, two's complement). */
  type i32 = x: int | -0x8000_0000 <= x < 0x8000_0000

  function Min(a: int, b: int): int { if a <= b then a else b }

  function Pow2(k: nat): (r: nat)
    ensures r >= 1
  {
    if k == 0 then 1 else 2 * Pow2(k - 1)
  }

  /** `a + b` on `unsigned int`: the sum, less 2^32 when it overflows. */
  function Add(a: u32, b: u32): (r: u32)
    ensures a + b < TWO32 ==> r == a + b
    ensures a + b >= TWO32 ==> r == a + b - TWO32
  {
    DivModUnique(a + b, TWO32, if a + b < TWO32 then 0 else 1,
                 if a + b < TWO32 then a + b else a + b - TWO32);
    (a + b) % TWO32
  }

  /** `a - b` on `unsigned int`: the difference, plus 2^32 when it would be
      negative (Dafny's `%` is Euclidean, so this wraps like C). */
  function Sub(a: u32, b: u32): (r: u32)
    ensures a >= b ==> r == a - b
    ensures a < b ==> r == a - b + TWO32
  {
    DivModUnique(a - b, TWO32, if a >= b then 0 else -1,
                 if a >= b then a - b else a - b + TWO32);
    (a - b) % TWO32
  }

  /** Unary `-a` on `unsigned int`: the value that added to `a` gives 0. */
  function Neg(a: u32): (r: u32)
    ensures a == 0 ==> r == 0
    ensures a > 0 ==> r == TWO32 - a
    ensures Add(a, r) == 0
  {
    DivModUnique(0 - a, TWO32, if a == 0 then 0 else -1, if a == 0 then 0 else TWO32 - a);
    (0 - a) % TWO32
  }

  /** Bitwise AND of two non-negative integers, one bit at a time from the
      least significant end. */
  function And(a: nat, b: nat): (r: nat)
    ensures r <= a && r <= b
    decreases a
  {
    if a == 0 || b == 0 then 0
    else 2 * And(a / 2, b / 2) + (if a % 2 == 1 && b % 2 == 1 then 1 else 0)
  }

  lemma {:induction false} MulAtLeast(a: nat, b: nat)
    requires a >= 1
    ensures a * b >= b
  {
    if a > 1 {
      MulAtLeast(a - 1, b);
      assert a * b == (a - 1) * b + b;
    }
  }

  /** Euclidean division is unique: the quotient and remainder of `x` by `d`
      are the only `t`, `u` with `x == d * t + u` and `0 <= u < d`. */
  lemma DivModUnique(x: int, d: int, t: int, u: int)
    requires d > 0 && 0 <= u < d && x == d * t + u
    ensures x / d == t && x % d == u
  {
    var q, r := x / d, x % d;
    assert x == d * q + r;
    assert d * (q - t) == d * q - d * t;
    assert (q - t) * d == u - r;
    if q > t {
      MulAtLeast(q - t, d);
    } else if q < t {
      MulAtLeast(t - q, d);
    }
  }

  /** Removing the lowest bit: `x mod 2m` is rebuilt from `(x / 2) mod m`
      and the lowest bit of `x`. */
  lemma ModDouble(x: nat, m: nat)
    requires m >= 1
    ensures x % (2 * m) == 2 * ((x / 2) % m) + x % 2
    ensures (x % (2 * m)) / 2 == (x / 2) % m
    ensures (x % (2 * m)) % 2 == x % 2
  {
    var q, b := x / 2, x % 2;
    var t, s := q / m, q % m;
    assert x == 2 * m * t + (2 * s + b);
    DivModUnique(x, 2 * m, t, 2 * s + b);
  }

  /** One step of `And` for positive operands. */
  lemma AndStep(a: nat, b: nat)
    requires a > 0 && b > 0
    ensures And(a, b) == 2 * And(a / 2, b / 2) + (if a % 2 == 1 && b % 2 == 1 then 1 else 0)
  {
  }

  /** One bit of `AndLowMask`: if the bits of `x` above the lowest AND with
      `m - 1` to their remainder modulo `m`, `x` ANDs with `2m - 1` to its
      remainder modulo `2m`. */
  lemma AndLowMaskStep(x: nat, m: nat, mask: nat, d: nat)
    requires m >= 1 && d == 2 * m && mask == d - 1 && x > 0
    requires And(x / 2, m - 1) == (x / 2) % m
    ensures And(x, mask) == x % d
  {
    assert mask / 2 == m - 1 && mask % 2 == 1;
    AndStep(x, mask);
    ModDouble(x, m);
  }

  /** The mask trick: ANDing with `2^k - 1` keeps the low `k` bits, which is
      the remainder modulo `2^k`. */
  lemma {:induction false} AndLowMask(x: nat, k: nat)
    ensures And(x, Pow2(k) - 1) == x % Pow2(k)
  {
    if k == 0 {
      DivModUnique(x, 1, x, 0);
    } else if x == 0 {
      DivModUnique(0, Pow2(k), 0, 0);
    } else {
      AndLowMask(x / 2, k - 1);
      AndLowMaskStep(x, Pow2(k - 1), Pow2(k) - 1, Pow2(k));
    }
  }

  /** `And(x, m) == And(y, m)` follows from the lowest bits of `x` and `y`
      agreeing and the rest of them ANDing alike with `m / 2`. */
  lemma AndSameLowBit(x: nat, y: nat, m: nat)
    requires x > 0 && m > 0 && x % 2 == y % 2
    requires And(x / 2, m / 2) == And(y / 2, m / 2)
    ensures And(x, m) == And(y, m)
  {
    AndStep(x, m);
    if y == 0 {
      assert And(y / 2, m / 2) == 0;
    } else {
      AndStep(y, m);
    }
  }

  /** One bit of `AndLowBits`: if the bits of `x` above the lowest AND with
      `m / 2` as their remainder modulo `p` does, `x` ANDs with `m` as its
      remainder modulo `2 * p` does. */
  lemma AndLowBitsStep(x: nat, m: nat, p: nat, d: nat)
    requires p >= 1 && d == 2 * p && x > 0 && m > 0
    requires And(x / 2, m / 2) == And((x / 2) % p, m / 2)
    ensures And(x, m) == And(x % d, m)
  {
    ModDouble(x, p);
    AndSameLowBit(x, x % d, m);
  }

  /** ANDing with a mask below `2^k` only looks at the low `k` bits of `x`:
      this is what makes a 64-bit AND followed by truncation to 32 bits equal
      to the 32-bit AND. */
  lemma {:induction false} AndLowBits(x: nat, m: nat, k: nat)
    requires m < Pow2(k)
    ensures And(x, m) == And(x % Pow2(k), m)
  {
    if k == 0 {
      assert m == 0;
    } else if m == 0 {
    } else if x == 0 {
      DivModUnique(0, Pow2(k), 0, 0);
    } else {
      AndLowBits(x / 2, m / 2, k - 1);
      AndLowBitsStep(x, m, Pow2(k - 1), Pow2(k));
    }
  }

  lemma {:induction false} Pow2Add(a: nat, b: nat)
    ensures Pow2(a + b) == Pow2(a) * Pow2(b)
  {
    if a > 0 {
      Pow2Add(a - 1, b);
    }
  }

  lemma Pow2Is2To32()
    ensures Pow2(32) == TWO32
  {
    assert Pow2(4) == 16;
    Pow2Add(4, 4);
    Pow2Add(8, 8);
    Pow2Add(16, 16);
  }

  /** `(int)x` for an `unsigned int` x: values from 2^31 up become negative
      (the two's complement conversion the usual compilers perform). */
  function ToSigned(x: u32): (v: i32)
    ensures v < 0 <==> x >= 0x8000_0000
    ensures v == x || v == x - TWO32
  {
    if x < 0x8000_0000 then x else x - TWO32
  }

  /** `(unsigned int)v` for an `int` v: reduction modulo 2^32. */
  function FromSigned(v: i32): (x: u32)
    ensures v >= 0 ==> x == v
    ensures v < 0 ==> x == v + TWO32
  {
    DivModUnique(v, TWO32, if v >= 0 then 0 else -1, if v >= 0 then v else v + TWO32);
    v % TWO32
  }

  /** Storing an `unsigned int` into an `int` and reading it back into an
      `unsigned int` gives the same value, and the other way round. */
  lemma SignedRoundTrip(x: u32, v: i32)
    ensures FromSigned(ToSigned(x)) == x
    ensures ToSigned(FromSigned(v)) == v
  {
  }
}
