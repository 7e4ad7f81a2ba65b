/** The 32-bit semantics of JavaScript's bitwise operators, on plain integers.

    JavaScript converts both operands of `|`, `<<` and `>>` to a signed 32-bit integer and
    takes a shift count modulo 32. A 32-bit pattern is kept here in its unsigned view
    (a `U32`); `ToSigned` reads it back as the number the program sees. */
module Int32 {

  const TwoTo31: int := 0x8000_0000
  const TwoTo32: int := 0x1_0000_0000
  const Width: nat := 32

  /** An unsigned view of a 32-bit pattern. */
  type U32 = x: nat | x < TwoTo32

  function Pow2(n: nat): (r: nat)
    ensures r >= 1
  {
    if n == 0 then 1 else 2 * Pow2(n - 1)
  }

  lemma {:induction false} Pow2Add(a: nat, b: nat)
    ensures Pow2(a + b) == Pow2(a) * Pow2(b)
  {
    if b > 0 {
      Pow2Add(a, b - 1);
      assert Pow2(a + b) == 2 * Pow2(a + b - 1);
    }
  }

  lemma {:induction false} Pow2Monotone(a: nat, b: nat)
    requires a <= b
    ensures Pow2(a) <= Pow2(b)
  {
    if a < b {
      Pow2Monotone(a, b - 1);
    }
  }

  lemma Pow2Of32()
    ensures Pow2(32) == TwoTo32
  {
    assert Pow2(8) == 256;
    Pow2Add(8, 8);
    Pow2Add(16, 16);
  }

  /** Bitwise OR of the low `n` bits of `a` and `b`, least significant bit first. */
  function BitOr(a: nat, b: nat, n: nat): (r: nat)
    ensures r < Pow2(n)
  {
    if n == 0 then 0
    else 2 * BitOr(a / 2, b / 2, n - 1) + (if a % 2 == 1 || b % 2 == 1 then 1 else 0)
  }

  /** `a | b` on 32-bit patterns. */
  function Or(a: U32, b: U32): (r: U32)
  {
    Pow2Of32();
    BitOr(a, b, Width)
  }

  /** The bit pattern of JavaScript's `x << s`: the count is taken modulo 32 and the bits
      shifted past position 31 are lost. */
  function Shl(x: nat, s: nat): U32
  {
    Doubled(x, s % 32)
  }

  /** `x` doubled `n` times, keeping 32 bits after each doubling. */
  function Doubled(x: nat, n: nat): U32
  {
    if n == 0 then x % TwoTo32 else (2 * Doubled(x, n - 1)) % TwoTo32
  }

  /** The number a JavaScript bitwise operator yields for a 32-bit pattern. */
  function ToSigned(u: U32): (r: int)
    ensures -TwoTo31 <= r < TwoTo31
    ensures u < TwoTo31 ==> r == u
  {
    if u < TwoTo31 then u else u - TwoTo32
  }

  /** JavaScript's `x >> 2` on a signed 32-bit value: an arithmetic shift, that is a floor
      division by four (Dafny's `/` by a positive divisor rounds down). */
  function Sar2(x: int): (r: int)
    ensures 4 * r <= x < 4 * r + 4
  {
    x / 4
  }

  lemma {:induction false} OrWithZero(b: nat, n: nat)
    requires b < Pow2(n)
    ensures BitOr(0, b, n) == b && BitOr(b, 0, n) == b
  {
    if n > 0 {
      OrWithZero(b / 2, n - 1);
    }
  }

  lemma {:induction false} ShlZero(s: nat)
    ensures Shl(0, s) == 0
  {
    DoubledZero(s % 32);
  }

  lemma {:induction false} DoubledZero(n: nat)
    ensures Doubled(0, n) == 0
  {
    if n > 0 {
      DoubledZero(n - 1);
    }
  }

  lemma DoubleMod(a: nat)
    ensures (2 * (a % TwoTo32)) % TwoTo32 == (2 * a) % TwoTo32
  {
    var q, r := a / TwoTo32, a % TwoTo32;
    assert 2 * a == 2 * r + (2 * q) * TwoTo32;
    ModMultiple(2 * r, 2 * q);
  }

  lemma ModMultiple(r: nat, q: nat)
    ensures (r + q * TwoTo32) % TwoTo32 == r % TwoTo32
  {
    var x := r + q * TwoTo32;
    assert x == (r / TwoTo32 + q) * TwoTo32 + r % TwoTo32;
  }

  /** `x << s` is `x * 2^(s mod 32)` reduced modulo 2^32. */
  lemma {:induction false} ShlIsProduct(x: nat, s: nat)
    ensures Shl(x, s) == (x * Pow2(s % 32)) % TwoTo32
  {
    DoubledIsProduct(x, s % 32);
  }

  lemma {:induction false} DoubledIsProduct(x: nat, n: nat)
    ensures Doubled(x, n) == (x * Pow2(n)) % TwoTo32
  {
    if n > 0 {
      var a := x * Pow2(n - 1);
      DoubledIsProduct(x, n - 1);
      assert x * Pow2(n) == 2 * a;
      DoubleMod(a);
    }
  }

  /** While the product fits in 32 bits nothing is lost. */
  lemma {:induction false} DoubledNoWrap(x: nat, n: nat)
    requires x * Pow2(n) < TwoTo32
    ensures Doubled(x, n) == x * Pow2(n)
  {
    if n > 0 {
      var a := x * Pow2(n - 1);
      assert x * Pow2(n) == 2 * a;
      DoubledNoWrap(x, n - 1);
    }
  }

  lemma OrZeroRight(a: U32)
    ensures Or(a, 0) == a
  {
    Pow2Of32();
    OrWithZero(a, Width);
  }

  lemma HalveMultiple(q: nat, p: nat)
    ensures (q * (2 * p)) % 2 == 0 && (q * (2 * p)) / 2 == q * p
  {
    assert q * (2 * p) == 2 * (q * p);
  }

  /** OR of a value below 2^s with a multiple of 2^s is their sum: the bits do not overlap. */
  lemma {:induction false} OrDisjoint(a: nat, q: nat, s: nat, n: nat)
    requires a < Pow2(s) && q * Pow2(s) < Pow2(n) && s <= n
    ensures BitOr(a, q * Pow2(s), n) == a + q * Pow2(s)
  {
    if s == 0 {
      OrWithZero(q * Pow2(s), n);
    } else {
      HalveMultiple(q, Pow2(s - 1));
      OrDisjoint(a / 2, q, s - 1, n - 1);
    }
  }
}
