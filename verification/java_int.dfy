/**
 * Java's 32-bit `int`: two's-complement wrap-around of `+`, `-` and `*`,
 * and bitwise `^`, written out over Dafny's unbounded integers.
 */
module JavaInt {

  const Modulus: int := 0x1_0000_0000
  const MinValue: int := -0x8000_0000
  const MaxValue: int := 0x7fff_ffff

  type Int32 = x: int | MinValue <= x <= MaxValue

  /** The `int` a Java expression yields when its exact value is `x`. */
  function Wrap(x: int): (r: Int32)
    ensures (r - x) % Modulus == 0
    ensures MinValue <= x <= MaxValue ==> r == x
  {
    (x - MinValue) % Modulus + MinValue
  }

  /** Two exact values wrap to the same `int` iff they are congruent modulo 2^32. */
  lemma WrapEqualIff(x: int, y: int)
    ensures Wrap(x) == Wrap(y) <==> (x - y) % Modulus == 0
  {
    var q1 := (x - MinValue) / Modulus;
    var q2 := (y - MinValue) / Modulus;
    assert x - MinValue == q1 * Modulus + (x - MinValue) % Modulus;
    assert y - MinValue == q2 * Modulus + (y - MinValue) % Modulus;
    if Wrap(x) == Wrap(y) {
      assert x - y == (q1 - q2) * Modulus;
    }
    if (x - y) % Modulus == 0 {
      var k := (x - y) / Modulus;
      assert x - y == k * Modulus;
      ModOfShift(y - MinValue, k);
      assert x - MinValue == (y - MinValue) + k * Modulus;
    }
  }

  lemma ModOfShift(a: int, k: int)
    ensures (a + k * Modulus) % Modulus == a % Modulus
  {
    var q := a / Modulus;
    var r := a % Modulus;
    assert a + k * Modulus == (q + k) * Modulus + r;
  }

  /** 2 to the power `w`. */
  function Pow2(w: nat): (r: nat)
    ensures r > 0
  {
    if w == 0 then 1 else 2 * Pow2(w - 1)
  }

  /** The bitwise exclusive or of the low `w` bits of `a` and `b`. */
  function XorBits(a: nat, b: nat, w: nat): (r: nat)
    ensures r < Pow2(w)
  {
    if w == 0 then 0
    else (if a % 2 != b % 2 then 1 else 0) + 2 * XorBits(a / 2, b / 2, w - 1)
  }

  /** Exclusive or with the same operand twice gives back the first operand. */
  lemma {:induction false} XorBitsCancel(a: nat, b: nat, w: nat)
    requires a < Pow2(w)
    ensures XorBits(XorBits(a, b, w), b, w) == a
  {
    if w > 0 {
      var rest := XorBits(a / 2, b / 2, w - 1);
      var r := XorBits(a, b, w);
      assert r % 2 == (if a % 2 != b % 2 then 1 else 0) && r / 2 == rest;
      XorBitsCancel(a / 2, b / 2, w - 1);
    }
  }

  lemma {:induction false} Pow2Add(a: nat, b: nat)
    ensures Pow2(a + b) == Pow2(a) * Pow2(b)
  {
    if a > 0 {
      Pow2Add(a - 1, b);
    }
  }

  lemma Pow2Of32()
    ensures Pow2(32) == Modulus
  {
    assert Pow2(2) == 4;
    Pow2Add(2, 2);
    Pow2Add(4, 4);
    Pow2Add(8, 8);
    Pow2Add(16, 16);
  }

  /** The bit pattern of an `int`, read as an unsigned number. */
  function Unsigned(x: Int32): (r: nat)
    ensures r < Modulus && Wrap(r) == x
  {
    WrapEqualIff(x % Modulus, x);
    x % Modulus
  }

  /** Java's `a ^ b` on `int`. */
  function Xor(a: Int32, b: Int32): Int32 {
    Pow2Of32();
    Wrap(XorBits(Unsigned(a), Unsigned(b), 32))
  }

  lemma UnsignedOfWrap(u: nat)
    requires u < Modulus
    ensures Unsigned(Wrap(u)) == u
  {
    WrapEqualIff(Wrap(u), u);
    var w := Wrap(u);
    var q := (w - u) / Modulus;
    assert w - u == q * Modulus;
    assert w % Modulus == u;
  }

  /** `(a ^ b) ^ b == a`: the other operand of an exclusive or is recoverable. */
  lemma XorCancel(a: Int32, b: Int32)
    ensures Xor(Xor(a, b), b) == a
  {
    Pow2Of32();
    var u := XorBits(Unsigned(a), Unsigned(b), 32);
    UnsignedOfWrap(u);
    XorBitsCancel(Unsigned(a), Unsigned(b), 32);
  }

  /** Exclusive or does not depend on the order of its operands. */
  lemma {:induction false} XorBitsCommutes(a: nat, b: nat, w: nat)
    ensures XorBits(a, b, w) == XorBits(b, a, w)
  {
    if w > 0 {
      XorBitsCommutes(a / 2, b / 2, w - 1);
    }
  }

  lemma XorCommutes(a: Int32, b: Int32)
    ensures Xor(a, b) == Xor(b, a)
  {
    XorBitsCommutes(Unsigned(a), Unsigned(b), 32);
  }

  /**
   * Multiplication by a constant `k` that has an inverse `inv` modulo 2^32
   * (every odd constant does; `k * inv` is `m` times 2^32 plus one) loses no
   * information: equal wrapped products mean equal factors.
   */
  lemma MulInjective(k: int, inv: int, m: int, a: Int32, b: Int32)
    requires k * inv == m * Modulus + 1
    requires Wrap(k * a) == Wrap(k * b)
    ensures a == b
  {
    WrapEqualIff(k * a, k * b);
    var q := (k * a - k * b) / Modulus;
    assert k * a - k * b == k * (a - b);
    InverseCancels(k, inv, m, q, a - b);
    SmallMultipleIsZero(a - b, inv * q - m * (a - b));
  }

  /** With `k * inv` one more than a multiple of the modulus, a multiple `k * x` of it makes `x` one too. */
  lemma InverseCancels(k: int, inv: int, m: int, q: int, x: int)
    requires k * inv == m * Modulus + 1
    requires k * x == q * Modulus
    ensures x == (inv * q - m * x) * Modulus
  {
    calc {
      x;
      (k * inv - m * Modulus) * x;
      inv * (k * x) - m * Modulus * x;
      inv * (q * Modulus) - m * Modulus * x;
      (inv * q - m * x) * Modulus;
    }
  }

  /** The only multiple of the modulus strictly between minus it and it is zero. */
  lemma SmallMultipleIsZero(x: int, d: int)
    requires x == d * Modulus && -Modulus < x < Modulus
    ensures x == 0
  {
  }

  /** A hash of the form `k * a ^ y`, with `k` invertible, determines `a` once `y` is fixed. */
  lemma MulXorInjective(k: int, inv: int, m: int, a1: Int32, a2: Int32, y: Int32)
    requires k * inv == m * Modulus + 1
    requires Xor(Wrap(k * a1), y) == Xor(Wrap(k * a2), y)
    ensures a1 == a2
  {
    XorCancel(Wrap(k * a1), y);
    XorCancel(Wrap(k * a2), y);
    MulInjective(k, inv, m, a1, a2);
  }

  /** The same with the varying factor on the right of the exclusive or. */
  lemma XorMulInjective(k: int, inv: int, m: int, x: Int32, a1: Int32, a2: Int32)
    requires k * inv == m * Modulus + 1
    requires Xor(x, Wrap(k * a1)) == Xor(x, Wrap(k * a2))
    ensures a1 == a2
  {
    XorCommutes(x, Wrap(k * a1));
    XorCommutes(x, Wrap(k * a2));
    MulXorInjective(k, inv, m, a1, a2, x);
  }
}
