/** Java 32-bit int arithmetic that the composite core relies on: the bitwise
    AND that aligns the tile grid and the shifts that build colour masks. */
module Int32 {

  const TWO_31: int := 0x8000_0000
  const TWO_32: int := 0x1_0000_0000

  /** The Java literal 0xFFFFFF00, which as an int is -256. */
  const TILE_MASK: int := -256

  predicate IsInt32(x: int) {
    -TWO_31 <= x < TWO_31
  }

  function Pow2(n: nat): (r: nat)
    ensures r >= 1
  {
    if n == 0 then 1 else 2 * Pow2(n - 1)
  }

  /** The two's-complement bit pattern of an int, read as an unsigned number. */
  function ToBits(x: int): (u: nat)
    ensures u < TWO_32
  {
    x % TWO_32
  }

  /** The int whose bit pattern is `u`. */
  function FromBits(u: nat): (x: int)
    requires u < TWO_32
    ensures IsInt32(x) && ToBits(x) == u
  {
    if u < TWO_31 then u else u - TWO_32
  }

  /** Bitwise AND of the low `n` bits of `a` and `b`. */
  function BitAnd(a: int, b: int, n: nat): (r: nat)
    decreases n
    ensures r < Pow2(n)
  {
    if n == 0 then 0
    else 2 * BitAnd(a / 2, b / 2, n - 1) + (if a % 2 == 1 && b % 2 == 1 then 1 else 0)
  }

  /** Java's `x & y` on ints. */
  function And(x: int, y: int): (r: int)
    ensures IsInt32(r)
  {
    Pow2Bytes();
    FromBits(BitAnd(ToBits(x), ToBits(y), 32))
  }

  /** Java's `x << k` on ints, wrapping around at 32 bits. */
  function ShiftLeft(x: int, k: nat): (r: int)
    requires k < 32
    ensures IsInt32(r)
    ensures ToBits(r) == (ToBits(x) * Pow2(k)) % TWO_32
  {
    FromBits((ToBits(x) * Pow2(k)) % TWO_32)
  }

  /** Java's arithmetic `x >> k`, which rounds towards negative infinity. */
  function ShiftRight(x: int, k: nat): (r: int)
    requires k < 32
  {
    x / Pow2(k)
  }

  lemma MulAtLeast(a: int, d: int)
    requires a >= 1 && d > 0
    ensures a * d >= d
  {
  }

  /** The only multiple of d strictly between -d and d is zero. */
  lemma ZeroMultiple(x: int, d: int)
    requires d > 0 && -d < d * x < d
    ensures x == 0
  {
    if x >= 1 {
      MulAtLeast(x, d);
    } else if x <= -1 {
      MulAtLeast(-x, d);
    }
  }

  lemma DivUnique(n: int, d: int, q: int, r: int)
    requires d > 0 && 0 <= r < d && n == q * d + r
    ensures n / d == q && n % d == r
  {
    var q' := n / d;
    var r' := n % d;
    assert n == d * q' + r';
    assert d * (q' - q) == r - r';
    ZeroMultiple(q' - q, d);
  }

  /** 2^(n+8) is 256 times 2^n. */
  lemma Pow2Byte(n: nat)
    ensures Pow2(n + 8) == 256 * Pow2(n)
  {
    assert Pow2(n + 8) == 2 * Pow2(n + 7) == 4 * Pow2(n + 6) == 8 * Pow2(n + 5)
      == 16 * Pow2(n + 4) == 32 * Pow2(n + 3) == 64 * Pow2(n + 2)
      == 128 * Pow2(n + 1) == 256 * Pow2(n);
  }

  lemma Pow2Bytes()
    ensures Pow2(8) == 0x100 && Pow2(16) == 0x1_0000
    ensures Pow2(24) == 0x100_0000 && Pow2(32) == TWO_32
  {
    Pow2Byte(0);
    Pow2Byte(8);
    Pow2Byte(16);
    Pow2Byte(24);
  }

  /** Halving once more after dividing by 2^(k-1) divides by 2^k. */
  lemma HalveThenDivide(a: nat, k: nat)
    requires k >= 1
    ensures (a / 2) / Pow2(k - 1) == a / Pow2(k)
  {
    var p := Pow2(k - 1);
    var q := a / Pow2(k);
    var r := a % Pow2(k);
    assert a == Pow2(k) * q + r;
    assert a == (q * p + r / 2) * 2 + r % 2;
    DivUnique(a, 2, q * p + r / 2, r % 2);
    assert r / 2 < p;
    DivUnique(a / 2, p, q, r / 2);
  }

  /** a mod 2^n, assembled from the remainder after halving and the low bit. */
  lemma ModDouble(a: nat, n: nat)
    requires n >= 1
    ensures a % Pow2(n) == 2 * ((a / 2) % Pow2(n - 1)) + a % 2
  {
    var p := Pow2(n - 1);
    var q := (a / 2) / p;
    var r := (a / 2) % p;
    assert a / 2 == p * q + r;
    assert a == 2 * (a / 2) + a % 2;
    assert a == q * (2 * p) + (2 * r + a % 2);
    DivUnique(a, 2 * p, q, 2 * r + a % 2);
  }

  /** A multiple of 2^k is even, and half of it is a multiple of 2^(k-1). */
  lemma HalfOfMultiple(b: nat, k: nat)
    requires k >= 1 && b % Pow2(k) == 0
    ensures b % 2 == 0 && (b / 2) % Pow2(k - 1) == 0
  {
    var p := Pow2(k - 1);
    var t := b / Pow2(k);
    assert b == Pow2(k) * t;
    assert b == (p * t) * 2 + 0;
    DivUnique(b, 2, p * t, 0);
    assert b / 2 == t * p + 0;
    DivUnique(b / 2, p, t, 0);
  }

  lemma DoubleProduct(p: int, x: int)
    ensures 2 * (p * x) == (2 * p) * x
  {
  }

  /** An even mask clears the low bit of the result. */
  lemma AndEvenMask(a: nat, b: nat, n: nat)
    requires n >= 1 && b % 2 == 0
    ensures BitAnd(a, b, n) == 2 * BitAnd(a / 2, b / 2, n - 1)
  {
  }

  /** ANDing with a mask whose low k bits are clear clears the low k bits. */
  lemma {:induction false} AndLowZeros(a: nat, b: nat, n: nat, k: nat)
    requires k <= n && b % Pow2(k) == 0
    ensures BitAnd(a, b, n) == Pow2(k) * BitAnd(a / Pow2(k), b / Pow2(k), n - k)
  {
    if k > 0 {
      var p := Pow2(k - 1);
      var pk := Pow2(k);
      assert pk == 2 * p;
      HalfOfMultiple(b, k);
      AndEvenMask(a, b, n);
      AndLowZeros(a / 2, b / 2, n - 1, k - 1);
      HalveThenDivide(a, k);
      HalveThenDivide(b, k);
      var x := BitAnd((a / 2) / p, (b / 2) / p, n - k);
      var y := BitAnd(a / 2, b / 2, n - 1);
      assert y == p * x;
      assert BitAnd(a, b, n) == 2 * y;
      DoubleProduct(p, x);
    }
  }

  /** ANDing with n one-bits keeps the low n bits. */
  lemma {:induction false} AndAllOnes(a: nat, n: nat)
    ensures BitAnd(a, Pow2(n) - 1, n) == a % Pow2(n)
  {
    if n > 0 {
      var m := Pow2(n) - 1;
      assert m % 2 == 1 && m / 2 == Pow2(n - 1) - 1;
      AndAllOnes(a / 2, n - 1);
      ModDouble(a, n);
    }
  }

  /** On a bit pattern, AND with 0xFFFFFF00 clears the low eight bits. */
  lemma ClearLowByte(u: nat)
    requires u < TWO_32
    ensures BitAnd(u, ToBits(TILE_MASK), 32) == u - u % 256
  {
    var m := ToBits(TILE_MASK);
    DivUnique(TILE_MASK, TWO_32, -1, 0xFFFF_FF00);
    assert m == 0xFFFF_FF00;
    Pow2Bytes();
    DivUnique(m, 256, 0xFF_FFFF, 0);
    AndLowZeros(u, m, 32, 8);
    var hi := u / 256;
    AndAllOnes(hi, 24);
    assert BitAnd(u, m, 32) == 256 * (hi % 0x100_0000);
    assert 0 <= hi < 0x100_0000 by {
      DivUnique(u, 256, hi, u % 256);
    }
    DivUnique(hi, 0x100_0000, 0, hi);
  }

  /** `x & 0xFFFFFF00` rounds every Java int down to a multiple of 256,
      negative ones included. */
  lemma {:induction false} AlignDownIsFloor(x: int)
    requires IsInt32(x)
    ensures And(x, TILE_MASK) == x - x % 256
  {
    var u := ToBits(x);
    ClearLowByte(u);
    if x >= 0 {
      DivUnique(x, TWO_32, 0, x);
      assert u == x;
    } else {
      DivUnique(x, TWO_32, -1, x + TWO_32);
      assert u == x + 0x100_0000 * 256;
      DivUnique(u, 256, x / 256 + 0x100_0000, x % 256);
      var q := x / 256;
      assert x == 256 * q + x % 256;
      assert q >= -0x80_0000;
      assert u - u % 256 == 256 * q + TWO_32;
    }
  }
}
