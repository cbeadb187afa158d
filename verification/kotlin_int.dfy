/** Kotlin's fixed-width integer semantics on the JVM: `Byte`, `Int` and `Long`
    are two's-complement values, arithmetic wraps, `and`/`or` work bit by bit,
    `shl` wraps and `shr` is arithmetic (it rounds towards minus infinity),
    and `rem` (`%`) truncates towards zero.

    Dafny's `/` and `%` with a positive divisor are floor division and a
    non-negative remainder, which is exactly what extracting the low bits of a
    two's-complement number does; the bit-wise operations below are written
    with them, one bit at a time, and the lemmas at the end characterise the
    masks the application uses. A nullable `T?` is an `Option<T>`. */
module KotlinInt {
  /** A Kotlin nullable value. */
  datatype Option<T> = None | Some(value: T)

  type int8 = x: int | -0x80 <= x < 0x80
  type int16 = x: int | -0x8000 <= x < 0x8000
  type int32 = x: int | -0x8000_0000 <= x < 0x8000_0000
  type int64 = x: int | -0x8000_0000_0000_0000 <= x < 0x8000_0000_0000_0000

  function Pow2(k: nat): (r: nat)
    ensures r >= 1
  {
    if k == 0 then 1 else 2 * Pow2(k - 1)
  }

  /** The value of the low 8 bits read as a signed byte (`Int.toByte()`, `Long.toByte()`). */
  function Wrap8(x: int): int8
  {
    (x + 0x80) % 0x100 - 0x80
  }

  /** The value of the low 32 bits read as a signed `Int` (`Long.toInt()`, overflowing `Int` arithmetic). */
  function Wrap32(x: int): int32
  {
    (x + 0x8000_0000) % 0x1_0000_0000 - 0x8000_0000
  }

  /** The value of the low 64 bits read as a signed `Long`. */
  function Wrap64(x: int): int64
  {
    (x + 0x8000_0000_0000_0000) % 0x1_0000_0000_0000_0000 - 0x8000_0000_0000_0000
  }

  /** Bit-wise AND of the low `n` bits of `a` and `b`, as an unsigned bit pattern. */
  function AndBits(a: int, b: int, n: nat): (r: int)
    ensures 0 <= r < Pow2(n)
    decreases n
  {
    if n == 0 then 0 else (a % 2) * (b % 2) + 2 * AndBits(a / 2, b / 2, n - 1)
  }

  /** Bit-wise OR of the low `n` bits of `a` and `b`, as an unsigned bit pattern. */
  function OrBits(a: int, b: int, n: nat): (r: int)
    ensures 0 <= r < Pow2(n)
    decreases n
  {
    if n == 0 then 0
    else (if a % 2 == 1 || b % 2 == 1 then 1 else 0) + 2 * OrBits(a / 2, b / 2, n - 1)
  }

  /** `Int.and` */
  function And32(a: int32, b: int32): int32
  {
    Wrap32(AndBits(a, b, 32))
  }

  /** `Int.or` */
  function Or32(a: int32, b: int32): int32
  {
    Wrap32(OrBits(a, b, 32))
  }

  /** `Long.and` */
  function And64(a: int64, b: int64): int64
  {
    Wrap64(AndBits(a, b, 64))
  }

  /** `Int.shl` by a distance below 32 (the application only shifts by
      constants); the result wraps. */
  function Shl32(a: int32, n: nat): int32
    requires n < 32
  {
    Wrap32(a * Pow2(n))
  }

  /** `Int.shr` by a distance below 32: an arithmetic shift, which rounds
      towards minus infinity. */
  function Shr32(a: int32, n: nat): int32
    requires n < 32
  {
    DivBounds(a, Pow2(n), 0x8000_0000);
    a / Pow2(n)
  }

  /** `Long.shr` by a distance below 64. */
  function Shr64(a: int64, n: nat): int64
    requires n < 64
  {
    DivBounds(a, Pow2(n), 0x8000_0000_0000_0000);
    a / Pow2(n)
  }

  /** `Int.rem` (`%`): the remainder of division truncated towards zero, whose
      sign follows the dividend. It differs from `a` by a multiple of `b`,
      which with the sign and the bound fixes it, and it is zero exactly
      when `b` divides `a`. */
  function Rem32(a: int32, b: int32): (r: int32)
    requires b != 0
    ensures a >= 0 ==> 0 <= r
    ensures a <= 0 ==> r <= 0
    ensures b > 0 ==> -b < r < b
    ensures b < 0 ==> b < r < -(b as int)
    ensures r == 0 <==> a % b == 0
    ensures (a as int - r) % b == 0
  {
    TruncatedRemainder(a, b);
    RemainderCongruent(a, b);
    var x: int, y: int := a, b;
    if x >= 0 then x % y else -((-x) % y)
  }

  lemma TruncatedRemainder(x: int, y: int)
    requires y != 0
    ensures var r := if x >= 0 then x % y else -((-x) % y);
      && (x >= 0 ==> 0 <= r)
      && (x <= 0 ==> r <= 0)
      && (y > 0 ==> -y < r < y)
      && (y < 0 ==> y < r < -y)
      && (r == 0 <==> x % y == 0)
  {
    NegatedModZero(x, y);
  }

  /** The truncated remainder differs from the dividend by a multiple of the divisor. */
  lemma RemainderCongruent(x: int, y: int)
    requires y != 0
    ensures var r := if x >= 0 then x % y else -((-x) % y);
      (x - r) % y == 0
  {
    var n := if x >= 0 then x else -x;
    var q := n / y;
    assert n - n % y == y * q;
    if x >= 0 {
      MultipleMod(y, q);
    } else {
      assert x + n % y == y * -q;
      MultipleMod(y, -q);
    }
  }

  lemma MultipleMod(y: int, q: int)
    requires y != 0
    ensures (y * q) % y == 0
  {
    DivModUniqueSigned(y * q, y, q, 0);
  }


  // ---------------------------------------------------------------------------
  // Arithmetic facts the bit-wise characterisations rest on

  lemma DivBounds(a: int, p: int, m: int)
    requires p >= 1 && -m <= a < m
    ensures -m <= a / p < m
  {
    if a >= 0 {
      DivNotGreater(a, p);
    } else {
      DivNotBelow(a, p);
    }
  }

  lemma DivNotGreater(a: int, p: int)
    requires p >= 1 && a >= 0
    ensures 0 <= a / p <= a
  {
    var q := a / p;
    if q >= 0 {
      MulGrows(p, q);
    }
  }

  lemma DivNotBelow(a: int, p: int)
    requires p >= 1 && a < 0
    ensures a <= a / p < 0
  {
    var q := a / p;
    assert p * (q + 1) == p * q + p;
    if q + 1 <= 0 {
      MulNotPositive(p, q + 1);
    }
  }

  lemma MulGrows(p: int, q: int)
    requires p >= 1 && q >= 0
    ensures p * q >= q
  {
    assert p * q == (p - 1) * q + q;
  }

  lemma MulNotPositive(p: int, q: int)
    requires p >= 1 && q <= 0
    ensures p * q <= q
  {
    assert p * q == (p - 1) * q + q;
    assert (p - 1) * (-q) >= 0;
  }

  /** Quotient and remainder are determined by the division equation. */
  lemma DivModUnique(x: int, d: int, q: int, r: int)
    requires d >= 1 && 0 <= r < d && x == d * q + r
    ensures x / d == q && x % d == r
  {
    var q0, r0 := x / d, x % d;
    assert d * (q - q0) == r0 - r;
    assert d * (q - q0 - 1) + d == d * (q - q0);
    assert d * (q0 - q - 1) + d == d * (q0 - q);
    if q > q0 {
      MulGrows(d, q - q0 - 1);
      assert false;
    } else if q < q0 {
      MulGrows(d, q0 - q - 1);
      assert false;
    }
  }

  /** Negating the dividend does not change whether the divisor divides it. */
  lemma NegatedModZero(a: int, b: int)
    requires b != 0
    ensures (-a) % b == 0 <==> a % b == 0
  {
    var d := if b > 0 then b else -b;
    if a % b == 0 {
      assert a == b * (a / b);
      assert -a == b * (-(a / b)) + 0;
      DivModUniqueSigned(-a, b, -(a / b), 0);
    }
    if (-a) % b == 0 {
      assert -a == b * ((-a) / b);
      assert a == b * (-((-a) / b)) + 0;
      DivModUniqueSigned(a, b, -((-a) / b), 0);
    }
  }

  /** `DivModUnique` for a divisor of either sign (Dafny's `%` is never negative). */
  lemma DivModUniqueSigned(x: int, d: int, q: int, r: int)
    requires d != 0 && 0 <= r && (r < d || r < -d) && x == d * q + r
    ensures x / d == q && x % d == r
  {
    if d > 0 {
      DivModUnique(x, d, q, r);
    } else {
      var q0, r0 := x / d, x % d;
      assert x == d * q0 + r0;
      assert (-d) * (q0 - q) == r0 - r;
      assert (-d) * (q0 - q - 1) + (-d) == (-d) * (q0 - q);
      assert (-d) * (q - q0 - 1) + (-d) == (-d) * (q - q0);
      if q0 > q {
        MulGrows(-d, q0 - q - 1);
        assert false;
      } else if q0 < q {
        MulGrows(-d, q - q0 - 1);
        assert false;
      }
    }
  }

  /** Dividing by `a` and then by `p` is dividing by `a * p`; the remainder
      splits into the low digit and the next one. */
  lemma SplitDivMod(x: int, a: int, p: int)
    requires a >= 1 && p >= 1
    ensures x / (a * p) == (x / a) / p
    ensures x % (a * p) == x % a + a * ((x / a) % p)
  {
    var h := x / a;
    var q, r := h / p, h % p;
    assert h == p * q + r;
    assert x == a * h + x % a;
    assert a * h == (a * p) * q + a * r;
    assert 0 <= a * r <= a * (p - 1) by { MulGrows(a, r); MulMonotone(a, r, p - 1); }
    assert a * (p - 1) + a == a * p;
    DivModUnique(x, a * p, q, a * r + x % a);
  }

  lemma MulMonotone(a: int, r: int, s: int)
    requires a >= 0 && r <= s
    ensures a * r <= a * s
  {
    assert a * s - a * r == a * (s - r);
  }

  lemma HalfSplit(x: int, p: int)
    requires p >= 1
    ensures x / (2 * p) == (x / 2) / p
    ensures x % (2 * p) == x % 2 + 2 * ((x / 2) % p)
  {
    SplitDivMod(x, 2, p);
  }

  /** Adding a multiple of `d` does not change the remainder modulo `d`. */
  lemma ModAddMultiple(x: int, d: int, k: int)
    requires d >= 1
    ensures (x + d * k) % d == x % d
  {
    assert x == d * (x / d) + x % d;
    assert x + d * k == d * (x / d + k) + x % d;
    DivModUnique(x + d * k, d, x / d + k, x % d);
  }

  lemma DoubleTimes(h: int, v: int)
    ensures 2 * (h * v) == (2 * h) * v
  {
  }

  // ---------------------------------------------------------------------------
  // Characterisation of the masks

  lemma {:induction false} AndZero(x: int, n: nat)
    ensures AndBits(x, 0, n) == 0
    decreases n
  {
    if n > 0 {
      AndZero(x / 2, n - 1);
    }
  }

  /** Masking with `2^k - 1` keeps the low `k` bits. */
  lemma {:induction false} AndLowMask(x: int, k: nat, n: nat)
    requires k <= n
    ensures AndBits(x, Pow2(k) - 1, n) == x % Pow2(k)
    decreases k
  {
    if k == 0 {
      AndZero(x, n);
      assert x % 1 == 0;
    } else {
      AndLowMask(x / 2, k - 1, n - 1);
      AndLowMaskStep(x, k, n);
    }
  }

  /** One bit of `AndLowMask`: a mask of ones one bit wider. */
  lemma AndLowMaskStep(x: int, k: nat, n: nat)
    requires 1 <= k <= n
    requires AndBits(x / 2, Pow2(k - 1) - 1, n - 1) == (x / 2) % Pow2(k - 1)
    ensures AndBits(x, Pow2(k) - 1, n) == x % Pow2(k)
  {
    var h := Pow2(k - 1);
    assert Pow2(k) == 2 * h;
    DivModUnique(2 * h - 1, 2, h - 1, 1);
    HalfSplit(x, h);
  }

  /** Masking with `m` shifted left by `j` is masking the value shifted right by `j`. */
  lemma {:induction false} AndShiftedMask(x: int, m: int, j: nat, n: nat)
    requires j <= n
    ensures AndBits(x, Pow2(j) * m, n) == Pow2(j) * AndBits(x / Pow2(j), m, n - j)
    decreases j
  {
    if j > 0 {
      AndShiftedMask(x / 2, m, j - 1, n - 1);
      AndShiftedStep(x, m, Pow2(j - 1), n, n - j);
    }
  }

  /** One bit of `AndShiftedMask`: the mask shifted one place further. */
  lemma AndShiftedStep(x: int, m: int, h: int, n: nat, t: nat)
    requires h >= 1 && n >= 1
    requires AndBits(x / 2, h * m, n - 1) == h * AndBits((x / 2) / h, m, t)
    ensures AndBits(x, (2 * h) * m, n) == (2 * h) * AndBits(x / (2 * h), m, t)
  {
    DoubleTimes(h, m);
    DivModUnique((2 * h) * m, 2, h * m, 0);
    HalfSplit(x, h);
    DoubleTimes(h, AndBits(x / (2 * h), m, t));
  }

  /** OR with zero keeps the low `n` bits. */
  lemma {:induction false} OrZeroLeft(b: int, n: nat)
    ensures OrBits(0, b, n) == b % Pow2(n)
    decreases n
  {
    if n > 0 {
      OrZeroLeft(b / 2, n - 1);
      HalfSplit(b, Pow2(n - 1));
    }
  }

  /** OR of a value below `2^k` with a multiple of `2^k` is their sum (modulo `2^n`). */
  lemma {:induction false} OrLowHigh(a: int, b: int, k: nat, n: nat)
    requires k <= n && 0 <= a < Pow2(k)
    ensures OrBits(a, Pow2(k) * b, n) == a + Pow2(k) * (b % Pow2(n - k))
    decreases k
  {
    if k == 0 {
      OrZeroLeft(b, n);
    } else {
      DivModUnique(a, 2, a / 2, a % 2);
      OrLowHigh(a / 2, b, k - 1, n - 1);
      OrLowHighStep(a, b, Pow2(k - 1), n, b % Pow2(n - k));
    }
  }

  /** One bit of `OrLowHigh`. */
  lemma OrLowHighStep(a: int, b: int, h: int, n: nat, c: int)
    requires h >= 1 && n >= 1 && 0 <= a < 2 * h
    requires OrBits(a / 2, h * b, n - 1) == a / 2 + h * c
    ensures OrBits(a, (2 * h) * b, n) == a + (2 * h) * c
  {
    DoubleTimes(h, b);
    DivModUnique((2 * h) * b, 2, h * b, 0);
    DivModUnique(a, 2, a / 2, a % 2);
    DoubleTimes(h, c);
  }

  /** An eight-bit field at bit `j`, masked and kept in place. */
  lemma AndByteField(x: int, j: nat, n: nat)
    requires j + 8 <= n
    ensures AndBits(x, 255 * Pow2(j), n) == Pow2(j) * ((x / Pow2(j)) % 256)
  {
    Pow2Values();
    AndShiftedMask(x, 255, j, n);
    assert 255 * Pow2(j) == Pow2(j) * 255;
    AndLowMask(x / Pow2(j), 8, n - j);
  }

  lemma Wrap32Identity(v: int)
    requires -0x8000_0000 <= v < 0x8000_0000
    ensures Wrap32(v) == v
  {
  }

  lemma Wrap64Identity(v: int)
    requires -0x8000_0000_0000_0000 <= v < 0x8000_0000_0000_0000
    ensures Wrap64(v) == v
  {
  }

  /** `x and 0xFF` on an `Int` is the low byte, whatever the sign of `x`. */
  lemma And32LowByte(x: int32)
    ensures And32(x, 0xFF) == x % 0x100
  {
    Pow2Values();
    AndLowMask(x, 8, 32);
    assert AndBits(x, 0xFF, 32) == x % 0x100;
    Wrap32Identity(x % 0x100);
  }

  /** `x and 0xFFFF` on an `Int` is the low 16 bits. */
  lemma And32Low16(x: int32)
    ensures And32(x, 0xFFFF) == x % 0x1_0000
  {
    Pow2Values();
    AndLowMask(x, 16, 32);
    var u := AndBits(x, 0xFFFF, 32);
    assert u == x % 0x1_0000;
    Wrap32Identity(u);
  }

  /** `(x and 0xFF00) shr 8` on an `Int` is the second byte. */
  lemma And32SecondByte(x: int32)
    ensures Shr32(And32(x, 0xFF00), 8) == (x / 0x100) % 0x100
  {
    Pow2Values();
    var v := (x / 0x100) % 0x100;
    assert AndBits(x, 0xFF00, 32) == 0x100 * v by {
      AndByteField(x, 8, 32);
      assert 255 * Pow2(8) == 0xFF00;
    }
    MulMonotone(0x100, v, 0xFF);
    MulGrows(0x100, v);
    Wrap32Identity(0x100 * v);
    var w: int32 := 0x100 * v;
    assert Shr32(w, 8) == w / 0x100;
    DivModUnique(w, 0x100, v, 0);
  }

  /** `(x and (0xFF shl j)) shr j` on a `Long` is the byte at bit `j`. */
  lemma And64ByteAt(x: int64, j: nat, mask: int64)
    requires j <= 24 && mask == 255 * Pow2(j)
    ensures Shr64(And64(x, mask), j) == (x / Pow2(j)) % 0x100
  {
    var v := (x / Pow2(j)) % 0x100;
    And64ByteField(x, j, mask);
    Shr64Exact(v, j);
  }

  lemma And64ByteField(x: int64, j: nat, mask: int64)
    requires j <= 24 && mask == 255 * Pow2(j)
    ensures And64(x, mask) == Pow2(j) * ((x / Pow2(j)) % 0x100)
  {
    SmallByteField(x, j);
    Wrap64Identity(AndBits(x, mask, 64));
  }

  /** Shifting `v * 2^j` right by `j` gives back `v`. */
  lemma Shr64Exact(v: int, j: nat)
    requires j <= 24 && 0 <= v < 0x100
    ensures 0 <= Pow2(j) * v < 0x1_0000_0000
    ensures Shr64(Pow2(j) * v, j) == v
  {
    ByteTimesPow2(v, j);
    var w: int64 := Pow2(j) * v;
    assert Shr64(w, j) == w / Pow2(j);
    DivModUnique(w, Pow2(j), v, 0);
  }

  lemma ByteTimesPow2(v: int, j: nat)
    requires j <= 24 && 0 <= v < 0x100
    ensures 0 <= Pow2(j) * v < 0x1_0000_0000
  {
    Pow2Values();
    Pow2Monotone(j, 24);
    var p := Pow2(j);
    MulMonotone(v, p, 0x100_0000);
    MulMonotone(0x100_0000, v, 255);
    assert p * v == v * p;
    MulGrows(p, v);
  }

  lemma SmallByteField(x: int, j: nat)
    requires j <= 24
    ensures AndBits(x, 255 * Pow2(j), 64) == Pow2(j) * ((x / Pow2(j)) % 0x100)
    ensures 0 <= Pow2(j) * ((x / Pow2(j)) % 0x100) < 0x1_0000_0000
  {
    Pow2Values();
    Pow2Monotone(j, 24);
    AndByteField(x, j, 64);
    var v := (x / Pow2(j)) % 0x100;
    MulMonotone(v, Pow2(j), Pow2(24));
    MulMonotone(0x100_0000, v, 255);
  }

  lemma {:induction false} Pow2Monotone(i: nat, j: nat)
    requires i <= j
    ensures Pow2(i) <= Pow2(j)
    decreases j
  {
    if i < j {
      Pow2Monotone(i, j - 1);
    }
  }

  lemma {:induction false} Pow2Add(a: nat, b: nat)
    ensures Pow2(a + b) == Pow2(a) * Pow2(b)
    decreases a
  {
    if a > 0 {
      Pow2Add(a - 1, b);
      DoubleTimes(Pow2(a - 1), Pow2(b));
    }
  }

  /** The powers of two the masks are built from. */
  lemma Pow2Values()
    ensures Pow2(7) == 0x80 && Pow2(8) == 0x100
    ensures Pow2(16) == 0x1_0000 && Pow2(24) == 0x100_0000
  {
    assert Pow2(8) == 0x100;
    Pow2Add(8, 8);
    Pow2Add(16, 8);
  }
}
