/**
 * Fixed-width integer arithmetic of the simulator: Rust's `u32` and `i32`,
 * the reinterpreting casts between them, wrap-around, shifts and the
 * bitwise operators.  Every value is an unbounded Dafny `int` kept inside
 * its type's range; wrap-around is written out with `%` (which is
 * Euclidean in Dafny, so the remainder is never negative).
 */
module Bits {

  const TWO_32: int := 0x1_0000_0000
  const TWO_31: int := 0x8000_0000

  /** Rust `u32`. */
  type u32 = x: int | 0 <= x < 0x1_0000_0000

  /** Rust `i32`. */
  type i32 = x: int | -0x8000_0000 <= x < 0x8000_0000

  function Pow2(n: nat): (r: nat)
    ensures r >= 1
  {
    if n == 0 then 1 else 2 * Pow2(n - 1)
  }

  lemma {:induction false} Pow2Add(a: nat, b: nat)
    ensures Pow2(a + b) == Pow2(a) * Pow2(b)
  {
    if a > 0 {
      Pow2Add(a - 1, b);
      assert Pow2(a + b) == 2 * Pow2(a - 1 + b);
    }
  }

  /** The powers of two that the instruction layout uses. */
  lemma Pow2Values()
    ensures Pow2(0) == 1 && Pow2(5) == 32 && Pow2(6) == 64 && Pow2(11) == 0x800
    ensures Pow2(16) == 0x1_0000 && Pow2(21) == 0x20_0000 && Pow2(26) == 0x400_0000
    ensures Pow2(31) == TWO_31 && Pow2(32) == TWO_32
  {
    assert Pow2(8) == 256;
    assert Pow2(5) == 32;
    Pow2Add(8, 8);
    Pow2Add(16, 16);
    Pow2Add(16, 15);
    Pow2Add(16, 10);
    Pow2Add(16, 5);
    Pow2Add(8, 3);
    Pow2Add(5, 1);
  }

  // ---------------------------------------------------------------------
  // Casts and wrap-around

  /** `x as u32` on an `i32`: the same 32 bits read as unsigned. */
  function AsU32(x: i32): (r: u32)
    ensures r % TWO_32 == x % TWO_32
  {
    if x >= 0 then x else x + TWO_32
  }

  /** `x as i32` on a `u32`: the same 32 bits read in two's complement. */
  function AsI32(x: u32): (r: i32)
    ensures AsU32(r) == x
  {
    if x < TWO_31 then x else x - TWO_32
  }

  /** Wrap-around to 32 bits, unsigned (release-build `u32` arithmetic). */
  function WrapU32(x: int): (r: u32)
    ensures (r - x) % TWO_32 == 0
    ensures 0 <= x < TWO_32 ==> r == x
  {
    x % TWO_32
  }

  /** Wrapping an intermediate result does not change a wrapped sum. */
  lemma WrapAdd(x: int, k: int)
    ensures WrapU32(WrapU32(x) + k) == WrapU32(x + k)
  {
    var q, r := x / TWO_32, x % TWO_32;
    var q2, r2 := (r + k) / TWO_32, (r + k) % TWO_32;
    assert x == q * TWO_32 + r;
    assert r + k == q2 * TWO_32 + r2;
    assert x + k == (q + q2) * TWO_32 + r2;
    DivModUnique(x + k, TWO_32, q + q2, r2);
  }

  /** Wrap-around to 32 bits, signed (release-build `i32` arithmetic). */
  function WrapI32(x: int): (r: i32)
    ensures (r - x) % TWO_32 == 0
    ensures -TWO_31 <= x < TWO_31 ==> r == x
  {
    AsI32(WrapU32(x))
  }

  // ---------------------------------------------------------------------
  // Shifts

  /** `x << k` on a `u32`, `k < 32`: `k` one-bit shifts, each of which
      loses bit 31. */
  function Shl32(x: u32, k: nat): (r: u32)
    requires k < 32
  {
    if k == 0 then x else (2 * Shl32(x, k - 1)) % TWO_32
  }

  /** `x >> k` on a `u32`, `k < 32`: `k` one-bit logical shifts. */
  function Shr32(x: u32, k: nat): (r: u32)
    requires k < 32
  {
    if k == 0 then x else Shr32(x, k - 1) / 2
  }

  /** A left shift multiplies by `2^k` and wraps around. */
  lemma {:induction false} Shl32Value(x: u32, k: nat)
    requires k < 32
    ensures Shl32(x, k) == (x * Pow2(k)) % TWO_32
  {
    if k > 0 {
      Shl32Value(x, k - 1);
      var p := Pow2(k - 1);
      assert x * Pow2(k) == 2 * (x * p);
      DoubleMod(x * p, TWO_32);
    }
  }

  /** A logical right shift divides by `2^k`, rounding down. */
  lemma {:induction false} Shr32Value(x: u32, k: nat)
    requires k < 32
    ensures Shr32(x, k) == x / Pow2(k)
  {
    if k > 0 {
      Shr32Value(x, k - 1);
      DivDiv(x, Pow2(k - 1), 2);
    }
  }

  /** `x >> k` on an `i32`, `k < 32`: Rust shifts signed integers
      arithmetically, so the result is x / 2^k rounded towards minus
      infinity (which is what Dafny's `/` does for a positive divisor). */
  function ShrI32(x: i32, k: nat): (r: i32)
    requires k < 32
    ensures r * Pow2(k) <= x < (r + 1) * Pow2(k)
    ensures x < 0 <==> r < 0
  {
    FloorShift(x, Pow2(k));
    x / Pow2(k)
  }

  /** `x << k` on an `i32`: the bit pattern is shifted as a `u32`. */
  function ShlI32(x: i32, k: nat): (r: i32)
    requires k < 32
  {
    AsI32(Shl32(AsU32(x), k))
  }

  // ---------------------------------------------------------------------
  // Bitwise operators, as a reference definition bit by bit

  datatype BitOp = And | Or | Xor

  function BitOf(op: BitOp, a: nat, b: nat): (r: nat)
    requires a < 2 && b < 2
    ensures r < 2
  {
    match op
    case And => a * b
    case Or => if a + b == 0 then 0 else 1
    case Xor => (a + b) % 2
  }

  /** The low `n` bits of `a op b`, taken bit by bit from bit 0 upwards. */
  function Bitwise(op: BitOp, a: nat, b: nat, n: nat): (r: nat)
  {
    if n == 0 then 0
    else 2 * Bitwise(op, a / 2, b / 2, n - 1) + BitOf(op, a % 2, b % 2)
  }

  /** `n` bits hold a value below `2^n`. */
  lemma {:induction false} BitwiseBound(op: BitOp, a: nat, b: nat, n: nat)
    ensures Bitwise(op, a, b, n) < Pow2(n)
  {
    if n > 0 {
      BitwiseBound(op, a / 2, b / 2, n - 1);
    }
  }

  function And32(a: u32, b: u32): (r: u32) { BitwiseBound(And, a, b, 32); Pow2Values(); Bitwise(And, a, b, 32) }
  function Or32(a: u32, b: u32): (r: u32) { BitwiseBound(Or, a, b, 32); Pow2Values(); Bitwise(Or, a, b, 32) }
  function Xor32(a: u32, b: u32): (r: u32) { BitwiseBound(Xor, a, b, 32); Pow2Values(); Bitwise(Xor, a, b, 32) }

  /** `&`, `|` and `!` on `i32`, which act on the two's-complement bits. */
  function AndI32(a: i32, b: i32): (r: i32) { AsI32(And32(AsU32(a), AsU32(b))) }
  function OrI32(a: i32, b: i32): (r: i32) { AsI32(Or32(AsU32(a), AsU32(b))) }
  function NotI32(a: i32): (r: i32) { AsI32(Xor32(AsU32(a), TWO_32 - 1)) }

  /** AND never sets a bit that is clear in its first operand, so it is at most that operand. */
  lemma {:induction false} AndAtMost(a: nat, b: nat, n: nat)
    ensures Bitwise(And, a, b, n) <= a
  {
    if n > 0 {
      AndAtMost(a / 2, b / 2, n - 1);
    }
  }

  /** OR keeps every bit of its first operand, so it is at least that operand's low bits. */
  lemma {:induction false} OrAtLeast(a: nat, b: nat, n: nat)
    requires a < Pow2(n)
    ensures Bitwise(Or, a, b, n) >= a
  {
    if n > 0 {
      OrAtLeast(a / 2, b / 2, n - 1);
    }
  }

  /** OR of a value below 2^k with a multiple of 2^k is their sum: no bit overlaps. */
  lemma {:induction false} OrDisjoint(x: nat, h: nat, k: nat, n: nat)
    requires k <= n && x < Pow2(k) && h < Pow2(n - k)
    ensures Bitwise(Or, x, h * Pow2(k), n) == x + h * Pow2(k)
  {
    if k == 0 {
      OrZero(h, n);
    } else {
      var b := h * Pow2(k);
      assert b == 2 * (h * Pow2(k - 1));
      assert b % 2 == 0 && b / 2 == h * Pow2(k - 1);
      OrDisjoint(x / 2, h, k - 1, n - 1);
    }
  }

  lemma {:induction false} OrZero(b: nat, n: nat)
    requires b < Pow2(n)
    ensures Bitwise(Or, 0, b, n) == b
  {
    if n > 0 {
      OrZero(b / 2, n - 1);
    }
  }

  /** XOR with all ones flips every bit, i.e. subtracts from 2^n - 1. */
  lemma {:induction false} XorAllOnes(y: nat, n: nat)
    requires y < Pow2(n)
    ensures Bitwise(Xor, y, Pow2(n) - 1, n) == Pow2(n) - 1 - y
  {
    if n > 0 {
      var m := Pow2(n) - 1;
      assert m % 2 == 1 && m / 2 == Pow2(n - 1) - 1;
      XorAllOnes(y / 2, n - 1);
    }
  }

  /** Rust's `!` on an `i32` is -1 - x. */
  lemma NotIsMinusOneMinus(a: i32)
    ensures NotI32(a) == -1 - a
  {
    Pow2Values();
    XorAllOnes(AsU32(a), 32);
  }

  // ---------------------------------------------------------------------
  // Division facts

  lemma MulNonneg(a: int, b: int)
    requires a >= 0 && b >= 0
    ensures a * b >= 0
  {}
  /** Euclidean division is unique: a quotient and remainder that fit are the ones. */
  lemma DivModUnique(x: int, m: int, q: int, r: int)
    requires m > 0 && x == q * m + r && 0 <= r < m
    ensures x / m == q && x % m == r
  {
    var q0, r0 := x / m, x % m;
    assert q0 * m + r0 == x;
    assert (q - q0) * m == r0 - r;
    assert (q - q0 - 1) * m == (q - q0) * m - m;
    assert (q0 - q - 1) * m == (q0 - q) * m - m;
    if q > q0 {
      MulNonneg(q - q0 - 1, m);
      assert false;
    } else if q < q0 {
      MulNonneg(q0 - q - 1, m);
      assert false;
    }
  }
  /** Dividing by a positive number rounds towards minus infinity and
      moves towards zero without crossing it. */
  lemma FloorShift(x: int, d: int)
    requires d > 0
    ensures (x / d) * d <= x < (x / d + 1) * d
    ensures x >= 0 ==> 0 <= x / d <= x
    ensures x < 0 ==> x <= x / d < 0
  {
    var q := x / d;
    assert q * d + x % d == x;
    assert (q + 1) * d == q * d + d;
    if x >= 0 {
      DivLe(x, d);
    } else {
      DivNegative(x, d);
    }
  }

  lemma DivLe(x: nat, d: nat)
    requires d >= 1
    ensures x / d <= x
  {
    var q := x / d;
    assert q * d + x % d == x;
    MulNonneg(q, d - 1);
    assert q * (d - 1) == q * d - q;
  }

  lemma DivNegative(x: int, d: nat)
    requires d >= 1 && x < 0
    ensures x <= x / d < 0
  {
    var q := x / d;
    assert q * d + x % d == x;
    if q >= 0 {
      MulNonneg(q, d);
    }
    MulNonneg(-q, d - 1);
    assert -q * (d - 1) == q - q * d;
  }

  /** Doubling commutes with reduction modulo m. */
  lemma DoubleMod(y: int, m: int)
    requires m > 0
    ensures (2 * (y % m)) % m == (2 * y) % m
  {
    var q, r := y / m, y % m;
    var q2, r2 := (2 * r) / m, (2 * r) % m;
    assert 2 * y == (2 * q + q2) * m + r2;
    DivModUnique(2 * y, m, 2 * q + q2, r2);
  }

  /** Dividing twice is dividing by the product. */
  lemma DivDiv(x: nat, a: nat, b: nat)
    requires a >= 1 && b >= 1
    ensures (x / a) / b == x / (a * b)
  {
    var q, r := x / a, x % a;
    var q2, r2 := q / b, q % b;
    assert x == q * a + r;
    assert q == q2 * b + r2;
    assert x == q2 * (a * b) + (r2 * a + r) by {
      assert (q2 * b + r2) * a == q2 * (a * b) + r2 * a;
    }
    assert r2 * a + r < a * b by {
      MulNonneg(b - 1 - r2, a);
      assert (b - 1 - r2) * a == a * b - a - r2 * a;
    }
    MulNonneg(r2, a);
    DivModUnique(x, a * b, q2, r2 * a + r);
  }

  /** (r * a) / (a * b) == r / b. */
  lemma DivCancel(r: nat, a: nat, b: nat)
    requires a >= 1 && b >= 1
    ensures (r * a) / (a * b) == r / b
  {
    var q, t := r / b, r % b;
    assert r == q * b + t;
    assert r * a == q * (a * b) + t * a;
    assert t * a < a * b;
    DivModUnique(r * a, a * b, q, t * a);
  }

  /** Splitting a remainder by b*c into its two digits in base b. */
  lemma ModDiv(w: nat, b: nat, c: nat)
    requires b >= 1 && c >= 1
    ensures (w % (b * c)) / b == (w / b) % c
    ensures w % (b * c) == ((w / b) % c) * b + w % b
  {
    var q, t := w / b, w % b;
    var q2, r2 := q / c, q % c;
    assert w == q * b + t;
    assert q == q2 * c + r2;
    assert w == q2 * (b * c) + (r2 * b + t) by {
      assert q * b == (q2 * c + r2) * b;
      assert (q2 * c + r2) * b == q2 * (b * c) + r2 * b;
    }
    assert r2 * b + t < b * c by {
      MulNonneg(c - 1 - r2, b);
      assert (c - 1 - r2) * b == c * b - b - r2 * b;
    }
    MulNonneg(r2, b);
    DivModUnique(w, b * c, q2, r2 * b + t);
    DivModUnique(r2 * b + t, b, r2, t);
  }

  /** Multiplying by p scales the remainder by the same factor. */
  lemma MulMod(w: nat, p: nat, h: nat)
    requires p >= 1 && h >= 1
    ensures (w * p) % (h * p) == (w % h) * p
  {
    var q, r := w / h, w % h;
    assert w == q * h + r;
    assert w * p == q * (h * p) + r * p;
    MulNonneg(h - r - 1, p);
    assert (h - r - 1) * p == h * p - r * p - p;
    DivModUnique(w * p, h * p, q, r * p);
  }

  /** The arithmetic behind a left shift followed by a right shift. */
  lemma ScaleModDiv(w: nat, p: nat, s: nat, l: nat, n: nat, d: nat)
    requires p >= 1 && s >= 1 && l >= 1
    requires n == (s * l) * p && d == p * s
    ensures ((w * p) % n) / d == (w / s) % l
  {
    var m := w % (s * l);
    MulMod(w, p, s * l);
    DivCancel(m, p, s);
    ModDiv(w, s, l);
  }

  lemma ShiftPowers(start: nat, length: nat)
    requires 1 <= length && start + length <= 32
    ensures TWO_32 == (Pow2(start) * Pow2(length)) * Pow2(32 - (length + start))
    ensures Pow2(32 - length) == Pow2(32 - (length + start)) * Pow2(start)
  {
    var a := 32 - (length + start);
    Pow2Values();
    Pow2Add(start + length, a);
    Pow2Add(start, length);
    Pow2Add(a, start);
  }

  /** Left then right shift on a `u32` cuts out bits `[start, start+length)`. */
  lemma ShiftPairIsDivMod(w: u32, start: nat, length: nat)
    requires 1 <= length && start + length <= 32
    ensures Shr32(Shl32(w, 32 - (length + start)), 32 - length)
         == (w / Pow2(start)) % Pow2(length)
  {
    Shl32Value(w, 32 - (length + start));
    Shr32Value(Shl32(w, 32 - (length + start)), 32 - length);
    ShiftPairArith(w, start, length);
  }

  lemma ShiftPairArith(w: u32, start: nat, length: nat)
    requires 1 <= length && start + length <= 32
    ensures ((w * Pow2(32 - (length + start))) % TWO_32) / Pow2(32 - length)
         == (w / Pow2(start)) % Pow2(length)
  {
    var a := 32 - (length + start);
    ShiftPowers(start, length);
    ScaleModDiv(w, Pow2(a), Pow2(start), Pow2(length), TWO_32, Pow2(32 - length));
  }
}
