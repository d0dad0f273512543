/** Powers of two, machine-word ranges and the bitwise operators of the source,
    written as recursive functions on natural numbers. */
module Arith {

  const B32: int := 0x1_0000_0000
  const B64: int := 0x1_0000_0000_0000_0000

  type u8 = x: int | 0 <= x < 0x100
  type u32 = x: int | 0 <= x < 0x1_0000_0000
  type u64 = x: int | 0 <= x < 0x1_0000_0000_0000_0000
  type i64 = x: int | -0x8000_0000_0000_0000 <= x < 0x8000_0000_0000_0000
  type u128 = x: int | 0 <= x < 0x1_0000_0000_0000_0000_0000_0000_0000_0000
  type i128 = x: int
    | -0x8000_0000_0000_0000_0000_0000_0000_0000 <= x < 0x8000_0000_0000_0000_0000_0000_0000_0000

  function Pow(b: nat, n: nat): nat {
    if n == 0 then 1 else b * Pow(b, n - 1)
  }

  function Pow2(n: nat): (p: nat)
    ensures p > 0
  {
    if n == 0 then 1 else 2 * Pow2(n - 1)
  }

  lemma PowNext(b: nat, n: nat)
    ensures Pow(b, n + 1) == b * Pow(b, n) && Pow(b, 0) == 1
  {}

  lemma {:induction false} PowPositive(b: nat, n: nat)
    requires b > 0
    ensures Pow(b, n) > 0
  {
    if n > 0 {
      PowPositive(b, n - 1);
      MulPositive(b, Pow(b, n - 1));
    }
  }

  lemma {:induction false} Pow2Add(m: nat, n: nat)
    ensures Pow2(m + n) == Pow2(m) * Pow2(n)
  {
    if m > 0 {
      Pow2Add(m - 1, n);
      var a, b := Pow2(m - 1), Pow2(n);
      assert Pow2(m + n) == 2 * Pow2(m - 1 + n) && Pow2(m) == 2 * a;
      hide Pow2;
      MulAssoc(2, a, b);
    }
  }

  lemma {:induction false} PowAdd(b: nat, m: nat, n: nat)
    ensures Pow(b, m + n) == Pow(b, m) * Pow(b, n)
  {
    if m > 0 {
      PowAdd(b, m - 1, n);
      MulAssoc(b, Pow(b, m - 1), Pow(b, n));
    }
  }

  lemma {:induction false} Pow2Monotone(m: nat, n: nat)
    requires m <= n
    ensures Pow2(m) <= Pow2(n)
    ensures m < n ==> 2 * Pow2(m) <= Pow2(n)
  {
    if m < n { Pow2Monotone(m, n - 1); }
  }

  lemma Pow2Literals()
    ensures Pow2(8) == 0x100 && Pow2(16) == 0x1_0000
    ensures Pow2(31) == 0x8000_0000 && Pow2(32) == B32
    ensures Pow2(63) == 0x8000_0000_0000_0000 && Pow2(64) == B64
    ensures Pow2(127) == 0x8000_0000_0000_0000_0000_0000_0000_0000
    ensures Pow2(128) == 0x1_0000_0000_0000_0000_0000_0000_0000_0000
  {
    assert Pow2(8) == 0x100;
    Pow2Add(8, 8);
    Pow2Add(16, 16);
    Pow2Add(32, 32);
    Pow2Add(64, 64);
  }

  /** Pow with base 2^w counts the bits of n digits of w bits each. */
  lemma {:induction false} PowOfPow2(w: nat, n: nat)
    ensures Pow(Pow2(w), n) == Pow2(w * n)
  {
    if n > 0 {
      PowOfPow2(w, n - 1);
      assert w * n == w + w * (n - 1);
      Pow2Add(w, w * (n - 1));
    } else {
      assert w * n == 0;
    }
  }

  // ----- multiplication, one fact at a time -----

  lemma MulPositive(a: int, b: int)
    requires a > 0 && b > 0
    ensures a * b > 0
  {}

  lemma MulNonNegative(a: int, b: int)
    requires a >= 0 && b >= 0
    ensures a * b >= 0
  {}

  lemma MulAssoc(a: int, b: int, c: int)
    ensures a * (b * c) == (a * b) * c
  {}

  lemma MulDistribute(a: int, b: int, c: int)
    ensures (a + b) * c == a * c + b * c
    ensures (a - b) * c == a * c - b * c
    ensures c * (a + b) == c * a + c * b
    ensures c * (a - b) == c * a - c * b
  {}

  lemma MulMonotone(a: int, b: int, c: int)
    requires a <= b && c >= 0
    ensures a * c <= b * c && c * a <= c * b
  {}

  lemma MulStrict(a: int, b: int, c: int)
    requires a < b && c > 0
    ensures a * c < b * c && c * a < c * b
    ensures a * c + c <= b * c
  {
    MulMonotone(a + 1, b, c);
    MulDistribute(a, 1, c);
  }

  lemma MulSwap(a: int, b: int, c: int)
    ensures (a * b) * c == (a * c) * b
  {}

  lemma Cancel(a: int, b: int, d: int)
    requires d > 0
    ensures a * d < b * d ==> a < b
    ensures a * d <= b * d ==> a <= b
  {
    if a >= b { MulMonotone(b, a, d); }
    if a > b { MulStrict(b, a, d); }
  }

  // ----- division -----

  /** Quotient and remainder are determined by x == q * d + r with 0 <= r < d. */
  lemma DivModUnique(x: int, d: int, q: int, r: int)
    requires d > 0 && 0 <= r < d && x == q * d + r
    ensures x / d == q && x % d == r
  {
    var q', r' := x / d, x % d;
    assert x == q' * d + r';
    if q < q' {
      MulStrict(q, q', d);
    } else if q' < q {
      MulStrict(q', q, d);
    }
  }

  lemma DivMod(x: int, d: int)
    requires d > 0
    ensures x == (x / d) * d + x % d && 0 <= x % d < d
  {}

  /** Unsigned division of the source, named so that a proof can hide it. */
  function Quo(x: nat, d: nat): nat
    requires d > 0
  {
    x / d
  }

  function Rem(x: nat, d: nat): nat
    requires d > 0
  {
    x % d
  }

  lemma QuoRem(x: nat, d: nat)
    requires d > 0
    ensures x == Quo(x, d) * d + Rem(x, d) && Rem(x, d) < d
  {
    DivMod(x, d);
  }

  lemma QuoBelow(x: nat, d: nat, q: nat)
    requires d > 0 && x < q * d
    ensures Quo(x, d) < q
  {
    DivUpper(x, d, q);
  }

  lemma QuoUnique(x: nat, d: nat, q: nat, r: nat)
    requires r < d && x == q * d + r
    ensures Quo(x, d) == q && Rem(x, d) == r
  {
    DivModUnique(x, d, q, r);
  }

  lemma DivDiv(x: int, a: int, b: int)
    requires a > 0 && b > 0
    ensures a * b > 0 && x / (a * b) == (x / a) / b
  {
    MulPositive(a, b);
    var q1, r1 := x / a, x % a;
    var q2, r2 := q1 / b, q1 % b;
    DivMod(x, a);
    DivMod(q1, b);
    assert x == (q2 * b + r2) * a + r1;
    MulDistribute(q2 * b, r2, a);
    assert q2 * b * a == q2 * (a * b) by { MulAssoc(q2, b, a); assert b * a == a * b; }
    assert x == q2 * (a * b) + (r2 * a + r1);
    MulMonotone(r2, b - 1, a);
    MulDistribute(b, 1, a);
    MulNonNegative(r2, a);
    assert r2 * a <= b * a - a;
    assert a * b == b * a;
    DivModUnique(x, a * b, q2, r2 * a + r1);
  }

  lemma DivUpper(x: int, d: int, q: int)
    requires d > 0 && x < q * d
    ensures x / d < q
  {
    if x / d >= q { MulMonotone(q, x / d, d); }
  }

  lemma ModMultiple(x: int, k: int, d: int)
    requires d > 0
    ensures (x + k * d) % d == x % d && (x + k * d) / d == x / d + k
    ensures (x - k * d) % d == x % d && (x - k * d) / d == x / d - k
  {
    MulDistribute(x / d, k, d);
    DivModUnique(x + k * d, d, x / d + k, x % d);
    DivModUnique(x - k * d, d, x / d - k, x % d);
  }

  lemma ModSmall(x: int, d: int)
    requires 0 <= x < d
    ensures x % d == x && x / d == 0
  {
    DivModUnique(x, d, 0, x);
  }

  // ----- bitwise operators -----

  function BitOr(a: nat, b: nat): nat
    decreases a + b
  {
    if a == 0 then b
    else if b == 0 then a
    else (if a % 2 == 1 || b % 2 == 1 then 1 else 0) + 2 * BitOr(a / 2, b / 2)
  }

  function BitAnd(a: nat, b: nat): nat {
    if a == 0 || b == 0 then 0
    else (if a % 2 == 1 && b % 2 == 1 then 1 else 0) + 2 * BitAnd(a / 2, b / 2)
  }

  function BitXor(a: nat, b: nat): nat
    decreases a + b
  {
    if a == 0 then b
    else if b == 0 then a
    else (if a % 2 != b % 2 then 1 else 0) + 2 * BitXor(a / 2, b / 2)
  }

  /** Bit i of a natural number, the meaning the three operators are judged by. */
  predicate Bit(a: nat, i: nat) {
    if i == 0 then a % 2 == 1 else Bit(a / 2, i - 1)
  }

  lemma {:induction false} BitOfZero(i: nat)
    ensures !Bit(0, i)
  {
    if i > 0 { BitOfZero(i - 1); }
  }

  lemma {:induction false} BitOrBits(a: nat, b: nat, i: nat)
    ensures Bit(BitOr(a, b), i) <==> Bit(a, i) || Bit(b, i)
  {
    BitOfZero(i);
    if a != 0 && b != 0 && i > 0 {
      BitOrBits(a / 2, b / 2, i - 1);
      assert BitOr(a, b) / 2 == BitOr(a / 2, b / 2);
    }
  }

  lemma {:induction false} BitAndBits(a: nat, b: nat, i: nat)
    ensures Bit(BitAnd(a, b), i) <==> Bit(a, i) && Bit(b, i)
  {
    BitOfZero(i);
    if a != 0 && b != 0 && i > 0 {
      BitAndBits(a / 2, b / 2, i - 1);
      assert BitAnd(a, b) / 2 == BitAnd(a / 2, b / 2);
    }
  }

  lemma {:induction false} BitXorBits(a: nat, b: nat, i: nat)
    ensures Bit(BitXor(a, b), i) <==> Bit(a, i) != Bit(b, i)
  {
    BitOfZero(i);
    if a != 0 && b != 0 && i > 0 {
      BitXorBits(a / 2, b / 2, i - 1);
      assert BitXor(a, b) / 2 == BitXor(a / 2, b / 2);
    }
  }

  // ----- shifts -----

  /** x << s without a word size. */
  function Shl(x: nat, s: nat): nat {
    if s == 0 then x else 2 * Shl(x, s - 1)
  }

  /** x >> s. */
  function Shr(x: nat, s: nat): nat {
    if s == 0 then x else Shr(x / 2, s - 1)
  }

  /** The low s bits of x. */
  function Low(x: nat, s: nat): nat {
    if s == 0 then 0 else x % 2 + 2 * Low(x / 2, s - 1)
  }

  lemma {:induction false} ShlIsMul(x: nat, s: nat)
    ensures Shl(x, s) == x * Pow2(s)
  {
    if s > 0 {
      ShlIsMul(x, s - 1);
      assert 2 * (x * Pow2(s - 1)) == x * (2 * Pow2(s - 1));
    }
  }

  /** Shifting out and keeping the low bits split a number in two. */
  lemma {:induction false} ShrLow(x: nat, s: nat)
    ensures x == Shl(Shr(x, s), s) + Low(x, s)
    ensures Low(x, s) < Pow2(s)
  {
    if s > 0 { ShrLow(x / 2, s - 1); }
  }

  lemma ShrIsDiv(x: nat, s: nat)
    ensures Shr(x, s) == x / Pow2(s) && Low(x, s) == x % Pow2(s)
  {
    ShrLow(x, s);
    ShlIsMul(Shr(x, s), s);
    DivModUnique(x, Pow2(s), Shr(x, s), Low(x, s));
  }

  lemma {:induction false} ShlAdd(x: nat, y: nat, s: nat)
    ensures Shl(x + y, s) == Shl(x, s) + Shl(y, s)
  {
    if s > 0 { ShlAdd(x, y, s - 1); }
  }

  lemma {:induction false} ShlMul(x: nat, y: nat, s: nat)
    ensures Shl(x * y, s) == Shl(x, s) * y
  {
    if s > 0 {
      ShlMul(x, y, s - 1);
      MulAssoc(2, Shl(x, s - 1), y);
    }
  }

  lemma {:induction false} ShlShl(x: nat, s: nat, t: nat)
    ensures Shl(Shl(x, s), t) == Shl(x, s + t)
  {
    if t > 0 { ShlShl(x, s, t - 1); }
  }

  lemma {:induction false} ShrShr(x: nat, s: nat, t: nat)
    ensures Shr(Shr(x, s), t) == Shr(x, s + t)
  {
    if s > 0 { ShrShr(x / 2, s - 1, t); }
  }

  /** Adding a multiple of 2^s leaves the low bits alone. */
  lemma ShlPlusLow(q: nat, r: nat, s: nat)
    requires r < Pow2(s)
    ensures Shr(Shl(q, s) + r, s) == q && Low(Shl(q, s) + r, s) == r
  {
    ShlIsMul(q, s);
    ShrIsDiv(Shl(q, s) + r, s);
    DivModUnique(Shl(q, s) + r, Pow2(s), q, r);
  }

  lemma ShrBound(x: nat, s: nat, t: nat)
    requires x < Pow2(s + t)
    ensures Shr(x, s) < Pow2(t)
  {
    ShrLow(x, s);
    ShlIsMul(Shr(x, s), s);
    Pow2Add(s, t);
    if Shr(x, s) >= Pow2(t) { MulMonotone(Pow2(t), Shr(x, s), Pow2(s)); }
  }

  lemma ShlBound(x: nat, s: nat, t: nat)
    requires x < Pow2(t)
    ensures Shl(x, s) + Pow2(s) <= Pow2(s + t)
  {
    ShlIsMul(x, s);
    Pow2Add(s, t);
    MulStrict(x, Pow2(t), Pow2(s));
  }

  lemma {:induction false} LowOfSmall(x: nat, s: nat)
    requires x < Pow2(s)
    ensures Low(x, s) == x && Shr(x, s) == 0
  {
    if s > 0 { LowOfSmall(x / 2, s - 1); }
  }

  /** x << s cut to w bits keeps the low w - s bits of x. */
  lemma {:induction false} LowOfShl(x: nat, s: nat, w: nat)
    requires s <= w
    ensures Low(Shl(x, s), w) == Shl(Low(x, w - s), s)
    ensures Shr(Shl(x, s), w) == Shr(x, w - s)
  {
    if s > 0 {
      LowOfShl(x, s - 1, w - 1);
      assert Shl(x, s) / 2 == Shl(x, s - 1) && Shl(x, s) % 2 == 0;
    }
  }

  /** Or of numbers with no common bit position is their sum. */
  lemma {:induction false} OrDisjoint(a: nat, b: nat, k: nat)
    requires b < Pow2(k)
    ensures BitOr(Shl(a, k), b) == Shl(a, k) + b == BitOr(b, Shl(a, k))
    decreases k
  {
    if k > 0 && b != 0 {
      OrDisjoint(a, b / 2, k - 1);
      assert Shl(a, k) / 2 == Shl(a, k - 1) && Shl(a, k) % 2 == 0;
    }
  }

  /** Masking with k ones keeps the low k bits. */
  lemma {:induction false} MaskIsLow(x: nat, k: nat)
    ensures BitAnd(x, Pow2(k) - 1) == Low(x, k)
  {
    if k > 0 {
      var p := Pow2(k - 1);
      assert Pow2(k) == 2 * p;
      assert (2 * p - 1) / 2 == p - 1 && (2 * p - 1) % 2 == 1;
      MaskIsLow(x / 2, k - 1);
      if x == 0 { LowOfSmall(0, k); }
    }
  }

  // ----- signed numbers -----

  function Abs(x: int): nat {
    if x < 0 then -x else x
  }

  /** The range of a signed number of the given number of bits. */
  predicate FitsSigned(x: int, bits: nat)
    requires bits >= 1
  {
    0 - Pow2(bits - 1) <= x < Pow2(bits - 1)
  }

  /** Arithmetic right shift of a signed number: rounds towards minus infinity. */
  function Asr(x: int, s: nat): int {
    if x >= 0 then Shr(x, s) else -1 - Shr(-1 - x, s)
  }

  /** C++ division: rounds towards zero. */
  function TruncDiv(x: int, d: int): int
    requires d != 0
  {
    var q: int := Quo(Abs(x), Abs(d));
    if (x < 0) != (d < 0) then -q else q
  }

  function TruncRem(x: int, d: int): int
    requires d != 0
  {
    x - TruncDiv(x, d) * d
  }

  lemma AsrFloor(x: int, s: nat)
    ensures Asr(x, s) * Pow2(s) <= x < (Asr(x, s) + 1) * Pow2(s)
  {
    hide Shr, Pow2, Low;
    var y := if x >= 0 then x else -1 - x;
    ShrLow(y, s);
    ShlIsMul(Shr(y, s), s);
    FloorAlgebra(Shr(y, s), Low(y, s), Pow2(s));
  }

  lemma FloorAlgebra(q: int, r: int, p: int)
    requires 0 <= r < p
    ensures q * p <= q * p + r < (q + 1) * p
    ensures (-1 - q) * p <= -1 - (q * p + r) < (-1 - q + 1) * p
  {
    MulDistribute(q, 1, p);
    MulDistribute(-1, q, p);
    MulDistribute(0, q, p);
  }

  /** Arithmetic shift is the rounded-down quotient. */
  lemma AsrUnique(x: int, s: nat, q: int, r: int)
    requires 0 <= r < Pow2(s) && x == q * Pow2(s) + r
    ensures Asr(x, s) == q
  {
    if x >= 0 {
      ShrIsDiv(x, s);
      DivModUnique(x, Pow2(s), q, r);
    } else {
      ShrIsDiv(-1 - x, s);
      MulDistribute(-1, q, Pow2(s));
      DivModUnique(-1 - x, Pow2(s), -1 - q, Pow2(s) - 1 - r);
    }
  }

  lemma QuotientFits(q: nat, v: nat, r: nat, u: nat)
    requires q * v + r == u && v > 0
    ensures q <= u && r <= u
  {
    MulMonotone(1, v, q);
    MulNonNegative(q, v);
  }

  lemma TruncFacts(x: int, d: int)
    requires d != 0
    ensures TruncDiv(x, d) == if (x < 0) != (d < 0) then -(Quo(Abs(x), Abs(d)) as int) else Quo(Abs(x), Abs(d))
    ensures TruncRem(x, d) == if x < 0 then -(Rem(Abs(x), Abs(d)) as int) else Rem(Abs(x), Abs(d))
    ensures Quo(Abs(x), Abs(d)) <= Abs(x) && Rem(Abs(x), Abs(d)) <= Abs(x)
  {
    hide Quo, Rem;
    var q: int := Quo(Abs(x), Abs(d));
    var m: int := Abs(d);
    QuoRem(Abs(x), m);
    QuotientFits(q, m, Rem(Abs(x), m), Abs(x));
    assert (-q) * (-m) == q * m && (-q) * m == -(q * m) && q * (-m) == -(q * m);
  }

  /** A quotient by anything but minus one stays below the dividend's range. */
  lemma TruncFits(x: int, d: int, bits: nat)
    requires bits >= 1 && d != 0 && FitsSigned(x, bits)
    ensures d != -1 ==> FitsSigned(TruncDiv(x, d), bits)
    ensures d == -1 ==> TruncDiv(x, d) == 0 - x && TruncRem(x, d) == 0
    ensures FitsSigned(TruncRem(x, d), bits)
  {
    hide Quo, Rem, TruncDiv, TruncRem, Pow2;
    TruncFacts(x, d);
    var m := Abs(x);
    if d == -1 {
      QuoUnique(m, 1, m, 0);
    } else if d == 1 {
      QuoUnique(m, 1, m, 0);
    } else {
      QuoRem(m, Abs(d));
      HalfAtMost(Quo(m, Abs(d)), Abs(d), m);
    }
  }

  lemma HalfAtMost(q: nat, d: nat, m: nat)
    requires d >= 2 && q * d <= m
    ensures 2 * q <= m
  {
    MulMonotone(2, d, q);
  }

  lemma {:induction false} OnesShr(s: nat, k: nat)
    ensures Shr(Pow2(s + k) - 1, s) == Pow2(k) - 1
  {
    if s > 0 {
      var p := Pow2(s - 1 + k);
      assert Pow2(s + k) == 2 * p && (2 * p - 1) / 2 == p - 1;
      OnesShr(s - 1, k);
    }
  }
}
