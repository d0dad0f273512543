/** Multipliers and shifts for division by a constant (src/mir/const_div.hpp). */
module Magic {
  import opened Arith
  import opened Options

  datatype UDivMagic = UDivMagic(mul: u64, preShift: u8, shift: u8, add: bool)
  datatype SDivMagic = SDivMagic(mul: u64, shift: u8)

  // ----- bit scans of <bit> -----

  /** std::bit_width. */
  function BitWidth(x: nat): (l: nat)
    ensures x < Pow2(l) && (x > 0 ==> l > 0 && Pow2(l - 1) <= x)
  {
    if x == 0 then 0 else 1 + BitWidth(x / 2)
  }

  /** std::countr_zero of a nonzero word. */
  function Ctz(x: nat): (k: nat)
    requires x > 0
    ensures Shr(x, k) % 2 == 1 && Low(x, k) == 0
  {
    if x % 2 == 1 then 0 else 1 + Ctz(x / 2)
  }

  /** std::has_single_bit. */
  predicate HasSingleBit(x: nat) {
    if x <= 1 then x == 1 else x % 2 == 0 && HasSingleBit(x / 2)
  }

  lemma {:induction false} SingleBitIsPow2(x: nat)
    requires x > 0
    ensures HasSingleBit(x) <==> x == Pow2(Ctz(x))
  {
    if x > 1 && x % 2 == 0 { SingleBitIsPow2(x / 2); }
  }

  lemma TwiceSingleBit(x: nat)
    requires HasSingleBit(x)
    ensures x > 0 && HasSingleBit(2 * x) && Ctz(2 * x) == 1 + Ctz(x)
  {
    assert (2 * x) / 2 == x && (2 * x) % 2 == 0;
  }

  lemma {:induction false} Pow2HasSingleBit(k: nat)
    ensures HasSingleBit(Pow2(k)) && Ctz(Pow2(k)) == k
  {
    if k > 0 {
      Pow2HasSingleBit(k - 1);
      TwiceSingleBit(Pow2(k - 1));
      hide HasSingleBit, Ctz;
    }
  }

  /** Dropping the trailing zeros leaves an odd number with the same other factor. */
  lemma {:induction false} OddPart(x: nat)
    requires x > 0
    ensures x == Shr(x, Ctz(x)) * Pow2(Ctz(x))
    ensures Shr(x, Ctz(x)) == 1 ==> HasSingleBit(x)
  {
    if x % 2 == 0 {
      OddPart(x / 2);
    }
  }

  /** A power of two has no odd divisor above one. */
  lemma {:induction false} OddDivisor(d: nat, k: nat, m: nat)
    requires d % 2 == 1 && d > 1
    ensures m * d != Pow2(k)
    decreases k
  {
    if k == 0 {
      if m >= 1 { MulMonotone(1, m, d); }
    } else if m * d == Pow2(k) {
      if m % 2 == 0 {
        assert (m / 2) * d == Pow2(k - 1) by { MulAssoc(2, m / 2, d); }
        OddDivisor(d, k - 1, m / 2);
      } else {
        OddTimesOdd(m, d);
        assert false;
      }
    }
  }

  lemma OddTimesOdd(m: nat, d: nat)
    requires m % 2 == 1 && d % 2 == 1
    ensures (m * d) % 2 == 1
  {
    var a := m / 2;
    MulDistribute(2 * a, 1, d);
    MulAssoc(2, a, d);
    assert m * d == 2 * (a * d) + d;
  }

  /** 2^k is no multiple of a d that is not a power of two. */
  lemma NotDivisible(d: nat, k: nat, m: nat)
    requires d > 0 && !HasSingleBit(d)
    ensures m * d != Pow2(k)
  {
    hide Shr, Pow2;
    OddPart(d);
    var o, p := Shr(d, Ctz(d)), Pow2(Ctz(d));
    assert o * p == p * o;
    MulAssoc(m, p, o);
    OddDivisor(o, k, m * p);
  }

  // ----- the number theory -----

  /** m is 2^sh / d rounded up with an error e small enough for every x. */
  lemma MagicQuotient(x: nat, d: nat, m: nat, P: nat, e: nat)
    requires d > 0 && P > 0 && m * d == P + e && x * e < P
    ensures Quo(x * m, P) == Quo(x, d)
  {
    hide Quo, Rem;
    var q := Quo(x, d);
    QuoRem(x, d);
    ScaledProduct(x, d, m, P, e);
    MulNonNegative(x, e);
    MagicBounds(q, x, d, P, x * m, x * e);
    MulDistribute(q, 1, P);
    QuoUnique(x * m, P, q, x * m - q * P);
  }

  lemma ScaledProduct(x: nat, d: nat, m: nat, P: nat, e: nat)
    requires m * d == P + e
    ensures (x * m) * d == x * P + x * e
  {
    MulAssoc(x, m, d);
    MulDistribute(P, e, x);
  }

  lemma MagicBounds(q: int, x: int, d: int, P: int, y: int, f: int)
    requires d > 0 && P > 0 && q * d <= x < q * d + d && y * d == x * P + f && 0 <= f < P
    ensures q * P <= y < (q + 1) * P
  {
    MulMonotone(q * d, x, P);
    MulSwap(q, P, d);
    Cancel(q * P, y, d);
    MulDistribute(q, 1, d);
    MulMonotone(x + 1, (q + 1) * d, P);
    MulDistribute(x, 1, P);
    MulSwap(q + 1, P, d);
    Cancel(y, (q + 1) * P, d);
  }

  /** The same multiplier on a negative number rounds to one below the quotient. */
  lemma MagicNegative(y: nat, d: nat, m: nat, P: nat, e: nat)
    requires d > 0 && P > 0 && y > 0 && e > 0 && m * d == P + e && y * e <= P
    ensures Quo(y, d) * P < y * m <= (Quo(y, d) + 1) * P
  {
    hide Quo, Rem;
    QuoRem(y, d);
    ScaledProduct(y, d, m, P, e);
    MulPositive(y, e);
    MagicNegativeBounds(Quo(y, d), y, d, P, y * m, y * e);
  }

  lemma MagicNegativeBounds(q: int, x: int, d: int, P: int, y: int, f: int)
    requires d > 0 && P > 0 && q * d <= x < q * d + d && y * d == x * P + f && 0 < f <= P
    ensures q * P < y <= (q + 1) * P
  {
    MulMonotone(q * d, x, P);
    MulSwap(q, P, d);
    Cancel(q * P, y, d);
    MulDistribute(q, 1, d);
    MulMonotone(x + 1, (q + 1) * d, P);
    MulDistribute(x, 1, P);
    MulSwap(q + 1, P, d);
    Cancel(y, (q + 1) * P, d);
  }

  /** ceil(2^sh / d), as (2^sh + d - 1) / d. */
  lemma CeilDiv(num: nat, d: nat)
    requires d > 0
    ensures var m := Quo(num + d - 1, d);
      num <= m * d < num + d
  {
    hide Quo, Rem;
    QuoRem(num + d - 1, d);
  }

  // ----- what the results mean -----

  /** The three unsigned formulas. The subtraction cannot go below zero. */
  function UDivFormula(g: UDivMagic, x: nat, width: nat): nat
    requires g.mul < Pow2(width) && (g.add ==> g.shift > 0)
  {
    if !g.add then
      Shr(Shr(x, g.preShift) * g.mul, g.shift)
    else
      var t := Shr(x * g.mul, width);
      HighBelow(x, g.mul, width);
      Shr(Shr(x - t, 1) + t, g.shift - 1)
  }

  function SDivFormula(g: SDivMagic, x: int): int {
    var q0 := Asr(x * g.mul, g.shift);
    q0 + if q0 < 0 then 1 else 0
  }

  predicate UDivDomain(d: nat, width: nat) {
    2 <= width <= 64 && d >= 3 && !HasSingleBit(d) && d < Pow2(width - 1)
  }

  predicate SDivDomain(d: nat, width: nat) {
    3 <= width <= 64 && d >= 3 && !HasSingleBit(d) && d <= Pow2(width - 1)
  }

  /** Exact for every x, and usable: the multiplier is a width bit number, a
      64 bit division can start with a high multiply, and no shift reaches the
      size of the product. */
  ghost predicate ValidUDiv(g: UDivMagic, d: nat, width: nat) {
    && d > 0 && g.mul < Pow2(width)
    && (if g.add then g.preShift == 0 && 2 <= g.shift < width
        else g.preShift < width && (width == 64 ==> g.shift >= 64) && g.shift < 2 * width)
    && forall x :: 0 <= x < Pow2(width) ==> UDivFormula(g, x, width) == Quo(x, d)
  }

  ghost predicate ValidSDiv(g: SDivMagic, d: nat, width: nat) {
    && d > 0 && width > 0 && g.mul < Pow2(width)
    && (width == 64 ==> g.shift >= 64) && g.shift < 2 * width - 1
    && forall x: int :: 0 - Pow2(width - 1) <= x < Pow2(width - 1) ==> SDivFormula(g, x) == TruncDiv(x, d)
  }

  /** The high half of x * mul is at most x. */
  lemma HighBelow(x: nat, mul: nat, width: nat)
    requires mul < Pow2(width)
    ensures Shr(x * mul, width) <= x
  {
    hide Shr, Low, Shl, Pow2;
    var p, h := Pow2(width), Shr(x * mul, width);
    ShrLow(x * mul, width);
    ShlIsMul(h, width);
    MulMonotone(mul, p, x);
    Cancel(h, x, p);
  }

  /** Small error: x below 2^a and e at most 2^s. */
  lemma ErrorBound(x: nat, e: nat, a: nat, s: nat)
    requires x < Pow2(a) && e <= Pow2(s)
    ensures x * e < Pow2(a + s)
  {
    hide Pow2;
    Pow2Add(a, s);
    MulMonotone(e, Pow2(s), x);
    MulStrict(x, Pow2(a), Pow2(s));
  }

  /** The plain and the pre-shifted formula. */
  lemma PlainExact(x: nat, d: nat, dd: nat, pre: nat, wp: nat, s: nat, m: nat, e: nat)
    requires dd > 0 && d == dd * Pow2(pre) && x < Pow2(pre + wp)
    requires m * dd == Pow2(wp + s) + e && e <= Pow2(s)
    ensures d > 0 && Shr(Shr(x, pre) * m, wp + s) == Quo(x, d)
  {
    hide Shr, Pow2, Quo;
    var y := Shr(x, pre);
    ShrBound(x, pre, wp);
    ErrorBound(y, e, wp, s);
    MagicQuotient(y, dd, m, Pow2(wp + s), e);
    ShrIsQuo(y * m, wp + s);
    ShrIsQuo(x, pre);
    MulPositive(dd, Pow2(pre));
    QuoQuo(x, Pow2(pre), dd);
  }

  lemma ShrIsQuo(x: nat, s: nat)
    ensures Shr(x, s) == Quo(x, Pow2(s))
  {
    hide Shr, Pow2;
    ShrIsDiv(x, s);
  }

  lemma QuoQuo(x: nat, a: nat, b: nat)
    requires a > 0 && b > 0
    ensures b * a > 0 && Quo(Quo(x, a), b) == Quo(x, b * a)
  {
    DivDiv(x, a, b);
    assert a * b == b * a;
  }

  /** The add-fixup formula: m = 2^width + mul does not fit, so x * m is formed
      as x * 2^width + x * mul, halving first to stay inside the word. */
  lemma AddExact(x: nat, d: nat, width: nat, l: nat, mul: nat, e: nat)
    requires d > 0 && l > 0 && x < Pow2(width) && mul < Pow2(width)
    requires (Pow2(width) + mul) * d == Pow2(width + l) + e && e <= Pow2(l)
    ensures Shr(x * mul, width) <= x
    ensures Shr(Shr(x - Shr(x * mul, width), 1) + Shr(x * mul, width), l - 1) == Quo(x, d)
  {
    hide Shr, Shl, Low, Pow2, Quo;
    var p := Pow2(width);
    var t := Shr(x * mul, width);
    HighBelow(x, mul, width);
    ErrorBound(x, e, width, l);
    MagicQuotient(x, d, p + mul, Pow2(width + l), e);
    ShrIsQuo(x * (p + mul), width + l);
    ShrShr(x * (p + mul), width, l);
    MulDistribute(p, mul, x);
    ShrLow(x * mul, width);
    ShlIsMul(x, width);
    ShlAdd(x, t, width);
    ShlPlusLow(x + t, Low(x * mul, width), width);
    assert Shr(x * (p + mul), width) == x + t;
    HalfSum(x, t);
    ShrShr(x + t, 1, l - 1);
  }

  lemma HalfSum(x: nat, t: nat)
    requires t <= x
    ensures Shr(x - t, 1) + t == Shr(x + t, 1)
  {
    assert Shr(x - t, 1) == (x - t) / 2 && Shr(x + t, 1) == (x + t) / 2;
  }

  /** 2^(width + l) / d + 1 is a width + 1 bit number with its top bit set. */
  lemma AddMultiplier(d: nat, width: nat, l: nat)
    requires 0 < l < width && Pow2(l - 1) < d < Pow2(l)
    ensures var m := Quo(Pow2(width + l), d) + 1;
      && Pow2(width) <= m < 2 * Pow2(width)
      && Pow2(width + l) <= m * d <= Pow2(width + l) + Pow2(l)
  {
    hide Quo, Rem, Pow2;
    var p, P := Pow2(width), Pow2(width + l);
    var k := Quo(P, d);
    QuoRem(P, d);
    MulDistribute(k, 1, d);
    Pow2Add(width, l);
    Pow2Add(width + 1, l - 1);
    Pow2Step(width);
    Pow2Monotone(l, width);
    MulMonotone(d, Pow2(l), p);
    Cancel(p, k + 1, d);
    MulMonotone(Pow2(l - 1) + 1, d, 2 * p);
    MulDistribute(Pow2(l - 1), 1, 2 * p);
    Cancel(k + 1, 2 * p, d);
  }

  lemma Pow2Step(n: nat)
    ensures Pow2(n + 1) == 2 * Pow2(n)
  {}

  /** d lies strictly between the powers of two around it. */
  lemma DivisorBits(d: nat, width: nat)
    requires width >= 2 && d >= 3 && !HasSingleBit(d) && d <= Pow2(width - 1)
    ensures var l := BitWidth(d - 1);
      2 <= l < width && Pow2(l - 1) < d < Pow2(l)
  {
    hide Pow2, BitWidth, HasSingleBit;
    var l := BitWidth(d - 1);
    Pow2HasSingleBit(l);
    Pow2HasSingleBit(width - 1);
    if l >= width { Pow2Monotone(width - 1, l - 1); }
    if l <= 1 { Pow2Monotone(l, 1); Pow2Small(); }
  }

  lemma Pow2Small()
    ensures Pow2(0) == 1 && Pow2(1) == 2
  {}

  // ----- the searches -----

  /** What a successful test in the search loops establishes. */
  lemma PlainCandidate(d: nat, pre: nat, dd: nat, s: nat, m: nat, e: nat, width: nat, g: UDivMagic)
    requires pre < width <= 64 && dd > 0 && d == dd * Pow2(pre)
    requires m * dd == Pow2(width - pre + s) + e && e <= Pow2(s) && m < Pow2(width)
    requires (width == 64 ==> s >= pre) && width - pre + s < 2 * width
    requires !g.add && g.mul == m && g.preShift == pre && g.shift == width - pre + s
    ensures ValidUDiv(g, d, width)
  {
    hide Quo, Shr, Pow2;
    MulPositive(dd, Pow2(pre));
    forall x | 0 <= x < Pow2(width)
      ensures UDivFormula(g, x, width) == Quo(x, d)
    {
      PlainExact(x, d, dd, pre, width - pre, s, m, e);
    }
  }

  lemma AddCandidate(d: nat, width: nat, l: nat, m: nat, g: UDivMagic)
    requires 2 <= l < width <= 64 && Pow2(l - 1) < d < Pow2(l)
    requires m == Quo(Pow2(width + l), d) + 1
    requires Pow2(width) <= m < 2 * Pow2(width) 
    requires g.add && g.mul == m - Pow2(width) && g.preShift == 0 && g.shift == l
    ensures ValidUDiv(g, d, width)
  {
    hide Quo, Shr, Pow2;
    AddMultiplier(d, width, l);
    var e := m * d - Pow2(width + l);
    forall x | 0 <= x < Pow2(width)
      ensures UDivFormula(g, x, width) == Quo(x, d)
    {
      AddExact(x, d, width, l, g.mul, e);
    }
  }

  lemma Pow2In128(n: nat)
    requires n <= 127
    ensures 2 * Pow2(n) <= 0x1_0000_0000_0000_0000_0000_0000_0000_0000
  {
    hide Pow2;
    Pow2Literals();
    Pow2Monotone(n, 127);
  }

  lemma Pow2In64(n: nat)
    requires n <= 64
    ensures Pow2(n) <= B64
  {
    hide Pow2;
    Pow2Literals();
    Pow2Monotone(n, 64);
  }

  /** The tests of one search step: the rounded-up multiplier and its error. */
  method Candidate(dd: u64, sh: nat) returns (m: u128, e: u128)
    requires dd > 0 && sh <= 127
    ensures m * dd == Pow2(sh) + e && e < dd
  {
    hide Quo, Pow2;
    Pow2In128(sh);
    CeilDiv(Pow2(sh), dd);
    var num: u128 := Pow2(sh);
    var sum: u128 := num + dd - 1;
    QuoSmaller(sum, dd);
    m := Quo(sum, dd);
    var product: u128 := m * dd;
    e := product - num;
  }

  lemma QuoSmaller(x: nat, d: nat)
    requires d > 0
    ensures Quo(x, d) <= x
  {
    hide Quo, Rem;
    QuoRem(x, d);
    MulMonotone(1, d, Quo(x, d));
  }

  method UdivMagic(d: u64, width: nat) returns (r: Option<UDivMagic>)
    ensures r.Some? <==> UDivDomain(d, width)
    ensures r.Some? ==> ValidUDiv(r.value, d, width)
  {
    hide Quo, Pow2, Shr, BitWidth, Ctz, HasSingleBit, ValidUDiv;
    if width > 64 || width < 2 || d < 3 || HasSingleBit(d)
       || (width < 64 && d >= Pow2(width - 1)) || (width == 64 && d > Pow2(63)) {
      return None;
    }
    Pow2HasSingleBit(63);
    Pow2In64(width);
    DivisorBits(d, width);
    var maxMul: u128 := if width == 64 then B64 - 1 else Pow2(width) - 1;
    Pow2Literals();
    var tz := Ctz(d);
    OddPart(d);
    TrailingZeros(d, width);
    var tryPre := 0;
    while tryPre < 2
    {
      var pre := if tryPre == 0 then 0 else tz;
      if tryPre == 1 && tz == 0 {
        break;
      }
      ShrZero(d);
      var dd: u64 := Shr(d, pre);
      var wp := width - pre;
      var l := BitWidth(dd - 1);
      PreShiftBits(d, dd, pre, width);
      var s := if width == 64 then pre else 0;
      while s <= l
      {
        var m, e := Candidate(dd, wp + s);
        if e <= Pow2(s) && m <= maxMul {
          r := Some(UDivMagic(m, pre, wp + s, false));
          PlainCandidate(d, pre, dd, s, m, e, width, r.value);
          return;
        }
        s := s + 1;
      }
      tryPre := tryPre + 1;
    }
    var l := BitWidth(d - 1);
    AddMultiplier(d, width, l);
    Pow2In128(width + l);
    QuoSmaller(Pow2(width + l), d);
    var m: u128 := Quo(Pow2(width + l), d) + 1;
    r := Some(UDivMagic(m - Pow2(width), 0, l, true));
    AddCandidate(d, width, l, m, r.value);
  }

  lemma ShrZero(d: nat)
    ensures Shr(d, 0) == d && d == d * Pow2(0)
  {}

  lemma TrailingZeros(d: nat, width: nat)
    requires 2 <= width <= 64 && 3 <= d < Pow2(width - 1) && !HasSingleBit(d)
    ensures Ctz(d) < width - 1 && Shr(d, Ctz(d)) >= 3 && Shr(d, Ctz(d)) <= d
  {
    hide Shr, Pow2, HasSingleBit, Ctz;
    OddPart(d);
    var o, p := Shr(d, Ctz(d)), Pow2(Ctz(d));
    MulMonotone(1, o, p);
    MulMonotone(1, p, o);
    if Ctz(d) >= width - 1 { Pow2Monotone(width - 1, Ctz(d)); }
  }

  lemma PreShiftBits(d: nat, dd: nat, pre: nat, width: nat)
    requires 2 <= width <= 64 && 3 <= dd <= d < Pow2(width - 1) && pre < width && d == dd * Pow2(pre)
    ensures BitWidth(dd - 1) < width
    ensures width - pre + BitWidth(dd - 1) < 2 * width
  {
    hide Pow2, BitWidth;
    if BitWidth(dd - 1) >= width { Pow2Monotone(width - 1, BitWidth(dd - 1) - 1); }
  }

  method SdivMagic(d: u64, width: nat) returns (r: Option<SDivMagic>)
    ensures r.Some? <==> SDivDomain(d, width)
    ensures r.Some? ==> ValidSDiv(r.value, d, width)
  {
    hide Quo, Pow2, Shr, BitWidth, HasSingleBit, ValidSDiv;
    if width > 64 || width < 3 || d < 3 || HasSingleBit(d) || d > Pow2(width - 1) {
      return None;
    }
    Pow2In64(width);
    DivisorBits(d, width);
    var maxMul: u128 := if width == 64 then B64 - 1 else Pow2(width) - 1;
    Pow2Literals();
    var l := BitWidth(d - 1);
    var s := if width == 64 then 1 else 0;
    while s <= l
      invariant s <= l
    {
      var m, e := Candidate(d, width - 1 + s);
      if e <= Pow2(s) && m <= maxMul {
        r := Some(SDivMagic(m, width - 1 + s));
        SignedCandidate(d, s, m, e, width, r.value);
        return;
      }
      LastCandidate(d, l, m, e, width, s);
      s := s + 1;
    }
    assert false;
    r := None;
  }

  /** At s == l the test cannot fail, so the signed search always succeeds. */
  lemma LastCandidate(d: nat, l: nat, m: nat, e: nat, width: nat, s: nat)
    requires 2 <= l < width && Pow2(l - 1) < d < Pow2(l) && s <= l
    requires m * d == Pow2(width - 1 + s) + e && e < d
    ensures s == l ==> e <= Pow2(s) && m < Pow2(width)
  {
    hide Pow2;
    if s == l {
      Pow2Add(width, l - 1);
      var p := Pow2(width);
      Pow2Monotone(l, width);
      MulMonotone(Pow2(l - 1) + 1, d, p);
      MulDistribute(Pow2(l - 1), 1, p);
      assert m * d < p * d;
      Cancel(m, p, d);
    }
  }

  lemma SignedCandidate(d: nat, s: nat, m: nat, e: nat, width: nat, g: SDivMagic)
    requires 3 <= width <= 64 && d >= 3 && !HasSingleBit(d) && s < width
    requires m * d == Pow2(width - 1 + s) + e && e <= Pow2(s) && m < Pow2(width)
    requires (width == 64 ==> s >= 1) && g.mul == m && g.shift == width - 1 + s
    ensures ValidSDiv(g, d, width)
  {
    hide Quo, Shr, Pow2, HasSingleBit, SDivFormula, TruncDiv;
    NotDivisible(d, width - 1 + s, m);
    forall x: int | 0 - Pow2(width - 1) <= x < Pow2(width - 1)
      ensures SDivFormula(g, x) == TruncDiv(x, d)
    {
      SignedExact(x, d, m, width - 1, s, e);
    }
  }

  lemma SignedExact(x: int, d: nat, m: u64, a: nat, s: nat, e: nat)
    requires d > 0 && a + s < 256 && 0 - Pow2(a) <= x < Pow2(a)
    requires m * d == Pow2(a + s) + e && 0 < e <= Pow2(s)
    ensures SDivFormula(SDivMagic(m, a + s), x) == TruncDiv(x, d)
  {
    hide Quo, Shr, Pow2;
    var P := Pow2(a + s);
    if x >= 0 {
      ErrorBound(x, e, a, s);
      MagicQuotient(x, d, m, P, e);
      MulNonNegative(x, m);
      ShrIsQuo(x * m, a + s);
    } else {
      var y := -x;
      Pow2Add(a, s);
      MulMonotone(y, Pow2(a), e);
      MulMonotone(e, Pow2(s), Pow2(a));
      MagicNegative(y, d, m, P, e);
      var q: int := Quo(y, d);
      MulDistribute(q, 1, P);
      assert x * m == -(y * m);
      MulNonNegative(q, P);
      var z := y * m - 1;
      QuoUnique(z, P, q, z - q * P);
      ShrIsQuo(z, a + s);
      assert Asr(x * m, a + s) == -1 - q;
    }
  }
}
