/** Arbitrary width integers (src/utils/APInt.hpp, src/utils/APInt.cpp): the
    representation, its constructors and everything but division and printing.
    Up to 64 bits a value is one inline word, up to 128 bits the work is done on a
    native 128 bit integer, above that by the word loops. */
module ApInt {
  import opened Arith
  import opened Words
  import opened Wrapping
  import opened WordLoops
  import opened BitViews

  datatype APInt = Small(bits: nat, val: u64) | Wide(bits: nat, words: seq<u64>)

  /** A width the source can count the words of in 32 bits. */
  predicate Width(bits: nat) {
    1 <= bits && bits + 63 < B32
  }

  function WordsFor(bits: nat): nat {
    (bits + 63) / 64
  }

  /** The storage words, data() in the source. */
  function Data(a: APInt): seq<u64> {
    if a.Small? then [a.val] else a.words
  }

  /** The unsigned value. */
  function V(a: APInt): nat {
    if a.Small? then a.val else Val(a.words, B64)
  }

  /** The signed value. */
  function S(a: APInt): int
    requires a.bits >= 1
  {
    SignedOf(V(a), a.bits)
  }

  /** Small exactly up to 64 bits, and unused high bits are zero. */
  predicate Wf(a: APInt) {
    && Width(a.bits)
    && (a.Small? <==> a.bits <= 64)
    && (a.Wide? ==> |a.words| == WordsFor(a.bits))
    && V(a) < Pow2(a.bits)
  }

  /** The definition of S, for proofs that hide it. */
  lemma SignedAgain(r: APInt)
    requires Wf(r)
    ensures S(r) == SignedOf(V(r), r.bits)
  {}

  lemma DataValue(a: APInt)
    requires Wf(a)
    ensures Val(Data(a), B64) == V(a) && |Data(a)| == WordsFor(a.bits)
  {
    if a.Small? {
      ValCons(a.val, [], B64);
      assert [a.val] + [] == [a.val];
    }
  }

  /** Equal widths and values mean equal representations. */
  lemma Canonical(a: APInt, b: APInt)
    requires Wf(a) && Wf(b) && a.bits == b.bits && V(a) == V(b)
    ensures a == b
  {
    if a.Wide? { ValInjective(a.words, b.words, B64); }
  }

  // ----- storage -----

  /** The low bits of a word, 1 to 64 of them. */
  function Mask64(bits: nat): (m: nat)
    requires 1 <= bits <= 64
    ensures m == Pow2(bits) - 1
  {
    Pow2Literals();
    OnesShr(64 - bits, bits);
    Shr(B64 - 1, 64 - bits)
  }

  /** Zeroes the unused bits of a buffer. */
  method ClearUnused(d: array<u64>, bits: nat)
    requires bits >= 1 && d.Length == WordsFor(bits)
    modifies d
    ensures Val(d[..], B64) == Cut(old(Val(d[..], B64)), bits)
  {
    hide Val, Cut;
    var rem := bits % 64;
    var top := d.Length - 1;
    ghost var was := d[..];
    if rem != 0 {
      MaskIsLow(d[top], rem);
      ShrLow(d[top], rem);
      Pow2Literals();
      Pow2Monotone(rem, 64);
      d[top] := BitAnd(d[top], Mask64(rem));
    }
    ClearedValue(was, d[..], bits);
  }

  lemma ClearedValue(was: seq<u64>, now: seq<u64>, bits: nat)
    requires bits >= 1 && |was| == WordsFor(bits) == |now| && now[..|was| - 1] == was[..|was| - 1]
    requires now[|was| - 1] == if bits % 64 == 0 then was[|was| - 1] else Low(was[|was| - 1], bits % 64)
    ensures Val(now, B64) == Cut(Val(was, B64), bits)
  {
    hide Val, Pow, Cut, Low;
    var n, rem := |was|, bits % 64;
    assert was == was[..n - 1] + [was[n - 1]] && now == was[..n - 1] + [now[n - 1]];
    if rem == 0 {
      WordPow(n);
      ValBound(was, B64);
      CutSmall(Val(was, B64), bits);
    } else {
      assert bits == rem + 64 * (n - 1);
      TopCut(was[..n - 1], was[n - 1], rem);
    }
  }

  /** Keeping rem bits of the top word cuts the number. */
  lemma TopCut(lo: seq<u64>, top: u64, rem: nat)
    ensures Val(lo + [Low(top, rem)], B64) == Cut(Val(lo + [top], B64), rem + 64 * |lo|)
  {
    hide Val, Pow, Cut, Low, Shr, Shl, Pow2;
    var n := |lo|;
    ValSnoc(lo, top, B64);
    ValSnoc(lo, Low(top, rem), B64);
    ShrLow(top, rem);
    ShlIsMul(Shr(top, rem), rem);
    WordPow(n);
    Pow2Add(rem, 64 * n);
    ValBound(lo, B64);
    TopAlgebra(Val(lo, B64), top, Low(top, rem), Shr(top, rem), Pow2(rem), Pow(B64, n));
    CutUnique(Val(lo + [top], B64), rem + 64 * n, Shr(top, rem), Val(lo + [Low(top, rem)], B64));
  }

  lemma TopAlgebra(lo: nat, top: nat, l: nat, h: nat, t: nat, p: nat)
    requires top == h * t + l && l < t && lo < p
    ensures lo + top * p == h * (t * p) + (lo + l * p) && lo + l * p < t * p
  {
    MulDistribute(h * t, l, p);
    MulAssoc(h, t, p);
    MulStrict(l, t, p);
  }

  /** A buffer becomes a value once its unused bits are cleared. */
  method Freeze(bits: nat, d: array<u64>) returns (r: APInt)
    requires Width(bits) && d.Length == WordsFor(bits)
    modifies d
    ensures Wf(r) && r.bits == bits && V(r) == Cut(old(Val(d[..], B64)), bits)
  {
    ClearUnused(d, bits);
    if bits <= 64 {
      ValCons(d[0], [], B64);
      assert d[..] == [d[0]] + [];
      r := Small(bits, d[0]);
    } else {
      r := Wide(bits, d[..]);
    }
  }

  // ----- constructors -----

  /** The value truncated to the width. */
  method FromU64(bits: nat, v: u64) returns (r: APInt)
    requires Width(bits)
    ensures Wf(r) && r.bits == bits && V(r) == Cut(v, bits)
  {
    hide Val, Cut, Pow2;
    Pow2Literals();
    if bits <= 64 {
      MaskIsLow(v, bits);
      CutIsLow(v, bits);
      Pow2Monotone(bits, 64);
      r := Small(bits, BitAnd(v, Mask64(bits)));
    } else {
      var d := new u64[WordsFor(bits)](_ => 0);
      d[0] := v;
      LowWords(d[..], v, 0);
      Pow2Monotone(64, bits);
      CutSmall(v, bits);
      r := Wide(bits, d[..]);
    }
  }

  lemma LowWords(d: seq<u64>, x: u64, y: u64)
    requires |d| >= 1 && d[0] == x && (|d| >= 2 ==> d[1] == y) && forall i :: 2 <= i < |d| ==> d[i] == 0
    ensures Val(d, B64) == x + (if |d| >= 2 then B64 * y else 0)
  {
    if |d| >= 2 {
      ValZeros(d[2..], B64);
      assert d[1..][1..] == d[2..];
    }
  }

  method Zero(bits: nat) returns (r: APInt)
    requires Width(bits)
    ensures Wf(r) && r.bits == bits && V(r) == 0
  {
    r := FromU64(bits, 0);
    CutSmall(0, bits);
  }

  method FromU128(bits: nat, v: u128) returns (r: APInt)
    requires Width(bits)
    ensures Wf(r) && r.bits == bits && V(r) == Cut(v, bits)
  {
    hide Val, Cut, Pow2;
    var d := new u64[WordsFor(bits)](_ => 0);
    d[0] := v % B64;
    if d.Length > 1 {
      d[1] := v / B64;
    }
    LowWords(d[..], v % B64, v / B64);
    if d.Length == 1 {
      Pow2Literals();
      CutUnique(v, 64, v / B64, v % B64);
      CutNarrow(v, 64, bits);
    }
    r := Freeze(bits, d);
  }

  /** Sign extended from 128 bits. */
  method FromI128(bits: nat, v: i128) returns (r: APInt)
    requires Width(bits)
    ensures Wf(r) && r.bits == bits && V(r) == Cut(v, bits)
  {
    hide Val, Cut, Pow2;
    var d := new u64[WordsFor(bits)](_ => 0);
    var n := d.Length;
    var u: u128 := if v < 0 then v + B64 * B64 else v;
    d[0] := u % B64;
    if n > 1 {
      d[1] := u / B64;
    }
    var i := 2;
    while i < n
      invariant n == 1 || 2 <= i <= n || i == 2
      invariant d[0] == u % B64 && (n > 1 ==> d[1] == u / B64)
      invariant forall h :: 2 <= h < i && h < n ==> d[h] == if v < 0 then B64 - 1 else 0
    {
      d[i] := if v < 0 then B64 - 1 else 0;
      i := i + 1;
    }
    SignedWords(d[..], v, u, bits);
    r := Freeze(bits, d);
  }

  lemma SignedWords(d: seq<u64>, v: i128, u: u128, bits: nat)
    requires bits >= 1 && |d| == WordsFor(bits) && u == if v < 0 then v + B64 * B64 else v
    requires d[0] == u % B64 && (|d| > 1 ==> d[1] == u / B64)
    requires forall h :: 2 <= h < |d| ==> d[h] == if v < 0 then B64 - 1 else 0
    ensures Cut(Val(d, B64), bits) == Cut(v, bits)
  {
    hide Val, Cut, Pow2, Pow;
    Pow2Literals();
    var n := |d|;
    if n == 1 {
      LowWords(d, u % B64, 0);
      CutUnique(v, 64, (if v < 0 then u / B64 - B64 else u / B64), u % B64);
      CutNarrow(v, 64, bits);
    } else {
      ValSplit(d, 2, B64);
      LowWords(d[..2], u % B64, u / B64);
      assert Pow(B64, 2) == B64 * B64 by { PowNext(B64, 1); PowNext(B64, 0); }
      if v < 0 {
        OnesValue(d[2..], B64);
        PowAdd(B64, 2, n - 2);
        WordPow(n);
        MulDistribute(Pow(B64, n - 2), 1, B64 * B64);
        Pow2Add(64 * n - bits, bits);
        CutCongruent(Val(d, B64), v, Pow2(64 * n - bits), bits);
      } else {
        ValZeros(d[2..], B64);
      }
    }
  }

  // ----- conversions -----

  /** Moving up to the top of a w bit register and arithmetically down again. */
  lemma SignExtend(v: nat, bits: nat, w: nat)
    requires 1 <= bits <= w && v < Pow2(bits)
    ensures Asr(SignedOf(Cut(Shl(v, w - bits), w), w), w - bits) == SignedOf(v, bits)
    ensures FitsSigned(SignedOf(v, bits), w)
  {
    hide Asr, Cut, Shl;
    var s := w - bits;
    ShlIsMul(v, s);
    ShlBound(v, s, bits);
    CutSmall(Shl(v, s), w);
    Pow2Add(bits, s);
    Pow2Add(bits - 1, s);
    Pow2Monotone(bits - 1, w - 1);
    if v < Pow2(bits - 1) { MulStrict(v, Pow2(bits - 1), Pow2(s)); } else { MulMonotone(Pow2(bits - 1), v, Pow2(s)); }
    MulDistribute(v, Pow2(bits), Pow2(s));
    AsrUnique(SignedOf(Shl(v, s), w), s, SignedOf(v, bits), 0);
  }

  /** The inline word as a signed number. */
  function Sext64(a: APInt): (x: int)
    requires Wf(a) && a.Small?
    ensures x == S(a) && -0x8000_0000_0000_0000 <= x < 0x8000_0000_0000_0000
  {
    Pow2Literals();
    SignExtend(a.val, a.bits, 64);
    Asr(SignedOf(Cut(Shl(a.val, 64 - a.bits), 64), 64), 64 - a.bits)
  }

  /** The native value of 65 to 128 bits. */
  function Get128(a: APInt): (x: u128)
    requires Wf(a) && a.Wide? && a.bits <= 128
    ensures x == V(a)
  {
    TwoWords(a.words, a.bits);
    BitOr(a.words[0], Shl(a.words[1], 64))
  }

  lemma TwoWords(w: seq<u64>, bits: nat)
    requires |w| == 2 && Val(w, B64) < Pow2(bits) && bits <= 128
    ensures BitOr(w[0], Shl(w[1], 64)) == Val(w, B64) < 0x1_0000_0000_0000_0000_0000_0000_0000_0000
  {
    hide Val, Shl, BitOr, Pow2;
    LowWords(w, w[0], w[1]);
    Pow2Literals();
    Pow2Monotone(bits, 128);
    OrDisjoint(w[1], w[0], 64);
    ShlIsMul(w[1], 64);
  }

  /** to_i128 of a value that has at most 128 bits. */
  function ToI128(a: APInt): (x: int)
    requires Wf(a) && a.bits <= 128
    ensures x == S(a)
    ensures -0x8000_0000_0000_0000_0000_0000_0000_0000 <= x < 0x8000_0000_0000_0000_0000_0000_0000_0000
  {
    Pow2Literals();
    SignExtend(V(a), a.bits, 128);
    var u := if a.Small? then a.val else Get128(a);
    if a.bits >= 128 then SignedOf(u, 128) else
    Asr(SignedOf(Cut(Shl(u, 128 - a.bits), 128), 128), 128 - a.bits)
  }

  /** Bit i, read from the word that holds it. */
  method BitAt(a: APInt, i: nat) returns (r: bool)
    requires Wf(a) && i < a.bits
    ensures r == Bit(V(a), i)
  {
    DataValue(a);
    WordBit(Data(a), i);
    BitOfShr(Data(a)[i / 64], i % 64);
    r := BitAnd(Shr(Data(a)[i / 64], i % 64), 1) != 0;
  }

  method IsNeg(a: APInt) returns (r: bool)
    requires Wf(a)
    ensures r == (S(a) < 0)
  {
    r := BitAt(a, a.bits - 1);
    TopBit(V(a), a.bits);
  }

  // ----- addition, subtraction, multiplication -----

  method Add(a: APInt, b: APInt) returns (r: APInt)
    requires Wf(a) && Wf(b) && a.bits == b.bits
    ensures Wf(r) && r.bits == a.bits && V(r) == Cut(V(a) + V(b), a.bits)
  {
    hide Val, Cut, Pow2;
    Pow2Literals();
    if a.Small? {
      r := FromU64(a.bits, Cut(a.val + b.val, 64));
      CutNarrow(a.val + b.val, 64, a.bits);
    } else if a.bits <= 128 {
      r := FromU128(a.bits, Cut(Get128(a) + Get128(b), 128));
      CutNarrow(Get128(a) + Get128(b), 128, a.bits);
    } else {
      var d := new u64[WordsFor(a.bits)](_ => 0);
      var carry := AddN(d, a.words, b.words);
      WordCongruent(Val(a.words, B64) + Val(b.words, B64), Val(d[..], B64), carry, d.Length, a.bits);
      r := Freeze(a.bits, d);
    }
  }

  /** Dropping a carry of n words does not show in the width. */
  lemma WordCongruent(x: int, y: int, k: int, n: nat, bits: nat)
    requires bits <= 64 * n && x == y + k * Pow(B64, n)
    ensures Cut(x, bits) == Cut(y, bits)
  {
    WordPow(n);
    Pow2Add(64 * n - bits, bits);
    MulAssoc(k, Pow2(64 * n - bits), Pow2(bits));
    CutCongruent(x, y, k * Pow2(64 * n - bits), bits);
  }

  method Sub(a: APInt, b: APInt) returns (r: APInt)
    requires Wf(a) && Wf(b) && a.bits == b.bits
    ensures Wf(r) && r.bits == a.bits && V(r) == Cut(V(a) - V(b), a.bits)
  {
    hide Val, Cut, Pow2;
    Pow2Literals();
    ghost var x: int := V(a) - V(b);
    if a.Small? {
      r := FromU64(a.bits, Cut(a.val - b.val, 64));
      CutNarrow(x, 64, a.bits);
    } else if a.bits <= 128 {
      r := FromU128(a.bits, Cut(Get128(a) - Get128(b), 128));
      CutNarrow(x, 128, a.bits);
    } else {
      var d := new u64[WordsFor(a.bits)](_ => 0);
      var borrow := SubN(d, a.words, b.words);
      ghost var k: int := 0 - borrow as int;
      MulDistribute(0, borrow, Pow(B64, d.Length));
      WordCongruent(x, Val(d[..], B64), k, d.Length, a.bits);
      r := Freeze(a.bits, d);
    }
  }

  method Mul(a: APInt, b: APInt) returns (r: APInt)
    requires Wf(a) && Wf(b) && a.bits == b.bits
    ensures Wf(r) && r.bits == a.bits && V(r) == Cut(V(a) * V(b), a.bits)
  {
    hide Val, Cut, Pow2;
    Pow2Literals();
    ghost var x := V(a) * V(b);
    if a.Small? {
      r := FromU64(a.bits, Cut(a.val * b.val, 64));
      CutNarrow(x, 64, a.bits);
    } else if a.bits <= 128 {
      r := FromU128(a.bits, Cut(Get128(a) * Get128(b), 128));
      CutNarrow(x, 128, a.bits);
    } else {
      var d := new u64[WordsFor(a.bits)](_ => 0);
      MulN(d, a.words, b.words);
      CutNarrow(x, 64 * d.Length, a.bits);
      r := Freeze(a.bits, d);
    }
  }

  method Neg(a: APInt) returns (r: APInt)
    requires Wf(a)
    ensures Wf(r) && r.bits == a.bits && V(r) == Cut(-(V(a) as int), a.bits)
  {
    var z := Zero(a.bits);
    r := Sub(z, a);
  }

  // ----- bitwise operators -----

  method Not(a: APInt) returns (r: APInt)
    requires Wf(a)
    ensures Wf(r) && r.bits == a.bits && V(r) == Pow2(a.bits) - 1 - V(a)
  {
    hide Val, Cut, Pow2;
    Pow2Literals();
    ghost var x: int := -1 - V(a);
    if a.Small? {
      r := FromU64(a.bits, B64 - 1 - a.val);
      CutCongruent(B64 - 1 - a.val, x, 1, 64);
      CutNarrow(B64 - 1 - a.val, 64, a.bits);
      CutNarrow(x, 64, a.bits);
    } else {
      var d := new u64[WordsFor(a.bits)](_ => 0);
      for i := 0 to d.Length
        invariant forall h :: 0 <= h < i ==> d[h] == B64 - 1 - a.words[h]
      {
        d[i] := B64 - 1 - a.words[i];
      }
      ComplementValue(a.words, d[..]);
      WordCongruent(Val(d[..], B64), x, 1, d.Length, a.bits);
      r := Freeze(a.bits, d);
    }
    CutUnique(x, a.bits, -1, Pow2(a.bits) - 1 - V(a));
  }

  lemma {:induction false} ComplementValue(s: seq<u64>, t: seq<u64>)
    requires |s| == |t| && forall h :: 0 <= h < |s| ==> t[h] == B64 - 1 - s[h]
    ensures Val(s, B64) + Val(t, B64) == Pow(B64, |s|) - 1
  {
    if s != [] {
      ComplementValue(s[1..], t[1..]);
      MulDistribute(Val(s[1..], B64), Val(t[1..], B64), B64);
      MulDistribute(Pow(B64, |s| - 1), 1, B64);
    }
  }

  datatype BitOp = AndOp | OrOp | XorOp

  function WordOp(op: BitOp, x: nat, y: nat): nat {
    match op
    case AndOp => BitAnd(x, y)
    case OrOp => BitOr(x, y)
    case XorOp => BitXor(x, y)
  }

  predicate TruthOf(op: BitOp, x: bool, y: bool) {
    match op
    case AndOp => x && y
    case OrOp => x || y
    case XorOp => x != y
  }

  lemma WordOpBits(op: BitOp, x: nat, y: nat, i: nat)
    ensures Bit(WordOp(op, x, y), i) == TruthOf(op, Bit(x, i), Bit(y, i))
  {
    BitAndBits(x, y, i);
    BitOrBits(x, y, i);
    BitXorBits(x, y, i);
  }

  /** The operator stays within the width of its operands. */
  lemma WordOpBound(op: BitOp, x: nat, y: nat, k: nat)
    requires x < Pow2(k) && y < Pow2(k)
    ensures WordOp(op, x, y) < Pow2(k)
  {
    hide Bit, WordOp;
    forall i | i >= k ensures !Bit(WordOp(op, x, y), i) {
      WordOpBits(op, x, y, i);
      BitBeyond(x, k, i);
      BitBeyond(y, k, i);
    }
    BitsBound(WordOp(op, x, y), k);
  }

  /** and, or and xor: the loops of the three operators differ in the word operator only. */
  method Bitwise(op: BitOp, a: APInt, b: APInt) returns (r: APInt)
    requires Wf(a) && Wf(b) && a.bits == b.bits
    ensures Wf(r) && r.bits == a.bits
    ensures forall i: nat :: Bit(V(r), i) == TruthOf(op, Bit(V(a), i), Bit(V(b), i))
  {
    hide Bit, Val, Cut, Pow2, TruthOf, WordOp;
    Pow2Literals();
    if a.Small? {
      WordOpBound(op, a.val, b.val, 64);
      WordOpBound(op, a.val, b.val, a.bits);
      r := FromU64(a.bits, WordOp(op, a.val, b.val));
      CutSmall(WordOp(op, a.val, b.val), a.bits);
      forall i: nat ensures Bit(V(r), i) == TruthOf(op, Bit(V(a), i), Bit(V(b), i)) {
        WordOpBits(op, a.val, b.val, i);
      }
    } else {
      var d := new u64[WordsFor(a.bits)](_ => 0);
      for i := 0 to d.Length
        invariant forall h :: 0 <= h < i ==> d[h] == WordOp(op, a.words[h], b.words[h])
      {
        WordOpBound(op, a.words[i], b.words[i], 64);
        d[i] := WordOp(op, a.words[i], b.words[i]);
      }
      BitwiseWords(op, a.words, b.words, d[..], a.bits);
      r := Wide(a.bits, d[..]);
    }
  }

  lemma BitwiseWords(op: BitOp, a: seq<u64>, b: seq<u64>, d: seq<u64>, bits: nat)
    requires |a| == |b| == |d| && bits <= 64 * |a|
    requires Val(a, B64) < Pow2(bits) && Val(b, B64) < Pow2(bits)
    requires forall h :: 0 <= h < |d| ==> d[h] == WordOp(op, a[h], b[h])
    ensures Val(d, B64) < Pow2(bits)
    ensures forall i: nat :: Bit(Val(d, B64), i) == TruthOf(op, Bit(Val(a, B64), i), Bit(Val(b, B64), i))
  {
    hide Bit, Val, Pow2, WordOp;
    forall i: nat ensures Bit(Val(d, B64), i) == TruthOf(op, Bit(Val(a, B64), i), Bit(Val(b, B64), i)) {
      if i < 64 * |d| {
        WordBit(a, i);
        WordBit(b, i);
        WordBit(d, i);
        WordOpBits(op, a[i / 64], b[i / 64], i % 64);
      } else {
        ValBound(a, B64);
        ValBound(b, B64);
        ValBound(d, B64);
        WordPow(|d|);
        BitBeyond(Val(a, B64), 64 * |d|, i);
        BitBeyond(Val(b, B64), 64 * |d|, i);
        BitBeyond(Val(d, B64), 64 * |d|, i);
      }
    }
    forall i | i >= bits ensures !Bit(Val(d, B64), i) {
      BitBeyond(Val(a, B64), bits, i);
      BitBeyond(Val(b, B64), bits, i);
    }
    BitsBound(Val(d, B64), bits);
  }
}
