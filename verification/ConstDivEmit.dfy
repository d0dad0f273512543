/** Code generation for one division by a constant
    (src/mir/matcher_const_div.cpp). Every contract speaks about running the
    code: for all initial register files, what the new register holds. */
module ConstDivEmit {
  import opened Arith
  import opened Magic
  import opened Mir
  import opened Options

  class ConstDivEmitter {
    var out: seq<Instr>
    // the number of the last register given out
    var next: nat

    constructor (out: seq<Instr>, next: nat)
      ensures this.out == out && this.next == next
    {
      this.out := out;
      this.next := next;
    }

    method Fresh() returns (dst: Reg)
      modifies this
      ensures out == old(out) && next == old(next) + 1 && dst == Virt(next)
    {
      next := next + 1;
      dst := Virt(next);
    }

    method Copy(src: Operand) returns (dst: Reg)
      modifies this
      ensures next == old(next) + 1 && dst == Virt(next) && Keeps(old(out), out, old(next))
      ensures forall rf :: V(out, rf, dst) == OpV(old(out), rf, src)
    {
      dst := Fresh();
      RunSnoc(out, Mov(dst, src));
      out := out + [Mov(dst, src)];
    }

    method Emit(op: ArithOp, dst: Reg, src: Operand)
      requires dst.Virt?
      modifies this`out
      ensures forall rf :: V(out, rf, dst) == EvalArith(op, V(old(out), rf, dst), OpV(old(out), rf, src))
      ensures forall rf, r :: r != dst ==> V(out, rf, r) == V(old(out), rf, r)
    {
      hide EvalArith;
      RunSnoc(out, Arith2(op, dst, src));
      out := out + [Arith2(op, dst, src)];
    }

    /** copy, then the two-operand instruction on the copy */
    method Op2(op: ArithOp, a: Reg, b: Operand) returns (dst: Reg)
      requires Old(a, next) && OldOperand(b, next)
      modifies this
      ensures next == old(next) + 1 && dst == Virt(next) && Keeps(old(out), out, old(next))
      ensures forall rf :: V(out, rf, dst) == EvalArith(op, V(old(out), rf, a), OpV(old(out), rf, b))
    {
      hide EvalArith, Run;
      dst := Copy(R(a));
      ghost var mid := out;
      Emit(op, dst, b);
      forall rf
        ensures V(out, rf, dst) == EvalArith(op, V(old(out), rf, a), OpV(old(out), rf, b))
      {
        if b.R? { assert V(mid, rf, b.reg) == V(old(out), rf, b.reg); }
        assert OpV(mid, rf, b) == OpV(old(out), rf, b);
      }
    }

    method ShrBy(src: Reg, n: nat) returns (dst: Reg)
      requires Old(src, next) && n < 64
      modifies this
      ensures next == old(next) + 1 && dst == Virt(next) && Keeps(old(out), out, old(next))
      ensures forall rf :: V(out, rf, dst) == Shr(V(old(out), rf, src), n)
    {
      hide V, Shr;
      dst := Op2(Shr2, src, Imm(n));
      forall rf ensures V(out, rf, dst) == Shr(V(old(out), rf, src), n) {
        ShrFits(V(old(out), rf, src), n);
      }
    }

    method SarBy(src: Reg, n: nat) returns (dst: Reg)
      requires Old(src, next) && n < 64
      modifies this
      ensures next == old(next) + 1 && dst == Virt(next) && Keeps(old(out), out, old(next))
      ensures forall rf :: V(out, rf, dst) == Wrap(Asr(Signed(V(old(out), rf, src)), n))
    {
      hide V, Asr;
      dst := Op2(Sar2, src, Imm(n));
    }

    method ShlBy(src: Reg, n: nat) returns (dst: Reg)
      requires Old(src, next) && n < 64
      modifies this
      ensures next == old(next) + 1 && dst == Virt(next) && Keeps(old(out), out, old(next))
      ensures forall rf :: V(out, rf, dst) == Wrap(V(old(out), rf, src) * Pow2(n))
    {
      hide V, Shl, Pow2;
      dst := Op2(Shl2, src, Imm(n));
      forall rf ensures V(out, rf, dst) == Wrap(V(old(out), rf, src) * Pow2(n)) {
        ShlIsMul(V(old(out), rf, src), n);
      }
    }

    method AddRegs(a: Reg, b: Reg) returns (dst: Reg)
      requires Old(a, next) && Old(b, next)
      modifies this
      ensures next == old(next) + 1 && dst == Virt(next) && Keeps(old(out), out, old(next))
      ensures forall rf :: V(out, rf, dst) == Wrap(V(old(out), rf, a) + V(old(out), rf, b))
    {
      hide Run;
      dst := Op2(Add2, a, R(b));
    }

    method SubRegs(a: Reg, b: Reg) returns (dst: Reg)
      requires Old(a, next) && Old(b, next)
      modifies this
      ensures next == old(next) + 1 && dst == Virt(next) && Keeps(old(out), out, old(next))
      ensures forall rf :: V(out, rf, dst) == Wrap(V(old(out), rf, a) - V(old(out), rf, b))
    {
      hide Run;
      dst := Op2(Sub2, a, R(b));
    }

    method MulConst(a: Reg, c: u64) returns (dst: Reg)
      requires Old(a, next)
      modifies this
      ensures next == old(next) + 1 && dst == Virt(next) && Keeps(old(out), out, old(next))
      ensures forall rf :: V(out, rf, dst) == Wrap(V(old(out), rf, a) * c)
    {
      hide V;
      dst := Op2(Mul2, a, Imm(c));
    }

    method Negate(a: Reg) returns (dst: Reg)
      requires Old(a, next)
      modifies this
      ensures next == old(next) + 1 && dst == Virt(next) && Keeps(old(out), out, old(next))
      ensures forall rf :: V(out, rf, dst) == Wrap(0 - V(old(out), rf, a))
    {
      hide Run;
      dst := Copy(R(a));
      ghost var mid := out;
      EmitNeg(dst);
      KeepsTrans(old(out), mid, out, old(next), old(next));
      forall rf ensures V(out, rf, dst) == Wrap(0 - V(old(out), rf, a)) {
        assert V(mid, rf, dst) == V(old(out), rf, a);
      }
    }

    method EmitNeg(dst: Reg)
      modifies this`out
      ensures forall rf :: V(out, rf, dst) == Wrap(0 - V(old(out), rf, dst))
      ensures forall rf, r :: r != dst ==> V(out, rf, r) == V(old(out), rf, r)
    {
      hide Run;
      RunSnoc(out, Neg1(dst));
      out := out + [Neg1(dst)];
    }

    /** mov rax, x and the high multiply of rax and creg */
    method EmitMulHigh(x: Reg, creg: Reg, signed: bool)
      requires x.Virt? && creg.Virt?
      modifies this`out
      ensures forall rf :: V(out, rf, RDX) == HighHalf(V(old(out), rf, x), V(old(out), rf, creg), signed)
      ensures forall rf, r: Reg {:trigger V(out, rf, r)} :: r.Virt? ==> V(out, rf, r) == V(old(out), rf, r)
    {
      hide Asr, Run;
      RunSnoc(out, Mov(RAX, R(x)));
      out := out + [Mov(RAX, R(x))];
      RunSnoc(out, MulHigh(signed, RAX, RDX, RAX, creg));
      out := out + [MulHigh(signed, RAX, RDX, RAX, creg)];
    }

    method ConstReg(c: u64) returns (dst: Reg)
      modifies this
      ensures next == old(next) + 1 && dst == Virt(next) && Keeps(old(out), out, old(next))
      ensures forall rf :: V(out, rf, dst) == c
    {
      dst := Copy(Imm(c));
    }

    /** The high half of the double-width product, through the fixed registers. */
    method Mulh(x: Reg, c: u64, signed: bool) returns (dst: Reg)
      requires Old(x, next)
      modifies this
      ensures next == old(next) + 2 && dst == Virt(next) && Keeps(old(out), out, old(next))
      ensures forall rf :: V(out, rf, dst) == HighHalf(V(old(out), rf, x), c, signed)
    {
      hide Run, HighHalf;
      var creg := ConstReg(c);
      ghost var c1 := out;
      EmitMulHigh(x, creg, signed);
      ghost var c2 := out;
      dst := Copy(R(RDX));
      KeepsTrans(old(out), c1, c2, old(next), old(next) + 1);
      KeepsTrans(old(out), c2, out, old(next), old(next) + 1);
      forall rf
        ensures V(out, rf, dst) == HighHalf(V(old(out), rf, x), c, signed)
      {
        assert V(out, rf, dst) == V(c2, rf, RDX);
        assert V(c1, rf, x) == V(old(out), rf, x) && V(c1, rf, creg) == c;
      }
    }

    method Udiv(x: Reg, d: u64, width: nat) returns (q: Reg, ok: bool)
      requires Old(x, next) && d > 0 && (1 <= width <= 32 || width == 64)
      modifies this
      ensures next >= old(next) && Old(q, next) && Keeps(old(out), out, old(next))
      ensures ok <==> HasSingleBit(d) || UDivDomain(d, width)
      ensures ok ==> forall rf :: V(old(out), rf, x) < Pow2(width) ==> V(out, rf, q) == Quo(V(old(out), rf, x), d)
      ensures !ok ==> out == old(out)
    {
      hide V, Run, Quo, Shr, Pow2, HasSingleBit, ValidUDiv, UDivDomain, Ctz;
      ok := true;
      if HasSingleBit(d) {
        Pow2Quotient(d);
        if d == 1 { return x, true; }
        q := ShrBy(x, Ctz(d));
        return;
      }
      var magic := UdivMagic(d, width);
      if magic.None? { return x, false; }
      var g := magic.value;
      ghost var c0 := out;
      ShiftRange(g, d, width);
      if !g.add {
        var y := x;
        if g.preShift != 0 { y := ShrBy(x, g.preShift); }
        ghost var c1 := out;
        ShrByZero();
        assert forall rf :: V(c1, rf, y) == Shr(V(c0, rf, x), g.preShift);
        if width == 64 {
          var h := Mulh(y, g.mul, false);
          q := ShrBy(h, g.shift - 64);
          forall rf | V(c0, rf, x) < Pow2(width) ensures V(out, rf, q) == Quo(V(c0, rf, x), d) {
            PlainWide(V(c0, rf, x), g, d);
          }
        } else {
          var p := MulConst(y, g.mul);
          q := ShrBy(p, g.shift);
          forall rf | V(c0, rf, x) < Pow2(width) ensures V(out, rf, q) == Quo(V(c0, rf, x), d) {
            PlainNarrow(V(c0, rf, x), g, d, width);
          }
        }
        return;
      }
      var t;
      if width == 64 {
        t := Mulh(x, g.mul, false);
      } else {
        var p := MulConst(x, g.mul);
        t := ShrBy(p, width);
      }
      ghost var c1 := out;
      forall rf | V(c0, rf, x) < Pow2(width) ensures V(c1, rf, t) == Shr(V(c0, rf, x) * g.mul, width) {
        HighPart(V(c0, rf, x), g.mul, width);
      }
      var u := SubRegs(x, t);
      var u' := ShrBy(u, 1);
      var w := AddRegs(u', t);
      q := ShrBy(w, g.shift - 1);
      forall rf | V(c0, rf, x) < Pow2(width) ensures V(out, rf, q) == Quo(V(c0, rf, x), d) {
        AddFixup(V(c0, rf, x), V(c1, rf, t), g, d, width);
      }
    }

    /** x holds the sign extended operand. */
    method Sdiv(x: Reg, d: i64, width: nat) returns (q: Reg, ok: bool)
      requires Old(x, next) && d != 0 && (3 <= width <= 32 || width == 64)
      modifies this
      ensures next >= old(next) && Old(q, next) && Keeps(old(out), out, old(next))
      ensures ok <==> HasSingleBit(Abs(d)) || SDivDomain(Abs(d), width)
      ensures ok ==> forall rf :: FitsSigned(Signed(V(old(out), rf, x)), width) ==>
                              V(out, rf, q) == Wrap(TruncDiv(Signed(V(old(out), rf, x)), d))
      ensures !ok ==> out == old(out)
    {
      hide V, Run, Wrap, Signed, Asr, Quo, Shr, Pow2, HasSingleBit, SDivDomain, Ctz, TruncDiv, FitsSigned;
      ghost var c0 := out;
      q, ok := SdivAbs(x, Abs(d), width);
      if ok && d < 0 {
        ghost var c1, q1 := out, q;
        q := Negate(q);
        forall rf | FitsSigned(Signed(V(c0, rf, x)), width)
          ensures V(out, rf, q) == Wrap(TruncDiv(Signed(V(c0, rf, x)), d))
        {
          NegateQuotient(Signed(V(c0, rf, x)), d);
        }
      }
    }

    /** The quotient by |d|; only the sign of the result is still open. */
    method SdivAbs(x: Reg, ad: u64, width: nat) returns (q: Reg, ok: bool)
      requires Old(x, next) && 0 < ad <= 0x8000_0000_0000_0000 && (3 <= width <= 32 || width == 64)
      modifies this
      ensures next >= old(next) && Old(q, next) && Keeps(old(out), out, old(next))
      ensures ok <==> HasSingleBit(ad) || SDivDomain(ad, width)
      ensures ok ==> forall rf :: FitsSigned(Signed(V(old(out), rf, x)), width) ==>
                              V(out, rf, q) == Wrap(TruncDiv(Signed(V(old(out), rf, x)), ad))
      ensures !ok ==> out == old(out)
    {
      hide V, Run, Wrap, Signed, Asr, Quo, Shr, Pow2, HasSingleBit, ValidSDiv, SDivDomain, Ctz, TruncDiv, FitsSigned, HighHalf, SDivFormula;
      ghost var c0 := out;
      ok := true;
      if ad == 1 {
        forall rf ensures V(c0, rf, x) == Wrap(TruncDiv(Signed(V(c0, rf, x)), 1)) {
          DivideByOne(V(c0, rf, x));
        }
        OneIsSingleBit();
        return x, true;
      } else if HasSingleBit(ad) {
        var k := Ctz(ad);
        SmallShift(ad);
        q := BiasedSar(x, k);
        return;
      }
      var magic := SdivMagic(ad, width);
      if magic.None? { return x, false; }
      var g := magic.value;
      SignedShiftRange(g, ad, width);
      var q0;
      if width == 64 {
        var t := Mulh(x, g.mul, true);
        if g.mul > 0x7fff_ffff_ffff_ffff {
          t := AddRegs(t, x);
        }
        forall rf ensures V(out, rf, t) == Wrap(Asr(Signed(V(c0, rf, x)) * g.mul, 64)) {
          SignedHigh(V(c0, rf, x), g.mul);
        }
        ghost var c1 := out;
        q0 := SarBy(t, g.shift - 64);
        forall rf ensures V(out, rf, q0) == Wrap(Asr(Signed(V(c0, rf, x)) * g.mul, g.shift)) {
          SignedHighShift(V(c0, rf, x), g.mul, g.shift);
        }
      } else {
        var p := MulConst(x, g.mul);
        q0 := SarBy(p, g.shift);
        forall rf | FitsSigned(Signed(V(c0, rf, x)), width)
          ensures V(out, rf, q0) == Wrap(Asr(Signed(V(c0, rf, x)) * g.mul, g.shift))
        {
          SignedNarrow(V(c0, rf, x), g.mul, width);
        }
      }
      ghost var c2 := out;
      var sign := ShrBy(q0, 63);
      q := AddRegs(q0, sign);
      forall rf | FitsSigned(Signed(V(c0, rf, x)), width)
        ensures V(out, rf, q) == Wrap(TruncDiv(Signed(V(c0, rf, x)), ad))
      {
        RoundUp(Signed(V(c0, rf, x)), V(c2, rf, q0), g, ad, width);
      }
    }

    /** Adds 2^k - 1 to negative values so that the shift rounds towards zero. */
    method BiasedSar(x: Reg, k: nat) returns (q: Reg)
      requires Old(x, next) && 1 <= k < 64
      modifies this
      ensures next >= old(next) && Old(q, next) && Keeps(old(out), out, old(next))
      ensures forall rf :: V(out, rf, q) == Wrap(TruncDiv(Signed(V(old(out), rf, x)), Pow2(k)))
    {
      hide V, Run, Wrap, Signed, Asr, Quo, Shr, Pow2, TruncDiv;
      ghost var c0 := out;
      var s := SarBy(x, 63);
      var bias := ShrBy(s, 64 - k);
      var sum := AddRegs(x, bias);
      q := SarBy(sum, k);
      forall rf ensures V(out, rf, q) == Wrap(TruncDiv(Signed(V(c0, rf, x)), Pow2(k))) {
        BiasExact(V(c0, rf, x), k);
      }
    }

    /** The quotient or remainder of the extended operand x, in 64 bits. */
    method DivRem(x: Reg, raw: u64, sd: i64, width: nat, isSigned: bool, isRem: bool) returns (r: Reg)
      requires Old(x, next) && Accepts(raw, sd, width, isSigned)
      modifies this
      ensures next >= old(next) && Old(r, next) && Keeps(old(out), out, old(next))
      ensures forall rf :: Operand64(V(old(out), rf, x), width, isSigned) ==>
                V(out, rf, r) == Wrap(Exact(V(old(out), rf, x), raw, sd, isSigned, isRem))
    {
      hide V, Run, Wrap, Signed, Quo, Rem, Shr, Pow2, HasSingleBit, SDivDomain, UDivDomain, Ctz, TruncDiv, TruncRem, FitsSigned;
      ghost var c0 := out;
      var absD := Abs(sd);
      AbsSingle(absD);
      if isRem && !isSigned && HasSingleBit(raw) {
        r := Op2(And2, x, Imm(raw - 1));
        forall rf ensures V(out, rf, r) == Wrap(Exact(V(c0, rf, x), raw, sd, isSigned, isRem)) {
          MaskRemainder(V(c0, rf, x), raw);
        }
      } else if isRem && isSigned && absD != 1 && HasSingleBit(absD) {
        var k := Ctz(absD);
        SmallShift(absD);
        var q := BiasedSar(x, k);
        ghost var c1 := out;
        var m := ShlBy(q, k);
        r := SubRegs(x, m);
        forall rf ensures V(out, rf, r) == Wrap(Exact(V(c0, rf, x), raw, sd, isSigned, isRem)) {
          ShiftRemainder(V(c0, rf, x), sd, V(c1, rf, q), Pow2(k));
        }
      } else {
        var q, ok;
        if isSigned { SignedAlways(sd, width); }
        if isSigned { q, ok := Sdiv(x, sd, width); } else { q, ok := Udiv(x, raw, width); }
        ghost var c1 := out;
        forall rf | Operand64(V(c0, rf, x), width, isSigned)
          ensures V(c1, rf, q) == Wrap(Exact(V(c0, rf, x), raw, sd, isSigned, false))
        {
          if !isSigned { QuoFits(V(c0, rf, x), raw); }
        }
        if isRem {
          WrapFits(sd);
          var d: u64 := if isSigned then Wrap(sd) else raw;
          var m := MulConst(q, d);
          r := SubRegs(x, m);
          forall rf | Operand64(V(c0, rf, x), width, isSigned)
            ensures V(out, rf, r) == Wrap(Exact(V(c0, rf, x), raw, sd, isSigned, isRem))
          {
            ProductRemainder(V(c0, rf, x), raw, sd, isSigned, V(c1, rf, q));
          }
        } else {
          r := q;
        }
      }
    }

    /** width is 0 for a type that is no scalar integer type, and constant is
        None for a divisor that is not an integer constant. */
    method GenerateConstDiv(xIn: Operand, res: Reg, constant: Option<i128>, width: nat, isSigned: bool, isRem: bool)
      returns (accepted: bool)
      requires OldOperand(xIn, next) && Old(res, next)
      modifies this
      ensures accepted <==> (constant.Some? && xIn.R? && (width == 8 || width == 16 || width == 32 || width == 64)
        && Accepts(Divisor(constant.value, width), SignedAt(Divisor(constant.value, width), width), width, isSigned))
      ensures !accepted ==> out == old(out) && next == old(next)
      ensures accepted ==> forall rf :: Quotient(OpV(old(out), rf, xIn), Divisor(constant.value, width), width, isSigned, isRem, V(out, rf, res))
      ensures accepted ==> forall rf, r {:trigger V(out, rf, r)} :: Old(r, old(next)) && r != res ==> V(out, rf, r) == V(old(out), rf, r)
    {
      hide V, Run, Wrap, Signed, Quo, Rem, Shr, Shl, Low, Pow2, BitAnd, HasSingleBit, UDivDomain, SDivDomain, Quotient, Exact, SignedAt, Asr;
      if constant.None? || !(width == 8 || width == 16 || width == 32 || width == 64) {
        return false;
      }
      Pow2In64(width);
      var mask: u64 := if width == 64 then B64 - 1 else Pow2(width) - 1;
      DivisorWord(constant.value, width);
      var raw: u64 := BitAnd(Wrap(constant.value), mask);
      var sd: i64 := Asr(Signed(Wrap(Shl(raw, 64 - width))), 64 - width);
      if raw == 0 || (isSigned && sd == -1) {
        return false;
      }
      var absD: u64 := Abs(sd);
      var supported;
      if isSigned {
        SignedAlways(sd, width);
        supported := HasSingleBit(absD);
        if !supported { var g := SdivMagic(absD, width); supported := g.Some?; }
      } else {
        supported := HasSingleBit(raw);
        if !supported { var g := UdivMagic(raw, width); supported := g.Some?; }
      }
      if !supported || !xIn.R? {
        return false;
      }
      ghost var c0, n0 := out, next;
      var x := xIn.reg;
      if width < 64 {
        x := Extend(xIn, width, isSigned);
      } else {
        forall rf ensures V(c0, rf, x) == Extended(OpV(c0, rf, xIn), width, isSigned) {
          OpVReg(c0, rf, x);
          ExtendNothing(V(c0, rf, x), isSigned);
        }
      }
      ghost var c1 := out;
      var r := DivRem(x, raw, sd, width, isSigned, isRem);
      ghost var c2 := out;
      Narrow(res, r, width);
      accepted := true;
      forall rf
        ensures Quotient(OpV(c0, rf, xIn), raw, width, isSigned, isRem, V(out, rf, res))
      {
        ExtendedOperand(OpV(c0, rf, xIn), width, isSigned);
        Narrowed(OpV(c0, rf, xIn), raw, sd, width, isSigned, isRem, V(c2, rf, r), V(out, rf, res));
      }
      KeepsTrans(c0, c1, c2, n0, n0);
    }

    method Extend(xIn: Operand, width: nat, isSigned: bool) returns (x: Reg)
      requires width >= 1
      modifies this
      ensures next == old(next) + 1 && x == Virt(next) && Keeps(old(out), out, old(next))
      ensures forall rf :: V(out, rf, x) == Extended(OpV(old(out), rf, xIn), width, isSigned)
    {
      hide Low, SignedAt;
      x := Fresh();
      var i := if isSigned then MovSx(x, xIn, width) else MovZx(x, xIn, width);
      RunSnoc(out, i);
      out := out + [i];
    }

    /** itrunc into the result register, or a plain mov at full width */
    method Narrow(res: Reg, r: Reg, width: nat)
      modifies this`out
      ensures forall rf :: V(out, rf, res) == if width < 64 then Wrap(Low(V(old(out), rf, r), width)) else V(old(out), rf, r)
      ensures forall rf, q: Reg {:trigger V(out, rf, q)} :: q != res ==> V(out, rf, q) == V(old(out), rf, q)
    {
      hide Low;
      var i := if width < 64 then ITrunc(res, R(r), width) else Mov(res, R(r));
      RunSnoc(out, i);
      out := out + [i];
    }
  }

  function HighHalf(x: u64, c: u64, signed: bool): u64 {
    Wrap(Asr(if signed then Signed(x) * Signed(c) else x * c, 64))
  }

  // ----- what the emitted unsigned sequences compute -----

  lemma WrapId(x: int)
    requires 0 <= x < B64
    ensures Wrap(x) == x
  {}

  lemma ShrByZero()
    ensures forall x: nat :: Shr(x, 0) == x
  {}

  lemma Pow2Quotient(d: u64)
    requires d > 0 && HasSingleBit(d)
    ensures Ctz(d) < 64 && forall x: nat {:trigger Quo(x, d)} :: Shr(x, Ctz(d)) == Quo(x, d)
    ensures d == 1 ==> forall x: nat {:trigger Quo(x, d)} :: Quo(x, d) == x
  {
    hide Shr, Pow2, HasSingleBit;
    SingleBitIsPow2(d);
    Pow2Literals();
    if Ctz(d) >= 64 { Pow2Monotone(64, Ctz(d)); }
    forall x: nat ensures Shr(x, Ctz(d)) == Quo(x, d) {
      ShrIsQuo(x, Ctz(d));
    }
    if d == 1 {
      forall x: nat ensures Quo(x, d) == x { QuoUnique(x, 1, x, 0); }
    }
  }

  /** Shift amounts stay below the 64 the hardware masks to. */
  lemma ShiftRange(g: UDivMagic, d: nat, width: nat)
    requires ValidUDiv(g, d, width) && (1 <= width <= 32 || width == 64)
    ensures !g.add ==> g.preShift < 64 && (if width == 64 then 0 <= g.shift - 64 < 64 else g.shift < 64)
    ensures g.add ==> 1 <= g.shift - 1 < 64
    ensures g.mul < Pow2(width)
  {}

  /** A product of two words below 2^width, from its high half or, when the whole
      product fits, from the wrapped product. */
  lemma HighPart(x: u64, c: u64, width: nat)
    requires x < Pow2(width) && c < Pow2(width)
    ensures 0 <= x * c
    ensures width == 64 ==> HighHalf(x, c, false) == Shr(x * c, width)
    ensures width <= 32 ==> Wrap(x * c) == x * c
    ensures width <= 32 ==> Shr(Wrap(x * c), width) == Shr(x * c, width)
  {
    hide Shr, Pow2;
    MulMonotone(x, Pow2(width), c);
    MulStrict(c, Pow2(width), Pow2(width));
    MulNonNegative(x, c);
    if width == 64 {
      HighBelow(x, c, 64);
    } else if width <= 32 {
      Pow2Add(width, width);
      Pow2In64(width + width);
    }
  }

  lemma PlainWide(x: u64, g: UDivMagic, d: nat)
    requires ValidUDiv(g, d, 64) && !g.add
    ensures Shr(x, g.preShift) < B64
    ensures Shr(HighHalf(Shr(x, g.preShift), g.mul, false), g.shift - 64) == Quo(x, d)
  {
    hide Shr, Pow2, Quo;
    Pow2Literals();
    ShrFits(x, g.preShift);
    var y := Shr(x, g.preShift);
    HighPart(y, g.mul, 64);
    ShrShr(y * g.mul, 64, g.shift - 64);
    assert UDivFormula(g, x, 64) == Quo(x, d);
  }

  lemma PlainNarrow(x: u64, g: UDivMagic, d: nat, width: nat)
    requires ValidUDiv(g, d, width) && !g.add && x < Pow2(width) && width <= 32
    ensures Shr(x, g.preShift) < B64
    ensures Shr(Wrap(Shr(x, g.preShift) * g.mul), g.shift) == Quo(x, d)
  {
    hide Shr, Pow2, Quo;
    ShrFits(x, g.preShift);
    var y := Shr(x, g.preShift);
    ShrShrinks(x, g.preShift);
    HighPart(y, g.mul, width);
    assert UDivFormula(g, x, width) == Quo(x, d);
  }

  lemma ShrShrinks(x: nat, n: nat)
    ensures Shr(x, n) <= x
  {
    ShrLow(x, n);
    ShlIsMul(Shr(x, n), n);
    MulMonotone(1, Pow2(n), Shr(x, n));
  }

  /** Neither the subtraction nor the addition of the fix-up wraps. */
  lemma AddFixup(x: u64, t: u64, g: UDivMagic, d: nat, width: nat)
    requires ValidUDiv(g, d, width) && g.add && x < Pow2(width)
    requires t == Shr(x * g.mul, width)
    ensures Shr(Wrap(Shr(Wrap(x - t), 1) + t), g.shift - 1) == Quo(x, d)
  {
    hide Shr, Pow2, Quo, Wrap;
    HighBelow(x, g.mul, width);
    ShrShrinks(x - t, 1);
    WrapId(x - t);
    WrapId(Shr(x - t, 1) + t);
    assert UDivFormula(g, x, width) == Quo(x, d);
  }

  // ----- what the emitted signed sequences compute -----

  lemma SignedWrap(z: int)
    requires -0x8000_0000_0000_0000 <= z < 0x8000_0000_0000_0000
    ensures Signed(Wrap(z)) == z
  {}

  lemma WrapSigned(x: u64)
    ensures Wrap(Signed(x)) == x
  {}

  lemma WrapSum(a: int, b: int)
    ensures Wrap(Wrap(a) + Wrap(b)) == Wrap(a + b)
    ensures Wrap(Wrap(a) - Wrap(b)) == Wrap(a - b)
    ensures Wrap(0 - Wrap(a)) == Wrap(0 - a)
    ensures Wrap(Wrap(a)) == Wrap(a)
  {
    var k, l := a / B64, b / B64;
    DivMod(a, B64);
    DivMod(b, B64);
    ModMultiple(Wrap(a) + Wrap(b), k + l, B64);
    ModMultiple(Wrap(a) - Wrap(b), k - l, B64);
    ModMultiple(0 - Wrap(a), 0 - k, B64);
  }

  lemma WrapProduct(a: int, b: int)
    ensures Wrap(Wrap(a) * b) == Wrap(a * b)
    ensures Wrap(Wrap(a) * Wrap(b)) == Wrap(a * b)
  {
    var k, l := a / B64, b / B64;
    DivMod(a, B64);
    DivMod(b, B64);
    assert a == Wrap(a) + k * B64 && b == Wrap(b) + l * B64;
    MulDistribute(Wrap(a), k * B64, b);
    MulSwap(k, B64, b);
    ModMultiple(Wrap(a) * b, k * b, B64);
    MulDistribute(Wrap(b), l * B64, Wrap(a));
    MulAssoc(Wrap(a), l, B64);
    ModMultiple(Wrap(a) * Wrap(b), Wrap(a) * l, B64);
  }

  lemma AsrAsr(x: int, a: nat, b: nat)
    ensures Asr(Asr(x, a), b) == Asr(x, a + b)
  {
    hide Shr;
    ShrShr(if x >= 0 then x else -1 - x, a, b);
  }

  lemma AsrPlusMultiple(x: int, k: int, s: nat)
    ensures Asr(x + k * Pow2(s), s) == Asr(x, s) + k
  {
    hide Asr, Pow2;
    AsrFloor(x, s);
    MulDistribute(Asr(x, s), k, Pow2(s));
    MulDistribute(Asr(x, s) + 1, k, Pow2(s));
    MulDistribute(Asr(x, s), 1, Pow2(s));
    AsrUnique(x + k * Pow2(s), s, Asr(x, s) + k, x - Asr(x, s) * Pow2(s));
  }

  /** A shift does not leave the range of its operand. */
  lemma AsrRange(x: int, s: nat, lo: int, hi: int)
    requires lo <= 0 < hi && lo * Pow2(s) <= x < hi * Pow2(s)
    ensures lo <= Asr(x, s) < hi
  {
    hide Asr, Pow2;
    AsrFloor(x, s);
    Cancel(lo, Asr(x, s) + 1, Pow2(s));
    Cancel(Asr(x, s), hi, Pow2(s));
  }

  lemma TruncNegate(s: int, d: int)
    requires d != 0
    ensures TruncDiv(s, -d) == -TruncDiv(s, d)
  {
    hide Quo, Rem;
    if s == 0 { QuoUnique(0, Abs(d), 0, 0); }
  }

  lemma NegateQuotient(s: int, d: int)
    requires d < 0
    ensures Abs(d) > 0 && Wrap(0 - Wrap(TruncDiv(s, Abs(d)))) == Wrap(TruncDiv(s, d))
  {
    hide TruncDiv;
    TruncNegate(s, Abs(d));
    WrapSum(TruncDiv(s, Abs(d)), 0);
  }

  lemma DivideByOne(x: u64)
    ensures x == Wrap(TruncDiv(Signed(x), 1))
  {
    hide Quo;
    var s := Signed(x);
    QuoUnique(Abs(s), 1, Abs(s), 0);
    WrapSigned(x);
  }

  lemma OneIsSingleBit()
    ensures HasSingleBit(1)
  {}

  lemma SmallShift(ad: u64)
    requires 1 < ad && HasSingleBit(ad)
    ensures 1 <= Ctz(ad) < 64 && ad == Pow2(Ctz(ad))
  {
    SingleBitIsPow2(ad);
    Pow2Literals();
    if Ctz(ad) >= 64 { Pow2Monotone(64, Ctz(ad)); }
  }

  lemma SignedShiftRange(g: SDivMagic, d: nat, width: nat)
    requires ValidSDiv(g, d, width) && (3 <= width <= 32 || width == 64)
    ensures if width == 64 then 0 <= g.shift - 64 < 64 else g.shift < 64
    ensures g.mul < Pow2(width)
  {}

  lemma SignWord(s: i64)
    ensures Asr(s, 63) == if s < 0 then -1 else 0
  {
    Pow2Literals();
    AsrUnique(s, 63, if s < 0 then -1 else 0, if s < 0 then s + Pow2(63) else s);
  }

  lemma BiasExact(x: u64, k: nat)
    requires 1 <= k < 64
    ensures Shr(Wrap(Asr(Signed(x), 63)), 64 - k) < B64
    ensures Asr(Signed(Wrap(x + Shr(Wrap(Asr(Signed(x), 63)), 64 - k))), k) == TruncDiv(Signed(x), Pow2(k))
  {
    hide Shr, Asr, Pow2, TruncDiv;
    var s := Signed(x);
    SignWord(s);
    OnesShr(64 - k, k);
    LowOfSmall(0, 64 - k);
    Pow2Literals();
    Pow2Monotone(k, 63);
    var bias := Shr(Wrap(Asr(s, 63)), 64 - k);
    assert bias == if s < 0 then Pow2(k) - 1 else 0;
    SignedWrap(s + bias);
    assert Wrap(x + bias) == Wrap(s + bias);
    BiasRounds(s, k);
  }

  /** floor((s + 2^k - 1) / 2^k) rounds a negative s towards zero. */
  lemma BiasRounds(s: int, k: nat)
    ensures Asr(if s < 0 then s + Pow2(k) - 1 else s, k) == TruncDiv(s, Pow2(k))
  {
    hide Asr, Pow2, Quo;
    var p := Pow2(k);
    var q: int := Quo(Abs(s), p);
    QuoRem(Abs(s), p);
    MulDistribute(q, 1, p);
    if s < 0 {
      assert (0 - q) * p == 0 - q * p && (0 - q + 1) * p == 0 - q * p + p by { MulDistribute(0 - q, 1, p); }
      AsrUnique(s + p - 1, k, 0 - q, s + p - 1 + q * p);
    } else {
      AsrUnique(s, k, q, s - q * p);
    }
  }

  /** The signed high multiply, corrected by x when the multiplier reads as
      negative, is the high half of the product with the unsigned multiplier. */
  lemma SignedHigh(x: u64, mul: u64)
    ensures mul > 0x7fff_ffff_ffff_ffff ==> Wrap(HighHalf(x, mul, true) + x) == Wrap(Asr(Signed(x) * mul, 64))
    ensures mul <= 0x7fff_ffff_ffff_ffff ==> HighHalf(x, mul, true) == Wrap(Asr(Signed(x) * mul, 64))
  {
    hide Asr, Pow2, Signed;
    var s := Signed(x);
    if mul > 0x7fff_ffff_ffff_ffff {
      Pow2Literals();
      MulDistribute(mul, B64, s);
      assert s * Signed(mul) == s * mul + (0 - s) * Pow2(64);
      AsrPlusMultiple(s * mul, 0 - s, 64);
      WrapSum(Asr(s * mul, 64) - s, s);
      WrapSigned(x);
    }
  }

  lemma SignedHighShift(x: u64, mul: u64, shift: nat)
    requires 64 <= shift
    ensures Asr(Signed(Wrap(Asr(Signed(x) * mul, 64))), shift - 64) == Asr(Signed(x) * mul, shift)
  {
    hide Asr, Pow2;
    var s := Signed(x);
    Pow2Literals();
    HighRange(s, mul);
    AsrRange(s * mul, 64, -0x8000_0000_0000_0000, 0x8000_0000_0000_0000);
    SignedWrap(Asr(s * mul, 64));
    AsrAsr(s * mul, 64, shift - 64);
  }

  lemma HighRange(s: i64, mul: u64)
    ensures -0x8000_0000_0000_0000 * B64 <= s * mul < 0x8000_0000_0000_0000 * B64
  {
    if s >= 0 {
      MulMonotone(s, 0x7fff_ffff_ffff_ffff, mul);
      MulNonNegative(s, mul);
    } else {
      MulMonotone(-0x8000_0000_0000_0000, s, mul);
      var y: int := 0 - s;
      MulNonNegative(y, mul);
      assert s * mul == 0 - y * mul;
    }
  }

  lemma SignedNarrow(x: u64, mul: u64, width: nat)
    requires 1 <= width <= 32 && FitsSigned(Signed(x), width) && mul < Pow2(width)
    ensures Signed(Wrap(x * mul)) == Signed(x) * mul
  {
    hide Pow2;
    var s := Signed(x);
    WrapSigned(x);
    WrapProduct(s, mul);
    NarrowRange(s, mul, Pow2(width - 1), Pow2(width));
    Pow2Add(width - 1, width);
    Pow2Literals();
    Pow2Monotone(width - 1 + width, 63);
    SignedWrap(s * mul);
  }

  lemma NarrowRange(s: int, mul: int, a: int, b: int)
    requires 0 < a && -a <= s < a && 0 <= mul < b
    ensures -(a * b) <= s * mul < a * b
  {
    MulMonotone(mul, b, a);
    MulStrict(mul, b, a);
    if s >= 0 {
      MulMonotone(s, a, mul);
    } else {
      MulMonotone(-a, s, mul);
      MulNonNegative(-s, mul);
      MulPositive(a, b);
    }
  }

  /** Adding the sign bit turns the floor of a negative product into the quotient. */
  lemma RoundUp(s: i64, q0: u64, g: SDivMagic, d: nat, width: nat)
    requires ValidSDiv(g, d, width) && (3 <= width <= 32 || width == 64) && FitsSigned(s, width)
    requires q0 == Wrap(Asr(s * g.mul, g.shift))
    ensures Shr(q0, 63) < B64
    ensures Wrap(q0 + Shr(q0, 63)) == Wrap(TruncDiv(s, d))
  {
    hide Shr, Pow2, TruncDiv, Asr;
    assert SDivFormula(g, s) == TruncDiv(s, d);
    var z := Asr(s * g.mul, g.shift);
    Pow2Literals();
    HighRange(s, g.mul);
    NarrowRange(s, g.mul, Pow2(width - 1), Pow2(width));
    QuotientRange(s, g, width);
    TopBit(q0);
    SignedWrap(z);
    WrapSum(z, if z < 0 then 1 else 0);
  }

  lemma TopBit(x: u64)
    ensures Shr(x, 63) == if x < 0x8000_0000_0000_0000 then 0 else 1
  {
    hide Shr, Pow2;
    Pow2Literals();
    ShrIsDiv(x, 63);
  }

  lemma QuotientRange(s: i64, g: SDivMagic, width: nat)
    requires (3 <= width <= 32 || width == 64) && FitsSigned(s, width) && g.mul < Pow2(width)
    requires width == 64 ==> g.shift >= 64
    ensures -0x8000_0000_0000_0000 <= Asr(s * g.mul, g.shift) < 0x8000_0000_0000_0000
  {
    hide Pow2, Asr;
    Pow2Literals();
    var h := 0x8000_0000_0000_0000;
    if width == 64 {
      HighRange(s, g.mul);
      Pow2Monotone(64, g.shift);
    } else {
      NarrowRange(s, g.mul, Pow2(width - 1), Pow2(width));
      Pow2Add(width - 1, width);
      Pow2Monotone(width - 1 + width, 63);
    }
    AsrRange(s * g.mul, g.shift, -h, h);
  }

  // ----- the whole sequence -----

  /** The divisor constant cut to the width of the operation. */
  function Divisor(c: i128, width: nat): nat {
    Low(Wrap(c), width)
  }

  /** Zero traps, a signed division by -1 can overflow, and an unsigned divisor
      above 2^(width-1) has no multiplier; everything else is compiled. */
  predicate Accepts(raw: nat, sd: int, width: nat, isSigned: bool) {
    && (8 <= width <= 32 || width == 64)
    && raw > 0
    && (isSigned ==> sd != 0 && sd != -1 && FitsSigned(sd, width))
    && (!isSigned ==> HasSingleBit(raw) || UDivDomain(raw, width))
  }

  /** res is the exact quotient or remainder of the width bit operand x, rounded
      towards zero. */
  ghost predicate Quotient(x: u64, raw: nat, width: nat, isSigned: bool, isRem: bool, res: u64)
    requires width >= 1
  {
    var d := SignedAt(raw, width);
    if isSigned then
      && d != 0
      && SignedAt(res, width) == (if isRem then TruncRem(SignedAt(x, width), d) else TruncDiv(SignedAt(x, width), d))
    else
      && raw != 0
      && res == (if isRem then Rem(Low(x, width), raw) else Quo(Low(x, width), raw))
  }

  function Extended(x: u64, width: nat, isSigned: bool): u64
    requires width >= 1
  {
    if isSigned then Wrap(SignedAt(x, width)) else Wrap(Low(x, width))
  }

  predicate Operand64(x: u64, width: nat, isSigned: bool)
    requires width >= 1
  {
    if isSigned then FitsSigned(Signed(x), width) else x < Pow2(width)
  }

  function Exact(x: u64, raw: nat, sd: int, isSigned: bool, isRem: bool): int
    requires raw > 0 && (isSigned ==> sd != 0)
  {
    if isSigned then (if isRem then TruncRem(Signed(x), sd) else TruncDiv(Signed(x), sd))
    else (if isRem then Rem(x, raw) else Quo(x, raw))
  }

  lemma OpVReg(code: seq<Instr>, rf: Regs, r: Reg)
    ensures OpV(code, rf, R(r)) == V(code, rf, r)
  {}

  /** A signed divisor other than zero always has a code sequence. */
  lemma SignedAlways(d: int, width: nat)
    requires (8 <= width <= 32 || width == 64) && d != 0 && FitsSigned(d, width)
    ensures HasSingleBit(Abs(d)) || SDivDomain(Abs(d), width)
  {
    hide Pow2;
  }

  lemma AbsSingle(d: nat)
    ensures HasSingleBit(d) ==> d > 0
  {}

  lemma WrapFits(z: int)
    ensures 0 <= Wrap(z) < B64
  {}

  lemma QuoFits(x: u64, d: nat)
    requires d > 0
    ensures Wrap(Quo(x, d)) == Quo(x, d)
  {
    hide Quo;
    QuoSmaller(x, d);
  }

  lemma MaskRemainder(x: u64, raw: u64)
    requires raw > 0 && HasSingleBit(raw)
    ensures Wrap(BitAnd(x, raw - 1)) == Wrap(Rem(x, raw))
  {
    hide Rem, BitAnd, Low, Pow2, HasSingleBit;
    SingleBitIsPow2(raw);
    MaskIsLow(x, Ctz(raw));
    LowIsRem(x, Ctz(raw));
  }

  lemma LowIsRem(x: nat, s: nat)
    ensures Low(x, s) == Rem(x, Pow2(s))
  {
    hide Low, Pow2;
    ShrIsDiv(x, s);
  }

  /** x - (x / 2^k) * 2^k does not depend on the sign of the divisor. */
  lemma ShiftRemainder(x: u64, sd: int, q: u64, p: nat)
    requires sd != 0 && Abs(sd) == p && q == Wrap(TruncDiv(Signed(x), p))
    ensures Wrap(x - Wrap(q * p)) == Wrap(TruncRem(Signed(x), sd))
  {
    hide Wrap, Signed, TruncDiv;
    var s, z := Signed(x), TruncDiv(Signed(x), p);
    if sd < 0 { TruncNegate(s, p); }
    var b: int := p;
    assert (0 - z) * (0 - b) == z * b;
    WrapSigned(x);
    WrapProduct(z, p);
    WrapSum(s, z * p);
  }

  lemma ProductRemainder(x: u64, raw: u64, sd: i64, isSigned: bool, q: u64)
    requires raw > 0 && (isSigned ==> sd != 0) && q == Wrap(Exact(x, raw, sd, isSigned, false))
    ensures Wrap(x - Wrap(q * (if isSigned then Wrap(sd) else raw))) == Wrap(Exact(x, raw, sd, isSigned, true))
  {
    hide Wrap, Signed, TruncDiv, Quo, Rem;
    var z := Exact(x, raw, sd, isSigned, false);
    if isSigned {
      WrapSigned(x);
      WrapProduct(z, sd);
      WrapSum(Signed(x), z * sd);
    } else {
      QuoRem(x, raw);
      WrapId(x);
      WrapProduct(z, raw);
      WrapSum(x, z * raw);
    }
  }

  lemma SignedAtRange(x: nat, width: nat)
    requires width >= 1
    ensures FitsSigned(SignedAt(x, width), width)
  {
    ShrLow(x, width);
  }

  lemma ExtendedOperand(x: u64, width: nat, isSigned: bool)
    requires 1 <= width <= 64
    ensures Operand64(Extended(x, width, isSigned), width, isSigned)
    ensures isSigned ==> Signed(Extended(x, width, isSigned)) == SignedAt(x, width)
    ensures !isSigned ==> Extended(x, width, isSigned) == Low(x, width)
  {
    hide Pow2, Low, SignedAt;
    SignedAtRange(x, width);
    ShrLow(x, width);
    Pow2Literals();
    Pow2Monotone(width - 1, 63);
    Pow2Monotone(width, 64);
    SignedWrap(SignedAt(x, width));
  }

  lemma ExtendNothing(x: u64, isSigned: bool)
    ensures Extended(x, 64, isSigned) == x
  {
    hide Pow2, Low;
    Pow2Literals();
    LowOfSmall(x, 64);
    WrapSigned(x);
  }

  /** Cutting a wrapped result to width bits keeps any value that fits. */
  lemma LowOfWrap(z: int, width: nat)
    requires 1 <= width <= 64
    ensures FitsSigned(z, width) ==> SignedAt(Low(Wrap(z), width), width) == z
    ensures 0 <= z < Pow2(width) ==> Wrap(Low(Wrap(z), width)) == z == Wrap(z)
  {
    hide Pow2, Low;
    Pow2In64(width);
    Pow2Step(width - 1);
    if 0 <= z < Pow2(width) {
      WrapId(z);
      LowOfSmall(z, width);
      assert Low(Low(z, width), width) == z;
    } else if FitsSigned(z, width) {
      LowOfNegative(z, width);
      LowOfSmall(Pow2(width) + z, width);
    }
  }

  lemma LowOfNegative(z: int, width: nat)
    requires 1 <= width <= 64 && 0 - Pow2(width) <= z < 0
    ensures Low(Wrap(z), width) == Pow2(width) + z
  {
    hide Pow2, Low, Shl;
    Pow2Literals();
    Pow2In64(width);
    Pow2Add(width, 64 - width);
    var k := Pow2(64 - width) - 1;
    ShlIsMul(k, width);
    MulDistribute(Pow2(64 - width), 1, Pow2(width));
    ShlPlusLow(k, Pow2(width) + z, width);
    assert Wrap(z) == B64 + z;
  }

  lemma Narrowed(x: u64, raw: u64, sd: i64, width: nat, isSigned: bool, isRem: bool, r: u64, res: u64)
    requires Accepts(raw, sd, width, isSigned) && sd == SignedAt(raw, width)
    requires r == Wrap(Exact(Extended(x, width, isSigned), raw, sd, isSigned, isRem))
    requires res == if width < 64 then Wrap(Low(r, width)) else r
    ensures Quotient(x, raw, width, isSigned, isRem, res)
  {
    hide Quo, Rem, Pow2, Low, SignedAt, TruncDiv, TruncRem, Wrap, Signed, HasSingleBit, UDivDomain;
    var e := Extended(x, width, isSigned);
    ExtendedOperand(x, width, isSigned);
    var z := Exact(e, raw, sd, isSigned, isRem);
    if isSigned {
      TruncFits(SignedAt(x, width), sd, width);
    } else {
      QuoSmaller(e, raw);
      QuoRem(e, raw);
      MulNonNegative(Quo(e, raw), raw);
    }
    LowOfWrap(z, width);
    LowIdempotent(r, width);
    if width == 64 { FullWidth(r); }
  }

  lemma LowIdempotent(r: u64, width: nat)
    requires 1 <= width <= 64
    ensures Low(Low(r, width), width) == Low(r, width) == Wrap(Low(r, width))
  {
    hide Pow2, Low;
    ShrLow(r, width);
    LowOfSmall(Low(r, width), width);
    Pow2In64(width);
  }

  lemma FullWidth(r: u64)
    ensures Low(r, 64) == r
  {
    hide Pow2, Low;
    Pow2Literals();
    LowOfSmall(r, 64);
  }

  /** The mask and the two shifts that read the divisor at its width. */
  lemma DivisorWord(c: i128, width: nat)
    requires 8 <= width <= 64
    ensures var mask := if width == 64 then B64 - 1 else Pow2(width) - 1;
      && mask >= 0 && BitAnd(Wrap(c), mask) == Divisor(c, width) < B64
    ensures var raw := Divisor(c, width);
      && Asr(Signed(Wrap(Shl(raw, 64 - width))), 64 - width) == SignedAt(raw, width)
      && FitsSigned(SignedAt(raw, width), width)
      && -0x8000_0000_0000_0000 <= SignedAt(raw, width) < 0x8000_0000_0000_0000
      && (raw > 0 ==> SignedAt(raw, width) != 0)
      && Abs(SignedAt(raw, width)) <= Pow2(width - 1)
  {
    hide Pow2, Low, BitAnd, Shl, Asr, Signed, Wrap, SignedAt;
    Pow2Literals();
    MaskIsLow(Wrap(c), width);
    var raw := Divisor(c, width);
    LowIdempotent(Wrap(c), width);
    ShrLow(Wrap(c), width);
    Pow2In64(width);
    SignedAtRange(raw, width);
    Pow2Monotone(width - 1, 63);
    ReadSigned(raw, width);
    Pow2Step(width - 1);
  }

  lemma ReadSigned(raw: u64, width: nat)
    requires 1 <= width <= 64 && raw < Pow2(width)
    ensures Asr(Signed(Wrap(Shl(raw, 64 - width))), 64 - width) == SignedAt(raw, width)
    ensures raw > 0 ==> SignedAt(raw, width) != 0
  {
    hide Pow2, Low, Shl, Asr, Signed;
    Pow2Literals();
    LowOfSmall(raw, width);
    ShlIsMul(raw, 64 - width);
    Pow2Add(width - 1, 64 - width);
    Pow2Step(width - 1);
    TopReading(raw, Pow2(width - 1), Pow2(64 - width));
    AsrUnique(SignedAt(raw, width) * Pow2(64 - width), 64 - width, SignedAt(raw, width), 0);
  }

  /** Moving the sign bit h of a number to the top of the word scales the number. */
  lemma TopReading(raw: nat, h: nat, p: nat)
    requires p > 0 && h * p == 0x8000_0000_0000_0000 && raw < 2 * h
    ensures 0 <= raw * p < B64 && Signed(Wrap(raw * p)) == (if raw < h then raw else raw - 2 * h) * p
  {
    MulNonNegative(raw, p);
    MulDistribute(h, h, p);
    MulStrict(raw, 2 * h, p);
    if raw < h {
      MulStrict(raw, h, p);
    } else {
      MulMonotone(h, raw, p);
      MulDistribute(raw, 2 * h, p);
    }
    WrapId(raw * p);
  }

  lemma ShrFits(x: u64, n: nat)
    ensures Shr(x, n) < B64
  {
    ShrLow(x, n);
    ShlIsMul(Shr(x, n), n);
    MulMonotone(1, Pow2(n), Shr(x, n));
  }
}
