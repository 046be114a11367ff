/** Addition and subtraction as the 8088 core carries them out: 8-bit operands in
    16-bit variables, flags computed from the bits of operands and result. */
module Alu {
  import opened Arith
  import opened Words

  datatype Width = W8 | W16 {
    function Bits(): nat { if W8? then 8 else 16 }

    function Size(): nat { if W8? then 0x100 else 0x1_0000 }
  }

  datatype Flags = Flags(cf: bool, pf: bool, af: bool, zf: bool, sf: bool, of: bool, df: bool)

  lemma {:induction false} SizeIsPow2(w: Width)
    ensures Pow2(w.Bits()) == w.Size()
  {
    assert Pow2(4) == 16;
    assert Pow2(8) == 256;
    assert Pow2(12) == 4096;
    assert Pow2(16) == 65536;
  }

  /** x & size_mask */
  function Low(x: int, w: Width): (r: nat)
    ensures r < w.Size()
  {
    if w.W8? then x % 0x100 else x % 0x1_0000
  }

  predicate TopBit(x: u16, w: Width) {
    if w.W8? then x / 0x80 % 2 == 1 else x / 0x8000 % 2 == 1
  }

  /** The low bits of x read as a two's-complement number. */
  function Signed(x: int, w: Width): int {
    var v := Low(x, w);
    if v < w.Size() / 2 then v else v - w.Size()
  }

  predicate Fits(v: int, w: Width) {
    -(w.Size() / 2) <= v < w.Size() / 2
  }

  predicate Bit4(x: u16) {
    x / 16 % 2 == 1
  }

  function Ones(b: nat): nat {
    if b == 0 then 0 else b % 2 + Ones(b / 2)
  }

  predicate EvenParity(x: u16) {
    Ones(x % 256) % 2 == 0
  }

  lemma {:induction false} TopBitIsSign(x: u16, w: Width)
    ensures TopBit(x, w) <==> Low(x, w) >= w.Size() / 2
    ensures TopBit(x, w) <==> Signed(x, w) < 0
  {
    assert x == x / 0x100 * 0x100 + x % 0x100;
    DivIs(x, 0x80, 2 * (x / 0x100) + x % 0x100 / 0x80, x % 0x100 % 0x80);
  }

  /** v, not far from the range of the low bits, reduced to it. */
  function Wrap(v: int, w: Width): int {
    if v >= w.Size() then v - w.Size() else if v < 0 then v + w.Size() else v
  }

  /** The low bits of a 16-bit sum are those of the sum of the low bits. */
  lemma {:induction false} SumLow(x: int, y: int, w: Width)
    ensures Low((x + y) % 0x1_0000, w) == Low(x + y, w) == Wrap(Low(x, w) + Low(y, w), w)
  {
    Reduce(x + y, w);
    var c := if Low(x, w) + Low(y, w) >= w.Size() then 1 else 0;
    assert x == x / 0x100 * 0x100 + x % 0x100 && y == y / 0x100 * 0x100 + y % 0x100;
    assert x == x / 0x1_0000 * 0x1_0000 + x % 0x1_0000 && y == y / 0x1_0000 * 0x1_0000 + y % 0x1_0000;
    if w.W8? {
      DivIs(x + y, 0x100, x / 0x100 + y / 0x100 + c, x % 0x100 + y % 0x100 - c * 0x100);
    } else {
      DivIs(x + y, 0x1_0000, x / 0x1_0000 + y / 0x1_0000 + c, x % 0x1_0000 + y % 0x1_0000 - c * 0x1_0000);
    }
  }

  lemma {:induction false} DiffLow(x: int, y: int, w: Width)
    ensures Low((x - y) % 0x1_0000, w) == Low(x - y, w) == Wrap(Low(x, w) - Low(y, w), w)
  {
    Reduce(x - y, w);
    var c := if Low(x, w) < Low(y, w) then 1 else 0;
    assert x == x / 0x100 * 0x100 + x % 0x100 && y == y / 0x100 * 0x100 + y % 0x100;
    assert x == x / 0x1_0000 * 0x1_0000 + x % 0x1_0000 && y == y / 0x1_0000 * 0x1_0000 + y % 0x1_0000;
    if w.W8? {
      DivIs(x - y, 0x100, x / 0x100 - y / 0x100 - c, x % 0x100 - y % 0x100 + c * 0x100);
    } else {
      DivIs(x - y, 0x1_0000, x / 0x1_0000 - y / 0x1_0000 - c, x % 0x1_0000 - y % 0x1_0000 + c * 0x1_0000);
    }
  }

  lemma {:induction false} Reduce(v: int, w: Width)
    ensures Low(v % 0x1_0000, w) == Low(v, w)
  {
    var z := v % 0x1_0000;
    assert v == v / 0x1_0000 * 0x1_0000 + z && v == v / 0x100 * 0x100 + v % 0x100;
    DivIs(z, 0x100, v / 0x100 - v / 0x1_0000 * 0x100, v % 0x100);
  }

  lemma {:induction false} Low32(x: int)
    ensures x / 16 % 2 == x % 32 / 16 && x % 16 == x % 32 - x % 32 / 16 * 16
  {
    assert x == x / 32 * 32 + x % 32;
    DivIs(x, 16, 2 * (x / 32) + x % 32 / 16, x % 32 - x % 32 / 16 * 16);
  }

  /** Bit 4 of a sum differs from that of its operands by the carry from bit 3. */
  lemma {:induction false} NibbleCarry(d: u16, s: u16)
    ensures ((Bit4(((d + s) % 0x1_0000)) != Bit4(s)) != Bit4(d)) <==> d % 16 + s % 16 >= 16
  {
    var z := (d + s) % 0x1_0000;
    Low32(z);
    Low32(s);
    Low32(d);
    var c := if d % 32 + s % 32 >= 32 then 1 else 0;
    assert d + s == (d + s) / 0x1_0000 * 0x1_0000 + z;
    DivIs(z, 32, d / 32 + s / 32 + c - (d + s) / 0x1_0000 * 2048, d % 32 + s % 32 - 32 * c);
  }

  lemma {:induction false} NibbleBorrow(d: u16, s: u16)
    ensures ((Bit4(((d - s) % 0x1_0000)) != Bit4(s)) != Bit4(d)) <==> d % 16 < s % 16
  {
    var z := (d - s) % 0x1_0000;
    Low32(z);
    Low32(s);
    Low32(d);
    var c := if d % 32 < s % 32 then 1 else 0;
    assert d - s == (d - s) / 0x1_0000 * 0x1_0000 + z;
    DivIs(z, 32, d / 32 - s / 32 - c - (d - s) / 0x1_0000 * 2048, d % 32 - s % 32 + 32 * c);
  }

  /** The overflow bit of an addition says that the signed sum does not fit. */
  lemma {:induction false} AddOverflow(d: u16, s: u16, w: Width)
    ensures var z := (d + s) % 0x1_0000;
            (TopBit(z, w) != TopBit(s, w) && TopBit(z, w) != TopBit(d, w)) <==> !Fits(Signed(d, w) + Signed(s, w), w)
  {
    var z := (d + s) % 0x1_0000;
    TopBitIsSign(d, w);
    TopBitIsSign(s, w);
    TopBitIsSign(z, w);
    SumLow(d, s, w);
  }

  lemma {:induction false} SubOverflow(d: u16, s: u16, w: Width)
    ensures var z := (d - s) % 0x1_0000;
            (TopBit(d, w) != TopBit(s, w) && TopBit(z, w) != TopBit(d, w)) <==> !Fits(Signed(d, w) - Signed(s, w), w)
  {
    var z := (d - s) % 0x1_0000;
    TopBitIsSign(d, w);
    TopBitIsSign(s, w);
    TopBitIsSign(z, w);
    DiffLow(d, s, w);
  }

  /** Everything do_add's flags say about the 16-bit sum z. */
  lemma {:induction false} AddFacts(d: u16, s: u16, z: u16, w: Width)
    requires z == (d + s) % 0x1_0000
    ensures Low(z, w) == Wrap(Low(d, w) + Low(s, w), w)
    ensures (TopBit(z, w) != TopBit(s, w) && TopBit(z, w) != TopBit(d, w)) <==> !Fits(Signed(d, w) + Signed(s, w), w)
    ensures ((Bit4(z) != Bit4(s)) != Bit4(d)) <==> d % 16 + s % 16 >= 16
    ensures Low(s, w) > Low(z, w) <==> Low(d, w) + Low(s, w) >= w.Size()
  {
    NibbleCarry(d, s);
    AddOverflow(d, s, w);
    SumLow(d, s, w);
  }

  lemma {:induction false} SubFacts(d: u16, s: u16, z: u16, w: Width)
    requires z == (d - s) % 0x1_0000
    ensures Low(z, w) == Wrap(Low(d, w) - Low(s, w), w)
    ensures (TopBit(d, w) != TopBit(s, w) && TopBit(z, w) != TopBit(d, w)) <==> !Fits(Signed(d, w) - Signed(s, w), w)
    ensures ((Bit4(z) != Bit4(s)) != Bit4(d)) <==> d % 16 < s % 16
  {
    NibbleBorrow(d, s);
    SubOverflow(d, s, w);
    DiffLow(d, s, w);
  }

  // ----- bitwise operations --------------------------------------------------

  /** Binary digit k of x. */
  predicate Digit(x: nat, k: nat) {
    if k == 0 then x % 2 == 1 else Digit(x / 2, k - 1)
  }

  lemma {:induction false} DigitIs(x: nat, k: nat)
    ensures Digit(x, k) <==> x / Pow2(k) % 2 == 1
  {
    if k == 0 {
    } else {
      DigitIs(x / 2, k - 1);
      Digits(x, 2, Pow2(k - 1));
    }
  }

  /** The parity flag tells whether an even number of the lower eight digits are one. */
  lemma {:induction false} ParityOfDigits(x: u16)
    ensures EvenParity(x) <==>
            (x % 2 + x / 2 % 2 + x / 4 % 2 + x / 8 % 2 + x / 16 % 2 + x / 32 % 2 + x / 64 % 2 + x / 128 % 2) % 2 == 0
  {
    OnesOfByte(x % 256);
    LowDigit(x, 1, 128);
    LowDigit(x, 2, 64);
    LowDigit(x, 4, 32);
    LowDigit(x, 8, 16);
    LowDigit(x, 16, 8);
    LowDigit(x, 32, 4);
    LowDigit(x, 64, 2);
    LowDigit(x, 128, 1);
  }

  lemma {:induction false} OneOf(b: nat, p: nat)
    requires p > 0
    ensures Ones(b / p) == b / p % 2 + Ones(b / (p * 2))
  {
    Digits(b, p, 2);
  }

  lemma {:induction false} OnesOfByte(b: nat)
    requires b < 256
    ensures Ones(b) == b % 2 + b / 2 % 2 + b / 4 % 2 + b / 8 % 2 + b / 16 % 2 + b / 32 % 2 + b / 64 % 2 + b / 128 % 2
  {
    OneOf(b, 1);
    OneOf(b, 2);
    OneOf(b, 4);
    OneOf(b, 8);
    OneOf(b, 16);
    OneOf(b, 32);
    OneOf(b, 64);
    OneOf(b, 128);
  }

  /** f applied to the digits of two numbers. */
  function Combine(f: (bool, bool) -> bool, x: nat, y: nat, n: nat): (r: nat)
    ensures r < Pow2(n)
  {
    if n == 0 then 0 else (if f(x % 2 == 1, y % 2 == 1) then 1 else 0) + 2 * Combine(f, x / 2, y / 2, n - 1)
  }

  lemma {:induction false} CombineDigit(f: (bool, bool) -> bool, x: nat, y: nat, n: nat, k: nat)
    requires k < n
    ensures Digit(Combine(f, x, y, n), k) == f(Digit(x, k), Digit(y, k))
  {
    if k == 0 {
    } else {
      CombineDigit(f, x / 2, y / 2, n - 1, k - 1);
    }
  }

  predicate Either(a: bool, b: bool) { a || b }

  predicate Both(a: bool, b: bool) { a && b }

  predicate Differ(a: bool, b: bool) { a != b }

  lemma {:induction false} EitherIsZero(x: nat, y: nat, n: nat)
    requires x < Pow2(n) && y < Pow2(n)
    ensures Combine(Either, x, y, n) == 0 <==> x == 0 && y == 0
  {
    if n == 0 {
    } else {
      EitherIsZero(x / 2, y / 2, n - 1);
    }
  }

  // ----- the operations ------------------------------------------------------

  const ADD := 0
  const OR := 1
  const ADC := 2
  const SBB := 3
  const AND := 4
  const SUB := 5
  const XOR := 6
  const CMP := 7

  /** Do the flags tell zero, sign and parity of the result? */
  predicate TellResult(data: u16, w: Width, f: Flags) {
    f.zf == (Low(data, w) == 0) && f.sf == (Signed(data, w) < 0) && f.pf == EvenParity(data)
  }

  /** d plus or minus s0 and the carry, s being the operand with the carry folded in:
      result and carry are those of the three numbers, even when the operand
      overflows; the other two flags are those of d and s. */
  predicate Computed(op: nat, w: Width, d: u16, s0: u16, carry: bool, s: u16, data: u16, f: Flags) {
    var c := if op in {ADC, SBB} && carry then 1 else 0;
    && s == (s0 + c) % 0x1_0000 && TellResult(data, w, f)
    && if op in {ADD, ADC} then
         && Low(data, w) == Wrap(Low(d, w) + Low(s0, w) + c, w) && (f.cf <==> Low(d, w) + Low(s0, w) + c >= w.Size())
         && f.of == !Fits(Signed(d, w) + Signed(s, w), w) && f.af == (d % 16 + s % 16 >= 16)
       else
         && Low(data, w) == Wrap(Low(d, w) - Low(s0, w) - c, w) && (f.cf <==> Low(d, w) < Low(s0, w) + c)
         && f.of == !Fits(Signed(d, w) - Signed(s, w), w) && f.af == (d % 16 < s % 16)
  }

  /** The digits of the result are those of d and s combined; no carries. */
  ghost predicate Combined(op: nat, w: Width, d: u16, s: u16, data: u16, f: Flags) {
    && (forall k | 0 <= k < 16 :: Digit(data, k) ==
          if op == OR then Digit(d, k) || Digit(s, k) else if op == AND then Digit(d, k)
              && Digit(s, k) else Digit(d, k) != Digit(s, k))
    && TellResult(data, w, f) && !f.cf && !f.of && !f.af
  }

  /** The low bits of an operand with a carry folded in. */
  lemma {:induction false} FoldLow(s: u16, w: Width)
    ensures Low((s + 1) % 0x1_0000, w) == if Low(s, w) + 1 == w.Size() then 0 else Low(s, w) + 1
  {
    SumLow(s, 1, w);
  }

  /** The flags of do_add, read for the sum of the three numbers. */
  lemma {:induction false} AddComputed(op: nat, w: Width, d: u16, s0: u16, carry: bool, s: u16, data: u16, f: Flags)
    requires op in {ADD, ADC} && s == if op == ADC && carry then (s0 + 1) % 0x1_0000 else s0
    requires TellResult(data, w, f) && Low(data, w) == Wrap(Low(d, w) + Low(s, w), w)
    requires f.cf == ((op == ADC && Low(s, w) == 0 && carry) || Low(d, w) + Low(s, w) >= w.Size())
    requires f.of == !Fits(Signed(d, w) + Signed(s, w), w) && f.af == (d % 16 + s % 16 >= 16)
    ensures Computed(op, w, d, s0, carry, s, data, f)
  {
    FoldLow(s0, w);
  }

  lemma {:induction false} SubComputed(op: nat, w: Width, d: u16, s0: u16, carry: bool, s: u16, data: u16, f: Flags)
    requires op in {SBB, SUB, CMP} && s == if op == SBB && carry then (s0 + 1) % 0x1_0000 else s0
    requires TellResult(data, w, f) && Low(data, w) == Wrap(Low(d, w) - Low(s, w), w)
    requires f.cf == ((op == SBB && Low(s, w) == 0 && carry) || Low(d, w) < Low(s, w))
    requires f.of == !Fits(Signed(d, w) - Signed(s, w), w) && f.af == (d % 16 < s % 16)
    ensures Computed(op, w, d, s0, carry, s, data, f)
  {
    FoldLow(s0, w);
  }

  class Core {
    var cpuData: u16
    var cpuSrc: u16
    var cpuDest: u16
    var cpuAluOp: nat
    var flags: Flags

    /** set_pzs */
    method SetPzs(w: Width)
      modifies this`flags
      ensures flags == old(flags).(pf := EvenParity(cpuData), zf := Low(cpuData, w) == 0, sf := Signed(cpuData, w) < 0)
    {
      TopBitIsSign(cpuData, w);
      flags := flags.(pf := EvenParity(cpuData));
      flags := flags.(zf := Low(cpuData, w) == 0);
      flags := flags.(sf := TopBit(cpuData, w));
    }

    /** set_apzs, and the overflow and carry flags. */
    method SetFlags(w: Width, of: bool, cf: bool)
      modifies this`flags
      ensures flags == old(flags).(pf := EvenParity(cpuData), zf := Low(cpuData, w) == 0, sf := Signed(cpuData, w) < 0,
                                   af := (Bit4(cpuData) != Bit4(cpuSrc)) != Bit4(cpuDest), of := of, cf := cf)
    {
      SetPzs(w);
      flags := flags.(af := (Bit4(cpuData) != Bit4(cpuSrc)) != Bit4(cpuDest));
      flags := flags.(of := of);
      flags := flags.(cf := cf);
    }

    /** do_add: the flags are those of the addition, except that the carry flag
        stays set after a carry into an all-ones operand of ADC. */
    method DoAdd(w: Width)
      modifies this`cpuData, this`flags
      ensures cpuData == (cpuDest + cpuSrc) % 0x1_0000 && Low(cpuData, w) == Wrap(Low(cpuDest, w) + Low(cpuSrc, w), w)
      ensures flags.cf ==
                ((cpuAluOp == ADC && Low(cpuSrc, w) == 0 && old(flags.cf))
                    || Low(cpuDest, w) + Low(cpuSrc, w) >= w.Size())
      ensures flags.of == !Fits(Signed(cpuDest, w) + Signed(cpuSrc, w), w)
      ensures flags.af == (cpuDest % 16 + cpuSrc % 16 >= 16)
      ensures flags.zf == (Low(cpuData, w) == 0) && flags.sf == (Signed(cpuData, w) < 0)
              && flags.pf == EvenParity(cpuData)
      ensures flags.df == old(flags.df)
    {
      cpuData := (cpuDest + cpuSrc) % 0x1_0000;
      AddFacts(cpuDest, cpuSrc, cpuData, w);
      SetFlags(w,
               TopBit(cpuData, w) != TopBit(cpuSrc, w) && TopBit(cpuData, w) != TopBit(cpuDest, w),
               if cpuAluOp == ADC && Low(cpuSrc, w) == 0 && flags.cf then true else Low(cpuSrc, w) > Low(cpuData, w));
    }

    /** do_sub, likewise with SBB. */
    method DoSub(w: Width)
      modifies this`cpuData, this`flags
      ensures cpuData == (cpuDest - cpuSrc) % 0x1_0000 && Low(cpuData, w) == Wrap(Low(cpuDest, w) - Low(cpuSrc, w), w)
      ensures flags.cf ==
                ((cpuAluOp == SBB && Low(cpuSrc, w) == 0 && old(flags.cf)) || Low(cpuDest, w) < Low(cpuSrc, w))
      ensures flags.of == !Fits(Signed(cpuDest, w) - Signed(cpuSrc, w), w)
      ensures flags.af == (cpuDest % 16 < cpuSrc % 16)
      ensures flags.zf == (Low(cpuData, w) == 0) && flags.sf == (Signed(cpuData, w) < 0)
              && flags.pf == EvenParity(cpuData)
      ensures flags.df == old(flags.df)
    {
      cpuData := (cpuDest - cpuSrc) % 0x1_0000;
      SubFacts(cpuDest, cpuSrc, cpuData, w);
      SetFlags(w,
               TopBit(cpuDest, w) != TopBit(cpuSrc, w) && TopBit(cpuData, w) != TopBit(cpuDest, w),
               if cpuAluOp == SBB && Low(cpuSrc, w) == 0 && flags.cf then true else Low(cpuSrc, w) > Low(cpuDest, w));
    }

    /** The arithmetic cases of alu_op. */
    method Arithmetic(w: Width)
      requires cpuAluOp in {ADD, ADC, SBB, SUB, CMP}
      modifies this`cpuData, this`cpuSrc, this`flags
      ensures Computed(cpuAluOp, w, cpuDest, old(cpuSrc), old(flags.cf), cpuSrc, cpuData, flags)
              && flags.df == old(flags.df)
    {
      ghost var s0, carry := cpuSrc, flags.cf;
      if cpuAluOp in {ADC, SBB} && flags.cf {
        cpuSrc := (cpuSrc + 1) % 0x1_0000;
      }
      if cpuAluOp in {ADD, ADC} {
        DoAdd(w);
        AddComputed(cpuAluOp, w, cpuDest, s0, carry, cpuSrc, cpuData, flags);
      } else {
        DoSub(w);
        SubComputed(cpuAluOp, w, cpuDest, s0, carry, cpuSrc, cpuData, flags);
      }
    }

    /** bitwise */
    method Bitwise(w: Width, data: u16)
      modifies this`cpuData, this`flags
      ensures cpuData == data && TellResult(data, w, flags)
      ensures !flags.cf && !flags.of && !flags.af && flags.df == old(flags.df)
    {
      cpuData := data;
      flags := flags.(cf := false, af := false, of := false);
      SetPzs(w);
    }

    /** The other cases of alu_op. */
    method Logic(w: Width)
      requires cpuAluOp in {OR, AND, XOR}
      modifies this`cpuData, this`flags
      ensures Combined(cpuAluOp, w, cpuDest, cpuSrc, cpuData, flags) && flags.df == old(flags.df)
    {
      SizeIsPow2(W16);
      var f := if cpuAluOp == OR then Either else if cpuAluOp == AND then Both else Differ;
      forall k | 0 <= k < 16
        ensures Digit(Combine(f, cpuDest, cpuSrc, 16), k) == f(Digit(cpuDest, k), Digit(cpuSrc, k))
      {
        CombineDigit(f, cpuDest, cpuSrc, 16, k);
      }
      Bitwise(w, Combine(f, cpuDest, cpuSrc, 16));
    }

    /** alu_op; the operations by their numbers. */
    method AluOp(w: Width)
      requires cpuAluOp < 8
      modifies this`cpuData, this`cpuSrc, this`flags
      ensures cpuAluOp == 1 ==> forall k | 0 <= k < 16 :: Digit(cpuData, k) == (Digit(cpuDest, k) || Digit(cpuSrc, k))
      ensures cpuAluOp == 4 ==> forall k | 0 <= k < 16 :: Digit(cpuData, k) == (Digit(cpuDest, k) && Digit(cpuSrc, k))
      ensures cpuAluOp == 6 ==> forall k | 0 <= k < 16 :: Digit(cpuData, k) == (Digit(cpuDest, k) != Digit(cpuSrc, k))
      ensures var d, s, z := Low(cpuDest, w), Low(old(cpuSrc), w), Low(cpuData, w);
              var c, size := (if old(flags.cf) then 1 else 0), w.Size();
              && (cpuAluOp == 0 ==> z == Wrap(d + s, w) && (flags.cf <==> d + s >= size))
              && (cpuAluOp == 2 ==> z == Wrap(d + s + c, w) && (flags.cf <==> d + s + c >= size))
              && (cpuAluOp == 3 ==> z == Wrap(d - s - c, w) && (flags.cf <==> d < s + c))
              && (cpuAluOp == 5 || cpuAluOp == 7 ==> z == Wrap(d - s, w) && (flags.cf <==> d < s))
      ensures flags.df == old(flags.df)
      ensures if cpuAluOp in {OR, AND, XOR} then
                Combined(cpuAluOp, w, cpuDest, cpuSrc, cpuData, flags) && cpuSrc == old(cpuSrc)
              else Computed(cpuAluOp, w, cpuDest, old(cpuSrc), old(flags.cf), cpuSrc, cpuData, flags)
    {
      if cpuAluOp in {OR, AND, XOR} {
        Logic(w);
      } else {
        Arithmetic(w);
      }
    }
  }
}
