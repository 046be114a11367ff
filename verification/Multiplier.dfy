/** Multiplication as the 8088 core carries it out: a bit at a time, on
    magnitudes, the product built up in the register the multiplier leaves. */
module Multiplier {
  import opened Arith
  import opened Alu
  import opened Words

  const AAD := 0xd5

  /** One round of the multiplier, on numbers.  pi is the power of two of the
      round; c and lo are the product so far of the multiplier bits m consumed and
      the multiplicand b, err is what stray carries have added to it. */
  lemma {:induction false} MulRound(pi: nat, m: nat, b: nat, c: nat, lo: nat, err: nat, bit: bool, extra: nat,
                                    half: nat, out: nat)
    requires c * pi + lo == m * b + err && lo < pi && out <= 1
    requires 2 * half + out == c + (if bit then b else 0) + extra
    ensures half * (2 * pi) + (lo + out * pi) == (m + if bit then pi else 0) * b + (err + extra * pi)
    ensures lo + out * pi < 2 * pi
  {
    assert (2 * half + out) * pi == half * (2 * pi) + out * pi;
    if bit {
      assert (c + b + extra) * pi == c * pi + b * pi + extra * pi;
      assert (m + pi) * b == m * b + pi * b;
    } else {
      assert (c + extra) * pi == c * pi + extra * pi;
    }
  }

  lemma {:induction false} NextBit(pi: nat, q: nat, m: nat)
    ensures q * pi + m == q / 2 * (2 * pi) + (m + if q % 2 == 1 then pi else 0)
  {
    assert q == 2 * (q / 2) + q % 2;
    assert (2 * (q / 2) + q % 2) * pi == q / 2 * (2 * pi) + q % 2 * pi;
  }

  /** The register that holds the multiplier bits to come and, above them, the
      product bits already out, shifted by one. */
  lemma {:induction false} MulShift(size: nat, pi: nat, hi2: nat, q: nat, lo: nat, a: nat, out: nat)
    requires 2 * (pi * hi2) == size && a == q / 2 + lo * (2 * hi2) && out <= 1
    ensures a / 2 + out * (size / 2) == q / 2 / 2 + (lo + out * pi) * hi2
    ensures a % 2 == q / 2 % 2
  {
    assert lo * (2 * hi2) == 2 * (lo * hi2);
    assert (lo + out * pi) * hi2 == lo * hi2 + out * (pi * hi2);
  }

  /** A multiplication of x by b modulo size. */
  datatype Task = Task(size: nat, x: nat, b: nat)

  /** The variables of do_mul before a round: c is the high part, a the shared
      register, carry the next multiplier bit. */
  datatype Shifter = Shifter(c: nat, a: nat, carry: bool)

  /** What they stand for: pi is the power of two of the round and hi the weight of
      the product bits already out, q the multiplier bits to come; m, lo and err as
      above. */
  datatype Account = Account(pi: nat, hi: nat, q: nat, m: nat, lo: nat, err: nat) {
    function Next(bit: bool, extra: nat, out: nat): (r: Account)
      ensures r.pi == 2 * pi && r.hi == hi / 2 && r.q == q / 2 && r.m == m + if bit then pi else 0
      ensures r.lo == lo + out * pi && r.err == err + extra * pi
    {
      assert out * pi >= 0 && extra * pi >= 0;
      Account(2 * pi, hi / 2, q / 2, m + (if bit then pi else 0), lo + out * pi, err + extra * pi)
    }
  }

  ghost predicate MulInv(k: Task, v: Shifter, g: Account) {
    && g.pi * g.hi == k.size
    && g.q * g.pi + g.m == k.x && g.m < g.pi
    && v.carry == (g.q % 2 == 1) && v.a == g.q / 2 + g.lo * g.hi
    && g.lo < g.pi && v.c * g.pi + g.lo == g.m * k.b + g.err
  }

  /** One round, in which a stray carry may have added extra, and out moves on. */
  predicate IsRound(k: Task, v: Shifter, v': Shifter, extra: nat, out: nat) {
    && 2 * v'.c + out == v.c + (if v.carry then k.b else 0) + extra && out <= 1
    && v'.a == v.a / 2 + out * (k.size / 2) && v'.carry == (v.a % 2 == 1)
  }

  lemma {:induction false} MulStep(k: Task, v: Shifter, g: Account, v': Shifter, extra: nat, out: nat)
    requires MulInv(k, v, g) && g.hi == 2 * (g.hi / 2) && IsRound(k, v, v', extra, out)
    ensures MulInv(k, v', g.Next(v.carry, extra, out))
  {
    var hi2 := g.hi / 2;
    MulRound(g.pi, g.m, k.b, v.c, g.lo, g.err, v.carry, extra, v'.c, out);
    NextBit(g.pi, g.q, g.m);
    Halves(g.pi, hi2);
    MulShift(k.size, g.pi, hi2, g.q, g.lo, v.a, out);
  }

  lemma {:induction false} Halves(p: nat, h: nat)
    ensures p * (2 * h) == 2 * (p * h) == 2 * p * h
  {
  }

  /** When a stray carry is possible, and what it has done so far: adc and cf0 are
      the leftover ALU operation and carry, cf the carry flag now. */
  ghost predicate StrayInv(adc: bool, cf0: bool, cf: bool, c: nat, g: Account) {
    && (!adc ==> g.err == 0)
    && (adc && !cf0 ==> g.err == 0 && (cf ==> c >= g.hi))
    && (adc && cf0 && g.m == 0 ==> g.err == 0 && c == 0 && cf)
    && (adc && cf0 && g.m != 0 ==> g.err > 0)
  }

  /** How a round may go wrong, and what it makes of the carry flag. */
  predicate MayStray(adc: bool, k: Task, v: Shifter, cf: bool, v': Shifter, cf': bool, extra: nat, out: nat) {
    && extra == (if v.carry && adc && v.c == 0 && cf then k.size else 0)
    && if v.carry then cf' == (2 * v'.c + out >= k.size) else cf' == cf
  }

  lemma {:induction false} StrayStep(adc: bool, cf0: bool, k: Task, v: Shifter, cf: bool, g: Account,
                                     v': Shifter, cf': bool, extra: nat, out: nat)
    requires StrayInv(adc, cf0, cf, v.c, g) && g.hi == 2 * (g.hi / 2) && 0 < g.hi <= k.size && g.pi > 0 && k.b < k.size
    requires IsRound(k, v, v', extra, out) && MayStray(adc, k, v, cf, v', cf', extra, out)
    ensures StrayInv(adc, cf0, cf', v'.c, g.Next(v.carry, extra, out))
  {
    if extra > 0 {
      assert k.size * g.pi > 0;
    }
  }

  /** Both together, with the number of strays so far. */
  lemma {:induction false} MulNext(adc: bool, cf0: bool, k: Task, v: Shifter, cf: bool, g: Account, stray: nat,
                                   v': Shifter, cf': bool, extra: nat, out: nat) returns (g': Account, stray': nat)
    requires MulInv(k, v, g) && StrayInv(adc, cf0, cf, v.c, g) && g.err == stray * k.size
    requires g.hi == 2 * (g.hi / 2) && g.hi > 0 && g.pi > 0 && k.b < k.size
    requires IsRound(k, v, v', extra, out) && MayStray(adc, k, v, cf, v', cf', extra, out)
    ensures MulInv(k, v', g') && StrayInv(adc, cf0, cf', v'.c, g') && g'.err == stray' * k.size
    ensures g'.hi == g.hi / 2 && g'.pi > 0
  {
    g', stray' := g.Next(v.carry, extra, out), stray + (if extra > 0 then g.pi else 0);
    MulStep(k, v, g, v', extra, out);
    MulOrder(1, g.pi, g.hi);
    StrayStep(adc, cf0, k, v, cf, g, v', cf', extra, out);
    StrayScale(stray, if extra > 0 then 1 else 0, k.size, g.pi);
  }

  // ----- halves and magnitudes -----------------------------------------------

  /** x with every bit inverted, and its two's complement. */
  function Not(x: u16): u16 {
    0xffff - x
  }

  function Neg(x: u16): u16 {
    (Not(x) + 1) % 0x1_0000
  }

  /** A number without its low bits, and the half above them. */
  function Above(p: int, w: Width): int {
    if w.W8? then p / 0x100 else p / 0x1_0000
  }

  function High(p: int, w: Width): (r: nat)
    ensures r < w.Size()
  {
    Low(Above(p, w), w)
  }

  lemma {:induction false} Halve(p: int, q: int, r: int, w: Width)
    requires p == q * w.Size() + r && 0 <= r < w.Size()
    ensures Above(p, w) == q && Low(p, w) == r
  {
    DivIs(p, w.Size(), q, r);
  }

  lemma {:induction false} NotLow(x: u16, w: Width)
    ensures Low(Not(x), w) == w.Size() - 1 - Low(x, w)
  {
    DiffLow(0xffff, x, w);
  }

  lemma {:induction false} NegLow(x: u16, w: Width)
    ensures Neg(x) == (0 - x) % 0x1_0000
    ensures Low(Neg(x), w) == if Low(x, w) == 0 then 0 else w.Size() - Low(x, w)
  {
    DivIs(0 - x, 0x1_0000, if x == 0 then 0 else -1, if x == 0 then 0 else 0x1_0000 - x);
    DiffLow(0, x, w);
  }

  lemma {:induction false} NegIsMinus(x: u16, w: Width)
    ensures Neg(x) == (0 - x) % 0x1_0000
    ensures Low(Neg(x), w) == if Low(x, w) == 0 then 0 else w.Size() - Low(x, w)
    ensures Low(Not(x), w) == w.Size() - 1 - Low(x, w)
  {
    NotLow(x, w);
    NegLow(x, w);
  }

  /** The product whose halves a multiplication leaves. */
  function Product(a: u16, b: u16, w: Width, signed: bool): int {
    if signed then Signed(a, w) * Signed(b, w) else Low(a, w) * Low(b, w)
  }

  lemma {:induction false} SignsMultiply(x: int, y: int)
    ensures x * y == -x * -y && -x * y == -(x * y) && x * -y == -(x * y)
  {
  }

  /** Halves that are off by stray in the upper one. */
  lemma {:induction false} Unstray(p: int, c: nat, a: nat, stray: nat, w: Width)
    requires c < w.Size() && a < w.Size() && stray <= c && c * w.Size() + a == p + stray * w.Size()
    ensures a == Low(p, w) && (c == High(p, w) <==> stray == 0)
  {
    assert (c - stray) * w.Size() == c * w.Size() - stray * w.Size();
    Halve(p, c - stray, a, w);
  }

  /** The product of such halves negated, again as two halves. */
  lemma {:induction false} NegatedSum(size: nat, p: int, c: nat, a: nat, stray: nat, lo: nat)
    requires a < size && c * size + a == p + stray * size && lo == if a == 0 then 0 else size - a
    ensures -p == (stray - c - if lo == 0 then 0 else 1) * size + lo
  {
    assert (stray - c) * size == stray * size - c * size;
    assert (stray - c - 1) * size == (stray - c) * size - size;
  }

  /** The upper half inverted, or negated, differs by stray from that of the
      negated product. */
  lemma {:induction false} NegatedHigh(c: nat, stray: nat, w: Width, lo: nat, hi: u16)
    requires c < w.Size() && stray <= c && hi == if lo == 0 then Neg(c) else Not(c)
    ensures Low(hi, w) == Low(stray - c - if lo == 0 then 0 else 1, w) <==> stray == 0
  {
    NegIsMinus(c, w);
    SizeDigit(c, w);
    HighMinus(stray - c - if lo == 0 then 0 else 1, c, stray, lo, w);
  }

  /** The same halves negated as do_mul does it. */
  lemma {:induction false} UnstrayNegated(p: int, c: nat, a: nat, stray: nat, w: Width, lo: nat, hi: u16)
    requires c < w.Size() && a < w.Size() && stray <= c && c * w.Size() + a == p + stray * w.Size()
    requires lo == Low(Neg(a), w) && hi == if lo == 0 then Neg(c) else Not(c)
    ensures lo == Low(-p, w) && (Low(hi, w) == High(-p, w) <==> stray == 0)
  {
    NegIsMinus(a, w);
    SizeDigit(a, w);
    NegatedSum(w.Size(), p, c, a, stray, lo);
    Halve(-p, stray - c - if lo == 0 then 0 else 1, lo, w);
    NegatedHigh(c, stray, w, lo, hi);
  }

  lemma {:induction false} HighMinus(q: int, c: nat, stray: nat, lo: nat, w: Width)
    requires c < w.Size() && stray <= c && q == stray - c - if lo == 0 then 0 else 1
    ensures Low(q, w) == Wrap((if lo == 0 then if c == 0 then 0 else w.Size() - c else w.Size() - 1 - c) + stray, w)
  {
    DivIs(q, w.Size(), if q == 0 then 0 else -1, if q == 0 then 0 else q + w.Size());
  }

  /** The two halves a multiplication leaves, read as one number. */
  function Joined(hi: nat, lo: nat, w: Width, signed: bool): int {
    (if signed then Signed(hi, w) else hi) * w.Size() + lo
  }

  /** The product of numbers of size at most h. */
  lemma {:induction false} MagnitudeBounds(x: int, y: int, h: int)
    requires -h <= x <= h && -h <= y <= h
    ensures -(h * h) <= x * y <= h * h
    ensures 0 <= x < h && 0 <= y < h ==> 0 <= x * y < h * h
  {
    SignsMultiply(x, y);
    var ax, ay := if x < 0 then -x else x, if y < 0 then -y else y;
    if ay > 0 {
      MulOrder(ax, h, ay);
      MulOrder(ay, h, h);
      assert h * ay == ay * h;
    }
  }

  lemma {:induction false} ProductBounds(a: u16, b: u16, w: Width, signed: bool)
    ensures InRange(Product(a, b, w, signed), w, signed)
  {
    if signed {
      MagnitudeBounds(Signed(a, w), Signed(b, w), w.Size() / 2);
    } else {
      MagnitudeBounds(Low(a, w), Low(b, w), w.Size());
    }
  }

  /** What a multiplication leaves for the product p: the lower half is that of
      p, both halves joined are p exactly when nothing disturbed it, and then the
      flags tell whether the lower half alone would do. */
  ghost predicate Outcome(p: int, w: Width, signed: bool, exact: bool, hi: nat, lo: nat, flags: Flags) {
    && lo == Low(p, w) && hi < w.Size()
    && (Joined(hi, lo, w, signed) == p <==> exact)
    && flags.cf == flags.of
    && (exact ==> (flags.cf <==> if signed then !Fits(p, w) else p >= w.Size()))
  }

  /** A 16-bit or 8-bit number read as two's complement. */
  function SignedWord(x: int): int {
    if x < 0x8000 then x else x - 0x1_0000
  }

  function SignedByte(x: int): int {
    if x < 0x80 then x else x - 0x100
  }

  ghost predicate InRange(p: int, w: Width, signed: bool) {
    if signed then -(w.Size() / 2) * (w.Size() / 2) <= p <= w.Size() / 2 * (w.Size() / 2)
        else 0 <= p < w.Size() * w.Size()
  }

  /** A multiplication that leaves halves hi and lo of the product p of so many bits, in
      numbers: size is two to the power of these, top half of that. */
  predicate Leaves(p: int, size: int, signed: bool, exact: bool, hi: int, lo: int, flags: Flags)
    requires size > 0
  {
    && lo == p % size
    && (exact <==> p == (if signed && hi >= size / 2 then hi - size else hi) * size + lo)
    && (exact ==> flags.cf == flags.of == if signed then p < -(size / 2) || p >= size / 2 else p >= size)
  }

  lemma {:induction false} WordOutcome(a: u16, b: u16, signed: bool, exact: bool, hi: u16, lo: u16, flags: Flags)
    requires Outcome(Product(a, b, W16, signed), W16, signed, exact, hi, lo, flags)
    ensures Leaves(if signed then SignedWord(a) * SignedWord(b) else a * b, 0x1_0000, signed, exact, hi, lo, flags)
    ensures Product(a, b, W16, signed) == if signed then SignedWord(a) * SignedWord(b) else a * b
  {
    SizeDigit(a, W16);
    SizeDigit(b, W16);
    SizeDigit(hi, W16);
  }

  lemma {:induction false} ByteOutcome(a: u16, b: u16, signed: bool, exact: bool, hi: nat, lo: nat, flags: Flags)
    requires Outcome(Product(a, b, W8, signed), W8, signed, exact, hi, lo, flags)
    ensures var x, y := a % 0x100, b % 0x100;
            && Leaves(if signed then SignedByte(x) * SignedByte(y) else x * y, 0x100, signed, exact, hi, lo, flags)
            && Product(a, b, W8, signed) == if signed then SignedByte(x) * SignedByte(y) else x * y
  {
    SizeDigit(hi, W8);
  }

  lemma {:induction false} AboveInRange(p: int, w: Width, signed: bool)
    requires InRange(p, w, signed)
    ensures if signed then -(w.Size() / 2) <= Above(p, w) <= w.Size() / 2 else 0 <= Above(p, w) < w.Size()
    ensures p == Above(p, w) * w.Size() + Low(p, w)
  {
    if w.W8? {
      assert p == p / 0x100 * 0x100 + p % 0x100;
    } else {
      assert p == p / 0x1_0000 * 0x1_0000 + p % 0x1_0000;
    }
  }

  lemma {:induction false} SignedOfHigh(q: int, w: Width)
    requires -(w.Size() / 2) <= q <= w.Size() / 2
    ensures Low(q, w) == if q < 0 then q + w.Size() else q
    ensures q < w.Size() / 2 ==> Signed(Low(q, w), w) == q
  {
    DivIs(q, w.Size(), if q < 0 then -1 else 0, if q < 0 then q + w.Size() else q);
  }

  lemma {:induction false} SizeDigit(q: int, w: Width)
    requires 0 <= q < w.Size()
    ensures Low(q, w) == q
  {
    DivIs(q, w.Size(), 0, q);
  }

  /** The lower half of p with any upper half is p only if that is the upper half
      of p. */
  lemma {:induction false} JoinedIs(p: int, w: Width, signed: bool, hi: nat, lo: nat)
    requires p == Above(p, w) * w.Size() + lo && hi < w.Size()
    ensures Joined(hi, lo, w, signed) == p <==> (if signed then Signed(hi, w) else hi) == Above(p, w)
  {
    var q := if signed then Signed(hi, w) else hi;
    MulOrder(q, Above(p, w), w.Size());
    MulOrder(Above(p, w), q, w.Size());
  }

  lemma {:induction false} JoinedExactly(p: int, w: Width, signed: bool, hi: nat, lo: nat)
    requires InRange(p, w, signed) && lo == Low(p, w) && hi < w.Size()
    ensures Joined(hi, lo, w, signed) == p <==> hi == High(p, w)
  {
    AboveInRange(p, w, signed);
    JoinedIs(p, w, signed, hi, lo);
    if signed {
      SignedOfHigh(Above(p, w), w);
      SignedOfHigh(if hi < w.Size() / 2 then hi else hi - w.Size(), w);
    } else {
      SizeDigit(Above(p, w), w);
    }
  }

  /** The callers' comparison of the upper half finds out whether p fits the lower. */
  lemma {:induction false} HalvesTell(p: int, w: Width, signed: bool, hi: nat, lo: nat)
    requires InRange(p, w, signed) && lo == Low(p, w) && hi == High(p, w)
    ensures (hi != if lo < w.Size() / 2 || !signed then 0 else w.Size() - 1) <==>
            if signed then !Fits(p, w) else p >= w.Size()
    ensures p == 0 <==> hi == 0 && lo == 0
  {
    AboveInRange(p, w, signed);
    if signed {
      SignedOfHigh(Above(p, w), w);
    } else {
      SizeDigit(Above(p, w), w);
    }
  }

  lemma {:induction false} OutcomeHolds(p: int, w: Width, signed: bool, exact: bool, hi: nat, lo: nat, flags: Flags)
    requires InRange(p, w, signed)
    requires lo == Low(p, w) && hi < w.Size() && (hi == High(p, w) <==> exact)
    requires flags.cf == flags.of == (hi != if lo < w.Size() / 2 || !signed then 0 else w.Size() - 1)
    ensures Outcome(p, w, signed, exact, hi, lo, flags)
    ensures exact ==> (p == 0 <==> hi == 0 && lo == 0)
  {
    JoinedExactly(p, w, signed, hi, lo);
    if exact {
      HalvesTell(p, w, signed, hi, lo);
    }
  }

  class Unit {
    const core: Core
    const isNec: bool
    var opcode: nat
    var rmdat: nat
    var ax: u16
    var dx: u16
    var divideErrors: nat // how often INT 0 has been raised

    constructor (core: Core, isNec: bool)
      ensures this.core == core && this.isNec == isNec
    {
      this.core, this.isNec := core, isNec;
    }

    /** The operand size do_mul works with: AAD is always a byte operation. */
    function MulWidth(): Width
      reads this`opcode
    {
      if opcode != AAD && opcode % 2 == 1 then W16 else W8
    }

    predicate MulSigned()
      reads this`opcode, this`rmdat
    {
      opcode != AAD && rmdat / 8 % 8 == 5
    }

    /** A leftover ADC does not disturb a multiplication of a by anything. */
    predicate Undisturbed(a: u16)
      reads this`opcode, core`cpuAluOp, core`flags
    {
      !(core.cpuAluOp == ADC && core.flags.cf && Low(a, MulWidth()) != 0)
    }

    /** Adds the multiplicand: the sum as a number of one bit more.  A leftover ADC
        makes a carry flag stick when the high part is zero. */
    method MulAdd(c: nat, b: u16, w: Width) returns (c': nat, carry: bool, ghost stray: nat)
      requires c < w.Size()
      modifies core`cpuSrc, core`cpuDest, core`cpuData, core`flags
      ensures c' < w.Size() && stray <= 1 && carry == core.flags.cf
      ensures c' + (if carry then w.Size() else 0) == c + Low(b, w) + stray * w.Size()
      ensures stray == 1 <==> core.cpuAluOp == ADC && c == 0 && old(core.flags.cf)
    {
      core.cpuSrc := c;
      core.cpuDest := b;
      assert Low(c, w) == c;
      core.DoAdd(w);
      c' := Low(core.cpuData, w);
      carry := core.flags.cf;
      stray := if core.cpuAluOp == ADC && c == 0 && old(core.flags.cf) then 1 else 0;
    }

    /** One round of do_mul. */
    method MulBody(c0: nat, a0: nat, bit: bool, b: u16, w: Width)
      returns (c: nat, a: nat, carry: bool, ghost extra: nat, ghost out: nat)
      requires c0 < w.Size() && a0 < w.Size()
      modifies core`cpuSrc, core`cpuDest, core`cpuData, core`flags
      ensures c < w.Size() && a < w.Size() && out <= 1 && a == a0 / 2 + out * (w.Size() / 2) && carry == (a0 % 2 == 1)
      ensures 2 * c + out == c0 + (if bit then Low(b, w) else 0) + extra
      ensures extra == if bit && core.cpuAluOp == ADC && c0 == 0 && old(core.flags.cf) then w.Size() else 0
      ensures if bit then core.flags.cf == (2 * c + out >= w.Size()) else core.flags.cf == old(core.flags.cf)
    {
      c, carry, extra := c0, bit, 0;
      if carry {
        ghost var stray;
        c, carry, stray := MulAdd(c, b, w);
        extra := if stray == 1 then w.Size() else 0;
      }
      var r := c / 2 + if carry then w.Size() / 2 else 0;
      carry := c % 2 == 1;
      out := c % 2;
      c := r;
      r := a0 / 2 + if carry then w.Size() / 2 else 0;
      carry := a0 % 2 == 1;
      a := r;
    }

    /** The invariant of the loop of do_mul before a round of weight hi. */
    ghost predicate InLoop(k: Task, v: Shifter, cf0: bool, g: Account, stray: nat, hi: nat)
      reads core`cpuAluOp, core`flags
    {
      && g.pi > 0 && g.hi == hi && v.c < k.size && v.a < k.size && k.b < k.size && g.err == stray * k.size
      && MulInv(k, v, g) && StrayInv(core.cpuAluOp == ADC, cf0, core.flags.cf, v.c, g)
    }

    /** One round, and what it does to the account. */
    method MulRoundOf(c0: nat, a0: nat, carry0: bool, b: u16, w: Width, ghost k: Task, ghost cf0: bool,
                      ghost g0: Account,
                      ghost stray0: nat, ghost hi: nat)
      returns (c: nat, a: nat, carry: bool, ghost g: Account, ghost stray: nat)
      requires k.size == w.Size() && k.b == Low(b, w) && hi > 0
               && InLoop(k, Shifter(c0, a0, carry0), cf0, g0, stray0, 2 * hi)
      modifies core`cpuSrc, core`cpuDest, core`cpuData, core`flags
      ensures InLoop(k, Shifter(c, a, carry), cf0, g, stray, hi)
    {
      ghost var v, cf, extra, out := Shifter(c0, a0, carry0), core.flags.cf, 0, 0;
      c, a, carry, extra, out := MulBody(c0, a0, carry0, b, w);
      g, stray := MulNext(core.cpuAluOp == ADC, cf0, k, v, cf, g0, stray0, Shifter(c, a, carry), core.flags.cf, extra,
          out);
    }

    /** The loop of do_mul: high and low half of the product of the low bits of a0
        and b.  The high half is off by stray, which is zero but for the case of a
        leftover ADC, a carry flag still set, and a multiplier that is not zero. */
    method MulLoop(a0: u16, b: u16, w: Width) returns (c: nat, a: nat, ghost stray: nat)
      modifies core`cpuSrc, core`cpuDest, core`cpuData, core`flags
      ensures c < w.Size() && a < w.Size() && stray <= c
      ensures c * w.Size() + a == Low(a0, w) * Low(b, w) + stray * w.Size()
      ensures stray == 0 <==> !(core.cpuAluOp == ADC && old(core.flags.cf) && Low(a0, w) != 0)
    {
      ghost var k, cf0 := Task(w.Size(), Low(a0, w), Low(b, w)), core.flags.cf;
      c := 0;
      a := Low(a0, w);
      var carry := a % 2 == 1;
      ghost var g := Account(1, w.Size(), a, 0, 0, 0);
      a := a / 2;
      stray := 0;
      SizeIsPow2(w);
      for i := 0 to w.Bits()
        invariant InLoop(k, Shifter(c, a, carry), cf0, g, stray, Pow2(w.Bits() - i))
      {
        c, a, carry, g, stray := MulRoundOf(c, a, carry, b, w, k, cf0, g, stray, Pow2(w.Bits() - i - 1));
      }
      MulEnd(k, Shifter(c, a, carry), g);
      StrayBelow(stray, k.size, c, a, k.x, k.b);
    }

    /** The sign handling at the start of do_mul. */
    method Magnitudes(a0: u16, b0: u16, w: Width, signed: bool) returns (a: u16, b: u16, negate: bool)
      ensures Low(a, w) * Low(b, w) == if negate then -Product(a0, b0, w, signed) else Product(a0, b0, w, signed)
      ensures Low(a, w) == 0 <==> Low(a0, w) == 0
    {
      a, b, negate := a0, b0, false;
      NegIsMinus(a, w);
      NegIsMinus(b, w);
      TopBitIsSign(a, w);
      TopBitIsSign(b, w);
      SignsMultiply(Signed(a, w), Signed(b, w));
      if signed {
        if !TopBit(a, w) {
          if TopBit(b, w) {
            b := Neg(b);
            negate := true;
          }
        } else {
          a := Neg(a);
          negate := true;
          if TopBit(b, w) {
            b := Neg(b);
            negate := false;
          }
        }
      }
    }

    /** The sign correction after the loop; the halves are those of m, the upper
        one off by stray. */
    method CorrectSign(c0: u16, a0: u16, w: Width, negate: bool, ghost m: int, ghost stray: nat)
                       returns (c: u16, a: u16)
      requires c0 < w.Size() && a0 < w.Size() && stray <= c0 && c0 * w.Size() + a0 == m + stray * w.Size()
      ensures !negate ==> a == Low(m, w) && (Low(c, w) == High(m, w) <==> stray == 0)
      ensures negate ==> a == Low(-m, w) && (Low(c, w) == High(-m, w) <==> stray == 0)
    {
      c, a := c0, a0;
      Unstray(m, c, a, stray, w);
      if negate {
        a := Low(Neg(a), w);
        c := Not(c);
        if a == 0 {
          c := (c + 1) % 0x1_0000;
        }
        UnstrayNegated(m, c0, a0, stray, w, a, c);
      }
    }

    /** do_mul: the low half is always that of the product, the high half exactly
        when no leftover ADC disturbs it. */
    method DoMul(a0: u16, b0: u16)
      modifies core`cpuSrc, core`cpuDest, core`cpuData, core`flags
      ensures var w, p := MulWidth(), Product(a0, b0, MulWidth(), MulSigned());
              && core.cpuData == Low(p, w)
              && (Low(core.cpuDest, w) == High(p, w) <==> old(Undisturbed(a0)))
      ensures core.flags.sf == (Signed(core.cpuData, MulWidth()) < 0) && core.flags.pf == EvenParity(core.cpuData)
    {
      var w := MulWidth();
      var a, b, negate := Magnitudes(a0, b0, w, MulSigned());
      ghost var m := Low(a, w) * Low(b, w);
      var c;
      ghost var stray;
      c, a, stray := MulLoop(a, b, w);
      c, a := CorrectSign(c, a, w, negate, m, stray);
      core.cpuData := a;
      core.cpuDest := c;
      TopBitIsSign(core.cpuData, w);
      core.flags := core.flags.(sf := TopBit(core.cpuData, w));
      core.flags := core.flags.(pf := EvenParity(core.cpuData));
    }

    method SetCarryOverflow(carry: bool)
      modifies core`flags
      ensures core.flags == old(core.flags).(cf := carry, of := carry)
    {
      core.flags := core.flags.(cf := carry);
      core.flags := core.flags.(of := carry);
    }

    /** The two halves ORed. */
    method Whole(x: nat, y: nat, w: Width) returns (whole: nat)
      requires x < w.Size() && y < w.Size()
      ensures whole < w.Size() && (whole == 0 <==> x == 0 && y == 0)
    {
      SizeIsPow2(w);
      EitherIsZero(x, y, w.Bits());
      whole := Combine(Either, x, y, w.Bits());
    }

    /** The flags the callers set from the two halves. */
    method SetMulFlags(hi: nat, lo: nat, w: Width, whole: u16, ghost p: int, ghost exact: bool)
      requires InRange(p, w, MulSigned()) && MulSigned() == (rmdat / 8 % 8 != 4) && whole < w.Size()
      requires lo == Low(p, w) && hi < w.Size() && (hi == High(p, w) <==> exact)
      modifies core`cpuData, core`flags
      ensures Outcome(p, w, MulSigned(), exact, hi, lo, core.flags)
      ensures core.flags.zf == (whole == 0)
      ensures exact ==> (p == 0 <==> hi == 0 && lo == 0)
    {
      SetCarryOverflow(hi != if lo < w.Size() / 2 || rmdat / 8 % 8 == 4 then 0 else w.Size() - 1);
      core.cpuData := whole;
      SizeDigit(whole, w);
      core.flags := core.flags.(zf := Low(core.cpuData, w) == 0);
      OutcomeHolds(p, w, MulSigned(), exact, hi, lo, core.flags);
    }

    /** What the word forms do with the halves of p that do_mul left. */
    method StoreWord(ghost p: int, ghost exact: bool)
      requires opcode == 0xf7 && rmdat / 8 % 8 in {4, 5} && InRange(p, W16, MulSigned())
      requires core.cpuData == Low(p, W16) && (Low(core.cpuDest, W16) == High(p, W16) <==> exact)
      modifies this`ax, this`dx, core`cpuData, core`flags
      ensures Outcome(p, W16, MulSigned(), exact, dx, ax, core.flags)
      ensures exact ==> (core.flags.zf <==> p == 0)
    {
      ax := core.cpuData;
      dx := core.cpuDest;
      var whole := Whole(ax, dx, W16);
      SetMulFlags(dx, ax, W16, whole, p, exact);
    }

    /** The word form of MUL and IMUL. */
    method MultiplyWord()
      requires opcode == 0xf7 && rmdat / 8 % 8 in {4, 5}
      modifies this`ax, this`dx, core`cpuSrc, core`cpuDest, core`cpuData, core`flags
      ensures Outcome(Product(old(ax), old(core.cpuData), W16, MulSigned()), W16, MulSigned(), old(Undisturbed(ax)),
              dx, ax, core.flags)
      ensures old(Undisturbed(ax)) ==> (core.flags.zf <==> Product(old(ax), old(core.cpuData), W16, MulSigned()) == 0)
      ensures var exact := !old(core.cpuAluOp == 2 && core.flags.cf && ax != 0);
              if rmdat / 8 % 8 == 4 then
                Leaves(old(ax) * old(core.cpuData), 0x1_0000, false, exact, dx, ax, core.flags)
              else
                Leaves(SignedWord(old(ax)) * SignedWord(old(core.cpuData)), 0x1_0000, true, exact, dx, ax, core.flags)
    {
      ghost var p, exact := Product(ax, core.cpuData, W16, MulSigned()), Undisturbed(ax);
      ProductBounds(ax, core.cpuData, W16, MulSigned());
      ghost var ax0, data := ax, core.cpuData;
      DoMul(ax, core.cpuData);
      StoreWord(p, exact);
      SizeDigit(ax0, W16);
      WordOutcome(ax0, data, MulSigned(), exact, dx, ax, core.flags);
    }

    /** What the byte forms do; on a NEC part the zero flag looks at the lower
        half only. */
    method StoreByte(ghost p: int, ghost exact: bool)
      requires opcode == 0xf6 && rmdat / 8 % 8 in {4, 5} && InRange(p, W8, MulSigned())
      requires core.cpuData == Low(p, W8) && (Low(core.cpuDest, W8) == High(p, W8) <==> exact)
      modifies this`ax, core`cpuData, core`flags
      ensures Outcome(p, W8, MulSigned(), exact, ax / 0x100, ax % 0x100, core.flags)
      ensures if isNec then core.flags.zf <==> ax % 0x100 == 0 else exact ==> (core.flags.zf <==> p == 0)
    {
      var hi, lo := core.cpuDest % 0x100, core.cpuData % 0x100;
      Bytes(hi, lo);
      ax := hi * 0x100 + lo;
      var whole := Whole(lo, hi, W8);
      SetMulFlags(hi, lo, W8, if isNec then lo else whole, p, exact);
    }

    /** The byte form of MUL and IMUL. */
    method MultiplyByte()
      requires opcode == 0xf6 && rmdat / 8 % 8 in {4, 5}
      modifies this`ax, core`cpuSrc, core`cpuDest, core`cpuData, core`flags
      ensures Outcome(Product(old(ax), old(core.cpuData), W8, MulSigned()), W8, MulSigned(), old(Undisturbed(ax)),
                      ax / 0x100, ax % 0x100, core.flags)
      ensures if isNec then core.flags.zf <==> ax % 0x100 == 0
              else old(Undisturbed(ax)) ==>
                  (core.flags.zf <==> Product(old(ax), old(core.cpuData), W8, MulSigned()) == 0)
      ensures var exact := !old(core.cpuAluOp == 2 && core.flags.cf && ax % 0x100 != 0);
              var x, y := old(ax) % 0x100, old(core.cpuData) % 0x100;
              if rmdat / 8 % 8 == 4 then
                Leaves(x * y, 0x100, false, exact, ax / 0x100, ax % 0x100, core.flags)
              else
                Leaves(SignedByte(x) * SignedByte(y), 0x100, true, exact, ax / 0x100, ax % 0x100, core.flags)
    {
      ghost var p, exact := Product(ax, core.cpuData, W8, MulSigned()), Undisturbed(ax);
      ProductBounds(ax, core.cpuData, W8, MulSigned());
      LowByte(ax);
      ghost var ax0, data := ax, core.cpuData;
      DoMul(ax % 0x100, core.cpuData);
      StoreByte(p, exact);
      ByteOutcome(ax0, data, MulSigned(), exact, ax / 0x100, ax % 0x100, core.flags);
    }

    method AddLowHalf(ghost p: nat, ghost low: u16)
      requires core.cpuData == low == p % 0x100 && low < 0x100
      modifies this`ax, core`flags
      ensures ax == (old(ax) % 0x100 + p) % 0x100
      ensures !core.flags.sf && (core.flags.zf <==> low == 0) && core.flags.pf == EvenParity(low)
    {
      AddLow(ax % 0x100, p);
      SizeDigit(low, W16);
      ax := (ax % 0x100 + core.cpuData) % 0x100;
      core.SetPzs(W16);
    }

    /** AAD: exact whatever carry was left over.  The flags are those of the lower
        half of the product, not of the sum. */
    method AsciiAdjustForDivision(imm: u16)
      requires opcode == 0xd5 && imm < 0x100
      modifies this`ax, core`cpuSrc, core`cpuDest, core`cpuData, core`flags
      ensures ax == (old(ax) % 0x100 + imm * (old(ax) / 0x100)) % 0x100
      ensures !core.flags.sf && (core.flags.zf <==> imm * (old(ax) / 0x100) % 0x100 == 0)
    {
      ByteProduct(imm, ax / 0x100);
      ghost var p := Product(imm, ax / 0x100, W8, false);
      DoMul(imm, ax / 0x100);
      AddLowHalf(p, core.cpuData);
    }
  }

  lemma {:induction false} ByteProduct(x: u16, y: u16)
    requires x < 0x100 && y < 0x100
    ensures Product(x, y, W8, false) == x * y
  {
    LowByte(x);
    LowByte(y);
  }

  lemma {:induction false} LowByte(x: u16)
    ensures Low(x % 0x100, W8) == Low(x, W8) && Signed(x % 0x100, W8) == Signed(x, W8)
  {
  }

  lemma {:induction false} AddLow(x: nat, p: nat)
    ensures (x + p % 0x100) % 0x100 == (x + p) % 0x100
  {
  }

  lemma {:induction false} Bytes(hi: nat, lo: nat)
    requires hi < 0x100 && lo < 0x100
    ensures (hi * 0x100 + lo) / 0x100 == hi && (hi * 0x100 + lo) % 0x100 == lo && hi % 0x100 == hi && lo % 0x100 == lo
  {
  }

  lemma {:induction false} StrayScale(stray: nat, one: nat, size: nat, pi: nat)
    ensures stray * size + one * size * pi == (stray + one * pi) * size
  {
    assert one * size * pi == one * pi * size;
  }

  lemma {:induction false} StrayBelow(stray: nat, size: nat, c: nat, a: nat, x: nat, b: nat)
    requires size > 0 && c < size && a < size && c * size + a == x * b + stray * size
    ensures stray <= c && (stray == 0 <==> stray * size == 0)
  {
    assert x * b >= 0;
    MulOrder(stray, c + 1, size);
    MulOrder(0, stray, size);
  }

  lemma {:induction false} MulEnd(k: Task, v: Shifter, g: Account)
    requires MulInv(k, v, g) && g.hi == 1 && k.x < k.size
    ensures g.m == k.x && v.c * k.size + v.a == k.x * k.b + g.err
  {
    MulOrder(g.q, 1, k.size);
  }

  /** With ADC and a carry left over, MUL of 1 by 1 leaves an upper half that is not
      zero. */
  method StrayProduct(u: Unit)
    requires u.core.cpuAluOp == ADC && u.core.flags.cf
    requires u.opcode == 0xf6 && u.rmdat == 0x20 && u.ax == 1 && u.core.cpuData == 1
    modifies u`ax, u.core`cpuSrc, u.core`cpuDest, u.core`cpuData, u.core`flags
    ensures u.ax % 0x100 == 1 && u.ax / 0x100 != 0
  {
    u.MultiplyByte();
  }

  /** ADC of 0xff and 1 leaves both. */
  method LeaveCarry(core: Core)
    requires core.cpuAluOp == ADC && core.cpuDest == 0xff && core.cpuSrc == 1
    modifies core`cpuData, core`cpuSrc, core`flags
    ensures core.cpuAluOp == ADC && core.flags.cf
  {
    core.AluOp(W8);
  }
}
