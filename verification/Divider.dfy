/** Division as the 8088 core carries it out: a restoring loop that shifts the
    inverted quotient bits into the register the dividend leaves, in 16-bit
    variables that byte operations do not mask. */
module Divider {
  import opened Arith
  import opened Alu
  import opened Multiplier
  import opened Words

  const AAM := 0xd4

  // ----- the loop on numbers -------------------------------------------------

  /** Shifting left by one, with a bit moved in. */
  lemma {:induction false} ShiftIn(l: u16, carry: bool, w: Width)
    ensures var c := if carry then 1 else 0;
            Low((2 * l + c) % 0x1_0000, w) == 2 * Low(l, w) + c - if TopBit(l, w) then w.Size() else 0
  {
    var c := if carry then 1 else 0;
    TopBitIsSign(l, w);
    Reduce(2 * l + c, w);
    Halve(l, Above(l, w), Low(l, w), w) by {
      if w.W8? {
        assert l == l / 0x100 * 0x100 + l % 0x100;
      } else {
        assert l == l / 0x1_0000 * 0x1_0000 + l % 0x1_0000;
      }
    }
    var t := if TopBit(l, w) then 1 else 0;
    assert (2 * Above(l, w) + t) * w.Size() == 2 * (Above(l, w) * w.Size()) + t * w.Size();
    Halve(2 * l + c, 2 * Above(l, w) + t, 2 * Low(l, w) + c - t * w.Size(), w);
  }

  /** The state of the divider before a round: pb is the power of two of the round
      and p the weight of the dividend bits to come; l holds those bits, rest, and
      below them the inverted quotient bits but the last, which carry holds; q and
      h are quotient and remainder of the dividend bits consumed. */
  ghost predicate DivInv(size: nat, pb: nat, p: nat, n: nat, d: nat, l: nat, h: nat, carry: bool, q: nat, rest: nat) {
    && pb * p == size
    && l == rest * pb + (pb - 1 - q / 2) && q < pb && rest < p
    && carry == (q % 2 == 0)
    && h < d && n == (q * d + h) * p + rest
  }

  lemma {:induction false} TopOfRest(pb: nat, p2: nat, rest: nat, low: nat)
    requires low < pb
    ensures rest * pb + low >= pb * p2 <==> rest >= p2
  {
    MulOrder(rest, p2, pb);
    MulOrder(rest + 1, p2, pb);
    assert (rest + 1) * pb == rest * pb + pb;
  }

  lemma {:induction false} RoundOfQuotient(q: nat, d: nat, h: nat, p2: nat, rest: nat, bit: nat, one: nat, h': nat)
    requires bit * p2 <= rest && 2 * h + bit == one * d + h'
    ensures (q * d + h) * (2 * p2) + rest == ((2 * q + one) * d + h') * p2 + (rest - bit * p2)
  {
    assert (2 * q + one) * d + h' == 2 * (q * d + h) + bit;
    assert (2 * (q * d + h) + bit) * p2 == (q * d + h) * (2 * p2) + bit * p2;
  }

  lemma {:induction false} DivStep(size: nat, pb: nat, p2: nat, n: nat, d: nat, l: nat, h: nat, carry: bool, q: nat,
                                   rest: nat,
                                   bit: nat, one: nat, h': nat) returns (q': nat, rest': nat)
    requires DivInv(size, pb, 2 * p2, n, d, l, h, carry, q, rest)
    requires bit == (if 2 * l >= size then 1 else 0) && one <= 1 && 2 * h + bit == one * d + h' && h' < d
    ensures q' == 2 * q + one && 2 * l + (if carry then 1 else 0) >= bit * size
    ensures DivInv(size, 2 * pb, p2, n, d, 2 * l + (if carry then 1 else 0) - bit * size, h', one == 0, q', rest')
  {
    Halves(pb, p2);
    TopOfRest(pb, p2, rest, pb - 1 - q / 2);
    q', rest' := 2 * q + one, rest - bit * p2;
    RoundOfQuotient(q, d, h, p2, rest, bit, one, h');
    assert (rest - bit * p2) * (2 * pb) == 2 * (rest * pb) - bit * size by {
      Halves(rest, pb);
      Halves(p2, pb);
      if bit == 1 {
        assert (rest - p2) * (2 * pb) == rest * (2 * pb) - p2 * (2 * pb);
      }
    }
  }

  /** The rest of h and the bit moved in, less the divisor if that fits. */
  method Subtract(h0: u16, bit: bool, src: u16, w: Width) returns (h: u16, carry: bool, ghost one: nat)
    requires h0 < src < w.Size()
    ensures one <= 1 && h < src && carry == (one == 0)
    ensures 2 * h0 + (if bit then 1 else 0) == one * src + h
  {
    h := (2 * h0 + if bit then 1 else 0) % 0x1_0000;
    carry := TopBit(h0, w);
    TopBitIsSign(h0, w);
    SizeDigit(h0, w);
    if carry {
      carry := false;
      h := (h - src) % 0x1_0000;
    } else {
      carry := src > h;
      if !carry {
        h := (h - src) % 0x1_0000;
      }
    }
    one := if carry then 0 else 1;
  }

  /** One round of do_div. */
  method DivRound(l0: u16, h0: u16, carry0: bool, src: u16, w: Width)
    returns (l: u16, h: u16, carry: bool, ghost bit: nat, ghost one: nat)
    requires h0 < src < w.Size()
    ensures one <= 1 && h < src && carry == (one == 0) && bit == (if 2 * Low(l0, w) >= w.Size() then 1 else 0)
    ensures 2 * h0 + bit == one * src + h
    ensures Low(l, w) == 2 * Low(l0, w) + (if carry0 then 1 else 0) - bit * w.Size()
  {
    l := (2 * l0 + if carry0 then 1 else 0) % 0x1_0000;
    ShiftIn(l0, carry0, w);
    TopBitIsSign(l0, w);
    carry := TopBit(l0, w);
    bit := if carry then 1 else 0;
    h, carry, one := Subtract(h0, carry, src, w);
  }

  /** The shift and the inversion after the loop turn the inverted bits around. */
  method Uninvert(l0: u16, carry: bool, w: Width, ghost q: nat) returns (l: u16)
    requires Low(l0, w) == w.Size() - 1 - q / 2 && q < w.Size() && carry == (q % 2 == 0)
    ensures Low(l, w) == q
  {
    ShiftIn(l0, carry, w);
    TopBitIsSign(l0, w);
    l := (2 * l0 + if carry then 1 else 0) % 0x1_0000;
    NegIsMinus(l, w);
    l := Not(l);
  }

  /** The loop of do_div: l becomes the quotient and h the remainder. */
  method DivLoop(l0: u16, h0: u16, src: u16, w: Width) returns (l: u16, h: u16)
    requires l0 < w.Size() && h0 < src < w.Size()
    ensures h < src && h0 * w.Size() + l0 == Low(l, w) * src + h
  {
    l, h := l0, h0;
    var carry := true;
    ghost var size, n, pb, p, q, rest: nat := w.Size(), h0 * w.Size() + l0, 1, w.Size(), 0, l0;
    SizeIsPow2(w);
    SizeDigit(l, w);
    for b := 0 to w.Bits()
      invariant pb > 0 && p == Pow2(w.Bits() - b)
      invariant DivInv(size, pb, p, n, src, Low(l, w), h, carry, q, rest)
    {
      ghost var l1, h1, carry1, p2, bit, one := Low(l, w), h, carry, Pow2(w.Bits() - b - 1), 0, 0;
      l, h, carry, bit, one := DivRound(l, h, carry, src, w);
      q, rest := DivStep(size, pb, p2, n, src, l1, h1, carry1, q, rest, bit, one, h);
      pb, p := 2 * pb, p2;
    }
    l := Uninvert(l, carry, w, q);
  }

  // ----- signs and registers -------------------------------------------------

  /** A signed or unsigned number of the width. */
  function Value(x: u16, w: Width, signed: bool): int {
    if signed then Signed(x, w) else Low(x, w)
  }

  function Magnitude(x: int): nat {
    if x < 0 then -x else x
  }

  /** Truncated division: the remainder has the sign of the dividend. */
  predicate Truncated(n: int, d: int, q: int, r: int) {
    n == q * d + r && Magnitude(r) < Magnitude(d) && (r != 0 ==> (r < 0) == (n < 0))
  }

  lemma {:induction false} TruncatedIsUnique(n: int, d: int, q: int, r: int, q': int, r': int)
    requires Truncated(n, d, q, r) && Truncated(n, d, q', r')
    ensures q == q' && r == r'
  {
    SignsMultiply(q, d);
    SignsMultiply(q', d);
    var s := if d < 0 then -1 else 1;
    var t := if n < 0 then -1 else 1;
    DivIs(t * n, s * d, t * s * q, t * r);
    DivIs(t * n, s * d, t * s * q', t * r');
  }

  /** The quotient of n by d has room in its register; for IDIV the most negative
      number counts as too large. */
  predicate Succeeds(n: int, d: int, w: Width, signed: bool) {
    d != 0 && Magnitude(n) / Magnitude(d) < if signed then w.Size() / 2 else w.Size()
  }

  /** The comparison of the upper half with the divisor decides whether the
      quotient has room. */
  lemma {:induction false} QuotientHasRoom(h: nat, l: nat, d: nat, size: nat)
    requires l < size
    ensures h < d <==> d != 0 && (h * size + l) / d < size
  {
    if d != 0 {
      var n := h * size + l;
      var q := n / d;
      assert n == q * d + n % d;
      MulOrder(h, d, size);
      MulOrder(h + 1, d, size);
      MulOrder(q, size, d);
      MulOrder(q + 1, size, d);
      assert (h + 1) * size == h * size + size && (q + 1) * d == q * d + d && size * d == d * size;
    }
  }

  /** The sign handling of IDIV before the loop. */
  method DividendMagnitude(l0: u16, h0: u16, w: Width) returns (l: u16, h: u16, negative: bool)
    requires l0 < w.Size() && h0 < w.Size()
    ensures negative == (Joined(h0, l0, w, true) < 0)
    ensures l < w.Size() && h < w.Size() && h * w.Size() + l == Magnitude(Joined(h0, l0, w, true))
  {
    l, h, negative := l0, h0, false;
    TopBitIsSign(h, w);
    NegIsMinus(h, w);
    NegIsMinus(l, w);
    SizeDigit(h, w);
    SizeDigit(l, w);
    if TopBit(h, w) {
      h := Not(h);
      l := Low(Neg(l), w);
      if l == 0 {
        h := (h + 1) % 0x1_0000;
      }
      h := Low(h, w);
      negative := true;
    }
  }

  method DivisorMagnitude(src0: u16, w: Width) returns (src: u16, negative: bool)
    ensures negative == (Signed(src0, w) < 0)
    ensures src <= w.Size() / 2 && src == Magnitude(Signed(src0, w))
  {
    TopBitIsSign(src0, w);
    NegIsMinus(src0, w);
    src := src0;
    negative := TopBit(src0, w);
    if negative {
      src := Neg(src0);
    }
    src := Low(src, w);
  }

  /** The sign handling of IDIV after the loop. */
  method RestoreSigns(l0: u16, h0: u16, src: u16, w: Width, flip: bool, negative: bool, ghost n: int, ghost d: int)
    returns (l: u16, h: u16)
    requires Low(l0, w) < w.Size() / 2 && h0 < src <= w.Size() / 2 && src == Magnitude(d)
    requires Magnitude(n) == Low(l0, w) * src + h0 && negative == (n < 0) && flip == ((n < 0) != (d < 0))
    ensures Truncated(n, d, Signed(l, w), Signed(h, w))
  {
    l, h := l0, h0;
    NegIsMinus(l, w);
    NegIsMinus(h, w);
    SizeDigit(h, w);
    SignsMultiply(Low(l0, w), src);
    if flip {
      l := Neg(l);
    }
    if negative {
      h := Neg(h);
    }
  }

  /** do_div on values: it succeeds exactly when the quotient has room, and then
      leaves truncated quotient and remainder; either way src becomes the divisor's
      magnitude. */
  method Divide(l0: u16, h0: u16, src0: u16, w: Width, signed: bool) returns (ok: bool, l: u16, h: u16, src: u16)
    requires l0 < w.Size() && h0 < w.Size()
    ensures var n, d := Joined(h0, l0, w, signed), Value(src0, w, signed);
            && src == Magnitude(d)
            && (ok <==> Succeeds(n, d, w, signed))
            && (ok ==> Truncated(n, d, Value(l, w, signed), Value(h, w, signed)))
  {
    ghost var n, d := Joined(h0, l0, w, signed), Value(src0, w, signed);
    var flip, negative := false, false;
    src := Low(src0, w);
    l, h := l0, h0;
    if signed {
      l, h, negative := DividendMagnitude(l, h, w);
      src, flip := DivisorMagnitude(src0, w);
      flip := negative != flip;
    }
    QuotientHasRoom(h, l, src, w.Size());
    if h >= src {
      return false, l, h, src;
    }
    l, h := DivLoop(l, h, src, w);
    DivIs(Magnitude(n), src, Low(l, w), h);
    TopBitIsSign(l, w);
    if signed {
      if TopBit(l, w) {
        return false, l, h, src;
      }
      l, h := RestoreSigns(l, h, src, w, flip, negative, n, d);
    } else {
      SizeDigit(h, w);
    }
    ok := true;
  }

  predicate IsSigned(u: Unit)
    reads u`opcode, u`rmdat
  {
    u.opcode != AAM && u.rmdat / 8 % 8 == 7
  }

  /** The width do_div works with. */
  function DivWidth(u: Unit): Width
    reads u`opcode
  {
    if u.opcode % 2 == 1 then W16 else W8
  }

  /** The registers, upper and lower half: DX:AX for words and AH:AL for bytes. */
  function Pair(u: Unit): (u16, u16)
    reads u`opcode, u`ax, u`dx
  {
    if u.opcode % 2 == 1 then (u.dx, u.ax) else (u.ax / 0x100, u.ax % 0x100)
  }

  /** The results of a division where do_div leaves them: AAM has quotient and
      remainder the other way round. */
  predicate Stored(n: int, d: int, w: Width, signed: bool, swapped: bool, pair: (u16, u16)) {
    var (r, q) := if swapped then (pair.1, pair.0) else pair;
    Truncated(n, d, Value(q, w, signed), Value(r, w, signed))
  }

  /** The end of do_div. */
  method StoreResults(u: Unit, l: u16, h: u16, ghost n: int, ghost d: int)
    requires Truncated(n, d, Value(l, DivWidth(u), IsSigned(u)), Value(h, DivWidth(u), IsSigned(u)))
    modifies u`ax, u`dx
    ensures Stored(n, d, DivWidth(u), IsSigned(u), u.opcode == AAM, Pair(u))
    ensures u.opcode % 2 == 0 ==> u.dx == old(u.dx)
  {
    LowByte(l);
    LowByte(h);
    Bytes(h % 0x100, l % 0x100);
    Bytes(l % 0x100, h % 0x100);
    if u.opcode == AAM {
      u.ax := l % 0x100 * 0x100 + h % 0x100;
    } else {
      u.ax := h % 0x100 * 0x100 + l % 0x100;
      if u.opcode % 2 == 1 {
        u.dx := h;
        u.ax := l;
      }
    }
  }

  /** The numbers a division of the pair starts from and leaves. */
  lemma {:induction false} ByteNumbers(ax: u16, data: u16, signed: bool)
    ensures Joined(ax / 0x100, ax % 0x100, W8, signed) == if signed then SignedWord(ax) else ax
    ensures Value(data, W8, signed) == if signed then SignedByte(data % 0x100) else data % 0x100
    ensures Value(ax % 0x100, W8, signed) == if signed then SignedByte(ax % 0x100) else ax % 0x100
    ensures Value(ax / 0x100, W8, signed) == if signed then SignedByte(ax / 0x100) else ax / 0x100
  {
    SizeDigit(ax / 0x100, W8);
    SizeDigit(ax % 0x100, W8);
    assert ax == ax / 0x100 * 0x100 + ax % 0x100;
  }

  lemma {:induction false} WordNumbers(dx: u16, ax: u16, data: u16, signed: bool)
    ensures Joined(dx, ax, W16, signed) == (if signed then SignedWord(dx) else dx) * 0x1_0000 + ax
    ensures Value(data, W16, signed) == if signed then SignedWord(data) else data
    ensures Value(ax, W16, signed) == if signed then SignedWord(ax) else ax
    ensures Value(dx, W16, signed) == if signed then SignedWord(dx) else dx
  {
    SizeDigit(dx, W16);
    SizeDigit(ax, W16);
    SizeDigit(data, W16);
  }

  /** Truncated division of numbers that are not negative. */
  lemma {:induction false} UnsignedQuotient(n: nat, d: nat, q: nat, r: nat)
    requires Truncated(n, d, q, r)
    ensures d != 0 && q == n / d && r == n % d
  {
    DivIs(n, d, q, r);
  }

  /** What do_div says of bytes and words, in numbers. */
  lemma {:induction false} ByteResult(ax0: u16, data: u16, signed: bool, ok: bool, ax: u16)
    requires var n, d := Joined(ax0 / 0x100, ax0 % 0x100, W8, signed), Value(data, W8, signed);
             (ok <==> Succeeds(n, d, W8, signed)) && (ok ==> Stored(n, d, W8, signed, false, (ax / 0x100, ax % 0x100)))
    ensures !signed ==>
              var d := data % 0x100;
              (ok <==> d != 0 && ax0 / d < 0x100) && (ok ==> ax % 0x100 == ax0 / d && ax / 0x100 == ax0 % d)
    ensures signed ==>
              var n, d := SignedWord(ax0), SignedByte(data % 0x100);
              && (ok <==> d != 0 && Magnitude(n) / Magnitude(d) < 0x80)
              && (ok ==> Truncated(n, d, SignedByte(ax % 0x100), SignedByte(ax / 0x100)))
  {
    ByteNumbers(ax0, data, signed);
    ByteNumbers(ax, data, signed);
    if !signed && ok {
      UnsignedQuotient(ax0, data % 0x100, ax % 0x100, ax / 0x100);
    }
  }

  lemma {:induction false} WordResult(dx0: u16, ax0: u16, data: u16, signed: bool, ok: bool, dx: u16, ax: u16)
    requires var n, d := Joined(dx0, ax0, W16, signed), Value(data, W16, signed);
             (ok <==> Succeeds(n, d, W16, signed)) && (ok ==> Stored(n, d, W16, signed, false, (dx, ax)))
    ensures !signed ==>
              var n, d := dx0 * 0x1_0000 + ax0, data;
              (ok <==> d != 0 && n / d < 0x1_0000) && (ok ==> ax == n / d && dx == n % d)
    ensures signed ==>
              var n, d := SignedWord(dx0) * 0x1_0000 + ax0, SignedWord(data);
              && (ok <==> d != 0 && Magnitude(n) / Magnitude(d) < 0x8000)
              && (ok ==> Truncated(n, d, SignedWord(ax), SignedWord(dx)))
  {
    WordNumbers(dx0, ax0, data, signed);
    WordNumbers(dx, ax, data, signed);
    if !signed && ok {
      UnsignedQuotient(dx0 * 0x1_0000 + ax0, data, ax, dx);
    }
  }

  /** AAM has quotient and remainder the other way round. */
  lemma {:induction false} SwappedResult(l0: u16, h0: u16, data: u16, ok: bool, ax: u16)
    requires l0 < 0x100 && h0 < 0x100
    requires var n, d := Joined(h0, l0, W8, false), Value(data, W8, false);
             (ok <==> Succeeds(n, d, W8, false)) && (ok ==> Stored(n, d, W8, false, true, (ax / 0x100, ax % 0x100)))
    ensures var n, d := h0 * 0x100 + l0, data % 0x100;
            (ok <==> d != 0 && n / d < 0x100) && (ok ==> ax / 0x100 == n / d && ax % 0x100 == n % d)
  {
    ByteNumbers(ax, data, false);
    if ok {
      UnsignedQuotient(h0 * 0x100 + l0, data % 0x100, ax / 0x100, ax % 0x100);
    }
  }

  /** do_div with its registers.  The dividend is the register pair, for AAM its
      lower half alone.  A failed division raises INT 0 and leaves the registers;
      the divisor is replaced by its magnitude either way. */
  method DoDiv(u: Unit, l0: u16, h0: u16) returns (ok: bool)
    requires u.opcode % 2 == 0 ==> l0 < 0x100 && h0 < 0x100
    modifies u`ax, u`dx, u`divideErrors, u.core`cpuSrc
    ensures var w, signed := DivWidth(u), IsSigned(u);
            var (hi, lo) := if u.opcode % 2 == 1 then old(Pair(u)) else (h0, l0);
            var n, d := Joined(hi, lo, w, signed), Value(old(u.core.cpuSrc), w, signed);
            && u.core.cpuSrc == Magnitude(d)
            && (ok <==> Succeeds(n, d, w, signed))
            && (ok ==> Stored(n, d, w, signed, u.opcode == AAM, Pair(u)))
    ensures u.opcode == 0xd4 ==>
              var n, d := h0 * 0x100 + l0, old(u.core.cpuSrc) % 0x100;
              && (ok <==> d != 0 && n / d < 0x100)
              && (ok ==> u.ax / 0x100 == n / d && u.ax % 0x100 == n % d)
    ensures u.divideErrors == old(u.divideErrors) + if ok then 0 else 1
    ensures !ok ==> u.ax == old(u.ax)
    ensures !ok || u.opcode % 2 == 0 ==> u.dx == old(u.dx)
  {
    var l, h, src := l0, h0, u.core.cpuSrc;
    if u.opcode % 2 == 1 {
      l, h := u.ax, u.dx;
    }
    ghost var n, d := Joined(h, l, DivWidth(u), IsSigned(u)), Value(src, DivWidth(u), IsSigned(u));
    ok, l, h, src := Divide(l, h, src, DivWidth(u), IsSigned(u));
    u.core.cpuSrc := src;
    if !ok {
      if u.opcode == AAM {
        SwappedResult(l0, h0, old(u.core.cpuSrc), ok, u.ax);
      }
      u.divideErrors := u.divideErrors + 1;
      return;
    }
    StoreResults(u, l, h, n, d);
    if u.opcode == AAM {
      SwappedResult(l0, h0, old(u.core.cpuSrc), ok, u.ax);
    }
  }

  /** DIV and IDIV by the operand, by opcode and register field: 0xf6 divides AX and
      0xf7 DX:AX; field 6 divides unsigned, field 7 signed. */
  method DivideRegister(u: Unit) returns (ok: bool)
    requires u.opcode in {0xf6, 0xf7} && u.rmdat / 8 % 8 in {6, 7}
    modifies u`ax, u`dx, u`divideErrors, u.core`cpuSrc
    ensures u.opcode == 0xf6 && u.rmdat / 8 % 8 == 6 ==>
              var n, d := old(u.ax), u.core.cpuData % 0x100;
              && (ok <==> d != 0 && n / d < 0x100)
              && (ok ==> u.ax % 0x100 == n / d && u.ax / 0x100 == n % d)
    ensures u.opcode == 0xf7 && u.rmdat / 8 % 8 == 6 ==>
              var n, d := old(u.dx) * 0x1_0000 + old(u.ax), u.core.cpuData;
              && (ok <==> d != 0 && n / d < 0x1_0000)
              && (ok ==> u.ax == n / d && u.dx == n % d)
    ensures u.opcode == 0xf6 && u.rmdat / 8 % 8 == 7 ==>
              var n, d := SignedWord(old(u.ax)), SignedByte(u.core.cpuData % 0x100);
              && (ok <==> d != 0 && Magnitude(n) / Magnitude(d) < 0x80)
              && (ok ==> Truncated(n, d, SignedByte(u.ax % 0x100), SignedByte(u.ax / 0x100)))
    ensures u.opcode == 0xf7 && u.rmdat / 8 % 8 == 7 ==>
              var n, d := SignedWord(old(u.dx)) * 0x1_0000 + old(u.ax), SignedWord(u.core.cpuData);
              && (ok <==> d != 0 && Magnitude(n) / Magnitude(d) < 0x8000)
              && (ok ==> Truncated(n, d, SignedWord(u.ax), SignedWord(u.dx)))
    ensures u.divideErrors == old(u.divideErrors) + if ok then 0 else 1
    ensures !ok ==> u.ax == old(u.ax)
    ensures !ok || u.opcode == 0xf6 ==> u.dx == old(u.dx)
  {
    ok := DivideByField(u);
    if u.opcode == 0xf6 {
      ByteResult(old(u.ax), u.core.cpuData, u.rmdat / 8 % 8 == 7, ok, u.ax);
    } else {
      WordResult(old(u.dx), old(u.ax), u.core.cpuData, u.rmdat / 8 % 8 == 7, ok, u.dx, u.ax);
    }
  }

  method DivideByField(u: Unit) returns (ok: bool)
    requires u.opcode in {0xf6, 0xf7} && u.rmdat / 8 % 8 in {6, 7}
    modifies u`ax, u`dx, u`divideErrors, u.core`cpuSrc
    ensures var w, signed := DivWidth(u), IsSigned(u);
            var n, d := Joined(old(Pair(u)).0, old(Pair(u)).1, w, signed), Value(u.core.cpuData, w, signed);
            && (ok <==> Succeeds(n, d, w, signed))
            && (ok ==> Stored(n, d, w, signed, false, Pair(u)))
    ensures u.divideErrors == old(u.divideErrors) + if ok then 0 else 1
    ensures !ok ==> u.ax == old(u.ax)
    ensures !ok || u.opcode == 0xf6 ==> u.dx == old(u.dx)
  {
    u.core.cpuSrc := u.core.cpuData;
    ok := DoDiv(u, u.ax % 0x100, u.ax / 0x100);
  }

  /** AAM.  The flags are those of whatever the instruction before left in the data
      variable, not of the digits; a zero immediate raises INT 0. */
  method AsciiAdjustAfterMultiplication(u: Unit, imm: u16)
    requires u.opcode == 0xd4 && imm < 0x100
    modifies u`ax, u`dx, u`divideErrors, u.core`cpuSrc, u.core`flags
    ensures if imm == 0 then
              u.ax == old(u.ax) && u.divideErrors == old(u.divideErrors) + 1 && u.core.flags == old(u.core.flags)
            else
              && u.ax / 0x100 == old(u.ax) % 0x100 / imm && u.ax % 0x100 == old(u.ax) % 0x100 % imm
              && u.divideErrors == old(u.divideErrors)
              && u.core.flags.zf == (u.core.cpuData == 0) && u.core.flags.pf == EvenParity(u.core.cpuData)
    ensures u.dx == old(u.dx)
  {
    u.core.cpuSrc := imm;
    SizeDigit(imm, W8);
    var al := u.ax % 0x100;
    var ok := DoDiv(u, al, 0);
    if ok {
      SizeDigit(u.core.cpuData, W16);
      var (q, r) := Pair(u);
      Bytes(q, r);
      DivIs(al, imm, q, r);
      u.core.SetPzs(W16);
    }
  }
}
