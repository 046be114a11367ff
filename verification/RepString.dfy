/** The string instructions of the 8088 and their repetition, which an interrupt
    may break off before any iteration. */
module RepString {
  import opened Alu
  import opened Arith
  import opened Words

  /** Memory up to the last byte a segment and an offset can address. */
  type Memory = m: seq<byte> | |m| == 0x11_0000 witness seq(0x11_0000, i => 0)

  type Segment = x: int | 0 <= x <= 0xf_fff0

  datatype Kind = Movs | Lods | Stos | Cmps | Scas

  datatype Rep = Once | Repne | Repe

  /** An instruction with its prefix and the bases of its two segments. */
  datatype Instr = Instr(kind: Kind, w: Width, rep: Rep, source: Segment, dest: Segment)

  /** What a program sees of the processor, and whether the last ALU operation was
      SBB, which the carry of a comparison depends on. */
  datatype State = State(cx: u16, si: u16, di: u16, ax: u16, flags: Flags, mem: Memory, sbb: bool)

  // ----- one iteration -------------------------------------------------------

  function Load(m: Memory, base: Segment, offset: u16, w: Width): u16 {
    var lo: nat, hi: nat := m[base + offset], m[base + (offset + 1) % 0x1_0000];
    if w.W8? then lo else lo + 0x100 * hi
  }

  function Store(m: Memory, base: Segment, offset: u16, v: u16, w: Width): Memory {
    if w.W8? then m[base + offset := v % 0x100]
    else m[base + offset := v % 0x100][base + (offset + 1) % 0x1_0000 := v / 0x100]
  }

  /** An index register after one element: it wraps around in its segment. */
  function Advance(x: u16, w: Width, down: bool): u16 {
    var step := if w.W8? then 1 else 2;
    if down then (x - step) % 0x1_0000 else (x + step) % 0x1_0000
  }

  function Accumulator(ax: u16, w: Width): u16 {
    if w.W8? then ax % 0x100 else ax
  }

  function SetAccumulator(ax: u16, v: u16, w: Width): u16 {
    if w.W8? then ax / 0x100 * 0x100 + v % 0x100 else v
  }

  /** The flags of the difference of d and s. */
  function Difference(d: u16, s: u16, w: Width, df: bool): Flags {
    var z := (d - s) % 0x1_0000;
    Flags(
      Low(d, w) < Low(s, w), EvenParity(z), d % 16 < s % 16, Low(z, w) == 0, Signed(z, w) < 0,
      !Fits(Signed(d, w) - Signed(s, w), w), df)
  }

  /** The flags a comparison of d with s leaves: after SBB a carry outlasts a
      subtraction of zero. */
  function Compared(d: u16, s: u16, w: Width, f: Flags, sbb: bool): Flags {
    var g := Difference(d, s, w, f.df);
    if sbb && Low(s, w) == 0 && f.cf then g.(cf := true) else g
  }

  /** What a comparison subtracts from. */
  function LeftOperand(ins: Instr, s: State): u16 {
    if ins.kind.Cmps? then Load(s.mem, ins.source, s.si, ins.w) else Accumulator(s.ax, ins.w)
  }

  /** What one element does to registers and memory. */
  function Moved(ins: Instr, s: State): State {
    var w := ins.w;
    var si := Advance(s.si, w, s.flags.df);
    var di := Advance(s.di, w, s.flags.df);
    match ins.kind
    case Movs => s.(si := si, di := di, mem := Store(s.mem, ins.dest, s.di, Load(s.mem, ins.source, s.si, w), w))
    case Lods => s.(si := si, ax := SetAccumulator(s.ax, Load(s.mem, ins.source, s.si, w), w))
    case Stos => s.(di := di, mem := Store(s.mem, ins.dest, s.di, s.ax, w))
    case Cmps => s.(si := si, di := di)
    case Scas => s.(di := di)
  }

  /** One element moved, loaded, stored or compared. */
  function Iterate(ins: Instr, s: State): State {
    if !Compares(ins) then Moved(ins, s)
    else Moved(ins, s).(flags := Compared(LeftOperand(ins, s), Load(s.mem, ins.dest, s.di, ins.w), ins.w, s.flags,
        s.sbb))
  }

  predicate Compares(ins: Instr) {
    ins.kind.Cmps? || ins.kind.Scas?
  }

  /** Whether a repeated comparison ends with these flags. */
  predicate Ends(ins: Instr, s: State) {
    Compares(ins) && s.flags.zf == ins.rep.Repne?
  }

  // ----- whole instructions --------------------------------------------------

  /** The instruction carried out without interruption. */
  function Finish(ins: Instr, s: State): State
    decreases s.cx
  {
    if ins.rep.Once? then Iterate(ins, s)
    else if s.cx == 0 then s
    else
      var t := Iterate(ins, s.(cx := s.cx - 1));
      if Ends(ins, t) then t else Finish(ins, t)
  }

  /** The instruction up to an interrupt that is due after n iterations: where it
      stops, and whether it was done before. */
  function Partial(ins: Instr, s: State, n: nat): (State, bool)
    requires !ins.rep.Once?
    decreases n
  {
    if n == 0 then (s, false)
    else if s.cx == 0 then (s, true)
    else
      var t := Iterate(ins, s.(cx := s.cx - 1));
      if Ends(ins, t) then (t, true) else Partial(ins, t, n - 1)
  }

  /** An interrupt: after how many iterations it is due, and the ALU operation its
      handler leaves behind. */
  datatype Interrupt = Interrupt(after: nat, aluOp: nat) {
    predicate LeavesSbb() {
      aluOp == SBB
    }
  }

  /** The instruction broken off by each of the interrupts and taken up again after
      its handler, which preserves what a program sees. */
  function Resumed(ins: Instr, s: State, interrupts: seq<Interrupt>): State
    requires !ins.rep.Once?
    decreases |interrupts|
  {
    if interrupts == [] then Finish(ins, s)
    else
      var (t, done) := Partial(ins, s, interrupts[0].after);
      if done then t else Resumed(ins, t.(sbb := interrupts[0].LeavesSbb()), interrupts[1..])
  }

  // ----- what repeated instructions do ---------------------------------------

  /** How the elements of an instruction follow one another: bytes or words, down or up. */
  datatype Way = Way(w: Width, down: bool) {
    function Bytes(): nat { if w.W8? then 1 else 2 }
  }

  function WayOf(ins: Instr, s: State): Way {
    Way(ins.w, s.flags.df)
  }

  /** The offset of byte b of element i of those that begin at x. */
  function Offset(x: u16, i: int, b: int, way: Way): u16 {
    var far := if way.w.W8? then i else 2 * i;
    (if way.down then x + b - far else x + b + far) % 0x1_0000
  }

  /** Element i of those that begin at x in a segment. */
  function Element(m: Memory, base: Segment, x: u16, i: int, way: Way): int {
    var lo: int, hi: int := m[base + Offset(x, i, 0, way)], m[base + Offset(x, i, 1, way)];
    if way.w.W8? then lo else lo + 0x100 * hi
  }

  lemma {:induction false} NextOffset(x: u16, i: int, b: int, way: Way)
    ensures Offset(Offset(x, 1, 0, way), i, b, way) == Offset(x, i + 1, b, way)
  {
    var far := if way.w.W8? then i else 2 * i;
    var one := if way.w.W8? then 1 else 2;
    if way.down {
      Wrapped(x - one, b - far);
    } else {
      Wrapped(x + one, b + far);
    }
  }

  lemma {:induction false} Wrapped(x: int, y: int)
    ensures (x % 0x1_0000 + y) % 0x1_0000 == (x + y) % 0x1_0000
  {
  }

  lemma {:induction false} NextElement(m: Memory, base: Segment, x: u16, i: int, way: Way)
    ensures Element(m, base, Offset(x, 1, 0, way), i, way) == Element(m, base, x, i + 1, way)
  {
    NextOffset(x, i, 0, way);
    NextOffset(x, i, 1, way);
  }

  lemma {:induction false} LoadsElement(m: Memory, base: Segment, x: u16, way: Way)
    ensures Load(m, base, x, way.w) == Element(m, base, x, 0, way)
    ensures Advance(x, way.w, way.down) == Offset(x, 1, 0, way)
  {
  }

  // ----- comparing instructions ----------------------------------------------

  /** Are the operands of comparison i of those that begin in state s equal? */
  predicate Same(ins: Instr, s: State, i: int) {
    var left := if ins.kind.Cmps? then Element(s.mem, ins.source, s.si, i, WayOf(ins, s))
                else if ins.w.W8? then s.ax % 0x100 else s.ax;
    left == Element(s.mem, ins.dest, s.di, i, WayOf(ins, s))
  }

  /** REPE compares as long as elements are equal, REPNE as long as they are not, both
      cx times at most; the zero flag tells of the last pair. */
  predicate Searched(ins: Instr, s: State, t: State) {
    var n := if ins.rep.Once? then 1 else s.cx - t.cx;
    && n >= 0 && (ins.rep.Once? ==> t.cx == s.cx) && (n == 0 <==> !ins.rep.Once? && s.cx == 0)
    && (forall i | 0 <= i < n - 1 :: Same(ins, s, i) == ins.rep.Repe?)
    && (!ins.rep.Once? && t.cx > 0 ==> Same(ins, s, n - 1) == ins.rep.Repne?)
    && t.flags.zf == (if n == 0 then s.flags.zf else Same(ins, s, n - 1))
    && t.si == (if ins.kind.Cmps? then Offset(s.si, n, 0, WayOf(ins, s)) else s.si)
    && t.di == Offset(s.di, n, 0, WayOf(ins, s))
    && t.ax == s.ax && t.mem == s.mem && t.flags.df == s.flags.df
  }

  /** t follows s by one comparison. */
  predicate ComparedOne(ins: Instr, s: State, t: State) {
    && t.flags.zf == Same(ins, s, 0) && t.flags.df == s.flags.df && t.ax == s.ax && t.mem == s.mem
    && t.si == (if ins.kind.Cmps? then Offset(s.si, 1, 0, WayOf(ins, s)) else s.si)
    && t.di == Offset(s.di, 1, 0, WayOf(ins, s))
  }

  lemma {:induction false} ZeroDifference(d: u16, x: u16, w: Width, f: Flags, sbb: bool)
    requires d < w.Size() && x < w.Size()
    ensures Compared(d, x, w, f, sbb).zf <==> d == x
    ensures Compared(d, x, w, f, sbb).df == f.df
  {
    DiffLow(d, x, w);
    SizeOfSmall(d, w);
    SizeOfSmall(x, w);
  }

  lemma {:induction false} SizeOfSmall(x: nat, w: Width)
    requires x < w.Size()
    ensures Low(x, w) == x
  {
  }

  lemma {:induction false} ComparesOne(ins: Instr, s: State)
    requires Compares(ins)
    ensures ComparedOne(ins, s, Iterate(ins, s)) && Iterate(ins, s).cx == s.cx
  {
    LoadsElement(s.mem, ins.source, s.si, WayOf(ins, s));
    LoadsElement(s.mem, ins.dest, s.di, WayOf(ins, s));
    ZeroDifference(LeftOperand(ins, s), Load(s.mem, ins.dest, s.di, ins.w), ins.w, s.flags, s.sbb);
  }

  lemma {:induction false} SameFurther(ins: Instr, s: State, t: State, i: int)
    requires ComparedOne(ins, s, t)
    ensures Same(ins, t, i) == Same(ins, s, i + 1)
  {
    NextElement(s.mem, ins.source, s.si, i, WayOf(ins, s));
    NextElement(s.mem, ins.dest, s.di, i, WayOf(ins, s));
  }

  /** A search that goes on after its first comparison. */
  lemma {:induction false} SearchedFurther(ins: Instr, s: State, t: State, end: State)
    requires !ins.rep.Once? && s.cx > 0 && t.cx == s.cx - 1 && Searched(ins, t, end) && ComparedOne(ins, s, t)
    requires t.flags.zf == ins.rep.Repe?
    ensures Searched(ins, s, end)
  {
    var n := s.cx - end.cx;
    NextOffset(s.si, n - 1, 0, WayOf(ins, s));
    NextOffset(s.di, n - 1, 0, WayOf(ins, s));
    SameFurther(ins, s, t, n - 2);
    forall i | 0 <= i < n - 1 ensures Same(ins, s, i) == ins.rep.Repe? {
      SameFurther(ins, s, t, i - 1);
    }
  }

  lemma {:induction false} FirstComparison(ins: Instr, s: State) returns (t: State)
    requires Compares(ins) && !ins.rep.Once? && s.cx > 0
    ensures ComparedOne(ins, s, t) && t.cx == s.cx - 1
    ensures Finish(ins, s) == if t.flags.zf == ins.rep.Repne? then t else Finish(ins, t)
  {
    var u := s.(cx := s.cx - 1);
    t := Iterate(ins, u);
    ComparesOne(ins, u);
  }

  lemma {:induction false} SearchedOnce(ins: Instr, s: State, t: State)
    requires ComparedOne(ins, s, t)
    requires if ins.rep.Once? then t.cx == s.cx else s.cx > 0 && t.cx == s.cx - 1 && t.flags.zf == ins.rep.Repne?
    ensures Searched(ins, s, t)
  {
  }

  lemma {:induction false} SearchedNone(ins: Instr, s: State)
    requires !ins.rep.Once? && s.cx == 0
    ensures Finish(ins, s) == s && Searched(ins, s, s)
  {
  }

  lemma {:induction false} SearchedAlone(ins: Instr, s: State)
    requires Compares(ins) && ins.rep.Once?
    ensures Searched(ins, s, Finish(ins, s))
  {
    ComparesOne(ins, s);
    SearchedOnce(ins, s, Iterate(ins, s));
  }

  lemma {:induction false} FinishSearches(ins: Instr, s: State)
    requires Compares(ins)
    ensures Searched(ins, s, Finish(ins, s))
    decreases s.cx
  {
    if ins.rep.Once? {
      SearchedAlone(ins, s);
    } else if s.cx == 0 {
      SearchedNone(ins, s);
    } else {
      var t := FirstComparison(ins, s);
      if t.flags.zf == ins.rep.Repne? {
        SearchedOnce(ins, s, t);
      } else {
        FinishSearches(ins, t);
        SearchedFurther(ins, s, t, Finish(ins, t));
      }
    }
  }

  // ----- moving instructions -------------------------------------------------

  /** Address a is that of a byte of the first n elements from x on. */
  ghost predicate Hit(a: int, base: Segment, x: u16, way: Way, n: int) {
    exists i, b :: 0 <= i < n && 0 <= b < way.Bytes() && a == base + Offset(x, i, b, way)
  }

  /** Bytes that are not among those elements are as they were. */
  ghost predicate Kept(m: Memory, m': Memory, base: Segment, x: u16, way: Way, n: int) {
    forall a | 0 <= a < 0x11_0000 && !Hit(a, base, x, way, n) :: m'[a] == m[a]
  }

  /** How many elements a moving instruction takes. */
  function Count(ins: Instr, s: State): nat {
    if ins.rep.Once? then 1 else s.cx
  }

  /** n elements from x on have the value v, and no other byte changes. */
  ghost predicate FilledBytes(m: Memory, m': Memory, base: Segment, x: u16, way: Way, n: nat, v: u16) {
    && (forall i, b | 0 <= i < n && 0 <= b < way.Bytes() ::
          m'[base + Offset(x, i, b, way)] == if b == 0 then v % 0x100 else v / 0x100)
    && Kept(m, m', base, x, way, n)
  }

  /** STOS */
  ghost predicate Filled(ins: Instr, s: State, t: State) {
    && t == s.(cx := if ins.rep.Once? then s.cx else 0, mem := t.mem, sbb := t.sbb,
               di := Offset(s.di, Count(ins, s), 0, WayOf(ins, s)))
    && FilledBytes(s.mem, t.mem, ins.dest, s.di, WayOf(ins, s), Count(ins, s), s.ax)
  }

  /** LODS: the accumulator has the last of n elements; a byte leaves AH. */
  predicate Loaded(ins: Instr, s: State, t: State) {
    var n := Count(ins, s);
    && t == s.(cx := if ins.rep.Once? then s.cx else 0, si := Offset(s.si, n, 0, WayOf(ins, s)), ax := t.ax,
               sbb := t.sbb)
    && if n == 0 then t.ax == s.ax
       else
         var last := Element(s.mem, ins.source, s.si, n - 1, WayOf(ins, s));
         if ins.w.W16? then t.ax == last else t.ax % 0x100 == last && t.ax / 0x100 == s.ax / 0x100
  }

  /** From where to where: the bases and first offsets of a copy. */
  datatype Copy = Copy(source: Segment, si: u16, dest: Segment, di: u16, way: Way) {
    function Next(): Copy {
      this.(si := Offset(si, 1, 0, way), di := Offset(di, 1, 0, way))
    }

    function Room(): nat { if way.w.W8? then 0x1_0000 else 0x8000 }
  }

  /** Byte b of element i was copied: it holds what the byte of the source held, and
      that is what it holds in the end if an earlier element was copied there. */
  ghost predicate CopiedByte(m: Memory, m': Memory, c: Copy, i: int, b: int) {
    var to, from := c.dest + Offset(c.di, i, b, c.way), c.source + Offset(c.si, i, b, c.way);
    m'[to] == if Hit(from, c.dest, c.di, c.way, i) then m'[from] else m[from]
  }

  function CopyOf(ins: Instr, s: State): Copy {
    Copy(ins.source, s.si, ins.dest, s.di, WayOf(ins, s))
  }

  /** n elements are copied one after the other, as long as a segment has room for
      them. */
  ghost predicate CopiedBytes(m: Memory, m': Memory, c: Copy, n: nat) {
    && (n <= c.Room() ==> forall i, b | 0 <= i < n && 0 <= b < c.way.Bytes() :: CopiedByte(m, m', c, i, b))
    && Kept(m, m', c.dest, c.di, c.way, n)
  }

  /** MOVS; more words than there is room for are copied in parts (MovedInParts). */
  ghost predicate Copied(ins: Instr, s: State, t: State) {
    var n, way := Count(ins, s), WayOf(ins, s);
    && t == s.(cx := if ins.rep.Once? then s.cx else 0, si := Offset(s.si, n, 0, way), di := Offset(s.di, n, 0, way),
               mem := t.mem, sbb := t.sbb)
    && CopiedBytes(s.mem, t.mem, CopyOf(ins, s), n)
  }

  /** What an instruction, repeated or not, leaves. */
  ghost predicate Done(ins: Instr, s: State, t: State) {
    match ins.kind
    case Movs => Copied(ins, s, t)
    case Lods => Loaded(ins, s, t)
    case Stos => Filled(ins, s, t)
    case Cmps => Searched(ins, s, t)
    case Scas => Searched(ins, s, t)
  }

  /** The bytes of n + 1 elements are those of the first and of the n behind it. */
  lemma {:induction false} HitFurther(a: int, base: Segment, x: u16, way: Way, n: nat)
    ensures Hit(a, base, x, way, n + 1) <==>
            Hit(a, base, x, way, 1) || Hit(a, base, Offset(x, 1, 0, way), way, n)
  {
    var next := Offset(x, 1, 0, way);
    if Hit(a, base, x, way, n + 1) {
      var i, b :| 0 <= i < n + 1 && 0 <= b < way.Bytes() && a == base + Offset(x, i, b, way);
      NextOffset(x, i - 1, b, way);
      if i > 0 {
        assert a == base + Offset(next, i - 1, b, way);
      }
    }
    if Hit(a, base, next, way, n) {
      var i, b :| 0 <= i < n && 0 <= b < way.Bytes() && a == base + Offset(next, i, b, way);
      NextOffset(x, i, b, way);
      assert a == base + Offset(x, i + 1, b, way);
    }
  }

  lemma {:induction false} KeptFurther(m: Memory, m1: Memory, m': Memory, base: Segment, x: u16, way: Way, n: nat)
    requires Kept(m, m1, base, x, way, 1) && Kept(m1, m', base, Offset(x, 1, 0, way), way, n)
    ensures Kept(m, m', base, x, way, n + 1)
  {
    forall a | 0 <= a < 0x11_0000 && !Hit(a, base, x, way, n + 1) ensures m'[a] == m[a] {
      HitFurther(a, base, x, way, n);
    }
  }

  /** Reduction to a segment keeps parity. */
  lemma {:induction false} Even(x: int)
    ensures x % 0x1_0000 % 2 == x % 2
  {
    var q, r := x / 0x1_0000, x % 0x1_0000;
    assert x == q * 0x1_0000 + r && r == r / 2 * 2 + r % 2;
    DivIs(x, 2, q * 0x8000 + r / 2, r % 2);
  }

  lemma {:induction false} OffsetParity(x: u16, i: int, b: int, way: Way)
    requires way.w.W16?
    ensures Offset(x, i, b, way) % 2 == (x + b) % 2
  {
    var far := if way.down then -i else i;
    Even(x + b + 2 * far);
    DivIs(x + b + 2 * far, 2, (x + b) / 2 + far, (x + b) % 2);
  }

  /** The two bytes of words are never in the same place. */
  lemma {:induction false} OtherPlace(x: u16, i: int, b: int, c: int, way: Way)
    requires 0 <= b < way.Bytes() && 0 <= c < way.Bytes() && Offset(x, i, c, way) == Offset(x, 0, b, way)
    ensures b == c
  {
    if way.w.W16? {
      OffsetParity(x, i, c, way);
      OffsetParity(x, 0, b, way);
    }
  }

  /** A byte of the first element that a later one hits is hit by the same byte of that. */
  lemma {:induction false} HitAgain(base: Segment, x: u16, way: Way, n: nat, b: int) returns (i: int)
    requires 0 <= b < way.Bytes() && Hit(base + Offset(x, 0, b, way), base, Offset(x, 1, 0, way), way, n)
    ensures 0 <= i < n && Offset(Offset(x, 1, 0, way), i, b, way) == Offset(x, 0, b, way)
  {
    var c;
    i, c :| 0 <= i < n && 0 <= c < way.Bytes()
            && base + Offset(x, 0, b, way) == base + Offset(Offset(x, 1, 0, way), i, c, way);
    NextOffset(x, i, c, way);
    OtherPlace(x, i + 1, b, c, way);
  }

  lemma {:induction false} FilledFirst(m1: Memory, m': Memory, base: Segment, x: u16, way: Way, n: nat, v: u16, b: int)
    requires FilledBytes(m1, m', base, Offset(x, 1, 0, way), way, n, v) && 0 <= b < way.Bytes()
    requires m1[base + Offset(x, 0, b, way)] == if b == 0 then v % 0x100 else v / 0x100
    ensures m'[base + Offset(x, 0, b, way)] == if b == 0 then v % 0x100 else v / 0x100
  {
    if Hit(base + Offset(x, 0, b, way), base, Offset(x, 1, 0, way), way, n) {
      var i := HitAgain(base, x, way, n, b);
    }
  }

  lemma {:induction false} FilledFurther(m: Memory, m1: Memory, m': Memory, base: Segment, x: u16, way: Way, n: nat,
                                         v: u16)
    requires FilledBytes(m, m1, base, x, way, 1, v) && FilledBytes(m1, m', base, Offset(x, 1, 0, way), way, n, v)
    ensures FilledBytes(m, m', base, x, way, n + 1, v)
  {
    KeptFurther(m, m1, m', base, x, way, n);
    forall i, b | 0 <= i < n + 1 && 0 <= b < way.Bytes()
      ensures m'[base + Offset(x, i, b, way)] == if b == 0 then v % 0x100 else v / 0x100
    {
      if i == 0 {
        FilledFirst(m1, m', base, x, way, n, v, b);
      } else {
        NextOffset(x, i - 1, b, way);
      }
    }
  }

  /** t follows s by one element stored. */
  ghost predicate StoredOne(ins: Instr, s: State, t: State) {
    && t == s.(si := if ins.kind.Movs? then Offset(s.si, 1, 0, WayOf(ins, s)) else s.si,
               di := Offset(s.di, 1, 0, WayOf(ins, s)), mem := t.mem)
    && if ins.kind.Movs? then CopiedBytes(s.mem, t.mem, CopyOf(ins, s), 1)
       else FilledBytes(s.mem, t.mem, ins.dest, s.di, WayOf(ins, s), 1, s.ax)
  }

  lemma {:induction false} StoreElement(m: Memory, base: Segment, x: u16, v: u16, way: Way)
    ensures FilledBytes(m, Store(m, base, x, v, way.w), base, x, way, 1, v)
  {
    var m' := Store(m, base, x, v, way.w);
    assert Offset(x, 0, 0, way) == x && Offset(x, 0, 1, way) == (x + 1) % 0x1_0000;
    assert Hit(base + Offset(x, 0, 0, way), base, x, way, 1);
    if way.w.W16? {
      assert Hit(base + Offset(x, 0, 1, way), base, x, way, 1);
    }
  }

  lemma {:induction false} LoadedBytes(m: Memory, base: Segment, x: u16, way: Way, b: int)
    requires 0 <= b < way.Bytes()
    ensures var v := Load(m, base, x, way.w);
            m[base + Offset(x, 0, b, way)] == if b == 0 then v % 0x100 else v / 0x100
  {
    assert Offset(x, 0, 0, way) == x && Offset(x, 0, 1, way) == (x + 1) % 0x1_0000;
  }

  lemma {:induction false} FilledIsCopied(m: Memory, m': Memory, c: Copy, v: u16)
    requires FilledBytes(m, m', c.dest, c.di, c.way, 1, v)
    requires forall b | 0 <= b < c.way.Bytes() ::
               m[c.source + Offset(c.si, 0, b, c.way)] == if b == 0 then v % 0x100 else v / 0x100
    ensures CopiedBytes(m, m', c, 1)
  {
  }

  lemma {:induction false} CopyElement(m: Memory, c: Copy)
    ensures CopiedBytes(m, Store(m, c.dest, c.di, Load(m, c.source, c.si, c.way.w), c.way.w), c, 1)
  {
    var v := Load(m, c.source, c.si, c.way.w);
    StoreElement(m, c.dest, c.di, v, c.way);
    forall b | 0 <= b < c.way.Bytes()
      ensures m[c.source + Offset(c.si, 0, b, c.way)] == if b == 0 then v % 0x100 else v / 0x100
    {
      LoadedBytes(m, c.source, c.si, c.way, b);
    }
    FilledIsCopied(m, Store(m, c.dest, c.di, v, c.way.w), c, v);
  }

  lemma {:induction false} StoresOne(ins: Instr, s: State)
    requires ins.kind.Movs? || ins.kind.Stos?
    ensures StoredOne(ins, s, Iterate(ins, s))
  {
    LoadsElement(s.mem, ins.source, s.si, WayOf(ins, s));
    LoadsElement(s.mem, ins.dest, s.di, WayOf(ins, s));
    StoreElement(s.mem, ins.dest, s.di, s.ax, WayOf(ins, s));
    CopyElement(s.mem, CopyOf(ins, s));
  }

  lemma {:induction false} Apart(x: int, y: int)
    requires x != y && -0x1_0000 < x - y < 0x1_0000
    ensures x % 0x1_0000 != y % 0x1_0000
  {
  }

  /** Elements that a segment has room for do not meet. */
  lemma {:induction false} NoMeeting(a: int, c: Copy, n: nat)
    requires n < c.Room() && Hit(a, c.dest, c.di, c.way, 1)
    ensures !Hit(a, c.dest, c.Next().di, c.way, n)
  {
    var i0, b :| 0 <= i0 < 1 && 0 <= b < c.way.Bytes() && a == c.dest + Offset(c.di, i0, b, c.way);
    forall i, k | 0 <= i < n && 0 <= k < c.way.Bytes() ensures Offset(c.Next().di, i, k, c.way) != a - c.dest {
      NextOffset(c.di, i, k, c.way);
      var far := if c.way.w.W8? then i + 1 else 2 * (i + 1);
      Apart(c.di + b, if c.way.down then c.di + k - far else c.di + k + far);
    }
  }

  /** The first element stays as it was copied. */
  lemma {:induction false} FirstStays(a: int, m1: Memory, m': Memory, c: Copy, n: nat)
    requires Kept(m1, m', c.dest, c.Next().di, c.way, n) && n < c.Room()
    requires 0 <= a < 0x11_0000 && Hit(a, c.dest, c.di, c.way, 1)
    ensures m'[a] == m1[a]
  {
    NoMeeting(a, c, n);
  }

  lemma {:induction false} CopiedFirst(m: Memory, m1: Memory, m': Memory, c: Copy, n: nat, b: int)
    requires CopiedBytes(m, m1, c, 1) && Kept(m1, m', c.dest, c.Next().di, c.way, n) && n < c.Room()
    requires 0 <= b < c.way.Bytes()
    ensures CopiedByte(m, m', c, 0, b)
  {
    assert CopiedByte(m, m1, c, 0, b);
    var to := c.dest + Offset(c.di, 0, b, c.way);
    assert Hit(to, c.dest, c.di, c.way, 1);
    FirstStays(to, m1, m', c, n);
  }

  lemma {:induction false} CopiedLater(m: Memory, m1: Memory, m': Memory, c: Copy, n: nat, i: nat, b: int)
    requires CopiedBytes(m, m1, c, 1) && Kept(m1, m', c.dest, c.Next().di, c.way, n) && i < n < c.Room()
    requires 0 <= b < c.way.Bytes() && CopiedByte(m1, m', c.Next(), i, b)
    ensures CopiedByte(m, m', c, i + 1, b)
  {
    NextOffset(c.di, i, b, c.way);
    NextOffset(c.si, i, b, c.way);
    var from := c.source + Offset(c.si, i + 1, b, c.way);
    HitFurther(from, c.dest, c.di, c.way, i);
    if Hit(from, c.dest, c.di, c.way, 1) {
      FirstStays(from, m1, m', c, n);
    }
  }

  lemma {:induction false} CopiedFurther(m: Memory, m1: Memory, m': Memory, c: Copy, n: nat)
    requires CopiedBytes(m, m1, c, 1) && CopiedBytes(m1, m', c.Next(), n)
    ensures CopiedBytes(m, m', c, n + 1)
  {
    KeptFurther(m, m1, m', c.dest, c.di, c.way, n);
    if n < c.Room() {
      forall i, b | 0 <= i < n + 1 && 0 <= b < c.way.Bytes() ensures CopiedByte(m, m', c, i, b) {
        if i == 0 {
          CopiedFirst(m, m1, m', c, n, b);
        } else {
          assert CopiedByte(m1, m', c.Next(), i - 1, b);
          CopiedLater(m, m1, m', c, n, i - 1, b);
        }
      }
    }
  }

  /** One element, and the others behind it. */
  lemma {:induction false} FirstStore(ins: Instr, s: State) returns (t: State)
    requires (ins.kind.Movs? || ins.kind.Stos?) && !ins.rep.Once? && s.cx > 0
    ensures StoredOne(ins, s, t.(cx := s.cx)) && t.cx == s.cx - 1 && Finish(ins, s) == Finish(ins, t)
  {
    var u := s.(cx := s.cx - 1);
    t := Iterate(ins, u);
    StoresOne(ins, u);
  }

  lemma {:induction false} StoredFurther(ins: Instr, s: State, t: State, end: State)
    requires !ins.rep.Once? && s.cx > 0 && t.cx == s.cx - 1 && StoredOne(ins, s, t.(cx := s.cx))
    requires if ins.kind.Movs? then Copied(ins, t, end) else Filled(ins, t, end)
    ensures if ins.kind.Movs? then Copied(ins, s, end) else Filled(ins, s, end)
  {
    var n, way := s.cx - 1, WayOf(ins, s);
    NextOffset(s.si, n, 0, way);
    NextOffset(s.di, n, 0, way);
    if ins.kind.Movs? {
      CopiedFurther(s.mem, t.mem, end.mem, CopyOf(ins, s), n);
    } else {
      FilledFurther(s.mem, t.mem, end.mem, ins.dest, s.di, way, n, s.ax);
    }
  }

  lemma {:induction false} StoredNone(ins: Instr, s: State)
    requires (ins.kind.Movs? || ins.kind.Stos?) && !ins.rep.Once? && s.cx == 0
    ensures Finish(ins, s) == s && if ins.kind.Movs? then Copied(ins, s, s) else Filled(ins, s, s)
  {
  }

  lemma {:induction false} FinishStores(ins: Instr, s: State)
    requires ins.kind.Movs? || ins.kind.Stos?
    ensures if ins.kind.Movs? then Copied(ins, s, Finish(ins, s)) else Filled(ins, s, Finish(ins, s))
    decreases s.cx
  {
    if ins.rep.Once? {
      StoresOne(ins, s);
    } else if s.cx == 0 {
      StoredNone(ins, s);
    } else {
      var t := FirstStore(ins, s);
      FinishStores(ins, t);
      StoredFurther(ins, s, t, Finish(ins, t));
    }
  }

  lemma {:induction false} LoadsOne(ins: Instr, s: State)
    requires ins.kind.Lods?
    ensures Loaded(ins.(rep := Once), s, Iterate(ins, s))
  {
    LoadsElement(s.mem, ins.source, s.si, WayOf(ins, s));
  }

  lemma {:induction false} FirstLoad(ins: Instr, s: State) returns (t: State)
    requires ins.kind.Lods? && !ins.rep.Once? && s.cx > 0
    ensures Loaded(ins.(rep := Once), s, t.(cx := s.cx)) && t.cx == s.cx - 1 && Finish(ins, s) == Finish(ins, t)
  {
    var u := s.(cx := s.cx - 1);
    t := Iterate(ins, u);
    LoadsOne(ins, u);
  }

  lemma {:induction false} LoadedFurther(ins: Instr, s: State, t: State, end: State)
    requires ins.kind.Lods? && !ins.rep.Once? && s.cx > 0 && t.cx == s.cx - 1
    requires Loaded(ins.(rep := Once), s, t.(cx := s.cx)) && Loaded(ins, t, end)
    ensures Loaded(ins, s, end)
  {
    NextOffset(s.si, s.cx - 1, 0, WayOf(ins, s));
    NextElement(s.mem, ins.source, s.si, s.cx - 2, WayOf(ins, s));
  }

  lemma {:induction false} LoadedNone(ins: Instr, s: State)
    requires ins.kind.Lods? && !ins.rep.Once? && s.cx == 0
    ensures Loaded(ins, s, Finish(ins, s))
  {
  }

  lemma {:induction false} FinishLoads(ins: Instr, s: State)
    requires ins.kind.Lods?
    ensures Loaded(ins, s, Finish(ins, s))
    decreases s.cx
  {
    if ins.rep.Once? {
      LoadsOne(ins, s);
    } else if s.cx == 0 {
      LoadedNone(ins, s);
    } else {
      var t := FirstLoad(ins, s);
      FinishLoads(ins, t);
      LoadedFurther(ins, s, t, Finish(ins, t));
    }
  }

  lemma {:induction false} CountIsNoMatter(ins: Instr, s: State, cx: u16)
    ensures Iterate(ins, s.(cx := cx)) == Iterate(ins, s).(cx := cx)
  {
  }

  /** The first element is the same however many follow. */
  lemma {:induction false} FirstOfMany(ins: Instr, s: State, k: nat)
    requires !ins.rep.Once? && 0 < k <= s.cx
    ensures var t := Iterate(ins, s.(cx := s.cx - 1));
            !Ends(ins, t) ==> Finish(ins, s.(cx := k)) == Finish(ins, t.(cx := k - 1))
  {
    var u := s.(cx := s.cx - 1);
    CountIsNoMatter(ins, u, k - 1);
    assert u.(cx := k - 1) == s.(cx := k).(cx := k - 1);
  }

  lemma {:induction false} FirstMove(ins: Instr, s: State, k: nat) returns (t: State)
    requires !Compares(ins) && !ins.rep.Once? && 0 < k <= s.cx
    ensures t.cx == s.cx - 1 && Finish(ins, s) == Finish(ins, t)
    ensures Finish(ins, s.(cx := k)) == Finish(ins, t.(cx := k - 1))
  {
    t := Iterate(ins, s.(cx := s.cx - 1));
    FirstOfMany(ins, s, k);
  }

  lemma {:induction false} OneFurther(ins: Instr, s: State, t: State, first: nat, part: State)
    requires 0 < first <= s.cx && t.cx == s.cx - 1 && Finish(ins, s) == Finish(ins, t)
    requires Finish(ins, s.(cx := first)) == Finish(ins, t.(cx := first - 1)) == part
    requires Finish(ins, t) == Finish(ins, part.(cx := t.cx - (first - 1)))
    ensures part == Finish(ins, s.(cx := first)) && Finish(ins, s) == Finish(ins, part.(cx := s.cx - first))
  {
  }

  /** Moving elements in two parts is moving them all. */
  lemma {:induction false} MovedInParts(ins: Instr, s: State, first: nat) returns (part: State)
    requires !Compares(ins) && !ins.rep.Once? && first <= s.cx
    ensures part == Finish(ins, s.(cx := first)) && Finish(ins, s) == Finish(ins, part.(cx := s.cx - first))
    decreases first
  {
    if first == 0 {
      part := s.(cx := 0);
      NothingMoved(ins, s);
    } else {
      var t := FirstMove(ins, s, first);
      part := MovedInParts(ins, t, first - 1);
      OneFurther(ins, s, t, first, part);
    }
  }

  lemma {:induction false} NothingMoved(ins: Instr, s: State)
    requires !ins.rep.Once?
    ensures Finish(ins, s.(cx := 0)) == s.(cx := 0) && s.(cx := 0).(cx := s.cx) == s
  {
  }

  lemma {:induction false} FinishIsDone(ins: Instr, s: State)
    ensures Done(ins, s, Finish(ins, s))
  {
    match ins.kind
    case Movs => FinishStores(ins, s);
    case Lods => FinishLoads(ins, s);
    case Stos => FinishStores(ins, s);
    case Cmps => FinishSearches(ins, s);
    case Scas => FinishSearches(ins, s);
  }

  // ----- interrupts are invisible --------------------------------------------

  /** Equal in all that a program sees, but perhaps the carry flag. */
  predicate AlikeButCarry(s: State, t: State) {
    s.(flags := s.flags.(cf := false), sbb := false) == t.(flags := t.flags.(cf := false), sbb := false)
  }

  lemma {:induction false} MovedAlike(ins: Instr, s: State, c: bool, b: bool)
    ensures Moved(ins, s.(flags := s.flags.(cf := c), sbb := b)) == Moved(ins, s).(flags := s.flags.(cf := c), sbb := b)
    ensures Moved(ins, s).flags == s.flags && Moved(ins, s).sbb == s.sbb && Moved(ins, s).cx == s.cx
  {
  }

  lemma {:induction false} ComparedAlike(d: u16, x: u16, w: Width, f: Flags, g: Flags, sbb: bool, sbb': bool)
    requires f.df == g.df
    ensures Compared(d, x, w, f, sbb).(cf := false) == Compared(d, x, w, g, sbb').(cf := false)
  {
  }

  lemma {:induction false} AlikeWithFlags(s: State, t: State, f: Flags, g: Flags)
    requires AlikeButCarry(s, t) && f.(cf := false) == g.(cf := false)
    ensures AlikeButCarry(s.(flags := f), t.(flags := g))
  {
  }

  lemma {:induction false} OperandsAlike(ins: Instr, s: State, t: State)
    requires AlikeButCarry(s, t)
    ensures LeftOperand(ins, s) == LeftOperand(ins, t)
    ensures Load(s.mem, ins.dest, s.di, ins.w) == Load(t.mem, ins.dest, t.di, ins.w)
    ensures t == s.(flags := s.flags.(cf := t.flags.cf), sbb := t.sbb)
  {
  }

  lemma {:induction false} IterateAlike(ins: Instr, s: State, t: State)
    requires AlikeButCarry(s, t)
    ensures AlikeButCarry(Iterate(ins, s), Iterate(ins, t)) && Iterate(ins, s).cx == s.cx
  {
    OperandsAlike(ins, s, t);
    MovedAlike(ins, s, t.flags.cf, t.sbb);
    if Compares(ins) {
      var d, x := LeftOperand(ins, s), Load(s.mem, ins.dest, s.di, ins.w);
      ComparedAlike(d, x, ins.w, s.flags, t.flags, s.sbb, t.sbb);
      AlikeWithFlags(Moved(ins, s), Moved(ins, t),
                     Compared(d, x, ins.w, s.flags, s.sbb), Compared(d, x, ins.w, t.flags, t.sbb));
    }
  }

  lemma {:induction false} FinishAlike(ins: Instr, s: State, t: State)
    requires AlikeButCarry(s, t)
    ensures AlikeButCarry(Finish(ins, s), Finish(ins, t))
    decreases s.cx
  {
    if ins.rep.Once? {
      IterateAlike(ins, s, t);
    } else if s.cx > 0 {
      var s', t' := Iterate(ins, s.(cx := s.cx - 1)), Iterate(ins, t.(cx := t.cx - 1));
      IterateAlike(ins, s.(cx := s.cx - 1), t.(cx := t.cx - 1));
      if !Ends(ins, s') {
        FinishAlike(ins, s', t');
      }
    }
  }

  /** Breaking off and taking up again at once changes nothing. */
  lemma {:induction false} PartialFinishes(ins: Instr, s: State, n: nat)
    requires !ins.rep.Once?
    ensures var (t, done) := Partial(ins, s, n);
            Finish(ins, s) == (if done then t else Finish(ins, t)) && t.sbb == s.sbb
    decreases n
  {
    if n == 0 {
    } else if s.cx > 0 {
      var t := Iterate(ins, s.(cx := s.cx - 1));
      if !Ends(ins, t) {
        PartialFinishes(ins, t, n - 1);
      }
    }
  }

  /** What matters of an end does not depend on its carry flag. */
  lemma {:induction false} DoneAlike(ins: Instr, s: State, t: State, t': State)
    requires Done(ins, s, t) && AlikeButCarry(t, t') && (!Compares(ins) ==> t'.flags == t.flags)
    ensures Done(ins, s, t')
  {
  }

  lemma {:induction false} PartialOne(ins: Instr, s: State, n: nat)
    requires !ins.rep.Once? && n > 0 && s.cx > 0
    ensures var t := Iterate(ins, s.(cx := s.cx - 1));
            Partial(ins, s, n) == (if Ends(ins, t) then (t, true) else Partial(ins, t, n - 1)) && t.cx == s.cx - 1
  {
    IterateAlike(ins, s.(cx := s.cx - 1), s.(cx := s.cx - 1));
  }

  /** The first of n elements. */
  lemma {:induction false} FirstPart(ins: Instr, s: State, n: nat) returns (t: State, stop: bool)
    requires !ins.rep.Once? && n > 0 && s.cx > 0
    ensures t.cx == s.cx - 1 && Partial(ins, s, n) == if stop then (t, true) else Partial(ins, t, n - 1)
    ensures n <= s.cx && !stop ==> Finish(ins, s.(cx := n)) == Finish(ins, t.(cx := n - 1))
  {
    t := Iterate(ins, s.(cx := s.cx - 1));
    stop := Ends(ins, t);
    PartialOne(ins, s, n);
    if n <= s.cx {
      FirstOfMany(ins, s, n);
    }
  }

  /** An instruction broken off after n elements has done what it does with a count
      of n. */
  lemma {:induction false} PartialIsPart(ins: Instr, s: State, n: nat)
    requires !ins.rep.Once?
    ensures var (t, done) := Partial(ins, s, n);
            !done ==> n <= s.cx && t.cx == s.cx - n && t.(cx := 0) == Finish(ins, s.(cx := n))
    decreases n
  {
    if n == 0 {
      NothingMoved(ins, s);
    } else if s.cx > 0 {
      var t, stop := FirstPart(ins, s, n);
      if !stop {
        PartialIsPart(ins, t, n - 1);
      }
    }
  }

  /** Moving instructions leave the flags. */
  lemma {:induction false} FinishKeepsFlags(ins: Instr, s: State)
    requires !Compares(ins)
    ensures Finish(ins, s).flags == s.flags
    decreases s.cx
  {
    if ins.rep.Once? {
      MovedAlike(ins, s, s.flags.cf, s.sbb);
    } else if s.cx > 0 {
      MovedAlike(ins, s.(cx := s.cx - 1), s.flags.cf, s.sbb);
      FinishKeepsFlags(ins, Iterate(ins, s.(cx := s.cx - 1)));
    }
  }

  /** Whatever the interrupts, an interrupted instruction ends like an uninterrupted
      one, but for the carry flag of a comparison. */
  lemma {:induction false} InterruptsAreInvisible(ins: Instr, s: State, interrupts: seq<Interrupt>)
    requires !ins.rep.Once?
    ensures AlikeButCarry(Resumed(ins, s, interrupts), Finish(ins, s))
    ensures !Compares(ins) ==> Resumed(ins, s, interrupts).flags == Finish(ins, s).flags
    decreases |interrupts|
  {
    if interrupts == [] {
    } else {
      var (t, done) := Partial(ins, s, interrupts[0].after);
      var t' := t.(sbb := interrupts[0].LeavesSbb());
      PartialFinishes(ins, s, interrupts[0].after);
      if !done {
        InterruptsAreInvisible(ins, t', interrupts[1..]);
        FinishAlike(ins, t', t);
        if !Compares(ins) {
          FinishKeepsFlags(ins, t);
          FinishKeepsFlags(ins, t');
        }
      }
    }
  }

  /** So interrupts do not matter for what is done. */
  lemma {:induction false} InterruptedIsDone(ins: Instr, s: State, interrupts: seq<Interrupt>)
    requires !ins.rep.Once?
    ensures Done(ins, s, Resumed(ins, s, interrupts))
    ensures AlikeButCarry(Resumed(ins, s, interrupts), Finish(ins, s))
    ensures !Compares(ins) ==> Resumed(ins, s, interrupts).flags == Finish(ins, s).flags
  {
    InterruptsAreInvisible(ins, s, interrupts);
    FinishIsDone(ins, s);
    DoneAlike(ins, s, Finish(ins, s), Resumed(ins, s, interrupts));
  }

  /** With handlers that keep whether SBB was last, the carry flag too. */
  lemma {:induction false} CarrySurvives(ins: Instr, s: State, interrupts: seq<Interrupt>)
    requires !ins.rep.Once?
    requires forall i :: 0 <= i < |interrupts| ==> interrupts[i].LeavesSbb() == s.sbb
    ensures Resumed(ins, s, interrupts) == Finish(ins, s)
    decreases |interrupts|
  {
    if interrupts == [] {
    } else {
      var (t, done) := Partial(ins, s, interrupts[0].after);
      PartialFinishes(ins, s, interrupts[0].after);
      if !done {
        assert t.(sbb := interrupts[0].LeavesSbb()) == t;
        CarrySurvives(ins, t, interrupts[1..]);
      }
    }
  }

  /** One repetition of SCASB over a zero byte, with a zero accumulator and carry. */
  function CarryWitness(sbb: bool): State {
    State(1, 0, 0, 0, Flags(true, false, false, false, false, false, false), seq(0x11_0000, i => 0), sbb)
  }

  const SCASB := Instr(Scas, W8, Repe, 0, 0)

  lemma {:induction false} WitnessCarry(sbb: bool, left: nat)
    ensures Resumed(SCASB, CarryWitness(sbb), [Interrupt(0, left)]).flags.cf == (left == SBB)
    ensures Finish(SCASB, CarryWitness(sbb)).flags.cf == sbb
  {
    WitnessFinish(sbb);
    WitnessFinish(left == SBB);
    assert CarryWitness(sbb).(sbb := left == SBB) == CarryWitness(left == SBB);
    assert [Interrupt(0, left)][1..] == [];
    assert Resumed(SCASB, CarryWitness(left == SBB), []) == Finish(SCASB, CarryWitness(left == SBB));
  }

  lemma {:induction false} WitnessFinish(sbb: bool)
    ensures Finish(SCASB, CarryWitness(sbb)).flags.cf == sbb
  {
    var s := CarryWitness(sbb).(cx := 0);
    var t := Iterate(SCASB, s);
    assert t.flags.cf == sbb;
    assert t.cx == 0;
    assert Finish(SCASB, t) == t;
  }

  /** Interrupts are invisible to every instruction in every state exactly when
      the handler keeps whether SBB was the last ALU operation. */
  lemma {:induction false} InvisibleIff(sbb: bool, left: nat)
    ensures (forall ins: Instr, s: State, n: nat :: !ins.rep.Once? && s.sbb == sbb ==>
              Resumed(ins, s, [Interrupt(n, left)]).(sbb := sbb) == Finish(ins, s)) <==> (left == SBB) == sbb
  {
    if (left == SBB) == sbb {
      forall ins: Instr, s: State, n: nat | !ins.rep.Once? && s.sbb == sbb
        ensures Resumed(ins, s, [Interrupt(n, left)]).(sbb := sbb) == Finish(ins, s)
      {
        CarrySurvives(ins, s, [Interrupt(n, left)]);
        FinishKeepsSbb(ins, s);
      }
    } else {
      WitnessCarry(sbb, left);
      assert Resumed(SCASB, CarryWitness(sbb), [Interrupt(0, left)]).(sbb := sbb) != Finish(SCASB, CarryWitness(sbb));
    }
  }

  lemma {:induction false} FinishKeepsSbb(ins: Instr, s: State)
    ensures Finish(ins, s).sbb == s.sbb
    decreases s.cx
  {
    if ins.rep.Once? || s.cx == 0 {
    } else {
      FinishKeepsSbb(ins, Iterate(ins, s.(cx := s.cx - 1)));
    }
  }

  // ----- the processor -------------------------------------------------------

  class Cpu {
    const core: Core
    var cx: u16
    var si: u16
    var di: u16
    var ax: u16
    var pc: nat
    var mem: Memory

    constructor (core: Core, mem: Memory)
      ensures this.core == core && this.mem == mem
    {
      this.core, this.mem := core, mem;
    }

    function View(): State
      reads this, core
    {
      State(cx, si, di, ax, core.flags, mem, core.cpuAluOp == SBB)
    }

    /** do_lods */
    method DoLods(w: Width, base: Segment)
      modifies this`si, core`cpuData
      ensures core.cpuData == Load(mem, base, old(si), w) && si == Advance(old(si), w, core.flags.df)
    {
      if w.W16? {
        var lo: nat, hi: nat := mem[base + si], mem[base + (si + 1) % 0x1_0000];
        core.cpuData := lo + 0x100 * hi;
        si := if core.flags.df then (si - 2) % 0x1_0000 else (si + 2) % 0x1_0000;
      } else {
        core.cpuData := mem[base + si];
        si := if core.flags.df then (si - 1) % 0x1_0000 else (si + 1) % 0x1_0000;
      }
    }

    /** do_stos */
    method DoStos(w: Width, base: Segment)
      modifies this`di, this`mem
      ensures mem == Store(old(mem), base, old(di), core.cpuData, w) && di == Advance(old(di), w, core.flags.df)
    {
      mem := mem[base + di := core.cpuData % 0x100];
      if w.W16? {
        mem := mem[base + (di + 1) % 0x1_0000 := core.cpuData / 0x100];
        di := if core.flags.df then (di - 2) % 0x1_0000 else (di + 2) % 0x1_0000;
      } else {
        di := if core.flags.df then (di - 1) % 0x1_0000 else (di + 1) % 0x1_0000;
      }
    }

    /** The body of MOVS, LODS and STOS. */
    method Move(ins: Instr)
      requires !Compares(ins)
      modifies this`si, this`di, this`ax, this`mem, core`cpuData
      ensures View() == Iterate(ins, old(View()))
    {
      if ins.kind.Stos? {
        core.cpuData := ax;
        DoStos(ins.w, ins.dest);
      } else {
        DoLods(ins.w, ins.source);
        if ins.kind.Movs? {
          DoStos(ins.w, ins.dest);
        } else if ins.w.W16? {
          ax := core.cpuData;
        } else {
          ax := ax / 0x100 * 0x100 + core.cpuData % 0x100;
        }
      }
    }

    /** The operands of CMPS and SCAS. */
    method Operands(ins: Instr)
      requires Compares(ins)
      modifies this`si, this`di, core`cpuData, core`cpuDest, core`cpuSrc
      ensures View() == Moved(ins, old(View()))
      ensures core.cpuDest == LeftOperand(ins, old(View())) && core.cpuSrc == Load(mem, ins.dest, old(di), ins.w)
    {
      core.cpuDest := if ins.w.W16? then ax else ax % 0x100;
      if ins.kind.Cmps? {
        DoLods(ins.w, ins.source);
        core.cpuDest := core.cpuData;
      }
      core.cpuData := Load(mem, ins.dest, di, ins.w);
      di := Advance(di, ins.w, core.flags.df);
      core.cpuSrc := core.cpuData;
    }

    /** do_sub leaves the flags of a comparison. */
    method Subtract(w: Width)
      modifies core`cpuData, core`flags
      ensures core.flags == Compared(core.cpuDest, core.cpuSrc, w, old(core.flags), core.cpuAluOp == SBB)
    {
      core.DoSub(w);
    }

    /** The body of CMPS and SCAS. */
    method Compare(ins: Instr)
      requires Compares(ins)
      modifies this`si, this`di, core`cpuData, core`cpuDest, core`cpuSrc, core`flags
      ensures View() == Iterate(ins, old(View()))
    {
      Operands(ins);
      Subtract(ins.w);
    }

    method Body(ins: Instr)
      modifies this`si, this`di, this`ax, this`mem, core`cpuData, core`cpuDest, core`cpuSrc, core`flags
      ensures View() == Iterate(ins, old(View()))
    {
      if Compares(ins) {
        Compare(ins);
      } else {
        Move(ins);
      }
    }

    /** rep_action: whether the instruction stops before the next iteration. */
    method RepAction(pending: bool) returns (stop: bool)
      modifies this`cx, this`pc
      ensures stop <==> pending || old(cx) == 0
      ensures cx == (if stop then old(cx) else old(cx) - 1) && pc == old(pc) - (if pending then 2 else 0)
      requires pc >= 2
    {
      var t := cx;
      if pending {
        pc := pc - 2;
        t := 0;
      }
      if t == 0 {
        return true;
      }
      cx := cx - 1;
      return false;
    }

    /** One round of a repeated instruction, with an interrupt due in n rounds. */
    method Round(ins: Instr, pending: bool, ghost n: nat) returns (stop: bool)
      requires !ins.rep.Once? && pc >= 2 && (pending <==> n == 0)
      modifies this`cx, this`si, this`di, this`ax, this`pc, this`mem, core`cpuData, core`cpuDest, core`cpuSrc,
               core`flags
      ensures pc == old(pc) - (if pending then 2 else 0) && (pending ==> stop)
      ensures !pending ==> Finish(ins, old(View())) == if stop then View() else Finish(ins, View())
      ensures Partial(ins, old(View()), n) == if stop then (View(), !pending) else Partial(ins, View(), n - 1)
      ensures !stop ==> cx < old(cx)
    {
      stop := RepAction(pending);
      if stop {
        return;
      }
      ghost var s := View();
      Body(ins);
      IterateAlike(ins, s, s);
      stop := Compares(ins) && core.flags.zf == ins.rep.Repne?;
    }

    /** The rounds of one go. */
    method Repeat(ins: Instr, prefixes: nat, interrupted: bool, after: nat) returns (done: bool)
      requires !ins.rep.Once? && prefixes > 0
      modifies this`cx, this`si, this`di, this`ax, this`pc, this`mem, core`cpuData, core`cpuDest, core`cpuSrc,
               core`flags
      ensures if interrupted then (View(), done) == Partial(ins, old(View()), after)
              else done && View() == Finish(ins, old(View()))
      ensures pc == old(pc) + prefixes + if done then 1 else -1
    {
      pc := pc + prefixes + 1;
      ghost var start := View();
      var left := after;
      var stop, pending := false, false;
      while !stop
        invariant pc == old(pc) + prefixes + (if pending then -1 else 1) && (pending ==> stop && interrupted)
        invariant interrupted ==> Partial(ins, start, after) == if stop then (View(), !pending)
                  else Partial(ins, View(), left)
        invariant !interrupted ==> Finish(ins, start) == if stop then View() else Finish(ins, View())
        decreases !stop, cx
      {
        pending := interrupted && left == 0;
        stop := Round(ins, pending, if interrupted then left else 1);
        left := if left > 0 then left - 1 else 0;
      }
      done := !pending;
    }

    /** One go at a repeated instruction, prefixes and opcode included; done tells
        whether it finished or an interrupt broke it off. */
    method Execute(ins: Instr, prefixes: nat, interrupted: bool, after: nat) returns (done: bool)
      requires !ins.rep.Once? && prefixes > 0
      modifies this`cx, this`si, this`di, this`ax, this`pc, this`mem, core`cpuData, core`cpuDest, core`cpuSrc,
               core`flags
      ensures if interrupted then (View(), done) == Partial(ins, old(View()), after)
              else done && View() == Finish(ins, old(View())) && Done(ins, old(View()), View())
      ensures pc == old(pc) + prefixes + if done then 1 else -1
    {
      FinishIsDone(ins, View());
      done := Repeat(ins, prefixes, interrupted, after);
    }

    /** An instruction that is not repeated. */
    method ExecuteOnce(ins: Instr, prefixes: nat)
      requires ins.rep.Once?
      modifies this`si, this`di, this`ax, this`pc, this`mem, core`cpuData, core`cpuDest, core`cpuSrc, core`flags
      ensures View() == Finish(ins, old(View())) && pc == old(pc) + prefixes + 1
      ensures Done(ins, old(View()), View())
    {
      FinishIsDone(ins, View());
      pc := pc + prefixes + 1;
      Body(ins);
    }

    /** A handler that preserves what a program sees. */
    method Handle(aluOp: nat)
      modifies core`cpuData, core`cpuDest, core`cpuSrc, core`cpuAluOp
      ensures View() == old(View()).(sbb := aluOp == SBB)
    {
      core.cpuData := *;
      core.cpuDest := *;
      core.cpuSrc := *;
      core.cpuAluOp := aluOp;
    }

    /** A repeated instruction with one prefix, broken off by each of the interrupts while it is not
        done and taken up again from its prefix: it ends behind the instruction in
        the state of the uninterrupted one. */
    method Complete(ins: Instr, interrupts: seq<Interrupt>)
      requires !ins.rep.Once?
      modifies this`cx, this`si, this`di, this`ax, this`pc, this`mem,
               core`cpuData, core`cpuDest, core`cpuSrc, core`cpuAluOp, core`flags
      ensures pc == old(pc) + 2 && View() == Resumed(ins, old(View()), interrupts)
      ensures Done(ins, old(View()), View())
      ensures AlikeButCarry(View(), Finish(ins, old(View())))
      ensures !Compares(ins) ==> View().flags == old(View()).flags
      ensures (forall i :: 0 <= i < |interrupts| ==> interrupts[i].LeavesSbb() == old(View()).sbb) ==>
                View() == Finish(ins, old(View()))
    {
      ghost var start := View();
      InterruptedIsDone(ins, start, interrupts);
      if !Compares(ins) {
        FinishKeepsFlags(ins, start);
      }
      if forall i :: 0 <= i < |interrupts| ==> interrupts[i].LeavesSbb() == start.sbb {
        CarrySurvives(ins, start, interrupts);
      }
      for i := 0 to |interrupts|
        invariant pc == old(pc) && Resumed(ins, start, interrupts) == Resumed(ins, View(), interrupts[i..])
      {
        assert interrupts[i..][0] == interrupts[i] && interrupts[i..][1..] == interrupts[i + 1..];
        var done := Execute(ins, 1, true, interrupts[i].after);
        if done {
          return;
        }
        Handle(interrupts[i].aluOp);
      }
      var done := Execute(ins, 1, false, 0);
    }
  }
}
