/** Repeated string instructions with any number of prefixes.  An interrupt moves the
    program counter back by two bytes, whatever the prefixes: only the last of them
    is there when the instruction is taken up again. */
module RepPrefixes {
  import opened Alu
  import opened RepString
  import opened Words

  /** Prefix bytes: a repetition, a segment override with the base of the segment it
      names, and LOCK. */
  datatype Prefix = RepPrefix(repe: bool) | SegPrefix(base: Segment) | LockPrefix

  /** A string instruction without prefixes; source is the base of DS. */
  datatype Opcode = Opcode(kind: Kind, w: Width, source: Segment, dest: Segment)

  /** The last repetition prefix counts, and the last override. */
  function RepOf(ps: seq<Prefix>): Rep {
    if ps == [] then Once
    else
      var p := ps[|ps| - 1];
      if p.RepPrefix? then (if p.repe then Repe else Repne) else RepOf(ps[..|ps| - 1])
  }

  function SourceOf(ps: seq<Prefix>, ds: Segment): Segment {
    if ps == [] then ds
    else
      var p := ps[|ps| - 1];
      if p.SegPrefix? then p.base else SourceOf(ps[..|ps| - 1], ds)
  }

  function Decode(op: Opcode, ps: seq<Prefix>): Instr {
    Instr(op.kind, op.w, RepOf(ps), SourceOf(ps, op.source), op.dest)
  }

  /** Of several prefixes of a kind the last one counts. */
  lemma {:induction false} LastRepCounts(ps: seq<Prefix>, i: nat)
    requires i < |ps| && ps[i].RepPrefix? && forall k | i < k < |ps| :: !ps[k].RepPrefix?
    ensures RepOf(ps) == if ps[i].repe then Repe else Repne
    decreases |ps|
  {
    if i == |ps| - 1 {
    } else {
      LastRepCounts(ps[..|ps| - 1], i);
    }
  }

  lemma {:induction false} NoRepIsOnce(ps: seq<Prefix>)
    requires forall k | 0 <= k < |ps| :: !ps[k].RepPrefix?
    ensures RepOf(ps) == Once
  {
    if ps == [] {
    } else {
      NoRepIsOnce(ps[..|ps| - 1]);
    }
  }

  lemma {:induction false} LastOverrideCounts(ps: seq<Prefix>, i: nat, ds: Segment)
    requires i < |ps| && ps[i].SegPrefix? && forall k | i < k < |ps| :: !ps[k].SegPrefix?
    ensures SourceOf(ps, ds) == ps[i].base
    decreases |ps|
  {
    if i == |ps| - 1 {
    } else {
      LastOverrideCounts(ps[..|ps| - 1], i, ds);
    }
  }

  lemma {:induction false} NoOverrideIsDs(ps: seq<Prefix>, ds: Segment)
    requires forall k | 0 <= k < |ps| :: !ps[k].SegPrefix?
    ensures SourceOf(ps, ds) == ds
  {
    if ps == [] {
    } else {
      NoOverrideIsDs(ps[..|ps| - 1], ds);
    }
  }

  /** What is left of the prefixes after an interrupt. */
  function LastOf(ps: seq<Prefix>): seq<Prefix> {
    if ps == [] then [] else [ps[|ps| - 1]]
  }

  /** The instruction broken off by the interrupts, as long as it can be, and taken up
      again each time with the last prefix only. */
  function ResumedWith(op: Opcode, ps: seq<Prefix>, s: State, interrupts: seq<Interrupt>): State
    decreases |interrupts|
  {
    var ins := Decode(op, ps);
    if ins.rep.Once? || interrupts == [] then Finish(ins, s)
    else
      var (t, done) := Partial(ins, s, interrupts[0].after);
      if done then t else ResumedWith(op, LastOf(ps), t.(sbb := interrupts[0].LeavesSbb()), interrupts[1..])
  }

  predicate UsesSource(kind: Kind) {
    kind.Movs? || kind.Lods? || kind.Cmps?
  }

  /** Nothing an interrupt could lose: the last prefix is the repetition, and what the
      instruction reads comes from DS all the same. */
  predicate Robust(op: Opcode, ps: seq<Prefix>) {
    && ps != [] && ps[|ps| - 1].RepPrefix?
    && (UsesSource(op.kind) ==> SourceOf(ps, op.source) == op.source)
  }

  // ----- robust prefixes -----------------------------------------------------

  /** Instructions that differ in a segment they do not use. */
  predicate SameWork(ins: Instr, ins': Instr) {
    ins'.(source := ins.source) == ins && (UsesSource(ins.kind) ==> ins' == ins)
  }

  lemma {:induction false} SameIterate(ins: Instr, ins': Instr, s: State)
    requires SameWork(ins, ins')
    ensures Iterate(ins', s) == Iterate(ins, s)
  {
  }

  lemma {:induction false} SameFinish(ins: Instr, ins': Instr, s: State)
    requires SameWork(ins, ins')
    ensures Finish(ins', s) == Finish(ins, s)
    decreases s.cx
  {
    if ins.rep.Once? {
      SameIterate(ins, ins', s);
    } else if s.cx > 0 {
      SameIterate(ins, ins', s.(cx := s.cx - 1));
      IterateAlike(ins, s.(cx := s.cx - 1), s.(cx := s.cx - 1));
      SameFinish(ins, ins', Iterate(ins, s.(cx := s.cx - 1)));
    }
  }

  lemma {:induction false} SamePartial(ins: Instr, ins': Instr, s: State, n: nat)
    requires SameWork(ins, ins') && !ins.rep.Once?
    ensures Partial(ins', s, n) == Partial(ins, s, n)
    decreases n
  {
    if n == 0 {
    } else if s.cx > 0 {
      SameIterate(ins, ins', s.(cx := s.cx - 1));
      SamePartial(ins, ins', Iterate(ins, s.(cx := s.cx - 1)), n - 1);
    }
  }

  lemma {:induction false} SameResumed(ins: Instr, ins': Instr, s: State, interrupts: seq<Interrupt>)
    requires SameWork(ins, ins') && !ins.rep.Once?
    ensures Resumed(ins', s, interrupts) == Resumed(ins, s, interrupts)
    decreases |interrupts|
  {
    if interrupts == [] {
      SameFinish(ins, ins', s);
    } else {
      SamePartial(ins, ins', s, interrupts[0].after);
      var (t, done) := Partial(ins, s, interrupts[0].after);
      SameResumed(ins, ins', t.(sbb := interrupts[0].LeavesSbb()), interrupts[1..]);
    }
  }

  lemma {:induction false} RepAlone(p: Prefix, ds: Segment)
    ensures RepOf([p]) == (if p.RepPrefix? then if p.repe then Repe else Repne else Once)
    ensures SourceOf([p], ds) == if p.SegPrefix? then p.base else ds
  {
    assert [p][..0] == [];
  }

  /** Robust prefixes are as good as one. */
  lemma {:induction false} RobustIsWhole(op: Opcode, ps: seq<Prefix>, s: State, interrupts: seq<Interrupt>)
    requires Robust(op, ps)
    ensures !RepOf(ps).Once? && ResumedWith(op, ps, s, interrupts) == Resumed(Decode(op, ps), s, interrupts)
    decreases |interrupts|
  {
    if interrupts != [] {
      var ins, left := Decode(op, ps), LastOf(ps);
      var (t, done) := Partial(ins, s, interrupts[0].after);
      RepAlone(ps[|ps| - 1], op.source);
      assert SameWork(ins, Decode(op, left)) && Robust(op, left);
      RobustIsWhole(op, left, t.(sbb := interrupts[0].LeavesSbb()), interrupts[1..]);
      SameResumed(ins, Decode(op, left), t.(sbb := interrupts[0].LeavesSbb()), interrupts[1..]);
    }
  }

  lemma {:induction false} RobustIsDone(op: Opcode, ps: seq<Prefix>, s: State, interrupts: seq<Interrupt>)
    requires Robust(op, ps)
    ensures Done(Decode(op, ps), s, ResumedWith(op, ps, s, interrupts))
  {
    RobustIsWhole(op, ps, s, interrupts);
    InterruptedIsDone(Decode(op, ps), s, interrupts);
  }

  // ----- other prefixes ------------------------------------------------------

  /** A repetition that goes on counts down. */
  lemma {:induction false} FinishCounts(ins: Instr, s: State)
    requires !ins.rep.Once? && s.cx > 0
    ensures Finish(ins, s).cx < s.cx
    decreases s.cx
  {
    var u := s.(cx := s.cx - 1);
    IterateAlike(ins, u, u);
    var t := Iterate(ins, u);
    if !Ends(ins, t) && t.cx > 0 {
      FinishCounts(ins, t);
    }
  }

  /** An iteration moves an index. */
  lemma {:induction false} IterateMoves(ins: Instr, s: State)
    ensures Iterate(ins, s).si != s.si || Iterate(ins, s).di != s.di
  {
  }

  /** If the last prefix is another one, the repetition is lost: whenever an interrupt
      breaks the instruction off, the end is a different one. */
  lemma {:induction false} LostRepetition(op: Opcode, ps: seq<Prefix>, s: State, n: nat, left: nat)
    requires !RepOf(ps).Once? && !ps[|ps| - 1].RepPrefix? && !Partial(Decode(op, ps), s, n).1
    ensures !AlikeButCarry(ResumedWith(op, ps, s, [Interrupt(n, left)]), Finish(Decode(op, ps), s))
  {
    var ins, once := Decode(op, ps), Decode(op, LastOf(ps));
    var t := Partial(ins, s, n).0;
    var t' := t.(sbb := left == SBB);
    PartialFinishes(ins, s, n);
    RepAlone(ps[|ps| - 1], op.source);
    assert ResumedWith(op, ps, s, [Interrupt(n, left)]) == Finish(once, t') == Iterate(once, t') by {
      assert [Interrupt(n, left)][1..] == [];
    }
    IterateAlike(once, t', t');
    IterateMoves(once, t');
    if t.cx > 0 {
      FinishCounts(ins, t);
    }
  }

  /** One element to go, a byte of 1 at the start of segment base and zeros elsewhere,
      and an index of the destination that keeps clear of it. */
  function SourceWitness(base: Segment, dest: Segment): State {
    State(1, 0, if base == dest || base == dest + 1 then 2 else 0, 0,
        Flags(false, false, false, false, false, false, false),
          seq(0x11_0000, i => if i == base then 1 else 0), false)
  }

  lemma {:induction false} OneToGo(ins: Instr, s: State)
    requires s.cx == 1 && !ins.rep.Once?
    ensures Finish(ins, s) == Iterate(ins, s.(cx := 0))
  {
    IterateAlike(ins, s.(cx := 0), s.(cx := 0));
  }

  lemma {:induction false} WitnessLoads(base: Segment, dest: Segment, other: Segment, w: Width)
    requires other != base
    ensures var s := SourceWitness(base, dest);
            && Load(s.mem, base, s.si, w) % 0x100 == 1 && Load(s.mem, other, s.si, w) % 0x100 == 0
            && Load(s.mem, dest, s.di, w) == 0
  {
  }

  lemma {:induction false} ParityTells(d: u16, d': u16, w: Width, f: Flags, sbb: bool)
    requires d % 0x100 == 1 && d' % 0x100 == 0
    ensures Compared(d, 0, w, f, sbb).pf != Compared(d', 0, w, f, sbb).pf
  {
    assert Ones(1) == 1 + Ones(0) && Ones(0) == 0;
    assert (d - 0) % 0x1_0000 == d && (d' - 0) % 0x1_0000 == d';
  }

  /** An override that comes before the repetition is lost, which shows. */
  lemma {:induction false} LostSource(ins: Instr, other: Segment)
    requires UsesSource(ins.kind) && !ins.rep.Once? && ins.source != other
    ensures var s := SourceWitness(ins.source, ins.dest);
            !AlikeButCarry(Finish(ins.(source := other), s), Finish(ins, s))
  {
    var s := SourceWitness(ins.source, ins.dest);
    var ins' := ins.(source := other);
    OneToGo(ins, s);
    OneToGo(ins', s);
    WitnessLoads(ins.source, ins.dest, other, ins.w);
    if ins.kind.Cmps? {
      ParityTells(Load(s.mem, ins.source, s.si, ins.w), Load(s.mem, other, s.si, ins.w), ins.w, s.flags, s.sbb);
    } else if ins.kind.Movs? {
      StoredLow(s.mem, ins.dest, s.di, Load(s.mem, ins.source, s.si, ins.w), ins.w);
      StoredLow(s.mem, ins.dest, s.di, Load(s.mem, other, s.si, ins.w), ins.w);
    }
  }

  lemma {:induction false} StoredLow(m: Memory, base: Segment, offset: u16, v: u16, w: Width)
    ensures Store(m, base, offset, v, w)[base + offset] == v % 0x100
  {
  }

  /** Interrupts are invisible, with handlers that keep whether SBB was last, if and
      only if the last prefix is the repetition and no other one moves the source. */
  lemma {:induction false} RobustIff(op: Opcode, ps: seq<Prefix>)
    requires !RepOf(ps).Once?
    ensures (forall s: State, n: nat, left: nat :: (left == SBB) == s.sbb ==>
              ResumedWith(op, ps, s, [Interrupt(n, left)]) == Finish(Decode(op, ps), s)) <==> Robust(op, ps)
  {
    var ins := Decode(op, ps);
    if Robust(op, ps) {
      forall s: State, n: nat, left: nat | (left == SBB) == s.sbb
        ensures ResumedWith(op, ps, s, [Interrupt(n, left)]) == Finish(ins, s)
      {
        RobustIsWhole(op, ps, s, [Interrupt(n, left)]);
        CarrySurvives(ins, s, [Interrupt(n, left)]);
      }
    } else if !ps[|ps| - 1].RepPrefix? {
      var s := CarryWitness(false);
      LostRepetition(op, ps, s, 0, ADD);
      assert ResumedWith(op, ps, s, [Interrupt(0, ADD)]) != Finish(ins, s);
    } else {
      var s := SourceWitness(ins.source, ins.dest);
      RepAlone(ps[|ps| - 1], op.source);
      assert [Interrupt(0, ADD)][1..] == [] && s.(sbb := false) == s;
      assert Decode(op, LastOf(ps)) == ins.(source := op.source);
      LostSource(ins, op.source);
      assert ResumedWith(op, ps, s, [Interrupt(0, ADD)]) == Finish(ins.(source := op.source), s);
    }
  }

  /** One prefix is always robust. */
  lemma {:induction false} OneIsRobust(op: Opcode, p: Prefix)
    requires p.RepPrefix?
    ensures Robust(op, [p])
  {
    RepAlone(p, op.source);
  }

  /** The processor carries the instruction out so, and goes on behind it. */
  method Complete(cpu: Cpu, op: Opcode, ps: seq<Prefix>, interrupts: seq<Interrupt>)
    requires !RepOf(ps).Once?
    modifies cpu`cx, cpu`si, cpu`di, cpu`ax, cpu`pc, cpu`mem
    modifies cpu.core`cpuData, cpu.core`cpuDest, cpu.core`cpuSrc, cpu.core`cpuAluOp, cpu.core`flags
    ensures cpu.pc == old(cpu.pc) + |ps| + 1 && cpu.View() == ResumedWith(op, ps, old(cpu.View()), interrupts)
    ensures Robust(op, ps) ==> Done(Decode(op, ps), old(cpu.View()), cpu.View())
  {
    ghost var start := cpu.View();
    if Robust(op, ps) {
      RobustIsDone(op, ps, start, interrupts);
    }
    var here := ps;
    for i := 0 to |interrupts|
      invariant cpu.pc + |here| == old(cpu.pc) + |ps| && here != []
      invariant ResumedWith(op, ps, start, interrupts) == ResumedWith(op, here, cpu.View(), interrupts[i..])
    {
      assert interrupts[i..][0] == interrupts[i] && interrupts[i..][1..] == interrupts[i + 1..];
      var ins := Decode(op, here);
      if ins.rep.Once? {
        cpu.ExecuteOnce(ins, |here|);
        return;
      }
      var done := cpu.Execute(ins, |here|, true, interrupts[i].after);
      if done {
        return;
      }
      cpu.Handle(interrupts[i].aluOp);
      here := LastOf(here);
    }
    Rest(cpu, op, here);
  }

  /** The last go, without interrupts. */
  method Rest(cpu: Cpu, op: Opcode, ps: seq<Prefix>)
    requires ps != []
    modifies cpu`cx, cpu`si, cpu`di, cpu`ax, cpu`pc, cpu`mem
    modifies cpu.core`cpuData, cpu.core`cpuDest, cpu.core`cpuSrc, cpu.core`flags
    ensures cpu.pc == old(cpu.pc) + |ps| + 1 && cpu.View() == Finish(Decode(op, ps), old(cpu.View()))
  {
    var ins := Decode(op, ps);
    if ins.rep.Once? {
      cpu.ExecuteOnce(ins, |ps|);
    } else {
      var done := cpu.Execute(ins, |ps|, false, 0);
    }
  }
}
