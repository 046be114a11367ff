/** The prefetch queue of the 8088 (four bytes) and the 8086 (six bytes, fetched
    in pairs where it can). */
module Prefetch {
  import opened Arith
  import opened Words

  /** The code segment; offsets wrap around in it. */
  type Code = s: seq<byte> | |s| == 0x1_0000 witness seq(0x1_0000, i => 0)

  function At(code: Code, ip: nat): byte {
    code[ip % 0x1_0000]
  }

  function Ahead(code: Code, pc: u32, k: nat): byte {
    At(code, pc + k)
  }

  function Next(pc: u32): u32 {
    (pc + 1) % 0x1_0000_0000
  }

  /** What a program can do with the queue, the cycle counts being arbitrary. */
  datatype Op =
    | Wait(cycles: int, bus: bool)
    | FetchByte
    | FetchWord
    | Jump(to: u32)
    | Refresh(fast: bool)
    | EndInstruction
    | Interrupted(cycles: int, to: u32)

  /** The bytes and words an operation takes from the code at pc, and the pc after
      it: no queue and no cycles. */
  function Taken(code: Code, pc: u32, op: Op): (seq<nat>, u32) {
    match op
    case FetchByte => ([At(code, pc)], Next(pc))
    case FetchWord => ([At(code, pc) + 0x100 * At(code, Next(pc))], Next(Next(pc)))
    case Jump(to) => ([], to)
    case EndInstruction => ([], pc % 0x1_0000)
    case Interrupted(_, to) => ([], to)
    case _ => ([], pc)
  }

  function AllTaken(code: Code, pc: u32, ops: seq<Op>): (seq<nat>, u32) {
    if ops == [] then ([], pc) else
    var (before, at) := AllTaken(code, pc, ops[..|ops| - 1]);
    var (last, after) := Taken(code, at, ops[|ops| - 1]);
    (before + last, after)
  }

  /** Stepping pc past one byte leaves the addresses of the bytes behind it. */
  lemma {:induction false} NextAddress(pc: u32, k: nat)
    ensures (Next(pc) + k) % 0x1_0000 == (pc + k + 1) % 0x1_0000
  {
    if pc + 1 == 0x1_0000_0000 {
      assert pc + k + 1 == k + 0x1_0000 * 0x1_0000;
    }
  }

  /** The remainder of a division by 7 that truncates. */
  function Remainder7(x: int): int {
    if x < 0 then -(-x % 7) else x % 7
  }

  lemma {:induction false} NextBytes(code: Code, pc: u32)
    ensures forall k: nat :: Ahead(code, Next(pc), k) == Ahead(code, pc, k + 1)
  {
    forall k: nat
      ensures Ahead(code, Next(pc), k) == Ahead(code, pc, k + 1)
    {
      NextAddress(pc, k);
    }
  }

  lemma {:induction false} StepAddress(ip: u16, pc: u32, pos: nat, n: nat)
    requires ip == (pc + pos) % 0x1_0000
    ensures (ip + n) % 0x1_0000 == (pc + (pos + n)) % 0x1_0000
  {
  }

  class Queue {
    const is8086: bool
    const size: nat
    const code: Code
    const pfq: array<byte>
    var pos: nat
    var ip: u16
    var pc: u32
    var fetchCycles: int
    var cycles: int

    /** The queue holds the bytes from base on and ip is the address behind them. */
    ghost predicate Holds(base: u32)
      reads this, pfq
    {
      && Shape() && ip == (base + pos) % 0x1_0000
      && forall k :: 0 <= k < pos ==> pfq[k] == Ahead(code, base, k)
    }

    /** The queue holds the bytes the processor is about to fetch. */
    ghost predicate Valid()
      reads this, pfq
    {
      Holds(pc)
    }

    ghost predicate Shape()
      reads this
    {
      && pfq.Length == 6 && size == (if is8086 then 6 else 4) && pos <= size
    }

    constructor (is8086: bool, code: Code, pc: u32)
      ensures Valid() && fresh(pfq) && this.is8086 == is8086 && this.code == code && this.pc == pc
      ensures pos == 0 && fetchCycles == 0
    {
      this.is8086, this.code, this.pc := is8086, code, pc;
      size := if is8086 then 6 else 4;
      pfq := new byte[6](i => 0);
      pos, ip, fetchCycles, cycles := 0, pc % 0x1_0000, 0, 0;
    }

    /** pfq_write */
    method Write(ghost base: u32)
      requires Holds(base)
      modifies pfq, this`pos, this`ip
      ensures Holds(base) && pos <= if is8086 then 6 else 4
      ensures pos == old(pos) + if old(pos) == (if is8086 then 6 else 4) then 0
                else if is8086 && old(ip) % 2 == 0 && old(pos) % 2 == 0 then 2 else 1
    {
      if pos < size {
        StepAddress(ip, base, pos, 1);
        if is8086 && ip % 2 == 0 && pos % 2 == 0 {
          StepAddress(ip, base, pos, 2);
          pfq[pos], pfq[pos + 1] := code[ip], code[(ip + 1) % 0x1_0000];
          pos := pos + 2;
          ip := (ip + 2) % 0x1_0000;
        } else {
          pfq[pos] := code[ip];
          ip := (ip + 1) % 0x1_0000;
          pos := pos + 1;
        }
      }
    }

    /** pfq_read */
    method Read(ghost base: u32) returns (temp: byte)
      requires Holds(base) && pos > 0
      modifies pfq, this`pos, this`pc
      ensures Holds(Next(base)) && pos == old(pos) - 1 && pc == Next(old(pc)) && temp == At(code, base)
    {
      ghost var was := pfq[..];
      temp := pfq[0];
      for i := 0 to size - 1
        modifies pfq
        invariant forall k :: 0 <= k < i ==> pfq[k] == was[k + 1]
        invariant forall k :: i <= k < size ==> pfq[k] == was[k]
      {
        pfq[i] := pfq[i + 1];
      }
      NextAddress(base, pos - 1);
      NextBytes(code, base);
      pos := pos - 1;
      pc := Next(pc);
    }

    /** Whether pfq_add of c cycles fetches anything into an empty queue. */
    predicate Fetches(c: int)
      reads this`fetchCycles
    {
      c >= 0 && c + fetchCycles % 4 > 3
    }

    /** pfq_add */
    method Add(c: int, ghost base: u32)
      requires Holds(base)
      modifies pfq, this`pos, this`ip, this`fetchCycles
      ensures Holds(base) && (if old(pos) < size && old(Fetches(c)) then old(pos) < pos else pos == old(pos))
      ensures old(Fetches(c)) <==> c >= 0 && c + old(fetchCycles) % 4 > 3
      ensures fetchCycles == if c < 0 || old(pos) == size then old(fetchCycles)
                             else if old(fetchCycles) + c > 16 then 16 else old(fetchCycles) + c
    {
      if c < 0 {
        return;
      }
      if pos >= size {
        return;
      }
      var d := c + fetchCycles % 4;
      while d > 3 && pos < size
        invariant Holds(base) && old(pos) <= pos && (d == c + old(fetchCycles) % 4 || old(pos) < pos)
        invariant !old(Fetches(c)) ==> d <= 3 && pos == old(pos)
        invariant fetchCycles == old(fetchCycles)
      {
        d := d - 4;
        Write(base);
      }
      fetchCycles := fetchCycles + c;
      if fetchCycles > 16 {
        fetchCycles := 16;
      }
    }

    /** cpu_wait */
    method WaitFor(c: int, bus: bool, ghost base: u32)
      requires Holds(base)
      modifies pfq, this`pos, this`ip, this`fetchCycles, this`cycles
      ensures Holds(base) && (if old(pos) < size && !bus && old(Fetches(c)) then old(pos) < pos else pos == old(pos))
      ensures cycles == old(cycles) - c && (bus ==> fetchCycles == old(fetchCycles))
    {
      cycles := cycles - c;
      if !bus {
        Add(c, base);
      }
    }

    /** pfq_fetchb: an empty queue starts over at pc, whatever it was filled for. */
    method FetchFrom(ghost base: u32) returns (temp: byte)
      requires Holds(base)
      modifies pfq, this`pos, this`ip, this`pc, this`fetchCycles, this`cycles
      ensures var from := if old(pos) == 0 then old(pc) else base;
              Holds(Next(from)) && temp == At(code, from)
      ensures pc == Next(old(pc))
      ensures cycles == old(cycles) - 1 - if old(pos) == 0 then 4 - old(fetchCycles) % 4 else 0
    {
      ghost var from := base;
      if pos == 0 {
        WaitFor(4 - fetchCycles % 4, true, base);
        fetchCycles := 4;
        ip := pc % 0x1_0000;
        from := pc;
        Write(from);
      } else {
        fetchCycles := fetchCycles - 4;
      }
      temp := Read(from);
      WaitFor(1, false, Next(from));
    }

    method FetchB() returns (temp: byte)
      requires Valid()
      modifies pfq, this`pos, this`ip, this`pc, this`fetchCycles, this`cycles
      ensures Valid() && temp == code[old(pc) % 0x1_0000] && pc == (old(pc) + 1) % 0x1_0000_0000
    {
      temp := FetchFrom(pc);
    }

    /** pfq_fetchw */
    method FetchW() returns (word: u16)
      requires Valid()
      modifies pfq, this`pos, this`ip, this`pc, this`fetchCycles, this`cycles
      ensures Valid() && word % 0x100 == code[old(pc) % 0x1_0000] && word / 0x100 == code[(old(pc) + 1) % 0x1_0000]
      ensures word == At(code, old(pc)) + 0x100 * At(code, Next(old(pc)))
      ensures pc == Next(Next(old(pc)))
    {
      NextAddress(pc, 0);
      var lo: nat := FetchB();
      var hi: nat := FetchB();
      word := lo + 0x100 * hi;
      BytesOfWord(lo, hi);
    }

    /** pfq_clear makes the queue right whatever it held. */
    method Clear()
      requires Shape()
      modifies this`pos, this`ip
      ensures Valid() && pos == 0
    {
      ip := pc % 0x1_0000;
      pos := 0;
    }

    /** Does refreshread find cycles left over and room in the queue? */
    predicate Refreshes()
      reads this`fetchCycles, this`pos
    {
      fetchCycles % 4 != 0 && pos < size
    }

    /** refreshread */
    method RefreshRead(fast: bool)
      requires Valid()
      modifies pfq, this`pos, this`ip, this`fetchCycles, this`cycles
      ensures Valid() && (if old(Refreshes()) then old(pos) < pos else pos == old(pos))
      ensures old(Refreshes()) <==> old(fetchCycles) % 4 != 0 && old(pos) < if is8086 then 6 else 4
      ensures fetchCycles == old(fetchCycles) + if old(Refreshes()) then 4 - old(fetchCycles) % 4 else 0
      ensures var x := old(fetchCycles);       // the remainder truncates
              cycles == old(cycles) - (if fast then 8 else 0)
                - if old(Refreshes()) then 8 - (if x < 0 then -(-x % 7) else x % 7) else 0
    {
      if fast {
        WaitFor(8, true, pc);
      }
      if fetchCycles % 4 == 0 {
        return;
      }
      if pos >= size {
        return;
      }
      WaitFor(8 - Remainder7(fetchCycles), true, pc);
      Write(pc);
      fetchCycles := fetchCycles + (4 - fetchCycles % 4);
    }

    /** A jump: every change of CS or IP ends with pfq_clear. */
    method JumpTo(to: u32)
      requires Shape()
      modifies this`pos, this`ip, this`pc
      ensures Valid() && pc == to
    {
      pc := to;
      Clear();
    }

    /** The end of an instruction wraps pc; the queue does not notice. */
    method WrapPc()
      requires Valid()
      modifies this`pc
      ensures Valid() && pc == old(pc) % 0x1_0000
    {
      WrappedAddress(pc, pos);
      forall k: nat
        ensures Ahead(code, pc % 0x1_0000, k) == Ahead(code, pc, k)
      {
        WrappedAddress(pc, k);
      }
      pc := pc % 0x1_0000;
    }

    /** An interrupted repetition: rep_action clears the queue before it moves pc
        back, so that the queue is filled for the old pc. */
    method BackOff()
      requires Shape()
      modifies this`pos, this`ip, this`pc
      ensures Holds(old(pc)) && pos == 0 && pc == (old(pc) - 2) % 0x1_0000_0000
    {
      Clear();
      pc := (pc - 2) % 0x1_0000_0000;
    }

    /** After it, the next byte fetched is the one at the new pc exactly when the
        cycles in between were too few for a prefetch. */
    method FetchAfterBackOff(c: int) returns (temp: byte)
      requires Shape()
      modifies pfq, this`pos, this`ip, this`pc, this`fetchCycles, this`cycles
      ensures temp == code[(if c >= 0
              && c + old(fetchCycles) % 4 > 3 then old(pc) else (old(pc) - 2) % 0x1_0000_0000) % 0x1_0000]
      ensures pc == Next((old(pc) - 2) % 0x1_0000_0000)
    {
      ghost var base := pc;
      BackOff();
      WaitFor(c, false, base);
      temp := FetchFrom(base);
    }

    /** One operation. */
    method Perform(op: Op) returns (taken: seq<nat>)
      requires Valid()
      modifies pfq, this`pos, this`ip, this`pc, this`fetchCycles, this`cycles
      ensures Valid() && (taken, pc) == Taken(code, old(pc), op)
    {
      taken := [];
      match op
      case Wait(c, bus) => WaitFor(c, bus, pc);
      case FetchByte =>
        var b := FetchB();
        taken := [b];
      case FetchWord =>
        var w := FetchW();
        taken := [w];
      case Jump(to) => JumpTo(to);
      case Refresh(fast) => RefreshRead(fast);
      case EndInstruction => WrapPc();
      case Interrupted(c, to) =>
        ghost var base := pc;
        BackOff();
        WaitFor(c, false, base);
        JumpTo(to);
    }

    /** Any run of the processor takes the bytes the code has at pc, whatever the
        cycle counts and whichever queue. */
    method Run(ops: seq<Op>) returns (taken: seq<nat>)
      requires Valid()
      modifies pfq, this`pos, this`ip, this`pc, this`fetchCycles, this`cycles
      ensures Valid() && (taken, pc) == AllTaken(code, old(pc), ops)
    {
      taken := [];
      for i := 0 to |ops|
        invariant Valid() && (taken, pc) == AllTaken(code, old(pc), ops[..i])
      {
        assert ops[..i + 1][..i] == ops[..i];
        var more := Perform(ops[i]);
        taken := taken + more;
      }
      assert ops[..|ops|] == ops;
    }
  }

  /** What a run without jumps takes: the code bytes one after the other. */
  lemma {:induction false} BytesInOrder(code: Code, pc: u32, ops: seq<Op>)
    requires forall op | op in ops :: op.FetchByte? || op.Wait? || op.Refresh?
    ensures var (taken, at) := AllTaken(code, pc, ops);
            && |taken| <= |ops| && at == (pc + |taken|) % 0x1_0000_0000
            && (forall i | 0 <= i < |taken| :: taken[i] == code[(pc + i) % 0x1_0000])
            && ((forall op | op in ops :: op.FetchByte?) ==> |taken| == |ops|)
  {
    if ops == [] {
    } else {
      var before := ops[..|ops| - 1];
      BytesInOrder(code, pc, before);
      WrappedAt(pc, |AllTaken(code, pc, before).0|);
      assert ops[|ops| - 1] in ops;
    }
  }

  lemma {:induction false} BytesOfWord(lo: nat, hi: nat)
    requires lo < 0x100
    ensures (lo + 0x100 * hi) % 0x100 == lo && (lo + 0x100 * hi) / 0x100 == hi
  {
    DivIs(lo + 0x100 * hi, 0x100, hi, lo);
  }

  lemma {:induction false} WrappedAt(pc: u32, k: nat)
    ensures (pc + k) % 0x1_0000_0000 % 0x1_0000 == (pc + k) % 0x1_0000
    ensures Next((pc + k) % 0x1_0000_0000) == (pc + k + 1) % 0x1_0000_0000
  {
    Digits(pc + k, 0x1_0000, 0x1_0000);
    DivIs((pc + k) % 0x1_0000_0000, 0x1_0000, (pc + k) / 0x1_0000 % 0x1_0000, (pc + k) % 0x1_0000);
  }

  /** Broken off at 2 in code whose byte there is not the one at 0, and with cycles
      enough to prefetch in, the processor goes on at 0 with the byte at 2. */
  method WrongByte(q: Queue, c: int) returns (temp: byte)
    requires q.Shape() && q.pc == 2 && At(q.code, 0) != At(q.code, 2) && q.Fetches(c)
    modifies q.pfq, q`pos, q`ip, q`pc, q`fetchCycles, q`cycles
    ensures temp == At(q.code, 2) != At(q.code, 0) && q.pc == 1
  {
    temp := q.FetchAfterBackOff(c);
  }

  /** Four cycles are enough for a queue just made. */
  method FreshWrongByte() returns (q: Queue, temp: byte)
    ensures fresh(q) && q.code == seq(0x1_0000, i => if i == 2 then 1 else 0)
    ensures q.pc == 1 && temp == 1 != At(q.code, 0)
  {
    q := new Queue(false, seq(0x1_0000, i => if i == 2 then 1 else 0), 2);
    temp := WrongByte(q, 4);
  }

  lemma {:induction false} WrappedAddress(pc: u32, k: nat)
    ensures (pc % 0x1_0000 + k) % 0x1_0000 == (pc + k) % 0x1_0000
  {
  }
}
