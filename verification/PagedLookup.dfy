/** The lookup tables with paging on: an address found in them need not be walked
    for, and the entry must say what the walk would. */
module PagedLookup {
  import opened Arith
  import opened Lookup
  import opened PageWalk
  import opened Words
  import FlatMemory

  type RamMask = FlatMemory.RamMask

  // ----- pages and walks -----------------------------------------------------

  lemma {:induction false} Offsets(addr: u32)
    ensures var p := addr / 4096 * 4096;
            && p / 4096 == addr / 4096 && p % 4096 == 0 && p / 0x40_0000 == addr / 0x40_0000
            && addr % 0x40_0000 == p % 0x40_0000 + addr % 4096
  {
    var p := addr / 4096 * 4096;
    assert addr == p + addr % 4096;
    DivIs(p, 4096, addr / 4096, 0);
    Digits(addr, 4096, 1024);
    Digits(p, 4096, 1024);
  }

  /** All addresses of a page are translated alike. */
  lemma {:induction false} SamePage(m: Memory, r: Regs, addr: u32, write: bool)
    ensures var p := addr / 4096 * 4096;
            && Accessible(m, r, addr, write) == Accessible(m, r, p, write)
            && Physical(m, r, p) % 4096 == 0 && Physical(m, r, addr) == Physical(m, r, p) + addr % 4096
  {
    Offsets(addr);
    var p := addr / 4096 * 4096;
    var pde := m(PdeAddr(r, addr));
    if IsLarge(r, pde) {
      LargePage(pde, p);
    } else {
      DivIs(m(PteAddr(pde, addr)) / 4096 * 4096, 4096, m(PteAddr(pde, addr)) / 4096, 0);
    }
  }

  lemma {:induction false} LargePage(pde: u32, p: u32)
    requires p % 4096 == 0
    ensures InLargePage(pde, p) % 4096 == 0
  {
    Digits(p, 4096, 1024);
    DivIs(InLargePage(pde, p), 4096, pde / 0x40_0000 * 1024 + p % 0x40_0000 / 4096, 0);
  }

  /** The page of RAM behind virtual page v. */
  function Target(mask: RamMask, m: Memory, r: Regs, v: nat): (p: nat)
    requires v < PAGES
    ensures p < PAGES
  {
    FlatMemory.PhysPage(mask, Physical(m, r, v * 4096) / 4096)
  }

  lemma {:induction false} TargetOf(mask: RamMask, m: Memory, r: Regs, addr: u32)
    ensures FlatMemory.Masked(mask, Physical(m, r, addr)) == Target(mask, m, r, addr / 4096) * 4096 + addr % 4096
  {
    SamePage(m, r, addr, false);
    var base := Physical(m, r, addr / 4096 * 4096);
    DivIs(base + addr % 4096, 4096, base / 4096, addr % 4096);
  }

  /** The pointer entered for an address and where it leads. */
  lemma {:induction false} PointerOf(addr: nat, a: nat, t: nat)
    requires a == t * 4096 + addr % 4096
    ensures Pointer(addr, a) == Live((t - addr / 4096) * 4096) && a / 4096 == t
  {
    DivIs(a, 4096, t, addr % 4096);
    assert addr == addr / 4096 * 4096 + addr % 4096;
  }

  // ----- right entries -------------------------------------------------------

  /** Does a walk for page v succeed and lead to a page of RAM? */
  predicate LeadsTo(mask: RamMask, m: Memory, r: Regs, v: nat, write: bool, page: int)
    requires v < PAGES
  {
    Accessible(m, r, v * 4096, write) && page == Target(mask, m, r, v)
  }

  /** A walk for page v that succeeded still does, and leads to the same place. */
  predicate Keeps(m: Memory, r: Regs, m': Memory, r': Regs, v: nat, write: bool)
    requires v < PAGES
  {
    Accessible(m, r, v * 4096, write) ==>
      Accessible(m', r', v * 4096, write) && Physical(m', r', v * 4096) == Physical(m, r, v * 4096)
  }

  /** What both table entries of page v allow. */
  predicate PageWritable(m: Memory, r: Regs, v: nat)
    requires v < PAGES
  {
    var pde := m(PdeAddr(r, v * 4096));
    Writable(pde) && (IsLarge(r, pde) || Writable(m(PteAddr(pde, v * 4096))))
  }

  predicate PageForUser(m: Memory, r: Regs, v: nat)
    requires v < PAGES
  {
    var pde := m(PdeAddr(r, v * 4096));
    ForUser(pde) && (IsLarge(r, pde) || ForUser(m(PteAddr(pde, v * 4096))))
  }

  /** Registers that differ in privilege only. */
  predicate SameTables(r: Regs, r': Regs) {
    r'.cr3 == r.cr3 && r'.pse == r.pse
  }

  /** What keeps a walk when only privilege changes. */
  lemma {:induction false} PrivilegeKeeps(m: Memory, r: Regs, r': Regs, v: nat, write: bool)
    requires v < PAGES && SameTables(r, r') && Accessible(m, r, v * 4096, write)
    ensures Physical(m, r', v * 4096) == Physical(m, r, v * 4096)
    ensures Accessible(m, r', v * 4096, write) <==>
              (User(r') ==> PageForUser(m, r, v)) && (write && (User(r') || r'.wp) ==> PageWritable(m, r, v))
  {
  }

  /** Table words read in a walk for page v. */
  predicate InWalk(m: Memory, r: Regs, v: nat, a: u32)
    requires v < PAGES
  {
    var pde := m(PdeAddr(r, v * 4096));
    a == PdeAddr(r, v * 4096) || (!IsLarge(r, pde) && a == PteAddr(pde, v * 4096))
  }

  class Bus {
    const caches: Caches
    const mmu: Mmu
    const mask: RamMask
    const ramAt: nat -> bool        // is the granule RAM?
    var codePages: set<nat>         // physical pages that hold translated code

    constructor (caches: Caches, mmu: Mmu, mask: RamMask, ramAt: nat -> bool)
      requires caches.Valid() && forall v | 0 <= v < PAGES :: caches.readlookup2[v].Dead? && !caches.WriteLive(v)
      ensures Valid() && this.caches == caches && this.mmu == mmu && this.mask == mask && this.ramAt == ramAt
    {
      this.caches, this.mmu, this.mask, this.ramAt, codePages := caches, mmu, mask, ramAt, {};
    }

    ghost predicate ReadRight(m: Memory, r: Regs, v: nat)
      requires v < PAGES == caches.readlookup2.Length
      reads caches.readlookup2
    {
      caches.readlookup2[v].Live? ==>
        Accessible(m, r, v * 4096, false) && caches.readlookup2[v].offset == (Target(mask, m, r, v) - v) * 4096
    }

    ghost predicate WriteRight(m: Memory, r: Regs, v: nat)
      requires v < PAGES == caches.writelookup2.Length == caches.pageLookup.Length
      reads caches.writelookup2, caches.pageLookup
    {
      caches.WriteLive(v) ==>
        && Accessible(m, r, v * 4096, true)
        && (caches.writelookup2[v].Live? ==> caches.writelookup2[v].offset == (Target(mask, m, r, v) - v) * 4096)
        && (caches.pageLookup[v] != -1 ==> caches.pageLookup[v] == Target(mask, m, r, v))
    }

    /** Every live entry says what a walk of tables m under registers r would. */
    ghost predicate Right(m: Memory, r: Regs)
      requires caches.Shape()
      reads caches, caches.readlookup2, caches.writelookup2, caches.pageLookup
    {
      forall v | 0 <= v < PAGES :: ReadRight(m, r, v) && WriteRight(m, r, v)
    }

    ghost predicate Valid()
      reads this, mmu, caches, caches.readlookup, caches.readlookup2, caches.writelookup, caches.writelookup2,
            caches.pageLookup
    {
      caches.Valid() && Right(mmu.mem, mmu.regs)
    }

    lemma {:induction false} RightKept(m: Memory, r: Regs, m': Memory, r': Regs)
      requires caches.Shape() && Right(m, r)
      requires forall v | 0 <= v < PAGES && caches.readlookup2[v].Live? :: Keeps(m, r, m', r', v, false)
      requires forall v | 0 <= v < PAGES && caches.WriteLive(v) :: Keeps(m, r, m', r', v, true)
      ensures Right(m', r')
    {
      forall v | 0 <= v < PAGES ensures ReadRight(m', r', v) && WriteRight(m', r', v) {
        assert ReadRight(m, r, v) && WriteRight(m, r, v);
      }
    }

    /** Marks make no difference. */
    lemma {:induction false} RightSimilar(m: Memory, m': Memory, r: Regs)
      requires caches.Shape() && Right(m, r) && Similar(m, m')
      ensures Right(m', r)
    {
      forall v, w | 0 <= v < PAGES ensures Keeps(m, r, m', r, v, w) {
        SimilarTranslate(m, m', r, v * 4096, w);
      }
      RightKept(m, r, m', r);
    }

    // ----- accesses ------------------------------------------------------------

    /** An access of addr that comes out at a, or at -1 if it is turned away, is what
        a walk of m makes of it.  The one physical address that stands for none is
        turned away by a walk, but not where a lookup stands in for it. */
    ghost predicate Answers(m: Memory, r: Regs, addr: u32, write: bool, a: int) {
      && (!Accessible(m, r, addr, write) ==> a == -1)
      && (Translation(m, r, addr, write) != NOWHERE ==> a == FlatMemory.Masked(mask, Physical(m, r, addr)))
    }

    /** The walk of the slow paths. */
    method Walk(addr: u32, write: bool) returns (a: int)
      requires Valid() && mmu.abrt == 0
      modifies mmu`mem, mmu`cr2, mmu`abrt, mmu`abrtError, mmu`mmuPerm
      ensures Valid() && Similar(old(mmu.mem), mmu.mem) && Answers(old(mmu.mem), mmu.regs, addr, write, a)
      ensures a != -1 ==> 0 <= a < TOP && Accessible(old(mmu.mem), mmu.regs, addr, write)
                          && a == FlatMemory.Masked(mask, Physical(old(mmu.mem), mmu.regs, addr))
      ensures mmu.abrt == if Accessible(old(mmu.mem), mmu.regs, addr, write) then 0 else ABRT_PF
    {
      ghost var m := mmu.mem;
      var r := mmu.Translate(addr, write);
      MarkedIsSimilar(m, mmu.regs, addr, write);
      RightSimilar(m, mmu.mem, mmu.regs);
      a := if r == NOWHERE then -1 else FlatMemory.Masked(mask, r);
    }

    /** mem_read_ram, as far as the lookups go. */
    method EnterRead(addr: u32, a: nat)
      requires Valid() && Accessible(mmu.mem, mmu.regs, addr, false)
               && a == FlatMemory.Masked(mask, Physical(mmu.mem, mmu.regs, addr))
      modifies caches`readlnext, caches.readlookup, caches.readlookup2
      ensures Valid() && (addr != NO_PAGE ==> caches.readlookup2[addr / 4096].Live?)
    {
      ghost var m, r := mmu.mem, mmu.regs;
      SamePage(m, r, addr, false);
      TargetOf(mask, m, r, addr);
      PointerOf(addr, a, Target(mask, m, r, addr / 4096));
      caches.AddRead(addr, a);
      forall v | 0 <= v < PAGES ensures ReadRight(m, r, v) && WriteRight(m, r, v) {
        assert old(ReadRight(m, r, v)) && old(WriteRight(m, r, v));
      }
    }

    method EnterWrite(addr: u32, a: nat)
      requires Valid() && Accessible(mmu.mem, mmu.regs, addr, true)
               && a == FlatMemory.Masked(mask, Physical(mmu.mem, mmu.regs, addr))
      modifies caches`writelnext, caches.writelookup, caches.writelookup2, caches.pageLookup
      ensures Valid() && (addr != NO_PAGE ==> caches.WriteLive(addr / 4096))
    {
      ghost var m, r := mmu.mem, mmu.regs;
      SamePage(m, r, addr, true);
      TargetOf(mask, m, r, addr);
      PointerOf(addr, a, Target(mask, m, r, addr / 4096));
      caches.AddWrite(addr, a, a / 4096 in codePages);
      forall v | 0 <= v < PAGES ensures ReadRight(m, r, v) && WriteRight(m, r, v) {
        assert old(ReadRight(m, r, v)) && old(WriteRight(m, r, v));
      }
    }

    /** A read: through the lookup, or by a walk that enters the page if it is RAM. */
    method Read(addr: u32) returns (a: int)
      requires Valid() && mmu.abrt == 0
      modifies mmu`mem, mmu`cr2, mmu`abrt, mmu`abrtError, mmu`mmuPerm
      modifies caches`readlnext, caches.readlookup, caches.readlookup2
      ensures Valid() && Similar(old(mmu.mem), mmu.mem) && Answers(old(mmu.mem), mmu.regs, addr, false, a)
      ensures a >= 0 && addr != NO_PAGE ==> caches.readlookup2[addr / 4096].Live? || !ramAt(a / GRANULE)
    {
      match caches.readlookup2[addr / 4096] {
        case Live(offset) =>
          FoundRead(addr);
          a := offset + addr;
        case Dead =>
          ghost var m := mmu.mem;
          a := Walk(addr, false);
          if a != -1 && ramAt(a / GRANULE) {
            SimilarTranslate(m, mmu.mem, mmu.regs, addr, false);
            EnterRead(addr, a);
          }
      }
    }

    /** A write: through either lookup, or by a walk. */
    method Write(addr: u32) returns (a: int)
      requires Valid() && mmu.abrt == 0
      modifies mmu`mem, mmu`cr2, mmu`abrt, mmu`abrtError, mmu`mmuPerm
      modifies caches`writelnext, caches.writelookup, caches.writelookup2, caches.pageLookup
      ensures Valid() && Similar(old(mmu.mem), mmu.mem) && Answers(old(mmu.mem), mmu.regs, addr, true, a)
      ensures a >= 0 && addr != NO_PAGE ==> caches.WriteLive(addr / 4096) || !ramAt(a / GRANULE)
    {
      if caches.writelookup2[addr / 4096].Live? {
        FoundWrite(addr);
        a := caches.writelookup2[addr / 4096].offset + addr;
      } else if caches.pageLookup[addr / 4096] != -1 {
        FoundWrite(addr);
        a := caches.pageLookup[addr / 4096] * 4096 + addr % 4096;
      } else {
        ghost var m := mmu.mem;
        a := Walk(addr, true);
        if a != -1 && ramAt(a / GRANULE) {
          SimilarTranslate(m, mmu.mem, mmu.regs, addr, true);
          EnterWrite(addr, a);
        }
      }
    }

    lemma {:induction false} FoundRead(addr: u32)
      requires Valid() && caches.readlookup2[addr / 4096].Live?
      ensures Answers(mmu.mem, mmu.regs, addr, false, caches.readlookup2[addr / 4096].offset + addr)
    {
      assert ReadRight(mmu.mem, mmu.regs, addr / 4096);
      SamePage(mmu.mem, mmu.regs, addr, false);
      TargetOf(mask, mmu.mem, mmu.regs, addr);
    }

    lemma {:induction false} FoundWrite(addr: u32)
      requires Valid() && caches.WriteLive(addr / 4096)
      ensures caches.writelookup2[addr / 4096].Live? ==>
                Answers(mmu.mem, mmu.regs, addr, true, caches.writelookup2[addr / 4096].offset + addr)
      ensures caches.pageLookup[addr / 4096] != -1 ==>
                Answers(mmu.mem, mmu.regs, addr, true, caches.pageLookup[addr / 4096] * 4096 + addr % 4096)
    {
      assert WriteRight(mmu.mem, mmu.regs, addr / 4096);
      SamePage(mmu.mem, mmu.regs, addr, true);
      TargetOf(mask, mmu.mem, mmu.regs, addr);
    }

    // ----- what changes translations -------------------------------------------

    /** A new directory, or new tables, with the flush that goes with it: MOV to CR3,
        INVLPG, or a change of the paging bit. */
    method Reload(mem: Memory, regs: Regs)
      requires Valid()
      modifies mmu`mem, mmu`regs, caches.readlookup, caches.readlookup2, caches.writelookup, caches.writelookup2,
               caches.pageLookup
      ensures Valid() && mmu.mem == mem && mmu.regs == regs
    {
      mmu.mem, mmu.regs := mem, regs;
      caches.Flush();
    }

    /** May every page entered for writing be written by its table entries? */
    ghost predicate WritesAllowed()
      requires caches.Shape()
      reads this, mmu, caches, caches.writelookup2, caches.pageLookup
    {
      forall v | 0 <= v < PAGES && caches.WriteLive(v) :: PageWritable(mmu.mem, mmu.regs, v)
    }

    /** May the user use every page that was entered, by its table entries? */
    ghost predicate UserAllowed()
      requires caches.Shape()
      reads this, mmu, caches, caches.readlookup2, caches.writelookup2, caches.pageLookup
    {
      && (forall v | 0 <= v < PAGES && caches.readlookup2[v].Live? :: PageForUser(mmu.mem, mmu.regs, v))
      && (forall v | 0 <= v < PAGES && caches.WriteLive(v) :: PageForUser(mmu.mem, mmu.regs, v))
      && WritesAllowed()
    }

    lemma {:induction false} ReadKept(m: Memory, r: Regs, r': Regs, v: nat)
      requires caches.Shape() && v < PAGES && ReadRight(m, r, v) && caches.readlookup2[v].Live? && SameTables(r, r')
      ensures ReadRight(m, r', v) <==> (User(r') ==> PageForUser(m, r, v))
      ensures User(r) ==> PageForUser(m, r, v)
    {
      PrivilegeKeeps(m, r, r, v, false);
      PrivilegeKeeps(m, r, r', v, false);
    }

    lemma {:induction false} WriteKept(m: Memory, r: Regs, r': Regs, v: nat)
      requires caches.Shape() && v < PAGES && WriteRight(m, r, v) && caches.WriteLive(v) && SameTables(r, r')
      ensures WriteRight(m, r', v) <==>
                (User(r') ==> PageForUser(m, r, v)) && (User(r') || r'.wp ==> PageWritable(m, r, v))
      ensures (User(r) ==> PageForUser(m, r, v)) && (User(r) || r.wp ==> PageWritable(m, r, v))
    {
      PrivilegeKeeps(m, r, r, v, true);
      PrivilegeKeeps(m, r, r', v, true);
    }

    /** When registers change in privilege only, the lookups stay right if and only if
        the table entries behind them allow it. */
    lemma {:induction false} RightIff(r': Regs)
      requires Valid() && SameTables(mmu.regs, r')
      ensures Right(mmu.mem, r') <==> if User(r') then UserAllowed() else r'.wp ==> WritesAllowed()
      ensures if User(mmu.regs) then UserAllowed() else mmu.regs.wp ==> WritesAllowed()
    {
      var m, r := mmu.mem, mmu.regs;
      forall v | 0 <= v < PAGES && caches.readlookup2[v].Live?
        ensures ReadRight(m, r', v) <==> (User(r') ==> PageForUser(m, r, v))
        ensures User(r) ==> PageForUser(m, r, v)
      {
        assert ReadRight(m, r, v);
        ReadKept(m, r, r', v);
      }
      forall v | 0 <= v < PAGES && caches.WriteLive(v)
        ensures WriteRight(m, r', v) <==>
                  (User(r') ==> PageForUser(m, r, v)) && (User(r') || r'.wp ==> PageWritable(m, r, v))
        ensures (User(r) ==> PageForUser(m, r, v)) && (User(r) || r.wp ==> PageWritable(m, r, v))
      {
        assert WriteRight(m, r, v);
        WriteKept(m, r, r', v);
      }
    }

    /** A change of privilege flushes on the way to ring 3 only: what ring 3 may read
        and write, the others may. */
    method SetPrivilege(cpl: nat)
      requires Valid()
      modifies mmu`regs, caches.readlookup, caches.readlookup2, caches.writelookup, caches.writelookup2,
               caches.pageLookup
      ensures Valid() && mmu.regs == old(mmu.regs).(cpl := cpl)
    {
      RightIff(mmu.regs.(cpl := cpl));
      var oldCpl := mmu.regs.cpl;
      mmu.regs := mmu.regs.(cpl := cpl);
      if cpl == 3 && oldCpl != 3 {
        caches.Flush();
      }
    }

    /** MOV to CR0 with a new write-protect bit does not flush.  The lookups stay right
        if and only if the bit is clear, or no page entered for writing is one that
        its table entries protect. */
    method SetWriteProtect(on: bool)
      requires Valid()
      modifies mmu`regs
      ensures mmu.regs == old(mmu.regs).(wp := on) && Valid() == (on ==> old(WritesAllowed()))
    {
      RightIff(mmu.regs.(wp := on));
      mmu.regs := mmu.regs.(wp := on);
    }

    /** Ending the override under which ring 3 loads descriptors does not flush.  The
        lookups stay right if and only if nothing was entered meanwhile that ring 3
        may not use. */
    method SetOverride(on: bool)
      requires Valid()
      modifies mmu`regs
      ensures mmu.regs == old(mmu.regs).(cplOverride := on)
      ensures Valid() == (on || mmu.regs.cpl != 3 || old(UserAllowed()))
    {
      RightIff(mmu.regs.(cplOverride := on));
      mmu.regs := mmu.regs.(cplOverride := on);
    }

    /** A store that hits no table word a live entry was made from needs no flush. */
    method Store(a: u32, w: u32)
      requires Valid()
      requires forall v | 0 <= v < PAGES && (caches.readlookup2[v].Live? || caches.WriteLive(v)) ::
               !InWalk(mmu.mem, mmu.regs, v, a)
      modifies mmu`mem
      ensures Valid() && mmu.mem == Put(old(mmu.mem), a, w)
    {
      ghost var m, r := mmu.mem, mmu.regs;
      mmu.mem := Put(mmu.mem, a, w);
      RightKept(m, r, mmu.mem, r);
    }

    /** A page gets translated code: the write pointers into it go, and no entry
        becomes wrong. */
    method MarkCode(page: nat, virt: nat)
      requires Valid() && page < PAGES
      modifies this`codePages, caches.writelookup, caches.writelookup2, caches.pageLookup
      ensures Valid()
    {
      codePages := codePages + {page};
      caches.FlushWritePage(page * 4096, virt);
      forall v | 0 <= v < PAGES ensures ReadRight(mmu.mem, mmu.regs, v) && WriteRight(mmu.mem, mmu.regs, v) {
        assert old(ReadRight(mmu.mem, mmu.regs, v)) && old(WriteRight(mmu.mem, mmu.regs, v));
      }
    }

    // ----- any run -----------------------------------------------------------

    lemma {:induction false} AnswersSimilar(m: Memory, m': Memory, r: Regs, addr: u32, write: bool, a: int)
      requires Similar(m, m') && Answers(m', r, addr, write, a)
      ensures Answers(m, r, addr, write, a)
    {
      SimilarTranslate(m, m', r, addr, write);
    }

    /** Each access of a run comes out where a walk of the tables and under the
        registers of that moment would take it; marks left by walks do not matter. */
    ghost predicate Answered(m: Memory, r: Regs, ops: seq<Op>, results: seq<int>)
      requires |results| == |ops|
    {
      forall i | 0 <= i < |ops| ::
        var (t, regs) := After(m, r, ops[..i]);
        match ops[i]
        case ReadOp(addr) => Answers(t, regs, addr, false, results[i])
        case WriteOp(addr) => Answers(t, regs, addr, true, results[i])
        case _ => true
    }

    method Perform(op: Op) returns (a: int)
      requires Valid() && mmu.abrt == 0 && (op.CodeOp? ==> op.page < PAGES)
      modifies this`codePages, mmu`mem, mmu`regs, mmu`cr2, mmu`abrt, mmu`abrtError, mmu`mmuPerm
      modifies caches`readlnext, caches`writelnext, caches.readlookup, caches.readlookup2
      modifies caches.writelookup, caches.writelookup2, caches.pageLookup
      ensures Valid() && mmu.abrt == 0
      ensures Performed(old(mmu.mem), old(mmu.regs), op, mmu.mem, mmu.regs, a)
    {
      a := -1;
      match op {
        case ReadOp(addr) => a := Read(addr);
        case WriteOp(addr) => a := Write(addr);
        case PrivilegeOp(cpl) => SetPrivilege(cpl);
        case ReloadOp(mem, regs) => Reload(mem, regs);
        case CodeOp(page, virt) => MarkCode(page, virt);
      }
      mmu.abrt := 0;
    }

    /** Any run of accesses, changes of privilege and reloads of the tables, faults
        being cleared as they come: no access notices the lookups. */
    method Run(ops: seq<Op>) returns (results: seq<int>)
      requires Valid() && mmu.abrt == 0 && forall i | 0 <= i < |ops| && ops[i].CodeOp? :: ops[i].page < PAGES
      modifies this`codePages, mmu`mem, mmu`regs, mmu`cr2, mmu`abrt, mmu`abrtError, mmu`mmuPerm
      modifies caches`readlnext, caches`writelnext, caches.readlookup, caches.readlookup2
      modifies caches.writelookup, caches.writelookup2, caches.pageLookup
      ensures Valid() && |results| == |ops| && Answered(old(mmu.mem), old(mmu.regs), ops, results)
    {
      results := [];
      ghost var m, r := mmu.mem, mmu.regs;
      for n := 0 to |ops|
        invariant Valid() && mmu.abrt == 0 && |results| == n && Answered(m, r, ops[..n], results)
        invariant var (t, regs) := After(m, r, ops[..n]); Similar(t, mmu.mem) && mmu.regs == regs
      {
        ghost var m1, r1 := mmu.mem, mmu.regs;
        var a := Perform(ops[n]);
        RunStep(m, r, ops, n, results, m1, r1, mmu.mem, mmu.regs, a);
        results := results + [a];
      }
      assert ops[..|ops|] == ops;
    }

    /** One more operation, and what it left behind. */
    ghost predicate Performed(m: Memory, r: Regs, op: Op, m': Memory, r': Regs, a: int) {
      && (op.ReadOp? ==> Answers(m, r, op.addr, false, a))
      && (op.WriteOp? ==> Answers(m, r, op.addr, true, a))
      && var (t, regs) := Effect(m, r, op); Similar(t, m') && r' == regs
    }

    lemma {:induction false} PerformedSimilar(t: Memory, m: Memory, r: Regs, op: Op, m': Memory, r': Regs, a: int)
      requires Similar(t, m) && Performed(m, r, op, m', r', a)
      ensures Performed(t, r, op, m', r', a)
    {
      if op.ReadOp? || op.WriteOp? {
        AnswersSimilar(t, m, r, op.addr, op.WriteOp?, a);
      }
      if !op.ReloadOp? {
        SimilarIsTransitive(t, m, m');
      }
    }

    lemma {:induction false} RunStep(m: Memory, r: Regs, ops: seq<Op>, n: nat, results: seq<int>, m1: Memory, r1: Regs,
                                     m2: Memory, r2: Regs, a: int)
      requires n < |ops| && |results| == n && Answered(m, r, ops[..n], results)
      requires var (t, regs) := After(m, r, ops[..n]); Similar(t, m1) && r1 == regs
      requires Performed(m1, r1, ops[n], m2, r2, a)
      ensures Answered(m, r, ops[..n + 1], results + [a])
      ensures var (t, regs) := After(m, r, ops[..n + 1]); Similar(t, m2) && r2 == regs
    {
      assert ops[..n + 1][..n] == ops[..n];
      var (t, regs) := After(m, r, ops[..n]);
      PerformedSimilar(t, m1, r1, ops[n], m2, r2, a);
      forall i | 0 <= i <= n ensures ops[..n + 1][..i] == ops[..i] && (i < n ==> ops[..n][..i] == ops[..i]) {
      }
    }
  }

  datatype Op =
    | ReadOp(addr: u32)
    | WriteOp(addr: u32)
    | PrivilegeOp(cpl: nat)
    | ReloadOp(mem: Memory, regs: Regs)
    | CodeOp(page: nat, virt: nat)

  /** Tables and registers after an operation, but for the marks. */
  function Effect(m: Memory, r: Regs, op: Op): (Memory, Regs) {
    match op
    case PrivilegeOp(cpl) => (m, r.(cpl := cpl))
    case ReloadOp(mem, regs) => (mem, regs)
    case _ => (m, r)
  }

  function After(m: Memory, r: Regs, ops: seq<Op>): (Memory, Regs) {
    if ops == [] then (m, r)
    else
      var (t, regs) := After(m, r, ops[..|ops| - 1]);
      Effect(t, regs, ops[|ops| - 1])
  }

  // ----- what does not flush -------------------------------------------------

  /** Once the supervisor has entered a page for writing that its table entries
      protect, setting the write-protect bit leaves a lookup where a walk faults. */
  method StaleWrite(b: Bus, v: nat)
    requires b.Valid() && v < PAGES && b.caches.WriteLive(v) && !PageWritable(b.mmu.mem, b.mmu.regs, v)
    modifies b.mmu`regs
    ensures b.caches.WriteLive(v) && !Accessible(b.mmu.mem, b.mmu.regs, v * 4096, true) && !b.Valid()
  {
    assert b.WriteRight(b.mmu.mem, b.mmu.regs, v);
    PrivilegeKeeps(b.mmu.mem, b.mmu.regs, b.mmu.regs.(wp := true), v, true);
    b.SetWriteProtect(true);
  }

  /** Once ring 3 has entered a page under the override that it may not read, ending
      the override leaves a lookup where a walk faults. */
  method StaleRead(b: Bus, v: nat)
    requires b.Valid() && v < PAGES && b.caches.readlookup2[v].Live?
    requires b.mmu.regs.cpl == 3 && !PageForUser(b.mmu.mem, b.mmu.regs, v)
    modifies b.mmu`regs
    ensures b.caches.readlookup2[v].Live? && !Accessible(b.mmu.mem, b.mmu.regs, v * 4096, false) && !b.Valid()
  {
    assert b.ReadRight(b.mmu.mem, b.mmu.regs, v);
    PrivilegeKeeps(b.mmu.mem, b.mmu.regs, b.mmu.regs.(cplOverride := false), v, false);
    b.SetOverride(false);
  }

  lemma {:induction false} SimilarBits(m: Memory, m': Memory, r: Regs, v: nat)
    requires Similar(m, m') && v < PAGES
    ensures PageWritable(m, r, v) == PageWritable(m', r, v) && PageForUser(m, r, v) == PageForUser(m', r, v)
  {
    var d := PdeAddr(r, v * 4096);
    AlikeWords(m(d), m'(d));
    AlikeWords(m(PteAddr(m(d), v * 4096)), m'(PteAddr(m(d), v * 4096)));
  }

  /** A write that the tables protect from, let through and entered, leads to the
      first, and a read that the user may not make to the second. */
  method EnterProtected(b: Bus, addr: u32) returns (a: int)
    requires b.Valid() && b.mmu.abrt == 0 && addr != NO_PAGE && (forall g :: b.ramAt(g))
    requires Translation(b.mmu.mem, b.mmu.regs, addr, true) != NOWHERE
             && !PageWritable(b.mmu.mem, b.mmu.regs, addr / 4096)
    modifies b.mmu`mem, b.mmu`cr2, b.mmu`abrt, b.mmu`abrtError, b.mmu`mmuPerm
    modifies b.caches`writelnext, b.caches.writelookup, b.caches.writelookup2, b.caches.pageLookup
    ensures b.Valid() && b.caches.WriteLive(addr / 4096) && PageWritable(b.mmu.mem, b.mmu.regs, addr / 4096) == false
  {
    ghost var m := b.mmu.mem;
    a := b.Write(addr);
    SimilarBits(m, b.mmu.mem, b.mmu.regs, addr / 4096);
  }

  method EnterOverridden(b: Bus, addr: u32) returns (a: int)
    requires b.Valid() && b.mmu.abrt == 0 && addr != NO_PAGE && (forall g :: b.ramAt(g))
    requires Translation(b.mmu.mem, b.mmu.regs, addr, false) != NOWHERE
             && !PageForUser(b.mmu.mem, b.mmu.regs, addr / 4096)
    modifies b.mmu`mem, b.mmu`cr2, b.mmu`abrt, b.mmu`abrtError, b.mmu`mmuPerm
    modifies b.caches`readlnext, b.caches.readlookup, b.caches.readlookup2
    ensures b.Valid() && b.caches.readlookup2[addr / 4096].Live?
            && PageForUser(b.mmu.mem, b.mmu.regs, addr / 4096) == false
  {
    ghost var m := b.mmu.mem;
    a := b.Read(addr);
    SimilarBits(m, b.mmu.mem, b.mmu.regs, addr / 4096);
  }

  /** Tables whose every word is present and no more are a case of either, for address
      0 and without write protection, outside ring 3 or under the override. */
  lemma {:induction false} BareTables(m: Memory, r: Regs)
    requires (forall a: u32 :: m(a) == 1) && !User(r) && !r.wp
    ensures Translation(m, r, 0, true) == Translation(m, r, 0, false) == 0 && !PageWritable(m, r, 0)
            && !PageForUser(m, r, 0)
  {
    assert Present(1) && !Large(1) && !Writable(1) && !ForUser(1) && InPage(1, 0) == 0;
  }
}
