/** The two-level page walk and its marking of accessed and dirty entries.  Table
    words live in the same memory the walk translates for, so a table may map
    itself.  Words and addresses are 32-bit numbers; bit k of w is w / 2^k % 2. */
module PageWalk {
  import opened Arith
  import opened Words

  /** The words of physical memory, by address of the word. */
  type Memory = u32 -> u32

  const NOWHERE: u32 := 0xffff_ffff
  const ABRT_PF := 14

  /** The registers a walk depends on. */
  datatype Regs = Regs(wp: bool, cr3: u32, pse: bool, cpl: nat, cplOverride: bool)

  predicate Present(w: u32) { w % 2 == 1 }

  predicate Writable(w: u32) { w / 2 % 2 == 1 }

  predicate ForUser(w: u32) { w / 4 % 2 == 1 }

  predicate Accessed(w: u32) { w / 32 % 2 == 1 }

  predicate Dirty(w: u32) { w / 64 % 2 == 1 }

  predicate Large(w: u32) { w / 128 % 2 == 1 }

  /** w | 0x20 and w | 0x40 */
  function SetAccessed(w: u32): u32 { if Accessed(w) then w else w + 32 }

  function SetDirty(w: u32): u32 { if Dirty(w) then w else w + 64 }

  /** The |= of the walk: the accessed bit, and the dirty bit if so asked. */
  function Mark(w: u32, dirty: bool): u32 {
    if dirty then SetDirty(SetAccessed(w)) else SetAccessed(w)
  }

  function Put(m: Memory, a: u32, w: u32): Memory {
    x => if x == a then w else m(x)
  }

  // ----- what a translation is -----------------------------------------------

  function PdeAddr(r: Regs, addr: u32): u32 {
    r.cr3 / 4096 * 4096 + addr / 0x40_0000 * 4
  }

  function PteAddr(pde: u32, addr: u32): u32 {
    pde / 4096 * 4096 + addr / 4096 % 1024 * 4
  }

  predicate IsLarge(r: Regs, pde: u32) {
    Large(pde) && r.pse
  }

  predicate User(r: Regs) {
    r.cpl == 3 && !r.cplOverride
  }

  /** A user-mode access needs the user bit; a write needs the writable bit unless
      it comes from the supervisor and write protection is off. */
  predicate Allowed(r: Regs, forUser: bool, writable: bool, write: bool) {
    (User(r) ==> forUser) && (write && (User(r) || r.wp) ==> writable)
  }

  predicate Accessible(m: Memory, r: Regs, addr: u32, write: bool) {
    var pde := m(PdeAddr(r, addr));
    var pte := m(PteAddr(pde, addr));
    && Present(pde)
    && if IsLarge(r, pde) then Allowed(r, ForUser(pde), Writable(pde), write)
       else Present(pte) && Allowed(r, ForUser(pde) && ForUser(pte), Writable(pde) && Writable(pte), write)
  }

  /** The address in the page an entry points to. */
  function InPage(entry: u32, addr: u32): u32 {
    entry / 4096 * 4096 + addr % 4096
  }

  function InLargePage(entry: u32, addr: u32): u32 {
    entry / 0x40_0000 * 0x40_0000 + addr % 0x40_0000
  }

  function Physical(m: Memory, r: Regs, addr: u32): u32 {
    var pde := m(PdeAddr(r, addr));
    if IsLarge(r, pde) then InLargePage(pde, addr) else InPage(m(PteAddr(pde, addr)), addr)
  }

  /** The last entry the walk consults. */
  function Leaf(m: Memory, r: Regs, addr: u32): u32 {
    var pde := m(PdeAddr(r, addr));
    if !Present(pde) || IsLarge(r, pde) then pde else m(PteAddr(pde, addr))
  }

  /** The page-fault error code of section 9.8.14 of the 80386 manual. */
  function FaultCode(present: bool, write: bool, user: bool): nat {
    (if present then 1 else 0) + (if write then 2 else 0) + (if user then 4 else 0)
  }

  /** The translation of an address; all ones stand for none. */
  function Translation(m: Memory, r: Regs, addr: u32, write: bool): u32 {
    if Accessible(m, r, addr, write) then Physical(m, r, addr) else NOWHERE
  }

  /** Memory after the entries used have been marked: accessed, and for a write to
      a small page its own entry dirty, too. */
  function Marked(m: Memory, r: Regs, addr: u32, write: bool): Memory {
    var d := PdeAddr(r, addr);
    var t := PteAddr(m(d), addr);
    var m1 := Put(m, d, Mark(m(d), false));
    if IsLarge(r, m(d)) then m1 else Put(m1, t, Mark(m1(t), write))
  }

  // ----- directories, tables and pages by number -------------------------------

  /** The number with three digits: directory entry, table entry, place in the page. */
  lemma {:induction false} DigitsOfAddress(d: nat, t: nat, o: nat)
    requires d < 1024 && t < 1024 && o < 4096
    ensures var addr := (d * 1024 + t) * 4096 + o;
            && addr < TOP && addr % 4096 == o && addr / 4096 == d * 1024 + t
            && addr / 4096 % 1024 == t && addr / 0x40_0000 == d && addr % 0x40_0000 == t * 4096 + o
  {
    var addr := (d * 1024 + t) * 4096 + o;
    DivIs(addr, 4096, d * 1024 + t, o);
    DivIs(d * 1024 + t, 1024, d, t);
    DivIs(addr, 0x40_0000, d, t * 4096 + o);
  }

  /** The word at entry k of the table an entry or register points to. */
  function EntryAt(m: Memory, table: u32, k: nat): u32
    requires k < 1024
  {
    m(table / 4096 * 4096 + 4 * k)
  }

  /** Page t of directory entry d, in 4 KB pages: both entries must be present and
      allow the access, and the lower bits come from the address. */
  lemma {:induction false} SmallPageWalk(m: Memory, r: Regs, d: nat, t: nat, o: nat, write: bool)
    requires d < 1024 && t < 1024 && o < 4096 && !(r.pse && EntryAt(m, r.cr3, d) / 128 % 2 == 1)
    ensures var e := EntryAt(m, r.cr3, d);
            var w := EntryAt(m, e, t);
            var user := r.cpl == 3 && !r.cplOverride;
            var addr: u32 := (d * 1024 + t) * 4096 + o;
            && Physical(m, r, addr) == w / 4096 * 4096 + o && Leaf(m, r, addr) == (if e % 2 == 1 then w else e)
            && (Accessible(m, r, addr, write) <==>
                  && e % 2 == 1 && w % 2 == 1
                  && (user ==> e / 4 % 2 == 1 && w / 4 % 2 == 1)
                  && (write && (user || r.wp) ==> e / 2 % 2 == 1 && w / 2 % 2 == 1))
  {
    DigitsOfAddress(d, t, o);
  }

  /** The same in a 4 MB page: there is one entry only. */
  lemma {:induction false} LargePageWalk(m: Memory, r: Regs, d: nat, o: nat, write: bool)
    requires d < 1024 && o < 0x40_0000 && r.pse && EntryAt(m, r.cr3, d) / 128 % 2 == 1
    ensures var e := EntryAt(m, r.cr3, d);
            var user := r.cpl == 3 && !r.cplOverride;
            var addr: u32 := d * 0x40_0000 + o;
            && Physical(m, r, addr) == e / 0x40_0000 * 0x40_0000 + o && Leaf(m, r, addr) == e
            && (Accessible(m, r, addr, write) <==>
                  && e % 2 == 1 && (user ==> e / 4 % 2 == 1) && (write && (user || r.wp) ==> e / 2 % 2 == 1))
  {
    DivIs(o, 4096, o / 4096, o % 4096);
    Digits(o, 4096, 1024);
    assert o == o / 4096 * 4096 + o % 4096 && o / 4096 < 1024;
    DigitsOfAddress(d, o / 4096, o % 4096);
    assert (d * 1024 + o / 4096) * 4096 + o % 4096 == d * 0x40_0000 + o;
  }

  /** Where the entries used lie. */
  predicate Consults(m: Memory, r: Regs, d: nat, t: nat, a: u32)
    requires d < 1024 && t < 1024
  {
    var e := EntryAt(m, r.cr3, d);
    || a == r.cr3 / 4096 * 4096 + 4 * d
    || (!(r.pse && e / 128 % 2 == 1) && a == e / 4096 * 4096 + 4 * t)
  }

  /** A new entry in a table: its page is the one the entry says. */
  lemma {:induction false} InstallEntry(m: Memory, r: Regs, d: nat, t: nat, o: nat, w: u32, write: bool)
    requires d < 1024 && t < 1024 && o < 4096 && !(r.pse && EntryAt(m, r.cr3, d) / 128 % 2 == 1)
    requires EntryAt(m, r.cr3, d) / 4096 * 4096 + 4 * t != r.cr3 / 4096 * 4096 + 4 * d
    ensures var e := EntryAt(m, r.cr3, d);
            var m' := Put(m, e / 4096 * 4096 + 4 * t, w);
            && Physical(m', r, (d * 1024 + t) * 4096 + o) == w / 4096 * 4096 + o
            && (!(e % 2 == 1 && w % 2 == 1) ==> !Accessible(m', r, (d * 1024 + t) * 4096 + o, write))
  {
    SmallPageWalk(Put(m, EntryAt(m, r.cr3, d) / 4096 * 4096 + 4 * t, w), r, d, t, o, write);
  }

  /** Every page whose walk does not use the word changed stays where it was. */
  lemma {:induction false} OtherEntries(m: Memory, r: Regs, d: nat, t: nat, o: nat, write: bool, a: u32, w: u32)
    requires d < 1024 && t < 1024 && o < 4096 && !Consults(m, r, d, t, a)
    ensures Translation(Put(m, a, w), r, (d * 1024 + t) * 4096 + o, write)
            == Translation(m, r, (d * 1024 + t) * 4096 + o, write)
  {
    SmallPageEntries(m, r, d, t, o);
    SameWords(m, Put(m, a, w), r, (d * 1024 + t) * 4096 + o, write);
  }

  lemma {:induction false} SameWords(m: Memory, m': Memory, r: Regs, addr: u32, write: bool)
    requires var e := m(PdeAddr(r, addr));
             && m'(PdeAddr(r, addr)) == e && (IsLarge(r, e) || m'(PteAddr(e, addr)) == m(PteAddr(e, addr)))
    ensures Translation(m', r, addr, write) == Translation(m, r, addr, write)
  {
  }

  // ----- marking does not change translations --------------------------------

  /** Two words that differ in their accessed and dirty bits only. */
  predicate Alike(w: u32, w': u32) {
    w / 128 == w' / 128 && w % 32 == w' % 32
  }

  ghost predicate Similar(m: Memory, m': Memory) {
    forall a: u32 :: Alike(m(a), m'(a))
  }

  lemma AlikeWords(w: u32, w': u32)
    requires Alike(w, w')
    ensures w / 4096 == w' / 4096 && w / 0x40_0000 == w' / 0x40_0000
    ensures Present(w) == Present(w') && Writable(w) == Writable(w') && ForUser(w) == ForUser(w')
            && Large(w) == Large(w')
  {
    LowBits(w);
    LowBits(w');
    Digits(w, 128, 32);
    Digits(w, 128, 0x8000);
    Digits(w', 128, 32);
    Digits(w', 128, 0x8000);
  }

  lemma LowBits(w: u32)
    ensures w % 2 == w % 32 % 2 && w / 2 % 2 == w % 32 / 2 % 2 && w / 4 % 2 == w % 32 / 4 % 2
  {
    LowDigit(w, 1, 16);
    LowDigit(w, 2, 8);
    LowDigit(w, 4, 4);
  }

  /** The digits of a word around the accessed and the dirty bit make it up. */
  lemma {:induction false} BitsFrom5(w: nat, upper: nat, dirty: nat, accessed: nat, low: nat)
    requires dirty < 2 && accessed < 2 && low < 32
    requires w == upper * 128 + dirty * 64 + accessed * 32 + low
    ensures w / 128 == upper && w / 64 % 2 == dirty && w / 32 % 2 == accessed && w % 32 == low
  {
    DivIs(w, 128, upper, dirty * 64 + accessed * 32 + low);
    DivIs(w, 64, upper * 2 + dirty, accessed * 32 + low);
    DivIs(w, 32, upper * 4 + dirty * 2 + accessed, low);
    DivIs(upper * 2 + dirty, 2, upper, dirty);
    DivIs(upper * 4 + dirty * 2 + accessed, 2, upper * 2 + dirty, accessed);
  }

  lemma {:induction false} Decomposed(w: nat)
    ensures w == w / 128 * 128 + w / 64 % 2 * 64 + w / 32 % 2 * 32 + w % 32
  {
    Digits(w, 32, 4);
    Digits(w / 32, 2, 2);
    Digits(w, 32, 2);
    assert w == w / 128 * 128 + w % 128;
  }

  lemma AccessedIsAlike(w: u32)
    ensures Alike(w, SetAccessed(w)) && Accessed(SetAccessed(w))
  {
    Decomposed(w);
    if !Accessed(w) {
      BitsFrom5(w + 32, w / 128, w / 64 % 2, 1, w % 32);
    }
  }

  lemma DirtyIsAlike(w: u32)
    ensures Alike(w, SetDirty(w)) && Dirty(SetDirty(w)) && (Accessed(w) ==> Accessed(SetDirty(w)))
  {
    Decomposed(w);
    if !Dirty(w) {
      BitsFrom5(w + 64, w / 128, 1, w / 32 % 2, w % 32);
    }
  }

  lemma MarkIsAlike(w: u32, dirty: bool)
    ensures Alike(w, Mark(w, dirty))
    ensures Accessed(Mark(w, dirty)) && (dirty ==> Dirty(Mark(w, dirty)))
  {
    AccessedIsAlike(w);
    DirtyIsAlike(SetAccessed(w));
  }

  /** A word after its accessed bit, number 5, has been set, and its dirty bit, number
      6, if so asked. */
  predicate MarkedWord(before: u32, after: u32, dirty: bool) {
    && after / 128 == before / 128 && after % 32 == before % 32
    && after / 32 % 2 == 1 && (after / 64 % 2 == 1 <==> dirty || before / 64 % 2 == 1)
  }

  lemma {:induction false} MarkBits(w: u32, dirty: bool)
    ensures MarkedWord(w, Mark(w, dirty), dirty)
  {
    Decomposed(w);
    BitsFrom5(SetAccessed(w), w / 128, w / 64 % 2, 1, w % 32);
    if dirty {
      BitsFrom5(Mark(w, true), w / 128, 1, 1, w % 32);
    }
  }

  lemma {:induction false} MarkTwice(w: u32, dirty: bool)
    ensures Mark(Mark(w, false), dirty) == Mark(w, dirty)
  {
    MarkIsAlike(w, false);
  }

  /** Two words marked one after the other, which may be one. */
  lemma {:induction false} TwoMarks(m: Memory, at: u32, page: u32, write: bool, x: u32)
    ensures var m1 := Put(m, at, Mark(m(at), false));
            var m' := Put(m1, page, Mark(m1(page), write));
            && MarkedWord(m(page), m'(page), write)
            && (at != page ==> MarkedWord(m(at), m'(at), false))
            && (x != at && x != page ==> m'(x) == m(x))
  {
    MarkBits(m(at), false);
    MarkBits(m(page), write);
    MarkTwice(m(page), write);
  }

  lemma {:induction false} SmallPageEntries(m: Memory, r: Regs, d: nat, t: nat, o: nat)
    requires d < 1024 && t < 1024 && o < 4096
    ensures var addr: u32 := (d * 1024 + t) * 4096 + o;
            PdeAddr(r, addr) == r.cr3 / 4096 * 4096 + 4 * d
            && PteAddr(m(PdeAddr(r, addr)), addr) == EntryAt(m, r.cr3, d) / 4096 * 4096 + 4 * t
  {
    DigitsOfAddress(d, t, o);
  }

  /** A walk marks the two entries used, that of the page dirty for a write, and no
      other word; a table may be its own directory. */
  lemma {:induction false} SmallPageMarks(m: Memory, r: Regs, d: nat, t: nat, o: nat, write: bool, x: u32)
    requires d < 1024 && t < 1024 && o < 4096 && !(r.pse && EntryAt(m, r.cr3, d) / 128 % 2 == 1)
    ensures var at: u32 := r.cr3 / 4096 * 4096 + 4 * d;
            var page: u32 := EntryAt(m, r.cr3, d) / 4096 * 4096 + 4 * t;
            var m' := Marked(m, r, (d * 1024 + t) * 4096 + o, write);
            && MarkedWord(m(page), m'(page), write)
            && (at != page ==> MarkedWord(m(at), m'(at), false))
            && (x != at && x != page ==> m'(x) == m(x))
  {
    SmallPageEntries(m, r, d, t, o);
    var addr: u32 := (d * 1024 + t) * 4096 + o;
    TwoMarks(m, PdeAddr(r, addr), PteAddr(m(PdeAddr(r, addr)), addr), write, x);
  }

  lemma {:induction false} LargePageMarks(m: Memory, r: Regs, d: nat, o: nat, write: bool, x: u32)
    requires d < 1024 && o < 0x40_0000 && r.pse && EntryAt(m, r.cr3, d) / 128 % 2 == 1
    ensures var at: u32 := r.cr3 / 4096 * 4096 + 4 * d;
            var m' := Marked(m, r, d * 0x40_0000 + o, write);
            MarkedWord(m(at), m'(at), false) && (x != at ==> m'(x) == m(x))
  {
    DivIs(d * 0x40_0000 + o, 0x40_0000, d, o);
    MarkBits(EntryAt(m, r.cr3, d), false);
  }

  /** Memories that differ in marks only translate every address alike. */
  lemma SimilarTranslate(m: Memory, m': Memory, r: Regs, addr: u32, write: bool)
    requires Similar(m, m')
    ensures Accessible(m, r, addr, write) <==> Accessible(m', r, addr, write)
    ensures Physical(m, r, addr) == Physical(m', r, addr)
  {
    var d, d' := m(PdeAddr(r, addr)), m'(PdeAddr(r, addr));
    AlikeWords(d, d');
    var t, t' := m(PteAddr(d, addr)), m'(PteAddr(d, addr));
    AlikeWords(t, t');
  }

  lemma SimilarIsTransitive(m: Memory, m': Memory, m'': Memory)
    requires Similar(m, m') && Similar(m', m'')
    ensures Similar(m, m'')
  {
    forall a: u32 ensures Alike(m(a), m''(a)) {
      assert Alike(m(a), m'(a)) && Alike(m'(a), m''(a));
    }
  }

  lemma PutIsSimilar(m: Memory, a: u32, dirty: bool)
    ensures Similar(m, Put(m, a, Mark(m(a), dirty)))
  {
    MarkIsAlike(m(a), dirty);
  }

  lemma MarkedIsSimilar(m: Memory, r: Regs, addr: u32, write: bool)
    ensures Similar(m, Marked(m, r, addr, write))
  {
    var d := PdeAddr(r, addr);
    var m1 := Put(m, d, Mark(m(d), false));
    PutIsSimilar(m, d, false);
    PutIsSimilar(m1, PteAddr(m(d), addr), write);
    SimilarIsTransitive(m, m1, Marked(m, r, addr, write));
  }

  class Mmu {
    var mem: Memory
    var regs: Regs
    var cr2: u32
    var abrt: nat
    var abrtError: nat
    var mmuPerm: bool

    /** A page fault at addr, err being the entry that is to blame. */
    method PageFault(addr: u32, entry: u32, write: bool)
      modifies this`cr2, this`abrt, this`abrtError
      ensures cr2 == addr && abrt == ABRT_PF
      ensures abrtError == FaultCode(Present(entry), write, regs.cpl == 3)
    {
      cr2 := addr;
      abrtError := entry % 2;
      if regs.cpl == 3 {
        abrtError := abrtError + 4;
      }
      if write {
        abrtError := abrtError + 2;
      }
      abrt := ABRT_PF;
    }

    /** mmutranslatereal: translates, marks the entries used, or faults. */
    method Translate(addr: u32, write: bool) returns (r: u32)
      modifies this`mem, this`cr2, this`abrt, this`abrtError, this`mmuPerm
      ensures old(abrt) != 0 ==> r == 0xffff_ffff && mem == old(mem) && cr2 == old(cr2) && abrt == old(abrt)
      ensures old(abrt) == 0 && Accessible(old(mem), regs, addr, write) ==>
                && r == Physical(old(mem), regs, addr) && abrt == 0 && cr2 == old(cr2)
                && mem == Marked(old(mem), regs, addr, write) && mmuPerm == ForUser(Leaf(old(mem), regs, addr))
      ensures old(abrt) == 0 && !Accessible(old(mem), regs, addr, write) ==>
                && r == 0xffff_ffff && mem == old(mem) && cr2 == addr && abrt == 14
                && abrtError == (if Leaf(old(mem), regs, addr) % 2 == 1 then 1 else 0)
                                + (if write then 2 else 0) + (if regs.cpl == 3 then 4 else 0)
    {
      if abrt != 0 {
        return NOWHERE;
      }
      var temp2 := mem(PdeAddr(regs, addr));
      if !Present(temp2) {
        PageFault(addr, temp2, write);
        return NOWHERE;
      }
      if IsLarge(regs, temp2) {
        r := TranslateLarge(addr, write, temp2);
      } else {
        r := TranslateSmall(addr, write, temp2);
      }
    }

    /** The branch for 4 MB pages. */
    method TranslateLarge(addr: u32, write: bool, temp2: u32) returns (r: u32)
      requires abrt == 0 && temp2 == mem(PdeAddr(regs, addr)) && Present(temp2) && IsLarge(regs, temp2)
      modifies this`mem, this`cr2, this`abrt, this`abrtError, this`mmuPerm
      ensures Accessible(old(mem), regs, addr, write) ==>
                && r == Physical(old(mem), regs, addr) && abrt == 0 && cr2 == old(cr2)
                && mem == Marked(old(mem), regs, addr, write) && mmuPerm == ForUser(Leaf(old(mem), regs, addr))
      ensures !Accessible(old(mem), regs, addr, write) ==>
                && r == NOWHERE && mem == old(mem) && cr2 == addr && abrt == ABRT_PF
                && abrtError == FaultCode(Present(Leaf(old(mem), regs, addr)), write, regs.cpl == 3)
    {
      if (regs.cpl == 3 && !ForUser(temp2) && !regs.cplOverride)
         || (write && !Writable(temp2) && ((regs.cpl == 3 && !regs.cplOverride) || regs.wp)) {
        PageFault(addr, temp2, write);
        return NOWHERE;
      }
      var addr2 := PdeAddr(regs, addr);
      mmuPerm := ForUser(temp2);
      mem := Put(mem, addr2, Mark(mem(addr2), false));
      r := InLargePage(temp2, addr);
    }

    /** The rest of the walk, for 4 KB pages. */
    method TranslateSmall(addr: u32, write: bool, temp2: u32) returns (r: u32)
      requires abrt == 0 && temp2 == mem(PdeAddr(regs, addr)) && Present(temp2) && !IsLarge(regs, temp2)
      modifies this`mem, this`cr2, this`abrt, this`abrtError, this`mmuPerm
      ensures Accessible(old(mem), regs, addr, write) ==>
                && r == Physical(old(mem), regs, addr) && abrt == 0 && cr2 == old(cr2)
                && mem == Marked(old(mem), regs, addr, write) && mmuPerm == ForUser(Leaf(old(mem), regs, addr))
      ensures !Accessible(old(mem), regs, addr, write) ==>
                && r == NOWHERE && mem == old(mem) && cr2 == addr && abrt == ABRT_PF
                && abrtError == FaultCode(Present(Leaf(old(mem), regs, addr)), write, regs.cpl == 3)
    {
      var addr2 := PdeAddr(regs, addr);
      var temp := mem(PteAddr(temp2, addr));
      if !Present(temp) || (regs.cpl == 3 && !(ForUser(temp) && ForUser(temp2)) && !regs.cplOverride)
         || (write && !(Writable(temp) && Writable(temp2)) && ((regs.cpl == 3 && !regs.cplOverride) || regs.wp)) {
        PageFault(addr, temp, write);
        return NOWHERE;
      }
      mmuPerm := ForUser(temp);
      mem := Put(mem, addr2, Mark(mem(addr2), false));
      mem := Put(mem, PteAddr(temp2, addr), Mark(mem(PteAddr(temp2, addr)), write));
      r := InPage(temp, addr);
    }

    /** mmutranslate_noabrt: the same walk without marks or faults. */
    method Probe(addr: u32, write: bool) returns (r: u32)
      ensures r == if abrt == 0 then Probing(mem, regs, addr, write) else NOWHERE
    {
      if abrt != 0 {
        return NOWHERE;
      }
      var temp2 := mem(PdeAddr(regs, addr));
      if !Present(temp2) {
        return NOWHERE;
      }
      if IsLarge(regs, temp2) {
        if (regs.cpl == 3 && !ForUser(temp2) && !regs.cplOverride)
           || (write && !Writable(temp2) && (regs.cpl == 3 || regs.wp)) {
          return NOWHERE;
        }
        return InLargePage(temp2, addr);
      }
      var temp := mem(PteAddr(temp2, addr));
      if !Present(temp) || (regs.cpl == 3 && !(ForUser(temp) && ForUser(temp2)) && !regs.cplOverride)
         || (write && !(Writable(temp) && Writable(temp2)) && (regs.cpl == 3 || regs.wp)) {
        return NOWHERE;
      }
      r := InPage(temp, addr);
    }

    /** Any sequence of translations, the CPU clearing each fault: every request is
        answered as the tables stood at the beginning, and memory has changed in
        accessed and dirty bits only, so that no translation is different. */
    method Run(requests: seq<(u32, bool)>) returns (results: seq<u32>)
      requires abrt == 0
      modifies this`mem, this`cr2, this`abrt, this`abrtError, this`mmuPerm
      ensures |results| == |requests| && abrt == 0
      ensures forall i | 0 <= i < |requests| ::
                results[i] == Translation(old(mem), regs, requests[i].0, requests[i].1)
      ensures Similar(old(mem), mem)
      ensures forall a: u32, w: bool, r: Regs :: Translation(mem, r, a, w) == Translation(old(mem), r, a, w)
    {
      results := [];
      ghost var m0 := mem;
      for n := 0 to |requests|
        invariant abrt == 0 && |results| == n && Similar(m0, mem)
        invariant forall i | 0 <= i < n :: results[i] == Translation(m0, regs, requests[i].0, requests[i].1)
      {
        var (addr, write) := requests[n];
        ghost var m := mem;
        SimilarTranslate(m0, m, regs, addr, write);
        var r := Translate(addr, write);
        results := results + [r];
        abrt := 0;
        ghost var m' := Marked(m, regs, addr, write);
        MarkedIsSimilar(m, regs, addr, write);
        SimilarIsTransitive(m0, m, m');
      }
      forall a: u32, w: bool, r: Regs ensures Translation(mem, r, a, w) == Translation(m0, r, a, w) {
        SimilarTranslate(m0, mem, r, a, w);
      }
    }
  }

  /** The access check of the probing walk. */
  predicate Probed(m: Memory, r: Regs, addr: u32, write: bool) {
    var pde := m(PdeAddr(r, addr));
    var pte := m(PteAddr(pde, addr));
    var large := IsLarge(r, pde);
    && Accessible(m, r, addr, write)
    && (write && r.cpl == 3 ==> Writable(pde) && (large || Writable(pte)))
  }

  /** What the probing walk returns. */
  function Probing(m: Memory, r: Regs, addr: u32, write: bool): u32 {
    if Probed(m, r, addr, write) then Physical(m, r, addr) else NOWHERE
  }

  /** An overridden user-mode write to an entry it may not write, write protection
      being off. */
  predicate Overridden(m: Memory, r: Regs, addr: u32, write: bool) {
    var pde := m(PdeAddr(r, addr));
    var pte := m(PteAddr(pde, addr));
    && write && r.cpl == 3 && r.cplOverride && !r.wp && Present(pde)
    && (!IsLarge(r, pde) ==> Present(pte)) && !(Writable(pde) && (IsLarge(r, pde) || Writable(pte)))
  }

  /** The two walks return the same address but for such a write, unless the address
      is the one that stands for none. */
  lemma WalksAgree(m: Memory, r: Regs, addr: u32, write: bool)
    ensures Translation(m, r, addr, write) == Probing(m, r, addr, write) <==>
            !Overridden(m, r, addr, write) || Physical(m, r, addr) == NOWHERE
    ensures !r.cplOverride ==> Translation(m, r, addr, write) == Probing(m, r, addr, write)
  {
  }

  /** Tables that are present and no more: user mode, overridden, writes to address 0
      by one walk and is turned away by the other. */
  lemma {:induction false} WalksDiffer()
    ensures var m: Memory, r := a => 1, Regs(false, 0, false, 3, true);
            Translation(m, r, 0, true) == 0 && Probing(m, r, 0, true) == NOWHERE
  {
    var m: Memory, r := a => 1, Regs(false, 0, false, 3, true);
    assert Overridden(m, r, 0, true);
    WalksAgree(m, r, 0, true);
  }
}
