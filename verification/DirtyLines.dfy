/** The dirty masks that tell translated code of writes to the memory it was
    translated from: a 64-bit mask for each 1 KB group, a bit for each 16 bytes.
    A mask is modelled as the set of the positions of its one bits. */
module DirtyLines {
  import opened Arith
  import opened Words

  const GROUP := 1024

  /** mask << 1, which loses the top bit of 64 */
  function ShiftLeft(mask: set<nat>): set<nat> {
    set b | b in mask && b + 1 < 64 :: b + 1
  }

  /** Does an access of n bytes at a leave its 1 KB group? */
  predicate LeavesGroup(a: nat, n: nat) {
    a % GROUP + n > GROUP
  }

  /** The position of the bit of address i in the mask of its group. */
  function Bit(i: nat): (b: nat)
    ensures b < 64
  {
    i % GROUP / 16
  }

  ghost predicate IsDirty(dirty: seq<set<nat>>, i: nat) {
    i / GROUP < |dirty| && Bit(i) in dirty[i / GROUP]
  }

  /** Every byte whose line is clean is as it was when the mask was cleared. */
  ghost predicate Safe(ram: seq<byte>, clean: seq<byte>, dirty: seq<set<nat>>) {
    |ram| == |clean| == |dirty| * GROUP && forall i | 0 <= i < |ram| :: ram[i] == clean[i] || IsDirty(dirty, i)
  }

  /** Memory with bytes vals stored from a on. */
  function Stored(ram: seq<byte>, a: nat, vals: seq<byte>): (r: seq<byte>)
    requires a + |vals| <= |ram|
    ensures |r| == |ram|
    ensures forall i | 0 <= i < |ram| :: r[i] == if a <= i < a + |vals| then vals[i - a] else ram[i]
  {
    ram[..a] + vals + ram[a + |vals|..]
  }

  /** Some byte of the access lies in the next group, in a line that is clean, and
      is about to change. */
  ghost predicate Escapes(ram: seq<byte>, dirty: seq<set<nat>>, a: nat, vals: seq<byte>)
    requires a + |vals| <= |ram|
  {
    exists j | 0 <= j < |vals| :: a % GROUP + j >= GROUP && vals[j] != ram[a + j] && !IsDirty(dirty, a + j)
  }

  /** The mask marks every line the access touches within its group. */
  ghost predicate Covers(mask: set<nat>, a: nat, n: nat) {
    forall i | a <= i < a + n && i / GROUP == a / GROUP :: Bit(i) in mask
  }

  /** The mask the handlers compute from the offset in the page. */
  function MaskOf(off: nat, two: bool): set<nat> {
    var mask := {off / 16 % 64};
    if two then mask + ShiftLeft(mask) else mask
  }

  /** A few bytes on, an address is in the same group or the next. */
  lemma {:induction false} GroupOf(a: nat, j: nat)
    requires j < GROUP
    ensures a % GROUP + j < GROUP ==> (a + j) / GROUP == a / GROUP && (a + j) % GROUP == a % GROUP + j
    ensures a % GROUP + j >= GROUP ==> (a + j) / GROUP == a / GROUP + 1
  {
    if a % GROUP + j < GROUP {
      DivIs(a + j, GROUP, a / GROUP, a % GROUP + j);
    } else {
      DivIs(a + j, GROUP, a / GROUP + 1, a % GROUP + j - GROUP);
    }
  }

  /** The position is the same whether counted in the page or in memory. */
  lemma {:induction false} BitInPage(page: nat, off: nat)
    requires off < 4096
    ensures (page * 4096 + off) % GROUP == off % GROUP && (page * 4096 + off) / GROUP == page * 4 + off / GROUP
    ensures Bit(page * 4096 + off) == off / 16 % 64
  {
    DivIs(page * 4096 + off, GROUP, page * 4 + off / GROUP, off % GROUP);
    DivIs(off / 16, 64, off / GROUP, off % GROUP / 16);
  }

  /** One bit suffices for an access within a line, two for one that does not;
      the second is lost only together with the bytes it stands for. */
  lemma {:induction false} MaskCovers(page: nat, off: nat, n: nat, two: bool)
    requires off < 4096 && 1 <= n <= 4 && (off % 16 + n > 16 ==> two)
    ensures Covers(MaskOf(off, two), page * 4096 + off, n)
  {
    var a := page * 4096 + off;
    BitInPage(page, off);
    var b := off / 16 % 64;
    forall i | a <= i < a + n && i / GROUP == a / GROUP ensures Bit(i) in MaskOf(off, two) {
      var j := i - a;
      GroupOf(a, j);
      NextLine(off % GROUP, j);
      BitOfOffset(off);
      assert Bit(i) == b || (two && Bit(i) == b + 1);
    }
  }

  /** Of the lines of a group the mask marks those with a byte of the access. */
  lemma {:induction false} MaskIsExact(page: nat, off: nat, n: nat, two: bool, i: nat)
    requires off < 4096 && 1 <= n <= 4 && (two <==> off % 16 + n > 16) && i / GROUP == (page * 4096 + off) / GROUP
    ensures var a := page * 4096 + off; Bit(i) in MaskOf(off, two) <==> a / 16 <= i / 16 <= (a + n - 1) / 16
  {
    var a := page * 4096 + off;
    BitInPage(page, off);
    LineOfByte(i, i / 16);
    LineOfByte(a, a / 16);
    assert i / 16 == i / 16 / 64 * 64 + i / 16 % 64 && a / 16 == a / 16 / 64 * 64 + a / 16 % 64;
    assert a % 16 == off % 16 by {
      DivIs(a, 16, page * 256 + off / 16, off % 16);
    }
    NextLine(a, n - 1);
  }

  lemma {:induction false} NextLine(a: nat, j: nat)
    requires j < 16
    ensures (a + j) / 16 == a / 16 + if a % 16 + j >= 16 then 1 else 0
  {
    if a % 16 + j >= 16 {
      DivIs(a + j, 16, a / 16 + 1, a % 16 + j - 16);
    } else {
      DivIs(a + j, 16, a / 16, a % 16 + j);
    }
  }

  /** Is byte i in a line, in the group of a, that an access of n bytes at a reaches? */
  predicate Reaches(a: nat, n: nat, i: nat)
    requires n > 0
  {
    i / 1024 == a / 1024 && a / 16 <= i / 16 <= (a + n - 1) / 16
  }

  /** What the mask marks in the masks of all groups. */
  lemma {:induction false} MarkedLines(before: seq<set<nat>>, after: seq<set<nat>>, page: nat, off: nat, n: nat,
                                       two: bool, i: nat)
    requires off < 4096 && 1 <= n <= 4 && (two <==> off % 16 + n > 16)
    requires var g := (page * 4096 + off) / GROUP; g < |before| && after == before[g := before[g] + MaskOf(off, two)]
    ensures IsDirty(after, i) <==> IsDirty(before, i) || Reaches(page * 4096 + off, n, i)
  {
    if i / GROUP == (page * 4096 + off) / GROUP {
      MaskIsExact(page, off, n, two, i);
    }
  }

  lemma {:induction false} AllMarked(before: seq<set<nat>>, after: seq<set<nat>>, page: nat, off: nat, n: nat,
                                     two: bool)
    requires off < 4096 && 1 <= n <= 4 && (two <==> off % 16 + n > 16)
    requires var g := (page * 4096 + off) / GROUP; g < |before| && after == before[g := before[g] + MaskOf(off, two)]
    ensures forall i: nat :: IsDirty(after, i) <==> IsDirty(before, i) || Reaches(page * 4096 + off, n, i)
  {
    forall i: nat ensures IsDirty(after, i) <==> IsDirty(before, i) || Reaches(page * 4096 + off, n, i) {
      MarkedLines(before, after, page, off, n, two, i);
    }
  }

  lemma {:induction false} BitOfOffset(off: nat)
    requires off < 4096
    ensures off % GROUP % 16 == off % 16 && off % GROUP / 16 == off / 16 % 64
  {
    BitInPage(0, off);
    DivIs(off % GROUP, 16, off % GROUP / 16, off % 16);
  }

  /** A store with a covering mask keeps clean lines clean, if and only if no
      changed byte escapes into the next group. */
  lemma {:induction false} StoreIsSafe(ram: seq<byte>, clean: seq<byte>, dirty: seq<set<nat>>,
                                       a: nat, vals: seq<byte>, mask: set<nat>)
    requires Safe(ram, clean, dirty) && a + |vals| <= |ram| && 0 < |vals| <= 4 && Covers(mask, a, |vals|)
    ensures a / GROUP < |dirty|
    ensures Safe(Stored(ram, a, vals), clean, dirty[a / GROUP := dirty[a / GROUP] + mask]) <==>
            !Escapes(ram, dirty, a, vals)
  {
  }

  /** A store that changes nothing is safe with any mask. */
  lemma {:induction false} NoChange(ram: seq<byte>, dirty: seq<set<nat>>, a: nat, vals: seq<byte>)
    requires a + |vals| <= |ram| && forall j | 0 <= j < |vals| :: vals[j] == ram[a + j]
    ensures Stored(ram, a, vals) == ram && !Escapes(ram, dirty, a, vals)
  {
  }

  lemma {:induction false} StaysInGroup(ram: seq<byte>, dirty: seq<set<nat>>, a: nat, vals: seq<byte>)
    requires a + |vals| <= |ram| && !LeavesGroup(a, |vals|)
    ensures !Escapes(ram, dirty, a, vals)
  {
  }

  /** Where a line's bit is. */
  lemma {:induction false} LineIsBit(c: nat, k: nat)
    requires c == 16 * k
    ensures c / 4096 * 4 + c / 1024 % 4 == c / GROUP == k / 64 && c / 16 % 64 == k % 64
  {
    Digits(c, 1024, 4);
    Digits(c, 16, 64);
  }

  lemma {:induction false} LineOfByte(i: nat, k: nat)
    ensures i / 16 == k <==> i / GROUP == k / 64 && Bit(i) == k % 64
  {
    Digits(i, 16, 64);
    DivIs(i % GROUP, 16, i / 16 % 64, i % 16);
  }

  class CodeRam {
    const pages: nat
    const ram: array<byte>
    const dirty: array<set<nat>>     // indexed by group: page number times four plus group in the page
    ghost var clean: seq<byte>       // each byte as it was when its group's mask was last cleared

    constructor (pages: nat)
      ensures Valid() && fresh(ram) && fresh(dirty) && ram.Length == pages * 4096
      ensures forall i | 0 <= i < ram.Length :: ram[i] == 0 && !IsDirty(dirty[..], i)
    {
      this.pages := pages;
      ram := new byte[pages * 4096](_ => 0);
      dirty := new set<nat>[pages * 4](_ => {});
      clean := seq(pages * 4096, _ => 0);
    }

    ghost predicate Valid()
      reads this`clean, ram, dirty
    {
      dirty.Length == pages * 4 && Safe(ram[..], clean, dirty[..])
    }

    /** The bytes and the mask bits of one access. */
    method Commit(a: nat, vals: seq<byte>, mask: set<nat>)
      requires Valid() && a + |vals| <= ram.Length && 0 < |vals| <= 4 && Covers(mask, a, |vals|)
      modifies ram, dirty
      ensures ram[..] == Stored(old(ram[..]), a, vals)
      ensures a / GROUP < dirty.Length && dirty[..] == old(dirty[..])[a / GROUP := old(dirty[..])[a / GROUP] + mask]
      ensures Valid() <==> !Escapes(old(ram[..]), old(dirty[..]), a, vals)
    {
      StoreIsSafe(ram[..], clean, dirty[..], a, vals, mask);
      ghost var masks := dirty[..];
      dirty[a / GROUP] := dirty[a / GROUP] + mask;
      assert dirty[..] == masks[a / GROUP := masks[a / GROUP] + mask];
      PutBytes(a, vals);
    }

    method PutBytes(a: nat, vals: seq<byte>)
      requires a + |vals| <= ram.Length
      modifies ram
      ensures ram[..] == Stored(old(ram[..]), a, vals)
    {
      for j := 0 to |vals|
        invariant forall i | 0 <= i < ram.Length :: ram[i] == if a <= i < a + j then vals[i - a] else old(ram[i])
      {
        ram[a + j] := vals[j];
      }
    }

    /** What a store of vals at a does, and when it is safe. */
    twostate predicate StoredAt(a: nat, vals: seq<byte>)
      requires a + |vals| <= ram.Length
      reads this`clean, ram, dirty
    {
      && ram[..] == Stored(old(ram[..]), a, vals)
      && (Valid() <==> !Escapes(old(ram[..]), old(dirty[..]), a, vals))
      && (!LeavesGroup(a, |vals|) ==> Valid())
      && (forall g | 0 <= g < dirty.Length :: old(dirty[g]) <= dirty[g])
      && (forall i | a <= i < a + |vals| && i / GROUP == a / GROUP && ram[i] != old(ram[i]) :: IsDirty(dirty[..], i))
    }

    /** Which lines an access of n bytes at a marks, if it stores at all: those of its
        bytes in its group, and no others. */
    twostate predicate Marks(a: nat, n: nat, stores: bool)
      requires n > 0
      reads ram, dirty
    {
      forall i | 0 <= i < ram.Length ::
        IsDirty(dirty[..], i) <==> old(IsDirty(dirty[..], i)) || (stores && Reaches(a, n, i))
    }

    /** mem_write_ramb_page */
    method WriteB(page: nat, off: nat, val: byte, recompiling: bool)
      requires Valid() && off < 4096 && page * 4096 + off < ram.Length
      modifies ram, dirty
      ensures Valid() && ram[..] == old(ram[..])[page * 4096 + off := val] && StoredAt(page * 4096 + off, [val])
      ensures Marks(page * 4096 + off, 1, recompiling || val != old(ram[page * 4096 + off]))
    {
      var a := page * 4096 + off;
      BitInPage(page, off);
      if val != ram[a] || recompiling {
        MaskCovers(page, off, 1, false);
        StaysInGroup(ram[..], dirty[..], a, [val]);
        ghost var masks := dirty[..];
        Commit(a, [val], MaskOf(off, false));
        AllMarked(masks, dirty[..], page, off, 1, false);
      }
    }

    /** Commit, with the lines it marks. */
    method CommitMarks(page: nat, off: nat, vals: seq<byte>, two: bool)
      requires Valid() && off < 4096 && page * 4096 + off + |vals| <= ram.Length
      requires 2 <= |vals| <= 4 && (two <==> off % 16 + |vals| > 16)
      requires Covers(MaskOf(off, two), page * 4096 + off, |vals|)
      modifies ram, dirty
      ensures var a := page * 4096 + off;
              && ram[..] == Stored(old(ram[..]), a, vals) && Marks(a, |vals|, true) && a / GROUP < dirty.Length
              && dirty[..] == old(dirty[..])[a / GROUP := old(dirty[..])[a / GROUP] + MaskOf(off, two)]
              && (Valid() <==> !Escapes(old(ram[..]), old(dirty[..]), a, vals))
    {
      ghost var masks := dirty[..];
      Commit(page * 4096 + off, vals, MaskOf(off, two));
      AllMarked(masks, dirty[..], page, off, |vals|, two);
    }

    /** The branch of the word handlers that stores; two says that the access may
        touch a second line. */
    method CommitAt(page: nat, off: nat, vals: seq<byte>, two: bool)
      requires Valid() && off < 4096 && page * 4096 + off + |vals| <= ram.Length
      requires 2 <= |vals| <= 4 && (two <==> off % 16 + |vals| > 16)
      modifies ram, dirty
      ensures StoredAt(page * 4096 + off, vals) && Marks(page * 4096 + off, |vals|, true)
    {
      var a := page * 4096 + off;
      if !LeavesGroup(a, |vals|) {
        StaysInGroup(ram[..], dirty[..], a, vals);
      }
      MaskCovers(page, off, |vals|, two);
      CommitMarks(page, off, vals, two);
    }

    /** The branch that finds nothing to store. */
    lemma NothingStored(a: nat, vals: seq<byte>)
      requires Valid() && a + |vals| <= ram.Length && forall j | 0 <= j < |vals| :: vals[j] == ram[a + j]
      ensures ram[..] == Stored(ram[..], a, vals) && !Escapes(ram[..], dirty[..], a, vals)
    {
      NoChange(ram[..], dirty[..], a, vals);
    }

    /** mem_write_ramw_page: safe just when no changed byte escapes the group. */
    method WriteW(page: nat, off: nat, lo: byte, hi: byte, recompiling: bool)
      requires Valid() && off < 4096 && page * 4096 + off + 2 <= ram.Length
      modifies ram, dirty
      ensures StoredAt(page * 4096 + off, [lo, hi])
      ensures var a := page * 4096 + off;
              Marks(a, 2, recompiling || lo != old(ram[a]) || hi != old(ram[a + 1]))
    {
      var a := page * 4096 + off;
      if lo != ram[a] || hi != ram[a + 1] || recompiling {
        CommitAt(page, off, [lo, hi], off % 16 == 15);
      } else {
        NothingStored(a, [lo, hi]);
      }
    }

    /** mem_write_raml_page, likewise. */
    method WriteL(page: nat, off: nat, vals: seq<byte>, recompiling: bool)
      requires Valid() && off < 4096 && page * 4096 + off + 4 <= ram.Length && |vals| == 4
      modifies ram, dirty
      ensures StoredAt(page * 4096 + off, vals)
      ensures var a := page * 4096 + off;
              Marks(a, 4, recompiling || exists j | 0 <= j < 4 :: vals[j] != old(ram[a + j]))
    {
      var a := page * 4096 + off;
      if vals[0] != ram[a] || vals[1] != ram[a + 1] || vals[2] != ram[a + 2] || vals[3] != ram[a + 3] || recompiling {
        CommitAt(page, off, vals, off % 16 >= 13);
      } else {
        NothingStored(a, vals);
      }
    }

    /** mem_invalidate_range: marks every line from the 64-byte block of first to
        the end of that of last, and the line after it, as far as RAM reaches. */
    method InvalidateRange(first: nat, last: nat)
      requires Valid()
      modifies dirty
      ensures Valid()
      ensures forall i | 0 <= i < ram.Length ::
                IsDirty(dirty[..], i) <==>
                  old(IsDirty(dirty[..], i)) || first / 64 * 4 <= i / 16 <= (last + 63) / 64 * 4
    {
      var c, end := first / 64 * 64, (last + 63) / 64 * 64;
      ghost var masks, k, k0, kEnd := dirty[..], first / 64 * 4, first / 64 * 4, (last + 63) / 64 * 4;
      while c <= end
        invariant k0 <= k && c == 16 * k && end == 16 * kEnd
        invariant forall i | 0 <= i < ram.Length ::
                    IsDirty(dirty[..], i) <==> IsDirty(masks, i) || (k0 <= i / 16 <= kEnd && i / 16 < k)
      {
        if c / 4096 < pages {
          MarkLine(c, k);
        } else {
          PastEnd(c, k);
        }
        c := c + 16;
        k := k + 1;
      }
    }

    /** A line of a page outside RAM is the line of no byte. */
    lemma PastEnd(c: nat, k: nat)
      requires ram.Length == pages * 4096 && c == 16 * k && c / 4096 >= pages
      ensures forall i | 0 <= i < ram.Length :: i / 16 != k
    {
    }

    /** Sets the bit of line k, which begins at c. */
    method MarkLine(c: nat, ghost k: nat)
      requires ram.Length == dirty.Length * GROUP && dirty.Length == pages * 4 && c == 16 * k && c / 4096 < pages
      modifies dirty
      ensures forall i | 0 <= i < ram.Length :: IsDirty(dirty[..], i) <==> old(IsDirty(dirty[..], i)) || i / 16 == k
    {
      var mask := {c / 16 % 64};
      LineIsBit(c, k);
      forall i: nat
        ensures i / 16 == k <==> i / GROUP == c / GROUP && Bit(i) == c / 16 % 64
      {
        LineOfByte(i, k);
      }
      dirty[c / 4096 * 4 + c / 1024 % 4] := dirty[c / 4096 * 4 + c / 1024 % 4] + mask;
    }

    /** The code of a group has been thrown out: its mask is cleared. */
    method ClearGroup(g: nat)
      requires Valid() && g < dirty.Length
      modifies this`clean, dirty
      ensures Valid() && dirty[..] == old(dirty[..])[g := {}]
      ensures forall i | 0 <= i < ram.Length :: clean[i] == if i / GROUP == g then ram[i] else old(clean[i])
    {
      ghost var before := clean;
      dirty[g] := {};
      ghost var now := ram[..];
      clean := seq(|before|, i requires 0 <= i < |before| && i < |now| => if i / GROUP == g then now[i] else before[i]);
      forall i | 0 <= i < ram.Length ensures ram[i] == clean[i] || IsDirty(dirty[..], i) {
        assert old(ram[i] == clean[i] || IsDirty(dirty[..], i));
      }
    }
  }

  /** The second mask bit is lost at the end of a group: storing a word there changes
      a clean line of the next group unnoticed. */
  method WordEscapes(m: CodeRam)
    requires m.Valid() && m.ram.Length >= 2048 && m.ram[1024] == 0 && !IsDirty(m.dirty[..], 1024)
    modifies m.ram, m.dirty
    ensures m.StoredAt(1023, [0, 1]) && !m.Valid()
  {
    ghost var ram, dirty := m.ram[..], m.dirty[..];
    m.WriteW(0, 1023, 0, 1, false);
    assert [0, 1][1] != ram[1023 + 1] && !IsDirty(dirty, 1023 + 1);
    assert Escapes(ram, dirty, 1023, [0, 1]);
  }

  /** Fresh RAM is such a state. */
  method FreshWordEscapes() returns (m: CodeRam)
    ensures fresh(m) && m.pages == 1 && m.ram.Length == 4096 && !m.Valid()
    ensures forall i | 0 <= i < 4096 :: m.ram[i] == if i == 1024 then 1 else 0
  {
    m := new CodeRam(1);
    ghost var ram := m.ram[..];
    assert ram[1024] == 0;
    label built:
    WordEscapes(m);
    assert m.ram[..] == Stored(ram, 1023, [0, 1]);
  }
}
