/** The software translation caches: two tables with an entry for each of the
    2^20 virtual pages, and for each table a ring of 256 slots that lists the
    pages whose entries may be live, so that a flush need not visit them all. */
module Lookup {

  const SLOTS := 256
  const PAGES := 0x10_0000
  const NO_PAGE := 0xffff_ffff

  /** A host pointer relative to the start of RAM; adding a virtual address of the
      page gives the position of its byte in RAM. */
  datatype Host = Dead | Live(offset: int)

  function PageBase(addr: int): int {
    addr - addr % 4096
  }

  /** The pointer stored for physical page phys seen at virtual address virt. */
  function Pointer(virt: nat, phys: nat): Host {
    Live(PageBase(phys) - PageBase(virt))
  }

  class Caches {
    const readlookup: array<int>
    const readlookup2: array<Host>
    var readlnext: nat
    const writelookup: array<int>
    const writelookup2: array<Host>
    const pageLookup: array<int>       // number of the page whose handlers take the write, or -1
    var writelnext: nat

    ghost predicate Shape()
      reads this`readlnext, this`writelnext
    {
      && readlookup.Length == writelookup.Length == SLOTS && readlookup != writelookup
      && readlookup2.Length == writelookup2.Length == pageLookup.Length == PAGES
      && readlookup2 != writelookup2 && pageLookup != readlookup && pageLookup != writelookup
      && readlnext < SLOTS && writelnext < SLOTS
    }

    /** Slots in use and live read entries correspond one to one. */
    ghost predicate ReadBijection()
      requires Shape()
      reads this`readlnext, this`writelnext, readlookup, readlookup2
    {
      && (forall c | 0 <= c < SLOTS && readlookup[c] != -1 ::
           0 <= readlookup[c] < PAGES && readlookup2[readlookup[c]].Live?)
      && (forall c, d | 0 <= c < d < SLOTS && readlookup[c] != -1 :: readlookup[c] != readlookup[d])
      && (forall v | 0 <= v < PAGES && readlookup2[v].Live? :: v in readlookup[..])
    }

    ghost predicate WriteLive(v: nat)
      requires v < writelookup2.Length && v < pageLookup.Length
      reads writelookup2, pageLookup
    {
      writelookup2[v].Live? || pageLookup[v] != -1
    }

    /** Every live write entry is listed in some slot. */
    ghost predicate WriteCoverage()
      requires Shape()
      reads this`readlnext, this`writelnext, writelookup, writelookup2, pageLookup
    {
      && (forall c | 0 <= c < SLOTS && writelookup[c] != -1 :: 0 <= writelookup[c] < PAGES)
      && (forall v | 0 <= v < PAGES && WriteLive(v) :: v in writelookup[..])
    }

    ghost predicate Valid()
      reads this`readlnext, this`writelnext, readlookup, readlookup2, writelookup, writelookup2, pageLookup
    {
      Shape() && ReadBijection() && WriteCoverage()
    }

    /** resetreadlookup */
    constructor ()
      ensures Valid() && fresh(readlookup) && fresh(readlookup2) && fresh(writelookup) && fresh(writelookup2)
              && fresh(pageLookup)
      ensures forall v | 0 <= v < PAGES :: readlookup2[v].Dead? && !WriteLive(v)
    {
      readlookup := new int[SLOTS](_ => -1);
      readlookup2 := new Host[PAGES](_ => Dead);
      writelookup := new int[SLOTS](_ => -1);
      writelookup2 := new Host[PAGES](_ => Dead);
      pageLookup := new int[PAGES](_ => -1);
      readlnext, writelnext := 0, 0;
    }

    /** The slots of a ring after slot k has been overwritten with page p. */
    static lemma Relisted(before: seq<int>, after: seq<int>, k: nat, p: int, v: int)
      requires k < |before| && after == before[k := p] && v in before && v != before[k]
      ensures v in after
    {
      var c :| 0 <= c < |before| && before[c] == v;
      assert after[c] == v;
    }

    static lemma StillListed(slots: seq<int>, v: int)
      requires v in slots && v != slots[0]
      ensures v in slots[1..]
    {
      var c :| 0 <= c < |slots| && slots[c] == v;
      assert slots[1..][c - 1] == v;
    }

    /** Enters the read pointer of a page; the entry whose slot is taken over dies. */
    method AddRead(virt: nat, phys: nat)
      requires Valid() && virt < 0x1_0000_0000
      modifies this`readlnext, readlookup, readlookup2
      ensures Valid()
      ensures virt == NO_PAGE ==> readlookup2[..] == old(readlookup2[..])
      ensures virt != NO_PAGE ==>
                readlookup2[virt / 4096] ==
                  if old(readlookup2[virt / 4096]).Live? then old(readlookup2[virt / 4096]) else Pointer(virt, phys)
      ensures forall v | 0 <= v < PAGES && v != virt / 4096 ::
                readlookup2[v] == old(readlookup2[v]) || (readlookup2[v].Dead? && v == old(readlookup[readlnext]))
      // the ring moves on just when a page is entered
      ensures if virt == NO_PAGE || old(readlookup2[virt / 4096]).Live? then
                readlookup2[..] == old(readlookup2[..]) && readlookup[..] == old(readlookup[..])
                    && readlnext == old(readlnext)
              else
                readlookup[..] == old(readlookup[..])[old(readlnext) := virt / 4096]
                    && readlnext == (old(readlnext) + 1) % SLOTS
    {
      if virt == NO_PAGE {
        return;
      }
      if readlookup2[virt / 4096].Live? {
        return;
      }
      ghost var slots := readlookup[..];
      if readlookup[readlnext] != -1 {
        readlookup2[readlookup[readlnext]] := Dead;
      }
      readlookup2[virt / 4096] := Pointer(virt, phys);
      readlookup[readlnext] := virt / 4096;
      forall v | 0 <= v < PAGES && readlookup2[v].Live? ensures v in readlookup[..] {
        if v == virt / 4096 {
          assert readlookup[..][readlnext] == v;
        } else {
          Relisted(slots, readlookup[..], readlnext, virt / 4096, v);
        }
      }
      readlnext := (readlnext + 1) % SLOTS;
    }

    /** The ring is first in, first out: a page entered at slot s, the last one
        before the next slot to be taken, outlives 255 further requests. */
    method AddReads(requests: seq<(nat, nat)>, s: nat)
      requires Valid() && |requests| < 256 && s < 256 && readlnext == (s + 1) % 256 && readlookup[s] != -1
      requires forall i | 0 <= i < |requests| :: requests[i].0 < 0x1_0000_0000
      modifies this`readlnext, readlookup, readlookup2
      ensures Valid() && readlookup[s] == old(readlookup[s])
      ensures readlookup2[readlookup[s]] == old(readlookup2[readlookup[s]]) && readlookup2[readlookup[s]].Live?
    {
      ghost var v := readlookup[s];
      ghost var taken := 0;
      for i := 0 to |requests|
        invariant Valid() && taken <= i && readlnext == (s + 1 + taken) % SLOTS
        invariant readlookup[s] == v && readlookup2[v] == old(readlookup2[readlookup[s]])
      {
        ghost var next := readlnext;
        NotYet(s, taken);
        assert readlnext != s;
        AddRead(requests[i].0, requests[i].1);
        taken := taken + if readlnext == next then 0 else 1;
      }
    }

    static lemma NotYet(s: nat, taken: nat)
      requires s < SLOTS && taken < SLOTS - 1
      ensures (s + 1 + taken) % SLOTS != s && ((s + 1 + taken) % SLOTS + 1) % SLOTS == (s + 1 + (taken + 1)) % SLOTS
      ensures ((s + 1 + taken) % SLOTS + 1) % SLOTS != (s + 1 + taken) % SLOTS
    {
    }

    /** Enters the write pointer of a page, or its handlers if the page holds code. */
    method AddWrite(virt: nat, phys: nat, hasCode: bool)
      requires Valid() && virt < 0x1_0000_0000
      modifies this`writelnext, writelookup, writelookup2, pageLookup
      ensures Valid()
      ensures virt == NO_PAGE || old(pageLookup[virt / 4096]) != -1 ==>
                writelookup2[..] == old(writelookup2[..]) && pageLookup[..] == old(pageLookup[..])
      ensures virt != NO_PAGE && old(pageLookup[virt / 4096]) == -1 ==>
                if hasCode then
                  && pageLookup[virt / 4096] == phys / 4096
                  && (writelookup2[virt / 4096] == old(writelookup2[virt / 4096]) || writelookup2[virt / 4096].Dead?)
                else
                  && pageLookup[virt / 4096] == -1
                  && writelookup2[virt / 4096] == Pointer(virt, phys)
      ensures forall v | 0 <= v < PAGES && v != virt / 4096 ::
                || (writelookup2[v] == old(writelookup2[v]) && pageLookup[v] == old(pageLookup[v]))
                || (!WriteLive(v) && v == old(writelookup[writelnext]))
      ensures if virt == NO_PAGE || old(pageLookup[virt / 4096]) != -1 then
                writelookup[..] == old(writelookup[..]) && writelnext == old(writelnext)
              else
                writelookup[..] == old(writelookup[..])[old(writelnext) := virt / 4096]
                    && writelnext == (old(writelnext) + 1) % SLOTS
    {
      if virt == NO_PAGE {
        return;
      }
      if pageLookup[virt / 4096] != -1 {
        return;
      }
      ghost var slots := writelookup[..];
      if writelookup[writelnext] != -1 {
        pageLookup[writelookup[writelnext]] := -1;
        writelookup2[writelookup[writelnext]] := Dead;
      }
      if hasCode {
        pageLookup[virt / 4096] := phys / 4096;
      } else {
        writelookup2[virt / 4096] := Pointer(virt, phys);
      }
      writelookup[writelnext] := virt / 4096;
      forall v | 0 <= v < PAGES && WriteLive(v) ensures v in writelookup[..] {
        if v == virt / 4096 {
          assert writelookup[..][writelnext] == v;
        } else {
          Relisted(slots, writelookup[..], writelnext, virt / 4096, v);
        }
      }
      writelnext := (writelnext + 1) % SLOTS;
    }

    /** Empties slot c of both rings together with the entries it lists. */
    method FlushSlot(c: nat)
      requires Shape() && c < SLOTS
      requires readlookup[c] == -1 || 0 <= readlookup[c] < PAGES
      requires writelookup[c] == -1 || 0 <= writelookup[c] < PAGES
      modifies readlookup, readlookup2, writelookup, writelookup2, pageLookup
      ensures readlookup[..] == old(readlookup[..])[c := -1] && writelookup[..] == old(writelookup[..])[c := -1]
      ensures forall v | 0 <= v < PAGES ::
                readlookup2[v] == if v == old(readlookup[c]) then Dead else old(readlookup2[v])
      ensures forall v | 0 <= v < PAGES ::
                if v == old(writelookup[c]) then !WriteLive(v)
                else writelookup2[v] == old(writelookup2[v]) && pageLookup[v] == old(pageLookup[v])
    {
      if readlookup[c] != -1 {
        readlookup2[readlookup[c]] := Dead;
        readlookup[c] := -1;
      }
      if writelookup[c] != -1 {
        pageLookup[writelookup[c]] := -1;
        writelookup2[writelookup[c]] := Dead;
        writelookup[c] := -1;
      }
    }

    /** flushmmucache and its variants: visiting 256 slots empties both tables. */
    method Flush()
      requires Valid()
      modifies readlookup, readlookup2, writelookup, writelookup2, pageLookup
      ensures Valid()
      ensures forall v | 0 <= v < PAGES :: readlookup2[v].Dead? && !WriteLive(v)
      ensures forall c | 0 <= c < 256 :: readlookup[c] == writelookup[c] == -1
    {
      for c := 0 to SLOTS
        invariant forall i | 0 <= i < c :: readlookup[i] == writelookup[i] == -1
        invariant forall i | c <= i < SLOTS ::
                    readlookup[i] == old(readlookup[i]) && writelookup[i] == old(writelookup[i])
        invariant forall v | 0 <= v < PAGES && readlookup2[v].Live? :: v in readlookup[c..]
        invariant forall v | 0 <= v < PAGES && WriteLive(v) :: v in writelookup[c..]
      {
        ghost var r, w := readlookup[c..], writelookup[c..];
        assert r[0] == readlookup[c] && w[0] == writelookup[c];
        FlushSlot(c);
        assert readlookup[c + 1..] == r[1..] && writelookup[c + 1..] == w[1..];
        forall v | 0 <= v < PAGES && readlookup2[v].Live? ensures v in readlookup[c + 1..] {
          StillListed(r, v);
        }
        forall v | 0 <= v < PAGES && WriteLive(v) ensures v in writelookup[c + 1..] {
          StillListed(w, v);
        }
      }
    }

    /** Is the write entry of page v one that FlushWritePage is looking for? */
    ghost predicate Aims(v: nat, addr: nat, virt: nat)
      requires v < writelookup2.Length && v < pageLookup.Length
      reads writelookup2, pageLookup
    {
      writelookup2[v] == Pointer(virt, addr) || pageLookup[v] == addr / 4096
    }

    /** Physical page addr, seen at virt, now holds code: no handler entry for the
        page survives, nor any write pointer with the same displacement. */
    method FlushWritePage(addr: nat, virt: nat)
      requires Valid()
      modifies writelookup, writelookup2, pageLookup
      ensures Valid()
      ensures forall v | 0 <= v < PAGES :: if old(Aims(v, addr, virt)) then !WriteLive(v)
                else writelookup2[v] == old(writelookup2[v]) && pageLookup[v] == old(pageLookup[v])
      ensures forall v | 0 <= v < PAGES :: pageLookup[v] != addr / 4096
      // what the flush misses: pointers into the page under other addresses
      ensures forall v | 0 <= v < PAGES ::
                writelookup2[v] == Pointer(v * 4096, addr) <==>
                && old(writelookup2[v]) == Pointer(v * 4096, addr)
                && v != virt / 4096 && old(pageLookup[v]) != addr / 4096
    {
      var pageTarget := addr / 4096;
      var target := Pointer(virt, addr);
      for c := 0 to SLOTS
        invariant WriteCoverage()
        invariant forall i | c <= i < SLOTS :: writelookup[i] == old(writelookup[i])
        invariant forall v | 0 <= v < PAGES ::
          || (writelookup2[v] == old(writelookup2[v]) && pageLookup[v] == old(pageLookup[v]))
          || (old(Aims(v, addr, virt)) && !WriteLive(v))
        invariant forall v | 0 <= v < PAGES && Aims(v, addr, virt) :: v in writelookup[c..]
      {
        ghost var w, slots := writelookup[c..], writelookup[..];
        if writelookup[c] != -1 {
          if writelookup2[writelookup[c]] == target || pageLookup[writelookup[c]] == pageTarget {
            writelookup2[writelookup[c]] := Dead;
            pageLookup[writelookup[c]] := -1;
            writelookup[c] := -1;
            forall v | 0 <= v < PAGES && WriteLive(v) ensures v in writelookup[..] {
              Relisted(slots, writelookup[..], c, -1, v);
            }
          }
        }
        assert writelookup[c + 1..] == w[1..] && w[0] == slots[c];
        forall v | 0 <= v < PAGES && Aims(v, addr, virt) ensures v in writelookup[c + 1..] {
          StillListed(w, v);
        }
      }
      assert writelookup[SLOTS..] == [];
      forall v | 0 <= v < PAGES && old(Aims(v, addr, virt)) ensures !WriteLive(v) {
        assert !Aims(v, addr, virt);
      }
    }
  }

  /** Flushing a physical page under one of two virtual pages leaves the pointer
      into it under the other. */
  method SurvivingName(c: Caches)
    requires c.Valid() && (c.writelookup2[1] == Pointer(1 * 4096, 5 * 4096) || !c.WriteLive(1))
    requires c.writelookup2[3] == Pointer(3 * 4096, 5 * 4096) && c.pageLookup[3] == -1
    modifies c.writelookup, c.writelookup2, c.pageLookup
    ensures c.Valid() && !c.WriteLive(1) && c.writelookup2[3] == Pointer(3 * 4096, 5 * 4096)
  {
    c.FlushWritePage(5 * 4096, 1 * 4096);
  }

  /** Two write requests lead there. */
  method TwoNames(c: Caches)
    requires c.Valid() && forall v | 0 <= v < PAGES :: !c.WriteLive(v)
    modifies c`writelnext, c.writelookup, c.writelookup2, c.pageLookup
    ensures c.Valid() && (c.writelookup2[1] == Pointer(1 * 4096, 5 * 4096) || !c.WriteLive(1))
    ensures c.writelookup2[3] == Pointer(3 * 4096, 5 * 4096) && c.pageLookup[3] == -1
  {
    assert !c.WriteLive(1) && !c.WriteLive(3);
    c.AddWrite(1 * 4096, 5 * 4096, false);
    assert !c.WriteLive(3);
    c.AddWrite(3 * 4096, 5 * 4096, false);
  }
}
