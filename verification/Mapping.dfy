/** The index from 16 KB granules of the physical address space to memory
    mappings, rebuilt piecewise from the ordered list of mappings. */
module Mapping {
  import opened Lookup
  import opened Words

  datatype ReadState = ReadAny | ReadInternal | ReadExternal
  datatype WriteState = WriteAny | WriteInternal | WriteExternal | WriteDisabled
  datatype BusState = BusState(r: ReadState, w: WriteState)

  /** Which access widths have a handler. */
  datatype Handlers = Handlers(b: bool, w: bool, l: bool) {
    predicate Any() { b || w || l }
  }

  datatype ExecBase = Null | At(pos: int)

  datatype Flags = Flags(external: bool, internal: bool)

  predicate ReadAllowed(fl: Flags, s: BusState) {
    match s.r
    case ReadAny => true
    case ReadExternal => !fl.internal
    case ReadInternal => !fl.external
  }

  predicate WriteAllowed(fl: Flags, s: BusState) {
    match s.w
    case WriteDisabled => false
    case WriteAny => true
    case WriteExternal => !fl.internal
    case WriteInternal => !fl.external
  }

  class MemMap {
    var next: MemMap?
    var enable: bool
    var base: nat
    var size: nat
    var readers: Handlers
    var writers: Handlers
    var exec: ExecBase
    var flags: Flags

    constructor ()
      ensures !enable && base == size == 0 && next == null
    {
      next, enable, base, size := null, false, 0, 0;
      readers, writers := Handlers(false, false, false), Handlers(false, false, false);
      exec, flags := Null, Flags(false, false);
    }

    method Set(base: nat, size: nat, readers: Handlers, writers: Handlers, exec: ExecBase, flags: Flags)
      modifies this`enable, this`base, this`size, this`readers, this`writers, this`exec, this`flags
      ensures enable == (size > 0) && this.base == base && this.size == size
      ensures this.readers == readers && this.writers == writers && this.exec == exec && this.flags == flags
    {
      enable := size > 0;
      this.base, this.size := base, size;
      this.readers, this.writers, this.exec, this.flags := readers, writers, exec, flags;
    }

    ghost predicate Aligned()
      reads `base, `size
    {
      base % GRANULE == 0 && size % GRANULE == 0 && base + size <= TOP
    }

    /** Enabled, covering granule g, with a handler, and allowed there. */
    ghost predicate Readable(g: nat, s: BusState)
      reads `enable, `base, `size, `readers, `flags
    {
      enable && base <= g * GRANULE < base + size && readers.Any() && ReadAllowed(flags, s)
    }

    ghost predicate Writable(g: nat, s: BusState)
      reads `enable, `base, `size, `writers, `flags
    {
      enable && base <= g * GRANULE < base + size && writers.Any() && WriteAllowed(flags, s)
    }

    /** Where code in granule g is executed from. */
    ghost function ExecAt(g: nat): ExecBase
      reads `exec, `base
    {
      match exec
      case Null => Null
      case At(pos) => At(pos + (g * GRANULE - base))
    }

    ghost predicate Overlaps(lo: nat, size: nat)
      reads `enable, `base, `size
    {
      enable && base < lo + size && base + this.size > lo
    }
  }

  /** The last of some mappings that can be read at granule g, among those that
      overlap a range. */
  ghost function LastReader(list: seq<MemMap>, g: nat, s: BusState, lo: nat, size: nat): (m: MemMap?)
    reads list`enable, list`base, list`size, list`readers, list`flags
    ensures m != null ==> m in list && m.Readable(g, s) && m.Overlaps(lo, size)
    ensures m == null ==> forall x | x in list :: !(x.Readable(g, s) && x.Overlaps(lo, size))
  {
    if list == [] then null
    else
      var x := list[|list| - 1];
      if x.Readable(g, s) && x.Overlaps(lo, size) then x else LastReader(list[..|list| - 1], g, s, lo, size)
  }

  ghost function LastWriter(list: seq<MemMap>, g: nat, s: BusState, lo: nat, size: nat): (m: MemMap?)
    reads list`enable, list`base, list`size, list`writers, list`flags
    ensures m != null ==> m in list && m.Writable(g, s) && m.Overlaps(lo, size)
    ensures m == null ==> forall x | x in list :: !(x.Writable(g, s) && x.Overlaps(lo, size))
  {
    if list == [] then null
    else
      var x := list[|list| - 1];
      if x.Writable(g, s) && x.Overlaps(lo, size) then x else LastWriter(list[..|list| - 1], g, s, lo, size)
  }

  /** The last mapping at a granule, wherever it lies. */
  ghost function Last(list: seq<MemMap>, g: nat, s: BusState): MemMap?
    reads list`enable, list`base, list`size, list`readers, list`flags
  {
    LastReader(list, g, s, 0, TOP)
  }

  ghost function LastW(list: seq<MemMap>, g: nat, s: BusState): MemMap?
    reads list`enable, list`base, list`size, list`writers, list`flags
  {
    LastWriter(list, g, s, 0, TOP)
  }

  /** A walk restricted to a range finds the last mapping, if it finds any, just
      when the last mapping overlaps the range. */
  lemma {:induction false} LastInWalk(list: seq<MemMap>, g: nat, s: BusState, lo: nat, size: nat)
    requires g < GRANULES
    ensures var w, l := LastReader(list, g, s, lo, size), Last(list, g, s);
            && (w != null ==> l != null && (w == l <==> l.Overlaps(lo, size)))
            && (w == null && l != null ==> !l.Overlaps(lo, size))
    ensures var w, l := LastWriter(list, g, s, lo, size), LastW(list, g, s);
            && (w != null ==> l != null && (w == l <==> l.Overlaps(lo, size)))
            && (w == null && l != null ==> !l.Overlaps(lo, size))
  {
    if list == [] {
    } else {
      LastInWalk(list[..|list| - 1], g, s, lo, size);
    }
  }

  /** A mapping that is not enabled is not the last one anywhere. */
  lemma {:induction false} LastWithout(list: seq<MemMap>, k: nat, g: nat, s: BusState)
    requires k < |list| && !list[k].enable
    ensures Last(list[..k] + list[k + 1..], g, s) == Last(list, g, s)
    ensures LastW(list[..k] + list[k + 1..], g, s) == LastW(list, g, s)
  {
    var n := |list| - 1;
    if k == n {
      assert list[..k] + list[k + 1..] == list[..n];
    } else {
      LastWithout(list[..n], k, g, s);
      assert (list[..k] + list[k + 1..])[..n - 1] == list[..n][..k] + list[..n][k + 1..];
    }
  }

  /** m is enabled, covers granule g and has a handler for reads, or for writes. */
  ghost predicate Reads(m: MemMap, g: nat)
    reads m`enable, m`base, m`size, m`readers
  {
    m.enable && m.base <= g * 0x4000 < m.base + m.size && (m.readers.b || m.readers.w || m.readers.l)
  }

  ghost predicate Writes(m: MemMap, g: nat)
    reads m`enable, m`base, m`size, m`writers
  {
    m.enable && m.base <= g * 0x4000 < m.base + m.size && (m.writers.b || m.writers.w || m.writers.l)
  }

  /** The last of the mappings that qualify at a granule. */
  lemma {:induction false} LastIs(list: seq<MemMap>, i: nat, g: nat, s: BusState)
    requires i < |list| && g < GRANULES
    ensures list[i].Readable(g, s) && (forall k | i < k < |list| :: !list[k].Readable(g, s)) ==>
            Last(list, g, s) == list[i]
    ensures list[i].Writable(g, s) && (forall k | i < k < |list| :: !list[k].Writable(g, s)) ==>
            LastW(list, g, s) == list[i]
  {
    if i < |list| - 1 {
      LastIs(list[..|list| - 1], i, g, s);
    }
  }

  class Index {
    const baseMapping: MemMap            // head of the list, not a mapping itself
    ghost var list: seq<MemMap>
    const readMapping: array<MemMap?>
    const writeMapping: array<MemMap?>
    const memExec: array<ExecBase>
    const memState: array<BusState>
    const caches: Caches

    constructor ()
      ensures Valid() && list == [] && fresh(readMapping) && fresh(writeMapping) && fresh(memExec) && fresh(memState)
      ensures fresh(baseMapping) && fresh(caches)
      ensures fresh(caches.readlookup) && fresh(caches.readlookup2)
      ensures fresh(caches.writelookup) && fresh(caches.writelookup2) && fresh(caches.pageLookup)
      ensures forall g | 0 <= g < GRANULES :: memState[g] == BusState(ReadAny, WriteAny)
    {
      baseMapping := new MemMap();
      list := [];
      readMapping := new MemMap?[GRANULES](_ => null);
      writeMapping := new MemMap?[GRANULES](_ => null);
      memExec := new ExecBase[GRANULES](_ => Null);
      memState := new BusState[GRANULES](_ => BusState(ReadAny, WriteAny));
      caches := new Caches();
      new;
      forall g | 0 <= g < GRANULES ensures GranuleOk(g) {
        assert readMapping[g] == null && writeMapping[g] == null;
      }
    }

    /** The next links run through the list. */
    ghost predicate Chained()
      reads this, baseMapping, list
    {
      && baseMapping !in list
      && baseMapping.next == (if list == [] then null else list[0])
      && (forall i | 0 <= i < |list| - 1 :: list[i].next == list[i + 1])
      && (list != [] ==> list[|list| - 1].next == null)
      && (forall i, j | 0 <= i < j < |list| :: list[i] != list[j])
    }

    ghost predicate Shape()
      reads this, baseMapping, list
    {
      && readMapping.Length == writeMapping.Length == memExec.Length == memState.Length == GRANULES
      && readMapping != writeMapping
      && Chained() && forall m | m in list :: m.Aligned()
    }

    /** The entries of granule g: null just when no mapping qualifies, otherwise
        one that does, and code is fetched where that mapping says. */
    ghost predicate GranuleOk(g: nat)
      requires g < readMapping.Length && g < writeMapping.Length && g < memExec.Length && g < memState.Length
      reads this`list, readMapping, writeMapping, memExec, memState
      reads list`enable, list`base, list`size, list`readers, list`writers, list`flags, list`exec
    {
      && (readMapping[g] == null ==> forall m | m in list :: !m.Readable(g, memState[g]))
      && (readMapping[g] != null ==>
            readMapping[g] in list && readMapping[g].Readable(g, memState[g]) && memExec[g] == readMapping[g].ExecAt(g))
      && (writeMapping[g] == null ==> forall m | m in list :: !m.Writable(g, memState[g]))
      && (writeMapping[g] != null ==> writeMapping[g] in list && writeMapping[g].Writable(g, memState[g]))
    }

    ghost predicate Valid()
      reads this, baseMapping, list, readMapping, writeMapping, memExec, memState
      reads caches, caches.readlookup, caches.readlookup2, caches.writelookup, caches.writelookup2, caches.pageLookup
    {
      Shape() && caches.Valid() && AllOk()
    }

    ghost predicate AllOk()
      requires readMapping.Length == writeMapping.Length == memExec.Length == memState.Length == GRANULES
      reads this`list, readMapping, writeMapping, memExec, memState
      reads list`enable, list`base, list`size, list`readers, list`writers, list`flags, list`exec
    {
      forall g | 0 <= g < GRANULES :: GranuleOk(g)
    }

    /** The inner loop of mem_map_recalc: m takes the granules from its base to
        end wherever it may. */
    method Claim(m: MemMap, end: nat)
      requires Shape() && m.Aligned() && end <= TOP && end % GRANULE == 0
      modifies readMapping, writeMapping, memExec
      ensures forall g | 0 <= g < GRANULES ::
                var here := m.base <= g * GRANULE < end;
                var r := here && m.readers.Any() && ReadAllowed(m.flags, memState[g]);
                && readMapping[g] == (if r then m else old(readMapping[g]))
                && memExec[g] == (if r then m.ExecAt(g) else old(memExec[g]))
                && writeMapping[g] == if here && m.writers.Any()
                    && WriteAllowed(m.flags, memState[g]) then m else old(writeMapping[g])
    {
      var c := m.base;
      while c < end
        invariant c % GRANULE == 0 && m.base <= c
        invariant forall g | 0 <= g < GRANULES ::
                var here := m.base <= g * GRANULE < end && g * GRANULE < c;
                var r := here && m.readers.Any() && ReadAllowed(m.flags, memState[g]);
                && readMapping[g] == (if r then m else old(readMapping[g]))
                && memExec[g] == (if r then m.ExecAt(g) else old(memExec[g]))
                && writeMapping[g] == if here && m.writers.Any()
                    && WriteAllowed(m.flags, memState[g]) then m else old(writeMapping[g])
      {
        var g := c / GRANULE;
        if m.readers.Any() && ReadAllowed(m.flags, memState[g]) {
          memExec[g] := match m.exec { case At(pos) => At(pos + (c - m.base)) case Null => Null };
          readMapping[g] := m;
        }
        if m.writers.Any() && WriteAllowed(m.flags, memState[g]) {
          writeMapping[g] := m;
        }
        c := c + GRANULE;
      }
    }

    /** Clears the entries of a range. */
    method Clear(lo: nat, size: nat)
      requires Shape() && lo % GRANULE == 0 && size % GRANULE == 0 && lo + size <= TOP
      modifies readMapping, writeMapping
      ensures forall g | 0 <= g < GRANULES ::
                var here := lo <= g * GRANULE < lo + size;
                && readMapping[g] == (if here then null else old(readMapping[g]))
                && writeMapping[g] == if here then null else old(writeMapping[g])
    {
      var c := lo;
      while c < lo + size
        invariant c % GRANULE == 0 && lo <= c
        invariant forall g | 0 <= g < GRANULES ::
                    var here := lo <= g * GRANULE < lo + size && g * GRANULE < c;
                    && readMapping[g] == (if here then null else old(readMapping[g]))
                    && writeMapping[g] == if here then null else old(writeMapping[g])
      {
        readMapping[c / GRANULE] := null;
        writeMapping[c / GRANULE] := null;
        c := c + GRANULE;
      }
    }

    /** The read entry of granule g after the mappings in part have been visited;
        r and e are what it was after the range was cleared. */
    ghost predicate ReadVisited(part: seq<MemMap>, g: nat, lo: nat, size: nat, r: MemMap?, e: ExecBase)
      requires g < readMapping.Length && g < memExec.Length && g < memState.Length
      reads part, readMapping, memExec, memState
    {
      var m := LastReader(part, g, memState[g], lo, size);
      if m != null && g * GRANULE < lo + size then readMapping[g] == m && memExec[g] == m.ExecAt(g)
      else readMapping[g] == r && memExec[g] == e
    }

    ghost predicate WriteVisited(part: seq<MemMap>, g: nat, lo: nat, size: nat, w: MemMap?)
      requires g < writeMapping.Length && g < memState.Length
      reads part, writeMapping, memState
    {
      var m := LastWriter(part, g, memState[g], lo, size);
      writeMapping[g] == if m != null && g * GRANULE < lo + size then m else w
    }

    /** What the walk of mem_map_recalc does with one mapping. */
    method Visit(m: MemMap, lo: nat, size: nat)
      requires Shape() && m.Aligned()
      requires lo % GRANULE == 0 && 0 < size && size % GRANULE == 0 && lo + size <= TOP
      modifies readMapping, writeMapping, memExec
      ensures forall g | 0 <= g < GRANULES ::
                var here := m.Overlaps(lo, size) && g * GRANULE < lo + size;
                var r, w := here && m.Readable(g, memState[g]), here && m.Writable(g, memState[g]);
                && readMapping[g] == (if r then m else old(readMapping[g]))
                && memExec[g] == (if r then m.ExecAt(g) else old(memExec[g]))
                && writeMapping[g] == if w then m else old(writeMapping[g])
    {
      if m.enable && m.base < lo + size && m.base + m.size > lo {
        var start := if m.base < lo then m.base else lo;
        var end := if m.base + m.size < lo + size then m.base + m.size else lo + size;
        if start < m.base {
          start := m.base;
        }
        assert start == m.base;
        Claim(m, end);
      }
    }

    /** All entries after the mappings in part have been visited; r, w and e are what
        they were before. */
    ghost predicate AllVisited(part: seq<MemMap>, lo: nat, size: nat, r: seq<MemMap?>, w: seq<MemMap?>,
                               e: seq<ExecBase>)
      requires readMapping.Length == writeMapping.Length == memExec.Length == memState.Length == GRANULES
      requires |r| == |w| == |e| == GRANULES
      reads part, readMapping, writeMapping, memExec, memState
    {
      forall g | 0 <= g < GRANULES :: ReadVisited(part, g, lo, size, r[g], e[g])
          && WriteVisited(part, g, lo, size, w[g])
    }

    /** One round of the walk. */
    method VisitNext(m: MemMap, lo: nat, size: nat, ghost part: seq<MemMap>,
                     ghost r0: seq<MemMap?>, ghost w0: seq<MemMap?>, ghost e0: seq<ExecBase>)
      requires Shape() && m.Aligned() && |r0| == |w0| == |e0| == GRANULES
      requires lo % GRANULE == 0 && 0 < size && size % GRANULE == 0 && lo + size <= TOP
      requires AllVisited(part, lo, size, r0, w0, e0)
      modifies readMapping, writeMapping, memExec
      ensures AllVisited(part + [m], lo, size, r0, w0, e0)
    {
      assert (part + [m])[..|part|] == part;
      Visit(m, lo, size);
      forall g | 0 <= g < GRANULES
        ensures ReadVisited(part + [m], g, lo, size, r0[g], e0[g]) && WriteVisited(part + [m], g, lo, size, w0[g])
      {
        assert old(ReadVisited(part, g, lo, size, r0[g], e0[g])) && old(WriteVisited(part, g, lo, size, w0[g]));
      }
    }

    /** The walk of mem_map_recalc over the mapping list. */
    method Walk(lo: nat, size: nat)
      requires Shape() && lo % GRANULE == 0 && 0 < size && size % GRANULE == 0 && lo + size <= TOP
      modifies readMapping, writeMapping, memExec
      ensures AllVisited(list, lo, size, old(readMapping[..]), old(writeMapping[..]), old(memExec[..]))
    {
      ghost var r0, w0, e0 := readMapping[..], writeMapping[..], memExec[..];
      var m := baseMapping.next;
      ghost var i, part := 0, [];
      while m != null
        invariant 0 <= i <= |list| && m == (if i < |list| then list[i] else null) && part == list[..i]
        invariant AllVisited(part, lo, size, r0, w0, e0)
        decreases |list| - i
      {
        VisitNext(m, lo, size, part, r0, w0, e0);
        part := part + [m];
        m := m.next;
        i := i + 1;
      }
      assert part == list;
    }

    ghost predicate LookupsEmpty()
      requires caches.Shape()
      reads caches, caches.readlookup2, caches.writelookup2, caches.pageLookup
    {
      forall v | 0 <= v < PAGES :: caches.readlookup2[v].Dead? && !caches.WriteLive(v)
    }

    ghost predicate InRange(g: nat, lo: nat, size: nat) {
      lo <= g * GRANULE < lo + size
    }

    /** Is the last mapping in list order the one entered for granule g? */
    ghost predicate LastWins(g: nat)
      requires g < readMapping.Length && g < writeMapping.Length && g < memState.Length
      reads this`list, readMapping, writeMapping, memState
      reads list`enable, list`base, list`size, list`readers, list`writers, list`flags
    {
      readMapping[g] == Last(list, g, memState[g]) && writeMapping[g] == LastW(list, g, memState[g])
    }

    /** A condition on the list alone: after a walk over the range, the last
        mapping still wins at granule g below it. */
    ghost predicate Undisturbed(g: nat, lo: nat, size: nat)
      requires g < memState.Length
      reads this`list, list, memState
    {
      var l, w := Last(list, g, memState[g]), LastW(list, g, memState[g]);
      && (LastReader(list, g, memState[g], lo, size) == null || (l != null && l.Overlaps(lo, size)))
      && (LastWriter(list, g, memState[g], lo, size) == null || (w != null && w.Overlaps(lo, size)))
    }

    /** Does the last mapping win at all granules of a range? */
    ghost predicate AllWin(lo: nat, size: nat)
      requires readMapping.Length == writeMapping.Length == memState.Length == GRANULES
      reads this`list, readMapping, writeMapping, memState
      reads list`enable, list`base, list`size, list`readers, list`writers, list`flags
    {
      forall g | 0 <= g < GRANULES && InRange(g, lo, size) :: LastWins(g)
    }

    /** The granules at which the last mapping wins. */
    ghost function Won(): (s: set<nat>)
      requires readMapping.Length == writeMapping.Length == memState.Length == GRANULES
      reads this`list, readMapping, writeMapping, memState
      reads list`enable, list`base, list`size, list`readers, list`writers, list`flags
    {
      set g | 0 <= g < GRANULES && LastWins(g)
    }

    /** Of the granules below a range at which the last mapping won, it still wins
        at exactly those the walk leaves undisturbed. */
    ghost predicate WonBelow(won: set<nat>, lo: nat, size: nat)
      requires Shape()
      reads this, baseMapping, list, readMapping, writeMapping, memState
    {
      forall g | 0 <= g < GRANULES && g * GRANULE < lo && g in won :: LastWins(g) <==> Undisturbed(g, lo, size)
    }

    lemma {:induction false} VisitedIsOk(g: nat, lo: nat, size: nat, r: MemMap?, e: ExecBase, w: MemMap?)
      requires Shape() && g < GRANULES && 0 < size && ReadVisited(list, g, lo, size, r, e)
               && WriteVisited(list, g, lo, size, w)
      requires if InRange(g, lo, size) then r == w == null else
                 && (r == null ==> forall m | m in list :: !m.Readable(g, memState[g]))
                 && (r != null ==> r in list && r.Readable(g, memState[g]) && e == r.ExecAt(g))
                 && (w == null ==> forall m | m in list :: !m.Writable(g, memState[g]))
                 && (w != null ==> w in list && w.Writable(g, memState[g]))
      ensures GranuleOk(g)
    {
    }

    lemma {:induction false} VisitedWins(g: nat, lo: nat, size: nat, r: MemMap?, e: ExecBase, w: MemMap?)
      requires Shape() && g < GRANULES && 0 < size && ReadVisited(list, g, lo, size, r, e)
               && WriteVisited(list, g, lo, size, w)
      ensures InRange(g, lo, size) && r == w == null ==> LastWins(g)
      ensures g * GRANULE < lo && r == Last(list, g, memState[g]) && w == LastW(list, g, memState[g]) ==>
                (LastWins(g) <==> Undisturbed(g, lo, size))
    {
      LastInWalk(list, g, memState[g], lo, size);
    }

    /** Both loops of mem_map_recalc. */
    method Sweep(lo: nat, size: nat, ghost r0: seq<MemMap?>, ghost w0: seq<MemMap?>, ghost e0: seq<ExecBase>)
      requires Shape() && lo % GRANULE == 0 && 0 < size && size % GRANULE == 0 && lo + size <= TOP
      requires r0 == readMapping[..] && w0 == writeMapping[..] && e0 == memExec[..]
      modifies readMapping, writeMapping, memExec
      ensures forall g | 0 <= g < GRANULES ::
              ReadVisited(list, g, lo, size, if InRange(g, lo, size) then null else r0[g], e0[g])
      ensures forall g | 0 <= g < GRANULES ::
              WriteVisited(list, g, lo, size, if InRange(g, lo, size) then null else w0[g])
    {
      Clear(lo, size);
      Walk(lo, size);
    }

    /** A mapping that begins below lo and goes on there. */
    static ghost predicate Reaches(m: MemMap?, lo: nat)
      reads m
    {
      m != null && m.base < lo < m.base + m.size
    }

    /** What the loops leave: all entries right, the last mapping in the range, the
        entries above it as they were, and below it exactly the undisturbed ones. */
    ghost predicate Rebuilt(won: set<nat>, r0: seq<MemMap?>, w0: seq<MemMap?>, e0: seq<ExecBase>, lo: nat, size: nat)
      requires Shape() && |r0| == |w0| == |e0| == GRANULES
      reads this, baseMapping, list, readMapping, writeMapping, memExec, memState
    {
      && AllOk() && AllWin(lo, size) && WonBelow(won, lo, size)
      && forall g | 0 <= g < GRANULES && g * GRANULE >= lo + size ::
           readMapping[g] == r0[g] && writeMapping[g] == w0[g] && memExec[g] == e0[g]
    }

    /** Below lo only mappings that reach into the range have been entered anew. */
    ghost predicate EnteredBelow(r0: seq<MemMap?>, w0: seq<MemMap?>, lo: nat)
      requires readMapping.Length == writeMapping.Length == |r0| == |w0| == GRANULES
      reads this`list, list, readMapping, writeMapping
    {
      forall g | 0 <= g < GRANULES && g * GRANULE < lo ::
        && (readMapping[g] != r0[g] ==> readMapping[g] in list && Reaches(readMapping[g], lo))
        && (writeMapping[g] != w0[g] ==> writeMapping[g] in list && Reaches(writeMapping[g], lo))
    }

    lemma {:induction false} VisitedReaches(g: nat, lo: nat, size: nat, r: MemMap?, e: ExecBase, w: MemMap?)
      requires Shape() && g < GRANULES && g * GRANULE < lo && ReadVisited(list, g, lo, size, r, e)
               && WriteVisited(list, g, lo, size, w)
      ensures readMapping[g] != r ==> readMapping[g] in list && Reaches(readMapping[g], lo)
      ensures writeMapping[g] != w ==> writeMapping[g] in list && Reaches(writeMapping[g], lo)
    {
    }

    method Rebuild(lo: nat, size: nat)
      requires Shape() && lo % GRANULE == 0 && 0 < size && size % GRANULE == 0 && lo + size <= TOP
      requires forall g | 0 <= g < GRANULES && !InRange(g, lo, size) :: GranuleOk(g)
      modifies readMapping, writeMapping, memExec
      ensures Rebuilt(old(Won()), old(readMapping[..]), old(writeMapping[..]), old(memExec[..]), lo, size)
      ensures EnteredBelow(old(readMapping[..]), old(writeMapping[..]), lo)
    {
      ghost var won, r0, w0, e0 := Won(), readMapping[..], writeMapping[..], memExec[..];
      Sweep(lo, size, r0, w0, e0);
      forall g | 0 <= g < GRANULES ensures GranuleOk(g) {
        assert InRange(g, lo, size) || old(GranuleOk(g));
        VisitedIsOk(g, lo, size, if InRange(g, lo, size) then null else r0[g], e0[g],
            if InRange(g, lo, size) then null else w0[g]);
      }
      forall g | 0 <= g < GRANULES && InRange(g, lo, size) ensures LastWins(g) {
        VisitedWins(g, lo, size, null, e0[g], null);
      }
      forall g | 0 <= g < GRANULES && g * GRANULE < lo && g in won ensures LastWins(g) <==> Undisturbed(g, lo, size) {
        VisitedWins(g, lo, size, r0[g], e0[g], w0[g]);
      }
      assert EnteredBelow(r0, w0, lo) by {
        forall g | 0 <= g < GRANULES && g * GRANULE < lo
          ensures readMapping[g] != r0[g] ==> readMapping[g] in list && Reaches(readMapping[g], lo)
          ensures writeMapping[g] != w0[g] ==> writeMapping[g] in list && Reaches(writeMapping[g], lo)
        {
          VisitedReaches(g, lo, size, r0[g], e0[g], w0[g]);
        }
      }
    }

    /** mem_map_recalc for a range that is not empty. */
    method RebuildAndFlush(lo: nat, size: nat)
      requires Shape() && caches.Valid() && lo % GRANULE == 0 && 0 < size && size % GRANULE == 0 && lo + size <= TOP
      requires forall g | 0 <= g < GRANULES && !InRange(g, lo, size) :: GranuleOk(g)
      modifies readMapping, writeMapping, memExec
      modifies caches.readlookup, caches.readlookup2, caches.writelookup, caches.writelookup2, caches.pageLookup
      ensures Rebuilt(old(Won()), old(readMapping[..]), old(writeMapping[..]), old(memExec[..]), lo, size)
      ensures EnteredBelow(old(readMapping[..]), old(writeMapping[..]), lo)
      ensures caches.Valid() && LookupsEmpty()
    {
      Rebuild(lo, size);
      caches.Flush();
    }

    /** mem_map_recalc.  Granules outside the range must be right already; then all
        are.  Inside the range the last mapping in list order wins.  Above it
        nothing changes.  Below it, where the last mapping won before, it still
        does just when the walk leaves the granule undisturbed. */
    method Recalc(lo: nat, size: nat)
      requires Shape() && caches.Valid() && lo % GRANULE == 0 && size % GRANULE == 0 && lo + size <= TOP
      requires forall g | 0 <= g < GRANULES && !InRange(g, lo, size) :: GranuleOk(g)
      modifies readMapping, writeMapping, memExec
      modifies caches.readlookup, caches.readlookup2, caches.writelookup, caches.writelookup2, caches.pageLookup
      ensures Valid() && (size > 0 ==> LookupsEmpty())
      ensures AllWin(lo, size) && (size > 0 ==> WonBelow(old(Won()), lo, size))
      ensures forall g | 0 <= g < GRANULES && (g * GRANULE >= lo + size || size == 0) ::
                readMapping[g] == old(readMapping[g]) && writeMapping[g] == old(writeMapping[g])
                    && memExec[g] == old(memExec[g])
      ensures EnteredBelow(old(readMapping[..]), old(writeMapping[..]), lo)
    {
      if size > 0 {
        RebuildAndFlush(lo, size);
      }
    }

    // ----- the operations on mappings ------------------------------------------

    /** The granules of m itself show the last mapping, and no lookup survives. */
    ghost predicate Renewed(m: MemMap)
      requires Shape() && caches.Shape()
      reads this, baseMapping, list, m, readMapping, writeMapping, memState
      reads caches, caches.readlookup2, caches.writelookup2, caches.pageLookup
    {
      AllWin(m.base, m.size) && (m.size > 0 ==> LookupsEmpty())
    }

    method SetHandler(m: MemMap, readers: Handlers, writers: Handlers)
      requires Valid() && m != baseMapping && m.Aligned()
      modifies m`readers, m`writers
      modifies readMapping, writeMapping, memExec
      modifies caches.readlookup, caches.readlookup2, caches.writelookup, caches.writelookup2, caches.pageLookup
      ensures Valid() && Renewed(m) && m.readers == readers && m.writers == writers
    {
      m.readers, m.writers := readers, writers;
      forall g | 0 <= g < GRANULES && !InRange(g, m.base, m.size) ensures GranuleOk(g) {
        assert old(GranuleOk(g));
      }
      Recalc(m.base, m.size);
    }

    method SetExec(m: MemMap, exec: ExecBase)
      requires Valid() && m != baseMapping && m.Aligned()
      modifies m`exec
      modifies readMapping, writeMapping, memExec
      modifies caches.readlookup, caches.readlookup2, caches.writelookup, caches.writelookup2, caches.pageLookup
      ensures Valid() && Renewed(m) && m.exec == exec
    {
      m.exec := exec;
      forall g | 0 <= g < GRANULES && !InRange(g, m.base, m.size) ensures GranuleOk(g) {
        assert old(GranuleOk(g));
      }
      Recalc(m.base, m.size);
    }

    /** mem_map_enable and mem_map_disable. */
    method SetEnable(m: MemMap, on: bool)
      requires Valid() && m != baseMapping && m.Aligned()
      modifies m`enable
      modifies readMapping, writeMapping, memExec
      modifies caches.readlookup, caches.readlookup2, caches.writelookup, caches.writelookup2, caches.pageLookup
      ensures Valid() && Renewed(m) && m.enable == on
    {
      m.enable := on;
      forall g | 0 <= g < GRANULES && !InRange(g, m.base, m.size) ensures GranuleOk(g) {
        assert old(GranuleOk(g));
      }
      Recalc(m.base, m.size);
    }

    /** mem_map_set_addr: takes m out at its old place, puts it in at the new. */
    method SetAddr(m: MemMap, base: nat, size: nat)
      requires Valid() && m != baseMapping && m.Aligned()
      requires base % GRANULE == 0 && size % GRANULE == 0 && base + size <= TOP
      modifies m`enable, m`base, m`size
      modifies readMapping, writeMapping, memExec
      modifies caches.readlookup, caches.readlookup2, caches.writelookup, caches.writelookup2, caches.pageLookup
      ensures Valid() && Renewed(m) && m.enable && m.base == base && m.size == size
    {
      SetEnable(m, false);
      Move(m, base, size);
    }

    /** The second half of SetAddr. */
    method Move(m: MemMap, base: nat, size: nat)
      requires Valid() && m != baseMapping && m.Aligned() && !m.enable
      requires base % GRANULE == 0 && size % GRANULE == 0 && base + size <= TOP
      modifies m`enable, m`base, m`size
      modifies readMapping, writeMapping, memExec
      modifies caches.readlookup, caches.readlookup2, caches.writelookup, caches.writelookup2, caches.pageLookup
      ensures Valid() && Renewed(m) && m.enable && m.base == base && m.size == size
    {
      m.enable := true;
      m.base := base;
      m.size := size;
      forall g | 0 <= g < GRANULES && !InRange(g, base, size) ensures GranuleOk(g) {
        assert old(GranuleOk(g));
      }
      Recalc(m.base, m.size);
    }

    /** The entries of granule g are right as far as mappings other than m go. */
    ghost predicate OkWithout(g: nat, m: MemMap)
      requires g < readMapping.Length && g < writeMapping.Length && g < memExec.Length && g < memState.Length
      reads this`list, readMapping, writeMapping, memExec, memState
      reads list`enable, list`base, list`size, list`readers, list`writers, list`flags, list`exec
    {
      && (readMapping[g] == null ==> forall x | x in list && x != m :: !x.Readable(g, memState[g]))
      && (readMapping[g] != null ==>
            && readMapping[g] in list && readMapping[g] != m
            && readMapping[g].Readable(g, memState[g]) && memExec[g] == readMapping[g].ExecAt(g))
      && (writeMapping[g] == null ==> forall x | x in list && x != m :: !x.Writable(g, memState[g]))
      && (writeMapping[g] != null ==>
            writeMapping[g] in list && writeMapping[g] != m && writeMapping[g].Writable(g, memState[g]))
    }

    /** Where mapping m, the last of the list, is entered: for reads in a granule of an
        internal bus unless it is external, of an external one unless it is internal,
        and of any bus; for writes likewise, but nowhere if they are disabled. */
    ghost predicate EnteredAt(m: MemMap, g: nat)
      requires g < readMapping.Length && g < writeMapping.Length && g < memExec.Length && g < memState.Length
      reads m, readMapping, writeMapping, memExec, memState
    {
      var s := memState[g];
      && (s.r == ReadAny ==> (readMapping[g] == m <==> Reads(m, g)))
      && (s.r == ReadInternal ==> (readMapping[g] == m <==> Reads(m, g) && !m.flags.external))
      && (s.r == ReadExternal ==> (readMapping[g] == m <==> Reads(m, g) && !m.flags.internal))
      && (s.w == WriteAny ==> (writeMapping[g] == m <==> Writes(m, g)))
      && (s.w == WriteInternal ==> (writeMapping[g] == m <==> Writes(m, g) && !m.flags.external))
      && (s.w == WriteExternal ==> (writeMapping[g] == m <==> Writes(m, g) && !m.flags.internal))
      && (s.w == WriteDisabled ==> writeMapping[g] == null)
      && (readMapping[g] == m && m.exec.At? ==> memExec[g] == At(m.exec.pos + (g * 0x4000 - m.base)))
    }

    lemma {:induction false} LastIsEntered(m: MemMap, g: nat)
      requires Valid() && list != [] && list[|list| - 1] == m && g < GRANULES && LastWins(g)
      ensures EnteredAt(m, g)
    {
      assert GranuleOk(g);
      LastIs(list, |list| - 1, g, memState[g]);
    }

    /** mem_map_add: appends m and gives it its address and handlers. */
    method Add(m: MemMap, base: nat, size: nat, readers: Handlers, writers: Handlers, exec: ExecBase, flags: Flags)
      requires Valid() && m !in list && m != baseMapping
      requires base % GRANULE == 0 && size % GRANULE == 0 && base + size <= TOP
      modifies this`list, m, baseMapping`next, list`next
      modifies readMapping, writeMapping, memExec
      modifies caches.readlookup, caches.readlookup2, caches.writelookup, caches.writelookup2, caches.pageLookup
      ensures Valid() && Renewed(m) && list == old(list) + [m]
      ensures m.enable == (size > 0) && m.base == base && m.size == size
      ensures m.readers == readers && m.writers == writers && m.exec == exec && m.flags == flags
      ensures forall g | 0 <= g < GRANULES && base <= g * 0x4000 < base + size :: EnteredAt(m, g)
    {
      Join(m);
      Place(m, base, size, readers, writers, exec, flags);
      forall g | 0 <= g < GRANULES && base <= g * 0x4000 < base + size ensures EnteredAt(m, g) {
        assert InRange(g, m.base, m.size);
        LastIsEntered(m, g);
      }
    }

    /** Puts m into the list; all entries stay right for the other mappings. */
    method Join(m: MemMap)
      requires Valid() && m !in list && m != baseMapping
      modifies this`list, m`next, baseMapping`next, list`next
      ensures Chained() && list == old(list) + [m] && forall g | 0 <= g < GRANULES :: OkWithout(g, m)
      ensures forall x | x in list && x != m :: x.Aligned()
    {
      Append(m);
      forall g | 0 <= g < GRANULES ensures OkWithout(g, m) {
        assert old(GranuleOk(g));
      }
    }

    /** The rest of Add, once m is in the list. */
    method Place(m: MemMap, base: nat, size: nat, readers: Handlers, writers: Handlers, exec: ExecBase, flags: Flags)
      requires readMapping.Length == writeMapping.Length == memExec.Length == memState.Length == GRANULES
      requires readMapping != writeMapping && caches.Valid() && Chained() && m in list
      requires forall x | x in list && x != m :: x.Aligned()
      requires forall g | 0 <= g < GRANULES :: OkWithout(g, m)
      requires base % GRANULE == 0 && size % GRANULE == 0 && base + size <= TOP
      modifies m`enable, m`base, m`size, m`readers, m`writers, m`exec, m`flags
      modifies readMapping, writeMapping, memExec
      modifies caches.readlookup, caches.readlookup2, caches.writelookup, caches.writelookup2, caches.pageLookup
      ensures Valid() && Renewed(m)
      ensures m.enable == (size > 0) && m.base == base && m.size == size
      ensures m.readers == readers && m.writers == writers && m.exec == exec && m.flags == flags
    {
      m.Set(base, size, readers, writers, exec, flags);
      forall g | 0 <= g < GRANULES && !InRange(g, base, size) ensures GranuleOk(g) {
        assert old(OkWithout(g, m));
      }
      Recalc(m.base, m.size);
    }

    /** Hangs m behind the last mapping of the list. */
    method Append(m: MemMap)
      requires Chained() && m !in list && m != baseMapping
      modifies this`list, m`next, baseMapping`next, list`next
      ensures Chained() && list == old(list) + [m]
    {
      var dest := baseMapping;
      ghost var i := 0;
      while dest.next != null
        invariant 0 <= i <= |list| && dest == if i == 0 then baseMapping else list[i - 1]
        invariant i < |list| ==> dest.next == list[i]
        decreases |list| - i
      {
        dest := dest.next;
        i := i + 1;
      }
      assert i == |list|;
      ghost var before := list;
      dest.next := m;
      m.next := null;
      list := list + [m];
      forall k | 0 <= k < |list| - 1 ensures list[k].next == list[k + 1] {
        assert list[k] == before[k];
        if k < |before| - 1 {
          assert before[k] != before[|before| - 1];
        }
      }
    }

    /** Takes m off the chain. */
    method Unchain(m: MemMap) returns (ghost k: nat)
      requires Chained() && m in list
      modifies this`list, baseMapping`next, list`next
      ensures k < |old(list)| && old(list)[k] == m && list == old(list)[..k] + old(list)[k + 1..]
      ensures Chained()
    {
      var ptr := baseMapping;
      k := 0;
      while ptr.next != m
        invariant k < |list| && ptr == (if k == 0 then baseMapping else list[k - 1]) && m !in list[..k]
        decreases |list| - k
      {
        ptr := ptr.next;
        k := k + 1;
      }
      ghost var before := list;
      assert before[k] == m;
      ptr.next := m.next;
      list := list[..k] + list[k + 1..];
      forall i | 0 <= i < |list| - 1 ensures list[i].next == list[i + 1] {
        if i + 1 < k {
          assert before[i] != before[k - 1] && list[i] == before[i] && list[i + 1] == before[i + 1];
        } else if i >= k {
          assert list[i] == before[i + 1] && list[i + 1] == before[i + 2];
        }
      }
    }

    /** Taking one of distinct elements out leaves the others. */
    static lemma {:induction false} Others(before: seq<MemMap>, after: seq<MemMap>, k: nat, x: MemMap)
      requires k < |before| && after == before[..k] + before[k + 1..]
      requires forall i, j | 0 <= i < j < |before| :: before[i] != before[j]
      ensures x in after <==> x in before && x != before[k]
    {
      if x in before && x != before[k] {
        var i :| 0 <= i < |before| && before[i] == x;
        assert after[if i < k then i else i - 1] == x;
      }
    }

    /** mem_map_del: disables m and takes it off the list; where it was the last one
        of the others wins. */
    method Delete(m: MemMap)
      requires Valid() && m in list
      modifies this`list, m`enable, baseMapping`next, list`next
      modifies readMapping, writeMapping, memExec
      modifies caches.readlookup, caches.readlookup2, caches.writelookup, caches.writelookup2, caches.pageLookup
      ensures Valid() && !m.enable && m !in list && AllWin(m.base, m.size)
      ensures exists k :: 0 <= k < |old(list)| && old(list)[k] == m && list == old(list)[..k] + old(list)[k + 1..]
    {
      SetEnable(m, false);
      assert forall g | 0 <= g < GRANULES && InRange(g, m.base, m.size) :: g in Won();
      Unlink(m);
    }

    /** Takes a disabled mapping off the chain; the last mappings stay the last. */
    method UnchainIdle(m: MemMap) returns (ghost k: nat)
      requires Shape() && m in list && !m.enable
      modifies this`list, baseMapping`next, list`next
      ensures Chained() && k < |old(list)| && old(list)[k] == m && list == old(list)[..k] + old(list)[k + 1..]
      ensures Won() == old(Won()) && m !in list && forall x :: x in list <==> x in old(list) && x != m
    {
      ghost var before := list;
      k := Unchain(m);
      forall x: MemMap ensures x in list <==> x in before && x != m {
        Others(before, list, k, x);
      }
      forall g | 0 <= g < GRANULES
        ensures Last(list, g, memState[g]) == Last(before, g, memState[g])
                && LastW(list, g, memState[g]) == LastW(before, g, memState[g])
      {
        LastWithout(before, k, g, memState[g]);
      }
    }

    /** The entries of granule g are right for the mappings in a set. */
    ghost predicate OkAmong(g: nat, s: set<MemMap>)
      requires g < readMapping.Length && g < writeMapping.Length && g < memExec.Length && g < memState.Length
      reads readMapping, writeMapping, memExec, memState
      reads s`enable, s`base, s`size, s`readers, s`writers, s`flags, s`exec
    {
      && (readMapping[g] == null ==> forall m | m in s :: !m.Readable(g, memState[g]))
      && (readMapping[g] != null ==>
            readMapping[g] in s && readMapping[g].Readable(g, memState[g]) && memExec[g] == readMapping[g].ExecAt(g))
      && (writeMapping[g] == null ==> forall m | m in s :: !m.Writable(g, memState[g]))
      && (writeMapping[g] != null ==> writeMapping[g] in s && writeMapping[g].Writable(g, memState[g]))
    }

    lemma AmongIsOk(g: nat, s: set<MemMap>)
      requires g < readMapping.Length && g < writeMapping.Length && g < memExec.Length && g < memState.Length
      requires OkAmong(g, s) && forall x :: x in s <==> x in list
      ensures GranuleOk(g)
    {
    }

    /** The list without a disabled mapping. */
    method Unlink(m: MemMap)
      requires Valid() && m in list && !m.enable
      modifies this`list, baseMapping`next, list`next
      ensures Valid() && m !in list && Won() == old(Won())
      ensures exists k :: 0 <= k < |old(list)| && old(list)[k] == m && list == old(list)[..k] + old(list)[k + 1..]
    {
      ghost var others := set x | x in list && x != m;
      forall g | 0 <= g < GRANULES ensures OkAmong(g, others) {
        assert GranuleOk(g);
      }
      ghost var k := UnchainIdle(m);
      forall g | 0 <= g < GRANULES ensures GranuleOk(g) {
        AmongIsOk(g, others);
      }
    }

    /** The loop of mem_set_mem_state. */
    method PaintState(base: nat, size: nat, state: BusState)
      requires memState.Length == GRANULES && base % GRANULE == 0 && size % GRANULE == 0 && base + size <= TOP
      modifies memState
      ensures forall g | 0 <= g < GRANULES :: memState[g] == if InRange(g, base, size) then state else old(memState[g])
    {
      var c := 0;
      while c < size
        invariant c % GRANULE == 0 && c <= size
        invariant forall g | 0 <= g < GRANULES :: memState[g] == if InRange(g, base, c) then state else old(memState[g])
      {
        memState[(c + base) / GRANULE] := state;
        c := c + GRANULE;
      }
    }

    /** The flag of the mappings that an internal or an external bus keeps out. */
    static ghost predicate KeptOut(m: MemMap, internal: bool)
      reads m`flags
    {
      if internal then m.flags.external else m.flags.internal
    }

    /** On an internal or an external bus the last mapping for reads answers of those
        not kept out. */
    ghost predicate BusReads(g: nat, internal: bool)
      requires g < readMapping.Length
      reads this`list, readMapping, list`enable, list`base, list`size, list`readers, list`flags
      reads if g < readMapping.Length && readMapping[g] != null then {readMapping[g]} else {}
    {
      && (readMapping[g] != null ==> !KeptOut(readMapping[g], internal))
      && (forall i | 0 <= i < |list| && Reads(list[i], g) && !KeptOut(list[i], internal)
                     && (forall k | i < k < |list| && Reads(list[k], g) :: KeptOut(list[k], internal)) ::
            readMapping[g] == list[i])
    }

    ghost predicate BusWrites(g: nat, internal: bool)
      requires g < writeMapping.Length
      reads this`list, writeMapping, list`enable, list`base, list`size, list`writers, list`flags
      reads if g < writeMapping.Length && writeMapping[g] != null then {writeMapping[g]} else {}
    {
      && (writeMapping[g] != null ==> !KeptOut(writeMapping[g], internal))
      && (forall i | 0 <= i < |list| && Writes(list[i], g) && !KeptOut(list[i], internal)
                     && (forall k | i < k < |list| && Writes(list[k], g) :: KeptOut(list[k], internal)) ::
            writeMapping[g] == list[i])
    }

    /** The last mapping that qualifies is the one entered. */
    lemma {:induction false} LastAnswers(g: nat, i: nat)
      requires Shape() && g < GRANULES && LastWins(g) && i < |list|
      ensures list[i].Readable(g, memState[g]) && (forall k | i < k < |list| :: !list[k].Readable(g, memState[g])) ==>
              readMapping[g] == list[i]
      ensures list[i].Writable(g, memState[g]) && (forall k | i < k < |list| :: !list[k].Writable(g, memState[g])) ==>
              writeMapping[g] == list[i]
    {
      LastIs(list, i, g, memState[g]);
    }

    lemma {:induction false} BusAnswersReads(g: nat)
      requires Valid() && g < GRANULES && LastWins(g) && !memState[g].r.ReadAny?
      ensures BusReads(g, memState[g].r.ReadInternal?)
    {
      assert GranuleOk(g);
      var internal := memState[g].r.ReadInternal?;
      forall i | 0 <= i < |list| && Reads(list[i], g) && !KeptOut(list[i], internal)
                 && (forall k | i < k < |list| && Reads(list[k], g) :: KeptOut(list[k], internal))
        ensures readMapping[g] == list[i]
      {
        LastAnswers(g, i);
      }
    }

    lemma {:induction false} BusAnswersWrites(g: nat)
      requires Valid() && g < GRANULES && LastWins(g)
      ensures memState[g].w.WriteInternal? || memState[g].w.WriteExternal? ==>
                BusWrites(g, memState[g].w.WriteInternal?)
      ensures memState[g].w.WriteDisabled? ==> writeMapping[g] == null
    {
      assert GranuleOk(g);
      var internal := memState[g].w.WriteInternal?;
      if memState[g].w.WriteInternal? || memState[g].w.WriteExternal? {
        forall i | 0 <= i < |list| && Writes(list[i], g) && !KeptOut(list[i], internal)
                   && (forall k | i < k < |list| && Writes(list[k], g) :: KeptOut(list[k], internal))
          ensures writeMapping[g] == list[i]
        {
          LastAnswers(g, i);
        }
      }
    }

    /** mem_set_mem_state: sets the bus state of a range of granules. */
    method SetState(base: nat, size: nat, state: BusState)
      requires Valid() && base % GRANULE == 0 && size % GRANULE == 0 && base + size <= TOP
      modifies memState
      modifies readMapping, writeMapping, memExec
      modifies caches.readlookup, caches.readlookup2, caches.writelookup, caches.writelookup2, caches.pageLookup
      ensures Valid() && forall g | 0 <= g < GRANULES ::
              memState[g] == if InRange(g, base, size) then state else old(memState[g])
      ensures AllWin(base, size) && (size > 0 ==> WonBelow(old(Won()), base, size))
      ensures forall g | 0 <= g < GRANULES && base <= g * 0x4000 < base + size ::
                && (!state.r.ReadAny? ==> BusReads(g, state.r.ReadInternal?))
                && (state.w.WriteInternal? || state.w.WriteExternal? ==> BusWrites(g, state.w.WriteInternal?))
                && (state.w.WriteDisabled? ==> writeMapping[g] == null)
    {
      PaintState(base, size, state);
      forall g | 0 <= g < GRANULES && !InRange(g, base, size) ensures GranuleOk(g) {
        assert old(GranuleOk(g));
      }
      forall g | 0 <= g < GRANULES && g * GRANULE < base && g in old(Won()) ensures g in Won() {
      }
      Recalc(base, size);
      forall g | 0 <= g < GRANULES && base <= g * 0x4000 < base + size
        ensures !state.r.ReadAny? ==> BusReads(g, state.r.ReadInternal?)
        ensures state.w.WriteInternal? || state.w.WriteExternal? ==> BusWrites(g, state.w.WriteInternal?)
        ensures state.w.WriteDisabled? ==> writeMapping[g] == null
      {
        assert InRange(g, base, size);
        if !state.r.ReadAny? {
          BusAnswersReads(g);
        }
        BusAnswersWrites(g);
      }
    }
  }

  /** A mapping of two granules, and a later one of the first granule only. */
  ghost predicate Nested(ix: Index, both: MemMap, first: MemMap)
    reads ix, both, first, ix.memState
  {
    && ix.memState.Length == GRANULES && ix.memState[0] == BusState(ReadAny, WriteAny)
    && ix.list == [both, first]
    && both.enable && both.base == 0 && both.size == 2 * GRANULE && both.readers.Any()
    && first.enable && first.base == 0 && first.size == GRANULE && first.readers.Any()
  }

  /** There, a walk over the second granule disturbs the first one. */
  lemma {:induction false} NestedIsDisturbed(ix: Index, both: MemMap, first: MemMap)
    requires Nested(ix, both, first)
    ensures !ix.Undisturbed(0, GRANULE, GRANULE)
  {
    var s := ix.memState[0];
    assert ix.list[..1] == [both];
    assert first.Readable(0, s) && Last(ix.list, 0, s) == first && !first.Overlaps(GRANULE, GRANULE);
    assert LastReader(ix.list, 0, s, GRANULE, GRANULE) == LastReader([both], 0, s, GRANULE, GRANULE);
    assert [both][|[both]| - 1] == both && both.Readable(0, s) && both.Overlaps(GRANULE, GRANULE);
  }

  method OneMapping(h: Handlers) returns (ix: Index, both: MemMap)
    requires h.Any()
    ensures ix.Valid() && ix.list == [both] && ix.memState[0] == BusState(ReadAny, WriteAny)
    ensures both.enable && both.base == 0 && both.size == 2 * GRANULE && both.readers.Any()
    ensures fresh(both) && fresh(ix) && fresh(ix.baseMapping) && fresh(ix.caches)
    ensures fresh(ix.memState) && fresh(ix.readMapping) && fresh(ix.writeMapping) && fresh(ix.memExec)
    ensures fresh(ix.caches.readlookup) && fresh(ix.caches.readlookup2)
    ensures fresh(ix.caches.writelookup) && fresh(ix.caches.writelookup2) && fresh(ix.caches.pageLookup)
  {
    ix := new Index();
    both := new MemMap();
    ix.Add(both, 0, 2 * GRANULE, h, h, Null, Flags(false, false));
  }

  method AddInner(ix: Index, both: MemMap, first: MemMap, h: Handlers)
    requires h.Any() && ix.Valid() && ix.list == [both] && first != both && first != ix.baseMapping
    requires ix.memState[0] == BusState(ReadAny, WriteAny)
    requires both.enable && both.base == 0 && both.size == 2 * GRANULE && both.readers.Any()
    modifies ix`list, first, ix.baseMapping`next, both`next, ix.readMapping, ix.writeMapping, ix.memExec
    modifies ix.caches.readlookup, ix.caches.readlookup2, ix.caches.writelookup, ix.caches.writelookup2,
             ix.caches.pageLookup
    ensures ix.Valid() && Nested(ix, both, first) && ix.LastWins(0)
  {
    ix.Add(first, 0, GRANULE, h, h, Null, Flags(false, false));
    assert ix.InRange(0, first.base, first.size);
  }

  method TwoMappings() returns (ix: Index, both: MemMap, first: MemMap)
    ensures ix.Valid() && Nested(ix, both, first) && ix.LastWins(0)
    ensures fresh(ix.memState) && fresh(ix.readMapping) && fresh(ix.writeMapping) && fresh(ix.memExec)
    ensures fresh(ix.caches.readlookup) && fresh(ix.caches.readlookup2)
    ensures fresh(ix.caches.writelookup) && fresh(ix.caches.writelookup2) && fresh(ix.caches.pageLookup)
  {
    var h := Handlers(true, true, true);
    ix, both := OneMapping(h);
    first := new MemMap();
    AddInner(ix, both, first, h);
  }

  /** So the last mapping does not win everywhere: where it wins for the first
      granule, setting the bus state of the second one, even to what it was, gives
      the first one back to the earlier mapping. */
  method Disturb(ix: Index, both: MemMap, first: MemMap)
    requires ix.Valid() && Nested(ix, both, first) && ix.LastWins(0)
    modifies ix.memState, ix.readMapping, ix.writeMapping, ix.memExec
    modifies ix.caches.readlookup, ix.caches.readlookup2, ix.caches.writelookup, ix.caches.writelookup2,
             ix.caches.pageLookup
    ensures ix.Valid() && Nested(ix, both, first) && !ix.LastWins(0)
    ensures forall g | 0 <= g < GRANULES ::
            ix.memState[g] == if g == 1 then BusState(ReadAny, WriteAny) else old(ix.memState[g])
  {
    NestedIsDisturbed(ix, both, first);
    ix.SetState(GRANULE, GRANULE, BusState(ReadAny, WriteAny));
    NestedIsDisturbed(ix, both, first);
  }

  /** Two mappings added to an empty index and one change of state lead there. */
  method LastLosesBelow() returns (ix: Index, both: MemMap, first: MemMap)
    ensures ix.Valid() && Nested(ix, both, first) && !ix.LastWins(0)
  {
    ix, both, first := TwoMappings();
    Disturb(ix, both, first);
  }
}
