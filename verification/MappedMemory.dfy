/** The flat memory's handlers are those of the mapping list: what answers an access
    is an enabled mapping that covers the address, if there is one. */
module MappedMemory {
  import opened Mapping
  import opened Words
  import FlatMemory
  import MemoryReset

  type Handler = FlatMemory.Handler

  /** What a mapping stands for: RAM, or a device. */
  function Image(kind: MemMap -> Handler, m: MemMap?): Handler {
    if m == null then FlatMemory.Nothing else kind(m)
  }

  /** RAM mappings lie in RAM. */
  ghost predicate RamFits(ix: Index, kind: MemMap -> Handler, size: nat)
    reads ix, ix.list
  {
    forall m | m in ix.list && kind(m).Ram? :: m.base + m.size <= size
  }

  /** The handlers of a flat memory are the images of the index. */
  ghost predicate Mirrors(ix: Index, kind: MemMap -> Handler, f: FlatMemory.Flat)
    reads ix, ix.readMapping, ix.writeMapping
  {
    && |f.readers| == |f.writers| == ix.readMapping.Length == ix.writeMapping.Length == GRANULES
    && forall g | 0 <= g < GRANULES ::
         f.readers[g] == Image(kind, ix.readMapping[g]) && f.writers[g] == Image(kind, ix.writeMapping[g])
  }

  /** The images of an array of mappings. */
  method Images(kind: MemMap -> Handler, mapping: array<MemMap?>) returns (handlers: seq<Handler>)
    requires mapping.Length == GRANULES
    ensures |handlers| == GRANULES && forall g | 0 <= g < GRANULES :: handlers[g] == Image(kind, mapping[g])
  {
    handlers := [];
    for g := 0 to GRANULES
      invariant |handlers| == g && forall i | 0 <= i < g :: handlers[i] == Image(kind, mapping[i])
    {
      handlers := handlers + [Image(kind, mapping[g])];
    }
  }

  lemma {:induction false} GranuleInRam(ix: Index, kind: MemMap -> Handler, size: nat, g: nat)
    requires ix.Valid() && RamFits(ix, kind, size) && g < GRANULES
    ensures Image(kind, ix.readMapping[g]).Ram? || Image(kind, ix.writeMapping[g]).Ram? ==> (g + 1) * GRANULE <= size
  {
    assert ix.GranuleOk(g);
    if ix.readMapping[g] != null {
      WholeGranule(ix.readMapping[g], g);
    }
    if ix.writeMapping[g] != null {
      WholeGranule(ix.writeMapping[g], g);
    }
  }

  /** Mappings begin and end with granules. */
  lemma {:induction false} WholeGranule(m: MemMap, g: nat)
    requires m.Aligned() && m.base <= g * GRANULE < m.base + m.size
    ensures (g + 1) * GRANULE <= m.base + m.size
  {
    assert m.base + m.size == (m.base / GRANULE + m.size / GRANULE) * GRANULE;
  }

  method HandlersOf(ix: Index, kind: MemMap -> Handler, size: nat)
                    returns (readers: seq<Handler>, writers: seq<Handler>)
    requires ix.Valid() && RamFits(ix, kind, size)
    ensures FlatMemory.Sensible(FlatMemory.RemapOp(readers, writers), size) && |readers| == |writers| == GRANULES
    ensures forall g | 0 <= g < GRANULES ::
              readers[g] == Image(kind, ix.readMapping[g]) && writers[g] == Image(kind, ix.writeMapping[g])
  {
    readers := Images(kind, ix.readMapping);
    writers := Images(kind, ix.writeMapping);
    forall g | 0 <= g < GRANULES && (readers[g].Ram? || writers[g].Ram?) ensures (g + 1) * GRANULE <= size {
      GranuleInRam(ix, kind, size, g);
    }
  }

  /** After an operation on the list: the accesses see the new index. */
  method Install(ix: Index, kind: MemMap -> Handler, bus: FlatMemory.Bus)
    requires ix.Valid() && bus.Valid() && RamFits(ix, kind, bus.ram.Length) && ix.caches == bus.caches
    modifies bus.readMapping, bus.writeMapping
    modifies bus.caches.readlookup, bus.caches.readlookup2, bus.caches.writelookup, bus.caches.writelookup2,
             bus.caches.pageLookup
    ensures bus.Valid() && Mirrors(ix, kind, bus.Memory())
    ensures bus.Memory() == old(bus.Memory()).(readers := bus.Memory().readers, writers := bus.Memory().writers)
  {
    var readers, writers := HandlersOf(ix, kind, bus.ram.Length);
    bus.Remap(readers, writers);
  }

  /** What a handler answers to the read of a byte. */
  function Answer(f: FlatMemory.Flat, h: Handler, a: nat, dev: FlatMemory.Oracle): int {
    match h
    case Ram => if a < |f.ram| then f.ram[a] else 0xff
    case Device(id) => dev.b(id, a)
    case Nothing => 0xff
  }

  /** A byte is read as all ones where no mapping qualifies, and otherwise from one
      that does. */
  lemma {:induction false} LoadIsMapped(ix: Index, kind: MemMap -> Handler, f: FlatMemory.Flat, addr: nat,
                                        dev: FlatMemory.Oracle)
    requires ix.Valid() && f.Valid() && Mirrors(ix, kind, f) && addr < TOP
    ensures var a := FlatMemory.Masked(f.mask, addr);
            var g := a / GRANULE;
            if forall m | m in ix.list :: !m.Readable(g, ix.memState[g]) then f.Load(addr, dev) == 0xff
            else exists m ::
              m in ix.list && m.Readable(g, ix.memState[g]) && f.Load(addr, dev) == Answer(f, kind(m), a, dev)
  {
    var g := FlatMemory.Masked(f.mask, addr) / GRANULE;
    assert ix.GranuleOk(g);
    var m := ix.readMapping[g];
    if m != null {
      assert m in ix.list && m.Readable(g, ix.memState[g]);
    }
  }

  /** A byte is stored exactly where a mapping that qualifies is RAM. */
  lemma {:induction false} StoreIsMapped(ix: Index, kind: MemMap -> Handler, f: FlatMemory.Flat, addr: nat, val: byte)
    requires ix.Valid() && f.Valid() && Mirrors(ix, kind, f) && addr < TOP
    ensures var a := FlatMemory.Masked(f.mask, addr);
            var g := a / GRANULE;
            if forall m | m in ix.list :: !m.Writable(g, ix.memState[g]) then f.Store(addr, val) == f
            else exists m :: m in ix.list && m.Writable(g, ix.memState[g]) &&
                   f.Store(addr, val) == if kind(m).Ram? && a < |f.ram| then f.(ram := f.ram[a := val]) else f
  {
    var g := FlatMemory.Masked(f.mask, addr) / GRANULE;
    assert ix.GranuleOk(g);
    var m := ix.writeMapping[g];
    if m != null {
      assert m in ix.list && m.Writable(g, ix.memState[g]);
    }
  }

  /** After a reset the RAM of the machine is read and written, a byte each at its own
      address, in the lower 640 KB and above 1 MB; elsewhere reads yield all ones and
      writes nothing. */
  lemma {:induction false} RamAfterReset(ix: Index, ram: MemoryReset.Ram, size: nat, bus16: bool,
                                         kind: MemMap -> Handler, f: FlatMemory.Flat, addr: nat, val: byte,
                                         dev: FlatMemory.Oracle)
    requires ix.Valid() && f.Valid() && Mirrors(ix, kind, f) && addr < TOP && (forall m :: kind(m).Ram?)
    requires forall g | 0 <= g < GRANULES :: MemoryReset.MapsRam(ix, ram, size, bus16, g)
    requires size % 16 == 0 && (ram.high != null <==> size > 1024)
    ensures var a := FlatMemory.Masked(f.mask, addr);
            var top := if bus16 && size > 16256 then 16256 * 1024 else size * 1024;
            if a < size * 1024 && (a < 0xa_0000 || 0x10_0000 <= a < top) then
              a < |f.ram| && f.Load(addr, dev) == f.ram[a] && f.Store(addr, val) == f.(ram := f.ram[a := val])
            else f.Load(addr, dev) == 0xff && f.Store(addr, val) == f
  {
    var a := FlatMemory.Masked(f.mask, addr);
    assert MemoryReset.MapsRam(ix, ram, size, bus16, a / GRANULE);
    SameGranule(a, size);
    SameGranule(a, 640);
    SameGranule(a, 1024);
    SameGranule(a, 16256);
  }

  /** Sizes of whole granules do not divide granules. */
  lemma {:induction false} SameGranule(a: nat, size: nat)
    requires size % 16 == 0
    ensures a < size * 1024 <==> a / GRANULE * 0x4000 < size * 1024
  {
    var q := size / 16;
    assert size * 1024 == q * GRANULE && a == a / GRANULE * GRANULE + a % GRANULE;
  }
}
