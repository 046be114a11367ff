/** What a reset maps: the RAM of the machine, and nothing else. */
module MemoryReset {
  import opened Mapping
  import opened Words

  const INTERNAL := BusState(ReadInternal, WriteInternal)
  const EXTERNAL := BusState(ReadExternal, WriteExternal)
  const ALL := Handlers(true, true, true)
  const RAM := Flags(false, true)       // on the internal bus

  /** Bytes of RAM below 640 KB and above 1 MB, for size KB of it; a 16-bit bus has no
      more than 16256 KB. */
  function LowSize(size: nat): nat {
    if size > 640 then 0xa_0000 else size * 1024
  }

  function HighSize(size: nat, bus16: bool): nat {
    if size <= 1024 then 0 else if bus16 && size > 16256 then (16256 - 1024) * 1024 else (size - 1024) * 1024
  }

  /** The bus states of a reset. */
  function StateAt(size: nat, bus16: bool, g: nat): BusState {
    var a := g * GRANULE;
    if a < LowSize(size) || 0x10_0000 <= a < 0x10_0000 + HighSize(size, bus16) then INTERNAL
    else if 0xc_0000 <= a < 0x10_0000 then EXTERNAL
    else BusState(ReadAny, WriteAny)
  }

  /** Memory sizes come in whole granules, and leave room for the remapped RAM. */
  predicate Sized(size: nat) {
    size % 16 == 0 && (size + 256) * 1024 <= TOP
  }

  lemma {:induction false} WholeGranules(size: nat, bus16: bool)
    requires Sized(size)
    ensures LowSize(size) % GRANULE == HighSize(size, bus16) % GRANULE == size * 1024 % GRANULE == 0
    ensures 0x10_0000 + HighSize(size, bus16) <= TOP && LowSize(size) <= 0xa_0000
  {
    assert size == size / 16 * 16;
    assert size * 1024 == size / 16 * GRANULE;
    assert (size - 1024) * 1024 == (size / 16 - 64) * GRANULE;
  }

  /** m is a mapping of RAM. */
  ghost predicate IsRam(m: MemMap, base: nat, size: nat, pos: nat)
    reads m`enable, m`base, m`size, m`readers, m`writers, m`exec, m`flags
  {
    && m.enable == (size > 0) && m.base == base && m.size == size
    && m.readers == ALL && m.writers == ALL && m.exec == At(pos) && m.flags == RAM
  }

  method AddRam(ix: Index, base: nat, size: nat, pos: nat) returns (m: MemMap)
    requires ix.Valid() && base % GRANULE == 0 && size % GRANULE == 0 && base + size <= TOP
    modifies ix`list, ix.baseMapping`next, ix.list`next, ix.readMapping, ix.writeMapping, ix.memExec
    modifies ix.caches.readlookup, ix.caches.readlookup2, ix.caches.writelookup, ix.caches.writelookup2,
             ix.caches.pageLookup
    ensures ix.Valid() && fresh(m) && ix.list == old(ix.list) + [m] && IsRam(m, base, size, pos)
  {
    m := new MemMap();
    ix.Add(m, base, size, ALL, ALL, At(pos), RAM);
  }

  /** The mappings a reset makes, in order. */
  datatype Ram = Ram(low: MemMap, high: MemMap?, mid: MemMap?, remapped: MemMap) {
    function List(): seq<MemMap> {
      [low] + (if high == null then [] else [high]) + (if mid == null then [] else [mid]) + [remapped]
    }
  }

  ghost predicate Made(ix: Index, ram: Ram, size: nat, bus16: bool)
    reads ix, ram.low, ram.high, ram.mid, ram.remapped
  {
    && ix.list == ram.List() && IsRam(ram.low, 0, LowSize(size), 0) && (ram.high != null <==> size > 1024)
    && (ram.high != null ==> IsRam(ram.high, 0x10_0000, HighSize(size, bus16), 0x10_0000))
    && (ram.mid != null ==> IsRam(ram.mid, 0xc_0000, 0x4_0000, 0xc_0000))
  }

  /** The bus states below 1 MB. */
  method LowerStates(size: nat) returns (ix: Index)
    requires Sized(size)
    ensures ix.Valid() && ix.list == [] && fresh(ix) && fresh(ix.baseMapping) && fresh(ix.caches)
    ensures fresh(ix.memState) && fresh(ix.readMapping) && fresh(ix.writeMapping) && fresh(ix.memExec)
    ensures fresh(ix.caches.readlookup) && fresh(ix.caches.readlookup2)
    ensures fresh(ix.caches.writelookup) && fresh(ix.caches.writelookup2) && fresh(ix.caches.pageLookup)
    ensures forall g | 0 <= g < GRANULES :: ix.memState[g] == StateAt(if size > 1024 then 1024 else size, false, g)
  {
    WholeGranules(size, false);
    ix := new Index();
    ix.SetState(0, LowSize(size), INTERNAL);
    ix.SetState(0xc_0000, 0x4_0000, EXTERNAL);
  }

  /** The RAM above 1 MB. */
  method UpperRam(ix: Index, size: nat, bus16: bool) returns (high: MemMap)
    requires ix.Valid() && Sized(size) && size > 1024
    requires forall g | 0 <= g < GRANULES :: ix.memState[g] == StateAt(1024, false, g)
    modifies ix`list, ix.baseMapping`next, ix.list`next, ix.memState, ix.readMapping, ix.writeMapping, ix.memExec
    modifies ix.caches.readlookup, ix.caches.readlookup2, ix.caches.writelookup, ix.caches.writelookup2,
             ix.caches.pageLookup
    ensures ix.Valid() && fresh(high) && ix.list == old(ix.list) + [high]
    ensures IsRam(high, 0x10_0000, HighSize(size, bus16), 0x10_0000)
    ensures forall g | 0 <= g < GRANULES :: ix.memState[g] == StateAt(size, bus16, g)
  {
    WholeGranules(size, bus16);
    ix.SetState(0x10_0000, HighSize(size, bus16), INTERNAL);
    high := AddRam(ix, 0x10_0000, HighSize(size, bus16), 0x10_0000);
  }

  /** After a reset each granule of RAM reads, writes and executes the byte of RAM of the
      same number; the 256 KB below 1 MB are on the external bus, where their RAM does
      not answer; nothing else is mapped. */
  ghost predicate MapsRam(ix: Index, ram: Ram, size: nat, bus16: bool, g: nat)
    requires g < ix.readMapping.Length && g < ix.writeMapping.Length && g < ix.memExec.Length
    reads ix.readMapping, ix.writeMapping, ix.memExec
  {
    var a := g * 0x4000;
    var top := if bus16 && size > 16256 then 16256 * 1024 else size * 1024;
    var m := if a < size * 1024 && a < 0xa_0000 then ram.low else if 0x10_0000 <= a < top then ram.high else null;
    ix.readMapping[g] == ix.writeMapping[g] == m && (m != null ==> ix.memExec[g] == At(a))
  }

  lemma {:induction false} OnlyRam(ix: Index, ram: Ram, size: nat, bus16: bool, g: nat)
    requires ix.Valid() && Sized(size) && Made(ix, ram, size, bus16) && !ram.remapped.enable && g < GRANULES
    requires ix.memState[g] == StateAt(size, bus16, g)
    ensures MapsRam(ix, ram, size, bus16, g)
  {
    assert ix.GranuleOk(g);
    WholeGranules(size, bus16);
    var s := ix.memState[g];
    assert ram.low in ram.List() && (ram.high != null ==> ram.high in ram.List());
    forall m | m in ram.List() && (m.Readable(g, s) || m.Writable(g, s)) ensures m == ram.low || m == ram.high {
    }
  }

  lemma {:induction false} OnlyRamAnywhere(ix: Index, ram: Ram, size: nat, bus16: bool)
    requires ix.Valid() && Sized(size) && Made(ix, ram, size, bus16) && !ram.remapped.enable
    requires forall g | 0 <= g < GRANULES :: ix.memState[g] == StateAt(size, bus16, g)
    ensures forall g | 0 <= g < GRANULES :: MapsRam(ix, ram, size, bus16, g)
  {
    forall g | 0 <= g < GRANULES ensures MapsRam(ix, ram, size, bus16, g) {
      OnlyRam(ix, ram, size, bus16, g);
    }
  }

  /** Nothing of an index that has just been made was there before. */
  twostate predicate New(new ix: Index)
    reads ix
  {
    && fresh(ix) && fresh(ix.baseMapping) && fresh(ix.caches) && fresh(ix.list)
    && fresh(ix.memState) && fresh(ix.readMapping) && fresh(ix.writeMapping) && fresh(ix.memExec)
    && fresh(ix.caches.readlookup) && fresh(ix.caches.readlookup2)
    && fresh(ix.caches.writelookup) && fresh(ix.caches.writelookup2) && fresh(ix.caches.pageLookup)
  }

  /** The RAM below 640 KB and above 1 MB. */
  method MainRam(size: nat, bus16: bool) returns (ix: Index, low: MemMap, high: MemMap?)
    requires Sized(size)
    ensures ix.Valid() && New(ix) && ix.list == [low] + if high == null then [] else [high]
    ensures IsRam(low, 0, LowSize(size), 0) && (high != null <==> size > 1024)
    ensures high != null ==> IsRam(high, 0x10_0000, HighSize(size, bus16), 0x10_0000)
    ensures forall g | 0 <= g < GRANULES :: ix.memState[g] == StateAt(size, bus16, g)
  {
    WholeGranules(size, bus16);
    ix := LowerStates(size);
    low := AddRam(ix, 0, LowSize(size), 0);
    high := null;
    if size > 1024 {
      high := UpperRam(ix, size, bus16);
    }
  }

  /** The RAM that no one sees: below 1 MB, and for remapping elsewhere. */
  method MidRam(ix: Index, size: nat) returns (mid: MemMap?)
    requires ix.Valid()
    modifies ix`list, ix.baseMapping`next, ix.list`next, ix.readMapping, ix.writeMapping, ix.memExec
    modifies ix.caches.readlookup, ix.caches.readlookup2, ix.caches.writelookup, ix.caches.writelookup2,
             ix.caches.pageLookup
    ensures ix.Valid() && ix.list == old(ix.list) + if mid == null then [] else [mid]
    ensures mid != null ==> fresh(mid) && IsRam(mid, 0xc_0000, 0x4_0000, 0xc_0000)
  {
    mid := null;
    if size > 768 {
      mid := AddRam(ix, 0xc_0000, 0x4_0000, 0xc_0000);
    }
  }

  method RemappedRam(ix: Index, size: nat) returns (remapped: MemMap)
    requires ix.Valid() && Sized(size)
    modifies ix`list, ix.baseMapping`next, ix.list`next, ix.readMapping, ix.writeMapping, ix.memExec
    modifies ix.caches.readlookup, ix.caches.readlookup2, ix.caches.writelookup, ix.caches.writelookup2,
             ix.caches.pageLookup
    ensures ix.Valid() && ix.list == old(ix.list) + [remapped] && fresh(remapped) && !remapped.enable
  {
    WholeGranules(size, false);
    remapped := AddRam(ix, size * 1024, 0x4_0000, 0xa_0000);
    ix.SetEnable(remapped, false);
  }

  /** What mem_reset does to the index. */
  method Reset(size: nat, bus16: bool) returns (ix: Index, ram: Ram)
    requires Sized(size)
    ensures ix.Valid() && (ram.high != null <==> size > 1024)
    ensures forall g | 0 <= g < GRANULES :: MapsRam(ix, ram, size, bus16, g)
  {
    var low, high, mid, remapped;
    ix, low, high := MainRam(size, bus16);
    mid := MidRam(ix, size);
    remapped := RemappedRam(ix, size);
    ram := Ram(low, high, mid, remapped);
    OnlyRamAnywhere(ix, ram, size, bus16);
  }
}
