/** Byte, word and double-word accesses with paging off: the fast path through the lookup
    tables and the slow path through the mapping index act on one flat memory. */
module FlatMemory {
  import opened Arith
  import opened Lookup
  import opened Words

  /** What answers accesses to a granule of the physical address space. */
  datatype Handler = Nothing | Ram | Device(id: nat)

  /** The values rammask can have. */
  datatype RamMask = Mask1M | Mask16M | Mask16MNoA20 | Mask4G | Mask4GNoA20

  /** Page number v with address bit 20 cleared. */
  function NoA20(v: nat): nat
    ensures NoA20(v) <= v
  {
    if v / 256 % 2 == 1 then v - 256 else v
  }

  /** The physical page that virtual page v denotes: all masks keep the bits
      within a page. */
  function PhysPage(mask: RamMask, v: nat): (p: nat)
    requires v < PAGES
    ensures p < PAGES
  {
    match mask
    case Mask1M => v % 0x100
    case Mask16M => v % 0x1000
    case Mask16MNoA20 => NoA20(v % 0x1000)
    case Mask4G => v
    case Mask4GNoA20 => NoA20(v)
  }

  function Masked(mask: RamMask, addr: nat): (a: nat)
    requires addr < TOP
    ensures a < TOP && a / 4096 == PhysPage(mask, addr / 4096) && a % 4096 == addr % 4096
  {
    PhysPage(mask, addr / 4096) * 4096 + addr % 4096
  }

  lemma {:induction false} GranuleOfPage(p: nat, offset: nat)
    requires offset < 4096
    ensures (p * 4096 + offset) / GRANULE == p / 4
  {
    assert p == p / 4 * 4 + p % 4;
    DivIs(p * 4096 + offset, GRANULE, p / 4, p % 4 * 4096 + offset);
  }

  /** The next byte of a page is next in physical memory, too. */
  lemma {:induction false} NextByte(mask: RamMask, addr: nat)
    requires addr < TOP && addr % 4096 != 4095
    ensures addr + 1 < TOP && (addr + 1) / 4096 == addr / 4096
    ensures Masked(mask, addr + 1) == Masked(mask, addr) + 1
    ensures Masked(mask, addr + 1) / GRANULE == Masked(mask, addr) / GRANULE == PhysPage(mask, addr / 4096) / 4
  {
    var p, offset := PhysPage(mask, addr / 4096), addr % 4096;
    assert addr == addr / 4096 * 4096 + offset;
    DivIs(addr + 1, 4096, addr / 4096, offset + 1);
    GranuleOfPage(p, offset);
    GranuleOfPage(p, offset + 1);
  }

  lemma {:induction false} EvenStays(addr: nat)
    requires addr % 2 == 0
    ensures addr % 4096 != 4095
  {
    assert addr == addr / 4096 * 4096 + addr % 4096;
    var k := addr / 4096 * 2048;
    assert addr % 4096 == 2 * (addr / 2 - k);
  }

  function Word(lo: int, hi: int): int {
    lo + 256 * hi
  }

  function Dword(lo: int, hi: int): int {
    lo + 0x1_0000 * hi
  }

  /** What devices answer to reads of a byte, a word and a double word. */
  datatype Oracle = Oracle(b: (nat, nat) -> int, w: (nat, nat) -> int, l: (nat, nat) -> int)

  /** Does a word at addr reach into the next page? */
  predicate Crosses(addr: nat) {
    addr % 4096 == 4095
  }

  /** Does a double word? */
  predicate CrossesL(addr: nat) {
    addr % 4096 > 0xffc
  }

  /** Four bytes of a page lie next to each other in physical memory. */
  lemma {:induction false} NextWord(mask: RamMask, addr: nat)
    requires addr < TOP && !CrossesL(addr)
    ensures addr + 2 < TOP && !Crosses(addr) && !Crosses(addr + 2)
    ensures Masked(mask, addr + 2) == Masked(mask, addr) + 2
    ensures Masked(mask, addr + 2) / GRANULE == Masked(mask, addr) / GRANULE
  {
    NextByte(mask, addr);
    NextByte(mask, addr + 1);
    DivIs(addr + 1, 4096, addr / 4096, addr % 4096 + 1);
    DivIs(addr + 2, 4096, addr / 4096, addr % 4096 + 2);
  }

  lemma {:induction false} AlignedStays(addr: nat)
    requires addr % 4 == 0
    ensures !CrossesL(addr)
  {
    assert addr == addr / 4096 * 4096 + addr % 4096;
    assert addr % 4096 == 4 * (addr / 4 - addr / 4096 * 1024);
  }

  /** The flat memory: what the accesses mean. */
  datatype Flat = Flat(ram: seq<byte>, readers: seq<Handler>, writers: seq<Handler>, mask: RamMask) {
    predicate Valid() {
      && |readers| == |writers| == GRANULES
      && (forall g | 0 <= g < GRANULES && (readers[g].Ram? || writers[g].Ram?) :: (g + 1) * GRANULE <= |ram|)
    }

    function Load(addr: nat, dev: Oracle): int
      requires Valid() && addr < TOP
    {
      var a := Masked(mask, addr);
      match readers[a / GRANULE]
      case Ram => ram[a]
      case Device(id) => dev.b(id, a)
      case Nothing => 0xff
    }

    function Store(addr: nat, val: byte): (f: Flat)
      requires Valid() && addr < TOP
      ensures f.Valid() && f == this.(ram := f.ram) && |f.ram| == |ram|
    {
      var a := Masked(mask, addr);
      if writers[a / GRANULE].Ram? then this.(ram := ram[a := val]) else this
    }

    function LoadWord(addr: nat, dev: Oracle): int
      requires Valid() && addr < TOP
    {
      var a := Masked(mask, addr);
      if Crosses(addr) then Word(Load(addr, dev), Load((addr + 1) % TOP, dev))
      else match readers[a / GRANULE]
        case Ram => Word(Load(addr, dev), Load((addr + 1) % TOP, dev))
        case Device(id) => dev.w(id, a)
        case Nothing => 0xffff
    }

    /** A double word across pages is read as two words. */
    function LoadDword(addr: nat, dev: Oracle): int
      requires Valid() && addr < TOP
    {
      var a := Masked(mask, addr);
      if CrossesL(addr) then Dword(LoadWord(addr, dev), LoadWord((addr + 2) % TOP, dev))
      else match readers[a / GRANULE]
        case Ram => Dword(LoadWord(addr, dev), LoadWord((addr + 2) % TOP, dev))
        case Device(id) => dev.l(id, a)
        case Nothing => 0xffff_ffff
    }

    /** Storing a word is storing its bytes, low byte first. */
    function StoreWord(addr: nat, val: nat): (f: Flat)
      requires Valid() && addr < TOP && val < 0x1_0000
      ensures f.Valid() && f == this.(ram := f.ram) && |f.ram| == |ram|
    {
      Store(addr, val % 256).Store((addr + 1) % TOP, val / 256)
    }

    function StoreDword(addr: nat, val: nat): (f: Flat)
      requires Valid() && addr < TOP && val < TOP
      ensures f.Valid() && f == this.(ram := f.ram) && |f.ram| == |ram|
    {
      StoreWord(addr, val % 0x1_0000).StoreWord((addr + 2) % TOP, val / 0x1_0000)
    }
  }

  /** A word of RAM within a page is two neighbouring bytes. */
  lemma {:induction false} RamWord(f: Flat, addr: nat, dev: Oracle)
    requires f.Valid() && addr < TOP && !Crosses(addr)
    requires f.readers[Masked(f.mask, addr) / GRANULE].Ram?
    ensures Masked(f.mask, addr) + 1 < |f.ram|
    ensures f.LoadWord(addr, dev) == Word(f.ram[Masked(f.mask, addr)], f.ram[Masked(f.mask, addr) + 1])
  {
    NextByte(f.mask, addr);
    SmallModulus(addr + 1);
    RamByte(f, addr, dev);
    RamByte(f, addr + 1, dev);
  }

  lemma {:induction false} RamByte(f: Flat, addr: nat, dev: Oracle)
    requires f.Valid() && addr < TOP && f.readers[Masked(f.mask, addr) / GRANULE].Ram?
    ensures Masked(f.mask, addr) < |f.ram| && f.Load(addr, dev) == f.ram[Masked(f.mask, addr)]
  {
  }

  /** Two bytes stored at once in a page. */
  function StorePair(f: Flat, addr: nat, lo: byte, hi: byte): Flat
    requires f.Valid() && addr < TOP && !Crosses(addr)
  {
    NextByte(f.mask, addr);
    var a := Masked(f.mask, addr);
    if f.writers[a / GRANULE].Ram? then f.(ram := f.ram[a := lo][a + 1 := hi]) else f
  }

  /** Both bytes of a word within a page go to the same handler. */
  lemma {:induction false} TwoStores(f: Flat, addr: nat, lo: byte, hi: byte)
    requires f.Valid() && addr < TOP && !Crosses(addr)
    ensures f.Store(addr, lo).Store((addr + 1) % TOP, hi) == StorePair(f, addr, lo, hi)
  {
    NextByte(f.mask, addr);
    SmallModulus(addr + 1);
  }

  /** A double word of RAM within a page is two neighbouring words. */
  lemma {:induction false} RamDword(f: Flat, addr: nat, dev: Oracle)
    requires f.Valid() && addr < TOP && !CrossesL(addr)
    requires f.readers[Masked(f.mask, addr) / GRANULE].Ram?
    ensures var a := Masked(f.mask, addr);
            && a + 3 < |f.ram|
            && f.LoadDword(addr, dev) == Dword(Word(f.ram[a], f.ram[a + 1]), Word(f.ram[a + 2], f.ram[a + 3]))
  {
    NextWord(f.mask, addr);
    RamWord(f, addr, dev);
    RamWord(f, addr + 2, dev);
    SmallModulus(addr + 2);
  }

  lemma {:induction false} SmallModulus(x: nat)
    requires x < TOP
    ensures x % TOP == x
  {
  }

  /** Four bytes stored at once in a page. */
  function StoreQuad(f: Flat, addr: nat, b0: byte, b1: byte, b2: byte, b3: byte): Flat
    requires f.Valid() && addr < TOP && !CrossesL(addr)
  {
    NextWord(f.mask, addr);
    NextByte(f.mask, addr + 2);
    var a := Masked(f.mask, addr);
    if f.writers[a / GRANULE].Ram? then f.(ram := f.ram[a := b0][a + 1 := b1][a + 2 := b2][a + 3 := b3]) else f
  }

  lemma {:induction false} OneInRam(f: Flat, addr: nat, val: byte)
    requires f.Valid() && addr < TOP && f.writers[Masked(f.mask, addr) / GRANULE].Ram?
    ensures Masked(f.mask, addr) < |f.ram| && f.Store(addr, val) == f.(ram := f.ram[Masked(f.mask, addr) := val])
  {
  }

  lemma {:induction false} FourInRam(f: Flat, addr: nat)
    requires f.Valid() && addr < TOP && !CrossesL(addr) && f.writers[Masked(f.mask, addr) / GRANULE].Ram?
    ensures Masked(f.mask, addr) + 3 < |f.ram|
  {
    NextWord(f.mask, addr);
    NextByte(f.mask, addr);
    NextByte(f.mask, addr + 2);
  }

  lemma {:induction false} PairKeeps(f: Flat, addr: nat, lo: byte, hi: byte)
    requires f.Valid() && addr < TOP && !Crosses(addr)
    ensures var g := StorePair(f, addr, lo, hi); g.Valid() && g == f.(ram := g.ram) && |g.ram| == |f.ram|
  {
  }

  lemma {:induction false} TwoPairs(f: Flat, addr: nat, b0: byte, b1: byte, b2: byte, b3: byte)
    requires f.Valid() && addr < TOP && !CrossesL(addr)
    ensures addr + 2 < TOP && !Crosses(addr) && !Crosses(addr + 2) && StorePair(f, addr, b0, b1).Valid()
    ensures StorePair(StorePair(f, addr, b0, b1), addr + 2, b2, b3) == StoreQuad(f, addr, b0, b1, b2, b3)
  {
    NextWord(f.mask, addr);
    PairKeeps(f, addr, b0, b1);
  }

  lemma {:induction false} WordIsPair(f: Flat, addr: nat, val: nat)
    requires f.Valid() && addr < TOP && !Crosses(addr) && val < 0x1_0000
    ensures f.StoreWord(addr, val) == StorePair(f, addr, val % 256, val / 256)
  {
    TwoStores(f, addr, val % 256, val / 256);
  }

  lemma {:induction false} FourStores(f: Flat, addr: nat, lo: nat, hi: nat)
    requires f.Valid() && addr < TOP && !CrossesL(addr) && lo < 0x1_0000 && hi < 0x1_0000
    ensures f.StoreWord(addr, lo).StoreWord((addr + 2) % TOP, hi) ==
            StoreQuad(f, addr, lo % 256, lo / 256, hi % 256, hi / 256)
  {
    SmallModulus(addr + 2);
    NextWord(f.mask, addr);
    TwoPairs(f, addr, lo % 256, lo / 256, hi % 256, hi / 256);
    WordIsPair(f, addr, lo);
    WordIsPair(f.StoreWord(addr, lo), addr + 2, hi);
  }

  // ----- byte order and addresses ----------------------------------------------

  /** RAM answers both reads and writes of the byte at addr. */
  predicate InRam(f: Flat, addr: nat)
    requires f.Valid() && addr < TOP
  {
    f.readers[Masked(f.mask, addr) / GRANULE].Ram? && f.writers[Masked(f.mask, addr) / GRANULE].Ram?
  }

  /** The address of byte k of a number at addr. */
  function ByteAt(addr: nat, k: nat): (a: nat)
    requires addr < TOP
    ensures a < TOP
  {
    (addr + k) % TOP
  }

  /** Few bytes on, it is another place in RAM, in the same page or another. */
  lemma {:induction false} OtherByte(mask: RamMask, addr: nat, j: nat, k: nat)
    requires addr < TOP && j < k < 4
    ensures Masked(mask, ByteAt(addr, j)) != Masked(mask, ByteAt(addr, k))
  {
    WithinPage(addr, j);
    WithinPage(addr, k);
    PageOffset(addr % 4096, j, k);
  }

  lemma {:induction false} WithinPage(addr: nat, k: nat)
    requires addr < TOP && k < 4
    ensures ByteAt(addr, k) % 4096 == (addr % 4096 + k) % 4096
  {
    assert addr == addr / 4096 * 4096 + addr % 4096;
    var x := addr % 4096 + k;
    var wraps := if addr + k >= TOP then 1 else 0;
    var over := if x >= 4096 then 1 else 0;
    DivIs(addr + k, TOP, wraps, addr + k - wraps * TOP);
    DivIs(x, 4096, over, x - over * 4096);
    DivIs(addr + k - wraps * TOP, 4096, addr / 4096 + over - wraps * 0x10_0000, x - over * 4096);
  }

  lemma {:induction false} PageOffset(x: nat, j: nat, k: nat)
    requires x < 4096 && j < k < 4
    ensures (x + j) % 4096 != (x + k) % 4096
  {
  }

  /** A byte stored is read back, and no other byte changes. */
  lemma {:induction false} ByteStored(f: Flat, addr: nat, val: byte, x: nat, dev: Oracle)
    requires f.Valid() && addr < TOP && x < TOP && InRam(f, addr)
    ensures var a, b := Masked(f.mask, addr), Masked(f.mask, x);
            f.Store(addr, val).Load(x, dev) == if a == b then val else f.Load(x, dev)
  {
  }

  /** A word of RAM is its two bytes, the low one first, wherever pages end. */
  lemma {:induction false} WordBytes(f: Flat, addr: nat, dev: Oracle)
    requires f.Valid() && addr < TOP
    requires f.readers[Masked(f.mask, addr) / GRANULE].Ram?
             && f.readers[Masked(f.mask, ByteAt(addr, 1)) / GRANULE].Ram?
    ensures f.LoadWord(addr, dev) == f.Load(addr, dev) + 0x100 * f.Load(ByteAt(addr, 1), dev)
    ensures f.LoadWord(addr, dev) % 0x100 == f.Load(addr, dev)
    ensures f.LoadWord(addr, dev) / 0x100 == f.Load(ByteAt(addr, 1), dev)
  {
    RamByte(f, addr, dev);
    RamByte(f, ByteAt(addr, 1), dev);
    DivIs(f.LoadWord(addr, dev), 0x100, f.Load(ByteAt(addr, 1), dev), f.Load(addr, dev));
  }

  /** All four bytes of a double word are answered by RAM. */
  predicate RamDwordAt(f: Flat, addr: nat)
    requires f.Valid() && addr < TOP
  {
    forall k | 0 <= k < 4 :: f.readers[Masked(f.mask, ByteAt(addr, k)) / GRANULE].Ram?
  }

  lemma {:induction false} HighWord(addr: nat)
    requires addr < TOP
    ensures ByteAt(ByteAt(addr, 2), 1) == ByteAt(addr, 3) && ByteAt(addr, 0) == addr
  {
  }

  lemma {:induction false} DwordBytes(f: Flat, addr: nat, dev: Oracle)
    requires f.Valid() && addr < TOP && RamDwordAt(f, addr)
    ensures f.LoadDword(addr, dev) == f.Load(addr, dev) + 0x100 * f.Load(ByteAt(addr, 1), dev)
              + 0x1_0000 * f.Load(ByteAt(addr, 2), dev) + 0x100_0000 * f.Load(ByteAt(addr, 3), dev)
  {
    HighWord(addr);
    assert f.readers[Masked(f.mask, ByteAt(addr, 0)) / GRANULE].Ram?;
    WordBytes(f, addr, dev);
    WordBytes(f, ByteAt(addr, 2), dev);
  }

  lemma {:induction false} TwoInRam(f: Flat, addr: nat, val: nat)
    requires f.Valid() && addr < TOP && val < 0x1_0000
    ensures forall x | 0 <= x < TOP :: InRam(f.StoreWord(addr, val), x) == InRam(f, x)
  {
  }

  /** What a word stored does to the bytes read. */
  lemma {:induction false} WordStored(f: Flat, addr: nat, val: nat, x: nat, dev: Oracle)
    requires f.Valid() && addr < TOP && x < TOP && val < 0x1_0000 && InRam(f, addr) && InRam(f, ByteAt(addr, 1))
    ensures var b, g := Masked(f.mask, x), f.StoreWord(addr, val);
            g.Load(x, dev) == if b == Masked(f.mask, ByteAt(addr, 1)) then val / 0x100
                              else if b == Masked(f.mask, addr) then val % 0x100 else f.Load(x, dev)
  {
    var lo: byte, hi: byte := val % 0x100, val / 0x100;
    ByteStored(f, addr, lo, x, dev);
    ByteStored(f.Store(addr, lo), ByteAt(addr, 1), hi, x, dev);
  }

  /** A word stored in RAM is read back, across pages, too. */
  lemma {:induction false} WordComesBack(f: Flat, addr: nat, val: nat, dev: Oracle)
    requires f.Valid() && addr < TOP && val < 0x1_0000 && InRam(f, addr) && InRam(f, ByteAt(addr, 1))
    ensures f.StoreWord(addr, val).LoadWord(addr, dev) == val
  {
    HighWord(addr);
    OtherByte(f.mask, addr, 0, 1);
    WordStored(f, addr, val, addr, dev);
    WordStored(f, addr, val, ByteAt(addr, 1), dev);
    WordBytes(f.StoreWord(addr, val), addr, dev);
  }

  /** Are all four bytes of a double word in RAM? */
  predicate DwordInRam(f: Flat, addr: nat)
    requires f.Valid() && addr < TOP
  {
    InRam(f, addr) && InRam(f, ByteAt(addr, 1)) && InRam(f, ByteAt(addr, 2)) && InRam(f, ByteAt(addr, 3))
  }

  /** The high word does not touch the low one. */
  lemma {:induction false} HighWordStored(f: Flat, addr: nat, lo: nat, hi: nat, dev: Oracle)
    requires f.Valid() && addr < TOP && lo < 0x1_0000 && hi < 0x1_0000 && DwordInRam(f, addr)
    ensures var g := f.StoreWord(addr, lo).StoreWord(ByteAt(addr, 2), hi);
            && g.Load(addr, dev) == lo % 0x100 && g.Load(ByteAt(addr, 1), dev) == lo / 0x100
            && g.Load(ByteAt(addr, 2), dev) == hi % 0x100 && g.Load(ByteAt(addr, 3), dev) == hi / 0x100
  {
    HighWord(addr);
    forall j, k | 0 <= j < k < 4 ensures Masked(f.mask, ByteAt(addr, j)) != Masked(f.mask, ByteAt(addr, k)) {
      OtherByte(f.mask, addr, j, k);
    }
    assert Masked(f.mask, ByteAt(addr, 0)) == Masked(f.mask, addr);
    var h := f.StoreWord(addr, lo);
    TwoInRam(f, addr, lo);
    WordStored(f, addr, lo, addr, dev);
    WordStored(f, addr, lo, ByteAt(addr, 1), dev);
    WordStored(h, ByteAt(addr, 2), hi, addr, dev);
    WordStored(h, ByteAt(addr, 2), hi, ByteAt(addr, 1), dev);
    WordStored(h, ByteAt(addr, 2), hi, ByteAt(addr, 2), dev);
    WordStored(h, ByteAt(addr, 2), hi, ByteAt(addr, 3), dev);
  }

  lemma {:induction false} DwordComesBack(f: Flat, addr: nat, val: nat, dev: Oracle)
    requires f.Valid() && addr < TOP && val < TOP && DwordInRam(f, addr)
    ensures f.StoreDword(addr, val).LoadDword(addr, dev) == val
  {
    var g := f.StoreDword(addr, val);
    HighWordStored(f, addr, val % 0x1_0000, val / 0x1_0000, dev);
    HighWord(addr);
    forall k | 0 <= k < 4 ensures g.readers[Masked(g.mask, ByteAt(addr, k)) / GRANULE].Ram? {
      assert k == 0 || k == 1 || k == 2 || k == 3;
    }
    DwordBytes(g, addr, dev);
  }

  /** Where nothing is mapped, accesses within a page read all ones; where a device is,
      its own answer. */
  lemma {:induction false} OutsideRam(f: Flat, addr: nat, dev: Oracle)
    requires f.Valid() && addr < TOP
    ensures var a := Masked(f.mask, addr);
            var h := f.readers[a / GRANULE];
            && (h.Nothing? ==> f.Load(addr, dev) == 0xff)
            && (h.Nothing? && addr % 4096 < 4095 ==> f.LoadWord(addr, dev) == 0xffff)
            && (h.Nothing? && addr % 4096 < 4093 ==> f.LoadDword(addr, dev) == 0xffff_ffff)
            && (h.Device? ==> f.Load(addr, dev) == dev.b(h.id, a))
            && (h.Device? && addr % 4096 < 4095 ==> f.LoadWord(addr, dev) == dev.w(h.id, a))
            && (h.Device? && addr % 4096 < 4093 ==> f.LoadDword(addr, dev) == dev.l(h.id, a))
  {
  }

  /** A number across pages is put together from its halves, whatever answers them. */
  lemma {:induction false} AcrossPages(f: Flat, addr: nat, dev: Oracle)
    requires f.Valid() && addr < TOP
    ensures addr % 4096 == 4095 ==> f.LoadWord(addr, dev) == f.Load(addr, dev) + 0x100 * f.Load((addr + 1) % TOP, dev)
    ensures addr % 4096 >= 4093 ==>
              f.LoadDword(addr, dev) == f.LoadWord(addr, dev) + 0x1_0000 * f.LoadWord((addr + 2) % TOP, dev)
  {
  }

  /** What the address lines let through: 20 of them on an XT, 24 on a 16-bit bus, all
      on a 32-bit one, and on an AT line 20 only while its gate is open. */
  lemma {:induction false} LinesLetThrough(at: bool, bus16: bool, a20: bool, addr: nat)
    requires addr < TOP
    ensures var a := if !at then addr % 0x10_0000 else if bus16 then addr % 0x100_0000 else addr;
            Masked(MaskFor(at, bus16, a20), addr) ==
              if at && !a20 && a / 0x10_0000 % 2 == 1 then a - 0x10_0000 else a
  {
    Digits(addr, 4096, 0x100);
    Digits(addr, 4096, 0x1000);
    var a := if bus16 then addr % 0x100_0000 else addr;
    DivIs(addr % 0x100_0000, 4096, addr / 4096 % 0x1000, addr % 4096);
    Digits(a, 4096, 0x100);
    assert addr == addr / 4096 * 4096 + addr % 4096;
  }

  datatype Op =
    | ReadOp(addr: nat)
    | WriteOp(addr: nat, val: byte)
    | ReadWordOp(addr: nat)
    | WriteWordOp(addr: nat, word: nat)
    | ReadDwordOp(addr: nat)
    | WriteDwordOp(addr: nat, dword: nat)
    | RemapOp(readers: seq<Handler>, writers: seq<Handler>)   // what any mem_map_ operation amounts to
    | A20Op(key: bool, alt: bool)
    | CodeOp(page: nat, virt: nat)                             // a page gets translated code
    | NoCodeOp(page: nat)

  predicate Sensible(op: Op, size: nat) {
    match op
    case ReadOp(addr) => addr < TOP
    case WriteOp(addr, _) => addr < TOP
    case ReadWordOp(addr) => addr < TOP
    case WriteWordOp(addr, word) => addr < TOP && word < 0x1_0000
    case ReadDwordOp(addr) => addr < TOP
    case WriteDwordOp(addr, dword) => addr < TOP && dword < TOP
    case RemapOp(r, w) =>
      && |r| == |w| == GRANULES
      && forall g | 0 <= g < GRANULES && (r[g].Ram? || w[g].Ram?) :: (g + 1) * GRANULE <= size
    case A20Op(_, _) => true
    case CodeOp(page, virt) => page < PAGES
    case NoCodeOp(_) => true
  }

  function MaskFor(at: bool, bus16: bool, a20: bool): RamMask {
    if !at then Mask1M
    else if a20 then (if bus16 then Mask16M else Mask4G)
    else (if bus16 then Mask16MNoA20 else Mask4GNoA20)
  }

  /** One operation on the flat memory: the new memory and the value read. */
  function Effect(f: Flat, op: Op, dev: Oracle, at: bool, bus16: bool): (r: (Flat, int))
    requires f.Valid() && Sensible(op, |f.ram|)
    ensures r.0.Valid() && |r.0.ram| == |f.ram|
  {
    match op
    case ReadOp(addr) => (f, f.Load(addr, dev))
    case WriteOp(addr, val) => (f.Store(addr, val), 0)
    case ReadWordOp(addr) => (f, f.LoadWord(addr, dev))
    case WriteWordOp(addr, word) => (f.StoreWord(addr, word), 0)
    case ReadDwordOp(addr) => (f, f.LoadDword(addr, dev))
    case WriteDwordOp(addr, dword) => (f.StoreDword(addr, dword), 0)
    case RemapOp(r, w) => (f.(readers := r, writers := w), 0)
    case A20Op(key, alt) => (f.(mask := MaskFor(at, bus16, key || alt)), 0)
    case CodeOp(_, _) => (f, 0)
    case NoCodeOp(_) => (f, 0)
  }

  /** The memory after a run. */
  function After(f: Flat, ops: seq<Op>, dev: Oracle, at: bool, bus16: bool): (r: Flat)
    requires f.Valid() && forall i | 0 <= i < |ops| :: Sensible(ops[i], |f.ram|)
    ensures r.Valid() && |r.ram| == |f.ram|
  {
    if ops == [] then f
    else Effect(After(f, ops[..|ops| - 1], dev, at, bus16), ops[|ops| - 1], dev, at, bus16).0
  }

  /** What the operations of a run yield, one after the other. */
  function Yields(f: Flat, ops: seq<Op>, dev: Oracle, at: bool, bus16: bool): (r: seq<int>)
    requires f.Valid() && forall i | 0 <= i < |ops| :: Sensible(ops[i], |f.ram|)
    ensures |r| == |ops|
  {
    if ops == [] then []
    else
      var before := ops[..|ops| - 1];
      Yields(f, before, dev, at, bus16) + [Effect(After(f, before, dev, at, bus16), ops[|ops| - 1], dev, at, bus16).1]
  }

  lemma {:induction false} RunStep(f: Flat, ops: seq<Op>, n: nat, dev: Oracle, at: bool, bus16: bool, m: Flat, r: int)
    requires f.Valid() && n < |ops| && forall i | 0 <= i < |ops| :: Sensible(ops[i], |f.ram|)
    requires Effect(After(f, ops[..n], dev, at, bus16), ops[n], dev, at, bus16) == (m, r)
    ensures After(f, ops[..n + 1], dev, at, bus16) == m
    ensures Yields(f, ops[..n + 1], dev, at, bus16) == Yields(f, ops[..n], dev, at, bus16) + [r]
  {
    assert ops[..n + 1][..n] == ops[..n] && ops[..n + 1][n] == ops[n];
  }

  class Bus {
    const caches: Caches
    const ram: array<byte>
    const readMapping: array<Handler>
    const writeMapping: array<Handler>
    const dev: Oracle
    var rammask: RamMask
    var memLogicalAddr: nat
    var codePages: set<nat>         // physical pages that hold translated code

    const at: bool
    const bus16: bool
    var a20Key: bool
    var a20Alt: bool
    var a20State: bool

    /** The state after a reset: nothing mapped, lookups empty. */
    constructor (size: nat, dev: Oracle, at: bool, bus16: bool)
      ensures Valid() && ram.Length == size && this.dev == dev && this.at == at && this.bus16 == bus16
      ensures fresh(ram) && fresh(readMapping) && fresh(writeMapping) && fresh(caches)
    {
      caches := new Caches();
      ram := new byte[size](_ => 0);
      readMapping := new Handler[GRANULES](_ => Nothing);
      writeMapping := new Handler[GRANULES](_ => Nothing);
      rammask := MaskFor(at, bus16, false);
      memLogicalAddr, codePages := 0, {};
      this.dev, this.at, this.bus16 := dev, at, bus16;
      a20Key, a20Alt, a20State := false, false, false;
    }

    ghost function Memory(): Flat
      reads this`rammask, ram, readMapping, writeMapping
    {
      Flat(ram[..], readMapping[..], writeMapping[..], rammask)
    }

    ghost predicate Shape() {
      && readMapping.Length == writeMapping.Length == GRANULES && readMapping != writeMapping
      && ram as object != caches.readlookup && ram as object != caches.writelookup && ram as object != caches.pageLookup
    }

    /** A live read entry reaches the byte the slow path would read. */
    ghost predicate ReadsAgree()
      requires caches.readlookup2.Length == PAGES && readMapping.Length == GRANULES
      reads this`rammask, caches.readlookup2, readMapping
    {
      forall v | 0 <= v < PAGES && caches.readlookup2[v].Live? ::
        && readMapping[PhysPage(rammask, v) / 4].Ram?
        && caches.readlookup2[v].offset == (PhysPage(rammask, v) - v) * 4096
    }

    /** A live write entry, or the page whose handlers stand in for it, reaches
        the byte the slow path would write. */
    ghost predicate WritesAgree()
      requires caches.writelookup2.Length == PAGES && caches.pageLookup.Length == PAGES
               && writeMapping.Length == GRANULES
      reads this`rammask, caches.writelookup2, caches.pageLookup, writeMapping
    {
      forall v | 0 <= v < PAGES && caches.WriteLive(v) ::
        && writeMapping[PhysPage(rammask, v) / 4].Ram?
        && (caches.writelookup2[v].Live? ==> caches.writelookup2[v].offset == (PhysPage(rammask, v) - v) * 4096)
        && (caches.pageLookup[v] != -1 ==> caches.pageLookup[v] == PhysPage(rammask, v))
    }

    ghost predicate Valid()
      reads this, ram, readMapping, writeMapping, caches, caches.readlookup, caches.readlookup2
      reads caches.writelookup, caches.writelookup2, caches.pageLookup
    {
      && Shape() && caches.Valid() && Memory().Valid() && ReadsAgree() && WritesAgree()
      && rammask == MaskFor(at, bus16, a20State) && (!at ==> !a20State)
    }

    // ----- reading -------------------------------------------------------------

    /** mem_read_ram and mem_read_ramw, as far as the lookups go. */
    method EnterRead(a: nat)
      requires Valid() && a < TOP && readMapping[a / GRANULE].Ram?
      requires memLogicalAddr < TOP && a == Masked(rammask, memLogicalAddr)
      modifies caches`readlnext, caches.readlookup, caches.readlookup2
      ensures Valid() && Memory() == old(Memory())
    {
      caches.AddRead(memLogicalAddr, a);
    }

    /** readmembl */
    method SlowReadB(addr: nat) returns (r: int)
      requires Valid() && addr < TOP
      modifies this`memLogicalAddr, caches`readlnext, caches.readlookup, caches.readlookup2
      ensures Valid() && Memory() == old(Memory())
      ensures r == Memory().Load(addr, dev)
    {
      memLogicalAddr := addr;
      var a := Masked(rammask, addr);
      match readMapping[a / GRANULE] {
        case Nothing =>
          r := 0xff;
        case Device(id) =>
          r := dev.b(id, a);
        case Ram =>
          EnterRead(a);
          r := ram[a];
      }
    }

    /** readmemb */
    method ReadB(addr: nat) returns (r: int)
      requires Valid() && addr < TOP
      modifies this`memLogicalAddr, caches`readlnext, caches.readlookup, caches.readlookup2
      ensures Valid() && Memory() == old(Memory())
      ensures r == Memory().Load(addr, dev)
    {
      match caches.readlookup2[addr / 4096] {
        case Dead =>
          r := SlowReadB(addr);
        case Live(offset) =>
          r := ram[offset + addr];
      }
    }

    /** A word read through the lookup table. */
    method FastReadW(addr: nat) returns (r: int)
      requires Valid() && addr < TOP && !Crosses(addr) && caches.readlookup2[addr / 4096].Live?
      ensures r == Memory().LoadWord(addr, dev)
    {
      NextByte(rammask, addr);
      var offset := caches.readlookup2[addr / 4096].offset;
      assert offset + addr == Masked(rammask, addr);
      RamWord(Memory(), addr, dev);
      r := Word(ram[offset + addr], ram[offset + addr + 1]);
    }

    /** The part of readmemwl for words within a page. */
    method MappedReadW(addr: nat) returns (r: int)
      requires Valid() && addr < TOP && !Crosses(addr) && memLogicalAddr == addr
      modifies caches`readlnext, caches.readlookup, caches.readlookup2
      ensures Valid() && Memory() == old(Memory())
      ensures r == Memory().LoadWord(addr, dev)
    {
      var a := Masked(rammask, addr);
      match readMapping[a / GRANULE] {
        case Nothing =>
          r := 0xffff;
        case Device(id) =>
          r := dev.w(id, a);
        case Ram =>
          RamWord(Memory(), addr, dev);
          EnterRead(a);
          r := Word(ram[a], ram[a + 1]);
      }
    }

    /** readmemwl */
    method SlowReadW(addr: nat) returns (r: int)
      requires Valid() && addr < TOP
      modifies this`memLogicalAddr, caches`readlnext, caches.readlookup, caches.readlookup2
      ensures Valid() && Memory() == old(Memory())
      ensures r == Memory().LoadWord(addr, dev)
    {
      memLogicalAddr := addr;
      if addr % 2 == 1 {
        if addr % 4096 > 0xffe {
          var lo := SlowReadB(addr);
          var hi := SlowReadB((addr + 1) % TOP);
          return Word(lo, hi);
        } else if caches.readlookup2[addr / 4096].Live? {
          r := FastReadW(addr);
          return;
        }
      } else {
        EvenStays(addr);
      }
      r := MappedReadW(addr);
    }

    /** readmemw */
    method ReadW(addr: nat) returns (r: int)
      requires Valid() && addr < TOP
      modifies this`memLogicalAddr, caches`readlnext, caches.readlookup, caches.readlookup2
      ensures Valid() && Memory() == old(Memory())
      ensures r == Memory().LoadWord(addr, dev)
    {
      if caches.readlookup2[addr / 4096].Dead? || addr % 2 == 1 {
        r := SlowReadW(addr);
      } else {
        EvenStays(addr);
        r := FastReadW(addr);
      }
    }

    /** A double word read through the lookup table. */
    method FastReadL(addr: nat) returns (r: int)
      requires Valid() && addr < TOP && !CrossesL(addr) && caches.readlookup2[addr / 4096].Live?
      ensures r == Memory().LoadDword(addr, dev)
    {
      NextWord(rammask, addr);
      NextByte(rammask, addr);
      var k := caches.readlookup2[addr / 4096].offset + addr;
      assert k == Masked(rammask, addr);
      RamDword(Memory(), addr, dev);
      r := Dword(Word(ram[k], ram[k + 1]), Word(ram[k + 2], ram[k + 3]));
    }

    /** The part of readmemll for double words within a page. */
    method MappedReadL(addr: nat) returns (r: int)
      requires Valid() && addr < TOP && !CrossesL(addr) && memLogicalAddr == addr
      modifies caches`readlnext, caches.readlookup, caches.readlookup2
      ensures Valid() && Memory() == old(Memory())
      ensures r == Memory().LoadDword(addr, dev)
    {
      var a := Masked(rammask, addr);
      match readMapping[a / GRANULE] {
        case Nothing =>
          r := 0xffff_ffff;
        case Device(id) =>
          r := dev.l(id, a);
        case Ram =>
          EnterRead(a);
          RamDword(Memory(), addr, dev);
          r := Dword(Word(ram[a], ram[a + 1]), Word(ram[a + 2], ram[a + 3]));
      }
    }

    /** readmemll */
    method SlowReadL(addr: nat) returns (r: int)
      requires Valid() && addr < TOP
      modifies this`memLogicalAddr, caches`readlnext, caches.readlookup, caches.readlookup2
      ensures Valid() && Memory() == old(Memory())
      ensures r == Memory().LoadDword(addr, dev)
    {
      memLogicalAddr := addr;
      if addr % 4 != 0 {
        if addr % 4096 > 0xffc {
          var lo := SlowReadW(addr);
          var hi := SlowReadW((addr + 2) % TOP);
          return Dword(lo, hi);
        } else if caches.readlookup2[addr / 4096].Live? {
          r := FastReadL(addr);
          return;
        }
      } else {
        AlignedStays(addr);
      }
      r := MappedReadL(addr);
    }

    /** readmeml */
    method ReadL(addr: nat) returns (r: int)
      requires Valid() && addr < TOP
      modifies this`memLogicalAddr, caches`readlnext, caches.readlookup, caches.readlookup2
      ensures Valid() && Memory() == old(Memory())
      ensures r == Memory().LoadDword(addr, dev)
    {
      if caches.readlookup2[addr / 4096].Dead? || addr % 4 != 0 {
        r := SlowReadL(addr);
      } else {
        AlignedStays(addr);
        r := FastReadL(addr);
      }
    }

    // ----- writing -------------------------------------------------------------

    /** mem_write_ram and mem_write_ramw, as far as the lookups go. */
    method EnterWrite(a: nat)
      requires Valid() && a < TOP && writeMapping[a / GRANULE].Ram?
      requires memLogicalAddr < TOP && a == Masked(rammask, memLogicalAddr)
      modifies caches`writelnext, caches.writelookup, caches.writelookup2, caches.pageLookup
      ensures Valid() && Memory() == old(Memory())
    {
      caches.AddWrite(memLogicalAddr, a, a / 4096 in codePages);
    }

    method PutByte(k: nat, val: byte)
      requires Valid() && k < ram.Length
      modifies ram
      ensures Valid() && Memory() == old(Memory()).(ram := old(ram[..])[k := val])
    {
      ram[k] := val;
    }

    /** mem_write_ramb_page: the byte of a page at the offset of addr. */
    method PageWriteB(addr: nat, val: byte, page: nat)
      requires Valid() && page * 4096 + addr % 4096 < ram.Length
      modifies ram
      ensures Valid() && Memory() == old(Memory()).(ram := old(ram[..])[page * 4096 + addr % 4096 := val])
    {
      if val != ram[page * 4096 + addr % 4096] {
        PutByte(page * 4096 + addr % 4096, val);
      }
    }

    /** mem_write_ramw_page */
    method PageWriteW(addr: nat, lo: byte, hi: byte, page: nat)
      requires Valid() && page * 4096 + addr % 4096 + 1 < ram.Length
      modifies ram
      ensures var k := page * 4096 + addr % 4096;
              Valid() && Memory() == old(Memory()).(ram := old(ram[..])[k := lo][k + 1 := hi])
    {
      var k := page * 4096 + addr % 4096;
      if lo != ram[k] || hi != ram[k + 1] {
        ram[k], ram[k + 1] := lo, hi;
      }
    }

    /** writemembl */
    method SlowWriteB(addr: nat, val: byte)
      requires Valid() && addr < TOP
      modifies this`memLogicalAddr, ram, caches`writelnext, caches.writelookup, caches.writelookup2, caches.pageLookup
      ensures Valid() && Memory() == old(Memory()).Store(addr, val)
    {
      memLogicalAddr := addr;
      if caches.pageLookup[addr / 4096] != -1 {
        PageWriteB(addr, val, caches.pageLookup[addr / 4096]);
        return;
      }
      var a := Masked(rammask, addr);
      if writeMapping[a / GRANULE].Ram? {
        EnterWrite(a);
        PageWriteB(a, val, a / 4096);
      }
    }

    /** A byte written through the lookup table. */
    method FastWriteB(addr: nat, val: byte)
      requires Valid() && addr < TOP && caches.writelookup2[addr / 4096].Live?
      modifies ram
      ensures Valid() && Memory() == old(Memory()).Store(addr, val)
    {
      var k := caches.writelookup2[addr / 4096].offset + addr;
      assert k == Masked(rammask, addr);
      OneInRam(Memory(), addr, val);
      PutByte(k, val);
    }

    /** writememb */
    method WriteB(addr: nat, val: byte)
      requires Valid() && addr < TOP
      modifies this`memLogicalAddr, ram, caches`writelnext, caches.writelookup, caches.writelookup2, caches.pageLookup
      ensures Valid() && Memory() == old(Memory()).Store(addr, val)
    {
      match caches.writelookup2[addr / 4096] {
        case Dead =>
          SlowWriteB(addr, val);
        case Live(_) =>
          FastWriteB(addr, val);
      }
    }

    /** A word written through the lookup table. */
    method FastWriteW(addr: nat, lo: byte, hi: byte)
      requires Valid() && addr < TOP && !Crosses(addr) && caches.writelookup2[addr / 4096].Live?
      modifies ram
      ensures Valid() && Memory() == StorePair(old(Memory()), addr, lo, hi)
    {
      NextByte(rammask, addr);
      var offset := caches.writelookup2[addr / 4096].offset;
      assert offset + addr == Masked(rammask, addr);
      ram[offset + addr], ram[offset + addr + 1] := lo, hi;
      assert ram[..] == old(ram[..])[offset + addr := lo][offset + addr + 1 := hi];
    }

    /** The part of writememwl for words within a page. */
    method MappedWriteW(addr: nat, lo: byte, hi: byte)
      requires Valid() && addr < TOP && !Crosses(addr) && memLogicalAddr == addr
      modifies ram, caches`writelnext, caches.writelookup, caches.writelookup2, caches.pageLookup
      ensures Valid() && Memory() == StorePair(old(Memory()), addr, lo, hi)
    {
      NextByte(rammask, addr);
      if caches.pageLookup[addr / 4096] != -1 {
        PageWriteW(addr, lo, hi, caches.pageLookup[addr / 4096]);
        return;
      }
      var a := Masked(rammask, addr);
      if writeMapping[a / GRANULE].Ram? {
        EnterWrite(a);
        PageWriteW(a, lo, hi, a / 4096);
      }
    }

    /** writememwl */
    method SlowWriteW(addr: nat, lo: byte, hi: byte)
      requires Valid() && addr < TOP
      modifies this`memLogicalAddr, ram, caches`writelnext, caches.writelookup, caches.writelookup2, caches.pageLookup
      ensures Valid() && Memory() == old(Memory()).Store(addr, lo).Store((addr + 1) % TOP, hi)
    {
      memLogicalAddr := addr;
      if !Crosses(addr) {
        TwoStores(Memory(), addr, lo, hi);
      }
      if addr % 2 == 1 {
        if addr % 4096 > 0xffe {
          SlowWriteB(addr, lo);
          SlowWriteB((addr + 1) % TOP, hi);
          return;
        } else if caches.writelookup2[addr / 4096].Live? {
          FastWriteW(addr, lo, hi);
          return;
        }
      } else {
        EvenStays(addr);
      }
      MappedWriteW(addr, lo, hi);
    }

    /** writememw */
    method WriteW(addr: nat, word: nat)
      requires Valid() && addr < TOP && word < 0x1_0000
      modifies this`memLogicalAddr, ram, caches`writelnext, caches.writelookup, caches.writelookup2, caches.pageLookup
      ensures Valid() && Memory() == old(Memory()).StoreWord(addr, word)
    {
      if caches.writelookup2[addr / 4096].Dead? || addr % 2 == 1 {
        SlowWriteW(addr, word % 256, word / 256);
      } else {
        EvenStays(addr);
        TwoStores(Memory(), addr, word % 256, word / 256);
        FastWriteW(addr, word % 256, word / 256);
      }
    }

    /** mem_write_raml_page */
    method PageWriteL(addr: nat, b0: byte, b1: byte, b2: byte, b3: byte, page: nat)
      requires Valid() && page * 4096 + addr % 4096 + 3 < ram.Length
      modifies ram
      ensures var k := page * 4096 + addr % 4096;
              Valid() && Memory() == old(Memory()).(ram := old(ram[..])[k := b0][k + 1 := b1][k + 2 := b2][k + 3 := b3])
    {
      var k := page * 4096 + addr % 4096;
      if b0 != ram[k] || b1 != ram[k + 1] || b2 != ram[k + 2] || b3 != ram[k + 3] {
        PutQuad(k, b0, b1, b2, b3);
      }
    }

    method PutQuad(k: nat, b0: byte, b1: byte, b2: byte, b3: byte)
      requires Valid() && k + 3 < ram.Length
      modifies ram
      ensures Valid() && Memory() == old(Memory()).(ram := old(ram[..])[k := b0][k + 1 := b1][k + 2 := b2][k + 3 := b3])
    {
      ram[k], ram[k + 1], ram[k + 2], ram[k + 3] := b0, b1, b2, b3;
    }

    /** Four bytes written through the lookup table. */
    method FastPut(addr: nat, b0: byte, b1: byte, b2: byte, b3: byte)
      requires Valid() && addr < TOP && !CrossesL(addr) && caches.writelookup2[addr / 4096].Live?
      modifies ram
      ensures Valid() && Memory() == StoreQuad(old(Memory()), addr, b0, b1, b2, b3)
    {
      NextWord(rammask, addr);
      NextByte(rammask, addr);
      NextByte(rammask, addr + 2);
      var k := caches.writelookup2[addr / 4096].offset + addr;
      assert k == Masked(rammask, addr);
      PutQuad(k, b0, b1, b2, b3);
    }

    /** Four bytes written by the handlers of the page that holds addr. */
    method PagePut(addr: nat, b0: byte, b1: byte, b2: byte, b3: byte, page: nat)
      requires Valid() && addr < TOP && !CrossesL(addr)
      requires writeMapping[Masked(rammask, addr) / GRANULE].Ram? && page * 4096 + addr % 4096 == Masked(rammask, addr)
      modifies ram
      ensures Valid() && Memory() == StoreQuad(old(Memory()), addr, b0, b1, b2, b3)
    {
      FourInRam(Memory(), addr);
      PageWriteL(addr, b0, b1, b2, b3, page);
    }

    /** The part of writememll for double words within a page. */
    method MappedPut(addr: nat, b0: byte, b1: byte, b2: byte, b3: byte)
      requires Valid() && addr < TOP && !CrossesL(addr) && memLogicalAddr == addr
      modifies ram, caches`writelnext, caches.writelookup, caches.writelookup2, caches.pageLookup
      ensures Valid() && Memory() == StoreQuad(old(Memory()), addr, b0, b1, b2, b3)
    {
      if caches.pageLookup[addr / 4096] != -1 {
        PagePut(addr, b0, b1, b2, b3, caches.pageLookup[addr / 4096]);
        return;
      }
      var a := Masked(rammask, addr);
      if writeMapping[a / GRANULE].Ram? {
        EnterWrite(a);
        PagePut(addr, b0, b1, b2, b3, a / 4096);
      }
    }

    method WriteInPageL(addr: nat, lo: nat, hi: nat)
      requires Valid() && addr < TOP && !CrossesL(addr) && memLogicalAddr == addr && lo < 0x1_0000 && hi < 0x1_0000
      modifies ram, caches`writelnext, caches.writelookup, caches.writelookup2, caches.pageLookup
      ensures Valid() && Memory() == old(Memory()).StoreWord(addr, lo).StoreWord((addr + 2) % TOP, hi)
    {
      var b0: byte, b1: byte, b2: byte, b3: byte := lo % 256, lo / 256, hi % 256, hi / 256;
      FourStores(Memory(), addr, lo, hi);
      MappedPut(addr, b0, b1, b2, b3);
    }

    method FastWriteL(addr: nat, lo: nat, hi: nat)
      requires Valid() && addr < TOP && !CrossesL(addr) && lo < 0x1_0000 && hi < 0x1_0000
      requires caches.writelookup2[addr / 4096].Live?
      modifies ram
      ensures Valid() && Memory() == old(Memory()).StoreWord(addr, lo).StoreWord((addr + 2) % TOP, hi)
    {
      var b0: byte, b1: byte, b2: byte, b3: byte := lo % 256, lo / 256, hi % 256, hi / 256;
      FourStores(Memory(), addr, lo, hi);
      FastPut(addr, b0, b1, b2, b3);
    }

    method SlowWriteWord(addr: nat, word: nat)
      requires Valid() && addr < TOP && word < 0x1_0000
      modifies this`memLogicalAddr, ram, caches`writelnext, caches.writelookup, caches.writelookup2, caches.pageLookup
      ensures Valid() && Memory() == old(Memory()).StoreWord(addr, word)
    {
      SlowWriteW(addr, word % 256, word / 256);
    }

    /** writememll */
    method SlowWriteL(addr: nat, lo: nat, hi: nat)
      requires Valid() && addr < TOP && lo < 0x1_0000 && hi < 0x1_0000
      modifies this`memLogicalAddr, ram, caches`writelnext, caches.writelookup, caches.writelookup2, caches.pageLookup
      ensures Valid() && Memory() == old(Memory()).StoreWord(addr, lo).StoreWord((addr + 2) % TOP, hi)
    {
      memLogicalAddr := addr;
      if addr % 4 != 0 {
        if addr % 4096 > 0xffc {
          SlowWriteWord(addr, lo);
          SlowWriteWord((addr + 2) % TOP, hi);
          return;
        } else if caches.writelookup2[addr / 4096].Live? {
          FastWriteL(addr, lo, hi);
          return;
        }
      } else {
        AlignedStays(addr);
      }
      WriteInPageL(addr, lo, hi);
    }

    /** writememl */
    method WriteL(addr: nat, dword: nat)
      requires Valid() && addr < TOP && dword < TOP
      modifies this`memLogicalAddr, ram, caches`writelnext, caches.writelookup, caches.writelookup2, caches.pageLookup
      ensures Valid() && Memory() == old(Memory()).StoreDword(addr, dword)
    {
      var lo, hi := dword % 0x1_0000, dword / 0x1_0000;
      if caches.writelookup2[addr / 4096].Dead? || addr % 4 != 0 {
        SlowWriteL(addr, lo, hi);
      } else {
        AlignedStays(addr);
        FastWriteL(addr, lo, hi);
      }
    }

    // ----- everything else that touches the lookups ----------------------------

    /** A change of the mapping index; mem_map_recalc ends with a flush. */
    method Remap(readers: seq<Handler>, writers: seq<Handler>)
      requires Valid() && Sensible(RemapOp(readers, writers), ram.Length)
      modifies readMapping, writeMapping
      modifies caches.readlookup, caches.readlookup2, caches.writelookup, caches.writelookup2, caches.pageLookup
      ensures Valid() && Memory() == old(Memory()).(readers := readers, writers := writers)
    {
      forall g | 0 <= g < GRANULES {
        readMapping[g] := readers[g];
      }
      forall g | 0 <= g < GRANULES {
        writeMapping[g] := writers[g];
      }
      assert readMapping[..] == readers && writeMapping[..] == writers;
      caches.Flush();
    }

    /** A new mask takes effect; pointers made under the old one are dropped. */
    method SetMask(m: RamMask, state: bool)
      requires Valid() && m == MaskFor(at, bus16, state) && (!at ==> !state)
      modifies this`rammask, this`a20State
      modifies caches.readlookup, caches.readlookup2, caches.writelookup, caches.writelookup2, caches.pageLookup
      ensures Valid() && a20State == state && Memory() == old(Memory()).(mask := m)
    {
      rammask := m;
      caches.Flush();
      a20State := state;
    }

    /** mem_a20_recalc, after the key or alternate gate has been set. */
    method A20Recalc(key: bool, alt: bool)
      requires Valid()
      modifies this`rammask, this`a20Key, this`a20Alt, this`a20State
      modifies caches.readlookup, caches.readlookup2, caches.writelookup, caches.writelookup2, caches.pageLookup
      ensures Valid() && Memory() == old(Memory()).(mask := MaskFor(at, bus16, key || alt))
    {
      a20Key, a20Alt := key, alt;
      if !at {
        SetMask(Mask1M, false);
        a20Key, a20Alt := false, false;
        return;
      }
      var state := a20Key || a20Alt;
      if state && !a20State {
        SetMask(if bus16 then Mask16M else Mask4G, state);
      } else if !state && a20State {
        SetMask(if bus16 then Mask16MNoA20 else Mask4GNoA20, state);
      }
    }

    /** A page gets its first translated block, found at virtual address virt. */
    method MarkCode(page: nat, virt: nat)
      requires Valid() && page < PAGES
      modifies this`codePages, caches.writelookup, caches.writelookup2, caches.pageLookup
      ensures Valid() && Memory() == old(Memory())
    {
      codePages := codePages + {page};
      caches.FlushWritePage(page * 4096, virt);
    }

    method UnmarkCode(page: nat)
      requires Valid()
      modifies this`codePages
      ensures Valid() && Memory() == old(Memory())
    {
      codePages := codePages - {page};
    }

    method Perform(op: Op) returns (r: int)
      requires Valid() && Sensible(op, ram.Length)
      modifies this, ram, readMapping, writeMapping, caches, caches.readlookup, caches.readlookup2
      modifies caches.writelookup, caches.writelookup2, caches.pageLookup
      ensures Valid() && (Memory(), r) == Effect(old(Memory()), op, dev, at, bus16)
    {
      r := 0;
      match op {
        case ReadOp(addr) => r := ReadB(addr);
        case WriteOp(addr, val) => WriteB(addr, val);
        case ReadWordOp(addr) => r := ReadW(addr);
        case WriteWordOp(addr, word) => WriteW(addr, word);
        case ReadDwordOp(addr) => r := ReadL(addr);
        case WriteDwordOp(addr, dword) => WriteL(addr, dword);
        case RemapOp(readers, writers) => Remap(readers, writers);
        case A20Op(key, alt) => A20Recalc(key, alt);
        case CodeOp(page, virt) => MarkCode(page, virt);
        case NoCodeOp(page) => UnmarkCode(page);
      }
    }

    /** Whatever has been read, written, mapped and gated before, each access
        yields what the flat memory yields at that point of the run. */
    method Run(ops: seq<Op>) returns (results: seq<int>)
      requires Valid() && forall i | 0 <= i < |ops| :: Sensible(ops[i], ram.Length)
      modifies this, ram, readMapping, writeMapping, caches, caches.readlookup, caches.readlookup2
      modifies caches.writelookup, caches.writelookup2, caches.pageLookup
      ensures Valid() && Memory() == After(old(Memory()), ops, dev, at, bus16)
      ensures results == Yields(old(Memory()), ops, dev, at, bus16)
    {
      results := [];
      ghost var f0 := Memory();
      assert ops[..|ops|] == ops;
      for n := 0 to |ops|
        invariant Valid() && Memory() == After(f0, ops[..n], dev, at, bus16)
        invariant results == Yields(f0, ops[..n], dev, at, bus16)
      {
        var r := Perform(ops[n]);
        RunStep(f0, ops, n, dev, at, bus16, Memory(), r);
        results := results + [r];
      }
    }
  }

  /** A word written and read again. */
  method WriteThenReadW(bus: Bus, addr: nat, word: nat) returns (r: int)
    requires bus.Valid() && addr < TOP && word < 0x1_0000
    requires InRam(bus.Memory(), addr) && InRam(bus.Memory(), ByteAt(addr, 1))
    modifies bus`memLogicalAddr, bus.ram, bus.caches`writelnext, bus.caches.writelookup, bus.caches.writelookup2
    modifies bus.caches.pageLookup, bus.caches`readlnext, bus.caches.readlookup, bus.caches.readlookup2
    ensures bus.Valid() && r == word
  {
    WordComesBack(bus.Memory(), addr, word, bus.dev);
    bus.WriteW(addr, word);
    r := bus.ReadW(addr);
  }

  /** And a double word. */
  method WriteThenReadL(bus: Bus, addr: nat, dword: nat) returns (r: int)
    requires bus.Valid() && addr < TOP && dword < TOP && DwordInRam(bus.Memory(), addr)
    modifies bus`memLogicalAddr, bus.ram, bus.caches`writelnext, bus.caches.writelookup, bus.caches.writelookup2
    modifies bus.caches.pageLookup, bus.caches`readlnext, bus.caches.readlookup, bus.caches.readlookup2
    ensures bus.Valid() && r == dword
  {
    DwordComesBack(bus.Memory(), addr, dword, bus.dev);
    bus.WriteL(addr, dword);
    r := bus.ReadL(addr);
  }
}
