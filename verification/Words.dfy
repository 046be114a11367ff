/** Machine words, and how the 4 GB of physical addresses are divided. */
module Words {
  type byte = x: int | 0 <= x < 0x100
  type u16 = x: int | 0 <= x < 0x1_0000
  type u32 = x: int | 0 <= x < 0x1_0000_0000

  const TOP := 0x1_0000_0000
  const GRANULE := 0x4000        // the unit of the mapping index
  const GRANULES := 0x4_0000
}
