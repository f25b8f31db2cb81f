/** Machine-level constants and the 64-bit word shared by every component. */
module Machine {

  const TWO64: int := 0x1_0000_0000_0000_0000

  /** An unsigned 64-bit machine word. */
  type Word = x: int | 0 <= x < 0x1_0000_0000_0000_0000

  type Byte = x: int | 0 <= x < 256

  /** Truncation to 64 bits: what unsigned C arithmetic leaves behind. */
  function Wrap(x: int): Word {
    x % 0x1_0000_0000_0000_0000
  }

  // The frame allocator's window (include/pmm.h): 4096-byte frames, 512 words each, over the
  // first 1GB, 0x800_0000 words. Frame and word sizes appear as literals, so that products
  // with them stay linear.
  const MAX_BYTES: int := 0x4000_0000
  const MAX_FRAMES: int := 0x4_0000

  datatype Option<+T> = None | Some(value: T)
}
