/** Identifiers, sizes and sentinels shared by the storage engine (src/shared/mod.rs). */
module Shared {

  /** Logical page identifier (a signed machine integer in the source). */
  type PageId = int

  /** Index of an in-memory frame of the buffer pool (a signed machine integer in the source). */
  type FrameId = int

  /** An unsigned 8-bit value, the element type of page buffers. */
  newtype byte = x: int | 0 <= x < 256

  /** Identifier reserved for the header/catalog page. */
  const HEADER_ID: nat := 0

  /** Size in bytes of one page, on disk and in memory. */
  const PAGE_SIZE: nat := 4096

  /** Sentinel frame identifier meaning "no frame". */
  const INVALID_FRAME_ID: FrameId := -1

  /** Sentinel page identifier meaning "no page". */
  const INVALID_PAGE_ID: PageId := -1

  /** A page-sized byte buffer, `[u8; PAGE_SIZE]`. */
  type PageData = s: seq<byte> | |s| == PAGE_SIZE witness seq(PAGE_SIZE, _ => 0)

  /** Error reported by the operating system for a failed file access. */
  datatype IoError = IoError(description: string)

  /** The outcome of a fallible operation, `std::io::Result<T>` and the like. */
  datatype Result<+T, +E> = Ok(value: T) | Err(error: E)
}
