/** The fixed layout of MineOS's virtual RAM: the sizes and offsets of libs/memory.h, core/fs.h and core/scheduler.h. */
module Layout {
  const RAM_SIZE := 10 * 1024 * 1024
  const RAM_HEADER_SIZE := 64

  const MAX_INODES := 128
  const MAX_NAME_LEN := 32
  const MAX_CHILDREN := 16
  const INODE_SIZE := 128
  const INODE_TABLE_OFFSET := RAM_HEADER_SIZE

  const MAX_PROCESSES := 16
  const PROCESS_ENTRY_SIZE := 64
  const PROCESS_TABLE_OFFSET := INODE_TABLE_OFFSET + MAX_INODES * INODE_SIZE

  const DATA_REGION_OFFSET := PROCESS_TABLE_OFFSET + MAX_PROCESSES * PROCESS_ENTRY_SIZE
  const DATA_REGION_SIZE := RAM_SIZE - DATA_REGION_OFFSET

  // sizeof(BlockHeader): three 32-bit integers
  const BLOCK_HEADER_SIZE := 12

  // The null pointer, as an offset into RAM. Offset 0 lies in the RAM header, so no payload starts there.
  const NULL := 0

  // Whether the compiler makes plain char signed; nothing is said about it.
  const CHAR_IS_SIGNED: bool

  const MIN_INT := -0x8000_0000
  const MAX_INT := 0x7fff_ffff
}
