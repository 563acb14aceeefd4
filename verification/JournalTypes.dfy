/** The structures of include/txdriver.h and include/ondisk.h, as far as the modelled functions use them. */
module JournalTypes {
  import List
  import Memory
  import Handshake

  const TWO_32 := 0x1_0000_0000

  // Structure sizes in bytes, on a 64-bit target.
  const SIZEOF_POINTER: nat := 8
  const SIZEOF_BUFFER_HEAD: nat := 40
  const SIZEOF_REVOKE_TABLE: nat := 16
  const SIZEOF_LIST_HEAD: nat := 16
  const SIZEOF_BLOCK_TAG: nat := 64

  const ENOMEM := 12
  const JOURNAL_REVOKE_DEFAULT_HASH := 256
  const TXD_MIN_JOURNAL_BLOCKS := 1024
  const BLK_SIZE := 0x1000

  const TXD_ABORT: bv64 := 0x002
  const TXD_FLUSHED: bv64 := 0x008
  const TXD_LOADED: bv64 := 0x010

  type Uint32 = x: int | 0 <= x < 0x1_0000_0000

  /** The journal superblock as read into memory. */
  datatype Superblock = Superblock(
    blockSize: Uint32, maxLen: Uint32, first: Uint32, sequence: Uint32, start: Uint32, errno: Uint32)

  /** A 32-bit pattern read as a signed int. */
  function ToInt32(x: int): int {
    var m := x % TWO_32;
    if m < 0x8000_0000 then m else m - TWO_32
  }

  class BufferHead {
    const block: Memory.Block
    var buf: Superblock

    constructor (block: Memory.Block, contents: Superblock)
      ensures this.block == block && buf == contents
    {
      this.block := block;
      buf := contents;
    }
  }

  /** Its fields never change once it is set up; hashTable is the sequence of the addresses of its buckets. */
  class RevokeTable {
    const block: Memory.Block
    const hashSize: int
    const hashShift: int
    const hashTable: seq<List.Node>
    const hashBlock: Memory.Block

    constructor (block: Memory.Block, size: int, shift: int, table: seq<List.Node>, buckets: Memory.Block)
      ensures this.block == block && hashSize == size && hashShift == shift
      ensures hashTable == table && hashBlock == buckets
    {
      this.block := block;
      hashSize, hashShift := size, shift;
      hashTable, hashBlock := table, buckets;
    }
  }

  class Journal {
    const block: Memory.Block
    var flags: bv64
    var errno: int
    var sbBuffer: BufferHead?
    var superblock: Superblock
    var waitDoneCommit: Handshake.State
    var head: nat
    var tail: nat
    var free: nat
    var first: nat
    var last: nat
    var blockSize: int
    var blkOffset: nat
    var maxLen: nat
    var tailSequence: Uint32
    var transactionSequence: Uint32
    var commitSequence: Uint32
    var commitRequest: Uint32
    var maxTransactionBuffers: int
    var commitInterval: nat
    var minBatchTime: nat
    var maxBatchTime: nat
    var reservedCredits: int
    var failedCommit: nat
    var revoke: RevokeTable?
    var revokeTable0: RevokeTable?
    var revokeTable1: RevokeTable?
    var wbuf: Memory.Block?
    var wbufSize: int

    /** A zeroed allocation. */
    constructor (block: Memory.Block)
      ensures this.block == block && waitDoneCommit == Handshake.INITIAL && sbBuffer == null
      ensures flags == 0 && transactionSequence == 0 && failedCommit == 0
      ensures commitSequence == 0 && commitRequest == 0 && maxTransactionBuffers == 0
      ensures head == 0 && free == 0
      ensures revoke == null && revokeTable0 == null && revokeTable1 == null && wbuf == null
    {
      this.block := block;
      flags, errno, sbBuffer, superblock := 0, 0, null, Superblock(0, 0, 0, 0, 0, 0);
      waitDoneCommit := Handshake.INITIAL;
      head, tail, free, first, last := 0, 0, 0, 0, 0;
      blockSize, blkOffset, maxLen := 0, 0, 0;
      tailSequence, transactionSequence, commitSequence, commitRequest := 0, 0, 0, 0;
      maxTransactionBuffers, commitInterval, minBatchTime, maxBatchTime := 0, 0, 0, 0;
      reservedCredits, failedCommit := 0, 0;
      revoke, revokeTable0, revokeTable1 := null, null, null;
      wbuf, wbufSize := null, 0;
    }
  }
}
