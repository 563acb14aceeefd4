/** src/txd_journal.c: txd_journal_init_common, its seven allocations and its unwinding. */
module JournalInit {
  import opened Seqs
  import opened Memory
  import opened JournalTypes
  import Handshake
  import opened Revoke

  /** Tags per block: the signed block size widened to an unsigned long, divided, and cut back to an int. */
  function WbufCount(blocksize: int): int {
    ToInt32((blocksize % TWO_64) / SIZEOF_BLOCK_TAG)
  }

  /** Bytes requested for n pointers, in unsigned longs. */
  function WbufBytes(n: int): nat {
    (n * SIZEOF_POINTER) % TWO_64
  }

  /**
   The commit array holds one pointer for every tag that fits in a block exactly when the superblock's block size is
   below 2^31; from there on the request is for more than 2^63 bytes.
   */
  lemma WbufFits(b: Uint32)
    ensures var n := WbufCount(ToInt32(b));
      && (b < 0x8000_0000 <==> 0 <= n && 64 * n <= b < 64 * (n + 1))
      && (b < 0x8000_0000 ==> WbufBytes(n) == 8 * n)
      && (b >= 0x8000_0000 ==> n < 0 && WbufBytes(n) >= 0x8000_0000_0000_0000)
  {
    var j := ToInt32(b);
    if b < 0x8000_0000 {
      WbufSmall(b);
    } else {
      assert j == b - TWO_32;
      WbufLarge(j);
    }
  }

  lemma WbufSmall(b: nat)
    requires b < 0x8000_0000
    ensures WbufCount(b) == b / 64 && WbufBytes(b / 64) == 8 * (b / 64)
  {
  }

  lemma WbufLarge(j: int)
    requires -0x8000_0000 <= j < 0
    ensures WbufCount(j) < 0 && WbufBytes(WbufCount(j)) >= 0x8000_0000_0000_0000
  {
    var q := (j + TWO_64) / 64;
    assert j % TWO_64 == j + TWO_64;
    assert 64 * q <= j + TWO_64 < 64 * q + 64;
    var n := q - 0x400_0000_0000_0000;
    assert -0x200_0000 <= n < 0;
    assert q % TWO_32 == n + TWO_32;
    assert (n * 8) % TWO_64 == n * 8 + TWO_64;
  }

  const TXD_TIME_INT_COMMIT := 5
  const TXD_TIME_MIN_BATCH := 0
  const TXD_TIME_MAX_BATCH := 15000

  /** The seven requests, from request number n on, all succeed. */
  ghost predicate AllocationsSucceed(script: seq<bool>, n: nat) {
    !Fails(script, n) && !Fails(script, n + 1) && RestAllocates(script, n + 2)
  }

  /** Those for the tables and the commit array. */
  ghost predicate RestAllocates(script: seq<bool>, n: nat) {
    TablesAllocate(script, n) && !Fails(script, n + 4)
  }

  lemma SevenRequests(script: seq<bool>, n: nat)
    ensures AllocationsSucceed(script, n) <==> forall i :: n <= i < n + 7 && i < |script| ==> !script[i]
  {
    if AllocationsSucceed(script, n) {
      forall i | n <= i < n + 7 && i < |script| ensures !script[i] {
        assert i == n || i == n + 1 || i == n + 2 || i == n + 3 || i == n + 4 || i == n + 5 || i == n + 6;
      }
    }
  }

  /** Bytes of the commit array. */
  ghost function WbufSize(sb: Superblock): nat {
    WbufBytes(WbufCount(ToInt32(sb.blockSize)))
  }

  /** Bytes a finished journal accounts for. */
  ghost function Footprint(sb: Superblock): nat {
    SIZEOF_POINTER + SIZEOF_BUFFER_HEAD
    + 2 * TableSize(JOURNAL_REVOKE_DEFAULT_HASH) + WbufSize(sb)
  }

  /** The parts of a journal that do not depend on its superblock. */
  lemma FixedBytes()
    ensures SIZEOF_POINTER + SIZEOF_BUFFER_HEAD + 2 * TableSize(JOURNAL_REVOKE_DEFAULT_HASH) == 8272
  {
  }

  lemma WbufSizeIs(sb: Superblock)
    requires sb.blockSize < 0x8000_0000
    ensures WbufSize(sb) == 8 * (sb.blockSize / 64)
  {
    WbufSmall(sb.blockSize);
  }

  /** In bytes, for a block size below 2^31: one pointer per 64 bytes of a block, beside fixed parts. */
  lemma FootprintIs(sb: Superblock)
    requires sb.blockSize < 0x8000_0000
    ensures WbufSize(sb) == 8 * (sb.blockSize / 64) && Footprint(sb) == 8272 + 8 * (sb.blockSize / 64)
  {
    FixedBytes();
    WbufSizeIs(sb);
  }

  /** Fields the superblock determines. */
  ghost predicate Configured(journal: Journal, sb: Superblock)
    reads journal
  {
    && journal.superblock == sb && journal.flags == TXD_ABORT
    && journal.blkOffset == sb.first == journal.first
    && journal.maxLen == sb.maxLen == journal.last
    && journal.blockSize == ToInt32(sb.blockSize) && journal.errno == ToInt32(sb.errno)
    && journal.tailSequence == sb.sequence && journal.tail == sb.start
    && journal.wbufSize == WbufCount(ToInt32(sb.blockSize))
    && Blank(journal)
  }

  /** Fields that nothing has set since the journal was zeroed. */
  ghost predicate Blank(journal: Journal)
    reads journal
  {
    && journal.transactionSequence == journal.commitSequence == journal.commitRequest == 0
    && journal.head == journal.free == journal.failedCommit == journal.reservedCredits == 0
    && journal.maxTransactionBuffers == 0 && journal.waitDoneCommit == Handshake.INITIAL
  }

  /** A zeroed journal is marked for error until it has been loaded. */
  ghost predicate Marked(journal: Journal)
    reads journal
  {
    journal.flags == TXD_ABORT && Blank(journal)
  }

  /** The zeroed journal object with its default intervals. */
  method CreateJournal(p: Block) returns (journal: Journal)
    ensures fresh(journal) && journal.block == p && Marked(journal)
    ensures journal.commitInterval == 5 && journal.minBatchTime == 0 && journal.maxBatchTime == 15000
  {
    journal := new Journal(p);
    journal.commitInterval := TXD_TIME_INT_COMMIT;
    journal.minBatchTime := TXD_TIME_MIN_BATCH;
    journal.maxBatchTime := TXD_TIME_MAX_BATCH;
    journal.reservedCredits := 0;
    journal.flags := TXD_ABORT;
  }

  /** The journal takes over what the superblock says of the log. */
  method CopySuperblock(journal: Journal, sb: Superblock)
    modifies journal`blkOffset, journal`maxLen, journal`blockSize, journal`tailSequence, journal`tail, journal`first,
             journal`last, journal`errno, journal`wbufSize, journal`superblock
    ensures journal.blkOffset == journal.first == sb.first && journal.maxLen == journal.last == sb.maxLen
    ensures journal.blockSize == ToInt32(sb.blockSize) && journal.errno == ToInt32(sb.errno)
    ensures journal.tailSequence == sb.sequence && journal.tail == sb.start && journal.superblock == sb
    ensures journal.wbufSize == WbufCount(ToInt32(sb.blockSize))
  {
    journal.blkOffset := sb.first;
    journal.maxLen := sb.maxLen;
    journal.blockSize := ToInt32(sb.blockSize);
    journal.tailSequence := sb.sequence;
    journal.tail := sb.start;
    journal.first := sb.first;
    journal.last := sb.maxLen;
    journal.errno := ToInt32(sb.errno);
    journal.wbufSize := WbufCount(journal.blockSize);
    journal.superblock := sb;
  }

  method Configure(journal: Journal, sb: Superblock)
    requires Marked(journal)
    modifies journal
    ensures Configured(journal, sb)
    ensures unchanged(journal`revokeTable0, journal`revokeTable1, journal`revoke)
  {
    CopySuperblock(journal, sb);
  }

  /** A journal whose tables and commit array are built. */
  ghost predicate Furnished(journal: Journal, sb: Superblock, live: map<Block, nat>)
    reads journal
  {
    && HasTables(journal, live) && journal.revoke == journal.revokeTable1
    && journal.wbuf != null && journal.wbuf in live && live[journal.wbuf] == WbufSize(sb)
    && journal.wbuf !in TableBlocks(journal)
  }

  /** The buckets are distinct and empty. */
  ghost predicate Untouched(journal: Journal)
    reads journal`revokeTable0, journal`revokeTable1, Buckets(journal)
  {
    Distinct(Buckets(journal)) && SelfLinked(Buckets(journal))
  }

  method AllocateWbuf(journal: Journal, sb: Superblock, mem: Allocator) returns (ok: bool)
    requires mem.Valid() && HasTables(journal, mem.live) && Untouched(journal) && Configured(journal, sb)
    requires journal.revoke == journal.revokeTable1
    modifies mem, journal`wbuf, journal`revoke
    ensures mem.Valid()
    ensures ok <==> !Fails(mem.script, old(mem.calls))
    ensures !ok ==> mem.live == old(mem.live) - TableBlocks(journal)
    ensures ok ==> Configured(journal, sb) && Furnished(journal, sb, mem.live) && Untouched(journal)
    ensures ok ==> mem.live - {journal.wbuf} == old(mem.live) && TableBlocks(journal) == old(TableBlocks(journal))
    ensures ok ==> Total(mem.live) == Total(old(mem.live)) + WbufSize(sb)
  {
    var wbuf := mem.ZMalloc(WbufBytes(journal.wbufSize));
    journal.wbuf := wbuf;
    ok := wbuf != null;
    if ok {
      TotalWithout(mem.live, wbuf);
      assert mem.live - {wbuf} == old(mem.live);
    } else {
      DestroyUnused(journal, mem);
    }
  }

  /** Both revoke tables of the default size. */
  method InitDefaultRevoke(journal: Journal, mem: Allocator) returns (ok: bool)
    requires mem.Valid() && Marked(journal)
    modifies mem, journal`revokeTable0, journal`revokeTable1, journal`revoke
    ensures mem.Valid() && Marked(journal)
    ensures ok <==> TablesAllocate(mem.script, old(mem.calls))
    ensures !ok ==> mem.live == old(mem.live)
    ensures ok ==> HasTables(journal, mem.live) && journal.revoke == journal.revokeTable1
    ensures ok ==> mem.live - TableBlocks(journal) == old(mem.live) && mem.calls == old(mem.calls) + 4
    ensures ok ==> Untouched(journal) && fresh(TableBlocks(journal))
    ensures ok ==> Total(mem.live) == Total(old(mem.live)) + 2 * TableSize(JOURNAL_REVOKE_DEFAULT_HASH)
  {
    var s0, s1 := CarveBoth(JOURNAL_REVOKE_DEFAULT_HASH);
    var err := InitRevoke(journal, JOURNAL_REVOKE_DEFAULT_HASH, s0, s1, mem);
    ok := err == 0;
    if ok { ReadyBuckets(journal, JOURNAL_REVOKE_DEFAULT_HASH, s0, s1, mem.live, old(mem.live)); }
  }

  /** The fields and the commit array of a journal that has its tables, or those given back. */
  method Complete(journal: Journal, sb: Superblock, mem: Allocator) returns (ok: bool)
    requires mem.Valid() && Marked(journal) && HasTables(journal, mem.live) && Untouched(journal)
    requires journal.revoke == journal.revokeTable1
    modifies mem, journal
    ensures mem.Valid() && TableBlocks(journal) == old(TableBlocks(journal))
    ensures ok <==> !Fails(mem.script, old(mem.calls))
    ensures !ok ==> mem.live == old(mem.live) - TableBlocks(journal)
    ensures ok ==> Configured(journal, sb) && Furnished(journal, sb, mem.live) && Untouched(journal)
    ensures ok ==> mem.live - {journal.wbuf} == old(mem.live)
    ensures ok ==> Total(mem.live) == Total(old(mem.live)) + WbufSize(sb)
  {
    Configure(journal, sb);
    ok := AllocateWbuf(journal, sb, mem);
  }

  /** Everything after the first two allocations: fields, revoke tables, commit array, or all of it undone. */
  method Furnish(journal: Journal, sb: Superblock, mem: Allocator) returns (ok: bool)
    requires mem.Valid() && Marked(journal)
    modifies mem, journal
    ensures mem.Valid()
    ensures ok <==> RestAllocates(mem.script, old(mem.calls))
    ensures !ok ==> mem.live == old(mem.live)
    ensures ok ==> Configured(journal, sb) && Furnished(journal, sb, mem.live)
    ensures ok ==> mem.live - {journal.wbuf} - TableBlocks(journal) == old(mem.live)
    ensures ok ==> Untouched(journal)
    ensures ok ==> Total(mem.live) == Total(old(mem.live)) + WbufSize(sb)
                     + 2 * TableSize(JOURNAL_REVOKE_DEFAULT_HASH)
  {
    ok := InitDefaultRevoke(journal, mem);
    if ok {
      ok := Complete(journal, sb, mem);
    }
  }

  ghost function OwnBlocks(journal: Journal): set<Block>
    requires journal.sbBuffer != null && journal.wbuf != null
    reads journal
  {
    {journal.block, journal.sbBuffer.block, journal.wbuf} + TableBlocks(journal)
  }

  /** Everything a finished journal owns is live, with the size it was requested with. */
  ghost predicate Owned(journal: Journal, sb: Superblock, live: map<Block, nat>)
    reads journal
  {
    && Furnished(journal, sb, live)
    && journal.block in live && live[journal.block] == SIZEOF_POINTER
    && journal.sbBuffer != null && journal.sbBuffer.block in live
    && live[journal.sbBuffer.block] == SIZEOF_BUFFER_HEAD
  }

  lemma KeptUnder(live: map<Block, nat>, before: map<Block, nat>, start: map<Block, nat>, xs: set<Block>, w: Block,
                  p: Block, np: nat, q: Block, nq: nat)
    requires p !in start && q !in start && p != q && before == start[p := np][q := nq]
    requires live - {w} - xs == before
    ensures p in live && live[p] == np && q in live && live[q] == nq
    ensures live - ({p, q, w} + xs) == start
  {
    assert p in before && q in before;
    var rest := live - {w} - xs;
    assert rest[p] == np && rest[q] == nq;
    assert live - ({p, q, w} + xs) == rest - {p, q};
  }

  /** The journal block and the buffer head block, or neither. */
  method AllocateHead(mem: Allocator) returns (p: Block?, q: Block?)
    requires mem.Valid()
    modifies mem
    ensures mem.Valid()
    ensures p == null <==> Fails(mem.script, old(mem.calls)) || Fails(mem.script, old(mem.calls) + 1)
    ensures p == null <==> q == null
    ensures p == null ==> mem.live == old(mem.live)
    ensures p != null ==> mem.calls == old(mem.calls) + 2
    ensures p != null ==> p !in old(mem.live) && q !in old(mem.live) && p != q
    ensures p != null ==> mem.live == old(mem.live)[p := SIZEOF_POINTER][q := SIZEOF_BUFFER_HEAD]
    ensures p != null ==> Total(mem.live) == Total(old(mem.live)) + SIZEOF_POINTER + SIZEOF_BUFFER_HEAD
  {
    q := null;
    p := mem.ZMalloc(SIZEOF_POINTER);
    if p == null {
      return;
    }
    q := mem.ZMalloc(SIZEOF_BUFFER_HEAD);
    if q == null {
      mem.Free(p, SIZEOF_POINTER);
      p := null;
      return;
    }
    TotalWith(old(mem.live), p, SIZEOF_POINTER);
    TotalWith(old(mem.live)[p := SIZEOF_POINTER], q, SIZEOF_BUFFER_HEAD);
  }

  /** out2 and out1: both head blocks are given back. */
  method ReleaseHead(p: Block, q: Block, mem: Allocator, ghost start: map<Block, nat>)
    requires mem.Valid() && p !in start && q !in start && p != q
    requires mem.live == start[p := SIZEOF_POINTER][q := SIZEOF_BUFFER_HEAD]
    modifies mem
    ensures mem.Valid() && mem.live == start
  {
    mem.Free(q, SIZEOF_BUFFER_HEAD);
    mem.Free(p, SIZEOF_POINTER);
  }

  /** The finished journal gets its buffer head. */
  method AttachBuffer(journal: Journal, bh: BufferHead, ghost sb: Superblock, ghost live: map<Block, nat>)
    requires Configured(journal, sb) && Furnished(journal, sb, live) && Untouched(journal)
    requires journal.block in live && live[journal.block] == SIZEOF_POINTER
    requires bh.block in live && live[bh.block] == SIZEOF_BUFFER_HEAD
    modifies journal`sbBuffer
    ensures Configured(journal, sb) && Owned(journal, sb, live) && Untouched(journal)
    ensures journal.sbBuffer == bh && TableBlocks(journal) == old(TableBlocks(journal))
  {
    journal.sbBuffer := bh;
  }

  /** The journal object over its head blocks; on failure only those two are left to release. */
  method Assemble(p: Block, q: Block, sb: Superblock, mem: Allocator, ghost start: map<Block, nat>)
    returns (journal: Journal?)
    requires mem.Valid() && p !in start && q !in start && p != q
    requires mem.live == start[p := SIZEOF_POINTER][q := SIZEOF_BUFFER_HEAD]
    modifies mem
    ensures mem.Valid()
    ensures journal != null <==> RestAllocates(mem.script, old(mem.calls))
    ensures journal == null ==> mem.live == old(mem.live)
    ensures journal != null ==> fresh(journal) && Configured(journal, sb) && Owned(journal, sb, mem.live)
    ensures journal != null ==> journal.sbBuffer.buf == sb
    ensures journal != null ==> mem.live - OwnBlocks(journal) == start
    ensures journal != null ==>
      Total(mem.live) == Total(old(mem.live)) + WbufSize(sb) + 2 * TableSize(JOURNAL_REVOKE_DEFAULT_HASH)
    ensures journal != null ==> Untouched(journal)
  {
    journal := null;
    var bh := new BufferHead(q, sb);
    var j := CreateJournal(p);
    ghost var before := mem.live;
    var ok := Furnish(j, sb, mem);
    if ok {
      KeptUnder(mem.live, before, start, TableBlocks(j), j.wbuf, p, SIZEOF_POINTER, q, SIZEOF_BUFFER_HEAD);
      AttachBuffer(j, bh, sb, mem.live);
      journal := j;
    }
  }

  /** The counter has risen by the bytes of a journal, modulo its width. */
  ghost predicate Counted(c0: nat, c1: nat, sb: Superblock) {
    c1 == (c0 + Footprint(sb)) % TWO_64
  }

  lemma FootprintCounted(c0: nat, before: nat, head: nat, c1: nat, all: nat, sb: Superblock)
    requires c0 == Shown(before) && c1 == Shown(all)
    requires head == before + SIZEOF_POINTER + SIZEOF_BUFFER_HEAD
    requires all == head + WbufSize(sb) + 2 * TableSize(JOURNAL_REVOKE_DEFAULT_HASH)
    ensures Counted(c0, c1, sb)
  {
    assert all == before + Footprint(sb);
    ShownRises(before, Footprint(sb));
  }

  /**
   For every pattern of allocation failures: a finished journal with exactly its own seven blocks added, or null with
   the live blocks exactly as before; the counter follows.
   */
  method InitCommon(sb: Superblock, mem: Allocator) returns (journal: Journal?)
    requires mem.Valid()
    modifies mem
    ensures mem.Valid()
    ensures journal != null <==> AllocationsSucceed(mem.script, old(mem.calls))
    ensures journal == null ==> mem.live == old(mem.live)
    ensures journal != null ==> fresh(journal) && Configured(journal, sb) && Owned(journal, sb, mem.live)
    ensures journal != null ==> journal.sbBuffer.buf == sb && journal.reservedCredits == 0
    ensures journal != null ==> mem.live - OwnBlocks(journal) == old(mem.live)
    ensures journal == null ==> mem.counter == old(mem.counter)
    ensures journal != null ==> Counted(old(mem.counter), mem.counter, sb)
    ensures journal != null ==> Untouched(journal)
  {
    var p, q := AllocateHead(mem);
    if p == null {
      return null;
    }
    ghost var head := Total(mem.live);
    journal := Assemble(p, q, sb, mem, old(mem.live));
    if journal == null {
      ReleaseHead(p, q, mem, old(mem.live));
    } else {
      FootprintCounted(old(mem.counter), Total(old(mem.live)), head, mem.counter, Total(mem.live), sb);
    }
  }

  const TXD_J_COMMIT_INTERVAL := 5
  const TXD_J_MIN_BATCH_TIME := 0
  const TXD_J_MAX_BATCH_TIME := 15000

  /** The commit timers, set once more. */
  method SetIntervals(journal: Journal, ghost sb: Superblock, ghost live: map<Block, nat>)
    requires Configured(journal, sb) && Owned(journal, sb, live) && Untouched(journal)
    modifies journal`commitInterval, journal`minBatchTime, journal`maxBatchTime
    ensures Configured(journal, sb) && Owned(journal, sb, live) && Untouched(journal)
    ensures OwnBlocks(journal) == old(OwnBlocks(journal)) && journal.sbBuffer == old(journal.sbBuffer)
    ensures journal.commitInterval == 5 && journal.minBatchTime == 0 && journal.maxBatchTime == 15000
  {
    journal.commitInterval := TXD_J_COMMIT_INTERVAL;
    journal.minBatchTime := TXD_J_MIN_BATCH_TIME;
    journal.maxBatchTime := TXD_J_MAX_BATCH_TIME;
  }

  /** txd_get_journal */
  method GetJournal(sb: Superblock, mem: Allocator) returns (journal: Journal?)
    requires mem.Valid()
    modifies mem
    ensures mem.Valid()
    ensures journal != null <==> AllocationsSucceed(mem.script, old(mem.calls))
    ensures journal == null ==> mem.live == old(mem.live) && mem.counter == old(mem.counter)
    ensures journal != null ==> Counted(old(mem.counter), mem.counter, sb)
    ensures journal != null ==> fresh(journal) && Configured(journal, sb) && Owned(journal, sb, mem.live)
    ensures journal != null ==> mem.live - OwnBlocks(journal) == old(mem.live)
    ensures journal != null ==> journal.flags == TXD_ABORT && journal.superblock == sb == journal.sbBuffer.buf
    ensures journal != null ==> journal.first == sb.first && journal.maxLen == journal.last == sb.maxLen
    ensures journal != null ==> journal.tailSequence == sb.sequence && journal.tail == sb.start
    ensures journal != null ==> Blank(journal) && Untouched(journal)
    ensures journal != null ==>
      journal.commitInterval == 5 && journal.minBatchTime == 0 && journal.maxBatchTime == 15000
  {
    journal := InitCommon(sb, mem);
    if journal != null {
      SetIntervals(journal, sb, mem.live);
    }
  }
}
