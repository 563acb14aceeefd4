/** src/txd_revoke.c: the revoke tables, their bucket lists, and their memory. */
module Revoke {
  import opened Seqs
  import opened Forest
  import opened List
  import Links
  import ListRuns
  import opened Memory
  import opened JournalTypes

  // ---------- The shift loop ----------

  ghost function Pow2(k: nat): (r: nat)
    ensures r >= 1
  {
    if k == 0 then 1 else 2 * Pow2(k - 1)
  }

  lemma {:induction false} Pow2Monotonic(j: nat, k: nat)
    requires j <= k
    ensures Pow2(j) <= Pow2(k)
    decreases k - j
  {
    if j < k { Pow2Monotonic(j, k - 1); }
  }

  /** Counts the halvings that leave something of the size. */
  method HashShift(hashSize: int) returns (shift: nat)
    requires 0 <= hashSize
    ensures hashSize == 0 ==> shift == 0
    ensures hashSize >= 1 ==> Pow2(shift) <= hashSize < Pow2(shift + 1)
  {
    shift := 0;
    var tmp := hashSize / 2;
    ghost var m := 2;
    while tmp != 0
      invariant m == Pow2(shift + 1) == 2 * Pow2(shift)
      invariant 0 <= tmp && tmp * m <= hashSize < (tmp + 1) * m
      invariant hashSize >= 1 ==> Pow2(shift) <= hashSize
      invariant hashSize == 0 ==> shift == 0 && tmp == 0
      decreases tmp
    {
      HalveBounds(tmp, m, hashSize);
      shift := shift + 1;
      tmp := tmp / 2;
      m := 2 * m;
    }
  }

  lemma HalveBounds(tmp: nat, m: nat, x: nat)
    requires tmp > 0 && m > 0 && tmp * m <= x < (tmp + 1) * m
    ensures (tmp / 2) * (2 * m) <= x < (tmp / 2 + 1) * (2 * m) && m <= x
  {
    var h := tmp / 2;
    assert 2 * h <= tmp <= 2 * h + 1;
    assert (2 * h) * m <= tmp * m;
    assert (tmp + 1) * m <= (2 * h + 2) * m;
    assert 1 * m <= tmp * m;
  }

  /** The shift is exact for the powers of two the table is meant for, and for no other size. */
  lemma ShiftIsExact(hashSize: nat, shift: nat)
    requires hashSize >= 1 && Pow2(shift) <= hashSize < Pow2(shift + 1)
    ensures Pow2(shift) == hashSize <==> exists k: nat :: Pow2(k) == hashSize
  {
    if k: nat :| Pow2(k) == hashSize {
      if k < shift { Pow2Monotonic(k + 1, shift); } else if shift < k { Pow2Monotonic(shift + 1, k); }
    }
  }

  /** tmp after k arithmetic shifts to the right. */
  ghost function Shifted(x: int, k: nat): int {
    if k == 0 then x else Shifted(x, k - 1) / 2
  }

  lemma {:induction false} NegativeStays(x: int, k: nat)
    requires x < 0
    ensures Shifted(x, k) < 0
  {
    if k > 0 { NegativeStays(x, k - 1); }
  }

  lemma {:induction false} ShrinksToZero(x: nat) returns (k: nat)
    ensures k > 0 && Shifted(x, k) == 0
    decreases x
  {
    if x == 0 {
      k := 1;
      assert Shifted(x, 0) == 0;
    } else {
      var j := ShrinksToZero(x / 2);
      ShiftFirst(x, j);
      k := j + 1;
    }
  }

  lemma {:induction false} ShiftFirst(x: int, k: nat)
    ensures Shifted(x, k + 1) == Shifted(x / 2, k)
  {
    if k > 0 { ShiftFirst(x, k - 1); }
  }

  /** The loop ends for every size but the negative ones, whose shifts stay negative for ever. */
  lemma ShiftLoopEnds(hashSize: int)
    ensures (exists k: nat :: k > 0 && Shifted(hashSize, k) == 0) <==> 0 <= hashSize
  {
    if 0 <= hashSize {
      var k := ShrinksToZero(hashSize);
    } else {
      forall k: nat ensures Shifted(hashSize, k) != 0 { NegativeStays(hashSize, k); }
    }
  }

  // ---------- Tables ----------

  /** The lists of a table whose buckets are all empty. */
  ghost function EmptyBuckets(buckets: seq<Node>): Rings<Node> {
    map b | b in buckets :: [b]
  }

  /** Distinct buckets make distinct lists. */
  lemma EmptyBucketsKeep(s: seq<Node>)
    ensures WellFormed(EmptyBuckets(s)) && Nodes(EmptyBuckets(s)) == Elements(s)
  {
    var G := EmptyBuckets(s);
    forall x | x in s ensures x in Nodes(G) { assert x in G[x]; }
    forall x | x in Nodes(G) ensures x in s { assert x in G[HeadOf(G, x)]; }
    forall h, x | h in G && x in G[h] ensures HeadOf(G, x) == h { assert x in G[HeadOf(G, x)]; }
  }

  lemma EmptyBucketsStep(s: seq<Node>, x: Node)
    requires x !in s
    ensures Legal(Init(x), EmptyBuckets(s)) && Apply(Init(x), EmptyBuckets(s)) == EmptyBuckets(s + [x])
  {
    EmptyBucketsKeep(s);
    DetachAbsent(EmptyBuckets(s), x);
  }

  /** Free memory with room for n bucket heads, for an allocation to hand out. */
  method CarveBuckets(n: nat) returns (buckets: seq<Node>)
    ensures |buckets| == n && Distinct(buckets) && fresh(Elements(buckets))
  {
    buckets := [];
    for i := 0 to n
      invariant |buckets| == i && Distinct(buckets) && fresh(Elements(buckets))
    {
      var b := new Node();
      assert Elements(buckets + [b]) == Elements(buckets) + {b};
      buckets := buckets + [b];
    }
  }

  /** Memory for the buckets of both tables. */
  method CarveBoth(n: nat) returns (s0: seq<Node>, s1: seq<Node>)
    ensures |s0| == n == |s1| && Distinct(s0) && Distinct(s1) && Apart(s0, s1)
    ensures fresh(Elements(s0)) && fresh(Elements(s1))
  {
    s0 := CarveBuckets(n);
    s1 := CarveBuckets(n);
    forall b | b in s0 ensures b !in s1 { assert b in Elements(s0); assert b in s1 ==> b in Elements(s1); }
  }

  /** Makes every bucket of a new table an empty list. */
  method FillBuckets(buckets: seq<Node>)
    requires Distinct(buckets)
    modifies Elements(buckets)
    ensures Represents(EmptyBuckets(buckets))
  {
    assert buckets[..0] == [];
    for tmp := 0 to |buckets|
      invariant Represents(EmptyBuckets(buckets[..tmp]))
    {
      assert buckets[..tmp + 1] == buckets[..tmp] + [buckets[tmp]];
      EmptyBucketsStep(buckets[..tmp], buckets[tmp]);
      EmptyBucketsKeep(buckets[..tmp]);
      InitListHead(buckets[tmp], EmptyBuckets(buckets[..tmp]));
    }
    assert buckets[..|buckets|] == buckets;
  }

  /** Every bucket points at itself both ways. */
  ghost predicate SelfLinked(s: seq<Node>)
    reads s
  {
    forall b :: b in s ==> b.next == b == b.prev
  }

  lemma EmptyBucketsLinks(s: seq<Node>)
    ensures Represents(EmptyBuckets(s)) <==> SelfLinked(s)
  {
    EmptyBucketsKeep(s);
    forall b | b in s ensures Links.NextIn(EmptyBuckets(s), b) == b == Links.PrevIn(EmptyBuckets(s), b) {
      Links.At(EmptyBuckets(s), b, 0);
    }
    assert forall b :: b in s ==> b in Nodes(EmptyBuckets(s));
  }

  // ---------- Creating and destroying tables ----------

  /** A finished table: its two blocks are live with the sizes they will be freed with. */
  ghost predicate Built(table: RevokeTable, live: map<Block, nat>) {
    && table.hashSize == |table.hashTable| && Distinct(table.hashTable)
    && table.hashBlock != table.block
    && table.block in live && live[table.block] == SIZEOF_REVOKE_TABLE
    && table.hashBlock in live && live[table.hashBlock] == |table.hashTable| * SIZEOF_LIST_HEAD
  }

  /** 2^shift is the largest power of two not above a positive size. */
  ghost predicate ShiftFits(hashSize: int, shift: int) {
    shift >= 0 && if hashSize >= 1 then Pow2(shift) <= hashSize < Pow2(shift + 1) else shift == 0
  }

  ghost function Blocks(table: RevokeTable): set<Block> {
    {table.block, table.hashBlock}
  }

  /** The two blocks of a table and its shift, or neither block. */
  method AllocateTable(hashSize: int, mem: Allocator) returns (p: Block?, shift: nat, q: Block?)
    requires 0 <= hashSize && mem.Valid()
    modifies mem
    ensures mem.Valid() && (p == null <==> q == null)
    ensures p == null <==> Fails(mem.script, old(mem.calls)) || Fails(mem.script, old(mem.calls) + 1)
    ensures p == null ==> mem.live == old(mem.live)
    ensures p != null ==> fresh(p) && fresh(q) && p != q && mem.calls == old(mem.calls) + 2
    ensures p != null ==> mem.live == old(mem.live)[p := SIZEOF_REVOKE_TABLE][q := hashSize * SIZEOF_LIST_HEAD]
    ensures p != null ==> p !in old(mem.live) && q !in old(mem.live) && ShiftFits(hashSize, shift)
  {
    shift, q := 0, null;
    p := mem.ZMalloc(SIZEOF_REVOKE_TABLE);
    if p == null {
      return;
    }
    shift := HashShift(hashSize);
    q := mem.ZMalloc(hashSize * SIZEOF_LIST_HEAD);
    if q == null {
      mem.Free(p, SIZEOF_REVOKE_TABLE);
      p := null;
    }
  }

  /**
   A finished table with its two blocks, or null and nothing kept: which of the two depends on two requests.  storage is
   the memory the second request hands out.
   */
  method InitRevokeTable(hashSize: int, storage: seq<Node>, mem: Allocator) returns (table: RevokeTable?)
    requires 0 <= hashSize == |storage| && Distinct(storage) && mem.Valid()
    modifies mem, Elements(storage)
    ensures mem.Valid()
    ensures table == null <==> Fails(mem.script, old(mem.calls)) || Fails(mem.script, old(mem.calls) + 1)
    ensures table == null ==> mem.live == old(mem.live)
    ensures table != null ==> fresh(table) && fresh(Blocks(table)) && table.hashTable == storage
    ensures table != null ==> Built(table, mem.live) && mem.live - Blocks(table) == old(mem.live)
    ensures table != null ==> table.hashSize == hashSize && table.hashShift >= 0
    ensures table != null && hashSize >= 1 ==> Pow2(table.hashShift) <= hashSize < Pow2(table.hashShift + 1)
    ensures table != null ==> SelfLinked(storage) && mem.calls == old(mem.calls) + 2
  {
    var p, shift, q := AllocateTable(hashSize, mem);
    if p == null {
      return null;
    }
    FillBuckets(storage);
    EmptyBucketsLinks(storage);
    table := new RevokeTable(p, hashSize, shift, storage, q);
  }

  /** Every bucket of the table is empty on the lists L. */
  ghost predicate AllEmpty(buckets: seq<Node>, L: Rings<Node>) {
    forall i :: 0 <= i < |buckets| ==> buckets[i] in L && L[buckets[i]] == [buckets[i]]
  }

  lemma AllEmptyIs(buckets: seq<Node>, L: Rings<Node>)
    ensures AllEmpty(buckets, L) <==> forall b :: b in buckets ==> b in L && L[b] == [b]
  {
    forall b | AllEmpty(buckets, L) && b in buckets ensures b in L && L[b] == [b] {
      var i :| 0 <= i < |buckets| && buckets[i] == b;
    }
  }

  /** On the heap: every bucket is its own successor. */
  lemma EmptyOnHeap(buckets: seq<Node>, L: Rings<Node>)
    requires Represents(L) && Elements(buckets) <= L.Keys
    ensures AllEmpty(buckets, L) <==> forall b :: b in buckets ==> b.next == b
  {
    AllEmptyIs(buckets, L);
    forall b | b in buckets ensures b in L && (b.next == b <==> L[b] == [b]) {
      assert b in Elements(buckets);
      TestsDecide(L, b, b);
      assert L[b] == [b] + Entries(L[b]);
    }
  }

  /** Returns false where the emptiness assertion fails and the program aborts, with nothing freed. */
  method DestroyRevokeTable(table: RevokeTable, mem: Allocator, ghost L: Rings<Node>) returns (ok: bool)
    requires Built(table, mem.live) && mem.Valid() && Represents(L) && Elements(table.hashTable) <= L.Keys
    modifies mem
    ensures mem.Valid() && mem.calls == old(mem.calls)
    ensures ok <==> AllEmpty(table.hashTable, L)
    ensures ok <==> forall b :: b in table.hashTable ==> b.next == b
    ensures mem.live == if ok then old(mem.live) - Blocks(table) else old(mem.live)
  {
    EmptyOnHeap(table.hashTable, L);
    for i := 0 to table.hashSize
      invariant AllEmpty(table.hashTable[..i], L)
      invariant mem.live == old(mem.live) && mem.counter == old(mem.counter) && mem.calls == old(mem.calls)
    {
      var hashList := table.hashTable[i];
      assert hashList in Elements(table.hashTable);
      TestsDecide(L, hashList, hashList);
      if !ListEmpty(hashList) {
        return false;
      }
    }
    assert table.hashTable[..table.hashSize] == table.hashTable;
    mem.Free(table.hashBlock, SIZEOF_LIST_HEAD * table.hashSize);
    mem.Free(table.block, SIZEOF_REVOKE_TABLE);
    return true;
  }

  /** What a table pointer stands for: nothing when it is null. */
  ghost function BlocksAt(table: RevokeTable?): set<Block> {
    if table == null then {} else Blocks(table)
  }

  ghost function BucketsAt(table: RevokeTable?): seq<Node> {
    if table == null then [] else table.hashTable
  }

  ghost function TableBlocks(journal: Journal): set<Block>
    reads journal`revokeTable0, journal`revokeTable1
  {
    BlocksAt(journal.revokeTable0) + BlocksAt(journal.revokeTable1)
  }

  ghost function Buckets(journal: Journal): seq<Node>
    reads journal`revokeTable0, journal`revokeTable1
  {
    BucketsAt(journal.revokeTable0) + BucketsAt(journal.revokeTable1)
  }

  /** The tables a journal has are built, on blocks of their own. */
  ghost predicate TablesBuilt(journal: Journal, live: map<Block, nat>)
    reads journal`revokeTable0, journal`revokeTable1
  {
    && (journal.revokeTable0 != null ==> Built(journal.revokeTable0, live))
    && (journal.revokeTable1 != null ==> Built(journal.revokeTable1, live))
    && BlocksAt(journal.revokeTable0) !! BlocksAt(journal.revokeTable1)
  }

  ghost predicate HasTables(journal: Journal, live: map<Block, nat>)
    reads journal`revokeTable0, journal`revokeTable1
  {
    journal.revokeTable0 != null && journal.revokeTable1 != null && TablesBuilt(journal, live)
  }

  lemma BothBuckets(a: seq<Node>, b: seq<Node>, L: Rings<Node>)
    ensures Elements(a + b) == Elements(a) + Elements(b)
    ensures AllEmpty(a + b, L) <==> AllEmpty(a, L) && AllEmpty(b, L)
  {
    if AllEmpty(a + b, L) {
      forall i | 0 <= i < |a| ensures a[i] in L && L[a[i]] == [a[i]] { assert (a + b)[i] == a[i]; }
      forall i | 0 <= i < |b| ensures b[i] in L && L[b[i]] == [b[i]] { assert (a + b)[|a| + i] == b[i]; }
    }
  }

  /** The requests for two tables, from request number n on, all succeed. */
  ghost predicate TablesAllocate(script: seq<bool>, n: nat) {
    !Fails(script, n) && !Fails(script, n + 1) && !Fails(script, n + 2) && !Fails(script, n + 3)
  }

  /** The unwinding step of a failed second table: its emptiness assertions hold. */
  method DropFirstTable(journal: Journal, mem: Allocator)
    requires journal.revokeTable0 != null && Built(journal.revokeTable0, mem.live) && mem.Valid()
    requires SelfLinked(journal.revokeTable0.hashTable)
    modifies mem, journal`revokeTable0
    ensures mem.Valid() && mem.live == old(mem.live) - old(Blocks(journal.revokeTable0))
    ensures journal.revokeTable0 == null
  {
    ghost var s := journal.revokeTable0.hashTable;
    EmptyBucketsLinks(s);
    var ok := DestroyRevokeTable(journal.revokeTable0, mem, EmptyBuckets(s));
    assert ok;
    journal.revokeTable0 := null;
  }

  /** Both tables stand beside what was live before, in the given storage. */
  ghost predicate Ready(journal: Journal, hashSize: nat, s0: seq<Node>, s1: seq<Node>, live: map<Block, nat>,
                        start: map<Block, nat>)
    reads journal`revoke, journal`revokeTable0, journal`revokeTable1, s0, s1
  {
    && HasTables(journal, live) && journal.revoke == journal.revokeTable1 && live - TableBlocks(journal) == start
    && journal.revokeTable0.hashTable == s0 && journal.revokeTable1.hashTable == s1
    && journal.revokeTable0.hashSize == hashSize == journal.revokeTable1.hashSize
    && SelfLinked(s0) && SelfLinked(s1)
  }

  /** The second half of txd_journal_init_revoke, with the first table in place. */
  method InitSecondTable(journal: Journal, hashSize: int, storage: seq<Node>, mem: Allocator) returns (err: int)
    requires 0 <= hashSize == |storage| && Distinct(storage) && mem.Valid()
    requires journal.revokeTable0 != null && Built(journal.revokeTable0, mem.live)
    requires journal.revokeTable0.hashSize == hashSize
    requires SelfLinked(journal.revokeTable0.hashTable) && Apart(journal.revokeTable0.hashTable, storage)
    modifies mem, journal`revokeTable0, journal`revokeTable1, journal`revoke, Elements(storage)
    ensures mem.Valid() && (err == 0 || err == -ENOMEM)
    ensures err == 0 <==> !Fails(mem.script, old(mem.calls)) && !Fails(mem.script, old(mem.calls) + 1)
    ensures err == 0 ==>
      Ready(journal, hashSize, old(journal.revokeTable0.hashTable), storage, mem.live,
            old(mem.live) - old(Blocks(journal.revokeTable0)))
    ensures err == 0 ==> journal.revokeTable0 == old(journal.revokeTable0) && mem.calls == old(mem.calls) + 2
    ensures err == 0 ==> fresh(journal.revokeTable1) && fresh(Blocks(journal.revokeTable1))
    ensures err != 0 ==> mem.live == old(mem.live) - old(Blocks(journal.revokeTable0))
    ensures err != 0 ==> journal.revokeTable0 == null == journal.revokeTable1
  {
    assert forall b :: b in journal.revokeTable0.hashTable ==> b !in Elements(storage);
    var t1 := InitRevokeTable(hashSize, storage, mem);
    journal.revokeTable1 := t1;
    if t1 == null {
      DropFirstTable(journal, mem);
      return -ENOMEM;
    }
    journal.revoke := t1;
    return 0;
  }

  /** Bytes of a table of the given size. */
  ghost function TableSize(hashSize: nat): nat {
    SIZEOF_REVOKE_TABLE + hashSize * SIZEOF_LIST_HEAD
  }

  lemma TableTotal(table: RevokeTable, live: map<Block, nat>)
    requires Built(table, live)
    ensures Total(live) == Total(live - Blocks(table)) + TableSize(table.hashSize)
  {
    TotalWithout(live, table.block);
    TotalWithout(live - {table.block}, table.hashBlock);
    assert live - {table.block} - {table.hashBlock} == live - Blocks(table);
  }

  lemma TablesTotal(journal: Journal, live: map<Block, nat>)
    requires HasTables(journal, live)
    requires journal.revokeTable0.hashSize == journal.revokeTable1.hashSize
    ensures Total(live) == Total(live - TableBlocks(journal)) + 2 * TableSize(journal.revokeTable0.hashSize)
  {
    var t0, t1 := journal.revokeTable0, journal.revokeTable1;
    TableTotal(t0, live);
    TableTotal(t1, live - Blocks(t0));
    assert live - Blocks(t0) - Blocks(t1) == live - TableBlocks(journal);
  }

  method InitRevoke(journal: Journal, hashSize: int, s0: seq<Node>, s1: seq<Node>, mem: Allocator) returns (err: int)
    requires 0 <= hashSize == |s0| == |s1| && Distinct(s0) && Distinct(s1) && Apart(s0, s1) && mem.Valid()
    modifies mem, journal`revokeTable0, journal`revokeTable1, journal`revoke, Elements(s0), Elements(s1)
    ensures mem.Valid() && (err == 0 || err == -ENOMEM)
    ensures err == 0 <==> TablesAllocate(mem.script, old(mem.calls))
    ensures err == 0 ==> Ready(journal, hashSize, s0, s1, mem.live, old(mem.live))
    ensures err == 0 ==> mem.calls == old(mem.calls) + 4 && fresh(TableBlocks(journal))
    ensures err == 0 ==> fresh(journal.revokeTable0) && fresh(journal.revokeTable1)
    ensures err != 0 ==> mem.live == old(mem.live) && journal.revokeTable0 == null
  {
    var t0 := InitRevokeTable(hashSize, s0, mem);
    journal.revokeTable0 := t0;
    if t0 == null {
      return -ENOMEM;
    }
    err := InitSecondTable(journal, hashSize, s1, mem);
  }

  lemma ReadyBuckets(journal: Journal, n: nat, s0: seq<Node>, s1: seq<Node>, live: map<Block, nat>,
                     start: map<Block, nat>)
    requires Ready(journal, n, s0, s1, live, start) && Distinct(s0) && Distinct(s1) && Apart(s0, s1)
    ensures Distinct(Buckets(journal)) && SelfLinked(Buckets(journal))
    ensures Total(live) == Total(start) + 2 * TableSize(n)
  {
    DistinctConcat(s0, s1);
    TablesTotal(journal, live);
  }

  /** What destruction frees: it stops at the first table with a bucket in use. */
  ghost function Freed(journal: Journal, L: Rings<Node>): set<Block>
    reads journal`revokeTable0, journal`revokeTable1
  {
    if !AllEmpty(BucketsAt(journal.revokeTable0), L) then {}
    else if !AllEmpty(BucketsAt(journal.revokeTable1), L) then BlocksAt(journal.revokeTable0)
    else TableBlocks(journal)
  }

  lemma FreedCases(journal: Journal, live: map<Block, nat>, L: Rings<Node>)
    ensures var t0, t1, left := journal.revokeTable0, journal.revokeTable1, live - Freed(journal, L);
      && (AllEmpty(Buckets(journal), L) <==> AllEmpty(BucketsAt(t0), L) && AllEmpty(BucketsAt(t1), L))
      && (!AllEmpty(BucketsAt(t0), L) ==> left == live)
      && (AllEmpty(BucketsAt(t0), L) && !AllEmpty(BucketsAt(t1), L) ==> left == live - BlocksAt(t0))
      && (AllEmpty(Buckets(journal), L) ==> left == live - BlocksAt(t0) - BlocksAt(t1))
  {
    BothBuckets(BucketsAt(journal.revokeTable0), BucketsAt(journal.revokeTable1), L);
  }

  /** A table that may be missing. */
  method DestroyIfThere(table: RevokeTable?, mem: Allocator, ghost L: Rings<Node>) returns (ok: bool)
    requires mem.Valid() && (table != null ==> Built(table, mem.live))
    requires Represents(L) && Elements(BucketsAt(table)) <= L.Keys
    modifies mem
    ensures mem.Valid() && (ok <==> AllEmpty(BucketsAt(table), L))
    ensures mem.live == if ok then old(mem.live) - BlocksAt(table) else old(mem.live)
  {
    ok := true;
    if table != null {
      ok := DestroyRevokeTable(table, mem, L);
    }
  }

  /** Both tables in turn, up to the first with a bucket in use. */
  method DestroyTables(journal: Journal, mem: Allocator, ghost L: Rings<Node>) returns (ok: bool)
    requires TablesBuilt(journal, mem.live) && mem.Valid() && Represents(L) && Elements(Buckets(journal)) <= L.Keys
    modifies mem, journal`revoke
    ensures mem.Valid() && journal.revoke == null
    ensures ok <==> AllEmpty(Buckets(journal), L)
    ensures mem.live == old(mem.live) - Freed(journal, L)
  {
    FreedCases(journal, mem.live, L);
    BothBuckets(BucketsAt(journal.revokeTable0), BucketsAt(journal.revokeTable1), L);
    journal.revoke := null;
    ok := DestroyIfThere(journal.revokeTable0, mem, L);
    if ok {
      ok := DestroyIfThere(journal.revokeTable1, mem, L);
    }
  }

  /** The journal keeps its pointers to the freed tables. */
  method DestroyRevoke(journal: Journal, mem: Allocator, ghost L: Rings<Node>) returns (ok: bool)
    requires TablesBuilt(journal, mem.live) && mem.Valid() && Represents(L) && Elements(Buckets(journal)) <= L.Keys
    modifies mem, journal`revoke
    ensures mem.Valid() && journal.revoke == null
    ensures ok <==> AllEmpty(Buckets(journal), L)
    ensures ok <==> forall b :: b in Buckets(journal) ==> b.next == b
    ensures mem.live == old(mem.live) - Freed(journal, L)
  {
    EmptyOnHeap(Buckets(journal), L);
    ok := DestroyTables(journal, mem, L);
  }

  lemma UntouchedLists(journal: Journal)
    requires SelfLinked(Buckets(journal))
    ensures var L := EmptyBuckets(Buckets(journal));
      && Represents(L) && Elements(Buckets(journal)) <= L.Keys && AllEmpty(Buckets(journal), L)
      && Freed(journal, L) == TableBlocks(journal)
  {
    var s := Buckets(journal);
    EmptyBucketsLinks(s);
    EmptyBucketsKeep(s);
    BothBuckets(BucketsAt(journal.revokeTable0), BucketsAt(journal.revokeTable1), EmptyBuckets(s));
  }

  /** Untouched tables are destroyed without tripping an assertion. */
  method DestroyUnused(journal: Journal, mem: Allocator)
    requires TablesBuilt(journal, mem.live) && mem.Valid() && SelfLinked(Buckets(journal))
    modifies mem, journal`revoke
    ensures mem.Valid() && mem.live == old(mem.live) - TableBlocks(journal)
  {
    UntouchedLists(journal);
    var ok := DestroyRevoke(journal, mem, EmptyBuckets(Buckets(journal)));
    assert ok;
  }

  /**
   Any history of list operations on the buckets and further nodes, and then destruction: it succeeds exactly when that
   history left every bucket empty.
   */
  method UseThenDestroy(journal: Journal, ops: seq<Op<Node>>, mem: Allocator, ghost P: set<Node>) returns (ok: bool)
    requires TablesBuilt(journal, mem.live) && mem.Valid() && SelfLinked(Buckets(journal))
    requires LegalRun(ops, EmptyBuckets(Buckets(journal)))
    requires Elements(Buckets(journal)) <= Run(ops, EmptyBuckets(Buckets(journal))).Keys
    requires Elements(Buckets(journal)) <= P && ListRuns.AllNamed(ops) <= P
    modifies P, mem, journal`revoke
    ensures mem.Valid()
    ensures ok <==> AllEmpty(Buckets(journal), Run(ops, EmptyBuckets(Buckets(journal))))
    ensures ok <==> forall b :: b in Buckets(journal) ==> b.next == b
    ensures mem.live == old(mem.live) - Freed(journal, Run(ops, EmptyBuckets(Buckets(journal))))
  {
    ghost var G := EmptyBuckets(Buckets(journal));
    EmptyBucketsLinks(Buckets(journal));
    EmptyBucketsKeep(Buckets(journal));
    ListRuns.ExecuteAll(ops, G, P);
    ok := DestroyRevoke(journal, mem, Run(ops, G));
  }

  /** After a stop at a bucket in use, the bytes of at least one table stay on the counter. */
  lemma StopCosts(journal: Journal, hashSize: nat, live: map<Block, nat>, start: map<Block, nat>, L: Rings<Node>)
    requires HasTables(journal, live) && live - TableBlocks(journal) == start && hashSize < 0x8000_0000
    requires journal.revokeTable0.hashSize == hashSize == journal.revokeTable1.hashSize
    ensures Shown(Total(live - Freed(journal, L))) == Shown(Total(start)) <==> AllEmpty(Buckets(journal), L)
  {
    FreedCases(journal, live, L);
    TablesTotal(journal, live);
    TableTotal(journal.revokeTable0, live);
    OffBy(Total(start), TableSize(hashSize));
    OffBy(Total(start), 2 * TableSize(hashSize));
  }

  lemma OffBy(n: nat, d: nat)
    requires 0 < d < TWO_64
    ensures Shown(n + d) != Shown(n)
  {
    SameRemainder(n + d, n);
  }

  /**
   The whole life of the tables, over every failure pattern and any history of list operations on their buckets: the
   counter is back at its old value exactly when nothing was built or every bucket ended empty.
   */
  method BuildUseDestroy(journal: Journal, hashSize: int, s0: seq<Node>, s1: seq<Node>, ops: seq<Op<Node>>,
                         mem: Allocator, ghost P: set<Node>) returns (err: int, ok: bool)
    requires 0 <= hashSize == |s0| == |s1| < 0x8000_0000 && Distinct(s0 + s1) && mem.Valid()
    requires LegalRun(ops, EmptyBuckets(s0 + s1)) && Elements(s0 + s1) <= Run(ops, EmptyBuckets(s0 + s1)).Keys
    requires Elements(s0 + s1) <= P && ListRuns.AllNamed(ops) <= P
    modifies P, mem, journal`revokeTable0, journal`revokeTable1, journal`revoke
    ensures mem.Valid() && (err == 0 <==> TablesAllocate(mem.script, old(mem.calls)))
    ensures err != 0 ==> mem.live == old(mem.live)
    ensures err == 0 ==>
      (ok <==> forall b :: b in s0 + s1 ==> var L := Run(ops, EmptyBuckets(s0 + s1)); b in L && L[b] == [b])
    ensures err == 0 ==> (ok <==> forall b :: b in s0 + s1 ==> b.next == b)
    ensures mem.counter == old(mem.counter) <==> err != 0 || ok
    ensures err != 0 || ok ==> mem.live == old(mem.live)
  {
    DistinctConcat(s0, s1);
    BothBuckets(s0, s1, Run(ops, EmptyBuckets(s0 + s1)));
    ok := false;
    err := InitRevoke(journal, hashSize, s0, s1, mem);
    if err == 0 {
      ghost var L := Run(ops, EmptyBuckets(s0 + s1));
      StopCosts(journal, hashSize, mem.live, old(mem.live), L);
      AllEmptyIs(s0 + s1, L);
      ok := UseThenDestroy(journal, ops, mem, P);
    }
  }
}
