/**
 src/txd_malloc.c, the spdk pair: a counter of outstanding bytes kept beside the allocator.
 Which requests fail is an arbitrary script over the request numbers.
 */
module Memory {

  const TWO_64 := 0x1_0000_0000_0000_0000

  /** An allocation as the allocator knows it. */
  class Block {
    constructor () { }
  }

  /** Bytes recorded for the live blocks. */
  ghost function Total(live: map<Block, nat>): nat {
    if live == map[] then 0
    else var b :| b in live; live[b] + Total(live - {b})
  }

  lemma {:induction false} TotalWithout(live: map<Block, nat>, b: Block)
    requires b in live
    ensures Total(live) == live[b] + Total(live - {b})
    decreases |live|
  {
    var p :| p in live && Total(live) == live[p] + Total(live - {p});
    if p != b {
      TotalWithout(live - {p}, b);
      assert live - {p} - {b} == live - {b} - {p};
      TotalWithout(live - {b}, p);
    }
  }

  lemma TotalWith(live: map<Block, nat>, b: Block, size: nat)
    requires b !in live
    ensures Total(live[b := size]) == Total(live) + size
  {
    TotalWithout(live[b := size], b);
    assert live[b := size] - {b} == live;
  }

  /** The counter moves by the change in live bytes, up to its width. */
  lemma CounterMoves(counter: nat, before: nat, size: nat)
    requires counter == (before + size) % TWO_64
    ensures counter == (before % TWO_64 + size) % TWO_64
  {
    var q := before / TWO_64;
    assert before == q * TWO_64 + before % TWO_64;
  }

  /** What an unsigned 64-bit counter shows for a count. */
  ghost function Shown(n: nat): nat {
    n % TWO_64
  }

  lemma SameRemainder(x: int, y: int)
    ensures x % TWO_64 == y % TWO_64 <==> (x - y) % TWO_64 == 0
  {
    var a, b, c := x / TWO_64, y / TWO_64, (x - y) / TWO_64;
    assert x == a * TWO_64 + x % TWO_64 && y == b * TWO_64 + y % TWO_64;
    assert x - y == c * TWO_64 + (x - y) % TWO_64;
  }

  /** Taking off a size keeps the counter in step with the live bytes exactly when it is the recorded one. */
  lemma CounterFalls(before: nat, recorded: nat, size: nat)
    ensures (before % TWO_64 - size) % TWO_64 == (before - recorded) % TWO_64 <==> size % TWO_64 == recorded % TWO_64
  {
    var q := before / TWO_64;
    assert before == q * TWO_64 + before % TWO_64;
    SameRemainder(before % TWO_64 - size, before - recorded);
    SameRemainder(recorded, size);
    SameRemainder(recorded - size, recorded - size - q * TWO_64);
  }

  lemma LiveFalls(live: map<Block, nat>, p: Block, size: nat)
    requires p in live
    ensures (Shown(Total(live)) - size) % TWO_64 == Shown(Total(live - {p})) <==> size % TWO_64 == live[p] % TWO_64
  {
    TotalWithout(live, p);
    CounterFalls(Total(live), live[p], size);
  }

  lemma LiveRises(live: map<Block, nat>, p: Block, size: nat)
    requires p !in live
    ensures Shown(Total(live[p := size])) == (Shown(Total(live)) + size) % TWO_64
  {
    TotalWith(live, p, size);
    ShownRises(Total(live), size);
  }

  lemma ShownRises(n: nat, size: nat)
    ensures Shown(n + size) == (Shown(n) + size) % TWO_64
  {
    CounterMoves((n + size) % TWO_64, n, size);
  }

  /** Requests beyond the script succeed. */
  predicate Fails(script: seq<bool>, n: nat) {
    n < |script| && script[n]
  }

  class Allocator {
    var counter: nat                      // allocated_mem_size, an unsigned 64-bit counter
    var calls: nat                        // requests made so far
    const script: seq<bool>               // script[n]: does request number n fail?
    ghost var live: map<Block, nat>       // blocks not yet freed, with their requested sizes

    /** The counter is the number of live bytes, up to its width. */
    ghost predicate Valid()
      reads this
    {
      counter == Shown(Total(live))
    }

    constructor (script: seq<bool>)
      ensures Valid() && live == map[] && calls == 0 && this.script == script
    {
      this.script := script;
      counter := 0;
      calls := 0;
      live := map[];
    }

    /** txd_zmalloc_spdk */
    method ZMalloc(size: nat) returns (p: Block?)
      modifies this
      ensures p == null <==> Fails(script, old(calls))
      ensures p == null <==> old(calls) < |script| && script[old(calls)]
      ensures calls == old(calls) + 1
      ensures p == null ==> live == old(live) && counter == old(counter)
      ensures p != null ==> fresh(p) && live == old(live)[p := size] && counter == (old(counter) + size) % TWO_64
      ensures p != null ==> p !in old(live)
      ensures old(Valid()) ==> Valid()
    {
      if Fails(script, calls) {
        p := null;
      } else {
        p := new Block();
        LiveRises(live, p, size);
        counter := (counter + size) % TWO_64;
        live := live[p := size];
      }
      calls := calls + 1;
    }

    /** txd_free_spdk: the caller passes the size; the counter stays right exactly when it is the one requested. */
    method Free(p: Block, size: nat)
      requires p in live
      modifies this
      ensures calls == old(calls)
      ensures live == old(live) - {p} && counter == (old(counter) - size) % TWO_64
      ensures old(Valid()) ==> (Valid() <==> size % TWO_64 == old(live)[p] % TWO_64)
    {
      LiveFalls(live, p, size);
      counter := (counter - size) % TWO_64;
      live := live - {p};
    }
  }
}
