/**
 include/list.h: circular doubly linked lists threaded through the nodes themselves.
 Each function is proved to carry out its transformer of module Forest on a heap of any number of lists,
 writing no link outside its modifies clause.
 */
module List {
  import opened Seqs
  import opened Forest
  import opened Links

  /** struct list_head; poisoned links are null. */
  class Node {
    var next: Node?
    var prev: Node?

    /** Zeroed storage. */
    constructor ()
      ensures next == null == prev
    {
      next, prev := null, null;
    }
  }

  /** The links in the heap are exactly those the lists of G prescribe. */
  ghost predicate Represents(G: Rings<Node>)
    reads Nodes(G)
  {
    WellFormed(G) && forall x :: x in Nodes(G) ==> x.next == NextIn(G, x) && x.prev == PrevIn(G, x)
  }

  /** A possibly null link as a frame. */
  ghost function Target(x: Node?): set<Node> {
    if x == null then {} else {x}
  }

  lemma LooseIsDetachable(G: Rings<Node>, n: Node)
    requires Represents(G) && Loose(G, n)
    ensures Represents(Detach(G, n)) && Nodes(Detach(G, n)) == Nodes(G) - {n}
    ensures forall x :: x in Nodes(G) && x != n ==> x.next != n && x.prev != n
    ensures n in Nodes(G) ==> n.next == n == n.prev
  {
    HeadsAreNodes(G);
    DetachKeeps(G, n);
    forall x | x in Nodes(G) && x != n
      ensures x.next == NextIn(Detach(G, n), x) && x.prev == PrevIn(Detach(G, n), x) && x.next != n && x.prev != n
    {
      NextPrev(G, x);
      if n in Nodes(G) {
        At(G, n, 0);
        DetachLinks(G, n, x);
      } else {
        assert G[HeadOf(G, x)] == Without(G[HeadOf(G, x)], n);
        At(Detach(G, n), HeadOf(G, x), IndexOf(G[HeadOf(G, x)], x));
      }
    }
    if n in Nodes(G) { At(G, n, 0); }
  }

  lemma Alone(G: Rings<Node>, n: Node)
    requires Represents(G) && n !in Nodes(G) && n.next == n == n.prev
    ensures Represents(G[n := [n]])
  {
    forall x | x in Nodes(G) || x == n { FreshHeadLinks(G, n, x); }
    FreshHeadKeeps(G, n);
  }

  method InitListHead(list: Node, ghost G: Rings<Node>)
    requires Represents(G) && Legal(Init(list), G)
    modifies list
    ensures list.next == list == list.prev
    ensures Represents(Apply(Init(list), G))
  {
    LooseIsDetachable(G, list);
    ghost var D := Detach(G, list);
    list.next := list;
    list.prev := list;
    Alone(D, list);
  }

  lemma Relinked(G: Rings<Node>, H: Rings<Node>, p: Node, n: Node)
    requires WellFormed(G) && p in Nodes(G) && n !in Nodes(G) && Chained(G, H, p, n)
    requires n.next == NextIn(G, p) && n.prev == p
    requires forall x :: x in Nodes(G) ==> x.next == if x == p then n else NextIn(G, x)
    requires forall x :: x in Nodes(G) ==> x.prev == if x == NextIn(G, p) then n else PrevIn(G, x)
    ensures Represents(H)
  {
  }

  lemma Added(G: Rings<Node>, p: Node, n: Node)
    requires WellFormed(G) && p in Nodes(G) && n !in Nodes(G)
    requires n.next == NextIn(G, p) && n.prev == p
    requires forall x :: x in Nodes(G) ==> x.next == if x == p then n else NextIn(G, x)
    requires forall x :: x in Nodes(G) ==> x.prev == if x == NextIn(G, p) then n else PrevIn(G, x)
    ensures Represents(LinkAfter(G, p, [n]))
  {
    LinkOne(G, p, n);
    Relinked(G, LinkAfter(G, p, [n]), p, n);
  }

  /** Inserts entry between two neighbours; between itself and itself it becomes an empty list. */
  method RawAdd(entry: Node, prev: Node, next: Node, ghost G: Rings<Node>)
    requires Represents(G) && entry !in Nodes(G)
    requires if prev == entry then next == entry else prev in Nodes(G) && prev.next == next
    modifies next`prev, entry, prev`next
    ensures Represents(Attach(G, prev, entry))
    ensures prev.next == entry == next.prev && entry.prev == prev && entry.next == next
  {
    if prev != entry { NextPrev(G, prev); }
    next.prev := entry;
    entry.next := next;
    entry.prev := prev;
    prev.next := entry;
    if prev == entry {
      Alone(G, entry);
    } else {
      Added(G, prev, entry);
    }
  }

  method ListAdd(entry: Node, head: Node, ghost G: Rings<Node>)
    requires Represents(G) && Legal(Add(entry, head), G)
    modifies Target(head.next)`prev, entry, head`next
    ensures Represents(Apply(Add(entry, head), G))
    ensures head.next == entry && entry.prev == head && entry.next == old(head.next)
  {
    LooseIsDetachable(G, entry);
    NextPrev(Detach(G, entry), head);
    RawAdd(entry, head, head.next, Detach(G, entry));
  }

  method ListAddTail(entry: Node, head: Node, ghost G: Rings<Node>)
    requires Represents(G) && Legal(AddTail(entry, head), G)
    modifies Target(head.prev)`next, entry, head`prev
    ensures Represents(Apply(AddTail(entry, head), G))
    ensures head.prev == entry && entry.next == head && entry.prev == old(head.prev)
  {
    LooseIsDetachable(G, entry);
    NextPrev(Detach(G, entry), head);
    BeforeIsAfterPrev(Detach(G, entry), head, [entry]);
    RawAdd(entry, head.prev, head, Detach(G, entry));
  }

  method RawDel(prev: Node, next: Node)
    modifies next`prev, prev`next
    ensures next.prev == prev && prev.next == next
  {
    next.prev := prev;
    prev.next := next;
  }

  /** Two nodes point at each other. */
  predicate Bridged(prev: Node?, next: Node?)
    reads prev, next
  {
    prev != null && next != null && prev.next == next && next.prev == prev
  }

  /** Unlinks entry; its own links still name its former neighbours. */
  method RawDelEntry(entry: Node, ghost G: Rings<Node>)
    requires Represents(G) && Unlinkable(G, entry)
    modifies Target(entry.next)`prev, Target(entry.prev)`next
    ensures Represents(Detach(G, entry))
    ensures entry.next == old(entry.next) && entry.prev == old(entry.prev)
    ensures Bridged(entry.prev, entry.next)
  {
    NextPrev(G, entry);
    if entry in G { At(G, entry, 0); }
    RawDel(entry.prev, entry.next);
    DetachKeeps(G, entry);
    forall x | x in Nodes(G) && x != entry { DetachLinks(G, entry, x); }
  }

  lemma DetachAbsent<T>(G: Rings<T>, e: T)
    requires WellFormed(G) && e !in Nodes(G)
    ensures Detach(G, e) == G
  {
    HeadsAreNodes(G);
    forall h | h in G ensures h != e && Without(G[h], e) == G[h] { assert e in G[h] ==> e in Nodes(G); }
  }

  method ListDel(entry: Node, ghost G: Rings<Node>)
    requires Represents(G) && Legal(Del(entry), G)
    modifies Target(entry.next)`prev, Target(entry.prev)`next, entry
    ensures Represents(Apply(Del(entry), G))
    ensures entry.next == null == entry.prev
    ensures old(entry.next) != entry ==> Bridged(old(entry.prev), old(entry.next))
  {
    NextPrev(G, entry);
    DetachKeeps(G, entry);
    RawDelEntry(entry, G);
    entry.next := null;
    entry.prev := null;
  }

  method ListDelInit(entry: Node, ghost G: Rings<Node>)
    requires Represents(G) && Legal(DelInit(entry), G)
    modifies Target(entry.next)`prev, Target(entry.prev)`next, entry
    ensures Represents(Apply(DelInit(entry), G)) && entry.next == entry == entry.prev
    ensures old(entry.next) != entry ==> Bridged(old(entry.prev), old(entry.next))
  {
    DetachKeeps(G, entry);
    DetachAbsent(Detach(G, entry), entry);
    RawDelEntry(entry, G);
    InitListHead(entry, Detach(G, entry));
  }

  method ListMove(list: Node, head: Node, ghost G: Rings<Node>)
    requires Represents(G) && Legal(Move(list, head), G)
    modifies Target(list.next)`prev, Target(list.prev)`next, list, head`next, Target(head.next)`prev
    ensures Represents(Apply(Move(list, head), G))
    ensures head.next == list && list.prev == head
  {
    NextPrev(G, list);
    NextPrev(G, head);
    DetachKeeps(G, list);
    DetachAbsent(Detach(G, list), list);
    DetachLinks(G, list, head);
    RawDelEntry(list, G);
    ListAdd(list, head, Detach(G, list));
  }

  method ListMoveTail(list: Node, head: Node, ghost G: Rings<Node>)
    requires Represents(G) && Legal(MoveTail(list, head), G)
    modifies Target(list.next)`prev, Target(list.prev)`next, list, head`prev, Target(head.prev)`next
    ensures Represents(Apply(MoveTail(list, head), G))
    ensures head.prev == list && list.next == head
  {
    NextPrev(G, list);
    NextPrev(G, head);
    DetachKeeps(G, list);
    DetachAbsent(Detach(G, list), list);
    DetachLinks(G, list, head);
    RawDelEntry(list, G);
    ListAddTail(list, head, Detach(G, list));
  }

  // ---------- Tests ----------

  predicate ListIsLast(list: Node, head: Node)
    reads list
  {
    list.next == head
  }

  predicate ListEmpty(head: Node)
    reads head
  {
    head.next == head
  }

  predicate ListEmptyCareful(head: Node)
    reads head
  {
    var next := head.next;
    next == head && next == head.prev
  }

  predicate ListIsSingular(head: Node)
    reads head
  {
    !ListEmpty(head) && head.next == head.prev
  }

  /** What the tests decide about a list: zero entries, one entry, being the last entry. */
  lemma TestsDecide(G: Rings<Node>, head: Node, list: Node)
    requires Represents(G) && head in G
    ensures head in Nodes(G)
    ensures ListEmpty(head) <==> |Entries(G[head])| == 0
    ensures ListEmptyCareful(head) <==> |Entries(G[head])| == 0
    ensures ListIsSingular(head) <==> |Entries(G[head])| == 1
    ensures list in G[head] ==> (ListIsLast(list, head) <==> list == G[head][|G[head]| - 1])
  {
    At(G, head, 0);
    var c := G[head];
    if list in c {
      var i := IndexOf(c, list);
      At(G, head, i);
      At(G, head, |c| - 1);
    }
  }

  // ---------- Whole-list operations ----------

  lemma OwnNeighbours(G: Rings<Node>, h: Node, x: Node)
    requires Represents(G) && h in G && x in G[h]
    ensures x.next in G[h] && x.prev in G[h]
  {
    NextPrev(G, x);
  }

  method ListRotateLeft(head: Node, ghost G: Rings<Node>)
    requires Represents(G) && Legal(RotateLeft(head), G)
    modifies G[head]
    ensures Represents(Apply(RotateLeft(head), G))
  {
    TestsDecide(G, head, head);
    if !ListEmpty(head) {
      RotateIsMoveTail(G, head);
      var first := head.next;
      OwnNeighbours(G, head, head);
      OwnNeighbours(G, head, first);
      ListMoveTail(first, head, G);
    } else {
      assert G[head := Rotated(G[head])] == G;
    }
  }

  lemma Substituted(G: Rings<Node>, o: Node, n: Node)
    requires WellFormed(G) && o in Nodes(G) && n !in Nodes(G)
    requires n.next == (if NextIn(G, o) == o then n else NextIn(G, o))
    requires n.prev == (if PrevIn(G, o) == o then n else PrevIn(G, o))
    requires forall x :: x in Nodes(G) && x != o ==> x.next == if x == PrevIn(G, o) then n else NextIn(G, x)
    requires forall x :: x in Nodes(G) && x != o ==> x.prev == if x == NextIn(G, o) then n else PrevIn(G, x)
    ensures Represents(Rename(G, o, n))
  {
    NextPrev(G, o);
    forall x | x in Nodes(G)
      ensures (NextIn(G, x) == o <==> x == PrevIn(G, o)) && (PrevIn(G, x) == o <==> x == NextIn(G, o))
    { NextPrev(G, x); }
    RenameRelinks(G, o, n);
    SubstitutedAs(G, Rename(G, o, n), o, n);
  }

  lemma SubstitutedAs(G: Rings<Node>, H: Rings<Node>, o: Node, n: Node)
    requires WellFormed(G) && o in Nodes(G) && n !in Nodes(G) && Renamed(G, H, o, n)
    requires n.next == (if NextIn(G, o) == o then n else NextIn(G, o))
    requires n.prev == (if PrevIn(G, o) == o then n else PrevIn(G, o))
    requires forall x :: x in Nodes(G) && x != o ==> x.next == if NextIn(G, x) == o then n else NextIn(G, x)
    requires forall x :: x in Nodes(G) && x != o ==> x.prev == if PrevIn(G, x) == o then n else PrevIn(G, x)
    ensures Represents(H)
  {
  }

  method ListReplace(target: Node, replacement: Node, ghost G: Rings<Node>)
    requires Represents(G) && Legal(Replace(target, replacement), G)
    modifies replacement, Target(target.next)`prev, Target(target.prev)`next
    ensures Represents(Apply(Replace(target, replacement), G))
  {
    LooseIsDetachable(G, replacement);
    ghost var D := Detach(G, replacement);
    NextPrev(D, target);
    replacement.next := target.next;
    replacement.next.prev := replacement;
    replacement.prev := target.prev;
    replacement.prev.next := replacement;
    Substituted(D, target, replacement);
  }

  method ListReplaceInit(target: Node, replacement: Node, ghost G: Rings<Node>)
    requires Represents(G) && Legal(ReplaceInit(target, replacement), G)
    modifies replacement, Target(target.next)`prev, Target(target.prev)`next, target
    ensures Represents(Apply(ReplaceInit(target, replacement), G))
  {
    ghost var R := Rename(Detach(G, replacement), target, replacement);
    ReplaceKeeps(G, target, replacement);
    DetachAbsent(R, target);
    ListReplace(target, replacement, G);
    InitListHead(target, R);
  }

  lemma CutApart(D: Rings<Node>, l: Node, h: Node, k: nat)
    requires WellFormed(D) && h in D && l !in Nodes(D) && 0 < k < |D[h]|
    requires h in Nodes(D) && D[h][k] in Nodes(D)
    requires l.next == NextIn(D, h) && l.prev == D[h][k]
    requires forall x :: x in Nodes(D) ==>
      x.next == if x == D[h][k] then l else if x == h then NextIn(D, D[h][k]) else NextIn(D, x)
    requires forall x :: x in Nodes(D) ==>
      x.prev == if x == NextIn(D, D[h][k]) then h else if x == NextIn(D, h) then l else PrevIn(D, x)
    ensures Represents(SplitAt(D, l, h, k))
  {
    SplitRelinks(D, l, h, k);
    CutApartAs(D, SplitAt(D, l, h, k), l, h, D[h][k]);
  }

  lemma CutApartAs(D: Rings<Node>, H: Rings<Node>, l: Node, h: Node, e: Node)
    requires WellFormed(D) && h in Nodes(D) && e in Nodes(D) && l !in Nodes(D) && CutOff(D, H, l, h, e)
    requires l.next == NextIn(D, h) && l.prev == e && e != h
    requires forall x :: x in Nodes(D) ==> x.next == if x == e then l else if x == h then NextIn(D, e) else NextIn(D, x)
    requires forall x :: x in Nodes(D) ==>
      x.prev == if x == NextIn(D, e) then h else if x == NextIn(D, h) then l else PrevIn(D, x)
    ensures Represents(H)
  {
  }

  /** The writes of a cut alone. */
  method TieCut(list: Node, head: Node, entry: Node)
    requires head.next != null && entry.next != null && head != entry && head.next != entry.next
    requires list != head && list != entry && list != head.next && list != entry.next
    modifies list, head`next, Target(head.next)`prev, entry`next, Target(entry.next)`prev
    ensures list.next == old(head.next) && old(head.next).prev == list
    ensures list.prev == entry && entry.next == list
    ensures head.next == old(entry.next) && old(entry.next).prev == head
  {
    var newFirst := entry.next;
    list.next := head.next;
    list.next.prev := list;
    list.prev := entry;
    entry.next := list;
    head.next := newFirst;
    newFirst.prev := head;
  }

  method RawCutPosition(list: Node, head: Node, entry: Node, ghost D: Rings<Node>)
    requires Represents(D) && head in D && list !in Nodes(D) && entry in D[head] && entry != head
    modifies list, head, Target(head.next)`prev, entry`next, Target(entry.next)`prev
    ensures var k := IndexOf(D[head], entry);
      k != 0 && Represents(SplitAt(D, list, head, k))
  {
    ghost var k := IndexOf(D[head], entry);
    At(D, head, 0);
    At(D, head, k);
    NextPrev(D, head);
    NextPrev(D, entry);
    TieCut(list, head, entry);
    CutApart(D, list, head, k);
  }

  /** The nodes next to the cut; an entry that is not on head's list is not touched. */
  ghost function CutFrame(G: Rings<Node>, head: Node, entry: Node): set<Node>
    requires head in G
    reads entry
  {
    if entry in G[head] then {entry} + Target(entry.next) else {}
  }

  method ListCutPosition(list: Node, head: Node, entry: Node, ghost G: Rings<Node>)
    requires Represents(G) && Legal(Cut(list, head, entry), G)
    modifies list, head, Target(head.next)`prev, CutFrame(G, head, entry)
    ensures Represents(Apply(Cut(list, head, entry), G))
  {
    TestsDecide(G, head, head);
    if ListEmpty(head) {
      return;
    }
    At(G, head, 1);
    At(G, head, 0);
    if ListIsSingular(head) && head.next != entry && head != entry {
      return;
    }
    if entry == head {
      InitListHead(list, G);
    } else {
      DetachOther(G, list, head);
      LooseIsDetachable(G, list);
      RawCutPosition(list, head, entry, Detach(G, list));
    }
  }

  lemma Joined(G: Rings<Node>, l: Node, p: Node, first: Node, last: Node, next: Node)
    requires WellFormed(G) && l in G && |G[l]| > 1 && p in Nodes(G) && p !in G[l] && l in Nodes(G)
    requires first == NextIn(G, l) && last == PrevIn(G, l) && next == NextIn(G, p)
    requires forall x :: x in Nodes(G) && x != l ==>
      x.next == if x == p then first else if x == last then next else NextIn(G, x)
    requires forall x :: x in Nodes(G) && x != l ==>
      x.prev == if x == first then p else if x == next then last else PrevIn(G, x)
    ensures Represents(LinkAfter(G - {l}, p, Entries(G[l])))
  {
    SpliceRelinks(G, l, p);
    JoinedAs(G, LinkAfter(G - {l}, p, Entries(G[l])), l, p, first, last, next);
  }

  lemma JoinedAs(G: Rings<Node>, H: Rings<Node>, l: Node, p: Node, first: Node, last: Node, next: Node)
    requires WellFormed(G) && p in Nodes(G) && l in Nodes(G) && Spliced(G, H, l, p)
    requires first == NextIn(G, l) && last == PrevIn(G, l) && next == NextIn(G, p)
    requires forall x :: x in Nodes(G) && x != l ==>
      x.next == if x == p then first else if x == last then next else NextIn(G, x)
    requires forall x :: x in Nodes(G) && x != l ==>
      x.prev == if x == first then p else if x == next then last else PrevIn(G, x)
    ensures Represents(H)
  {
  }

  lemma SpliceApart(G: Rings<Node>, l: Node, p: Node)
    requires WellFormed(G) && l in G && |G[l]| > 1 && p in Nodes(G) && p !in G[l] && l in Nodes(G)
    ensures NextIn(G, l) in Nodes(G) && PrevIn(G, l) in Nodes(G) && NextIn(G, p) in Nodes(G)
    ensures NextIn(G, l) != l && PrevIn(G, l) != l && NextIn(G, l) != NextIn(G, p) && PrevIn(G, l) != p
    ensures NextIn(G, p) != l
  {
    NextPrev(G, l);
    NextPrev(G, p);
    At(G, l, 0);
  }

  /** The writes of a splice alone. */
  method TieEnds(first: Node, last: Node, prev: Node, next: Node)
    requires first != next && last != prev
    modifies first`prev, prev`next, last`next, next`prev
    ensures first.prev == prev && prev.next == first
    ensures last.next == next && next.prev == last
  {
    first.prev := prev;
    prev.next := first;
    last.next := next;
    next.prev := last;
  }

  method RawSplice(list: Node, prev: Node, next: Node, ghost G: Rings<Node>)
    requires Represents(G) && list in G && |G[list]| > 1 && prev in Nodes(G) && prev !in G[list] && prev.next == next
    modifies Target(list.next)`prev, prev`next, Target(list.prev)`next, next`prev
    ensures Represents(LinkAfter(G - {list}, prev, Entries(G[list])))
  {
    HeadsAreNodes(G);
    SpliceApart(G, list, prev);
    var first := list.next;
    var last := list.prev;
    TieEnds(first, last, prev, next);
    Joined(G, list, prev, first, last, next);
  }

  method ListSplice(list: Node, head: Node, ghost G: Rings<Node>)
    requires Represents(G) && Legal(Splice(list, head), G)
    modifies Target(list.next)`prev, head`next, Target(list.prev)`next, Target(head.next)`prev
    ensures Represents(Apply(Splice(list, head), G))
  {
    TestsDecide(G, list, list);
    NextPrev(G, head);
    if !ListEmpty(list) {
      RawSplice(list, head, head.next, G);
    }
  }

  method ListSpliceTail(list: Node, head: Node, ghost G: Rings<Node>)
    requires Represents(G) && Legal(SpliceTail(list, head), G)
    modifies Target(list.next)`prev, Target(head.prev)`next, Target(list.prev)`next, head`prev
    ensures Represents(Apply(SpliceTail(list, head), G))
  {
    TestsDecide(G, list, list);
    NextPrev(G, head);
    if !ListEmpty(list) {
      DropLinks(G, list, head);
      BeforeIsAfterPrev(G - {list}, head, Entries(G[list]));
      RawSplice(list, head.prev, head, G);
    }
  }

  method ListSpliceInit(list: Node, head: Node, ghost G: Rings<Node>)
    requires Represents(G) && Legal(SpliceInit(list, head), G)
    modifies Target(list.next)`prev, head`next, Target(list.prev)`next, Target(head.next)`prev, list
    ensures Represents(Apply(SpliceInit(list, head), G))
  {
    TestsDecide(G, list, list);
    NextPrev(G, head);
    if !ListEmpty(list) {
      ghost var H := LinkAfter(G - {list}, head, Entries(G[list]));
      SpliceKeeps(G, list, head);
      DetachAbsent(H, list);
      RawSplice(list, head, head.next, G);
      InitListHead(list, H);
    }
  }

  method ListSpliceTailInit(list: Node, head: Node, ghost G: Rings<Node>)
    requires Represents(G) && Legal(SpliceTailInit(list, head), G)
    modifies Target(list.next)`prev, Target(head.prev)`next, Target(list.prev)`next, head`prev, list
    ensures Represents(Apply(SpliceTailInit(list, head), G))
  {
    TestsDecide(G, list, list);
    NextPrev(G, head);
    if !ListEmpty(list) {
      ghost var H := LinkBefore(G - {list}, head, Entries(G[list]));
      DropLinks(G, list, head);
      BeforeIsAfterPrev(G - {list}, head, Entries(G[list]));
      SpliceKeeps(G, list, head);
      DetachAbsent(H, list);
      RawSplice(list, head.prev, head, G);
      InitListHead(list, H);
    }
  }
}
