/**
 Unlinking leaves a node's own links intact, so nodes can be put back in the reverse order of their removal,
 even when their neighbours were removed in between.
 */
module Undo {
  import opened Seqs
  import opened Forest
  import opened Links
  import opened Laws
  import opened List
  import ListRuns

  /** Each of es can be unlinked when its turn comes. */
  ghost predicate Removable<T>(es: seq<T>, G: Rings<T>) {
    es != [] ==> Unlinkable(G, es[0]) && Removable(es[1..], Detach(G, es[0]))
  }

  ghost function DetachAll<T>(es: seq<T>, G: Rings<T>): Rings<T> {
    if es == [] then G else DetachAll(es[1..], Detach(G, es[0]))
  }

  /** D is G without the nodes in gone, list by list. */
  ghost predicate Lacks<T>(D: Rings<T>, G: Rings<T>, gone: set<T>) {
    && WellFormed(D) && Nodes(D) == Nodes(G) - gone
    && forall h :: h in D ==> h in G && Elements(D[h]) == Elements(G[h]) - gone
  }

  lemma DetachLacks<T>(G: Rings<T>, e: T)
    requires WellFormed(G) && Unlinkable(G, e)
    ensures Lacks(Detach(G, e), G, {e})
  {
    DetachKeeps(G, e);
    forall h | h in G && h != e ensures Elements(Without(G[h], e)) == Elements(G[h]) - {e} { WithoutLaw(G[h], e); }
  }

  lemma LacksBoth<T>(E: Rings<T>, D: Rings<T>, G: Rings<T>, a: set<T>, b: set<T>)
    requires Lacks(E, D, b) && Lacks(D, G, a)
    ensures Lacks(E, G, a + b)
  {
  }

  /** Afterwards all of them are gone, no other node is, and every list left lacks exactly them. */
  lemma {:induction false} DetachAllMeaning<T>(es: seq<T>, G: Rings<T>)
    requires WellFormed(G) && Removable(es, G)
    ensures Lacks(DetachAll(es, G), G, Elements(es))
  {
    if es != [] {
      DetachLacks(G, es[0]);
      DetachAllMeaning(es[1..], Detach(G, es[0]));
      LacksBoth(DetachAll(es, G), Detach(G, es[0]), G, {es[0]}, Elements(es[1..]));
      assert Elements(es) == {es[0]} + Elements(es[1..]);
    }
  }

  /** Distinct entries and heads of empty lists may come in any order. */
  lemma {:induction false} AnyEntries<T>(es: seq<T>, G: Rings<T>)
    requires WellFormed(G) && Distinct(es) && forall e :: e in es ==> Unlinkable(G, e)
    ensures Removable(es, G)
  {
    if es != [] {
      assert es[0] in es;
      DetachKeeps(G, es[0]);
      forall e | e in es[1..] ensures Unlinkable(Detach(G, es[0]), e) {
        assert e in es && e != es[0];
        if e in G { assert es[0] !in G[e]; }
      }
      AnyEntries(es[1..], Detach(G, es[0]));
    }
  }

  /** Each entry still names the neighbours it had when it was unlinked. */
  ghost predicate Remembers(es: seq<Node>, G: Rings<Node>)
    reads es
    decreases es
  {
    es != [] ==>
      && es[0] in Nodes(G) && es[0].next == NextIn(G, es[0]) && es[0].prev == PrevIn(G, es[0])
      && Remembers(es[1..], Detach(G, es[0]))
  }

  method UnlinkAll(es: seq<Node>, ghost G: Rings<Node>)
    requires Represents(G) && Removable(es, G)
    modifies Nodes(G)
    ensures Represents(DetachAll(es, G)) && Remembers(es, G)
  {
    if es != [] {
      DetachKeeps(G, es[0]);
      NextPrev(G, es[0]);
      RawDelEntry(es[0], G);
      UnlinkAll(es[1..], Detach(G, es[0]));
    }
  }

  method RelinkAll(es: seq<Node>, ghost G: Rings<Node>)
    requires WellFormed(G) && Removable(es, G) && Represents(DetachAll(es, G)) && Remembers(es, G)
    modifies Nodes(G)
    ensures Represents(G)
  {
    if es != [] {
      DetachKeeps(G, es[0]);
      RelinkAll(es[1..], Detach(G, es[0]));
      RelinkRestores(G, es[0]);
      NextPrev(G, es[0]);
      RawAdd(es[0], es[0].prev, es[0].next, Detach(G, es[0]));
    }
  }

  /**
   Any stack of unlinks, of entries and of heads without entries, undone in reverse order restores every link of the
   heap.
   */
  method UnlinkThenRelink(es: seq<Node>, ghost G: Rings<Node>)
    requires Represents(G) && Removable(es, G)
    modifies Nodes(G)
    ensures forall x :: x in Nodes(G) ==> x.next == old(x.next) && x.prev == old(x.prev)
  {
    UnlinkAll(es, G);
    RelinkAll(es, G);
  }

  /** list_cut_position into an empty list followed by list_splice_init restores every link, whatever the entry. */
  method CutThenSplice(list: Node, head: Node, entry: Node, ghost G: Rings<Node>)
    requires Represents(G) && list in G && G[list] == [list] && Legal(Cut(list, head, entry), G)
    modifies Nodes(G), entry
    ensures forall x :: x in Nodes(G) ==> x.next == old(x.next) && x.prev == old(x.prev)
  {
    ghost var P := Nodes(G) + {entry};
    HeadsAreNodes(G);
    ApplyKeeps(Cut(list, head, entry), G);
    Laws.CutThenSplice(G, list, head, entry);
    ListRuns.Execute(Cut(list, head, entry), G, P);
    ListRuns.Execute(SpliceInit(list, head), Apply(Cut(list, head, entry), G), P);
  }
}
