/** Three bodies for list_for_each_safe, and what each sweep leaves behind. */
module Sweeps {
  import opened Seqs
  import opened Forest
  import opened Links
  import opened Laws
  import opened List
  import opened ListRuns
  import opened Walks

  /** h's list with some earlier entries kept and everything from position i on still there. */
  ghost function Midway<T>(G: Rings<T>, h: T, kept: seq<T>, i: nat): Rings<T>
    requires h in G && 1 <= i <= |G[h]|
  {
    G[h := [h] + kept + G[h][i..]]
  }

  /** H is such an intermediate state. */
  ghost predicate Reached<T>(H: Rings<T>, G: Rings<T>, h: T, kept: seq<T>, i: nat)
    requires h in G && 1 <= i <= |G[h]|
  {
    WellFormed(H) && H == Midway(G, h, kept, i)
  }

  lemma ReachedFirst<T>(G: Rings<T>, h: T)
    requires WellFormed(G) && h in G
    ensures Reached(G, G, h, [], 1)
  {
    assert [h] + [] + G[h][1..] == G[h];
  }

  lemma ReachedLast<T>(H: Rings<T>, G: Rings<T>, h: T, kept: seq<T>)
    requires h in G && G[h] != [] && Reached(H, G, h, kept, |G[h]|)
    ensures H == G[h := [h] + kept] && h in Nodes(H)
  {
    assert [h] + kept + [] == [h] + kept;
    HeadsAreNodes(H);
  }

  /** The cycle of a sweep that stands on the node c[i], with that node dropped or kept. */
  lemma Standing<T>(h: T, kept: seq<T>, c: seq<T>, i: nat)
    requires i < |c|
    ensures var d, k := [h] + kept + c[i..], |kept| + 1;
      && k < |d| && d[k] == c[i] && Succ(d, k) == (if i + 1 < |c| then c[i + 1] else h)
      && d[..k] + d[k + 1..] == [h] + kept + c[i + 1..]
      && d == [h] + (kept + [c[i]]) + c[i + 1..]
  {
    var d, k := [h] + kept + c[i..], |kept| + 1;
    assert d[..k] == [h] + kept && d[k + 1..] == c[i + 1..];
    assert c[i..] == [c[i]] + c[i + 1..];
  }

  lemma Overwrite<T>(G: Rings<T>, h: T, a: seq<T>, b: seq<T>)
    ensures G[h := a][h := b] == G[h := b]
  {
  }

  /** The entry a sweep stands on, and the lists with it removed or kept. */
  lemma ReachedAt<T>(H: Rings<T>, G: Rings<T>, h: T, kept: seq<T>, i: nat)
    requires h in G && 1 <= i < |G[h]| && G[h][0] == h && Reached(H, G, h, kept, i)
    ensures var x := G[h][i];
      && Unlinkable(H, x) && x != h && x !in H && x !in Nodes(Detach(H, x))
      && NextIn(H, x) == Succ(G[h], i)
      && Reached(Detach(H, x), G, h, kept, i + 1)
      && Reached(H, G, h, kept + [x], i + 1)
  {
    var k := |kept| + 1;
    Standing(h, kept, G[h], i);
    At(H, h, k);
    DetachAt(H, h, k);
    DetachKeeps(H, H[h][k]);
    HeadsAreNodes(H);
    assert H[h][k] != H[h][0];
    Overwrite(G, h, H[h], [h] + kept + G[h][i + 1..]);
  }

  // ---------- Deleting the entries that satisfy a test ----------

  function DeleteIf<T>(test: T -> bool): T -> Option<Op<T>> {
    x => if test(x) then Some(Del(x)) else None
  }

  /** H is what deleting leaves when the walk reaches position i. */
  ghost predicate Deleted<T>(H: Rings<T>, G: Rings<T>, h: T, i: nat, test: T -> bool)
    requires h in G && 1 <= i <= |G[h]|
  {
    Reached(H, G, h, Select(G[h][1..i], Not(test)), i)
  }

  lemma DeleteStep<T>(H: Rings<T>, G: Rings<T>, h: T, i: nat, test: T -> bool)
    requires h in G && 1 <= i < |G[h]| && G[h][0] == h && Deleted(H, G, h, i, test)
    ensures CanStep(DeleteIf(test)(G[h][i]), H)
    ensures Deleted(Stepped(DeleteIf(test)(G[h][i]), H), G, h, i + 1, test)
  {
    var kept := Select(G[h][1..i], Not(test));
    ReachedAt(H, G, h, kept, i);
    SelectSnoc(G[h], i, Not(test));
    assert kept + [] == kept;
  }

  lemma {:induction false} SweptDelete<T>(G: Rings<T>, h: T, i: nat, test: T -> bool)
    requires WellFormed(G) && h in G && 1 <= i <= |G[h]|
    ensures Deleted(Swept(G, h, i, DeleteIf(test)), G, h, i, test)
    decreases i
  {
    if i == 1 {
      ReachedFirst(G, h);
    } else {
      SweptDelete(G, h, i - 1, test);
      DeleteStep(Swept(G, h, i - 1, DeleteIf(test)), G, h, i - 1, test);
    }
  }

  /** Deleting while walking leaves exactly the entries that fail the test, in their original order. */
  lemma DeleteSweep<T>(G: Rings<T>, h: T, test: T -> bool)
    requires WellFormed(G) && h in G
    ensures WalkSafe(G, h, DeleteIf(test))
    ensures Swept(G, h, |G[h]|, DeleteIf(test)) == G[h := [h] + Select(Entries(G[h]), Not(test))]
  {
    var c, n, body := G[h], |G[h]|, DeleteIf(test);
    forall i | 1 <= i < n ensures StepSafe(G, h, i, body) {
      SweptDelete(G, h, i, test);
      ReachedAt(Swept(G, h, i, body), G, h, Select(c[1..i], Not(test)), i);
      DeleteStep(Swept(G, h, i, body), G, h, i, test);
    }
    SweptDelete(G, h, n, test);
    ReachedLast(Swept(G, h, n, body), G, h, Select(c[1..n], Not(test)));
    assert c[1..n] == Entries(c);
  }

  method DeleteMatching(head: Node, test: Node -> bool, ghost G: Rings<Node>) returns (visited: seq<Node>)
    requires Represents(G) && head in G
    modifies Nodes(G)
    ensures visited == Entries(G[head])
    ensures Represents(G[head := [head] + Select(Entries(G[head]), Not(test))])
  {
    DeleteSweep(G, head, test);
    forall x | x in G[head] ensures x in Nodes(G) { }
    visited := ForEachSafe(head, DeleteIf(test), G, Nodes(G));
  }

  // ---------- Moving the entries that satisfy a test to the tail of another list ----------

  function MoveIf<T>(test: T -> bool, dst: T): T -> Option<Op<T>> {
    x => if test(x) then Some(MoveTail(x, dst)) else None
  }

  /** Appending to another list commutes with the state of a sweep. */
  lemma ReachedAppend<T>(D: Rings<T>, G: Rings<T>, h: T, kept: seq<T>, i: nat, dst: T, x: T)
    requires h in G && dst in G && dst != h && 1 <= i <= |G[h]| && G[dst] != [] && Reached(D, G, h, kept, i)
    requires x !in Nodes(D)
    ensures Reached(LinkBefore(D, dst, [x]), G[dst := G[dst] + [x]], h, kept, i)
  {
    assert D[dst][0] == dst;
    InsertBeforeAt(D, dst, 0, [x]);
    LinkBeforeKeeps(D, dst, [x]);
  }

  /** Where the moved entries of a sweep have gone. */
  ghost function Moved<T>(G: Rings<T>, dst: T, moved: seq<T>): Rings<T>
    requires dst in G
  {
    G[dst := G[dst] + moved]
  }

  lemma MoveApplied<T>(H: Rings<T>, x: T, test: T -> bool, dst: T)
    requires Unlinkable(H, x) && dst in Nodes(H) && x != dst && test(x)
    ensures CanStep(MoveIf(test, dst)(x), H)
    ensures Stepped(MoveIf(test, dst)(x), H) == LinkBefore(Detach(H, x), dst, [x])
  {
  }

  lemma MovedFurther<T>(G: Rings<T>, dst: T, moved: seq<T>, x: T)
    requires dst in G
    ensures var F := Moved(G, dst, moved); F[dst := F[dst] + [x]] == Moved(G, dst, moved + [x])
  {
    assert G[dst] + moved + [x] == G[dst] + (moved + [x]);
  }

  lemma OtherHead<T>(H: Rings<T>, G: Rings<T>, h: T, kept: seq<T>, i: nat, dst: T)
    requires h in G && dst in G && 1 <= i <= |G[h]| && Reached(H, G, h, kept, i)
    ensures dst in H && dst in Nodes(H)
  {
    HeadsAreNodes(H);
  }

  lemma MoveOne<T>(H: Rings<T>, G: Rings<T>, h: T, kept: seq<T>, i: nat, moved: seq<T>, test: T -> bool, dst: T)
    requires h in G && dst in G && dst != h && 1 <= i < |G[h]| && G[h][0] == h && G[dst] != []
    requires Reached(H, Moved(G, dst, moved), h, kept, i) && test(G[h][i])
    ensures CanStep(MoveIf(test, dst)(G[h][i]), H)
    ensures Reached(Stepped(MoveIf(test, dst)(G[h][i]), H), Moved(G, dst, moved + [G[h][i]]), h, kept, i + 1)
  {
    var x, G' := G[h][i], Moved(G, dst, moved);
    ReachedAt(H, G', h, kept, i);
    OtherHead(H, G', h, kept, i, dst);
    MoveApplied(H, x, test, dst);
    ReachedAppend(Detach(H, x), G', h, kept, i + 1, dst, x);
    MovedFurther(G, dst, moved, x);
  }

  /** H is what moving leaves when the walk reaches position i. */
  ghost predicate MovedBy<T>(H: Rings<T>, G: Rings<T>, h: T, i: nat, test: T -> bool, dst: T)
    requires h in G && dst in G && dst != h && 1 <= i <= |G[h]|
  {
    Reached(H, Moved(G, dst, Select(G[h][1..i], test)), h, Select(G[h][1..i], Not(test)), i)
  }

  lemma MoveStep<T>(H: Rings<T>, G: Rings<T>, h: T, i: nat, test: T -> bool, dst: T)
    requires h in G && dst in G && dst != h && 1 <= i < |G[h]| && G[h][0] == h && G[dst] != []
    requires MovedBy(H, G, h, i, test, dst)
    ensures CanStep(MoveIf(test, dst)(G[h][i]), H)
    ensures MovedBy(Stepped(MoveIf(test, dst)(G[h][i]), H), G, h, i + 1, test, dst)
  {
    var kept, moved := Select(G[h][1..i], Not(test)), Select(G[h][1..i], test);
    SelectSnoc(G[h], i, Not(test));
    SelectSnoc(G[h], i, test);
    assert kept + [] == kept && moved + [] == moved;
    if test(G[h][i]) {
      MoveOne(H, G, h, kept, i, moved, test, dst);
    } else {
      ReachedAt(H, Moved(G, dst, moved), h, kept, i);
    }
  }

  lemma {:induction false} SweptMove<T>(G: Rings<T>, h: T, i: nat, test: T -> bool, dst: T)
    requires WellFormed(G) && h in G && dst in G && dst != h && 1 <= i <= |G[h]|
    ensures MovedBy(Swept(G, h, i, MoveIf(test, dst)), G, h, i, test, dst)
    decreases i
  {
    if i == 1 {
      assert G[dst] + [] == G[dst];
      assert Moved(G, dst, []) == G;
      ReachedFirst(G, h);
    } else {
      SweptMove(G, h, i - 1, test, dst);
      MoveStep(Swept(G, h, i - 1, MoveIf(test, dst)), G, h, i - 1, test, dst);
    }
  }

  /** Moving while walking: the matching entries end up behind dst's, the others stay, both in order. */
  lemma MoveSweep<T>(G: Rings<T>, h: T, test: T -> bool, dst: T)
    requires WellFormed(G) && h in G && dst in G && dst != h
    ensures WalkSafe(G, h, MoveIf(test, dst))
    ensures var s := Entries(G[h]);
      Swept(G, h, |G[h]|, MoveIf(test, dst)) == G[dst := G[dst] + Select(s, test)][h := [h] + Select(s, Not(test))]
  {
    var c, n, body := G[h], |G[h]|, MoveIf(test, dst);
    forall i | 1 <= i < n ensures StepSafe(G, h, i, body) {
      var kept, moved := Select(c[1..i], Not(test)), Select(c[1..i], test);
      SweptMove(G, h, i, test, dst);
      ReachedAt(Swept(G, h, i, body), Moved(G, dst, moved), h, kept, i);
      MoveStep(Swept(G, h, i, body), G, h, i, test, dst);
    }
    SweptMove(G, h, n, test, dst);
    ReachedLast(Swept(G, h, n, body), Moved(G, dst, Select(c[1..n], test)), h, Select(c[1..n], Not(test)));
    assert c[1..n] == Entries(c);
  }

  lemma MoveNamed<T>(G: Rings<T>, h: T, test: T -> bool, dst: T)
    requires WellFormed(G) && h in G && dst in G
    ensures forall x :: x in G[h] && MoveIf(test, dst)(x).Some? ==> Named(MoveIf(test, dst)(x).value) <= Nodes(G)
  {
    HeadsAreNodes(G);
  }

  method MoveMatching(head: Node, test: Node -> bool, dst: Node, ghost G: Rings<Node>) returns (visited: seq<Node>)
    requires Represents(G) && head in G && dst in G && dst != head
    modifies Nodes(G)
    ensures visited == Entries(G[head])
    ensures var s := Entries(G[head]);
      Represents(G[dst := G[dst] + Select(s, test)][head := [head] + Select(s, Not(test))])
  {
    MoveSweep(G, head, test, dst);
    MoveNamed(G, head, test, dst);
    visited := ForEachSafe(head, MoveIf(test, dst), G, Nodes(G));
  }

  // ---------- Moving every entry to the front of its own list ----------

  function MoveToFront<T>(h: T): T -> Option<Op<T>> {
    x => Some(Move(x, h))
  }

  lemma ReachedPrepend<T>(D: Rings<T>, G: Rings<T>, h: T, kept: seq<T>, i: nat, x: T)
    requires h in G && 1 <= i <= |G[h]| && Reached(D, G, h, kept, i) && x !in Nodes(D)
    ensures Reached(LinkAfter(D, h, [x]), G, h, [x] + kept, i)
  {
    HeadsAreNodes(D);
    LinkAfterKeeps(D, h, [x]);
    Regroup(h, x, kept, G[h][i..]);
    PrependAt(D, h, x, kept + G[h][i..]);
    Overwrite(G, h, [h] + kept + G[h][i..], [h] + ([x] + kept) + G[h][i..]);
  }

  lemma Regroup<T>(h: T, x: T, kept: seq<T>, rest: seq<T>)
    ensures [h] + kept + rest == [h] + (kept + rest)
    ensures [h] + ([x] + kept) + rest == [h, x] + (kept + rest)
  {
  }

  lemma PrependAt<T>(D: Rings<T>, h: T, x: T, rest: seq<T>)
    requires WellFormed(D) && h in D && D[h] == [h] + rest
    ensures LinkAfter(D, h, [x]) == D[h := [h, x] + rest]
  {
    InsertAfterAt(D, h, 0, [x]);
    assert D[h][..1] + [x] + D[h][1..] == [h, x] + rest;
  }

  lemma FrontApplied<T>(H: Rings<T>, h: T, x: T)
    requires Unlinkable(H, x) && h in Nodes(H) && x != h
    ensures CanStep(MoveToFront(h)(x), H)
    ensures Stepped(MoveToFront(h)(x), H) == LinkAfter(Detach(H, x), h, [x])
  {
  }

  lemma FrontOne<T>(H: Rings<T>, G: Rings<T>, h: T, kept: seq<T>, i: nat)
    requires h in G && 1 <= i < |G[h]| && G[h][0] == h && Reached(H, G, h, kept, i)
    ensures CanStep(MoveToFront(h)(G[h][i]), H)
    ensures Reached(Stepped(MoveToFront(h)(G[h][i]), H), G, h, [G[h][i]] + kept, i + 1)
  {
    var x := G[h][i];
    ReachedAt(H, G, h, kept, i);
    HeadsAreNodes(H);
    FrontApplied(H, h, x);
    ReachedPrepend(Detach(H, x), G, h, kept, i + 1, x);
  }

  /** H is what moving to the front leaves when the walk reaches position i. */
  ghost predicate Fronted<T>(H: Rings<T>, G: Rings<T>, h: T, i: nat)
    requires h in G && 1 <= i <= |G[h]|
  {
    Reached(H, G, h, Reverse(G[h][1..i]), i)
  }

  lemma FrontStep<T>(H: Rings<T>, G: Rings<T>, h: T, i: nat)
    requires h in G && 1 <= i < |G[h]| && G[h][0] == h && Fronted(H, G, h, i)
    ensures CanStep(MoveToFront(h)(G[h][i]), H)
    ensures Fronted(Stepped(MoveToFront(h)(G[h][i]), H), G, h, i + 1)
  {
    FrontOne(H, G, h, Reverse(G[h][1..i]), i);
    ReverseSnoc(G[h], i);
  }

  lemma {:induction false} SweptFront<T>(G: Rings<T>, h: T, i: nat)
    requires WellFormed(G) && h in G && 1 <= i <= |G[h]|
    ensures Fronted(Swept(G, h, i, MoveToFront(h)), G, h, i)
    decreases i
  {
    if i == 1 {
      ReachedFirst(G, h);
    } else {
      SweptFront(G, h, i - 1);
      FrontStep(Swept(G, h, i - 1, MoveToFront(h)), G, h, i - 1);
    }
  }

  /** list_move(pos, head) on every entry, while the very same list is being walked, reverses it. */
  lemma ReverseSweep<T>(G: Rings<T>, h: T)
    requires WellFormed(G) && h in G
    ensures WalkSafe(G, h, MoveToFront(h))
    ensures Swept(G, h, |G[h]|, MoveToFront(h)) == G[h := [h] + Reverse(Entries(G[h]))]
  {
    var c, n, body := G[h], |G[h]|, MoveToFront(h);
    forall i | 1 <= i < n ensures StepSafe(G, h, i, body) {
      SweptFront(G, h, i);
      ReachedAt(Swept(G, h, i, body), G, h, Reverse(c[1..i]), i);
      FrontStep(Swept(G, h, i, body), G, h, i);
    }
    SweptFront(G, h, n);
    ReachedLast(Swept(G, h, n, body), G, h, Reverse(c[1..n]));
    assert c[1..n] == Entries(c);
  }

  lemma FrontNamed<T>(G: Rings<T>, h: T)
    requires WellFormed(G) && h in G
    ensures forall x :: x in G[h] && MoveToFront(h)(x).Some? ==> Named(MoveToFront(h)(x).value) <= Nodes(G)
  {
    HeadsAreNodes(G);
  }

  method ReverseInPlace(head: Node, ghost G: Rings<Node>) returns (visited: seq<Node>)
    requires Represents(G) && head in G
    modifies Nodes(G)
    ensures visited == Entries(G[head])
    ensures Represents(G[head := [head] + Reverse(Entries(G[head]))])
  {
    ReverseSweep(G, head);
    FrontNamed(G, head);
    visited := ForEachSafe(head, MoveToFront(head), G, Nodes(G));
  }

  // ---------- A body the safe walk is not safe against ----------

  /** The lists and the two cursors of a safe walk whose body is list_move_tail(pos, head). */
  datatype SelfWalk<T> = SelfWalk(lists: Rings<T>, pos: T, n: T)

  ghost function Follow<T>(G: Rings<T>, x: T): T {
    if x in Nodes(G) then NextIn(G, x) else x
  }

  /** The state after k rounds; a walk whose cursor is back at the head has ended and stays put. */
  ghost function SelfRounds<T>(G: Rings<T>, h: T, k: nat): SelfWalk<T> {
    if k == 0 then
      SelfWalk(G, Follow(G, h), Follow(G, Follow(G, h)))
    else
      var w := SelfRounds(G, h, k - 1);
      if w.pos == h then w
      else var H := Stepped(Some(MoveTail(w.pos, h)), w.lists); SelfWalk(H, w.n, Follow(H, w.n))
  }

  lemma SelfStart<T>(G: Rings<T>, h: T)
    requires WellFormed(G) && h in G && |G[h]| > 1
    ensures SelfRounds(G, h, 0) == SelfWalk(G, G[h][1], Succ(G[h], 1)) && G[h][1] != h
  {
    At(G, h, 0);
    At(G, h, 1);
  }

  /** The walk has not ended: its cursor is on the first entry of a list as long as ever. */
  ghost predicate Running<T>(w: SelfWalk<T>, h: T, len: nat) {
    && WellFormed(w.lists) && h in w.lists && |w.lists[h]| == len > 2
    && w.pos == w.lists[h][1] != h && w.n == w.lists[h][2] != h
  }

  lemma SelfRound<T>(w: SelfWalk<T>, h: T, len: nat)
    requires Running(w, h, len)
    ensures var H := Stepped(Some(MoveTail(w.pos, h)), w.lists); Running(SelfWalk(H, w.n, Follow(H, w.n)), h, len)
  {
    RotateIsMoveTail(w.lists, h);
    ApplyKeeps(RotateLeft(h), w.lists);
    var R := Apply(RotateLeft(h), w.lists);
    At(R, h, 0);
    At(R, h, 1);
    At(R, h, 2);
  }

  lemma {:induction false} SelfInvariant<T>(G: Rings<T>, h: T, k: nat)
    requires WellFormed(G) && h in G && |G[h]| > 2
    ensures Running(SelfRounds(G, h, k), h, |G[h]|)
  {
    if k == 0 {
      SelfStart(G, h);
      At(G, h, 2);
    } else {
      SelfInvariant(G, h, k - 1);
      SelfRound(SelfRounds(G, h, k - 1), h, |G[h]|);
    }
  }

  /** As long as a round is to come, it moves an entry of the very list and its second cursor is the next one. */
  ghost predicate Linked<T>(w: SelfWalk<T>, h: T, N: set<T>) {
    && WellFormed(w.lists) && Nodes(w.lists) == N && w.pos in N
    && (w.pos != h ==> Legal(MoveTail(w.pos, h), w.lists) && w.n == NextIn(w.lists, w.pos))
  }

  lemma StartLinked<T>(G: Rings<T>, h: T)
    requires WellFormed(G) && h in G
    ensures Linked(SelfRounds(G, h, 0), h, Nodes(G))
  {
    HeadsAreNodes(G);
    At(G, h, 0);
    if |G[h]| > 1 { At(G, h, 1); }
  }

  lemma NextLinked<T>(w: SelfWalk<T>, h: T, N: set<T>)
    requires Linked(w, h, N) && w.pos != h
    ensures var H := Stepped(Some(MoveTail(w.pos, h)), w.lists); WellFormed(H) && Nodes(H) == N && w.n in N
  {
    NextPrev(w.lists, w.pos);
    ApplyKeeps(MoveTail(w.pos, h), w.lists);
  }

  lemma {:induction false} SelfLinked<T>(G: Rings<T>, h: T, k: nat)
    requires WellFormed(G) && h in G
    ensures Linked(SelfRounds(G, h, k), h, Nodes(G))
    decreases k
  {
    if k == 0 {
      StartLinked(G, h);
    } else {
      SelfLinked(G, h, k - 1);
      var w := SelfRounds(G, h, k - 1);
      if w.pos != h {
        NextLinked(w, h, Nodes(G));
        if |G[h]| > 2 {
          SelfInvariant(G, h, k);
          RunningLinked(SelfRounds(G, h, k), h, |G[h]|);
        } else {
          SelfMoveEnds(G, h, k);
        }
      }
    }
  }

  lemma RunningLinked<T>(w: SelfWalk<T>, h: T, len: nat)
    requires Running(w, h, len)
    ensures h in Nodes(w.lists) && Legal(MoveTail(w.pos, h), w.lists) && w.n == NextIn(w.lists, w.pos)
  {
    At(w.lists, h, 0);
    At(w.lists, h, 1);
    RotateIsMoveTail(w.lists, h);
  }

  /** Moving each entry behind its own list's tail while walking ends only on lists of at most one entry. */
  lemma SelfMoveEnds<T>(G: Rings<T>, h: T, k: nat)
    requires WellFormed(G) && h in G && k > 0
    ensures SelfRounds(G, h, k).pos == h <==> |Entries(G[h])| <= 1
    decreases k
  {
    At(G, h, 0);
    if |G[h]| > 2 {
      SelfInvariant(G, h, k);
    } else if |G[h]| == 2 {
      SelfStart(G, h);
      if k > 1 { SelfMoveEnds(G, h, k - 1); }
    } else if k > 1 {
      SelfMoveEnds(G, h, k - 1);
    }
  }

  lemma {:induction false} SelfStops<T>(G: Rings<T>, h: T, k: nat, later: nat)
    requires k <= later && SelfRounds(G, h, k).pos == h
    ensures SelfRounds(G, h, later) == SelfRounds(G, h, k)
    decreases later - k
  {
    if k < later { SelfStops(G, h, k, later - 1); }
  }

  /** The heap and the cursors after k rounds. */
  ghost predicate SelfWalking(G: Rings<Node>, h: Node, k: nat, pos: Node, n: Node)
    reads Nodes(G)
  {
    var w := SelfRounds(G, h, k);
    Nodes(w.lists) <= Nodes(G) && Represents(w.lists) && pos == w.pos && (pos != h ==> n == w.n)
  }

  method SelfMoveRound(pos: Node, n: Node, head: Node, ghost k: nat, ghost G: Rings<Node>) returns (after: Node)
    requires WellFormed(G) && head in G && pos != head && SelfWalking(G, head, k, pos, n)
    modifies Nodes(G)
    ensures SelfWalking(G, head, k + 1, n, after)
  {
    ghost var w := SelfRounds(G, head, k);
    SelfLinked(G, head, k);
    SelfLinked(G, head, k + 1);
    HeadsAreNodes(G);
    ListRuns.Execute(MoveTail(pos, head), w.lists, Nodes(G));
    NextPrev(SelfRounds(G, head, k + 1).lists, n);
    after := n.next;
  }

  lemma SelfReady(G: Rings<Node>, h: Node)
    requires Represents(G) && h in G
    ensures h in Nodes(G) && h.next in Nodes(G) && h.next.next != null && SelfWalking(G, h, 0, h.next, h.next.next)
  {
    HeadsAreNodes(G);
    NextPrev(G, h);
    NextPrev(G, NextIn(G, h));
  }

  lemma SelfDone(G: Rings<Node>, h: Node, k: nat, rounds: nat, n: Node)
    requires k <= rounds && SelfWalking(G, h, k, h, n)
    ensures SelfWalking(G, h, rounds, h, n)
  {
    SelfStops(G, h, k, rounds);
  }

  /** The loop itself, stopped after so many rounds: it has come to its own end only with at most one entry. */
  method SelfMoveWalk(head: Node, rounds: nat, ghost G: Rings<Node>) returns (pos: Node, n: Node)
    requires Represents(G) && head in G && rounds > 0
    modifies Nodes(G)
    ensures SelfWalking(G, head, rounds, pos, n)
    ensures pos == head <==> |Entries(G[head])| <= 1
  {
    SelfMoveEnds(G, head, rounds);
    SelfReady(G, head);
    pos := head.next;
    n := pos.next;
    for k := 0 to rounds
      invariant SelfWalking(G, head, k, pos, n)
    {
      if pos == head {
        SelfDone(G, head, k, rounds, n);
        return;
      }
      var after := SelfMoveRound(pos, n, head, k, G);
      pos, n := n, after;
    }
  }
}
