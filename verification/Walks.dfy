/** The traversal macros of include/list.h, as loops over the live links. */
module Walks {
  import opened Seqs
  import opened Forest
  import opened Links
  import opened List
  import opened ListRuns

  /** list_for_each: forward through next. */
  method ForEach(head: Node, ghost G: Rings<Node>) returns (visited: seq<Node>)
    requires Represents(G) && head in G
    ensures visited == Entries(G[head])
  {
    ghost var c := G[head];
    ghost var i := 1;
    At(G, head, 0);
    visited := [];
    var pos := head.next;
    while pos != head
      invariant 1 <= i <= |c|
      invariant pos == if i < |c| then c[i] else head
      invariant visited == c[1..i]
      decreases |c| - i
    {
      At(G, head, i);
      visited := visited + [pos];
      pos := pos.next;
      i := i + 1;
    }
    assert c[0] == head;
  }

  /** list_for_each_entry_continue: forward from behind the k-th node of the cycle. */
  method ForEachContinue(start: Node, head: Node, ghost k: nat, ghost G: Rings<Node>) returns (visited: seq<Node>)
    requires Represents(G) && head in G && k < |G[head]| && start == G[head][k]
    ensures visited == G[head][k + 1..]
  {
    ghost var c := G[head];
    ghost var i := k + 1;
    At(G, head, k);
    visited := [];
    var pos := start.next;
    while pos != head
      invariant k < i <= |c|
      invariant pos == if i < |c| then c[i] else head
      invariant visited == c[k + 1..i]
      decreases |c| - i
    {
      At(G, head, i);
      visited := visited + [pos];
      pos := pos.next;
      i := i + 1;
    }
    assert c[0] == head;
  }

  /** list_for_each_prev: backward through prev, the reverse of the forward walk. */
  method ForEachPrev(head: Node, ghost G: Rings<Node>) returns (visited: seq<Node>)
    requires Represents(G) && head in G
    ensures visited == Reverse(Entries(G[head]))
  {
    ghost var c := G[head];
    ghost var s := Entries(c);
    ghost var i := 0;
    At(G, head, 0);
    assert forall j :: 0 <= j < |s| ==> s[j] != head;
    visited := [];
    var pos := head.prev;
    while pos != head
      invariant 0 <= i <= |s|
      invariant pos == if i < |s| then s[|s| - 1 - i] else head
      invariant |visited| == i && forall j :: 0 <= j < i ==> visited[j] == s[|s| - 1 - j]
      decreases |s| - i
    {
      At(G, head, |s| - i);
      visited := visited + [pos];
      pos := pos.prev;
      i := i + 1;
    }
    forall j | 0 <= j < |s| ensures Reverse(s)[j] == visited[j] { ReverseAt(s, j); }
  }

  // ---------- Walks whose body relinks the entry they stand on ----------

  datatype Option<T> = None | Some(value: T)

  /** The lists when a walk over h's cycle reaches position i, after the body ran on each earlier entry. */
  ghost function Swept<T>(G: Rings<T>, h: T, i: nat, body: T -> Option<Op<T>>): Rings<T>
    requires h in G && 1 <= i <= |G[h]|
    decreases i
  {
    if i == 1 then G else Stepped(body(G[h][i - 1]), Swept(G, h, i - 1, body))
  }

  ghost function Stepped<T>(step: Option<Op<T>>, H: Rings<T>): Rings<T> {
    if step.Some? && Legal(step.value, H) then Apply(step.value, H) else H
  }

  /** At position i the body is legal and the entry is still followed by its original successor. */
  ghost predicate StepSafe<T>(G: Rings<T>, h: T, i: nat, body: T -> Option<Op<T>>)
    requires h in G && 1 <= i < |G[h]|
  {
    var H, x := Swept(G, h, i, body), G[h][i];
    && WellFormed(H) && x in Nodes(H) && NextIn(H, x) == Succ(G[h], i)
    && CanStep(body(x), H)
  }

  ghost predicate CanStep<T>(step: Option<Op<T>>, H: Rings<T>) {
    step.Some? ==> Legal(step.value, H)
  }

  ghost predicate WalkSafe<T>(G: Rings<T>, h: T, body: T -> Option<Op<T>>) {
    && h in G && G[h] != []
    && (forall i :: 1 <= i < |G[h]| ==> StepSafe(G, h, i, body))
    && h in Nodes(Swept(G, h, |G[h]|, body))
  }

  method ExecuteStep(step: Option<Op<Node>>, ghost H: Rings<Node>, ghost P: set<Node>)
    requires Represents(H) && CanStep(step, H) && Nodes(H) <= P && (step.Some? ==> Named(step.value) <= P)
    modifies P
    ensures Represents(Stepped(step, H)) && Nodes(Stepped(step, H)) <= P
  {
    if step.Some? {
      ApplyKeeps(step.value, H);
      assert Gained(step.value, H) <= Named(step.value);
      Execute(step.value, H, P);
    }
  }

  /** Where a walk over the cycle c stands after i nodes: past the last one it is back at the head. */
  ghost function Cursor<T>(c: seq<T>, i: nat): T
    requires 0 < i <= |c|
  {
    if i < |c| then c[i] else c[0]
  }

  /** A walk that is safe finds its cursor still linked, and an unfinished one can run its body there. */
  lemma CursorLinked<T>(G: Rings<T>, h: T, i: nat, body: T -> Option<Op<T>>)
    requires WalkSafe(G, h, body) && G[h][0] == h && 1 <= i <= |G[h]|
    ensures var H, x := Swept(G, h, i, body), Cursor(G[h], i);
      && x in Nodes(H)
      && (i < |G[h]| ==> NextIn(H, x) == Cursor(G[h], i + 1) && CanStep(body(x), H))
  {
    if i < |G[h]| { assert StepSafe(G, h, i, body); }
  }

  /** The links are those of a walk that has run its body on the first i - 1 entries, all within P. */
  ghost predicate Walking(G: Rings<Node>, h: Node, i: nat, body: Node -> Option<Op<Node>>, P: set<Node>)
    requires h in G && 1 <= i <= |G[h]|
    reads P
  {
    Nodes(Swept(G, h, i, body)) <= P && Represents(Swept(G, h, i, body))
  }

  lemma CursorNext(G: Rings<Node>, h: Node, i: nat, body: Node -> Option<Op<Node>>, P: set<Node>)
    requires WalkSafe(G, h, body) && G[h][0] == h && 1 <= i <= |G[h]| && Walking(G, h, i, body, P)
    ensures Cursor(G[h], i).next != null
    ensures i < |G[h]| ==> Cursor(G[h], i).next == Cursor(G[h], i + 1)
  {
    CursorLinked(G, h, i, body);
    NextPrev(Swept(G, h, i, body), Cursor(G[h], i));
  }

  method WalkStep(pos: Node, body: Node -> Option<Op<Node>>, ghost i: nat, ghost h: Node, ghost G: Rings<Node>,
                  ghost P: set<Node>)
    requires WalkSafe(G, h, body) && G[h][0] == h && 1 <= i < |G[h]| && Walking(G, h, i, body, P)
    requires pos == G[h][i] && (body(pos).Some? ==> Named(body(pos).value) <= P)
    modifies P
    ensures Walking(G, h, i + 1, body, P)
  {
    CursorLinked(G, h, i, body);
    ExecuteStep(body(pos), Swept(G, h, i, body), P);
    assert Swept(G, h, i + 1, body) == Stepped(body(pos), Swept(G, h, i, body));
  }

  /**
   list_for_each_safe: whatever the body relinks, as long as it leaves the entries still ahead in place, the walk
   visits exactly the original entries in their original order and leaves the lists the swept abstract ones.
   */
  method ForEachSafe(head: Node, body: Node -> Option<Op<Node>>, ghost G: Rings<Node>, ghost P: set<Node>)
    returns (visited: seq<Node>)
    requires Represents(G) && WalkSafe(G, head, body)
    requires Nodes(G) <= P && forall x :: x in G[head] && body(x).Some? ==> Named(body(x).value) <= P
    modifies P
    ensures visited == Entries(G[head])
    ensures Represents(Swept(G, head, |G[head]|, body))
  {
    ghost var c := G[head];
    ghost var i := 1;
    At(G, head, 0);
    visited := [];
    var pos := head.next;
    CursorNext(G, head, 1, body, P);
    var n := pos.next;
    while pos != head
      invariant 1 <= i <= |c| && visited == c[1..i] && Walking(G, head, i, body, P)
      invariant pos == Cursor(c, i) && n == pos.next
      decreases |c| - i
    {
      CursorNext(G, head, i, body, P);
      visited := visited + [pos];
      WalkStep(pos, body, i, head, G, P);
      i := i + 1;
      CursorNext(G, head, i, body, P);
      pos := n;
      n := pos.next;
    }
  }
}
