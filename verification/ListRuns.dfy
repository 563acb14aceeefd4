/** Histories of list operations on the heap: the links always are those of the abstract run. */
module ListRuns {
  import opened Forest
  import opened Links
  import opened List

  /** The nodes an operation names. */
  ghost function Named<T>(op: Op<T>): set<T> {
    match op
    case Init(n) => {n}
    case Add(n, p) => {n, p}
    case AddTail(n, p) => {n, p}
    case Del(e) => {e}
    case DelInit(e) => {e}
    case Replace(o, n) => {o, n}
    case ReplaceInit(o, n) => {o, n}
    case Move(e, p) => {e, p}
    case MoveTail(e, p) => {e, p}
    case RotateLeft(h) => {h}
    case Cut(l, h, e) => {l, h, e}
    case Splice(l, p) => {l, p}
    case SpliceTail(l, p) => {l, p}
    case SpliceInit(l, p) => {l, p}
    case SpliceTailInit(l, p) => {l, p}
  }

  ghost function AllNamed<T>(ops: seq<Op<T>>): set<T> {
    if ops == [] then {} else Named(ops[0]) + AllNamed(ops[1..])
  }

  lemma LinksStay(G: Rings<Node>, P: set<Node>)
    requires Represents(G) && Nodes(G) <= P
    ensures forall x :: x in Nodes(G) ==> x.next in P && x.prev in P
  {
    forall x | x in Nodes(G) ensures x.next in P && x.prev in P { NextPrev(G, x); }
  }

  method ExecuteSplice(op: Op<Node>, ghost G: Rings<Node>, ghost P: set<Node>)
    requires Represents(G) && Legal(op, G) && Nodes(G) <= P && Splicing(op)
    modifies P
    ensures Represents(Apply(op, G))
  {
    LinksStay(G, P);
    HeadsAreNodes(G);
    match op
    case Splice(l, p) => ListSplice(l, p, G);
    case SpliceTail(l, p) => ListSpliceTail(l, p, G);
    case SpliceInit(l, p) => ListSpliceInit(l, p, G);
    case SpliceTailInit(l, p) => ListSpliceTailInit(l, p, G);
  }

  /** Calls the function an operation stands for; P is any pool of nodes holding everything involved. */
  method Execute(op: Op<Node>, ghost G: Rings<Node>, ghost P: set<Node>)
    requires Represents(G) && Legal(op, G) && Nodes(G) <= P && Named(op) <= P
    modifies P
    ensures Represents(Apply(op, G))
  {
    LinksStay(G, P);
    match op
    case Init(n) => InitListHead(n, G);
    case Add(n, p) => ListAdd(n, p, G);
    case AddTail(n, p) => ListAddTail(n, p, G);
    case Del(e) => ListDel(e, G);
    case DelInit(e) => ListDelInit(e, G);
    case Replace(o, n) => ListReplace(o, n, G);
    case ReplaceInit(o, n) => ListReplaceInit(o, n, G);
    case Move(e, p) => ListMove(e, p, G);
    case MoveTail(e, p) => ListMoveTail(e, p, G);
    case RotateLeft(h) =>
      assert forall x :: x in G[h] ==> x in Nodes(G);
      ListRotateLeft(h, G);
    case Cut(l, h, e) => HeadsAreNodes(G); ListCutPosition(l, h, e, G);
    case _ => ExecuteSplice(op, G, P);
  }

  /** Any finite history, each call within its documented precondition, refines the abstract history. */
  method ExecuteAll(ops: seq<Op<Node>>, ghost G: Rings<Node>, ghost P: set<Node>)
    requires Represents(G) && LegalRun(ops, G) && Nodes(G) <= P && AllNamed(ops) <= P
    modifies P
    ensures Represents(Run(ops, G))
  {
    if ops != [] {
      Execute(ops[0], G, P);
      ApplyKeeps(ops[0], G);
      assert Gained(ops[0], G) <= Named(ops[0]);
      ExecuteAll(ops[1..], Apply(ops[0], G), P);
    }
  }
}
