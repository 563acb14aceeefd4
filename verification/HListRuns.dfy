/** Histories and traversals of hash lists. */
module HListRuns {
  import opened Seqs
  import opened HList

  /** The chains, and nodes on no chain that are known to have been initialised. */
  datatype State = State(chains: Chains, idle: set<HNode>)

  /** hlist_del_init also takes a node that is on no chain, if it has been initialised. */
  ghost predicate Allowed(op: Op, s: State) {
    Legal(op, s.chains) && (op.DelInit? ==> op.e in Nodes(s.chains) || op.e in s.idle)
  }

  ghost function After(op: Op, s: State): State
    requires Allowed(op, s)
  {
    State(Apply(op, s.chains), s.idle - Gained(op) + Initialised(op))
  }

  /** The node an operation leaves initialised and on no chain. */
  ghost function Initialised(op: Op): set<HNode> {
    match op
    case InitNode(n) => {n}
    case DelInit(e) => {e}
    case _ => {}
  }

  ghost predicate LegalRun(ops: seq<Op>, s: State) {
    ops == [] || (Allowed(ops[0], s) && LegalRun(ops[1..], After(ops[0], s)))
  }

  ghost function Run(ops: seq<Op>, s: State): State
    requires LegalRun(ops, s)
  {
    if ops == [] then s else Run(ops[1..], After(ops[0], s))
  }

  ghost predicate Sound(s: State) {
    WellFormed(s.chains) && s.idle !! Nodes(s.chains)
  }

  /** The pointers are those of the chains, and the idle nodes are unhashed. */
  ghost predicate Holds(s: State)
    reads s.chains.Keys, Nodes(s.chains), s.idle
  {
    Sound(s) && Represents(s.chains) && forall x :: x in s.idle ==> HlistUnhashed(x)
  }

  lemma AfterSound(op: Op, s: State)
    requires Sound(s) && Allowed(op, s)
    ensures Sound(After(op, s))
  {
    ApplyKeeps(op, s.chains);
  }

  lemma {:induction false} RunKeepsWellFormed(ops: seq<Op>, s: State)
    requires Sound(s) && LegalRun(ops, s)
    ensures Sound(Run(ops, s)) && s.chains.Keys <= Run(ops, s).chains.Keys
  {
    if ops != [] {
      ApplyKeeps(ops[0], s.chains);
      RunKeepsWellFormed(ops[1..], After(ops[0], s));
    }
  }

  /** A history goes on with exactly the operations that are allowed where it stands. */
  lemma {:induction false} RunSnoc(ops: seq<Op>, op: Op, s: State)
    requires LegalRun(ops, s)
    ensures LegalRun(ops + [op], s) <==> Allowed(op, Run(ops, s))
    ensures Allowed(op, Run(ops, s)) ==> Run(ops + [op], s) == After(op, Run(ops, s))
  {
    if ops == [] {
      assert [op][1..] == [];
    } else {
      assert (ops + [op])[1..] == ops[1..] + [op];
      RunSnoc(ops[1..], op, After(ops[0], s));
    }
  }

  /** hlist_del_init on a linked node may be repeated, and then changes nothing; so it may on an initialised node. */
  lemma DelInitTwice(e: HNode, s: State)
    requires Sound(s) && (e in Nodes(s.chains) || e in s.idle)
    ensures Allowed(DelInit(e), s)
    ensures var t := After(DelInit(e), s); e in t.idle && Allowed(DelInit(e), t) && After(DelInit(e), t) == t
    ensures e in s.idle ==> After(DelInit(e), s) == s
  {
    DetachKeeps(s.chains, e);
    DetachAbsent(Detach(s.chains, e), e);
    if e in s.idle { DetachAbsent(s.chains, e); }
  }

  /** An initialised node may be deleted at once, and stays idle until it is added. */
  lemma InitNodeMeaning(n: HNode, s: State)
    requires Sound(s) && n !in Nodes(s.chains)
    ensures Allowed(InitNode(n), s) && After(InitNode(n), s) == State(s.chains, s.idle + {n})
    ensures Allowed(DelInit(n), After(InitNode(n), s))
  {
  }

  ghost function NamedNodes(op: Op): set<HNode> {
    match op
    case InitHead(_) => {}
    case InitNode(n) => {n}
    case AddHead(n, _) => {n}
    case AddBefore(n, p) => {n, p}
    case AddAfter(p, n) => {n, p}
    case Del(e) => {e}
    case DelInit(e) => {e}
    case MoveList(_, _) => {}
  }

  ghost function NamedHeads(op: Op): set<HHead> {
    match op
    case InitHead(h) => {h}
    case AddHead(_, h) => {h}
    case MoveList(o, t) => {o, t}
    case _ => {}
  }

  ghost function AllNamedNodes(ops: seq<Op>): set<HNode> {
    if ops == [] then {} else NamedNodes(ops[0]) + AllNamedNodes(ops[1..])
  }

  ghost function AllNamedHeads(ops: seq<Op>): set<HHead> {
    if ops == [] then {} else NamedHeads(ops[0]) + AllNamedHeads(ops[1..])
  }

  /** H and P are pools holding the heads and nodes of a state. */
  ghost predicate Within(s: State, H: set<HHead>, P: set<HNode>) {
    s.chains.Keys <= H && Nodes(s.chains) <= P && s.idle <= P
  }

  /** The idle nodes an operation leaves alone are neither linked nor named. */
  lemma StaysIdle(op: Op, s: State, x: HNode)
    requires Sound(s) && Allowed(op, s) && x in After(op, s).idle && x !in Initialised(op)
    ensures x in s.idle && x !in Nodes(s.chains) && x !in NamedNodes(op)
  {
  }

  /** Calls the function an operation stands for. */
  method Call(op: Op, ghost s: State)
    requires Holds(s) && Allowed(op, s)
    modifies s.chains.Keys + NamedHeads(op), Nodes(s.chains) + NamedNodes(op)
    ensures Represents(Apply(op, s.chains)) && forall x :: x in Initialised(op) ==> HlistUnhashed(x)
  {
    ghost var C := s.chains;
    match op
    case InitHead(h) => InitHlistHead(h, C);
    case InitNode(n) => InitHlistNode(n, C);
    case AddHead(n, h) => FirstSlot(C, h); HlistAddHead(n, h, C);
    case AddBefore(n, p) => SlotHolds(C, p); HlistAddBefore(n, p, C);
    case AddAfter(p, n) => SlotHolds(C, p); HlistAddAfter(p, n, C);
    case Del(e) => SlotHolds(C, e); HlistDel(e, C);
    case DelInit(e) => CallDelInit(e, s);
    case MoveList(o, t) => FirstSlot(C, o); HlistMoveList(o, t, C);
  }

  method CallDelInit(e: HNode, ghost s: State)
    requires Holds(s) && Allowed(DelInit(e), s)
    modifies s.chains.Keys, Nodes(s.chains) + {e}
    ensures Represents(Apply(DelInit(e), s.chains)) && HlistUnhashed(e)
  {
    if e in Nodes(s.chains) { SlotHolds(s.chains, e); }
    HlistDelInit(e, s.chains);
  }

  method Execute(op: Op, ghost s: State, ghost H: set<HHead>, ghost P: set<HNode>)
    requires Holds(s) && Allowed(op, s) && Within(s, H, P) && NamedHeads(op) <= H && NamedNodes(op) <= P
    modifies H, P
    ensures Holds(After(op, s))
  {
    AfterSound(op, s);
    Call(op, s);
    forall x | x in After(op, s).idle && x !in Initialised(op) { StaysIdle(op, s, x); }
  }

  /**
   Any finite history of legal operations refines the abstract one, keeps every linked node's slot holding it, and keeps
   every idle node unhashed.
   */
  method ExecuteAll(ops: seq<Op>, ghost s: State, ghost H: set<HHead>, ghost P: set<HNode>)
    requires Holds(s) && LegalRun(ops, s) && Within(s, H, P)
    requires AllNamedHeads(ops) <= H && AllNamedNodes(ops) <= P
    modifies H, P
    ensures Holds(Run(ops, s))
    ensures forall x :: x in Nodes(Run(ops, s).chains) ==> Deref(x.pprev) == x
  {
    if ops == [] {
      forall x | x in Nodes(s.chains) ensures Deref(x.pprev) == x { SlotHolds(s.chains, x); }
    } else {
      Execute(ops[0], s, H, P);
      ApplyKeeps(ops[0], s.chains);
      ExecuteAll(ops[1..], After(ops[0], s), H, P);
    }
  }

  /** hlist_for_each: the chain ends, and the walk meets its nodes in order. */
  method ForEach(h: HHead, ghost C: Chains) returns (visited: seq<HNode>)
    requires Represents(C) && h in C
    ensures visited == C[h]
  {
    ghost var c := C[h];
    ghost var i := 0;
    visited := [];
    var pos := h.first;
    while pos != null
      invariant 0 <= i <= |c| && visited == c[..i]
      invariant pos == if i < |c| then c[i] else null
      decreases |c| - i
    {
      At(C, h, i);
      visited := visited + [pos];
      pos := pos.next;
      i := i + 1;
    }
  }

  /** D is C after a walk over h's chain has reached position i, having kept some earlier nodes. */
  ghost predicate Reached(D: Chains, C: Chains, h: HHead, kept: seq<HNode>, i: nat)
    requires h in C && i <= |C[h]|
  {
    WellFormed(D) && D == C[h := kept + C[h][i..]]
  }

  lemma ReachedAt(D: Chains, C: Chains, h: HHead, kept: seq<HNode>, i: nat)
    requires h in C && i < |C[h]| && Reached(D, C, h, kept, i)
    ensures var x := C[h][i];
      && x in Nodes(D) && NextIn(D, x) == (if i + 1 < |C[h]| then C[h][i + 1] else null)
      && Reached(Detach(D, x), C, h, kept, i + 1) && Reached(D, C, h, kept + [x], i + 1)
  {
    var c, x := C[h], C[h][i];
    assert D[h][|kept|] == x;
    At(D, h, |kept|);
    DetachKeeps(D, x);
    assert kept + c[i..] == (kept + [x]) + c[i + 1..];
    assert D[h][..|kept|] + D[h][|kept| + 1..] == kept + c[i + 1..];
    forall g | g in C && g != h ensures Without(D[g], x) == D[g] { assert x !in D[g]; }
  }

  /** The chains when a deleting walk over h's chain reaches position i. */
  ghost function Swept(C: Chains, h: HHead, i: nat, test: HNode -> bool): Chains
    requires h in C && i <= |C[h]|
    decreases i
  {
    if i == 0 then C else Stepped(Swept(C, h, i - 1, test), C[h][i - 1], test)
  }

  ghost function Stepped(D: Chains, x: HNode, test: HNode -> bool): Chains {
    if test(x) then Detach(D, x) else D
  }

  lemma ReachedStep(D: Chains, C: Chains, h: HHead, kept: seq<HNode>, i: nat, test: HNode -> bool)
    requires h in C && i < |C[h]| && Reached(D, C, h, kept, i)
    ensures Reached(Stepped(D, C[h][i], test), C, h, kept + if Not(test)(C[h][i]) then [C[h][i]] else [], i + 1)
  {
    ReachedAt(D, C, h, kept, i);
    assert kept + [] == kept;
  }

  /** A deleting walk keeps exactly the nodes that fail the test, in order, and stays on the original chain. */
  lemma {:induction false} SweptDelete(C: Chains, h: HHead, i: nat, test: HNode -> bool)
    requires WellFormed(C) && h in C && i <= |C[h]|
    ensures Reached(Swept(C, h, i, test), C, h, Select(C[h][..i], Not(test)), i)
    decreases i
  {
    if i == 0 {
      assert [] + C[h][0..] == C[h];
    } else {
      SweptDelete(C, h, i - 1, test);
      assert C[h][..i][..i - 1] == C[h][..i - 1];
      ReachedStep(Swept(C, h, i - 1, test), C, h, Select(C[h][..i - 1], Not(test)), i - 1, test);
    }
  }

  lemma SweptAll(C: Chains, h: HHead, test: HNode -> bool)
    requires WellFormed(C) && h in C
    ensures Swept(C, h, |C[h]|, test) == C[h := Select(C[h], Not(test))]
  {
    var c := C[h];
    SweptDelete(C, h, |c|, test);
    assert c[..|c|] == c && Select(c, Not(test)) + c[|c|..] == Select(c, Not(test));
  }

  lemma SweptAt(C: Chains, h: HHead, i: nat, test: HNode -> bool)
    requires WellFormed(C) && h in C && i < |C[h]|
    ensures var D, x := Swept(C, h, i, test), C[h][i];
      WellFormed(D) && x in Nodes(D) && NextIn(D, x) == if i + 1 < |C[h]| then C[h][i + 1] else null
  {
    SweptDelete(C, h, i, test);
    ReachedAt(Swept(C, h, i, test), C, h, Select(C[h][..i], Not(test)), i);
  }

  method DeleteStep(pos: HNode, test: HNode -> bool, ghost D: Chains, ghost H: set<HHead>, ghost P: set<HNode>)
    requires Represents(D) && pos in Nodes(D) && D.Keys <= H && Nodes(D) <= P
    modifies H, P
    ensures var R := Stepped(D, pos, test); Represents(R) && R.Keys <= H && Nodes(R) <= P
  {
    SlotHolds(D, pos);
    DetachKeeps(D, pos);
    if test(pos) {
      HlistDel(pos, D);
    }
  }

  /** The pointers are those of a deleting walk at position i. */
  ghost predicate Walking(C: Chains, h: HHead, i: nat, test: HNode -> bool)
    requires h in C && i <= |C[h]|
    reads C.Keys, Nodes(C)
  {
    var D := Swept(C, h, i, test);
    D.Keys <= C.Keys && Nodes(D) <= Nodes(C) && Represents(D)
  }

  method WalkStep(pos: HNode, test: HNode -> bool, ghost C: Chains, ghost h: HHead, ghost i: nat) returns (n: HNode?)
    requires WellFormed(C) && h in C && i < |C[h]| && pos == C[h][i] && Walking(C, h, i, test)
    modifies C.Keys, Nodes(C)
    ensures Walking(C, h, i + 1, test) && n == if i + 1 < |C[h]| then C[h][i + 1] else null
  {
    SweptAt(C, h, i, test);
    n := pos.next;
    DeleteStep(pos, test, Swept(C, h, i, test), C.Keys, Nodes(C));
  }

  /** hlist_for_each_safe with hlist_del on the nodes that satisfy test. */
  method DeleteMatching(h: HHead, test: HNode -> bool, ghost C: Chains) returns (visited: seq<HNode>)
    requires Represents(C) && h in C
    modifies C.Keys, Nodes(C)
    ensures visited == C[h]
    ensures Represents(C[h := Select(C[h], Not(test))])
  {
    SweptAll(C, h, test);
    ghost var c := C[h];
    ghost var i := 0;
    visited := [];
    var pos := h.first;
    while pos != null
      invariant 0 <= i <= |c| && visited == c[..i] && Walking(C, h, i, test)
      invariant pos == if i < |c| then c[i] else null
      decreases |c| - i
    {
      Snoc(c, i);
      visited := visited + [pos];
      pos := WalkStep(pos, test, C, h, i);
      i := i + 1;
    }
  }
}
