/**
 include/list.h: hash lists.  A head is a single pointer, and every node also names the slot that points at it,
 so a node can be unlinked or inserted before without knowing its head.
 */
module HList {
  import opened Seqs

  /** struct hlist_head */
  class HHead {
    var first: HNode?
  }

  /** struct hlist_node; pprev is modelled as the slot it is the address of. */
  class HNode {
    var next: HNode?
    var pprev: Slot
  }

  datatype Slot = Nowhere | FirstOf(head: HHead) | NextOf(node: HNode)

  // ---------- The abstract chains ----------

  type Chains = map<HHead, seq<HNode>>

  ghost function Nodes(C: Chains): set<HNode> {
    set h, x | h in C && x in C[h] :: x
  }

  ghost function HeadOf(C: Chains, x: HNode): (h: HHead)
    requires x in Nodes(C)
    ensures h in C && x in C[h]
  {
    var h :| h in C && x in C[h];
    h
  }

  ghost predicate WellFormed(C: Chains) {
    && (forall h :: h in C ==> Distinct(C[h]))
    && (forall h, x {:trigger x in C[h]} :: h in C && x in C[h] ==> HeadOf(C, x) == h)
  }

  ghost function FirstIn(C: Chains, h: HHead): HNode?
    requires h in C
  {
    if C[h] == [] then null else C[h][0]
  }

  ghost function NextIn(C: Chains, x: HNode): HNode?
    requires x in Nodes(C)
  {
    var c := C[HeadOf(C, x)];
    var i := IndexOf(c, x);
    if i + 1 < |c| then c[i + 1] else null
  }

  ghost function SlotIn(C: Chains, x: HNode): Slot
    requires x in Nodes(C)
  {
    var h := HeadOf(C, x);
    var i := IndexOf(C[h], x);
    if i == 0 then FirstOf(h) else NextOf(C[h][i - 1])
  }

  lemma At(C: Chains, h: HHead, i: nat)
    requires WellFormed(C) && h in C && i < |C[h]|
    ensures C[h][i] in Nodes(C) && HeadOf(C, C[h][i]) == h && IndexOf(C[h], C[h][i]) == i
    ensures NextIn(C, C[h][i]) == if i + 1 < |C[h]| then C[h][i + 1] else null
    ensures SlotIn(C, C[h][i]) == if i == 0 then FirstOf(h) else NextOf(C[h][i - 1])
  {
    assert C[h][i] in C[h];
    IndexUnique(C[h], i);
  }

  // ---------- The heap ----------

  /** The pointers in the heap are exactly those the chains of C prescribe. */
  ghost predicate Represents(C: Chains)
    reads C.Keys, Nodes(C)
  {
    && WellFormed(C)
    && (forall h :: h in C ==> h.first == FirstIn(C, h))
    && (forall x :: x in Nodes(C) ==> x.next == NextIn(C, x) && x.pprev == SlotIn(C, x))
  }

  /** What a slot holds. */
  function Deref(s: Slot): HNode?
    reads if s.FirstOf? then {s.head} else {}, if s.NextOf? then {s.node} else {}
  {
    match s
    case Nowhere => null
    case FirstOf(h) => h.first
    case NextOf(n) => n.next
  }

  /** The slot a linked node names does hold that node. */
  lemma SlotHolds(C: Chains, x: HNode)
    requires Represents(C) && x in Nodes(C)
    ensures x.pprev != Nowhere && Deref(x.pprev) == x
    ensures x.next != null ==> x.next in Nodes(C) && x.next.pprev == NextOf(x)
    ensures x.pprev.FirstOf? ==> x.pprev.head in C
    ensures x.pprev.NextOf? ==> x.pprev.node in Nodes(C) && x.pprev.node != x
    ensures x.next != x
  {
    var h := HeadOf(C, x);
    var i := IndexOf(C[h], x);
    At(C, h, i);
    if i > 0 { At(C, h, i - 1); }
    if i + 1 < |C[h]| { At(C, h, i + 1); }
  }

  // ---------- Removing ----------

  ghost function Detach(C: Chains, e: HNode): Chains {
    map h | h in C :: Without(C[h], e)
  }

  lemma DetachKeeps(C: Chains, e: HNode)
    requires WellFormed(C)
    ensures WellFormed(Detach(C, e)) && Nodes(Detach(C, e)) == Nodes(C) - {e}
  {
    var D := Detach(C, e);
    forall h | h in D
      ensures Distinct(D[h]) && forall x :: x in D[h] <==> x in C[h] && x != e
    { WithoutLaw(C[h], e); }
    forall x | x in Nodes(C) && x != e ensures x in Nodes(D) { assert x in D[HeadOf(C, x)]; }
    forall h, x | h in D && x in D[h] ensures HeadOf(D, x) == h { assert x in C[HeadOf(D, x)] && x in C[h]; }
  }

  /** D is C with e taken out, said through the pointers alone. */
  ghost predicate Bridged(C: Chains, D: Chains, e: HNode)
    requires WellFormed(C) && e in Nodes(C)
  {
    && WellFormed(D) && Nodes(D) == Nodes(C) - {e} && D.Keys == C.Keys
    && (forall h :: h in D ==> FirstIn(D, h) == if SlotIn(C, e) == FirstOf(h) then NextIn(C, e) else FirstIn(C, h))
    && (forall x :: x in Nodes(D) ==> NextIn(D, x) == if SlotIn(C, e) == NextOf(x) then NextIn(C, e) else NextIn(C, x))
    && (forall x :: x in Nodes(D) ==> SlotIn(D, x) == if NextIn(C, e) == x then SlotIn(C, e) else SlotIn(C, x))
  }

  lemma SeqDrop<T>(c: seq<T>, k: nat, j: nat)
    requires k < |c| && j < |c| && j != k
    ensures var d, i := c[..k] + c[k + 1..], if j < k then j else j - 1;
      && i < |d| && d[i] == c[j] && (i == 0 <==> j == 0 || (k == 0 && j == 1))
      && (i > 0 ==> d[i - 1] == if j == k + 1 then c[k - 1] else c[j - 1])
  {
  }

  lemma SeqDropNext<T>(c: seq<T>, k: nat, j: nat)
    requires k < |c| && j < |c| && j != k
    ensures var d, i := c[..k] + c[k + 1..], if j < k then j else j - 1;
      && (i + 1 < |d| <==> j + 1 < |c| && (j + 1 == k ==> k + 1 < |c|))
      && (i + 1 < |d| ==> d[i + 1] == if j + 1 == k then c[k + 1] else c[j + 1])
  {
  }

  lemma DetachSame(C: Chains, h: HHead, k: nat, j: nat)
    requires WellFormed(C) && h in C && k < |C[h]| && j < |C[h]| && j != k
    ensures var D, e, x := Detach(C, C[h][k]), C[h][k], C[h][j];
      && e in Nodes(C) && x in Nodes(C) && WellFormed(D) && x in Nodes(D)
      && NextIn(D, x) == (if j + 1 == k then NextIn(C, e) else NextIn(C, x))
      && SlotIn(D, x) == (if j == k + 1 then SlotIn(C, e) else SlotIn(C, x))
  {
    var c := C[h];
    DetachKeeps(C, c[k]);
    At(C, h, k);
    At(C, h, j);
    SeqDrop(c, k, j);
    SeqDropNext(c, k, j);
    At(Detach(C, c[k]), h, if j < k then j else j - 1);
  }

  lemma DetachElsewhere(C: Chains, e: HNode, x: HNode)
    requires WellFormed(C) && e in Nodes(C) && x in Nodes(C) && HeadOf(C, x) != HeadOf(C, e)
    ensures var D := Detach(C, e);
      WellFormed(D) && x in Nodes(D) && NextIn(D, x) == NextIn(C, x) && SlotIn(D, x) == SlotIn(C, x)
    ensures SlotIn(C, e) != NextOf(x) && NextIn(C, e) != x
  {
    DetachKeeps(C, e);
    var h, f := HeadOf(C, x), HeadOf(C, e);
    assert e !in C[h];
    assert Detach(C, e)[h] == C[h];
    At(Detach(C, e), h, IndexOf(C[h], x));
    At(C, f, IndexOf(C[f], e));
    assert x !in C[f];
  }

  lemma DetachLinks(C: Chains, e: HNode, x: HNode)
    requires WellFormed(C) && e in Nodes(C) && x in Nodes(C) && x != e
    ensures var D := Detach(C, e);
      && WellFormed(D) && x in Nodes(D)
      && NextIn(D, x) == (if SlotIn(C, e) == NextOf(x) then NextIn(C, e) else NextIn(C, x))
      && SlotIn(D, x) == (if NextIn(C, e) == x then SlotIn(C, e) else SlotIn(C, x))
  {
    var h := HeadOf(C, e);
    if HeadOf(C, x) == h {
      var j, k := IndexOf(C[h], x), IndexOf(C[h], e);
      At(C, h, k);
      DetachSame(C, h, k, j);
    } else {
      DetachElsewhere(C, e, x);
    }
  }

  lemma DetachFirst(C: Chains, e: HNode, h: HHead)
    requires WellFormed(C) && e in Nodes(C) && h in C
    ensures FirstIn(Detach(C, e), h) == if SlotIn(C, e) == FirstOf(h) then NextIn(C, e) else FirstIn(C, h)
  {
    var f := HeadOf(C, e);
    At(C, f, IndexOf(C[f], e));
    if f != h { assert e !in C[h]; }
  }

  lemma DetachBridges(C: Chains, e: HNode)
    requires WellFormed(C) && e in Nodes(C)
    ensures Bridged(C, Detach(C, e), e)
  {
    DetachKeeps(C, e);
    forall h | h in C { DetachFirst(C, e, h); }
    forall x | x in Nodes(C) && x != e { DetachLinks(C, e, x); }
  }

  // ---------- Inserting ----------

  ghost function InsertAt(C: Chains, h: HHead, k: nat, n: HNode): Chains
    requires h in C && k <= |C[h]|
  {
    C[h := C[h][..k] + [n] + C[h][k..]]
  }

  ghost function SlotAt(C: Chains, h: HHead, k: nat): Slot
    requires h in C && k <= |C[h]|
  {
    if k == 0 then FirstOf(h) else NextOf(C[h][k - 1])
  }

  ghost function NodeAt(C: Chains, h: HHead, k: nat): HNode?
    requires h in C && k <= |C[h]|
  {
    if k < |C[h]| then C[h][k] else null
  }

  lemma InsertKeeps(C: Chains, h: HHead, k: nat, n: HNode)
    requires WellFormed(C) && h in C && k <= |C[h]| && n !in Nodes(C)
    ensures WellFormed(InsertAt(C, h, k, n)) && Nodes(InsertAt(C, h, k, n)) == Nodes(C) + {n}
  {
    var c, D := C[h], InsertAt(C, h, k, n);
    assert c == c[..k] + c[k..];
    assert forall x :: x in c ==> x in Nodes(C);
    DistinctInsert(c[..k], [n], c[k..]);
    assert forall x :: x in D[h] <==> x in c || x == n;
    forall x | x in Nodes(C) || x == n ensures x in Nodes(D) { assert x in D[if x == n then h else HeadOf(C, x)]; }
    forall x | x in Nodes(D) && x != n ensures x in Nodes(C) { assert x in C[HeadOf(D, x)]; }
    forall g, x | g in D && x in D[g] ensures HeadOf(D, x) == g {
      if x != n { assert x in C[HeadOf(D, x)] && x in C[g]; }
    }
  }

  /** D is C with n put into the slot s, in front of what it held, said through the pointers alone. */
  ghost predicate Slotted(C: Chains, D: Chains, s: Slot, held: HNode?, n: HNode)
    requires WellFormed(C)
  {
    && WellFormed(D) && Nodes(D) == Nodes(C) + {n} && D.Keys == C.Keys
    && (forall h :: h in D ==> FirstIn(D, h) == if s == FirstOf(h) then n else FirstIn(C, h))
    && (forall x :: x in Nodes(C) ==> x in Nodes(D) && NextIn(D, x) == if s == NextOf(x) then n else NextIn(C, x))
    && (forall x :: x in Nodes(C) ==> x in Nodes(D) && SlotIn(D, x) == if x == held then NextOf(n) else SlotIn(C, x))
    && n in Nodes(D) && NextIn(D, n) == held && SlotIn(D, n) == s
  }

  lemma InsertSame(C: Chains, h: HHead, k: nat, n: HNode, j: nat)
    requires WellFormed(C) && h in C && k <= |C[h]| && n !in Nodes(C) && j < |C[h]|
    ensures var D, x := InsertAt(C, h, k, n), C[h][j];
      && WellFormed(D) && x in Nodes(D) && x in Nodes(C)
      && NextIn(D, x) == (if k > 0 && j == k - 1 then n else NextIn(C, x))
      && SlotIn(D, x) == (if j == k then NextOf(n) else SlotIn(C, x))
  {
    var D, c := InsertAt(C, h, k, n), C[h];
    InsertKeeps(C, h, k, n);
    assert D[h] == c[..k] + [n] + c[k..];
    At(C, h, j);
    At(D, h, if j < k then j else j + 1);
  }

  lemma InsertElsewhere(C: Chains, h: HHead, k: nat, n: HNode, x: HNode)
    requires WellFormed(C) && h in C && k <= |C[h]| && n !in Nodes(C) && x in Nodes(C) && HeadOf(C, x) != h
    ensures var D := InsertAt(C, h, k, n);
      WellFormed(D) && x in Nodes(D) && NextIn(D, x) == NextIn(C, x) && SlotIn(D, x) == SlotIn(C, x)
    ensures SlotAt(C, h, k) != NextOf(x) && NodeAt(C, h, k) != x
  {
    InsertKeeps(C, h, k, n);
    var g := HeadOf(C, x);
    At(InsertAt(C, h, k, n), g, IndexOf(C[g], x));
    assert x !in C[h];
  }

  lemma InsertLinks(C: Chains, h: HHead, k: nat, n: HNode, x: HNode)
    requires WellFormed(C) && h in C && k <= |C[h]| && n !in Nodes(C) && x in Nodes(C)
    ensures var D := InsertAt(C, h, k, n);
      && WellFormed(D) && x in Nodes(D)
      && NextIn(D, x) == (if SlotAt(C, h, k) == NextOf(x) then n else NextIn(C, x))
      && SlotIn(D, x) == (if x == NodeAt(C, h, k) then NextOf(n) else SlotIn(C, x))
  {
    if HeadOf(C, x) == h {
      var j := IndexOf(C[h], x);
      InsertSame(C, h, k, n, j);
      if k > 0 { IndexUnique(C[h], k - 1); }
      if k < |C[h]| { IndexUnique(C[h], k); }
    } else {
      InsertElsewhere(C, h, k, n, x);
    }
  }

  lemma InsertSlots(C: Chains, h: HHead, k: nat, n: HNode)
    requires WellFormed(C) && h in C && k <= |C[h]| && n !in Nodes(C)
    ensures Slotted(C, InsertAt(C, h, k, n), SlotAt(C, h, k), NodeAt(C, h, k), n)
  {
    var D := InsertAt(C, h, k, n);
    InsertKeeps(C, h, k, n);
    forall x | x in Nodes(C) { InsertLinks(C, h, k, n, x); }
    assert D[h][k] == n;
    At(D, h, k);
  }

  // ---------- Operations ----------

  ghost function AddedBefore(C: Chains, p: HNode, n: HNode): Chains {
    map h | h in C :: if p in C[h] then var i := IndexOf(C[h], p); C[h][..i] + [n] + C[h][i..] else C[h]
  }

  ghost function AddedAfter(C: Chains, p: HNode, n: HNode): Chains {
    map h | h in C :: PutAfter(C[h], p, [n])
  }

  datatype Op =
    | InitHead(h: HHead)
    | InitNode(n: HNode)
    | AddHead(n: HNode, h: HHead)
    | AddBefore(n: HNode, p: HNode)
    | AddAfter(p: HNode, n: HNode)
    | Del(e: HNode)
    | DelInit(e: HNode)
    | MoveList(o: HHead, t: HHead)

  ghost predicate Legal(op: Op, C: Chains) {
    match op
    case InitHead(_) => true
    case InitNode(n) => n !in Nodes(C)
    case AddHead(n, h) => h in C && n !in Nodes(C)
    case AddBefore(n, p) => p in Nodes(C) && n !in Nodes(C)
    case AddAfter(p, n) => p in Nodes(C) && n !in Nodes(C)
    case Del(e) => e in Nodes(C)
    case DelInit(_) => true
    case MoveList(o, t) => o in C && t in C
  }

  ghost function Apply(op: Op, C: Chains): Chains
    requires Legal(op, C)
  {
    match op
    case InitHead(h) => C[h := []]
    case InitNode(_) => C
    case AddHead(n, h) => C[h := [n] + C[h]]
    case AddBefore(n, p) => AddedBefore(C, p, n)
    case AddAfter(p, n) => AddedAfter(C, p, n)
    case Del(e) => Detach(C, e)
    case DelInit(e) => Detach(C, e)
    case MoveList(o, t) => C[t := C[o]][o := []]
  }

  /** The nodes an operation puts on a chain. */
  ghost function Gained(op: Op): set<HNode> {
    match op
    case AddHead(n, _) => {n}
    case AddBefore(n, _) => {n}
    case AddAfter(_, n) => {n}
    case _ => {}
  }

  /** The nodes on a head's chain; a head that is not known yet has none. */
  ghost function Held(C: Chains, h: HHead): set<HNode> {
    if h in C then Elements(C[h]) else {}
  }

  /** The nodes an operation takes off their chain; a head that is overwritten gives up its nodes. */
  ghost function Lost(op: Op, C: Chains): set<HNode>
    requires Legal(op, C)
  {
    match op
    case Del(e) => {e}
    case DelInit(e) => {e}
    case InitHead(h) => Held(C, h)
    case MoveList(_, t) => Held(C, t)
    case _ => {}
  }

  lemma BeforeAt(C: Chains, h: HHead, i: nat, n: HNode)
    requires WellFormed(C) && h in C && i < |C[h]|
    ensures AddedBefore(C, C[h][i], n) == InsertAt(C, h, i, n)
  {
    At(C, h, i);
    forall g | g in C && g != h ensures C[h][i] !in C[g] { }
  }

  lemma AfterAt(C: Chains, h: HHead, i: nat, n: HNode)
    requires WellFormed(C) && h in C && i < |C[h]|
    ensures AddedAfter(C, C[h][i], n) == InsertAt(C, h, i + 1, n)
  {
    At(C, h, i);
    forall g | g in C && g != h ensures C[h][i] !in C[g] { }
  }

  /** Inserting before or after a node is inserting into the slot that names it, or into its own next slot. */
  lemma InsertMeaning(C: Chains, p: HNode, n: HNode)
    requires WellFormed(C) && p in Nodes(C)
    ensures var h := HeadOf(C, p);
      var i := IndexOf(C[h], p);
      && AddedBefore(C, p, n) == InsertAt(C, h, i, n) && SlotAt(C, h, i) == SlotIn(C, p)
      && AddedAfter(C, p, n) == InsertAt(C, h, i + 1, n)
      && NodeAt(C, h, i) == p && NodeAt(C, h, i + 1) == NextIn(C, p)
  {
    var h := HeadOf(C, p);
    BeforeAt(C, h, IndexOf(C[h], p), n);
    AfterAt(C, h, IndexOf(C[h], p), n);
  }

  /** D is C with o's chain hanging off t instead, said through the pointers alone. */
  ghost predicate Rehung(C: Chains, D: Chains, o: HHead, t: HHead) {
    && WellFormed(D) && Nodes(D) == Nodes(C) && D.Keys == C.Keys && o in C && t in C
    && (forall h :: h in D ==> FirstIn(D, h) == if h == o then null else FirstIn(C, if h == t then o else h))
    && (forall x :: x in Nodes(C) ==> x in Nodes(D) && NextIn(D, x) == NextIn(C, x))
    && (forall x :: x in Nodes(C) ==> SlotIn(D, x) == if SlotIn(C, x) == FirstOf(o) then FirstOf(t) else SlotIn(C, x))
  }

  /** Overwriting a head, known or new, leaves the pointers of all other chains as they were. */
  lemma ClearedKeeps(C: Chains, t: HHead)
    requires WellFormed(C)
    ensures var D := C[t := []];
      && WellFormed(D) && Nodes(D) == Nodes(C) - Held(C, t)
      && (forall x :: x in Nodes(D) ==> NextIn(D, x) == NextIn(C, x) && SlotIn(D, x) == SlotIn(C, x))
  {
    var D := C[t := []];
    forall g, x | g in D && x in D[g] ensures x in C[g] { }
    forall g, x | g in D && x in D[g] ensures HeadOf(D, x) == g { assert x in C[HeadOf(D, x)] && x in C[g]; }
    forall x | x in Nodes(C) && !(t in C && x in C[t]) ensures x in Nodes(D) { assert x in D[HeadOf(C, x)]; }
    forall x | x in Nodes(D) ensures x in Nodes(C) && !(t in C && x in C[t]) { assert x in C[HeadOf(D, x)]; }
    forall x | x in Nodes(D) ensures NextIn(D, x) == NextIn(C, x) && SlotIn(D, x) == SlotIn(C, x) {
      var h := HeadOf(D, x);
      At(C, h, IndexOf(C[h], x));
      At(D, h, IndexOf(C[h], x));
    }
  }

  lemma RehungNodes(C: Chains, o: HHead, t: HHead)
    requires WellFormed(C) && o in C && t in C && o != t && C[t] == []
    ensures var D := C[t := C[o]][o := []]; WellFormed(D) && Nodes(D) == Nodes(C)
  {
    var D := C[t := C[o]][o := []];
    forall x | x in Nodes(C) ensures x in Nodes(D) {
      var h := HeadOf(C, x);
      assert x in D[if h == o then t else h];
    }
    forall g, x | g in D && x in D[g] ensures x in Nodes(C) && x in C[if g == t then o else g] { }
    forall g, x | g in D && x in D[g] ensures HeadOf(D, x) == g {
      var k := HeadOf(D, x);
      assert x in C[if k == t then o else k] && x in C[if g == t then o else g];
    }
  }

  lemma MoveListKeeps(C: Chains, o: HHead, t: HHead)
    requires WellFormed(C) && o in C && t in C && o != t && C[t] == []
    ensures Rehung(C, C[t := C[o]][o := []], o, t)
  {
    var D := C[t := C[o]][o := []];
    RehungNodes(C, o, t);
    forall x | x in Nodes(C) ensures NextIn(D, x) == NextIn(C, x)
      && SlotIn(D, x) == if SlotIn(C, x) == FirstOf(o) then FirstOf(t) else SlotIn(C, x)
    {
      var h := HeadOf(C, x);
      var i := IndexOf(C[h], x);
      At(C, h, i);
      At(D, if h == o then t else h, i);
    }
  }

  lemma ClearedFirst(C: Chains, o: HHead, t: HHead)
    requires o in C && o != t
    ensures C[t := C[o]][o := []] == C[t := []][t := C[o]][o := []]
  {
  }

  /** Moving a chain is moving it onto a cleared target. */
  lemma HandedNodes(C: Chains, o: HHead, t: HHead)
    requires WellFormed(C) && o in C && t in C
    ensures var D := C[t := C[o]][o := []]; WellFormed(D) && Nodes(D) == Nodes(C) - Held(C, t)
  {
    var E := C[t := []];
    ClearedKeeps(C, t);
    if o == t {
      assert C[t := C[o]][o := []] == E;
    } else {
      RehungNodes(E, o, t);
      ClearedFirst(C, o, t);
    }
  }

  /** Every addition is an insertion somewhere. */
  lemma AddIsInsert(op: Op, C: Chains) returns (h: HHead, k: nat)
    requires WellFormed(C) && Legal(op, C) && Gained(op) != {}
    ensures h in C && k <= |C[h]| && op.n !in Nodes(C) && Gained(op) == {op.n}
    ensures Apply(op, C) == InsertAt(C, h, k, op.n)
  {
    match op
    case AddHead(n, g) =>
      h, k := g, 0;
      assert [n] + C[h] == C[h][..0] + [n] + C[h][0..];
    case AddBefore(n, p) =>
      InsertMeaning(C, p, n);
      h, k := HeadOf(C, p), IndexOf(C[HeadOf(C, p)], p);
    case AddAfter(p, n) =>
      InsertMeaning(C, p, n);
      h, k := HeadOf(C, p), IndexOf(C[HeadOf(C, p)], p) + 1;
  }

  lemma AddKeeps(op: Op, C: Chains)
    requires WellFormed(C) && Legal(op, C) && Gained(op) != {}
    ensures WellFormed(Apply(op, C)) && Apply(op, C).Keys == C.Keys && Nodes(Apply(op, C)) == Nodes(C) + Gained(op)
  {
    var h, k := AddIsInsert(op, C);
    InsertKeeps(C, h, k, op.n);
  }

  lemma RemoveKeeps(op: Op, C: Chains)
    requires WellFormed(C) && Legal(op, C) && Gained(op) == {}
    ensures WellFormed(Apply(op, C)) && Apply(op, C).Keys == C.Keys + if op.InitHead? then {op.h} else {}
    ensures Nodes(Apply(op, C)) == Nodes(C) - Lost(op, C)
  {
    match op
    case InitHead(h) => ClearedKeeps(C, h);
    case InitNode(_) =>
    case Del(e) => DetachKeeps(C, e);
    case DelInit(e) => DetachKeeps(C, e);
    case MoveList(o, t) => HandedNodes(C, o, t);
  }

  /** Every operation keeps the chains well formed and pairwise disjoint, and accounts for every node. */
  lemma ApplyKeeps(op: Op, C: Chains)
    requires WellFormed(C) && Legal(op, C)
    ensures WellFormed(Apply(op, C)) && Apply(op, C).Keys == C.Keys + if op.InitHead? then {op.h} else {}
    ensures Nodes(Apply(op, C)) == Nodes(C) - Lost(op, C) + Gained(op)
  {
    if Gained(op) == {} {
      RemoveKeeps(op, C);
    } else {
      assert op.AddHead? || op.AddBefore? || op.AddAfter?;
      AddKeeps(op, C);
    }
  }

  // ---------- What the operations mean on the chains they name ----------

  /** Heads whose pointers are all null represent empty chains. */
  lemma EmptyHeads(H: set<HHead>)
    ensures var C: Chains := map h | h in H :: [];
      Nodes(C) == {} && (Represents(C) <==> forall h :: h in H ==> h.first == null)
  {
    var C: Chains := map h | h in H :: [];
    assert forall h :: h in C ==> FirstIn(C, h) == null;
  }

  /** The new node is the first of its chain. */
  lemma AddHeadMeaning(C: Chains, n: HNode, h: HHead)
    requires WellFormed(C) && h in C && n !in Nodes(C)
    ensures Legal(AddHead(n, h), C)
    ensures var D := Apply(AddHead(n, h), C);
      && D.Keys == C.Keys && |D[h]| == |C[h]| + 1 && D[h][0] == n && D[h][1..] == C[h]
      && forall g :: g in C && g != h ==> D[g] == C[g]
  {
  }

  /** The new node stands right before or right after the i-th one. */
  lemma AddMeaning(C: Chains, h: HHead, i: nat, n: HNode)
    requires WellFormed(C) && h in C && i < |C[h]| && n !in Nodes(C)
    ensures var c := C[h];
      && Legal(AddBefore(n, c[i]), C) && Apply(AddBefore(n, c[i]), C) == C[h := c[..i] + [n] + c[i..]]
      && Legal(AddAfter(c[i], n), C) && Apply(AddAfter(c[i], n), C) == C[h := c[..i + 1] + [n] + c[i + 1..]]
  {
    At(C, h, i);
    BeforeAt(C, h, i, n);
    AfterAt(C, h, i, n);
  }

  /** Both deletions drop the i-th node from its chain alone; initialising ones leave nodes on no chain alone. */
  lemma DelMeaning(C: Chains, h: HHead, i: nat)
    requires WellFormed(C) && h in C && i < |C[h]|
    ensures var c := C[h];
      && Legal(Del(c[i]), C) && Apply(Del(c[i]), C) == C[h := c[..i] + c[i + 1..]]
      && Legal(DelInit(c[i]), C) && Apply(DelInit(c[i]), C) == C[h := c[..i] + c[i + 1..]]
  {
    At(C, h, i);
    forall g | g in C && g != h ensures Without(C[g], C[h][i]) == C[g] { assert C[h][i] !in C[g]; }
  }

  lemma DelAbsent(C: Chains, e: HNode)
    requires WellFormed(C) && e !in Nodes(C)
    ensures Legal(DelInit(e), C) && Apply(DelInit(e), C) == C
  {
    DetachAbsent(C, e);
  }

  /** The target's chain is the source's, which is empty afterwards; moved onto itself a chain is lost. */
  lemma MoveListMeaning(C: Chains, o: HHead, t: HHead)
    requires WellFormed(C) && o in C && t in C
    ensures Legal(MoveList(o, t), C)
    ensures var D := Apply(MoveList(o, t), C);
      && D.Keys == C.Keys && D[o] == [] && (o != t ==> D[t] == C[o])
      && forall g :: g in C && g != o && g != t ==> D[g] == C[g]
  {
  }

  /** Moved onto an empty head and back, a chain and everything else is as before. */
  lemma MoveListBack(C: Chains, o: HHead, t: HHead)
    requires WellFormed(C) && o in C && t in C && o != t && C[t] == []
    ensures var D := Apply(MoveList(o, t), C); Legal(MoveList(t, o), D) && Apply(MoveList(t, o), D) == C
  {
  }

  lemma InsertThenDetach(C: Chains, h: HHead, k: nat, n: HNode)
    requires WellFormed(C) && h in C && k <= |C[h]| && n !in Nodes(C)
    ensures n in Nodes(InsertAt(C, h, k, n)) && Detach(InsertAt(C, h, k, n), n) == C
  {
    var D := InsertAt(C, h, k, n);
    InsertKeeps(C, h, k, n);
    assert D[h][k] == n;
    At(D, h, k);
    assert D[h][..k] + D[h][k + 1..] == C[h];
    forall g | g in C && g != h ensures Without(D[g], n) == C[g] { assert n !in C[g]; }
  }

  /** An added node deleted again leaves every chain as it was. */
  lemma AddThenDel(C: Chains, op: Op)
    requires WellFormed(C) && Legal(op, C) && (op.AddHead? || op.AddBefore? || op.AddAfter?)
    ensures var D := Apply(op, C); Legal(Del(op.n), D) && Apply(Del(op.n), D) == C
  {
    assert op.n in Gained(op);
    var h, k := AddIsInsert(op, C);
    InsertThenDetach(C, h, k, op.n);
  }

  // ---------- The functions on the heap ----------

  ghost function HeadFrame(s: Slot): set<HHead> {
    if s.FirstOf? then {s.head} else {}
  }

  ghost function NodeFrame(s: Slot): set<HNode> {
    if s.NextOf? then {s.node} else {}
  }

  ghost function Target(x: HNode?): set<HNode> {
    if x == null then {} else {x}
  }

  /** Writes through a slot. */
  method Store(s: Slot, v: HNode?)
    requires s != Nowhere
    modifies HeadFrame(s)`first, NodeFrame(s)`next
    ensures Deref(s) == v
  {
    match s
    case FirstOf(h) => h.first := v;
    case NextOf(n) => n.next := v;
  }

  lemma Removed(C: Chains, e: HNode)
    requires WellFormed(C) && e in Nodes(C)
    requires forall h :: h in C ==> h.first == if SlotIn(C, e) == FirstOf(h) then NextIn(C, e) else FirstIn(C, h)
    requires forall x :: x in Nodes(C) && x != e ==>
      x.next == if SlotIn(C, e) == NextOf(x) then NextIn(C, e) else NextIn(C, x)
    requires forall x :: x in Nodes(C) && x != e ==>
      x.pprev == if NextIn(C, e) == x then SlotIn(C, e) else SlotIn(C, x)
    ensures Represents(Detach(C, e))
  {
    DetachBridges(C, e);
    RemovedAs(C, Detach(C, e), e);
  }

  lemma RemovedAs(C: Chains, D: Chains, e: HNode)
    requires WellFormed(C) && e in Nodes(C) && Bridged(C, D, e)
    requires forall h :: h in C ==> h.first == if SlotIn(C, e) == FirstOf(h) then NextIn(C, e) else FirstIn(C, h)
    requires forall x :: x in Nodes(C) && x != e ==>
      x.next == if SlotIn(C, e) == NextOf(x) then NextIn(C, e) else NextIn(C, x)
    requires forall x :: x in Nodes(C) && x != e ==>
      x.pprev == if NextIn(C, e) == x then SlotIn(C, e) else SlotIn(C, x)
    ensures Represents(D)
  {
  }

  method InitHlistHead(h: HHead, ghost C: Chains)
    requires Represents(C)
    modifies h
    ensures Represents(Apply(InitHead(h), C)) && h.first == null
  {
    ClearedKeeps(C, h);
    h.first := null;
  }

  method InitHlistNode(n: HNode, ghost C: Chains)
    requires Represents(C) && Legal(InitNode(n), C)
    modifies n
    ensures Represents(Apply(InitNode(n), C))
    ensures n.next == null && HlistUnhashed(n)
  {
    n.next := null;
    n.pprev := Nowhere;
  }

  method RawHlistDel(n: HNode, ghost C: Chains)
    requires Represents(C) && n in Nodes(C)
    modifies HeadFrame(n.pprev)`first, NodeFrame(n.pprev)`next, Target(n.next)`pprev
    ensures Represents(Detach(C, n))
    ensures n.next == old(n.next) && n.pprev == old(n.pprev)
    ensures Deref(n.pprev) == n.next && (n.next != null ==> n.next.pprev == n.pprev)
  {
    SlotHolds(C, n);
    var next := n.next;
    var pprev := n.pprev;
    Store(pprev, next);
    if next != null {
      next.pprev := pprev;
    }
    Removed(C, n);
  }

  method HlistDel(n: HNode, ghost C: Chains)
    requires Represents(C) && Legal(Del(n), C)
    modifies HeadFrame(n.pprev)`first, NodeFrame(n.pprev)`next, Target(n.next)`pprev, n
    ensures Represents(Apply(Del(n), C))
    ensures n.next == null && HlistUnhashed(n)
  {
    RawHlistDel(n, C);
    DetachKeeps(C, n);
    n.next := null;
    n.pprev := Nowhere;
  }

  predicate HlistUnhashed(h: HNode)
    reads h
  {
    h.pprev == Nowhere
  }

  predicate HlistEmpty(h: HHead)
    reads h
  {
    h.first == null
  }

  /** What the tests decide: having no nodes, and being on no chain. */
  lemma TestsDecide(C: Chains, h: HHead, x: HNode)
    requires Represents(C) && h in C
    ensures HlistEmpty(h) <==> C[h] == []
    ensures x in Nodes(C) ==> !HlistUnhashed(x)
  {
    if x in Nodes(C) { SlotHolds(C, x); }
  }

  /** The successor of a linked node. */
  ghost function Successor(C: Chains, n: HNode): set<HNode>
    reads n
  {
    if n in Nodes(C) then Target(n.next) else {}
  }

  /** Works on any node: a linked one is unlinked, an initialised unlinked one is left alone. */
  method HlistDelInit(n: HNode, ghost C: Chains)
    requires Represents(C) && (n in Nodes(C) || HlistUnhashed(n))
    modifies HeadFrame(n.pprev)`first, NodeFrame(n.pprev)`next, Successor(C, n)`pprev, n
    ensures Represents(Apply(DelInit(n), C)) && HlistUnhashed(n)
    ensures n.next == if n in Nodes(C) then null else old(n.next)
  {
    if n in Nodes(C) { SlotHolds(C, n); } else { DetachAbsent(C, n); }
    if !HlistUnhashed(n) {
      RawHlistDel(n, C);
      DetachKeeps(C, n);
      InitHlistNode(n, Detach(C, n));
    }
  }

  lemma DetachAbsent(C: Chains, e: HNode)
    requires WellFormed(C) && e !in Nodes(C)
    ensures Detach(C, e) == C
  {
    forall h | h in C ensures Without(C[h], e) == C[h] { assert e in C[h] ==> e in Nodes(C); }
  }

  lemma Inserted(C: Chains, h: HHead, k: nat, n: HNode)
    requires WellFormed(C) && h in C && k <= |C[h]| && n !in Nodes(C)
    requires n.next == NodeAt(C, h, k) && n.pprev == SlotAt(C, h, k)
    requires forall g :: g in C ==> g.first == if SlotAt(C, h, k) == FirstOf(g) then n else FirstIn(C, g)
    requires forall x :: x in Nodes(C) ==> x.next == if SlotAt(C, h, k) == NextOf(x) then n else NextIn(C, x)
    requires forall x :: x in Nodes(C) ==> x.pprev == if x == NodeAt(C, h, k) then NextOf(n) else SlotIn(C, x)
    ensures Represents(InsertAt(C, h, k, n))
  {
    InsertSlots(C, h, k, n);
    InsertedAs(C, InsertAt(C, h, k, n), SlotAt(C, h, k), NodeAt(C, h, k), n);
  }

  lemma InsertedAs(C: Chains, D: Chains, s: Slot, held: HNode?, n: HNode)
    requires WellFormed(C) && n !in Nodes(C) && Slotted(C, D, s, held, n)
    requires n.next == held && n.pprev == s
    requires forall g :: g in C ==> g.first == if s == FirstOf(g) then n else FirstIn(C, g)
    requires forall x :: x in Nodes(C) ==> x.next == if s == NextOf(x) then n else NextIn(C, x)
    requires forall x :: x in Nodes(C) ==> x.pprev == if x == held then NextOf(n) else SlotIn(C, x)
    ensures Represents(D)
  {
  }

  lemma InsertedFirst(C: Chains, h: HHead, n: HNode)
    requires WellFormed(C) && h in C && n !in Nodes(C)
    requires n.next == FirstIn(C, h) && n.pprev == FirstOf(h)
    requires forall g :: g in C ==> g.first == if g == h then n else FirstIn(C, g)
    requires forall x :: x in Nodes(C) ==> x.next == NextIn(C, x)
    requires forall x :: x in Nodes(C) ==> x.pprev == if x == FirstIn(C, h) then NextOf(n) else SlotIn(C, x)
    ensures Represents(C[h := [n] + C[h]])
  {
    Inserted(C, h, 0, n);
    assert [n] + C[h] == C[h][..0] + [n] + C[h][0..];
  }

  method HlistAddHead(n: HNode, h: HHead, ghost C: Chains)
    requires Represents(C) && Legal(AddHead(n, h), C)
    modifies n, Target(h.first)`pprev, h
    ensures Represents(Apply(AddHead(n, h), C))
    ensures h.first == n && n.pprev == FirstOf(h) && n.next == old(h.first)
    ensures n.next != null ==> n.next.pprev == NextOf(n)
  {
    FirstSlot(C, h);
    var first := h.first;
    n.next := first;
    if first != null {
      first.pprev := NextOf(n);
    }
    h.first := n;
    n.pprev := FirstOf(h);
    InsertedFirst(C, h, n);
  }

  lemma InsertedBefore(C: Chains, p: HNode, n: HNode)
    requires WellFormed(C) && p in Nodes(C) && n !in Nodes(C)
    requires n.next == p && n.pprev == SlotIn(C, p)
    requires forall g :: g in C ==> g.first == if SlotIn(C, p) == FirstOf(g) then n else FirstIn(C, g)
    requires forall x :: x in Nodes(C) ==> x.next == if SlotIn(C, p) == NextOf(x) then n else NextIn(C, x)
    requires forall x :: x in Nodes(C) ==> x.pprev == if x == p then NextOf(n) else SlotIn(C, x)
    ensures Represents(AddedBefore(C, p, n))
  {
    InsertMeaning(C, p, n);
    Inserted(C, HeadOf(C, p), IndexOf(C[HeadOf(C, p)], p), n);
  }

  lemma InsertedAfter(C: Chains, p: HNode, n: HNode)
    requires WellFormed(C) && p in Nodes(C) && n !in Nodes(C)
    requires n.next == NextIn(C, p) && n.pprev == NextOf(p)
    requires forall g :: g in C ==> g.first == FirstIn(C, g)
    requires forall x :: x in Nodes(C) ==> x.next == if x == p then n else NextIn(C, x)
    requires forall x :: x in Nodes(C) ==> x.pprev == if x == NextIn(C, p) then NextOf(n) else SlotIn(C, x)
    ensures Represents(AddedAfter(C, p, n))
  {
    InsertMeaning(C, p, n);
    Inserted(C, HeadOf(C, p), IndexOf(C[HeadOf(C, p)], p) + 1, n);
  }

  /** The writes of hlist_add_before alone. */
  method TieBefore(n: HNode, next: HNode)
    requires n != next && next.pprev != Nowhere && next.pprev != NextOf(n)
    modifies n, next`pprev, HeadFrame(next.pprev)`first, NodeFrame(next.pprev)`next
    ensures n.pprev == old(next.pprev) && n.next == next
    ensures next.pprev == NextOf(n) && Deref(old(next.pprev)) == n
  {
    n.pprev := next.pprev;
    n.next := next;
    next.pprev := NextOf(n);
    Store(n.pprev, n);
  }

  method HlistAddBefore(n: HNode, next: HNode, ghost C: Chains)
    requires Represents(C) && Legal(AddBefore(n, next), C)
    modifies n, next`pprev, HeadFrame(next.pprev)`first, NodeFrame(next.pprev)`next
    ensures Represents(Apply(AddBefore(n, next), C))
    ensures n.next == next && next.pprev == NextOf(n)
    ensures n.pprev == old(next.pprev) && Deref(n.pprev) == n
  {
    SlotHolds(C, next);
    TieBefore(n, next);
    InsertedBefore(C, next, n);
  }

  /** The writes of hlist_add_after alone. */
  method TieAfter(n: HNode, next: HNode)
    requires n != next && n.next != next
    modifies next, n`next, Target(n.next)`pprev
    ensures next.next == old(n.next) && n.next == next && next.pprev == NextOf(n)
    ensures old(n.next) != null ==> old(n.next).pprev == NextOf(next)
  {
    next.next := n.next;
    n.next := next;
    next.pprev := NextOf(n);
    if next.next != null {
      next.next.pprev := NextOf(next);
    }
  }

  method HlistAddAfter(n: HNode, next: HNode, ghost C: Chains)
    requires Represents(C) && Legal(AddAfter(n, next), C)
    modifies next, n`next, Target(n.next)`pprev
    ensures Represents(Apply(AddAfter(n, next), C))
    ensures n.next == next && next.pprev == NextOf(n) && next.next == old(n.next)
    ensures next.next != null ==> next.next.pprev == NextOf(next)
  {
    SlotHolds(C, n);
    TieAfter(n, next);
    InsertedAfter(C, n, next);
  }

  lemma RehungAs(C: Chains, D: Chains, o: HHead, t: HHead)
    requires WellFormed(C) && Rehung(C, D, o, t)
    requires forall h :: h in C ==> h.first == if h == o then null else FirstIn(C, if h == t then o else h)
    requires forall x :: x in Nodes(C) ==> x.next == NextIn(C, x)
    requires forall x :: x in Nodes(C) ==> x.pprev == if SlotIn(C, x) == FirstOf(o) then FirstOf(t) else SlotIn(C, x)
    ensures Represents(D)
  {
  }

  lemma FirstSlot(C: Chains, o: HHead)
    requires WellFormed(C) && o in C
    ensures forall x :: x in Nodes(C) ==> (SlotIn(C, x) == FirstOf(o) <==> x == FirstIn(C, o))
    ensures C[o] != [] ==> FirstIn(C, o) in C[o] && FirstIn(C, o) in Nodes(C)
  {
    if C[o] != [] { At(C, o, 0); }
    forall x | x in Nodes(C) ensures SlotIn(C, x) == FirstOf(o) <==> x == FirstIn(C, o) {
      At(C, HeadOf(C, x), IndexOf(C[HeadOf(C, x)], x));
    }
  }

  lemma ClearedAs(C: Chains, o: HHead)
    requires WellFormed(C) && o in C
    requires forall h :: h in C ==> h.first == if h == o then null else FirstIn(C, h)
    requires forall x :: x in Nodes(C) ==> x.next == NextIn(C, x)
    requires forall x :: x in Nodes(C) && SlotIn(C, x) != FirstOf(o) ==> x.pprev == SlotIn(C, x)
    ensures Represents(C[o := []])
  {
    var E := C[o := []];
    ClearedKeeps(C, o);
    forall x | x in Nodes(E) ensures SlotIn(E, x) != FirstOf(o) { FirstSlot(E, o); }
  }

  /** E is C without target's old nodes. */
  lemma HandedOver(C: Chains, E: Chains, o: HHead, t: HHead)
    requires WellFormed(C) && o in C && t in C && o != t && E.Keys == C.Keys && E[t] == [] && WellFormed(E)
    requires Nodes(E) <= Nodes(C) && forall h :: h in C && h != t ==> E[h] == C[h]
    requires forall x :: x in Nodes(E) ==> NextIn(E, x) == NextIn(C, x) && SlotIn(E, x) == SlotIn(C, x)
    requires Rehung(E, E[t := E[o]][o := []], o, t)
    requires forall h :: h in C ==> h.first == if h == o then null else FirstIn(C, if h == t then o else h)
    requires forall x :: x in Nodes(C) ==> x.next == NextIn(C, x)
    requires forall x :: x in Nodes(C) ==> x.pprev == if SlotIn(C, x) == FirstOf(o) then FirstOf(t) else SlotIn(C, x)
    ensures Represents(E[t := E[o]][o := []])
  {
    RehungAs(E, E[t := E[o]][o := []], o, t);
  }

  /** The pointers after target took over source's first node are those of the chains without target's old nodes. */
  lemma Handed(C: Chains, o: HHead, t: HHead)
    requires WellFormed(C) && o in C && t in C
    requires forall h :: h in C ==> h.first == if h == o then null else FirstIn(C, if h == t then o else h)
    requires forall x :: x in Nodes(C) ==> x.next == NextIn(C, x)
    requires forall x :: x in Nodes(C) ==> x.pprev == if SlotIn(C, x) == FirstOf(o) then FirstOf(t) else SlotIn(C, x)
    ensures Represents(C[t := C[o]][o := []])
  {
    if o == t {
      ClearedAs(C, o);
      assert C[t := C[o]][o := []] == C[o := []];
    } else {
      var E := C[t := []];
      ClearedKeeps(C, t);
      MoveListKeeps(E, o, t);
      ClearedFirst(C, o, t);
      HandedOver(C, E, o, t);
    }
  }

  /** The writes of hlist_move_list alone. */
  method TieList(source: HHead, target: HHead)
    modifies source, target, Target(source.first)`pprev
    ensures source.first == null && (source != target ==> target.first == old(source.first))
    ensures old(source.first) != null ==> old(source.first).pprev == FirstOf(target)
  {
    target.first := source.first;
    if target.first != null {
      target.first.pprev := FirstOf(target);
    }
    source.first := null;
  }

  /** Whether every old node's slot still holds it once target has taken over source's chain. */
  lemma SlotsAfterMove(C: Chains, o: HHead, t: HHead)
    requires WellFormed(C) && o in C && t in C && Represents(C[t := C[o]][o := []])
    requires forall x :: x in Nodes(C) ==> x.pprev == if SlotIn(C, x) == FirstOf(o) then FirstOf(t) else SlotIn(C, x)
    ensures (forall x :: x in Nodes(C) ==> Deref(x.pprev) == x) <==> C[t] == []
  {
    var D := C[t := C[o]][o := []];
    if C[t] == [] {
      HandedNodes(C, o, t);
      forall x | x in Nodes(C) ensures Deref(x.pprev) == x { SlotHolds(D, x); }
    } else {
      At(C, t, 0);
      var x := C[t][0];
      assert t in D && t.first == FirstIn(D, t);
      if o != t && C[o] != [] { At(C, o, 0); }
      assert Deref(x.pprev) != x;
    }
  }

  /**
   The whole chain of source moves to target.  Entries that target still had are on no chain any more and keep naming a
   slot that no longer holds them, so every linked node's slot keeps holding it exactly when target was empty.
   */
  method HlistMoveList(source: HHead, target: HHead, ghost C: Chains)
    requires Represents(C) && Legal(MoveList(source, target), C)
    modifies source, target, Target(source.first)`pprev
    ensures Represents(Apply(MoveList(source, target), C))
    ensures source.first == null && (source != target ==> target.first == old(source.first))
    ensures old(source.first) != null ==> old(source.first).pprev == FirstOf(target)
    ensures (forall x :: x in Nodes(C) ==> Deref(x.pprev) == x) <==> C[target] == []
  {
    FirstSlot(C, source);
    TieList(source, target);
    Handed(C, source, target);
    SlotsAfterMove(C, source, target);
  }
}
