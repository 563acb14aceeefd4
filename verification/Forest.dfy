/**
 A heap of circular lists seen abstractly: each list head is mapped to its cycle, the head followed by its
 entries in order.  Every operation of include/list.h is one map transformer; Run folds a history of them.
 */
module Forest {
  import opened Seqs

  type Rings<T> = map<T, seq<T>>

  datatype Op<T> =
    | Init(n: T)
    | Add(n: T, p: T)
    | AddTail(n: T, p: T)
    | Del(e: T)
    | DelInit(e: T)
    | Replace(o: T, n: T)
    | ReplaceInit(o: T, n: T)
    | Move(e: T, p: T)
    | MoveTail(e: T, p: T)
    | RotateLeft(h: T)
    | Cut(l: T, h: T, e: T)
    | Splice(l: T, p: T)
    | SpliceTail(l: T, p: T)
    | SpliceInit(l: T, p: T)
    | SpliceTailInit(l: T, p: T)

  /** Every cycle starts at its head and repeats no node; no node is on two cycles. */
  ghost predicate WellFormed<T>(G: Rings<T>) {
    && (forall h :: h in G ==> G[h] != [] && G[h][0] == h && Distinct(G[h]))
    && (forall h, x {:trigger x in G[h]} :: h in G && x in G[h] ==> HeadOf(G, x) == h)
  }

  ghost function Nodes<T>(G: Rings<T>): set<T> {
    set h, x | h in G && x in G[h] :: x
  }

  /** n is on no list: either unknown or the head of an empty one. */
  ghost predicate Loose<T>(G: Rings<T>, n: T) {
    (n in G && G[n] == [n]) || n !in Nodes(G)
  }

  /** e can be unlinked without leaving entries behind that have lost their head. */
  ghost predicate Unlinkable<T>(G: Rings<T>, e: T) {
    e in Nodes(G) && (e in G ==> G[e] == [e])
  }

  ghost function HeadOf<T>(G: Rings<T>, x: T): (h: T)
    requires x in Nodes(G)
    ensures h in G && x in G[h]
  {
    var h :| h in G && x in G[h];
    h
  }

  ghost function Entries<T>(c: seq<T>): seq<T> {
    if c == [] then [] else c[1..]
  }

  // ---------- Map transformers ----------

  ghost function Detach<T>(G: Rings<T>, e: T): Rings<T> {
    map h | h in G && h != e :: Without(G[h], e)
  }

  ghost function LinkAfter<T>(G: Rings<T>, p: T, xs: seq<T>): Rings<T> {
    map h | h in G :: PutAfter(G[h], p, xs)
  }

  ghost function LinkBefore<T>(G: Rings<T>, p: T, xs: seq<T>): Rings<T> {
    map h | h in G :: PutBefore(G[h], p, xs)
  }

  /** n put in behind p; behind itself it is a list of its own. */
  ghost function Attach<T>(G: Rings<T>, p: T, n: T): Rings<T> {
    if p == n then G[n := [n]] else LinkAfter(G, p, [n])
  }

  ghost function Rename<T>(G: Rings<T>, o: T, n: T): Rings<T> {
    var rest := map h | h in G && h != o :: Subst(G[h], o, n);
    if o in G then rest[n := Subst(G[o], o, n)] else rest
  }

  ghost function Rotated<T>(c: seq<T>): seq<T> {
    if |c| <= 1 then c else [c[0]] + c[2..] + [c[1]]
  }

  /** The lists after cutting h's behind its k-th node. */
  ghost function SplitAt<T>(D: Rings<T>, l: T, h: T, k: nat): Rings<T>
    requires h in D && k < |D[h]|
  {
    D[h := [h] + D[h][k + 1..]][l := [l] + D[h][1..k + 1]]
  }

  /** What each operation of include/list.h does to the heap of lists. */
  ghost function Apply<T>(op: Op<T>, G: Rings<T>): Rings<T>
    requires Legal(op, G)
  {
    match op
    case Init(n) => Detach(G, n)[n := [n]]
    case Add(n, p) => LinkAfter(Detach(G, n), p, [n])
    case AddTail(n, p) => LinkBefore(Detach(G, n), p, [n])
    case Del(e) => Detach(G, e)
    case DelInit(e) => Detach(G, e)[e := [e]]
    case Replace(o, n) => Rename(Detach(G, n), o, n)
    case ReplaceInit(o, n) => Rename(Detach(G, n), o, n)[o := [o]]
    case Move(e, p) => LinkAfter(Detach(G, e), p, [e])
    case MoveTail(e, p) => LinkBefore(Detach(G, e), p, [e])
    case RotateLeft(h) => G[h := Rotated(G[h])]
    case Cut(l, h, e) => CutAt(G, l, h, e)
    case Splice(l, p) => if G[l] == [l] then G else LinkAfter(G - {l}, p, Entries(G[l]))
    case SpliceTail(l, p) => if G[l] == [l] then G else LinkBefore(G - {l}, p, Entries(G[l]))
    case SpliceInit(l, p) => if G[l] == [l] then G else LinkAfter(G - {l}, p, Entries(G[l]))[l := [l]]
    case SpliceTailInit(l, p) => if G[l] == [l] then G else LinkBefore(G - {l}, p, Entries(G[l]))[l := [l]]
  }

  /** An empty list, or a single entry that is not e, is left alone; cutting at the head moves nothing. */
  ghost function CutAt<T>(G: Rings<T>, l: T, h: T, e: T): Rings<T>
    requires h in G && (|G[h]| <= 2 || e in G[h])
  {
    var c := G[h];
    if |c| <= 1 || e !in c then G
    else if e == h then Detach(G, l)[l := [l]]
    else
      var k := IndexOf(c, e);
      Detach(G, l)[h := [h] + c[k + 1..]][l := [l] + c[1..k + 1]]
  }

  /** The documented preconditions. */
  ghost predicate Legal<T>(op: Op<T>, G: Rings<T>) {
    match op
    case Init(n) => Loose(G, n)
    case Add(n, p) => Loose(G, n) && p in Nodes(G) && p != n
    case AddTail(n, p) => Loose(G, n) && p in Nodes(G) && p != n
    case Del(e) => Unlinkable(G, e)
    case DelInit(e) => Unlinkable(G, e)
    case Replace(o, n) => o in Nodes(G) && Loose(G, n) && o != n
    case ReplaceInit(o, n) => o in Nodes(G) && Loose(G, n) && o != n
    case Move(e, p) => Unlinkable(G, e) && p in Nodes(G) && p != e
    case MoveTail(e, p) => Unlinkable(G, e) && p in Nodes(G) && p != e
    case RotateLeft(h) => h in G
    case Cut(l, h, e) => h in G && Loose(G, l) && l != h && (|G[h]| <= 2 || e in G[h])
    case Splice(l, p) => l in G && p in Nodes(G) && p !in G[l]
    case SpliceTail(l, p) => l in G && p in Nodes(G) && p !in G[l]
    case SpliceInit(l, p) => l in G && p in Nodes(G) && p !in G[l]
    case SpliceTailInit(l, p) => l in G && p in Nodes(G) && p !in G[l]
  }

  /** The nodes an operation brings into the heap of lists. */
  ghost function Gained<T>(op: Op<T>, G: Rings<T>): set<T>
    requires Legal(op, G)
  {
    match op
    case Init(n) => {n}
    case Add(n, _) => {n}
    case AddTail(n, _) => {n}
    case Replace(_, n) => {n}
    case ReplaceInit(_, n) => {n}
    case Cut(l, h, e) => if |G[h]| > 1 && e in G[h] then {l} else {}
    case _ => {}
  }

  /** The nodes an operation leaves on no list, with stale or poisoned links. */
  ghost function Lost<T>(op: Op<T>, G: Rings<T>): set<T>
    requires Legal(op, G)
  {
    match op
    case Del(e) => {e}
    case Replace(o, _) => {o}
    case Splice(l, _) => if G[l] == [l] then {} else {l}
    case SpliceTail(l, _) => if G[l] == [l] then {} else {l}
    case _ => {}
  }

  ghost predicate LegalRun<T>(ops: seq<Op<T>>, G: Rings<T>) {
    ops == [] || (Legal(ops[0], G) && LegalRun(ops[1..], Apply(ops[0], G)))
  }

  ghost function Run<T>(ops: seq<Op<T>>, G: Rings<T>): Rings<T>
    requires LegalRun(ops, G)
  {
    if ops == [] then G else Run(ops[1..], Apply(ops[0], G))
  }

  /** A history goes on with exactly the operations that are legal where it stands. */
  lemma {:induction false} RunSnoc<T>(ops: seq<Op<T>>, op: Op<T>, G: Rings<T>)
    requires LegalRun(ops, G)
    ensures LegalRun(ops + [op], G) <==> Legal(op, Run(ops, G))
    ensures Legal(op, Run(ops, G)) ==> Run(ops + [op], G) == Apply(op, Run(ops, G))
  {
    if ops == [] {
      assert [op][1..] == [];
    } else {
      assert (ops + [op])[1..] == ops[1..] + [op];
      RunSnoc(ops[1..], op, Apply(ops[0], G));
    }
  }

  // ---------- Preservation, one transformer at a time ----------

  lemma HeadsAreNodes<T>(G: Rings<T>)
    requires WellFormed(G)
    ensures forall h :: h in G ==> h in Nodes(G) && HeadOf(G, h) == h
  {
    forall h | h in G ensures h in Nodes(G) && HeadOf(G, h) == h { assert G[h][0] in G[h]; }
  }

  lemma DetachKeeps<T>(G: Rings<T>, e: T)
    requires WellFormed(G) && (e in G ==> G[e] == [e])
    ensures WellFormed(Detach(G, e))
    ensures Nodes(Detach(G, e)) == Nodes(G) - {e}
  {
    var H := Detach(G, e);
    forall h | h in H
      ensures Distinct(H[h]) && H[h] != [] && H[h][0] == h
      ensures forall x :: x in H[h] <==> x in G[h] && x != e
    { WithoutLaw(G[h], e); }
    forall x | x in Nodes(G) && x != e ensures x in Nodes(H) {
      assert x in H[HeadOf(G, x)];
    }
    forall h, x | h in H && x in H[h] ensures HeadOf(H, x) == h {
      assert x in G[HeadOf(H, x)] && x in G[h];
    }
  }

  lemma LinkAfterKeeps<T>(G: Rings<T>, p: T, xs: seq<T>)
    requires WellFormed(G) && p in Nodes(G) && Distinct(xs) && forall x :: x in xs ==> x !in Nodes(G)
    ensures WellFormed(LinkAfter(G, p, xs))
    ensures Nodes(LinkAfter(G, p, xs)) == Nodes(G) + (set x | x in xs)
  {
    forall h | h in G
      ensures Distinct(PutAfter(G[h], p, xs)) && PutAfter(G[h], p, xs) != [] && PutAfter(G[h], p, xs)[0] == h
      ensures forall x :: x in PutAfter(G[h], p, xs) <==> x in G[h] || (p in G[h] && x in xs)
    { PutAfterLaw(G[h], p, xs); }
    LinkedNodes(G, LinkAfter(G, p, xs), p, xs);
  }

  lemma LinkBeforeKeeps<T>(G: Rings<T>, p: T, xs: seq<T>)
    requires WellFormed(G) && p in Nodes(G) && Distinct(xs) && forall x :: x in xs ==> x !in Nodes(G)
    ensures WellFormed(LinkBefore(G, p, xs))
    ensures Nodes(LinkBefore(G, p, xs)) == Nodes(G) + (set x | x in xs)
  {
    forall h | h in G
      ensures Distinct(PutBefore(G[h], p, xs)) && PutBefore(G[h], p, xs) != [] && PutBefore(G[h], p, xs)[0] == h
      ensures forall x :: x in PutBefore(G[h], p, xs) <==> x in G[h] || (p in G[h] && x in xs)
    { PutBeforeLaw(G[h], p, xs); }
    LinkedNodes(G, LinkBefore(G, p, xs), p, xs);
  }

  lemma LinkedNodes<T>(G: Rings<T>, H: Rings<T>, p: T, xs: seq<T>)
    requires WellFormed(G) && p in Nodes(G) && H.Keys == G.Keys
    requires forall h, x :: h in G ==> (x in H[h] <==> x in G[h] || (p in G[h] && x in xs))
    requires forall x :: x in xs ==> x !in Nodes(G)
    ensures Nodes(H) == Nodes(G) + (set x | x in xs)
    ensures forall h, x :: h in H && x in H[h] ==> HeadOf(H, x) == h
  {
    forall x | x in Nodes(G) || x in xs ensures x in Nodes(H) {
      assert x in H[HeadOf(G, if x in Nodes(G) then x else p)];
    }
    forall x | x in Nodes(H) ensures x in Nodes(G) || x in xs {
      var h := HeadOf(H, x);
      if x !in xs { assert x in G[h]; }
    }
    forall h, x | h in H && x in H[h] ensures HeadOf(H, x) == h {
      var k := HeadOf(H, x);
      if x in xs {
        assert x !in G[h] && x !in G[k];
        assert p in G[h] && p in G[k];
      } else { assert x in G[h] && x in G[k]; }
    }
  }

  lemma RenameKeeps<T>(G: Rings<T>, o: T, n: T)
    requires WellFormed(G) && o in Nodes(G) && n !in Nodes(G)
    ensures WellFormed(Rename(G, o, n))
    ensures Nodes(Rename(G, o, n)) == Nodes(G) - {o} + {n}
  {
    var H := Rename(G, o, n);
    forall h | h in G
      ensures Distinct(Subst(G[h], o, n)) && |Subst(G[h], o, n)| == |G[h]|
      ensures Subst(G[h], o, n)[0] == if h == o then n else h
      ensures forall x :: x in Subst(G[h], o, n) <==> (x in G[h] && x != o) || (o in G[h] && x == n)
      ensures h != n
    {
      assert forall x :: x in G[h] ==> x in Nodes(G);
      SubstLaw(G[h], o, n);
      if o in G[h] { IndexUnique(G[h], 0); }
    }
    forall x | (x in Nodes(G) && x != o) || x == n ensures x in Nodes(H) {
      var h := HeadOf(G, if x == n then o else x);
      assert x in H[if h == o then n else h];
    }
    forall x | x in Nodes(H) ensures (x in Nodes(G) && x != o) || x == n {
      var h := HeadOf(H, x);
      assert x == n || x in G[if h == n then o else h];
    }
    forall h, x | h in H && x in H[h] ensures HeadOf(H, x) == h {
      var k := HeadOf(H, x);
      var y := if x == n then o else x;
      assert y in G[if h == n then o else h] && y in G[if k == n then o else k];
    }
  }

  lemma FreshHeadKeeps<T>(G: Rings<T>, n: T)
    requires WellFormed(G) && n !in Nodes(G)
    ensures WellFormed(G[n := [n]])
    ensures Nodes(G[n := [n]]) == Nodes(G) + {n}
  {
    var H := G[n := [n]];
    assert forall h :: h in G ==> h in G[h];
    forall x | x in Nodes(G) || x == n ensures x in Nodes(H) {
      assert x in H[if x == n then n else HeadOf(G, x)];
    }
    forall x | x in Nodes(H) && x != n ensures x in Nodes(G) {
      assert x in G[HeadOf(H, x)];
    }
    forall h, x | h in H && x in H[h] ensures HeadOf(H, x) == h {
      var k := HeadOf(H, x);
      assert h != n ==> x in G[h];
      assert k != n ==> x in G[k];
    }
  }

  lemma RotatedKeeps<T>(G: Rings<T>, h: T)
    requires WellFormed(G) && h in G
    ensures WellFormed(G[h := Rotated(G[h])])
    ensures Nodes(G[h := Rotated(G[h])]) == Nodes(G)
  {
    var c, H := G[h], G[h := Rotated(G[h])];
    var r := Rotated(c);
    if |c| > 1 { assert c == [c[0]] + [c[1]] + c[2..]; }
    assert forall i :: 0 <= i < |c| ==>
      r[i] == if i == 0 || |c| == 1 then c[i] else c[if i + 1 < |c| then i + 1 else 1];
    forall x ensures x in r <==> x in c { }
    forall k, x | k in G ensures x in H[k] <==> x in G[k] { }
    forall x | x in Nodes(G) ensures x in Nodes(H) { assert x in H[HeadOf(G, x)]; }
    forall x | x in Nodes(H) ensures x in Nodes(G) { assert x in G[HeadOf(H, x)]; }
    forall k, x | k in H && x in H[k] ensures HeadOf(H, x) == k { assert x in G[HeadOf(H, x)] && x in G[k]; }
  }

  lemma CutKeeps<T>(G: Rings<T>, l: T, h: T, e: T)
    requires WellFormed(G) && Legal(Cut(l, h, e), G)
    ensures WellFormed(CutAt(G, l, h, e))
    ensures Nodes(CutAt(G, l, h, e)) == Nodes(G) + if |G[h]| > 1 && e in G[h] then {l} else {}
  {
    var c := G[h];
    if |c| > 1 && e in c {
      var D := Detach(G, l);
      assert WellFormed(D) && Nodes(D) == Nodes(G) - {l} && D[h] == c by { DetachOther(G, l, h); }
      if e == h {
        FreshHeadKeeps(D, l);
      } else {
        var k := IndexOf(c, e);
        assert k != 0;
        SplitKeeps(D, l, h, k);
      }
    }
  }

  lemma DetachOther<T>(G: Rings<T>, l: T, h: T)
    requires WellFormed(G) && Loose(G, l) && h in G && h != l
    ensures WellFormed(Detach(G, l)) && Nodes(Detach(G, l)) == Nodes(G) - {l}
    ensures l !in G[h] && Detach(G, l)[h] == G[h]
  {
    HeadsAreNodes(G);
    DetachKeeps(G, l);
    assert forall x :: x in G[h] ==> x in Nodes(G);
    assert l in G ==> l in G[l];
  }

  lemma SplitKeeps<T>(D: Rings<T>, l: T, h: T, k: nat)
    requires WellFormed(D) && h in D && l !in Nodes(D) && 0 < k < |D[h]|
    ensures var H := SplitAt(D, l, h, k);
      WellFormed(H) && Nodes(H) == Nodes(D) + {l}
  {
    var c := D[h];
    var H := SplitAt(D, l, h, k);
    assert l !in c && l !in D by { HeadsAreNodes(D); assert forall x :: x in c ==> x in Nodes(D); }
    SplitLaw(c, k, l);
    SplitNodes(D, H, l, h);
  }

  lemma SplitNodes<T>(D: Rings<T>, H: Rings<T>, l: T, h: T)
    requires WellFormed(D) && h in D && l !in Nodes(D) && l !in D && H.Keys == D.Keys + {l}
    requires forall g :: g in D && g != h ==> H[g] == D[g]
    requires Apart(H[h], H[l]) && forall x :: x in H[h] || x in H[l] <==> x in D[h] || x == l
    requires l in H[l]
    ensures Nodes(H) == Nodes(D) + {l}
    ensures forall g, x {:trigger x in H[g]} :: g in H && x in H[g] ==> HeadOf(H, x) == g
  {
    forall x | x in Nodes(D) ensures x in Nodes(H) {
      var g := HeadOf(D, x);
      if g == h { assert x in H[h] || x in H[l]; } else { assert x in H[g]; }
    }
    forall x | x in Nodes(H) && x != l ensures x in Nodes(D) {
      var g := HeadOf(H, x);
      assert x in D[if g == l then h else g];
    }
    forall f, x | f in H && x in H[f] ensures HeadOf(H, x) == f {
      var g := HeadOf(H, x);
      if x != l { assert x in D[if f == l then h else f] && x in D[if g == l then h else g]; }
    }
  }

  lemma SpliceKeeps<T>(G: Rings<T>, l: T, p: T)
    requires WellFormed(G) && l in G && p in Nodes(G) && p !in G[l]
    ensures var H := LinkAfter(G - {l}, p, Entries(G[l])); WellFormed(H) && Nodes(H) == Nodes(G) - {l}
    ensures var H := LinkBefore(G - {l}, p, Entries(G[l])); WellFormed(H) && Nodes(H) == Nodes(G) - {l}
  {
    var D, xs := G - {l}, Entries(G[l]);
    assert G[l] == [l] + xs;
    DistinctConcat([l], xs);
    forall x | x in Nodes(D) ensures x in Nodes(G) && x !in G[l] { assert x in G[HeadOf(D, x)]; }
    forall h, x | h in D && x in D[h] ensures HeadOf(D, x) == h { assert x in G[HeadOf(D, x)] && x in G[h]; }
    forall x | x in Nodes(G) && x !in G[l] ensures x in Nodes(D) { assert x in D[HeadOf(G, x)]; }
    LinkAfterKeeps(D, p, xs);
    LinkBeforeKeeps(D, p, xs);
    forall x ensures x in Nodes(G) - {l} <==> x in Nodes(D) || x in xs {
      if x in xs { assert x in G[l]; }
    }
  }

  lemma PlaceReady<T>(G: Rings<T>, n: T, p: T)
    requires WellFormed(G) && (Loose(G, n) || Unlinkable(G, n)) && p in Nodes(G) && p != n
    ensures var D := Detach(G, n);
      WellFormed(D) && p in Nodes(D) && n !in Nodes(D) && Nodes(D) + {n} == Nodes(G) + {n}
  {
    assert n in G ==> G[n] == [n] by { HeadsAreNodes(G); }
    DetachKeeps(G, n);
  }

  lemma PlaceKeeps<T>(G: Rings<T>, n: T, p: T)
    requires WellFormed(G) && (Loose(G, n) || Unlinkable(G, n)) && p in Nodes(G) && p != n
    ensures var H := LinkAfter(Detach(G, n), p, [n]); WellFormed(H) && Nodes(H) == Nodes(G) + {n}
    ensures var H := LinkBefore(Detach(G, n), p, [n]); WellFormed(H) && Nodes(H) == Nodes(G) + {n}
  {
    PlaceReady(G, n, p);
    LinkAfterKeeps(Detach(G, n), p, [n]);
    LinkBeforeKeeps(Detach(G, n), p, [n]);
  }

  lemma ReinitKeeps<T>(G: Rings<T>, n: T)
    requires WellFormed(G) && (Loose(G, n) || Unlinkable(G, n))
    ensures var H := Detach(G, n)[n := [n]]; WellFormed(H) && Nodes(H) == Nodes(G) + {n}
  {
    HeadsAreNodes(G);
    DetachKeeps(G, n);
    FreshHeadKeeps(Detach(G, n), n);
  }

  lemma ReplaceKeeps<T>(G: Rings<T>, o: T, n: T)
    requires WellFormed(G) && Loose(G, n) && o in Nodes(G) && o != n
    ensures var H := Rename(Detach(G, n), o, n); WellFormed(H) && Nodes(H) == Nodes(G) - {o} + {n}
    ensures var H := Rename(Detach(G, n), o, n)[o := [o]]; WellFormed(H) && Nodes(H) == Nodes(G) + {n}
  {
    assert n in G ==> G[n] == [n] by { HeadsAreNodes(G); }
    var D := Detach(G, n);
    DetachKeeps(G, n);
    assert o in Nodes(D) && n !in Nodes(D);
    var R := Rename(D, o, n);
    RenameKeeps(D, o, n);
    assert o !in Nodes(R);
    FreshHeadKeeps(R, o);
  }

  lemma SpliceInitKeeps<T>(G: Rings<T>, l: T, p: T)
    requires WellFormed(G) && l in G && p in Nodes(G) && p !in G[l]
    ensures var H := LinkAfter(G - {l}, p, Entries(G[l]))[l := [l]]; WellFormed(H) && Nodes(H) == Nodes(G)
    ensures var H := LinkBefore(G - {l}, p, Entries(G[l]))[l := [l]]; WellFormed(H) && Nodes(H) == Nodes(G)
  {
    HeadsAreNodes(G);
    SpliceKeeps(G, l, p);
    FreshHeadKeeps(LinkAfter(G - {l}, p, Entries(G[l])), l);
    FreshHeadKeeps(LinkBefore(G - {l}, p, Entries(G[l])), l);
  }

  ghost predicate Splicing<T>(op: Op<T>) {
    op.Splice? || op.SpliceTail? || op.SpliceInit? || op.SpliceTailInit?
  }

  /** Operations that put one node into a place. */
  ghost predicate Placing<T>(op: Op<T>) {
    op.Add? || op.AddTail? || op.Move? || op.MoveTail?
  }

  /** An operation's result is well formed and accounts for every node. */
  ghost predicate Accounted<T>(op: Op<T>, G: Rings<T>)
    requires Legal(op, G)
  {
    var H := Apply(op, G);
    WellFormed(H) && Nodes(H) == Nodes(G) - Lost(op, G) + Gained(op, G)
  }

  lemma SplicingKeeps<T>(op: Op<T>, G: Rings<T>)
    requires WellFormed(G) && Legal(op, G) && Splicing(op)
    ensures Accounted(op, G)
  {
    match op
    case Splice(l, p) => SpliceKeeps(G, l, p);
    case SpliceTail(l, p) => SpliceKeeps(G, l, p);
    case SpliceInit(l, p) => SpliceInitKeeps(G, l, p);
    case SpliceTailInit(l, p) => SpliceInitKeeps(G, l, p);
  }

  lemma SingleKeeps<T>(op: Op<T>, G: Rings<T>)
    requires WellFormed(G) && Legal(op, G) && !Splicing(op) && !Placing(op)
    ensures Accounted(op, G)
  {
    match op
    case Init(n) => ReinitKeeps(G, n);
    case Del(e) => DetachKeeps(G, e);
    case DelInit(e) => ReinitKeeps(G, e);
    case Replace(o, n) => ReplaceKeeps(G, o, n);
    case ReplaceInit(o, n) => ReplaceKeeps(G, o, n);
    case RotateLeft(h) => RotatedKeeps(G, h);
    case Cut(l, h, e) => CutKeeps(G, l, h, e);
  }

  lemma PlacingKeeps<T>(op: Op<T>, G: Rings<T>)
    requires WellFormed(G) && Legal(op, G) && Placing(op)
    ensures Accounted(op, G)
  {
    match op
    case Add(n, p) => PlaceKeeps(G, n, p);
    case AddTail(n, p) => PlaceKeeps(G, n, p);
    case Move(e, p) => PlaceKeeps(G, e, p);
    case MoveTail(e, p) => PlaceKeeps(G, e, p);
  }

  /** One operation keeps the lists well formed and pairwise disjoint, and accounts for every node. */
  lemma ApplyKeeps<T>(op: Op<T>, G: Rings<T>)
    requires WellFormed(G) && Legal(op, G)
    ensures WellFormed(Apply(op, G))
    ensures Nodes(Apply(op, G)) == Nodes(G) - Lost(op, G) + Gained(op, G)
  {
    if Splicing(op) {
      SplicingKeeps(op, G);
    } else if Placing(op) {
      PlacingKeeps(op, G);
    } else {
      SingleKeeps(op, G);
    }
  }

  lemma {:induction false} RunKeepsWellFormed<T>(ops: seq<Op<T>>, G: Rings<T>)
    requires WellFormed(G) && LegalRun(ops, G)
    ensures WellFormed(Run(ops, G))
  {
    if ops != [] {
      ApplyKeeps(ops[0], G);
      RunKeepsWellFormed(ops[1..], Apply(ops[0], G));
    }
  }

  /** Operations after which every node is still on some list. */
  ghost predicate Keeping<T>(op: Op<T>) {
    !op.Del? && !op.Replace? && !op.Splice? && !op.SpliceTail?
  }

  /** The node an operation may introduce. */
  ghost function Introduced<T>(op: Op<T>): set<T> {
    match op
    case Init(n) => {n}
    case Add(n, _) => {n}
    case AddTail(n, _) => {n}
    case Replace(_, n) => {n}
    case ReplaceInit(_, n) => {n}
    case Cut(l, _, _) => {l}
    case _ => {}
  }

  ghost function AllIntroduced<T>(ops: seq<Op<T>>): set<T> {
    if ops == [] then {} else Introduced(ops[0]) + AllIntroduced(ops[1..])
  }

  /** A history of keeping operations loses no node; with no newcomers the population is exactly the same. */
  lemma {:induction false} RunConservesNodes<T>(ops: seq<Op<T>>, G: Rings<T>)
    requires WellFormed(G) && LegalRun(ops, G)
    requires forall op :: op in ops ==> Keeping(op)
    ensures Nodes(G) <= Nodes(Run(ops, G)) <= Nodes(G) + AllIntroduced(ops)
    ensures AllIntroduced(ops) <= Nodes(G) ==> Nodes(Run(ops, G)) == Nodes(G)
  {
    if ops != [] {
      ApplyKeeps(ops[0], G);
      assert ops[0] in ops;
      assert Lost(ops[0], G) == {} && Gained(ops[0], G) <= Introduced(ops[0]);
      RunConservesNodes(ops[1..], Apply(ops[0], G));
    }
  }
}
