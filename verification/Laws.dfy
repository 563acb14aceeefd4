/** What the operations mean on the lists they name, and which of them undo each other. */
module Laws {
  import opened Seqs
  import opened Forest
  import opened Links

  // ---------- Operations at a position, read as sequence equations ----------

  /** Unlinking an entry removes it from its own list and leaves every other list alone. */
  lemma DetachAt<T>(G: Rings<T>, h: T, k: nat)
    requires WellFormed(G) && h in G && 0 < k < |G[h]|
    ensures Unlinkable(G, G[h][k]) && Detach(G, G[h][k]) == G[h := G[h][..k] + G[h][k + 1..]]
  {
    var e := G[h][k];
    At(G, h, k);
    HeadsAreNodes(G);
    forall g | g in G ensures g != e && (g != h ==> Without(G[g], e) == G[g]) {
      assert e in G[g] ==> g == h;
    }
  }

  /** Inserting after the k-th node of a cycle; k == 0 is the head, so this prepends. */
  lemma InsertAfterAt<T>(G: Rings<T>, h: T, k: nat, xs: seq<T>)
    requires WellFormed(G) && h in G && k < |G[h]|
    ensures G[h][k] in Nodes(G)
    ensures LinkAfter(G, G[h][k], xs) == G[h := G[h][..k + 1] + xs + G[h][k + 1..]]
  {
    At(G, h, k);
    forall g | g in G && g != h ensures G[h][k] !in G[g] { }
  }

  /** Inserting before the k-th node of a cycle; before the head means behind the last entry. */
  lemma InsertBeforeAt<T>(G: Rings<T>, h: T, k: nat, xs: seq<T>)
    requires WellFormed(G) && h in G && k < |G[h]|
    ensures G[h][k] in Nodes(G)
    ensures LinkBefore(G, G[h][k], xs) == G[h := if k == 0 then G[h] + xs else G[h][..k] + xs + G[h][k..]]
  {
    At(G, h, k);
    forall g | g in G && g != h ensures G[h][k] !in G[g] { }
  }

  /** A node on no list becomes an empty list; every other list stays as it was. */
  lemma InitMeaning<T>(G: Rings<T>, n: T)
    requires WellFormed(G) && Loose(G, n)
    ensures Legal(Init(n), G) && Apply(Init(n), G) == G[n := [n]]
  {
    DetachLoose(G, n);
  }

  /** An added entry stands right behind or right before the k-th node; a list it headed before is no list any more. */
  lemma AddAtMeaning<T>(G: Rings<T>, n: T, h: T, k: nat)
    requires WellFormed(G) && Loose(G, n) && h in G && k < |G[h]| && n != G[h][k]
    ensures var c, p := G[h], G[h][k];
      && Legal(Add(n, p), G) && Legal(AddTail(n, p), G)
      && Apply(Add(n, p), G) == (G - {n})[h := c[..k + 1] + [n] + c[k + 1..]]
      && Apply(AddTail(n, p), G) == (G - {n})[h := if k == 0 then c + [n] else c[..k] + [n] + c[k..]]
  {
    At(G, h, k);
    HeadsAreNodes(G);
    DetachLoose(G, n);
    DetachKeeps(G, n);
    assert n != h;
    InsertAfterAt(G - {n}, h, k, [n]);
    InsertBeforeAt(G - {n}, h, k, [n]);
  }

  /** Deleting an entry drops it from its own list alone; deleted and initialised it is an empty list. */
  lemma DelMeaning<T>(G: Rings<T>, h: T, k: nat)
    requires WellFormed(G) && h in G && 0 < k < |G[h]|
    ensures var c, e := G[h], G[h][k];
      && Legal(Del(e), G) && Apply(Del(e), G) == G[h := c[..k] + c[k + 1..]]
      && Legal(DelInit(e), G) && Apply(DelInit(e), G) == G[h := c[..k] + c[k + 1..]][e := [e]]
  {
    DetachAt(G, h, k);
  }

  /** The head of an empty list can be deleted too: it is a list no more, or still an empty one. */
  lemma DelEmptyMeaning<T>(G: Rings<T>, h: T)
    requires WellFormed(G) && h in G && G[h] == [h]
    ensures Legal(Del(h), G) && Apply(Del(h), G) == G - {h}
    ensures Legal(DelInit(h), G) && Apply(DelInit(h), G) == G
  {
    HeadsAreNodes(G);
    DetachLoose(G, h);
  }

  /** Adding at a head prepends the entry, adding before a head appends it; every other list stays as it was. */
  lemma AddMeaning<T>(G: Rings<T>, n: T, h: T)
    requires WellFormed(G) && Loose(G, n) && h in G && n != h
    ensures Legal(Add(n, h), G) && Legal(AddTail(n, h), G)
    ensures Apply(Add(n, h), G) == (G - {n})[h := [h, n] + Entries(G[h])]
    ensures Apply(AddTail(n, h), G) == (G - {n})[h := G[h] + [n]]
  {
    HeadsAreNodes(G);
    DetachLoose(G, n);
    DetachKeeps(G, n);
    var D := Detach(G, n);
    assert D[h] == G[h];
    InsertAfterAt(D, h, 0, [n]);
    InsertBeforeAt(D, h, 0, [n]);
    assert D[h][..1] + [n] + D[h][1..] == [h, n] + Entries(G[h]);
  }

  lemma DetachLoose<T>(G: Rings<T>, n: T)
    requires WellFormed(G) && Loose(G, n)
    ensures Detach(G, n) == G - {n}
  {
    HeadsAreNodes(G);
    forall g | g in G && g != n ensures Without(G[g], n) == G[g] {
      assert n in G[g] ==> n in Nodes(G);
    }
  }

  /** Where the k-th node stands once the j-th is gone, from the same list or not. */
  ghost function Shifted(j: nat, k: nat, same: bool): int {
    if same && j < k then k - 1 else k
  }

  /** What is left when the j-th node of g is taken out. */
  ghost function Dropped<T>(G: Rings<T>, g: T, j: nat): Rings<T>
    requires g in G && j < |G[g]|
  {
    G[g := G[g][..j] + G[g][j + 1..]]
  }

  lemma MovePoint<T>(G: Rings<T>, g: T, j: nat, h: T, k: nat)
    requires WellFormed(G) && g in G && h in G && 0 < j < |G[g]| && k < |G[h]| && (g == h ==> j != k)
    ensures var e, p, D, i := G[g][j], G[h][k], Dropped(G, g, j), Shifted(j, k, g == h);
      && Legal(Move(e, p), G) && Legal(MoveTail(e, p), G)
      && Detach(G, e) == D && WellFormed(D) && 0 <= i < |D[h]| && D[h][i] == p && (i == 0 <==> k == 0)
  {
    DetachAt(G, g, j);
    DetachKeeps(G, G[g][j]);
    At(G, g, j);
    At(G, h, k);
  }

  /** A moved entry leaves its list and stands right behind the k-th node of h's, the same list or another. */
  lemma MoveMeaning<T>(G: Rings<T>, g: T, j: nat, h: T, k: nat)
    requires WellFormed(G) && g in G && h in G && 0 < j < |G[g]| && k < |G[h]| && (g == h ==> j != k)
    ensures var e, D, i := G[g][j], G[g := G[g][..j] + G[g][j + 1..]], Shifted(j, k, g == h);
      && Legal(Move(e, G[h][k]), G) && 0 <= i < |D[h]| && D[h][i] == G[h][k]
      && Apply(Move(e, G[h][k]), G) == D[h := D[h][..i + 1] + [e] + D[h][i + 1..]]
  {
    MovePoint(G, g, j, h, k);
    InsertAfterAt(Dropped(G, g, j), h, Shifted(j, k, g == h), [G[g][j]]);
  }

  /** Moving the head of an empty list is adding it. */
  lemma MoveLone<T>(G: Rings<T>, e: T, p: T)
    requires WellFormed(G) && e in G && G[e] == [e] && p in Nodes(G) && p != e
    ensures Legal(Move(e, p), G) && Legal(Add(e, p), G) && Apply(Move(e, p), G) == Apply(Add(e, p), G)
    ensures Legal(MoveTail(e, p), G) && Legal(AddTail(e, p), G) && Apply(MoveTail(e, p), G) == Apply(AddTail(e, p), G)
  {
    HeadsAreNodes(G);
  }

  /** The same right before the k-th node; before the head means behind the last entry. */
  lemma MoveTailMeaning<T>(G: Rings<T>, g: T, j: nat, h: T, k: nat)
    requires WellFormed(G) && g in G && h in G && 0 < j < |G[g]| && k < |G[h]| && (g == h ==> j != k)
    ensures var e, D, i := G[g][j], G[g := G[g][..j] + G[g][j + 1..]], Shifted(j, k, g == h);
      && Legal(MoveTail(e, G[h][k]), G) && 0 <= i < |D[h]| && D[h][i] == G[h][k]
      && Apply(MoveTail(e, G[h][k]), G) == D[h := if k == 0 then D[h] + [e] else D[h][..i] + [e] + D[h][i..]]
  {
    MovePoint(G, g, j, h, k);
    InsertBeforeAt(Dropped(G, g, j), h, Shifted(j, k, g == h), [G[g][j]]);
  }

  /**
   The replacement stands exactly where the old node stood; replacing a head hands over its whole list.  A replacement
   that headed an empty list no longer does.  The old node is on no list, or an empty list if it is reinitialised.
   */
  lemma ReplaceMeaning<T>(G: Rings<T>, h: T, k: nat, n: T)
    requires WellFormed(G) && h in G && k < |G[h]| && Loose(G, n) && n != G[h][k]
    ensures Legal(Replace(G[h][k], n), G)
    ensures var c, D := G[h], G - {n};
      Apply(Replace(c[k], n), G) == if k == 0 then (D - {h})[n := c[0 := n]] else D[h := c[k := n]]
    ensures Legal(ReplaceInit(G[h][k], n), G)
    ensures Apply(ReplaceInit(G[h][k], n), G) == Apply(Replace(G[h][k], n), G)[G[h][k] := [G[h][k]]]
  {
    At(G, h, k);
    HeadsAreNodes(G);
    DetachLoose(G, n);
    DetachKeeps(G, n);
    assert n != h;
    RenameAt(G - {n}, h, k, n);
  }

  lemma RenameAt<T>(D: Rings<T>, h: T, k: nat, n: T)
    requires WellFormed(D) && h in D && k < |D[h]| && n !in Nodes(D)
    ensures var c := D[h];
      Rename(D, c[k], n) == if k == 0 then (D - {h})[n := c[0 := n]] else D[h := c[k := n]]
  {
    var o := D[h][k];
    HeadsAreNodes(D);
    At(D, h, k);
    assert o in D <==> k == 0 by { if o in D { assert HeadOf(D, o) == o == h; } }
    forall g | g in D && g != h ensures Subst(D[g], o, n) == D[g] { assert o !in D[g]; }
  }

  /**
   The splices insert all entries of l, in order, right after or right before the k-th node of h's cycle.  A spliced l
   that had entries is no list any more unless it is reinitialised.
   */
  lemma SpliceMeaning<T>(G: Rings<T>, l: T, h: T, k: nat)
    requires WellFormed(G) && l in G && h in G && l != h && k < |G[h]|
    ensures Legal(Splice(l, G[h][k]), G) && Legal(SpliceInit(l, G[h][k]), G)
    ensures var H := G[h := G[h][..k + 1] + Entries(G[l]) + G[h][k + 1..]];
      && Apply(Splice(l, G[h][k]), G) == (if G[l] == [l] then H else H - {l})
      && Apply(SpliceInit(l, G[h][k]), G) == H[l := [l]]
  {
    SplicePoint(G, l, h, k);
    if G[l] == [l] {
      assert G[h] == G[h][..k + 1] + Entries(G[l]) + G[h][k + 1..];
    } else {
      InsertAfterAt(G - {l}, h, k, Entries(G[l]));
    }
  }

  lemma SpliceTailMeaning<T>(G: Rings<T>, l: T, h: T, k: nat)
    requires WellFormed(G) && l in G && h in G && l != h && k < |G[h]|
    ensures Legal(SpliceTail(l, G[h][k]), G) && Legal(SpliceTailInit(l, G[h][k]), G)
    ensures var c, xs := G[h], Entries(G[l]);
      var H := G[h := if k == 0 then c + xs else c[..k] + xs + c[k..]];
      && Apply(SpliceTail(l, c[k]), G) == (if G[l] == [l] then H else H - {l})
      && Apply(SpliceTailInit(l, c[k]), G) == H[l := [l]]
  {
    SplicePoint(G, l, h, k);
    if G[l] == [l] {
      assert G[h] == if k == 0 then G[h] + Entries(G[l]) else G[h][..k] + Entries(G[l]) + G[h][k..];
    } else {
      InsertBeforeAt(G - {l}, h, k, Entries(G[l]));
    }
  }

  lemma SplicePoint<T>(G: Rings<T>, l: T, h: T, k: nat)
    requires WellFormed(G) && l in G && h in G && l != h && k < |G[h]|
    ensures G[h][k] in Nodes(G) && G[h][k] !in G[l] && WellFormed(G - {l}) && (G[l] == [l] <==> |G[l]| == 1)
  {
    At(G, h, k);
    DropLinks(G, l, G[h][k]);
  }

  // ---------- Inverses ----------

  /** Cutting a list into an empty one and splicing it back restores both, for every cut point. */
  lemma CutThenSplice<T>(G: Rings<T>, l: T, h: T, e: T)
    requires WellFormed(G) && l in G && G[l] == [l] && Legal(Cut(l, h, e), G)
    ensures Legal(SpliceInit(l, h), Apply(Cut(l, h, e), G))
    ensures Apply(SpliceInit(l, h), Apply(Cut(l, h, e), G)) == G
  {
    ApplyKeeps(Cut(l, h, e), G);
    CutMeaning(G, l, h, e);
    SplitThenSplice(G, l, h, if e in G[h] then IndexOf(G[h], e) else 0);
  }

  lemma Rejoin<T>(c: seq<T>, l: T, k: nat)
    requires k < |c|
    ensures var a, b := [c[0]] + c[k + 1..], [l] + c[1..k + 1]; a[..1] + Entries(b) + a[1..] == c
  {
    var a, b := [c[0]] + c[k + 1..], [l] + c[1..k + 1];
    assert a[..1] == [c[0]] && a[1..] == c[k + 1..] && Entries(b) == c[1..k + 1];
    assert c == [c[0]] + c[1..k + 1] + c[k + 1..];
  }

  lemma SplitThenSplice<T>(G: Rings<T>, l: T, h: T, k: nat)
    requires WellFormed(G) && l in G && G[l] == [l] && h in G && l != h && k < |G[h]|
    requires WellFormed(SplitAt(G, l, h, k))
    ensures var H := SplitAt(G, l, h, k);
      Legal(SpliceInit(l, h), H) && Apply(SpliceInit(l, h), H) == G
  {
    SpliceMeaning(SplitAt(G, l, h, k), l, h, 0);
    Rejoin(G[h], l, k);
  }

  /**
   A cut at e splits h's cycle behind e, whether l was an empty list or unknown; at the head itself nothing moves.  An
   empty list, and a single entry that is not e, are left alone, and then so is l.
   */
  lemma CutAnyMeaning<T>(G: Rings<T>, l: T, h: T, e: T)
    requires WellFormed(G) && Loose(G, l) && h in G && h != l && (|G[h]| <= 2 || e in G[h])
    ensures Legal(Cut(l, h, e), G)
    ensures |G[h]| <= 1 || e !in G[h] ==> Apply(Cut(l, h, e), G) == G
    ensures |G[h]| > 1 && e in G[h] ==>
      var c, k := G[h], IndexOf(G[h], e);
      Apply(Cut(l, h, e), G) == G[h := [h] + c[k + 1..]][l := [l] + c[1..k + 1]]
  {
    DetachLoose(G, l);
    if |G[h]| > 1 && e in G[h] { SplitWithout(G, l, h, IndexOf(G[h], e), e); }
  }

  lemma SplitWithout<T>(G: Rings<T>, l: T, h: T, k: nat, e: T)
    requires WellFormed(G) && Loose(G, l) && h in G && h != l && |G[h]| > 1 && k < |G[h]| && e == G[h][k]
    ensures (G - {l})[h := [h] + G[h][k + 1..]][l := [l] + G[h][1..k + 1]] == SplitAt(G, l, h, k)
    ensures e == h ==> k == 0 && (G - {l})[l := [l]] == SplitAt(G, l, h, k)
  {
    IndexUnique(G[h], 0);
    IndexUnique(G[h], k);
    SplitAtHead(G, l, h);
  }

  lemma SplitAtHead<T>(G: Rings<T>, l: T, h: T)
    requires h in G && G[h] != [] && G[h][0] == h && l != h
    ensures SplitAt(G, l, h, 0) == G[l := [l]]
  {
    assert [h] + G[h][1..] == G[h] && [l] + G[h][1..1] == [l];
  }

  /** With an empty l, a cut at e splits h's cycle behind e; at the head itself nothing moves. */
  lemma CutMeaning<T>(G: Rings<T>, l: T, h: T, e: T)
    requires WellFormed(G) && l in G && G[l] == [l] && Legal(Cut(l, h, e), G)
    ensures G[h] != [] && G[h][0] == h
    ensures var c, k := G[h], if e in G[h] then IndexOf(G[h], e) else 0;
      Apply(Cut(l, h, e), G) == G[h := [h] + c[k + 1..]][l := [l] + c[1..k + 1]]
  {
    CutAnyMeaning(G, l, h, e);
    SplitAtHead(G, l, h);
    if e in G[h] && |G[h]| == 1 { assert IndexOf(G[h], e) == 0; }
  }

  /** Putting an unlinked node back behind the neighbour it still names restores every list. */
  lemma RelinkRestores<T>(G: Rings<T>, e: T)
    requires WellFormed(G) && Unlinkable(G, e)
    ensures var D, p := Detach(G, e), PrevIn(G, e);
      && WellFormed(D) && e !in Nodes(D) && Attach(D, p, e) == G
      && if p == e then NextIn(G, e) == e else p in Nodes(D) && NextIn(D, p) == NextIn(G, e)
  {
    DetachKeeps(G, e);
    if e in G {
      At(G, e, 0);
      DetachLoose(G, e);
    } else {
      var h := HeadOf(G, e);
      var k := IndexOf(G[h], e);
      assert k != 0;
      NextPrev(G, e);
      At(G, h, k);
      At(G, h, k - 1);
      DetachLinks(G, e, PrevIn(G, e));
      RelinkAt(G, h, k);
    }
  }

  lemma RelinkAt<T>(G: Rings<T>, h: T, k: nat)
    requires WellFormed(G) && h in G && 0 < k < |G[h]|
    ensures LinkAfter(Detach(G, G[h][k]), G[h][k - 1], [G[h][k]]) == G
  {
    var c, x := G[h], G[h][k];
    DetachAt(G, h, k);
    DetachKeeps(G, x);
    ReinsertAt(Detach(G, x), h, k, c[..k], c[k + 1..], x);
    assert c[..k] + [x] + c[k + 1..] == c;
    assert Detach(G, x)[h := c] == G;
  }

  lemma ReinsertAt<T>(D: Rings<T>, h: T, k: nat, a: seq<T>, b: seq<T>, x: T)
    requires WellFormed(D) && h in D && D[h] == a + b && |a| == k > 0
    ensures LinkAfter(D, a[k - 1], [x]) == D[h := a + [x] + b]
  {
    InsertAfterAt(D, h, k - 1, [x]);
    assert D[h][k - 1] == a[k - 1] && D[h][..k] == a && D[h][k..] == b;
  }

  /** Taking a lone head away again undoes making it one. */
  lemma LoneHead<T>(R: Rings<T>, o: T)
    requires WellFormed(R) && o !in Nodes(R)
    ensures WellFormed(R[o := [o]]) && Loose(R[o := [o]], o) && Detach(R[o := [o]], o) == R
  {
    HeadsAreNodes(R);
    FreshHeadKeeps(R, o);
    DetachLoose(R[o := [o]], o);
  }

  /** Replacing o by n and then n by o restores the lists, also when o heads a list. */
  lemma ReplaceTwice<T>(G: Rings<T>, o: T, n: T)
    requires WellFormed(G) && o in Nodes(G) && n in G && G[n] == [n] && o != n
    ensures var H := Apply(ReplaceInit(o, n), G); Legal(ReplaceInit(n, o), H) && Apply(ReplaceInit(n, o), H) == G
  {
    var D := Detach(G, n);
    DetachKeeps(G, n);
    RenameKeeps(D, o, n);
    LoneHead(Rename(D, o, n), o);
    RenameBack(D, o, n);
    DetachLoose(G, n);
  }

  lemma RenameBack<T>(D: Rings<T>, o: T, n: T)
    requires WellFormed(D) && o in Nodes(D) && n !in Nodes(D)
    ensures Rename(Rename(D, o, n), n, o) == D
  {
    HeadsAreNodes(D);
    forall g | g in D ensures Subst(Subst(D[g], o, n), n, o) == D[g] {
      assert n in D[g] ==> n in Nodes(D);
      SubstLaw(D[g], o, n);
      if o in D[g] {
        var i := IndexOf(D[g], o);
        IndexUnique(D[g][i := n], i);
      }
    }
  }

  // ---------- Rotation ----------

  ghost function Repeat<T>(op: Op<T>, k: nat): seq<Op<T>> {
    if k == 0 then [] else [op] + Repeat(op, k - 1)
  }

  ghost function Spin<T>(s: seq<T>, j: nat): seq<T>
    requires j <= |s|
  {
    s[j..] + s[..j]
  }

  lemma MulAtLeast(d: int, n: nat)
    requires d >= 1
    ensures d * n >= n
  {
  }

  lemma RemainderUnique(n: nat, p: int, t: nat, q: int, r: nat)
    requires t < n && r < n && p * n + t == q * n + r
    ensures t == r
  {
    assert (p - q) * n == r - t;
    assert (q - p) * n == t - r;
    if p > q { MulAtLeast(p - q, n); } else if q > p { MulAtLeast(q - p, n); }
  }

  lemma ModUnique(n: nat, q: nat, r: nat)
    requires r < n
    ensures (q * n + r) % n == r
  {
    var k := q * n + r;
    RemainderUnique(n, k / n, k % n, q, r);
  }

  lemma ModStep(k: nat, n: nat)
    requires k > 0 && n > 0
    ensures var m := (k - 1) % n; k % n == if m + 1 < n then m + 1 else 0
  {
    var q, m := (k - 1) / n, (k - 1) % n;
    assert k - 1 == q * n + m;
    if m + 1 < n { ModUnique(n, q, m + 1); } else { ModUnique(n, q + 1, 0); }
  }

  /** s turned left by k places. */
  ghost function Turned<T>(s: seq<T>, k: nat): (r: seq<T>)
    ensures |r| == |s|
  {
    if s == [] then [] else Spin(s, k % |s|)
  }

  lemma TurnedOnce<T>(s: seq<T>, k: nat)
    requires k > 0
    ensures Turned(Turned(s, 1), k - 1) == Turned(s, k)
  {
    if s != [] {
      ModStep(1, |s|);
      ModStep(k, |s|);
      SpinOnce(s, (k - 1) % |s|);
      SpinOnce(s, 0);
      if |s| == 1 { assert Spin(s, 0) == s == Spin(s, 1); }
    }
  }

  lemma SpinOnce<T>(s: seq<T>, m: nat)
    requires m < |s|
    ensures Spin(Spin(s, 1), m) == Spin(s, if m + 1 < |s| then m + 1 else 0)
  {
  }

  lemma RotatedTurns<T>(h: T, s: seq<T>)
    ensures Rotated([h] + s) == [h] + Turned(s, 1)
  {
    if s != [] {
      ModStep(1, |s|);
      if |s| == 1 {
        assert Turned(s, 1) == Spin(s, 0) == s;
      } else {
        assert Turned(s, 1) == s[1..] + [s[0]];
        assert ([h] + s)[2..] == s[1..];
      }
    }
  }

  lemma RotateTurns<T>(G: Rings<T>, h: T)
    requires WellFormed(G) && h in G
    ensures Apply(RotateLeft(h), G) == TurnedAt(G, h, 1)
  {
    RotatedTurns(h, Entries(G[h]));
    assert G[h] == [h] + Entries(G[h]);
  }

  /** h's list turned left by k places. */
  ghost function TurnedAt<T>(G: Rings<T>, h: T, k: nat): Rings<T>
    requires h in G
  {
    G[h := [h] + Turned(Entries(G[h]), k)]
  }

  lemma TurnedAtStart<T>(G: Rings<T>, h: T)
    requires WellFormed(G) && h in G
    ensures TurnedAt(G, h, 0) == G
  {
    var s := Entries(G[h]);
    assert G[h] == [h] + s;
    if s != [] { assert Spin(s, 0) == s; }
  }

  lemma TurnedAtStep<T>(G: Rings<T>, h: T, k: nat)
    requires h in G && k > 0
    ensures TurnedAt(TurnedAt(G, h, 1), h, k - 1) == TurnedAt(G, h, k)
  {
    var s := Entries(G[h]);
    TurnedOnce(s, k);
    assert Entries([h] + Turned(s, 1)) == Turned(s, 1);
  }

  lemma RunFirst<T>(op: Op<T>, G: Rings<T>, k: nat)
    requires k > 0 && Legal(op, G) && LegalRun(Repeat(op, k - 1), Apply(op, G))
    ensures LegalRun(Repeat(op, k), G) && Run(Repeat(op, k), G) == Run(Repeat(op, k - 1), Apply(op, G))
  {
    assert Repeat(op, k)[1..] == Repeat(op, k - 1);
  }

  lemma {:induction false} RotateRepeatedly<T>(G: Rings<T>, h: T, k: nat)
    requires WellFormed(G) && h in G
    ensures LegalRun(Repeat(RotateLeft(h), k), G)
    ensures Run(Repeat(RotateLeft(h), k), G) == TurnedAt(G, h, k)
    decreases k
  {
    if k == 0 {
      TurnedAtStart(G, h);
    } else {
      ApplyKeeps(RotateLeft(h), G);
      RotateTurns(G, h);
      RotateRepeatedly(TurnedAt(G, h, 1), h, k - 1);
      RunFirst(RotateLeft(h), G, k);
      TurnedAtStep(G, h, k);
    }
  }

  /** k rotations turn a list of n entries by k mod n places, and leave an empty one alone. */
  lemma RotateTimes<T>(G: Rings<T>, h: T, k: nat)
    requires WellFormed(G) && h in G
    ensures LegalRun(Repeat(RotateLeft(h), k), G)
    ensures var s := Entries(G[h]);
      Run(Repeat(RotateLeft(h), k), G) == if s == [] then G else G[h := [h] + (s[k % |s|..] + s[..k % |s|])]
  {
    RotateRepeatedly(G, h, k);
    TurnedAtStart(G, h);
  }

  /** As many rotations as there are entries change nothing. */
  lemma RotateFullTurn<T>(G: Rings<T>, h: T)
    requires WellFormed(G) && h in G
    ensures var k := |Entries(G[h])|; LegalRun(Repeat(RotateLeft(h), k), G) && Run(Repeat(RotateLeft(h), k), G) == G
  {
    var s := Entries(G[h]);
    RotateRepeatedly(G, h, |s|);
    TurnedAtStart(G, h);
    if s != [] { ModUnique(|s|, 1, 0); }
  }
}
