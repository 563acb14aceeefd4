/**
 The links a heap of lists prescribes: every node's successor and predecessor on its cycle, and how each
 transformer of module Forest changes them.  At most two links outside the moved nodes ever change.
 */
module Links {
  import opened Seqs
  import opened Forest

  ghost function Succ<T>(c: seq<T>, i: nat): T
    requires i < |c|
  {
    if i + 1 < |c| then c[i + 1] else c[0]
  }

  ghost function Pred<T>(c: seq<T>, i: nat): T
    requires i < |c|
  {
    if i == 0 then c[|c| - 1] else c[i - 1]
  }

  ghost function NextIn<T>(G: Rings<T>, x: T): T
    requires x in Nodes(G)
  {
    var c := G[HeadOf(G, x)];
    Succ(c, IndexOf(c, x))
  }

  ghost function PrevIn<T>(G: Rings<T>, x: T): T
    requires x in Nodes(G)
  {
    var c := G[HeadOf(G, x)];
    Pred(c, IndexOf(c, x))
  }

  lemma At<T>(G: Rings<T>, h: T, i: nat)
    requires WellFormed(G) && h in G && i < |G[h]|
    ensures G[h][i] in Nodes(G) && HeadOf(G, G[h][i]) == h && IndexOf(G[h], G[h][i]) == i
    ensures NextIn(G, G[h][i]) == Succ(G[h], i) && PrevIn(G, G[h][i]) == Pred(G[h], i)
  {
    assert G[h][i] in G[h];
    IndexUnique(G[h], i);
  }

  /** Going forward and back again ends where it began, and both neighbours are on the same cycle. */
  lemma NextPrev<T>(G: Rings<T>, x: T)
    requires WellFormed(G) && x in Nodes(G)
    ensures NextIn(G, x) in Nodes(G) && PrevIn(G, NextIn(G, x)) == x
    ensures PrevIn(G, x) in Nodes(G) && NextIn(G, PrevIn(G, x)) == x
    ensures HeadOf(G, NextIn(G, x)) == HeadOf(G, x) == HeadOf(G, PrevIn(G, x))
  {
    var h := HeadOf(G, x);
    var i, n := IndexOf(G[h], x), |G[h]|;
    At(G, h, i);
    At(G, h, if i + 1 < n then i + 1 else 0);
    At(G, h, if i == 0 then n - 1 else i - 1);
  }

  lemma SeqWithout<T>(c: seq<T>, k: nat, j: nat)
    requires Distinct(c) && k < |c| && j < |c| && j != k
    ensures var d, i := c[..k] + c[k + 1..], if j < k then j else j - 1;
      && d[i] == c[j]
      && Succ(d, i) == (if c[j] == Pred(c, k) then Succ(c, k) else Succ(c, j))
      && Pred(d, i) == (if c[j] == Succ(c, k) then Pred(c, k) else Pred(c, j))
  {
  }

  /** Removing e bridges the gap it leaves and touches no other link. */
  lemma DetachLinks<T>(G: Rings<T>, e: T, x: T)
    requires WellFormed(G) && Unlinkable(G, e) && x in Nodes(G) && x != e
    ensures WellFormed(Detach(G, e)) && x in Nodes(Detach(G, e))
    ensures NextIn(Detach(G, e), x) == if x == PrevIn(G, e) then NextIn(G, e) else NextIn(G, x)
    ensures PrevIn(Detach(G, e), x) == if x == NextIn(G, e) then PrevIn(G, e) else PrevIn(G, x)
  {
    var D := Detach(G, e);
    DetachKeeps(G, e);
    NextPrev(G, e);
    var h := HeadOf(G, x);
    var j := IndexOf(G[h], x);
    assert h != e;
    if e in G[h] {
      var k := IndexOf(G[h], e);
      SeqWithout(G[h], k, j);
      At(D, h, if j < k then j else j - 1);
    } else {
      assert D[h] == G[h];
      At(D, h, j);
    }
  }

  lemma SeqPutAfter<T>(c: seq<T>, k: nat, xs: seq<T>, j: nat)
    requires Distinct(c) && k < |c| && j < |c| && xs != []
    ensures var d, i := c[..k + 1] + xs + c[k + 1..], if j <= k then j else j + |xs|;
      && d[i] == c[j]
      && Succ(d, i) == (if j == k then xs[0] else Succ(c, j))
      && Pred(d, i) == (if c[j] == Succ(c, k) then xs[|xs| - 1] else Pred(c, j))
  {
  }

  lemma SeqPutMiddle<T>(c: seq<T>, k: nat, xs: seq<T>, m: nat)
    requires k < |c| && m < |xs|
    ensures var d, i := c[..k + 1] + xs + c[k + 1..], k + 1 + m;
      && d[i] == xs[m]
      && Succ(d, i) == (if m + 1 < |xs| then xs[m + 1] else Succ(c, k))
      && Pred(d, i) == (if m == 0 then c[k] else xs[m - 1])
  {
  }

  lemma LinkAfterReady<T>(G: Rings<T>, h: T, k: nat, xs: seq<T>)
    requires WellFormed(G) && h in G && k < |G[h]|
    requires Distinct(xs) && forall y :: y in xs ==> y !in Nodes(G)
    ensures var c, H := G[h], LinkAfter(G, G[h][k], xs); WellFormed(H) && H[h] == c[..k + 1] + xs + c[k + 1..]
  {
    assert G[h][k] in Nodes(G) by { At(G, h, k); }
    LinkAfterKeeps(G, G[h][k], xs);
    PutAfterAt(G[h], k, xs);
  }

  lemma LinkAfterSame<T>(G: Rings<T>, h: T, k: nat, xs: seq<T>, j: nat)
    requires WellFormed(G) && h in G && k < |G[h]| && j < |G[h]|
    requires xs != [] && Distinct(xs) && forall y :: y in xs ==> y !in Nodes(G)
    ensures var c, H := G[h], LinkAfter(G, G[h][k], xs);
      && WellFormed(H) && c[j] in Nodes(H)
      && NextIn(H, c[j]) == (if j == k then xs[0] else Succ(c, j))
      && PrevIn(H, c[j]) == (if c[j] == Succ(c, k) then xs[|xs| - 1] else Pred(c, j))
  {
    LinkAfterReady(G, h, k, xs);
    SeqPutAfter(G[h], k, xs, j);
    At(LinkAfter(G, G[h][k], xs), h, if j <= k then j else j + |xs|);
  }

  /** Chaining xs in after p redirects one forward and one backward link of the old nodes. */
  lemma LinkAfterOld<T>(G: Rings<T>, p: T, xs: seq<T>, x: T)
    requires WellFormed(G) && p in Nodes(G) && x in Nodes(G)
    requires xs != [] && Distinct(xs) && forall y :: y in xs ==> y !in Nodes(G)
    ensures var H := LinkAfter(G, p, xs);
      && WellFormed(H) && x in Nodes(H)
      && NextIn(H, x) == (if x == p then xs[0] else NextIn(G, x))
      && PrevIn(H, x) == (if x == NextIn(G, p) then xs[|xs| - 1] else PrevIn(G, x))
  {
    NextPrev(G, p);
    var h := HeadOf(G, x);
    var j := IndexOf(G[h], x);
    if p in G[h] {
      var k := IndexOf(G[h], p);
      LinkAfterSame(G, h, k, xs, j);
      At(G, h, k);
    } else {
      LinkAfterKeeps(G, p, xs);
      assert LinkAfter(G, p, xs)[h] == G[h];
      At(LinkAfter(G, p, xs), h, j);
    }
  }

  lemma ChainedAt<T>(H: Rings<T>, h: T, c: seq<T>, k: nat, xs: seq<T>, m: nat)
    requires WellFormed(H) && h in H && k < |c| && m < |xs| && H[h] == c[..k + 1] + xs + c[k + 1..]
    ensures xs[m] in Nodes(H)
    ensures NextIn(H, xs[m]) == if m + 1 < |xs| then xs[m + 1] else Succ(c, k)
    ensures PrevIn(H, xs[m]) == if m == 0 then c[k] else xs[m - 1]
  {
    SeqPutMiddle(c, k, xs, m);
    At(H, h, k + 1 + m);
  }

  lemma LinkAfterNew<T>(G: Rings<T>, p: T, xs: seq<T>, m: nat)
    requires WellFormed(G) && p in Nodes(G) && m < |xs|
    requires Distinct(xs) && forall y :: y in xs ==> y !in Nodes(G)
    ensures var H := LinkAfter(G, p, xs);
      && WellFormed(H) && xs[m] in Nodes(H)
      && NextIn(H, xs[m]) == (if m + 1 < |xs| then xs[m + 1] else NextIn(G, p))
      && PrevIn(H, xs[m]) == (if m == 0 then p else xs[m - 1])
  {
    LinkAfterKeeps(G, p, xs);
    var h := HeadOf(G, p);
    ChainedAt(LinkAfter(G, p, xs), h, G[h], IndexOf(G[h], p), xs, m);
  }

  /** H is G with n chained in after p, said through the links alone. */
  ghost predicate Chained<T>(G: Rings<T>, H: Rings<T>, p: T, n: T)
    requires WellFormed(G) && p in Nodes(G)
  {
    && WellFormed(H) && Nodes(H) == Nodes(G) + {n}
    && (forall x :: x in Nodes(H) ==> NextIn(H, x) == if x == p then n else NextIn(G, if x == n then p else x))
    && forall x :: x in Nodes(H) ==>
         PrevIn(H, x) == if x == n then p else if x == NextIn(G, p) then n else PrevIn(G, x)
  }

  lemma LinkOne<T>(G: Rings<T>, p: T, n: T)
    requires WellFormed(G) && p in Nodes(G) && n !in Nodes(G)
    ensures Chained(G, LinkAfter(G, p, [n]), p, n)
  {
    LinkAfterKeeps(G, p, [n]);
    forall x | x in Nodes(G) + {n}
      ensures var H := LinkAfter(G, p, [n]);
          && NextIn(H, x) == (if x == p then n else NextIn(G, if x == n then p else x))
          && PrevIn(H, x) == (if x == n then p else if x == NextIn(G, p) then n else PrevIn(G, x))
    {
      if x == n { LinkAfterNew(G, p, [n], 0); } else { LinkAfterOld(G, p, [n], x); }
    }
  }

  /** Before p is after p's predecessor, also when p is the head. */
  lemma BeforeIsAfterPrev<T>(G: Rings<T>, p: T, xs: seq<T>)
    requires WellFormed(G) && p in Nodes(G)
    ensures LinkBefore(G, p, xs) == LinkAfter(G, PrevIn(G, p), xs)
  {
    var q := PrevIn(G, p);
    NextPrev(G, p);
    forall h | h in G ensures PutBefore(G[h], p, xs) == PutAfter(G[h], q, xs) {
      var c := G[h];
      if p in c {
        var i := IndexOf(c, p);
        var j := if i == 0 then |c| - 1 else i - 1;
        At(G, h, i);
        At(G, h, j);
        assert c[j] == q;
        if i == 0 { assert c[..j + 1] == c && c[j + 1..] == []; }
      } else {
        assert q !in c;
      }
    }
  }

  /** The head of a new empty list points at itself. */
  lemma FreshHeadLinks<T>(G: Rings<T>, n: T, x: T)
    requires WellFormed(G) && n !in Nodes(G) && (x in Nodes(G) || x == n)
    ensures var H := G[n := [n]];
      && WellFormed(H) && x in Nodes(H)
      && NextIn(H, x) == (if x == n then n else NextIn(G, x))
      && PrevIn(H, x) == (if x == n then n else PrevIn(G, x))
  {
    var H := G[n := [n]];
    FreshHeadKeeps(G, n);
    if x == n { At(H, n, 0); } else {
      var h := HeadOf(G, x);
      HeadsAreNodes(G);
      At(H, h, IndexOf(G[h], x));
    }
  }

  lemma SeqSubst<T>(c: seq<T>, k: nat, n: T, i: nat)
    requires Distinct(c) && k < |c| && i < |c|
    ensures var d := c[k := n];
      && d[i] == (if i == k then n else c[i])
      && Succ(d, i) == (if Succ(c, i) == c[k] then n else Succ(c, i))
      && Pred(d, i) == (if Pred(c, i) == c[k] then n else Pred(c, i))
  {
  }

  /** Substituting n for o redirects the links that met o, or closes a self-loop on n. */
  lemma RenameLinks<T>(G: Rings<T>, o: T, n: T, x: T)
    requires WellFormed(G) && o in Nodes(G) && n !in Nodes(G) && ((x in Nodes(G) && x != o) || x == n)
    ensures var H, y := Rename(G, o, n), if x == n then o else x;
      && WellFormed(H) && x in Nodes(H)
      && NextIn(H, x) == (if NextIn(G, y) == o then n else NextIn(G, y))
      && PrevIn(H, x) == (if PrevIn(G, y) == o then n else PrevIn(G, y))
  {
    var H, y := Rename(G, o, n), if x == n then o else x;
    RenameKeeps(G, o, n);
    assert n !in G by { HeadsAreNodes(G); }
    var h := HeadOf(G, y);
    var i := IndexOf(G[h], y);
    if o in G[h] {
      SeqSubst(G[h], IndexOf(G[h], o), n, i);
      At(H, if h == o then n else h, i);
    } else {
      assert G[h][0] in G[h];
      assert H[h] == G[h];
      assert Succ(G[h], i) in G[h] && Pred(G[h], i) in G[h];
      At(H, h, i);
    }
  }

  /** Forgetting a whole list changes no link of the others. */
  lemma DropLinks<T>(G: Rings<T>, l: T, x: T)
    requires WellFormed(G) && l in G && x in Nodes(G) && x !in G[l]
    ensures WellFormed(G - {l}) && x in Nodes(G - {l})
    ensures NextIn(G - {l}, x) == NextIn(G, x) && PrevIn(G - {l}, x) == PrevIn(G, x)
  {
    var D := G - {l};
    forall h, y | h in D && y in D[h] ensures HeadOf(D, y) == h { assert y in G[HeadOf(D, y)] && y in G[h]; }
    var h := HeadOf(G, x);
    At(D, h, IndexOf(G[h], x));
  }

  lemma SeqSplit<T>(c: seq<T>, k: nat, l: T, j: nat)
    requires Distinct(c) && 0 < k < |c| && l !in c && j < |c|
    ensures var a, b := [c[0]] + c[k + 1..], [l] + c[1..k + 1];
      var d, i := if 0 < j <= k then b else a, if j <= k then j else j - k;
      && i < |d| && d[i] == c[j]
      && Succ(d, i) == (if j == 0 then Succ(c, k) else if j == k then l else Succ(c, j))
      && Pred(d, i) == (if c[j] == Succ(c, k) then c[0] else if j == 1 then l else Pred(c, j))
      && Succ(b, 0) == c[1] && Pred(b, 0) == c[k]
  {
    var a, b := [c[0]] + c[k + 1..], [l] + c[1..k + 1];
    assert forall i :: 0 < i < |a| ==> a[i] == c[k + i];
    assert forall i :: 0 < i < |b| ==> b[i] == c[i];
    assert c[j] == Succ(c, k) <==> j == if k + 1 < |c| then k + 1 else 0;
  }

  lemma SplitReady<T>(D: Rings<T>, l: T, h: T, k: nat)
    requires WellFormed(D) && h in D && l !in Nodes(D) && 0 < k < |D[h]|
    ensures l !in D[h] && l !in D && WellFormed(SplitAt(D, l, h, k))
    ensures D[h][k] in Nodes(D) && h in Nodes(D) && D[h][0] == h && D[h][k] != h
    ensures NextIn(D, h) == D[h][1] && NextIn(D, D[h][k]) == Succ(D[h], k)
  {
    HeadsAreNodes(D);
    assert forall y :: y in D[h] ==> y in Nodes(D);
    SplitKeeps(D, l, h, k);
    At(D, h, k);
    At(D, h, 0);
  }

  lemma SplitNewHead<T>(D: Rings<T>, l: T, h: T, k: nat)
    requires WellFormed(D) && h in D && l !in Nodes(D) && 0 < k < |D[h]|
    ensures var H := SplitAt(D, l, h, k);
      WellFormed(H) && l in Nodes(H) && NextIn(H, l) == D[h][1] && PrevIn(H, l) == D[h][k]
  {
    SplitReady(D, l, h, k);
    SeqSplit(D[h], k, l, 0);
    At(SplitAt(D, l, h, k), l, 0);
  }

  lemma SplitEntry<T>(D: Rings<T>, l: T, h: T, k: nat, j: nat)
    requires WellFormed(D) && h in D && l !in Nodes(D) && 0 < k < |D[h]| && j < |D[h]|
    ensures var c, H := D[h], SplitAt(D, l, h, k);
      && WellFormed(H) && c[j] in Nodes(H)
      && NextIn(H, c[j]) == (if j == 0 then Succ(c, k) else if j == k then l else Succ(c, j))
      && PrevIn(H, c[j]) == (if c[j] == Succ(c, k) then h else if j == 1 then l else Pred(c, j))
  {
    SplitReady(D, l, h, k);
    SeqSplit(D[h], k, l, j);
    At(SplitAt(D, l, h, k), if 0 < j <= k then l else h, if j <= k then j else j - k);
  }

  lemma SplitOther<T>(D: Rings<T>, l: T, h: T, k: nat, x: T)
    requires WellFormed(D) && h in D && l !in Nodes(D) && 0 < k < |D[h]| && x in Nodes(D) && x !in D[h]
    ensures var H := SplitAt(D, l, h, k);
      && WellFormed(H) && x in Nodes(H)
      && NextIn(H, x) == NextIn(D, x) && PrevIn(H, x) == PrevIn(D, x)
      && x != D[h][k] && x != h && x != D[h][1] && x != Succ(D[h], k)
  {
    SplitReady(D, l, h, k);
    var g := HeadOf(D, x);
    assert SplitAt(D, l, h, k)[g] == D[g];
    At(SplitAt(D, l, h, k), g, IndexOf(D[g], x));
  }

  /** Cutting h's list behind its k-th node redirects exactly three links each way. */
  lemma SplitLinks<T>(D: Rings<T>, l: T, h: T, k: nat, x: T)
    requires WellFormed(D) && h in D && l !in Nodes(D) && 0 < k < |D[h]| && (x in Nodes(D) || x == l)
    ensures var e, H := D[h][k], SplitAt(D, l, h, k);
      && WellFormed(H) && x in Nodes(H) && e in Nodes(D) && h in Nodes(D)
      && NextIn(H, x) == (if x == l then NextIn(D, h) else if x == h then NextIn(D, e) else if x == e then l
                          else NextIn(D, x))
      && PrevIn(H, x) == (if x == l then e else if x == NextIn(D, e) then h else if x == NextIn(D, h) then l
                          else PrevIn(D, x))
  {
    SplitReady(D, l, h, k);
    if x == l {
      SplitNewHead(D, l, h, k);
    } else if x in D[h] {
      var j := IndexOf(D[h], x);
      SplitEntry(D, l, h, k, j);
      At(D, h, j);
    } else {
      SplitOther(D, l, h, k, x);
    }
  }

  /** Rotating left is moving the first entry to the tail. */
  lemma RotateIsMoveTail<T>(G: Rings<T>, h: T)
    requires WellFormed(G) && h in G && |G[h]| > 1
    ensures Legal(MoveTail(G[h][1], h), G)
    ensures NextIn(G, h) == G[h][1]
    ensures Apply(RotateLeft(h), G) == Apply(MoveTail(G[h][1], h), G)
  {
    var c, e := G[h], G[h][1];
    At(G, h, 0);
    At(G, h, 1);
    assert e !in G by { HeadsAreNodes(G); }
    var D := Detach(G, e);
    assert D[h] == [h] + c[2..];
    DetachKeeps(G, e);
    At(D, h, 0);
    assert PutBefore(D[h], h, [e]) == Rotated(c);
    forall g | g in G && g != h ensures PutBefore(Without(G[g], e), h, [e]) == G[g] {
      assert e !in G[g] && h !in G[g];
    }
  }

  /** H is G with n standing in o's place. */
  ghost predicate Renamed<T>(G: Rings<T>, H: Rings<T>, o: T, n: T)
    requires WellFormed(G) && o in Nodes(G)
  {
    && WellFormed(H) && Nodes(H) == Nodes(G) - {o} + {n}
    && (forall x :: x in Nodes(H) ==>
          var y := NextIn(G, if x in Nodes(G) then x else o); NextIn(H, x) == if y == o then n else y)
    && forall x :: x in Nodes(H) ==>
         var y := PrevIn(G, if x in Nodes(G) then x else o); PrevIn(H, x) == if y == o then n else y
  }

  lemma RenameRelinks<T>(G: Rings<T>, o: T, n: T)
    requires WellFormed(G) && o in Nodes(G) && n !in Nodes(G)
    ensures Renamed(G, Rename(G, o, n), o, n)
  {
    var H := Rename(G, o, n);
    RenameKeeps(G, o, n);
    forall x | x in Nodes(H)
      ensures var y := if x in Nodes(G) then x else o;
        && NextIn(H, x) == (if NextIn(G, y) == o then n else NextIn(G, y))
        && PrevIn(H, x) == (if PrevIn(G, y) == o then n else PrevIn(G, y))
    { RenameLinks(G, o, n, x); }
  }

  /** H is D with the part of h's list up to e moved behind the new head l. */
  ghost predicate CutOff<T>(D: Rings<T>, H: Rings<T>, l: T, h: T, e: T)
    requires WellFormed(D) && h in Nodes(D) && e in Nodes(D)
  {
    && WellFormed(H) && Nodes(H) == Nodes(D) + {l}
    && (forall x :: x in Nodes(H) ==>
          NextIn(H, x) == if x == e then l else NextIn(D, if x == l then h else if x == h then e else x))
    && forall x :: x in Nodes(H) ==>
         PrevIn(H, x) == if x == l then e else if x == NextIn(D, e) then h else if x == NextIn(D, h) then l
                         else PrevIn(D, x)
  }

  lemma SplitRelinks<T>(D: Rings<T>, l: T, h: T, k: nat)
    requires WellFormed(D) && h in D && l !in Nodes(D) && 0 < k < |D[h]|
    ensures h in Nodes(D) && D[h][k] in Nodes(D) && CutOff(D, SplitAt(D, l, h, k), l, h, D[h][k])
  {
    var e, H := D[h][k], SplitAt(D, l, h, k);
    SplitKeeps(D, l, h, k);
    SplitReady(D, l, h, k);
    forall x | x in Nodes(H)
      ensures NextIn(H, x) == if x == e then l else NextIn(D, if x == l then h else if x == h then e else x)
      ensures PrevIn(H, x) == if x == l then e else if x == NextIn(D, e) then h else if x == NextIn(D, h) then l
                              else PrevIn(D, x)
    { SplitLinks(D, l, h, k, x); }
  }

  /** H is G with the entries of l chained in after p and l itself left out. */
  ghost predicate Spliced<T>(G: Rings<T>, H: Rings<T>, l: T, p: T)
    requires WellFormed(G) && p in Nodes(G) && l in Nodes(G)
  {
    && WellFormed(H) && Nodes(H) == Nodes(G) - {l}
    && (forall x :: x in Nodes(H) ==>
          NextIn(H, x) == NextIn(G, if x == p then l else if x == PrevIn(G, l) then p else x))
    && forall x :: x in Nodes(H) ==>
         PrevIn(H, x) == if x == NextIn(G, l) then p else PrevIn(G, if x == NextIn(G, p) then l else x)
  }

  lemma SpliceRelinks<T>(G: Rings<T>, l: T, p: T)
    requires WellFormed(G) && l in G && |G[l]| > 1 && p in Nodes(G) && p !in G[l]
    ensures l in Nodes(G) && Spliced(G, LinkAfter(G - {l}, p, Entries(G[l])), l, p)
  {
    var H := LinkAfter(G - {l}, p, Entries(G[l]));
    SpliceKeeps(G, l, p);
    SpliceParts(G, l, p);
    NextPrev(G, p);
    NextPrev(G, l);
    forall x | x in Nodes(H)
      ensures NextIn(H, x) == NextIn(G, if x == p then l else if x == PrevIn(G, l) then p else x)
      ensures PrevIn(H, x) == if x == NextIn(G, l) then p else PrevIn(G, if x == NextIn(G, p) then l else x)
    {
      if x in G[l] { SplicedEntry(G, l, p, IndexOf(G[l], x)); } else { SplicedOther(G, l, p, x); }
    }
  }

  lemma SpliceParts<T>(G: Rings<T>, l: T, p: T)
    requires WellFormed(G) && l in G && |G[l]| > 1 && p in Nodes(G) && p !in G[l]
    ensures var D, xs := G - {l}, Entries(G[l]);
      && WellFormed(D) && p in Nodes(D) && NextIn(D, p) == NextIn(G, p) && Distinct(xs)
      && (forall y :: y in xs ==> y !in Nodes(D))
    ensures l in Nodes(G) && NextIn(G, l) == G[l][1] && PrevIn(G, l) == G[l][|G[l]| - 1]
  {
    var D, xs := G - {l}, Entries(G[l]);
    assert G[l] == [l] + xs;
    DistinctConcat([l], xs);
    At(G, l, 0);
    DropLinks(G, l, p);
    assert forall y :: y in xs ==> y in G[l];
    forall y | y in Nodes(D) ensures y !in G[l] { assert y in G[HeadOf(D, y)]; }
  }

  lemma SplicedEntry<T>(G: Rings<T>, l: T, p: T, i: nat)
    requires WellFormed(G) && l in G && 0 < i < |G[l]| && p in Nodes(G) && p !in G[l]
    ensures l in Nodes(G) && G[l][i] in Nodes(G)
    ensures var H, x := LinkAfter(G - {l}, p, Entries(G[l])), G[l][i];
      && x in Nodes(H)
      && NextIn(H, x) == NextIn(G, if x == PrevIn(G, l) then p else x)
      && PrevIn(H, x) == if x == NextIn(G, l) then p else PrevIn(G, x)
  {
    SpliceParts(G, l, p);
    At(G, l, i);
    LinkAfterNew(G - {l}, p, Entries(G[l]), i - 1);
    IndexUnique(G[l], 1);
    IndexUnique(G[l], |G[l]| - 1);
  }

  lemma SplicedOther<T>(G: Rings<T>, l: T, p: T, x: T)
    requires WellFormed(G) && l in G && |G[l]| > 1 && p in Nodes(G) && p !in G[l] && x in Nodes(G) && x !in G[l]
    ensures l in Nodes(G)
    ensures var H := LinkAfter(G - {l}, p, Entries(G[l]));
      && x in Nodes(H)
      && NextIn(H, x) == NextIn(G, if x == p then l else x)
      && PrevIn(H, x) == PrevIn(G, if x == NextIn(G, p) then l else x)
  {
    SpliceParts(G, l, p);
    DropLinks(G, l, x);
    LinkAfterOld(G - {l}, p, Entries(G[l]), x);
  }
}
