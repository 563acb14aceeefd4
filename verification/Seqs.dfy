/** Sequence vocabulary shared by the models: distinctness, positions and edits at a named element. */
module Seqs {

  ghost predicate Distinct<T>(s: seq<T>) {
    forall i, j :: 0 <= i < j < |s| ==> s[i] != s[j]
  }

  ghost predicate Apart<T>(s: seq<T>, t: seq<T>) {
    forall x :: x in s ==> x !in t
  }

  ghost function Elements<T>(s: seq<T>): set<T> {
    set x | x in s
  }

  ghost function IndexOf<T>(s: seq<T>, x: T): (i: nat)
    requires x in s
    ensures i < |s| && s[i] == x
  {
    var i: nat :| i < |s| && s[i] == x;
    i
  }

  /** s without the element e. */
  ghost function Without<T>(s: seq<T>, e: T): seq<T> {
    if e in s then var i := IndexOf(s, e); s[..i] + s[i + 1..] else s
  }

  /** s with xs inserted right after the element p. */
  ghost function PutAfter<T>(s: seq<T>, p: T, xs: seq<T>): seq<T> {
    if p in s then var i := IndexOf(s, p); s[..i + 1] + xs + s[i + 1..] else s
  }

  /** The cycle s with xs inserted right before p; before the first element means at the end. */
  ghost function PutBefore<T>(s: seq<T>, p: T, xs: seq<T>): seq<T> {
    if p !in s then s
    else var i := IndexOf(s, p);
      if i == 0 then s + xs else s[..i] + xs + s[i..]
  }

  /** s with the element e replaced by n. */
  ghost function Subst<T>(s: seq<T>, e: T, n: T): seq<T> {
    if e in s then s[IndexOf(s, e) := n] else s
  }

  lemma Snoc<T>(s: seq<T>, i: nat)
    requires i < |s|
    ensures s[..i + 1] == s[..i] + [s[i]]
  {
  }

  lemma IndexUnique<T>(s: seq<T>, i: nat)
    requires Distinct(s) && i < |s|
    ensures s[i] in s && IndexOf(s, s[i]) == i
  {
    var j := IndexOf(s, s[i]);
    assert s[j] == s[i];
  }

  lemma WithoutLaw<T>(s: seq<T>, e: T)
    requires Distinct(s)
    ensures Distinct(Without(s, e)) && e !in Without(s, e)
    ensures forall x :: x in Without(s, e) <==> x in s && x != e
  {
    if e in s {
      var i := IndexOf(s, e);
      assert s == s[..i] + [e] + s[i + 1..];
    }
  }

  lemma DistinctConcat<T>(a: seq<T>, b: seq<T>)
    ensures Distinct(a + b) <==> Distinct(a) && Distinct(b) && Apart(a, b)
  {
    var s := a + b;
    assert forall i :: 0 <= i < |a| ==> s[i] == a[i];
    assert forall i :: 0 <= i < |b| ==> s[|a| + i] == b[i];
    if Distinct(s) {
      forall i, j | 0 <= i < j < |a| ensures a[i] != a[j] { assert s[i] != s[j]; }
      forall i, j | 0 <= i < j < |b| ensures b[i] != b[j] { assert s[|a| + i] != s[|a| + j]; }
      forall i, j | 0 <= i < |a| && 0 <= j < |b| ensures a[i] != b[j] { assert s[i] != s[|a| + j]; }
    } else if Apart(a, b) {
      forall i, j | 0 <= i < |a| && 0 <= j < |b| ensures a[i] != b[j] { assert a[i] in a; }
    }
  }

  lemma DistinctInsert<T>(a: seq<T>, xs: seq<T>, b: seq<T>)
    requires Distinct(a + b) && Distinct(xs) && Apart(xs, a + b)
    ensures Distinct(a + xs + b)
    ensures forall x :: x in a + xs + b <==> x in a + b || x in xs
  {
    DistinctConcat(a, b);
    DistinctConcat(a, xs);
    DistinctConcat(a + xs, b);
  }

  lemma PutAfterAt<T>(s: seq<T>, k: nat, xs: seq<T>)
    requires Distinct(s) && k < |s|
    ensures PutAfter(s, s[k], xs) == s[..k + 1] + xs + s[k + 1..]
  {
    IndexUnique(s, k);
  }

  lemma PutAfterLaw<T>(s: seq<T>, p: T, xs: seq<T>)
    requires Distinct(s) && Distinct(xs) && Apart(xs, s)
    ensures Distinct(PutAfter(s, p, xs))
    ensures forall x :: x in PutAfter(s, p, xs) <==> x in s || (p in s && x in xs)
    ensures s != [] ==> PutAfter(s, p, xs) != [] && PutAfter(s, p, xs)[0] == s[0]
  {
    if p in s {
      var i := IndexOf(s, p);
      assert s == s[..i + 1] + s[i + 1..];
      DistinctInsert(s[..i + 1], xs, s[i + 1..]);
    }
  }

  lemma PutLastLaw<T>(s: seq<T>, xs: seq<T>)
    requires Distinct(s) && Distinct(xs) && Apart(xs, s)
    ensures Distinct(s + xs) && forall x :: x in s + xs <==> x in s || x in xs
  {
    DistinctConcat(s, xs);
  }

  lemma PutBeforeLaw<T>(s: seq<T>, p: T, xs: seq<T>)
    requires Distinct(s) && Distinct(xs) && Apart(xs, s)
    ensures Distinct(PutBefore(s, p, xs))
    ensures forall x :: x in PutBefore(s, p, xs) <==> x in s || (p in s && x in xs)
    ensures s != [] ==> PutBefore(s, p, xs) != [] && PutBefore(s, p, xs)[0] == s[0]
  {
    if p in s {
      var i := IndexOf(s, p);
      if i == 0 {
        PutLastLaw(s, xs);
      } else {
        assert s == s[..i] + s[i..];
        DistinctInsert(s[..i], xs, s[i..]);
      }
    }
  }

  lemma SubstLaw<T>(s: seq<T>, e: T, n: T)
    requires Distinct(s) && n !in s
    ensures Distinct(Subst(s, e, n))
    ensures e in s ==> forall x :: x in Subst(s, e, n) <==> (x in s && x != e) || x == n
  {
    if e in s {
      var i := IndexOf(s, e);
      forall x ensures x in Subst(s, e, n) <==> (x in s && x != e) || x == n {
        if x in s && x != e { var j := IndexOf(s, x); assert Subst(s, e, n)[j] == x; }
        if x == n { assert Subst(s, e, n)[i] == x; }
      }
    }
  }

  /** Cutting a cycle after position k: the entries up to k go behind l, the others stay behind the head. */
  lemma SplitLaw<T>(c: seq<T>, k: nat, l: T)
    requires Distinct(c) && 0 < k < |c| && l !in c
    ensures var a, b := [c[0]] + c[k + 1..], [l] + c[1..k + 1];
      && Distinct(a) && Distinct(b) && Apart(a, b)
      && forall x :: x in a || x in b <==> x in c || x == l
  {
    var h, m, t := [c[0]], c[1..k + 1], c[k + 1..];
    assert c == h + m + t;
    DistinctConcat(h + m, t);
    DistinctConcat(h, m);
    DistinctConcat(h, t);
    DistinctConcat([l], m);
  }

  ghost function Reverse<T>(s: seq<T>): (r: seq<T>)
    ensures |r| == |s|
  {
    if s == [] then [] else [s[|s| - 1]] + Reverse(s[..|s| - 1])
  }

  function Not<T>(p: T -> bool): T -> bool {
    x => !p(x)
  }

  /** The elements of s that satisfy p, in order. */
  ghost function Select<T>(s: seq<T>, p: T -> bool): seq<T> {
    if s == [] then []
    else Select(s[..|s| - 1], p) + if p(s[|s| - 1]) then [s[|s| - 1]] else []
  }

  lemma SelectSnoc<T>(s: seq<T>, k: nat, p: T -> bool)
    requires 1 <= k < |s|
    ensures Select(s[1..k + 1], p) == Select(s[1..k], p) + if p(s[k]) then [s[k]] else []
  {
    assert s[1..k + 1][..k - 1] == s[1..k];
  }

  lemma ReverseSnoc<T>(s: seq<T>, k: nat)
    requires 1 <= k < |s|
    ensures Reverse(s[1..k + 1]) == [s[k]] + Reverse(s[1..k])
  {
    assert s[1..k + 1][..k - 1] == s[1..k];
  }

  lemma {:induction false} SelectMembers<T>(s: seq<T>, p: T -> bool)
    ensures forall x :: x in Select(s, p) <==> x in s && p(x)
    ensures |Select(s, p)| <= |s|
  {
    if s != [] {
      SelectMembers(s[..|s| - 1], p);
      assert s == s[..|s| - 1] + [s[|s| - 1]];
    }
  }

  lemma {:induction false} ReverseAt<T>(s: seq<T>, i: nat)
    requires i < |s|
    ensures Reverse(s)[i] == s[|s| - 1 - i]
  {
    if i > 0 { ReverseAt(s[..|s| - 1], i - 1); }
  }
}
