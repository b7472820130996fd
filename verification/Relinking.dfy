/**
 * The three relinking steps on forests: detach one node, cut off a node with all its next
 * siblings, insert a root among the children of a node. For each: the forest stays valid, and
 * exactly which links change.
 */
module Relinking {
  import opened Sequences
  import opened Forests

  /** All child sequences with x taken out of wherever it is. */
  ghost function KidsWithout<T>(f: Forest<T>, x: T): map<T, seq<T>> {
    map q | q in f.kids :: Without(f.kids[q], x)
  }

  /** x becomes a root; its former siblings close the gap. */
  ghost function Detach<T>(f: Forest<T>, x: T): Forest<T> {
    Forest(f.parent[x := None], KidsWithout(f, x))
  }

  /** Only the siblings of x notice that x is detached. */
  lemma DetachKids<T>(f: Forest<T>, x: T)
    requires f.Linked() && x in f.parent
    ensures forall q :: q in f.kids && f.parent[x] != Some(q) ==> x !in f.kids[q]
    ensures f.parent[x].None? ==> Detach(f, x) == f
    ensures f.parent[x].Some? ==>
              var p := f.parent[x].value; Detach(f, x).kids == f.kids[p := Without(f.kids[p], x)]
  {
    forall q | q in f.kids && f.parent[x] != Some(q) ensures x !in f.kids[q] {
    }
  }

  /** The parents, once every node in gone has become a root. */
  ghost function Orphaned<T>(f: Forest<T>, gone: seq<T>): map<T, Option<T>> {
    map y | y in f.parent :: if y in gone then None else f.parent[y]
  }

  /** x and every sibling after x. */
  ghost function Tail<T>(f: Forest<T>, x: T): seq<T>
    requires f.Linked() && x in f.parent
  {
    if f.parent[x].None? then [x] else f.kids[f.parent[x].value][f.Place(x)..]
  }

  /** x and every sibling after x become roots. */
  ghost function Cut<T>(f: Forest<T>, x: T): Forest<T>
    requires f.Linked() && x in f.parent
  {
    if f.parent[x].None? then f
    else
      var p := f.parent[x].value;
      Forest(Orphaned(f, Tail(f, x)), f.kids[p := f.kids[p][..f.Place(x)]])
  }

  /** The root x becomes a child of p, before reference, or last. */
  ghost function Insert<T>(f: Forest<T>, x: T, p: T, reference: Option<T>): Forest<T>
    requires p in f.kids && (reference.Some? ==> reference.value in f.kids[p])
  {
    Forest(f.parent[x := Some(p)], f.kids[p := With(f.kids[p], x, Slot(f.kids[p], reference))])
  }

  // ---------------------------------------------------------------- the forest stays linked

  lemma DetachLinked<T>(f: Forest<T>, x: T)
    requires f.Linked() && x in f.parent
    ensures Detach(f, x).Linked() && Detach(f, x).parent.Keys == f.parent.Keys
  {
    var g := Detach(f, x);
    forall p | p in f.kids ensures Distinct(g.kids[p]) && forall y :: y in g.kids[p] <==> y in f.kids[p] && y != x {
      WithoutIsDistinct(f.kids[p], x);
    }
    forall p, i | p in g.kids && 0 <= i < |g.kids[p]|
      ensures g.kids[p][i] in g.parent && g.parent[g.kids[p][i]] == Some(p)
    {
      var y := g.kids[p][i];
      assert y in g.kids[p];
      var j := IndexOf(f.kids[p], y);
      assert f.parent[f.kids[p][j]] == Some(p);
    }
  }

  lemma CutLinked<T>(f: Forest<T>, x: T)
    requires f.Linked() && x in f.parent
    ensures Cut(f, x).Linked() && Cut(f, x).parent.Keys == f.parent.Keys
  {
    if f.parent[x].Some? {
      var g, p, k := Cut(f, x), f.parent[x].value, f.Place(x);
      assert f.kids[p] == g.kids[p] + Tail(f, x);
      forall q, i | q in g.kids && 0 <= i < |g.kids[q]|
        ensures g.kids[q][i] in g.parent && g.parent[g.kids[q][i]] == Some(q)
      {
        var y := g.kids[q][i];
        assert y == f.kids[q][i] && f.parent[y] == Some(q);
        assert y !in Tail(f, x);
      }
    }
  }

  lemma InsertLinked<T>(f: Forest<T>, x: T, p: T, reference: Option<T>)
    requires f.Linked() && x in f.parent && f.parent[x].None?
    requires p in f.kids && (reference.Some? ==> reference.value in f.kids[p])
    ensures Insert(f, x, p, reference).Linked() && Insert(f, x, p, reference).parent.Keys == f.parent.Keys
  {
    var g := Insert(f, x, p, reference);
    assert x !in f.kids[p];
    WithIsDistinct(f.kids[p], x, Slot(f.kids[p], reference));
    forall q, i | q in g.kids && 0 <= i < |g.kids[q]|
      ensures g.kids[q][i] in g.parent && g.parent[g.kids[q][i]] == Some(q)
    {
      var y := g.kids[q][i];
      assert y in g.kids[q];
      if y != x || q != p {
        assert y in f.kids[q];
        var j := IndexOf(f.kids[q], y);
        assert f.parent[f.kids[q][j]] == Some(q);
      }
    }
  }

  // ---------------------------------------------------------------- the forest stays acyclic

  /** Removing edges removes no path to a root. */
  lemma FewerEdges<T>(f: Forest<T>, g: Forest<T>, y: T, n: nat)
    requires f.ReachesRoot(y, n) && f.parent.Keys <= g.parent.Keys
    requires forall x :: x in f.parent ==> g.parent[x] == f.parent[x] || g.parent[x] == None
    ensures g.ReachesRoot(y, n)
  {
    if f.parent[y].Some? && g.parent[y].Some? {
      FewerEdges(f, g, f.parent[y].value, n - 1);
    }
  }

  lemma FewerEdgesAcyclic<T>(f: Forest<T>, g: Forest<T>)
    requires f.Acyclic() && f.parent.Keys == g.parent.Keys
    requires forall x :: x in f.parent ==> g.parent[x] == f.parent[x] || g.parent[x] == None
    ensures g.Acyclic()
  {
    forall y | y in g.parent ensures g.Rooted(y) {
      assert f.Rooted(y);
      var n: nat :| f.ReachesRoot(y, n);
      FewerEdges(f, g, y, n);
    }
  }

  lemma DetachValid<T>(f: Forest<T>, x: T)
    requires f.Valid() && x in f.parent
    ensures Detach(f, x).Valid() && Detach(f, x).parent.Keys == f.parent.Keys
  {
    DetachLinked(f, x);
    FewerEdgesAcyclic(f, Detach(f, x));
  }

  lemma CutValid<T>(f: Forest<T>, x: T)
    requires f.Valid() && x in f.parent
    ensures Cut(f, x).Valid() && Cut(f, x).parent.Keys == f.parent.Keys
  {
    CutLinked(f, x);
    FewerEdgesAcyclic(f, Cut(f, x));
  }

  /** A node that does not have x on its way up keeps its way up. */
  lemma InsertElsewhere<T>(f: Forest<T>, x: T, p: T, y: T, g: Forest<T>, n: nat)
    requires f.ReachesRoot(y, n) && !AboveOrSelf(f, x, y)
    requires g.parent == f.parent[x := Some(p)]
    ensures g.ReachesRoot(y, n)
  {
    f.AncestorsStep(y);
    if f.parent[y].Some? {
      InsertElsewhere(f, x, p, f.parent[y].value, g, n - 1);
    }
  }

  lemma MoreSteps<T>(f: Forest<T>, x: T, m: nat, n: nat)
    requires f.ReachesRoot(x, m) && m <= n
    ensures f.ReachesRoot(x, n)
  {
    if f.parent[x].Some? {
      MoreSteps(f, f.parent[x].value, m - 1, n - 1);
    }
  }

  /** A node with x on its way up now continues above p. */
  lemma InsertBelow<T>(f: Forest<T>, x: T, p: T, y: T, g: Forest<T>, n: nat, m: nat)
    requires f.ReachesRoot(y, n) && f.Rooted(p) && x in f.parent && f.parent[x].None?
    requires f.ReachesRoot(p, m) && !AboveOrSelf(f, x, p)
    requires g.parent == f.parent[x := Some(p)]
    ensures g.ReachesRoot(y, n + 1 + m)
  {
    if y == x {
      InsertElsewhere(f, x, p, p, g, m);
      MoreSteps(g, p, m, n + m);
    } else if f.parent[y].Some? {
      InsertBelow(f, x, p, f.parent[y].value, g, n - 1, m);
    }
  }

  /** If p is x or below x, then after hanging x under p nothing at or below x has a root. */
  lemma InsertCycle<T>(f: Forest<T>, x: T, p: T, y: T, g: Forest<T>, n: nat)
    requires x in f.parent && f.Rooted(p) && AboveOrSelf(f, x, p)
    requires f.Rooted(y) && AboveOrSelf(f, x, y)
    requires g.parent == f.parent[x := Some(p)]
    ensures !g.ReachesRoot(y, n)
    decreases n
  {
    f.AncestorsStep(y);
    if n > 0 {
      if y == x {
        InsertCycle(f, x, p, p, g, n - 1);
      } else {
        InsertCycle(f, x, p, f.parent[y].value, g, n - 1);
      }
    }
  }

  /** Hanging the root x under p keeps the forest acyclic exactly when p is not x or below x. */
  lemma InsertAcyclicIff<T>(f: Forest<T>, x: T, p: T, reference: Option<T>)
    requires f.Valid() && x in f.parent && f.parent[x].None?
    requires p in f.kids && (reference.Some? ==> reference.value in f.kids[p])
    ensures Insert(f, x, p, reference).Acyclic() <==> !AboveOrSelf(f, x, p)
  {
    var g := Insert(f, x, p, reference);
    assert f.Rooted(p) && f.Rooted(x);
    if AboveOrSelf(f, x, p) {
      forall n: nat ensures !g.ReachesRoot(x, n) {
        InsertCycle(f, x, p, x, g, n);
      }
      assert !g.Rooted(x);
    } else {
      var m: nat :| f.ReachesRoot(p, m);
      forall y | y in g.parent ensures g.Rooted(y) {
        assert f.Rooted(y);
        var n: nat :| f.ReachesRoot(y, n);
        InsertBelow(f, x, p, y, g, n, m);
      }
    }
  }

  lemma InsertValid<T>(f: Forest<T>, x: T, p: T, reference: Option<T>)
    requires f.Valid() && x in f.parent && f.parent[x].None?
    requires p in f.kids && (reference.Some? ==> reference.value in f.kids[p])
    requires !AboveOrSelf(f, x, p)
    ensures Insert(f, x, p, reference).Valid() && Insert(f, x, p, reference).parent.Keys == f.parent.Keys
  {
    InsertLinked(f, x, p, reference);
    InsertAcyclicIff(f, x, p, reference);
  }

  // ---------------------------------------------------------------- which links change

  /** The links of the node at position i below p. */
  lemma LinksAt<T>(f: Forest<T>, p: T, i: nat)
    requires f.Linked() && p in f.kids && i < |f.kids[p]|
    ensures var n := f.kids[p][i];
      && n in f.parent && f.parent[n] == Some(p) && f.Place(n) == i
      && f.Next(n) == (if i + 1 < |f.kids[p]| then Some(f.kids[p][i + 1]) else None)
      && f.Previous(n) == (if i > 0 then Some(f.kids[p][i - 1]) else None)
  {
    IndexIsUnique(f.kids[p], i);
  }

  /** Siblings have the same parent. */
  lemma NextHasSameParent<T>(f: Forest<T>, n: T)
    requires f.Linked() && n in f.parent && f.Next(n).Some?
    ensures f.Next(n).value in f.parent && f.parent[f.Next(n).value] == f.parent[n]
  {
    LinksAt(f, f.parent[n].value, f.Place(n) + 1);
  }

  /** Only the previous sibling of x has x as its next sibling. */
  lemma OnlyPreviousPointsTo<T>(f: Forest<T>, x: T, n: T)
    requires f.Linked() && x in f.parent && n in f.parent
    ensures f.Next(n) == Some(x) <==> f.Previous(x) == Some(n)
  {
    if f.Next(n) == Some(x) {
      NextHasSameParent(f, n);
      LinksAt(f, f.parent[n].value, f.Place(n) + 1);
    } else if f.Previous(x) == Some(n) {
      LinksAt(f, f.parent[x].value, f.Place(x) - 1);
    }
  }

  /** Only the parent of x can have x as its first child, and it does when x has no previous sibling. */
  lemma OnlyParentPointsTo<T>(f: Forest<T>, x: T, n: T)
    requires f.Linked() && x in f.parent && n in f.parent
    ensures f.First(n) == Some(x) <==> f.parent[x] == Some(n) && f.Previous(x) == None
  {
    if f.kids[n] != [] { LinksAt(f, n, 0); }
  }

  lemma DetachFirst<T>(f: Forest<T>, x: T, n: T)
    requires f.Linked() && x in f.parent && n in f.parent && f.parent[x].Some?
    ensures Detach(f, x).First(n) == if f.First(n) == Some(x) then f.Next(x) else f.First(n)
  {
    DetachKids(f, x);
    if f.kids[n] != [] { LinksAt(f, n, 0); }
  }

  lemma DetachNext<T>(f: Forest<T>, x: T, n: T)
    requires f.Linked() && x in f.parent && n in f.parent && Detach(f, x).Linked() && f.parent[x].Some?
    ensures Detach(f, x).Next(n) ==
              if n == x then None else if f.Next(n) == Some(x) then f.Next(x) else f.Next(n)
  {
    DetachKids(f, x);
    var p := f.parent[x].value;
    if n != x && f.parent[n] == Some(p) {
      AfterWithout(f.kids[p], x, n);
    } else if f.Next(n).Some? {
      NextHasSameParent(f, n);
    }
  }

  lemma CutFirst<T>(f: Forest<T>, x: T, n: T)
    requires f.Linked() && x in f.parent && n in f.parent && f.parent[x].Some?
    ensures Cut(f, x).First(n) == if f.First(n) == Some(x) then None else f.First(n)
  {
    if f.kids[n] != [] { LinksAt(f, n, 0); }
  }

  lemma CutNext<T>(f: Forest<T>, x: T, n: T)
    requires f.Linked() && x in f.parent && n in f.parent && Cut(f, x).Linked() && f.parent[x].Some?
    ensures Cut(f, x).Next(n) == if n in Tail(f, x) || f.Next(n) == Some(x) then None else f.Next(n)
  {
    var p, k := f.parent[x].value, f.Place(x);
    if n !in Tail(f, x) {
      if f.parent[n] == Some(p) {
        assert f.kids[p] == f.kids[p][..k] + Tail(f, x);
        AfterInPrefix(f.kids[p], k, n);
      } else if f.Next(n).Some? {
        NextHasSameParent(f, n);
      }
    }
  }

  lemma InsertFirst<T>(f: Forest<T>, x: T, p: T, reference: Option<T>, n: T)
    requires f.Linked() && n in f.parent
    requires p in f.kids && (reference.Some? ==> reference.value in f.kids[p])
    ensures Insert(f, x, p, reference).First(n) == if n == p && f.First(p) == reference then Some(x) else f.First(n)
  {
    var k := Slot(f.kids[p], reference);
    if k < |f.kids[p]| { IndexIsUnique(f.kids[p], 0); }
  }

  lemma {:induction false} InsertNext<T>(f: Forest<T>, x: T, p: T, reference: Option<T>, n: T)
    requires f.Linked() && x in f.parent && n in f.parent && f.parent[x].None?
    requires p in f.kids && (reference.Some? ==> reference.value in f.kids[p])
    requires Insert(f, x, p, reference).Linked()
    ensures Insert(f, x, p, reference).Next(n) ==
              if n == x then reference
              else if (if reference.Some? then f.Next(n) == reference else f.Last(p) == Some(n)) then Some(x)
              else f.Next(n)
  {
    var k := Slot(f.kids[p], reference);
    assert x !in f.kids[p];
    if n == x {
      AfterWith(f.kids[p], x, k, n);
    } else if f.parent[n] == Some(p) {
      AfterWith(f.kids[p], x, k, n);
      if 0 < k { AfterIndex(f.kids[p], k - 1); }
      AfterIndex(f.kids[p], f.Place(n));
      if f.Next(n).Some? && f.Next(n) == reference { IndexIsUnique(f.kids[p], f.Place(n) + 1); }
    } else {
      if f.Next(n).Some? { NextHasSameParent(f, n); }
      if reference.Some? { LinksAt(f, p, k); }
      if f.kids[p] != [] { LinksAt(f, p, |f.kids[p]| - 1); }
    }
  }
}
