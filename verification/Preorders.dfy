/** Which nodes a level lists, in which order, and that it lists none twice. */
module Preorders {
  import opened Sequences
  import opened Forests

  ghost function Preorder<T>(l: Level<T>): seq<T> {
    if l.Nil? then [] else [l.node] + Preorder(l.below) + Preorder(l.after)
  }

  /** y is o, or a sibling after o, or below one of these. */
  ghost predicate UnderLevel<T>(f: Forest<T>, o: Option<T>, y: T)
    requires f.Valid() && In(f, o) && f.Rooted(y)
    decreases if o.Some? then Later(f, o.value) + 1 else 0
  {
    o.Some? &&
    (AboveOrSelf(f, o.value, y) ||
      assert f.Next(o.value).Some? ==>
          f.Next(o.value).value in f.parent && Later(f, f.Next(o.value).value) < Later(f, o.value)
        by { if f.Next(o.value).Some? { NextIsLater(f, o.value); } }
      UnderLevel(f, f.Next(o.value), y))
  }

  /** Being under an earlier sibling's level is being under a later sibling's, or under the siblings between. */
  lemma UnderLaterSibling<T>(f: Forest<T>, p: T, i: nat, c: T, y: T)
    requires f.Valid() && y in f.parent && f.Rooted(y) && p in f.parent && i < |f.kids[p]|
    requires c in f.parent && f.parent[c] == Some(p) && i <= f.Place(c) && AboveOrSelf(f, c, y)
    ensures f.kids[p][i] in f.parent && UnderLevel(f, Some(f.kids[p][i]), y)
    decreases |f.kids[p]| - i
  {
    IndexIsUnique(f.kids[p], i);
    var d := f.kids[p][i];
    assert d in f.parent;
    if d != c {
      NextIsLater(f, d);
      UnderLaterSibling(f, p, i + 1, c, y);
    }
  }

  /** The child of x on the way up from y. */
  lemma ChildOnTheWay<T>(f: Forest<T>, x: T, y: T) returns (c: T)
    requires f.Valid() && y in f.parent && f.Rooted(y) && f.Above(x, y)
    ensures c in f.parent && f.parent[c] == Some(x) && AboveOrSelf(f, c, y)
    decreases f.Depth(y)
  {
    f.AncestorsStep(y);
    var q := f.parent[y].value;
    if q == x {
      c := y;
    } else {
      c := ChildOnTheWay(f, x, q);
    }
  }

  lemma UnderSiblings<T>(f: Forest<T>, o: Option<T>, x: T, y: T)
    requires f.Valid() && In(f, o) && y in f.parent && f.Rooted(y) && x in f.parent
    requires o.Some? && f.parent[o.value] == Some(x) && UnderLevel(f, o, y)
    ensures f.Above(x, y)
    decreases Later(f, o.value)
  {
    if AboveOrSelf(f, o.value, y) {
      AboveIsTransitive(f, o.value, y);
    } else {
      NextIsLater(f, o.value);
      UnderSiblings(f, f.Next(o.value), x, y);
    }
  }

  /** Under the first child of x is below x. */
  lemma ChildrenCover<T>(f: Forest<T>, x: T, y: T)
    requires f.Valid() && x in f.parent && y in f.parent && f.Rooted(y)
    ensures In(f, f.First(x))
    ensures UnderLevel(f, f.First(x), y) <==> f.Above(x, y)
  {
    if f.First(x).Some? {
      FirstIsDeeper(f, x);
      if UnderLevel(f, f.First(x), y) { UnderSiblings(f, f.First(x), x, y); }
    }
    if f.Above(x, y) {
      var c := ChildOnTheWay(f, x, y);
      UnderLaterSibling(f, x, 0, c, y);
    }
  }

  /** A level lists exactly the nodes under it. */
  lemma PreorderLists<T>(f: Forest<T>, o: Option<T>, y: T)
    requires f.Valid() && In(f, o) && y in f.parent && f.Rooted(y)
    ensures y in Preorder(LevelAt(f, o)) <==> UnderLevel(f, o, y)
    decreases if o.Some? then f.Deeper(o.value) else {}, if o.Some? then Later(f, o.value) + 1 else 0
  {
    if o.Some? {
      var x := o.value;
      LevelStep(f, x);
      if f.First(x).Some? { FirstIsDeeper(f, x); }
      if f.Next(x).Some? { NextIsLater(f, x); }
      PreorderLists(f, f.First(x), y);
      PreorderLists(f, f.Next(x), y);
      ChildrenCover(f, x, y);
    }
  }

  /** A level lists nodes of the forest only. */
  lemma PreorderWithin<T>(f: Forest<T>, o: Option<T>, y: T)
    requires f.Valid() && In(f, o) && y in Preorder(LevelAt(f, o))
    ensures y in f.parent
    decreases if o.Some? then f.Deeper(o.value) else {}, if o.Some? then Later(f, o.value) + 1 else 0
  {
    var x := o.value;
    LevelStep(f, x);
    if f.First(x).Some? { FirstIsDeeper(f, x); }
    if f.Next(x).Some? { NextIsLater(f, x); }
    if y in Preorder(LevelAt(f, f.First(x))) {
      PreorderWithin(f, f.First(x), y);
    } else if y in Preorder(LevelAt(f, f.Next(x))) {
      PreorderWithin(f, f.Next(x), y);
    }
  }

  /** Two nodes of the same depth on one way up are the same node. */
  lemma OneAncestorPerDepth<T>(f: Forest<T>, a: T, b: T, y: T)
    requires f.Valid() && a in f.parent && b in f.parent && y in f.parent && f.Rooted(y) && f.Rooted(a) && f.Rooted(b)
    requires AboveOrSelf(f, a, y) && AboveOrSelf(f, b, y) && f.Depth(a) == f.Depth(b)
    ensures a == b
    decreases f.Depth(y)
  {
    f.AncestorsStep(y);
    if a == y {
      if b != y { AboveIsShallower(f, b, y); }
    } else if b == y {
      AboveIsShallower(f, a, y);
    } else {
      OneAncestorPerDepth(f, a, b, f.parent[y].value);
    }
  }

  /** Nothing under x is under a sibling after x. */
  lemma SiblingsAreApart<T>(f: Forest<T>, x: T, o: Option<T>, y: T)
    requires f.Valid() && x in f.parent && In(f, o) && y in f.parent && f.Rooted(y) && AboveOrSelf(f, x, y)
    requires o.Some? ==> f.parent[x].Some? && f.parent[o.value] == f.parent[x] && f.Place(x) < f.Place(o.value)
    ensures !UnderLevel(f, o, y)
    decreases if o.Some? then Later(f, o.value) else 0
  {
    if o.Some? {
      var s := o.value;
      f.AncestorsStep(x);
      f.AncestorsStep(s);
      assert f.Rooted(x) && f.Rooted(s);
      if AboveOrSelf(f, s, y) { OneAncestorPerDepth(f, x, s, y); }
      if f.Next(s).Some? { NextIsLater(f, s); }
      SiblingsAreApart(f, x, f.Next(s), y);
    }
  }

  lemma DistinctConcat<T>(a: seq<T>, b: seq<T>)
    requires Distinct(a) && Distinct(b) && forall y :: y in a ==> y !in b
    ensures Distinct(a + b)
  {
    forall i, j | 0 <= i < j < |a + b| ensures (a + b)[i] != (a + b)[j] {
      if i < |a| <= j {
        assert a[i] in a && b[j - |a|] in b;
      }
    }
  }

  /** A level lists no node twice. */
  lemma PreorderIsDistinct<T>(f: Forest<T>, o: Option<T>)
    requires f.Valid() && In(f, o)
    ensures Distinct(Preorder(LevelAt(f, o)))
    decreases if o.Some? then f.Deeper(o.value) else {}, if o.Some? then Later(f, o.value) + 1 else 0
  {
    if o.Some? {
      var x := o.value;
      LevelStep(f, x);
      if f.First(x).Some? { FirstIsDeeper(f, x); }
      if f.Next(x).Some? { NextIsLater(f, x); }
      PreorderIsDistinct(f, f.First(x));
      PreorderIsDistinct(f, f.Next(x));
      var below, after := Preorder(LevelAt(f, f.First(x))), Preorder(LevelAt(f, f.Next(x)));
      forall y | y in [x] + below ensures y !in after {
        if y in below { PreorderWithin(f, f.First(x), y); }
        assert f.Rooted(y);
        PreorderLists(f, f.First(x), y);
        PreorderLists(f, f.Next(x), y);
        ChildrenCover(f, x, y);
        SiblingsAreApart(f, x, f.Next(x), y);
      }
      assert x !in below by {
        assert f.Rooted(x);
        PreorderLists(f, f.First(x), x);
        ChildrenCover(f, x, x);
        if f.Above(x, x) { AboveIsShallower(f, x, x); }
      }
      DistinctConcat([x], below);
      DistinctConcat([x] + below, after);
    }
  }
}
