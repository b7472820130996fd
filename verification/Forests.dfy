/**
 * Ordered forests, without a heap. A forest says for every node which node is its parent and
 * which nodes, in which order, are its children. The three links a heap node stores (parent,
 * first child, next sibling) are functions of the forest.
 */
module Forests {
  import opened Sequences

  datatype Forest<T> = Forest(parent: map<T, Option<T>>, kids: map<T, seq<T>>) {

    /** The parent map and the child sequences describe the same edges, and no child is listed twice. */
    ghost predicate Linked() {
      && parent.Keys == kids.Keys
      && (forall p :: p in kids ==> Distinct(kids[p]))
      && (forall p, i :: p in kids && 0 <= i < |kids[p]| ==>
            kids[p][i] in parent && parent[kids[p][i]] == Some(p))
      && (forall x {:trigger parent[x]} :: x in parent && parent[x].Some? ==>
            parent[x].value in kids && x in kids[parent[x].value])
    }

    /** At most n steps up from x there is a node without a parent. */
    ghost predicate ReachesRoot(x: T, n: nat) {
      && x in parent
      && (parent[x].Some? ==> n > 0 && ReachesRoot(parent[x].value, n - 1))
    }

    ghost predicate Rooted(x: T) {
      exists n: nat :: ReachesRoot(x, n)
    }

    ghost predicate Acyclic() {
      forall x {:trigger Rooted(x)} :: x in parent ==> Rooted(x)
    }

    ghost predicate Valid() {
      Linked() && Acyclic()
    }

    ghost function First(p: T): Option<T>
      requires p in kids
    {
      if kids[p] == [] then None else Some(kids[p][0])
    }

    ghost function Last(p: T): Option<T>
      requires p in kids
    {
      if kids[p] == [] then None else Some(kids[p][|kids[p]| - 1])
    }

    /** The position of x among its siblings. */
    ghost function Place(x: T): (i: nat)
      requires Linked() && x in parent && parent[x].Some?
      ensures i < |kids[parent[x].value]| && kids[parent[x].value][i] == x
    {
      IndexOf(kids[parent[x].value], x)
    }

    ghost function Next(x: T): Option<T>
      requires Linked() && x in parent
    {
      if parent[x].None? then None else After(kids[parent[x].value], x)
    }

    ghost function Previous(x: T): Option<T>
      requires Linked() && x in parent
    {
      if parent[x].None? then None
      else
        var s, i := kids[parent[x].value], Place(x);
        if i > 0 then Some(s[i - 1]) else None
    }

    /** The first n proper ancestors of x, nearest first. */
    ghost function Up(x: T, n: nat): seq<T>
      requires ReachesRoot(x, n)
    {
      if parent[x].None? then [] else [parent[x].value] + Up(parent[x].value, n - 1)
    }

    lemma UpIsStable(x: T, m: nat, n: nat)
      requires ReachesRoot(x, m) && ReachesRoot(x, n)
      ensures Up(x, m) == Up(x, n)
    {
      if parent[x].Some? {
        UpIsStable(parent[x].value, m - 1, n - 1);
      }
    }

    /** All proper ancestors of x, nearest first. */
    ghost function Ancestors(x: T): seq<T>
      requires Rooted(x)
    {
      var n: nat :| ReachesRoot(x, n);
      Up(x, n)
    }

    /** Ancestors is the parent chain. */
    lemma AncestorsStep(x: T)
      requires Rooted(x)
      ensures x in parent
      ensures parent[x].None? ==> Ancestors(x) == []
      ensures parent[x].Some? ==>
                && Rooted(parent[x].value)
                && Ancestors(x) == [parent[x].value] + Ancestors(parent[x].value)
    {
      var n: nat :| ReachesRoot(x, n);
      assert forall m: nat :: ReachesRoot(x, m) ==> Up(x, m) == Up(x, n) by {
        forall m: nat | ReachesRoot(x, m) ensures Up(x, m) == Up(x, n) { UpIsStable(x, m, n); }
      }
      if parent[x].Some? {
        var p := parent[x].value;
        assert ReachesRoot(p, n - 1);
        forall m: nat | ReachesRoot(p, m) ensures Up(p, m) == Up(p, n - 1) { UpIsStable(p, m, n - 1); }
      }
    }

    /** The ancestors of an ancestor are the ancestors behind it. */
    lemma AncestorsFrom(x: T, k: nat)
      requires Rooted(x) && k < |Ancestors(x)|
      ensures Ancestors(x)[k] in parent && Rooted(Ancestors(x)[k])
      ensures Ancestors(Ancestors(x)[k]) == Ancestors(x)[k + 1..]
      ensures parent[Ancestors(x)[k]] == if k + 1 < |Ancestors(x)| then Some(Ancestors(x)[k + 1]) else None
      decreases k
    {
      AncestorsStep(x);
      var p := parent[x].value;
      AncestorsStep(p);
      if k > 0 {
        AncestorsFrom(p, k - 1);
      }
    }

    /** a is a proper ancestor of x. */
    ghost predicate Above(a: T, x: T)
      requires Rooted(x)
    {
      a in Ancestors(x)
    }

    ghost function Depth(x: T): nat
      requires Rooted(x)
    {
      |Ancestors(x)|
    }

    /** The nodes deeper than x: what shrinks on the way down. */
    ghost function Deeper(x: T): set<T>
      requires Valid() && x in parent
    {
      set y | y in parent && Depth(y) > Depth(x)
    }

    lemma ChildIsDeeper(p: T, c: T)
      requires Valid() && c in parent && parent[c] == Some(p)
      ensures p in parent && Depth(c) == Depth(p) + 1 && Deeper(c) < Deeper(p)
    {
      AncestorsStep(c);
      assert c in Deeper(p) && c !in Deeper(c);
    }
  }

  /** x is y or one of its ancestors. */
  ghost predicate AboveOrSelf<T>(f: Forest<T>, x: T, y: T)
    requires f.Rooted(y)
  {
    x == y || f.Above(x, y)
  }

  lemma AboveIsShallower<T>(f: Forest<T>, a: T, x: T)
    requires f.Acyclic() && x in f.parent && f.Above(a, x)
    ensures a in f.parent && f.Depth(a) < f.Depth(x)
    decreases f.Depth(x)
  {
    assert f.Rooted(x);
    f.AncestorsStep(x);
    var p := f.parent[x].value;
    f.AncestorsStep(p);
    if a != p {
      AboveIsShallower(f, a, p);
    }
  }

  lemma ParentIsNotBelow<T>(f: Forest<T>, c: T)
    requires f.Valid() && c in f.parent && f.parent[c].Some?
    ensures var p := f.parent[c].value; p in f.parent && p != c && !AboveOrSelf(f, c, p)
  {
    var p := f.parent[c].value;
    f.AncestorsStep(c);
    if f.Above(c, p) { AboveIsShallower(f, c, p); }
  }

  /** The parent of an ancestor is an ancestor. */
  lemma AboveIsTransitive<T>(f: Forest<T>, y: T, x: T)
    requires f.Valid() && x in f.parent && AboveOrSelf(f, y, x) && y in f.parent && f.parent[y].Some?
    ensures f.Above(f.parent[y].value, x)
    decreases f.Depth(x)
  {
    f.AncestorsStep(x);
    if y != x { AboveIsTransitive(f, y, f.parent[x].value); }
  }

  ghost predicate In<T>(f: Forest<T>, o: Option<T>) {
    o.Some? ==> o.value in f.parent
  }

  lemma NotAboveParent<T>(f: Forest<T>, c: T, n: T)
    requires f.Valid() && n in f.parent && f.parent[n].Some? && !f.Above(c, n)
    ensures f.parent[n].value in f.parent && !AboveOrSelf(f, c, f.parent[n].value)
  {
    f.AncestorsStep(n);
  }

  /**
   * A run of siblings with everything below them, in first child / next sibling form: the shape in
   * which the links of the heap present an ordered forest, and a bijective encoding of it.
   */
  datatype Level<+T> = Nil | Cons(node: T, below: Level<T>, after: Level<T>)

  ghost function Size<T>(l: Level<T>): nat {
    if l.Nil? then 0 else 1 + Size(l.below) + Size(l.after)
  }

  /** The siblings after x, x not counted: what shrinks on the way right. */
  ghost function Later<T>(f: Forest<T>, x: T): nat
    requires f.Linked() && x in f.parent
  {
    if f.parent[x].None? then 0 else |f.kids[f.parent[x].value]| - f.Place(x)
  }

  lemma NextIsLater<T>(f: Forest<T>, x: T)
    requires f.Valid() && x in f.parent && f.Next(x).Some?
    ensures var y := f.Next(x).value;
      && y in f.parent && f.parent[y] == f.parent[x]
      && f.Depth(y) == f.Depth(x) && f.Deeper(y) == f.Deeper(x) && Later(f, y) < Later(f, x)
      && f.Place(y) == f.Place(x) + 1
  {
    var y := f.Next(x).value;
    var s := f.kids[f.parent[x].value];
    IndexIsUnique(s, f.Place(x) + 1);
    f.AncestorsStep(x);
    f.AncestorsStep(y);
  }

  lemma FirstIsDeeper<T>(f: Forest<T>, x: T)
    requires f.Valid() && x in f.parent && f.First(x).Some?
    ensures var c := f.First(x).value;
      && c in f.parent && f.parent[c] == Some(x) && f.Deeper(c) < f.Deeper(x) && f.Place(c) == 0
  {
    var c := f.First(x).value;
    IndexIsUnique(f.kids[x], 0);
    assert f.kids[x][0] in f.parent;
    f.ChildIsDeeper(x, c);
  }

  /** The node o, the siblings after it, and everything below these. */
  ghost function LevelAt<T>(f: Forest<T>, o: Option<T>): (l: Level<T>)
    requires f.Valid() && (o.Some? ==> o.value in f.parent)
    decreases if o.Some? then f.Deeper(o.value) else {}, if o.Some? then Later(f, o.value) + 1 else 0
  {
    match o
    case None => Nil
    case Some(x) =>
      assert f.First(x).Some? ==> f.First(x).value in f.parent && f.Deeper(f.First(x).value) < f.Deeper(x)
        by { if f.First(x).Some? { FirstIsDeeper(f, x); } }
      assert f.Next(x).Some? ==> f.Next(x).value in f.parent && f.Deeper(f.Next(x).value) == f.Deeper(x)
        by { if f.Next(x).Some? { NextIsLater(f, x); } }
      Cons(x, LevelAt(f, f.First(x)), LevelAt(f, f.Next(x)))
  }

  /** One node of a level: it, what is below it, what is after it. */
  lemma LevelStep<T>(f: Forest<T>, x: T)
    requires f.Valid() && x in f.parent
    ensures f.First(x).Some? ==> f.First(x).value in f.parent
    ensures f.Next(x).Some? ==> f.Next(x).value in f.parent
    ensures LevelAt(f, Some(x)) == Cons(x, LevelAt(f, f.First(x)), LevelAt(f, f.Next(x)))
  {
    if f.First(x).Some? { FirstIsDeeper(f, x); }
    if f.Next(x).Some? { NextIsLater(f, x); }
  }
}
