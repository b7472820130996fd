/** The game trees at root nodes, as decoded content; and forests of several games, side by side. */
module GameTrees {
  import opened Sequences
  import opened Forests
  import opened Relinking
  import opened Rendering
  import opened DocumentEncoder

  /** The game tree at x, and then what comes after it. */
  ghost function TreeAt<T>(f: Forest<T>, contents: map<T, Content>, x: T, after: Level<Content>): Level<Content>
    requires f.Valid() && x in f.parent
  {
    LevelStep(f, x);
    Cons(if x in contents then contents[x] else [], ContentOf(LevelAt(f, f.First(x)), contents), after)
  }

  /** The game trees at the root nodes, one after the other, and then what comes after them. */
  ghost function TreesAt<T>(f: Forest<T>, contents: map<T, Content>, rootNodes: seq<T>, after: Level<Content>)
    : Level<Content>
    requires f.Valid() && forall i :: 0 <= i < |rootNodes| ==> rootNodes[i] in f.parent
  {
    if rootNodes == [] then after
    else TreeAt(f, contents, rootNodes[0], TreesAt(f, contents, rootNodes[1..], after))
  }

  lemma {:induction false} TreesAtOneMore<T>(f: Forest<T>, contents: map<T, Content>, rootNodes: seq<T>, x: T,
                                             after: Level<Content>)
    requires f.Valid() && x in f.parent && forall i :: 0 <= i < |rootNodes| ==> rootNodes[i] in f.parent
    ensures TreesAt(f, contents, rootNodes + [x], after) ==
              TreesAt(f, contents, rootNodes, TreeAt(f, contents, x, after))
  {
    if rootNodes == [] {
      assert [x][1..] == [];
    } else {
      assert (rootNodes + [x])[1..] == rootNodes[1..] + [x];
      TreesAtOneMore(f, contents, rootNodes[1..], x, after);
    }
  }

  // ---------------------------------------------------------------- side by side

  /** The nodes of f have the same parents and children in g. */
  ghost predicate IsPart<T>(f: Forest<T>, g: Forest<T>) {
    forall x {:trigger f.parent[x]} {:trigger g.kids[x]} ::
      x in f.parent && x in f.kids ==>
        x in g.parent && x in g.kids && g.parent[x] == f.parent[x] && g.kids[x] == f.kids[x]
  }

  ghost function Union<T>(f: Forest<T>, g: Forest<T>): Forest<T> {
    Forest(f.parent + g.parent, f.kids + g.kids)
  }

  lemma SameWayUp<T>(f: Forest<T>, g: Forest<T>, x: T, n: nat)
    requires f.ReachesRoot(x, n) && forall y :: y in f.parent ==> y in g.parent && g.parent[y] == f.parent[y]
    ensures g.ReachesRoot(x, n)
  {
    if f.parent[x].Some? { SameWayUp(f, g, f.parent[x].value, n - 1); }
  }

  lemma UnionLinked<T>(f: Forest<T>, g: Forest<T>)
    requires f.Linked() && g.Linked() && f.parent.Keys !! g.parent.Keys
    ensures Union(f, g).Linked() && IsPart(f, Union(f, g)) && IsPart(g, Union(f, g))
  {
    var h := Union(f, g);
    forall p, i | p in h.kids && 0 <= i < |h.kids[p]|
      ensures h.kids[p][i] in h.parent && h.parent[h.kids[p][i]] == Some(p)
    {
      if p in g.kids { LinksAt(g, p, i); } else { LinksAt(f, p, i); }
    }
  }

  lemma UnionValid<T>(f: Forest<T>, g: Forest<T>)
    requires f.Valid() && g.Valid() && f.parent.Keys !! g.parent.Keys
    ensures Union(f, g).Valid() && IsPart(f, Union(f, g)) && IsPart(g, Union(f, g))
  {
    UnionLinked(f, g);
    var h := Union(f, g);
    forall x | x in h.parent ensures h.Rooted(x) {
      if x in f.parent {
        assert f.Rooted(x);
        var n: nat :| f.ReachesRoot(x, n);
        SameWayUp(f, h, x, n);
      } else {
        assert g.Rooted(x);
        var n: nat :| g.ReachesRoot(x, n);
        SameWayUp(g, h, x, n);
      }
    }
  }

  /** In a forest with more nodes, a node has the same first child and next sibling. */
  lemma LinksInPart<T>(f: Forest<T>, g: Forest<T>, x: T)
    requires f.Linked() && g.Linked() && IsPart(f, g) && x in f.parent
    ensures x in g.parent && g.parent[x] == f.parent[x] && g.First(x) == f.First(x) && g.Next(x) == f.Next(x)
  {
    assert g.parent[x] == f.parent[x];
  }

  /** In a forest with more nodes, everything below and after a node looks the same. */
  lemma LevelInPart<T>(f: Forest<T>, g: Forest<T>, o: Option<T>)
    requires f.Valid() && g.Valid() && IsPart(f, g) && In(f, o)
    ensures In(g, o) && LevelAt(g, o) == LevelAt(f, o)
    decreases if o.Some? then f.Deeper(o.value) else {}, if o.Some? then Later(f, o.value) + 1 else 0
  {
    if o.Some? {
      var x := o.value;
      LinksInPart(f, g, x);
      LevelStep(f, x);
      LevelStep(g, x);
      if f.First(x).Some? { FirstIsDeeper(f, x); }
      if f.Next(x).Some? { NextIsLater(f, x); }
      LevelInPart(f, g, f.First(x));
      LevelInPart(f, g, f.Next(x));
    }
  }

  ghost predicate SameContents<T>(f: Forest<T>, contents: map<T, Content>, contents': map<T, Content>) {
    forall x :: x in f.parent ==> x in contents && x in contents' && contents'[x] == contents[x]
  }

  lemma ContentInPart<T>(f: Forest<T>, o: Option<T>, contents: map<T, Content>, contents': map<T, Content>)
    requires f.Valid() && In(f, o) && SameContents(f, contents, contents')
    ensures ContentOf(LevelAt(f, o), contents') == ContentOf(LevelAt(f, o), contents)
    decreases if o.Some? then f.Deeper(o.value) else {}, if o.Some? then Later(f, o.value) + 1 else 0
  {
    if o.Some? {
      var x := o.value;
      LevelStep(f, x);
      if f.First(x).Some? { FirstIsDeeper(f, x); }
      if f.Next(x).Some? { NextIsLater(f, x); }
      ContentInPart(f, f.First(x), contents, contents');
      ContentInPart(f, f.Next(x), contents, contents');
    }
  }

  lemma TreeInPart<T>(f: Forest<T>, g: Forest<T>, contents: map<T, Content>, contents': map<T, Content>, x: T,
                      after: Level<Content>)
    requires f.Valid() && g.Valid() && IsPart(f, g) && x in f.parent && SameContents(f, contents, contents')
    ensures x in g.parent && TreeAt(g, contents', x, after) == TreeAt(f, contents, x, after)
  {
    LinksInPart(f, g, x);
    LevelStep(f, x);
    LevelInPart(f, g, f.First(x));
    ContentInPart(f, f.First(x), contents, contents');
  }

  lemma {:induction false} TreesInPart<T>(f: Forest<T>, g: Forest<T>, contents: map<T, Content>,
                                          contents': map<T, Content>, rootNodes: seq<T>, after: Level<Content>)
    requires f.Valid() && g.Valid() && IsPart(f, g) && SameContents(f, contents, contents')
    requires forall i :: 0 <= i < |rootNodes| ==> rootNodes[i] in f.parent
    ensures forall i :: 0 <= i < |rootNodes| ==> rootNodes[i] in g.parent
    ensures TreesAt(g, contents', rootNodes, after) == TreesAt(f, contents, rootNodes, after)
  {
    hide TreeAt, SameContents, IsPart, Forest.Linked, Forest.Acyclic;
    if rootNodes != [] {
      var rest := rootNodes[1..];
      assert forall i :: 0 <= i < |rest| ==> rest[i] == rootNodes[i + 1];
      TreesInPart(f, g, contents, contents', rest, after);
      TreeInPart(f, g, contents, contents', rootNodes[0], TreesAt(f, contents, rest, after));
      assert forall i :: 0 < i < |rootNodes| ==> rootNodes[i] == rest[i - 1];
    }
  }

  /** A game next to other games: their trees, then its tree. */
  lemma OneMoreGame<T>(f: Forest<T>, g: Forest<T>, contents: map<T, Content>, contents': map<T, Content>,
                       both: map<T, Content>, rootNodes: seq<T>, x: T, after: Level<Content>)
    requires f.Valid() && g.Valid() && f.parent.Keys !! g.parent.Keys
    requires SameContents(f, contents, both) && SameContents(g, contents', both)
    requires x in g.parent && forall i :: 0 <= i < |rootNodes| ==> rootNodes[i] in f.parent
    ensures var h := Union(f, g);
      && h.Valid() && (forall i :: 0 <= i < |rootNodes + [x]| ==> (rootNodes + [x])[i] in h.parent)
      && TreesAt(h, both, rootNodes + [x], after) == TreesAt(f, contents, rootNodes, TreeAt(g, contents', x, after))
  {
    hide TreesAt, TreeAt, SameContents, IsPart, Forest.Linked, Forest.Acyclic;
    UnionValid(f, g);
    var h := Union(f, g);
    TreeInPart(g, h, contents', both, x, after);
    TreesInPart(f, h, contents, both, rootNodes, TreeAt(g, contents', x, after));
    TreesAtOneMore(h, both, rootNodes, x, after);
  }
}
