/**
 * The game info nodes of a game. isGameInfo stands for the test whether a node has the GameInfo
 * trait, which the original looks up in tables by the types of the node's properties.
 */
module Game {
  import opened Sequences
  import opened Forests
  import opened Preorders
  import opened Nodes
  import opened NodeIterator

  // ---------------------------------------------------------------- specification

  /** Of a level: the game info nodes that have none above them within the level, in preorder. */
  ghost function Topmost<T>(l: Level<T>, isGameInfo: T -> bool): seq<T> {
    match l
    case Nil => []
    case Cons(x, below, after) =>
      (if isGameInfo(x) then [x] else Topmost(below, isGameInfo)) + Topmost(after, isGameInfo)
  }

  ghost predicate NoneAbove<T>(f: Forest<T>, isGameInfo: T -> bool, y: T)
    requires f.Rooted(y)
  {
    forall a :: a in f.Ancestors(y) ==> !isGameInfo(a)
  }

  /** A game info node without a game info node above it. */
  ghost predicate IsTopmost<T>(f: Forest<T>, isGameInfo: T -> bool, y: T)
    requires f.Rooted(y)
  {
    isGameInfo(y) && NoneAbove(f, isGameInfo, y)
  }

  ghost function Keep<T>(s: seq<T>, kept: set<T>): seq<T> {
    if s == [] then [] else (if s[0] in kept then [s[0]] else []) + Keep(s[1..], kept)
  }

  // ---------------------------------------------------------------- the callbacks

  /** GetGameInfoNodes goes on laterally at a game info node and everywhere at others. */
  function CollectAll<T>(isGameInfo: T -> bool): seq<Visit<T>> -> Continuation {
    (visits: seq<Visit<T>>) =>
      if visits != [] && isGameInfo(visits[|visits| - 1].node) then Lateral else VerticalAndLateral
  }

  /** GetFirstGameInfoNode stops at a game info node. */
  function StopAtFirst<T>(isGameInfo: T -> bool): seq<Visit<T>> -> Continuation {
    (visits: seq<Visit<T>>) =>
      if visits != [] && isGameInfo(visits[|visits| - 1].node) then Stop else VerticalAndLateral
  }

  /** The vector the first callback fills: every visited node with the trait, in the order of the visits. */
  function Collected<T>(visits: seq<Visit<T>>, isGameInfo: T -> bool): seq<T> {
    if visits == [] then []
    else
      var v := visits[|visits| - 1];
      Collected(visits[..|visits| - 1], isGameInfo) + if isGameInfo(v.node) then [v.node] else []
  }

  lemma CollectedStep<T>(visits: seq<Visit<T>>, v: Visit<T>, isGameInfo: T -> bool)
    ensures Collected(visits + [v], isGameInfo) ==
              Collected(visits, isGameInfo) + if isGameInfo(v.node) then [v.node] else []
  {
    assert (visits + [v])[..|visits|] == visits;
  }

  /** Topmost, appended to nodes one by one. */
  ghost function TopmostOnto<T>(l: Level<T>, isGameInfo: T -> bool, nodes: seq<T>): seq<T> {
    match l
    case Nil => nodes
    case Cons(x, below, after) =>
      TopmostOnto(after, isGameInfo, if isGameInfo(x) then nodes + [x] else TopmostOnto(below, isGameInfo, nodes))
  }

  lemma {:induction false} TopmostOntoAppends<T>(l: Level<T>, isGameInfo: T -> bool, nodes: seq<T>)
    ensures TopmostOnto(l, isGameInfo, nodes) == nodes + Topmost(l, isGameInfo)
  {
    match l
    case Nil =>
    case Cons(x, below, after) =>
      var head := if isGameInfo(x) then [x] else Topmost(below, isGameInfo);
      TopmostOntoAppends(below, isGameInfo, nodes);
      TopmostOntoAppends(after, isGameInfo, nodes + head);
      ConcatIsAssociative(nodes, head, Topmost(after, isGameInfo));
  }

  lemma {:induction false} CollectAllCollects<T>(l: Level<T>, path: seq<T>, visits: seq<Visit<T>>,
                                                 isGameInfo: T -> bool)
    ensures var w := VisitLevel(l, path, visits, CollectAll(isGameInfo));
      !w.stopped && Collected(w.visits, isGameInfo) == TopmostOnto(l, isGameInfo, Collected(visits, isGameInfo))
    decreases l
  {
    hide Collected, VisitLevel;
    var callback := CollectAll(isGameInfo);
    VisitLevelStep(l, path, visits, callback);
    match l
    case Nil =>
    case Cons(x, below, after) =>
      var now := visits + [Visit(path, x)];
      CollectedStep(visits, Visit(path, x), isGameInfo);
      if isGameInfo(x) {
        CollectAllCollects(after, path, now, isGameInfo);
      } else {
        assert Collected(visits, isGameInfo) + [] == Collected(visits, isGameInfo);
        CollectAllCollects(below, path + [x], now, isGameInfo);
        CollectAllCollects(after, path, VisitLevel(below, path + [x], now, callback).visits, isGameInfo);
      }
  }

  lemma {:induction false} StopAtFirstStops<T>(l: Level<T>, path: seq<T>, visits: seq<Visit<T>>, isGameInfo: T -> bool)
    ensures var w, t := VisitLevel(l, path, visits, StopAtFirst(isGameInfo)), Topmost(l, isGameInfo);
      && (w.stopped <==> t != [])
      && Collected(w.visits, isGameInfo) == Collected(visits, isGameInfo) + if t == [] then [] else [t[0]]
    decreases l
  {
    hide Collected, VisitLevel;
    VisitLevelStep(l, path, visits, StopAtFirst(isGameInfo));
    match l
    case Nil =>
    case Cons(x, below, after) =>
      var now := visits + [Visit(path, x)];
      CollectedStep(visits, Visit(path, x), isGameInfo);
      if !isGameInfo(x) {
        assert Collected(now, isGameInfo) == Collected(visits, isGameInfo);
        assert Topmost(below, isGameInfo) == [] ==> Topmost(l, isGameInfo) == Topmost(after, isGameInfo);
        var w := VisitLevel(below, path + [x], now, StopAtFirst(isGameInfo));
        StopAtFirstStops(below, path + [x], now, isGameInfo);
        if !w.stopped { StopAtFirstStops(after, path, w.visits, isGameInfo); }
      }
  }

  // ---------------------------------------------------------------- the methods

  class SgfcGame {
    var rootNode: SgfcNode?

    constructor (rootNode: SgfcNode?)
      ensures this.rootNode == rootNode
    {
      this.rootNode := rootNode;
    }

    method GetGameInfoNodes(isGameInfo: SgfcNode -> bool, ghost f: Forest<SgfcNode>)
      returns (gameInfoNodes: seq<SgfcNode>)
      requires Represents(f) && (rootNode != null ==> rootNode in f.parent)
      ensures gameInfoNodes == Topmost(LevelAt(f, Opt(rootNode)), isGameInfo)
    {
      var nodeIterator := new SgfcNodeIterator();
      var visits := nodeIterator.IterateOverNodesDepthFirst(rootNode, CollectAll(isGameInfo), f);
      gameInfoNodes := Collected(visits, isGameInfo);
      CollectAllCollects(LevelAt(f, Opt(rootNode)), [], [], isGameInfo);
      TopmostOntoAppends(LevelAt(f, Opt(rootNode)), isGameInfo, []);
    }

    method GetFirstGameInfoNode(isGameInfo: SgfcNode -> bool, ghost f: Forest<SgfcNode>) returns (r: SgfcNode?)
      requires Represents(f) && (rootNode != null ==> rootNode in f.parent)
      ensures var nodes := Topmost(LevelAt(f, Opt(rootNode)), isGameInfo); r == if nodes == [] then null else nodes[0]
    {
      var nodeIterator := new SgfcNodeIterator();
      var visits := nodeIterator.IterateOverNodesDepthFirst(rootNode, StopAtFirst(isGameInfo), f);
      StopAtFirstStops(LevelAt(f, Opt(rootNode)), [], [], isGameInfo);
      var seen := Collected(visits, isGameInfo);
      r := if seen == [] then null else seen[|seen| - 1];
    }
  }

  // ---------------------------------------------------------------- what the nodes found are

  ghost function TopmostSet<T>(f: Forest<T>, isGameInfo: T -> bool): set<T>
    requires f.Valid()
  {
    set y | y in f.parent && f.Rooted(y) && IsTopmost(f, isGameInfo, y)
  }

  lemma KeepConcat<T>(s: seq<T>, t: seq<T>, kept: set<T>)
    ensures Keep(s + t, kept) == Keep(s, kept) + Keep(t, kept)
  {
    if s == [] {
      assert s + t == t;
    } else {
      KeepConcat(s[1..], t, kept);
      assert (s + t)[1..] == s[1..] + t;
      ConcatIsAssociative(if s[0] in kept then [s[0]] else [], Keep(s[1..], kept), Keep(t, kept));
    }
  }

  lemma KeepNone<T>(s: seq<T>, kept: set<T>)
    requires forall y :: y in s ==> y !in kept
    ensures Keep(s, kept) == []
  {
    if s != [] { assert s[0] in s; }
  }

  lemma KeepMembers<T>(s: seq<T>, kept: set<T>)
    ensures forall y :: y in Keep(s, kept) <==> y in s && y in kept
    ensures Distinct(s) ==> Distinct(Keep(s, kept))
  {
    if s != [] {
      KeepMembers(s[1..], kept);
      assert s == [s[0]] + s[1..];
    }
  }

  lemma NoneBelow<T>(f: Forest<T>, isGameInfo: T -> bool, x: T)
    requires f.Valid() && x in f.parent && isGameInfo(x)
    ensures In(f, f.First(x)) && Keep(Preorder(LevelAt(f, f.First(x))), TopmostSet(f, isGameInfo)) == []
  {
    LevelStep(f, x);
    var below, kept := Preorder(LevelAt(f, f.First(x))), TopmostSet(f, isGameInfo);
    forall y | y in below ensures y !in kept {
      PreorderWithin(f, f.First(x), y);
      assert f.Rooted(y);
      PreorderLists(f, f.First(x), y);
      ChildrenCover(f, x, y);
    }
    KeepNone(below, kept);
  }

  lemma KeepOne<T>(x: T, kept: set<T>)
    ensures Keep([x], kept) == if x in kept then [x] else []
  {
  }

  /** One step of the recursion against one step of the filter. */
  lemma KeepLevel<T>(l: Level<T>, isGameInfo: T -> bool, kept: set<T>)
    requires l.Cons? && (l.node in kept <==> isGameInfo(l.node))
    requires Topmost(l.after, isGameInfo) == Keep(Preorder(l.after), kept)
    requires Keep(Preorder(l.below), kept) == if isGameInfo(l.node) then [] else Topmost(l.below, isGameInfo)
    ensures Topmost(l, isGameInfo) == Keep(Preorder(l), kept)
  {
    var x, below, after := l.node, Preorder(l.below), Preorder(l.after);
    KeepConcat([x] + below, after, kept);
    KeepConcat([x], below, kept);
    KeepOne(x, kept);
    assert Preorder(l) == [x] + below + after;
    if isGameInfo(x) {
      assert Keep([x] + below, kept) == [x];
    } else {
      assert Keep([x] + below, kept) == Topmost(l.below, isGameInfo);
    }
  }

  lemma EmptyLevel<T>(isGameInfo: T -> bool, kept: set<T>)
    ensures Topmost(Nil, isGameInfo) == Keep(Preorder(Nil), kept)
  {
  }

  lemma NoneAboveNeighbours<T>(f: Forest<T>, isGameInfo: T -> bool, x: T)
    requires f.Valid() && x in f.parent && f.Rooted(x) && NoneAbove(f, isGameInfo, x)
    ensures x in TopmostSet(f, isGameInfo) <==> isGameInfo(x)
    ensures f.Next(x).Some? ==>
              f.Rooted(f.Next(x).value) && NoneAbove(f, isGameInfo, f.Next(x).value)
    ensures f.First(x).Some? && !isGameInfo(x) ==>
              f.Rooted(f.First(x).value) && NoneAbove(f, isGameInfo, f.First(x).value)
  {
    f.AncestorsStep(x);
    if f.Next(x).Some? {
      NextIsLater(f, x);
      assert f.Rooted(f.Next(x).value);
      f.AncestorsStep(f.Next(x).value);
    }
    if f.First(x).Some? {
      FirstIsDeeper(f, x);
      assert f.Rooted(f.First(x).value);
      f.AncestorsStep(f.First(x).value);
    }
  }

  /** The recursion finds, in preorder, exactly the topmost game info nodes. */
  lemma TopmostIsKept<T>(f: Forest<T>, isGameInfo: T -> bool, o: Option<T>)
    requires f.Valid() && In(f, o)
    requires o.Some? ==> f.Rooted(o.value) && NoneAbove(f, isGameInfo, o.value)
    ensures Topmost(LevelAt(f, o), isGameInfo) == Keep(Preorder(LevelAt(f, o)), TopmostSet(f, isGameInfo))
    decreases if o.Some? then f.Deeper(o.value) else {}, if o.Some? then Later(f, o.value) + 1 else 0
  {
    hide IsTopmost, NoneAbove, Topmost, Keep, Preorder;
    if o.None? {
      EmptyLevel<T>(isGameInfo, TopmostSet(f, isGameInfo));
    } else {
      var x := o.value;
      LevelStep(f, x);
      NoneAboveNeighbours(f, isGameInfo, x);
      if f.Next(x).Some? { NextIsLater(f, x); }
      if f.First(x).Some? { FirstIsDeeper(f, x); }
      TopmostIsKept(f, isGameInfo, f.Next(x));
      if isGameInfo(x) {
        NoneBelow(f, isGameInfo, x);
      } else {
        TopmostIsKept(f, isGameInfo, f.First(x));
      }
      KeepLevel(LevelAt(f, o), isGameInfo, TopmostSet(f, isGameInfo));
    }
  }

  /** An ancestor of an ancestor is an ancestor. */
  lemma AboveOfAbove<T>(f: Forest<T>, n: T, a: T, y: T)
    requires f.Valid() && y in f.parent && a in f.parent && f.Rooted(a) && f.Rooted(y)
    requires AboveOrSelf(f, n, a) && AboveOrSelf(f, a, y)
    ensures AboveOrSelf(f, n, y)
    decreases f.Depth(a)
  {
    f.AncestorsStep(a);
    if n != a {
      var p := f.parent[a].value;
      AboveIsTransitive(f, a, y);
      AboveOfAbove(f, n, p, y);
    }
  }

  /** Above every game info node, or there, is a topmost one. */
  lemma TopmostAbove<T>(f: Forest<T>, isGameInfo: T -> bool, y: T) returns (n: T)
    requires f.Valid() && y in f.parent && f.Rooted(y) && isGameInfo(y)
    ensures n in f.parent && f.Rooted(n) && IsTopmost(f, isGameInfo, n) && AboveOrSelf(f, n, y)
    decreases f.Depth(y)
  {
    if a :| a in f.Ancestors(y) && isGameInfo(a) {
      AboveIsShallower(f, a, y);
      assert f.Rooted(a);
      n := TopmostAbove(f, isGameInfo, a);
      AboveOfAbove(f, n, a, y);
    } else {
      n := y;
    }
  }

  /** If the root r and n are both on the way up from y, then r is on the way up from n. */
  lemma RootIsAbove<T>(f: Forest<T>, r: T, n: T, y: T)
    requires f.Valid() && r in f.parent && f.parent[r].None? && n in f.parent && y in f.parent && f.Rooted(n)
              && f.Rooted(y)
    requires AboveOrSelf(f, r, y) && AboveOrSelf(f, n, y)
    ensures AboveOrSelf(f, r, n)
    decreases f.Depth(y)
  {
    f.AncestorsStep(y);
    if n != y {
      if f.parent[y].Some? { RootIsAbove(f, r, n, f.parent[y].value); }
    }
  }

  /** Main result on GetGameInfoNodes, called on the root r of a game tree. */
  lemma GameInfoNodesAreTheTopmost<T>(f: Forest<T>, isGameInfo: T -> bool, r: T)
    requires f.Valid() && r in f.parent && f.parent[r].None?
    ensures var nodes := Topmost(LevelAt(f, Some(r)), isGameInfo);
      && nodes == Keep(Preorder(LevelAt(f, Some(r))), TopmostSet(f, isGameInfo))
      && Distinct(nodes)
      && (forall y :: y in nodes <==>
            y in f.parent && f.Rooted(y) && AboveOrSelf(f, r, y) && IsTopmost(f, isGameInfo, y))
      && (forall y :: y in f.parent && f.Rooted(y) && AboveOrSelf(f, r, y) && isGameInfo(y) ==>
            exists n :: n in nodes && AboveOrSelf(f, n, y))
  {
    var nodes := Topmost(LevelAt(f, Some(r)), isGameInfo);
    f.AncestorsStep(r);
    TopmostIsKept(f, isGameInfo, Some(r));
    PreorderIsDistinct(f, Some(r));
    KeepMembers(Preorder(LevelAt(f, Some(r))), TopmostSet(f, isGameInfo));
    forall y
      ensures y in nodes <==> y in f.parent && f.Rooted(y) && AboveOrSelf(f, r, y) && IsTopmost(f, isGameInfo, y)
    {
      if y in nodes { PreorderWithin(f, Some(r), y); }
      if y in f.parent {
        assert f.Rooted(y);
        PreorderLists(f, Some(r), y);
        assert f.Next(r).None?;
      }
    }
    forall y | y in f.parent && f.Rooted(y) && AboveOrSelf(f, r, y) && isGameInfo(y)
      ensures exists n :: n in nodes && AboveOrSelf(f, n, y)
    {
      var n := TopmostAbove(f, isGameInfo, y);
      RootIsAbove(f, r, n, y);
    }
  }

  lemma NearestStep<T>(f: Forest<T>, isGameInfo: T -> bool, x: T)
    requires f.Rooted(x)
    ensures x in f.parent && (f.parent[x].Some? ==> f.Rooted(f.parent[x].value))
    ensures Nearest(f, isGameInfo, x) ==
              if isGameInfo(x) then Some(x)
              else if f.parent[x].Some? then Nearest(f, isGameInfo, f.parent[x].value) else None
  {
    f.AncestorsStep(x);
    var way := [x] + f.Ancestors(x);
    assert way[1..] == f.Ancestors(x);
    assert FirstInfo(way, isGameInfo) == if isGameInfo(x) then Some(x) else FirstInfo(way[1..], isGameInfo);
  }

  /** The nearest game info node is on the way up, and every other one on the way up is above it. */
  lemma NearestIsNearest<T>(f: Forest<T>, isGameInfo: T -> bool, x: T)
    requires f.Valid() && x in f.parent && f.Rooted(x)
    ensures var m := Nearest(f, isGameInfo, x);
      && (m.None? ==> forall a :: AboveOrSelf(f, a, x) ==> !isGameInfo(a))
      && (m.Some? ==> m.value in f.parent && f.Rooted(m.value) && isGameInfo(m.value) && AboveOrSelf(f, m.value, x)
                      && forall a :: AboveOrSelf(f, a, x) && isGameInfo(a) ==> AboveOrSelf(f, a, m.value))
    decreases f.Depth(x)
  {
    f.AncestorsStep(x);
    NearestStep(f, isGameInfo, x);
    if !isGameInfo(x) && f.parent[x].Some? {
      NearestIsNearest(f, isGameInfo, f.parent[x].value);
    }
  }

  /**
   * Main result on GetGameInfoNode: it finds a node exactly when there is one on the way up, and the node
   * it finds is one of those GetGameInfoNodes returns exactly when it is the only one on the way up.
   */
  lemma NearestIsTopmostIff<T>(f: Forest<T>, isGameInfo: T -> bool, r: T, x: T)
    requires f.Valid() && r in f.parent && f.parent[r].None?
    requires x in f.parent && f.Rooted(x) && AboveOrSelf(f, r, x)
    ensures var nodes, m := Topmost(LevelAt(f, Some(r)), isGameInfo), Nearest(f, isGameInfo, x);
      && (m.None? <==> forall a :: AboveOrSelf(f, a, x) ==> !isGameInfo(a))
      && (m.Some? ==> isGameInfo(m.value) && AboveOrSelf(f, m.value, x))
      && (m.Some? ==> (m.value in nodes <==> forall a :: AboveOrSelf(f, a, x) && isGameInfo(a) ==> a == m.value))
  {
    var m := Nearest(f, isGameInfo, x);
    NearestIsNearest(f, isGameInfo, x);
    if m.Some? {
      var v := m.value;
      RootIsAbove(f, r, v, x);
      GameInfoNodesAreTheTopmost(f, isGameInfo, r);
      if IsTopmost(f, isGameInfo, v) {
      } else {
        var a :| a in f.Ancestors(v) && isGameInfo(a);
        AboveIsShallower(f, a, v);
        assert f.Rooted(a);
        AboveOfAbove(f, a, v, x);
      }
    }
  }

  /** At most one of the nodes GetGameInfoNodes returns is on any way up. */
  lemma OneTopmostPerWay<T>(f: Forest<T>, isGameInfo: T -> bool, m: T, n: T, x: T)
    requires f.Valid() && m in f.parent && n in f.parent && x in f.parent && f.Rooted(m) && f.Rooted(n) && f.Rooted(x)
    requires IsTopmost(f, isGameInfo, m) && IsTopmost(f, isGameInfo, n)
    requires AboveOrSelf(f, m, x) && AboveOrSelf(f, n, x)
    ensures m == n
    decreases f.Depth(x)
  {
    f.AncestorsStep(x);
    if m != x && n != x { OneTopmostPerWay(f, isGameInfo, m, n, f.parent[x].value); }
  }
}
