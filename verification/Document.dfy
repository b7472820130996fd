/** Reading a game tree: a child / sibling tree of decoded nodes is rebuilt, node by node, with the tree builder. */
module Document {
  import opened Sequences
  import opened Forests
  import opened Relinking
  import opened Edits
  import opened EditEffects
  import opened Game
  import opened GameTrees
  import opened Nodes
  import opened TreeBuilder
  import opened Rendering
  import opened DocumentEncoder

  // ---------------------------------------------------------------- one new child

  /** c comes new into the forest, as the last child of p. */
  ghost function Grown<T>(f: Forest<T>, p: T, c: T): Forest<T>
    requires p in f.kids
  {
    Forest(f.parent[c := Some(p)], f.kids[c := []][p := f.kids[p] + [c]])
  }

  /** c comes new into the forest, as a root. */
  ghost function WithRoot<T>(f: Forest<T>, c: T): Forest<T> {
    Forest(f.parent[c := None], f.kids[c := []])
  }

  ghost function Alone<T>(c: T): Forest<T> {
    Forest(map[c := None], map[c := []])
  }

  lemma WithRootValid<T>(f: Forest<T>, c: T)
    requires f.Valid() && c !in f.parent
    ensures WithRoot(f, c).Valid()
  {
    var g := WithRoot(f, c);
    forall x | x in g.parent ensures g.Rooted(x) {
      if x == c {
        assert g.ReachesRoot(c, 0);
      } else {
        assert f.Rooted(x);
        var n: nat :| f.ReachesRoot(x, n);
        SameWayUp(f, g, x, n);
      }
    }
  }

  lemma NothingToDrop<T>(s: seq<T>, c: T)
    requires c !in s
    ensures Without(s, c) == s
  {
  }

  /** A node without children is above no node. */
  lemma NobodyBelow<T>(f: Forest<T>, c: T, x: T)
    requires f.Valid() && x in f.parent && c in f.parent && f.kids[c] == []
    ensures !f.Above(c, x)
    decreases f.Depth(x)
  {
    f.AncestorsStep(x);
    if f.parent[x].Some? { NobodyBelow(f, c, f.parent[x].value); }
  }

  /** AppendChild of a new node is accepted and only adds it as the last child. */
  lemma AppendNew<T>(f: Forest<T>, p: T, c: T)
    requires f.Valid() && p in f.parent && c !in f.parent
    ensures p in f.kids
    ensures var g, e := WithRoot(f, c), AppendChild(Some(p), Some(c));
      && g.Valid() && Within(g, e) && FaultOf(g, e) == None
      && Afterwards(g, e) == Grown(f, p, c) && Grown(f, p, c).Valid()
  {
    WithRootValid(f, c);
    var g, e := WithRoot(f, c), Edit<T>.AppendChild(Some(p), Some(c));
    assert g.Rooted(p);
    if g.Above(c, p) { NobodyBelow(g, c, p); }
    AppendExpected(g, c, p);
    DetachKids(g, c);
    NothingToDrop(g.kids[p], c);
    StepValid(g, e);
  }

  // ---------------------------------------------------------------- what is still to be added

  /** The decoded nodes still to be added below a node, after the children it has. */
  type Pending<T> = map<T, Level<Content>>

  ghost function At<T>(pending: Pending<T>, x: T): Level<Content> {
    if x in pending then pending[x] else Nil
  }

  /** The content of a level once all that is pending has been added; tail comes after its last node. */
  ghost function Finished<T>(l: Level<T>, contents: map<T, Content>, pending: Pending<T>,
                             tail: Level<Content>): Level<Content> {
    match l
    case Nil => tail
    case Cons(x, below, after) =>
      Cons(if x in contents then contents[x] else [],
           Finished(below, contents, pending, At(pending, x)),
           Finished(after, contents, pending, tail))
  }

  /** Nothing is pending: the content as it is. */
  lemma {:induction false} NothingPending<T>(l: Level<T>, contents: map<T, Content>, pending: Pending<T>)
    requires pending == map[]
    ensures Finished(l, contents, pending, Nil) == ContentOf(l, contents)
  {
    if l.Cons? {
      NothingPending(l.below, contents, pending);
      NothingPending(l.after, contents, pending);
    }
  }

  lemma {:induction false} ForgetNil<T>(l: Level<T>, contents: map<T, Content>, pending: Pending<T>, x: T,
                                        tail: Level<Content>)
    requires x !in pending
    ensures Finished(l, contents, pending[x := Nil], tail) == Finished(l, contents, pending, tail)
  {
    if l.Cons? {
      ForgetNil(l.below, contents, pending, x, At(pending, l.node));
      ForgetNil(l.after, contents, pending, x, tail);
    }
  }

  /** The i-th child of q. */
  ghost function Kid<T>(f: Forest<T>, q: T, i: nat): (o: Option<T>)
    requires f.Linked() && q in f.parent
    ensures In(f, o)
  {
    if i < |f.kids[q]| then LinksAt(f, q, i); Some(f.kids[q][i]) else None
  }

  /** The finished children of q, from the i-th on. */
  ghost function FinishedKids<T>(f: Forest<T>, contents: map<T, Content>, pending: Pending<T>, q: T,
                                 i: nat): Level<Content>
    requires f.Valid() && q in f.parent
  {
    Finished(LevelAt(f, Kid(f, q, i)), contents, pending, At(pending, q))
  }

  lemma FinishedKidsStep<T>(f: Forest<T>, contents: map<T, Content>, pending: Pending<T>, q: T, i: nat)
    requires f.Valid() && q in f.parent && i < |f.kids[q]|
    ensures var x := f.kids[q][i];
      && x in f.parent && f.parent[x] == Some(q) && f.Deeper(x) < f.Deeper(q)
      && FinishedKids(f, contents, pending, q, i) ==
           Cons(if x in contents then contents[x] else [],
                FinishedKids(f, contents, pending, x, 0), FinishedKids(f, contents, pending, q, i + 1))
  {
    LinksAt(f, q, i);
    var x := f.kids[q][i];
    LevelStep(f, x);
    f.ChildIsDeeper(q, x);
    assert f.First(x) == Kid(f, x, 0) && f.Next(x) == Kid(f, q, i + 1);
  }

  lemma FinishedKidsEnd<T>(f: Forest<T>, contents: map<T, Content>, pending: Pending<T>, q: T)
    requires f.Valid() && q in f.parent
    ensures FinishedKids(f, contents, pending, q, |f.kids[q]|) == At(pending, q)
  {
  }

  /**
   * Adding the first of the pending children of p, with all below it pending, changes nothing of what it will all be.
   */
  lemma {:induction false} GrowKeepsFinished<T>(f: Forest<T>, contents: map<T, Content>, pending: Pending<T>, p: T,
                                                c: T, next: Level<Content>, q: T, i: nat)
    requires f.Valid() && p in f.parent && c !in f.parent && c !in pending && next.Cons? && Grown(f, p, c).Valid()
    requires q in f.parent && i <= |f.kids[q]|
    ensures FinishedKids(f, contents, pending[p := next], q, i) ==
              FinishedKids(Grown(f, p, c), contents[c := next.node], pending[p := next.after][c := next.below], q, i)
    decreases f.Deeper(q), |f.kids[q]| - i
  {
    hide FinishedKids, Finished, LevelAt, Kid, Forest.Acyclic;
    var g := Grown(f, p, c);
    var contents', before, behind := contents[c := next.node], pending[p := next],
      pending[p := next.after][c := next.below];
    if i < |f.kids[q]| {
      FinishedKidsStep(f, contents, before, q, i);
      FinishedKidsStep(g, contents', behind, q, i);
      GrowKeepsFinished(f, contents, pending, p, c, next, f.kids[q][i], 0);
      GrowKeepsFinished(f, contents, pending, p, c, next, q, i + 1);
    } else {
      FinishedKidsEnd(f, contents, before, q);
      FinishedKidsEnd(g, contents', behind, q);
      if q == p {
        FinishedKidsStep(g, contents', behind, p, i);
        FinishedKidsEnd(g, contents', behind, c);
      }
    }
  }

  // ---------------------------------------------------------------- the stack

  /** A node with the decoded node it was made for. */
  type Entry<T> = (T, Level<Content>)

  ghost function SiblingsOf(l: Level<Content>): Level<Content> {
    if l.Cons? then l.after else Nil
  }

  /**
   * What is pending: below the top of the stack next, below every other node on it the siblings of the node above it.
   */
  ghost function PendingOf<T>(stack: seq<Entry<T>>, next: Level<Content>): Pending<T> {
    if stack == [] then map[]
    else
      var top, rest := stack[|stack| - 1], stack[..|stack| - 1];
      PendingOf(rest, SiblingsOf(top.1))[top.0 := next]
  }

  /** How many decoded nodes are left. */
  ghost function Remaining<T>(stack: seq<Entry<T>>, next: Level<Content>): nat {
    Size(next) + if stack == [] then 0 else Remaining(stack[..|stack| - 1], SiblingsOf(stack[|stack| - 1].1))
  }

  /** The stack is a way down from the root node. */
  ghost predicate Spine<T>(f: Forest<T>, root: T, stack: seq<Entry<T>>) {
    && f.Valid()
    && (stack != [] ==> stack[0].0 == root)
    && (forall i :: 0 <= i < |stack| ==> stack[i].0 in f.parent)
    && (forall i :: 0 < i < |stack| ==> f.parent[stack[i].0] == Some(stack[i - 1].0))
    && (forall i, j :: 0 <= i < j < |stack| ==> stack[i].0 != stack[j].0)
  }

  /** Only the first entry of the stack is for the root node: all others are for parts of it. */
  ghost predicate Inside<T>(sgfRootNode: Level<Content>, stack: seq<Entry<T>>, next: Level<Content>) {
    && (if stack == [] then next == sgfRootNode else stack[0].1 == sgfRootNode && Size(next) < Size(sgfRootNode))
    && (forall i :: 0 <= i < |stack| ==> stack[i].1.Cons?)
    && (forall i :: 0 < i < |stack| ==> Size(stack[i].1) < Size(sgfRootNode))
  }

  /** What will be below the root node in the end. */
  ghost function Outlook<T>(f: Forest<T>, contents: map<T, Content>, root: T, stack: seq<Entry<T>>,
                            next: Level<Content>): Level<Content>
    requires f.Valid() && root in f.parent
  {
    FinishedKids(f, contents, PendingOf(stack, next), root, 0)
  }

  /** Only below nodes on the stack anything is pending. */
  lemma NotPending<T>(stack: seq<Entry<T>>, next: Level<Content>, x: T)
    requires forall i :: 0 <= i < |stack| ==> stack[i].0 != x
    ensures x !in PendingOf(stack, next)
  {
    if stack != [] { NotPending(stack[..|stack| - 1], SiblingsOf(stack[|stack| - 1].1), x); }
  }

  lemma PendingAfterPush<T>(stack: seq<Entry<T>>, next: Level<Content>, c: T)
    requires stack != [] && next.Cons?
    ensures var top, rest := stack[|stack| - 1], stack[..|stack| - 1];
      PendingOf(stack + [(c, next)], next.below) ==
        PendingOf(rest, SiblingsOf(top.1))[top.0 := next.after][c := next.below]
  {
    assert (stack + [(c, next)])[..|stack|] == stack;
  }

  lemma RemainingAfterPush<T>(stack: seq<Entry<T>>, next: Level<Content>, x: T)
    requires next.Cons?
    ensures Remaining(stack + [(x, next)], next.below) < Remaining(stack, next)
  {
    assert (stack + [(x, next)])[..|stack|] == stack;
  }

  lemma SpineAfterPush<T>(f: Forest<T>, root: T, stack: seq<Entry<T>>, next: Level<Content>, c: T)
    requires Spine(f, root, stack) && stack != [] && c !in f.parent
    requires Grown(f, stack[|stack| - 1].0, c).Valid()
    ensures Spine(Grown(f, stack[|stack| - 1].0, c), root, stack + [(c, next)])
  {
  }

  /** A node added and put on the stack. */
  lemma PushKeepsOutlook<T>(f: Forest<T>, contents: map<T, Content>, root: T, stack: seq<Entry<T>>,
                            next: Level<Content>, c: T)
    requires Spine(f, root, stack) && root in f.parent && stack != [] && next.Cons? && c !in f.parent
    requires Grown(f, stack[|stack| - 1].0, c).Valid()
    ensures Outlook(Grown(f, stack[|stack| - 1].0, c), contents[c := next.node], root, stack + [(c, next)],
              next.below) ==
              Outlook(f, contents, root, stack, next)
  {
    hide FinishedKids, Finished, LevelAt, Forest.Linked, Forest.Acyclic;
    var top, rest := stack[|stack| - 1], stack[..|stack| - 1];
    var pending := PendingOf(rest, SiblingsOf(top.1));
    PendingAfterPush(stack, next, c);
    NotPending(rest, SiblingsOf(top.1), c);
    GrowKeepsFinished(f, contents, pending, top.0, c, next, root, 0);
  }

  /** The siblings of a finished node come next. */
  lemma PopKeepsOutlook<T>(f: Forest<T>, contents: map<T, Content>, root: T, stack: seq<Entry<T>>)
    requires Spine(f, root, stack) && root in f.parent && |stack| > 1
    ensures var top, rest := stack[|stack| - 1], stack[..|stack| - 1];
      Spine(f, root, rest)
        && Outlook(f, contents, root, rest, SiblingsOf(top.1)) == Outlook(f, contents, root, stack, Nil)
  {
    var top, rest := stack[|stack| - 1], stack[..|stack| - 1];
    var pending := PendingOf(rest, SiblingsOf(top.1));
    NotPending(rest, SiblingsOf(top.1), top.0);
    ForgetNil(LevelAt(f, Kid(f, root, 0)), contents, pending, top.0, At(pending, root));
  }

  lemma AloneIsValid<T>(root: T)
    ensures var f := Alone(root); f.Valid() && LevelAt(f, f.First(root)) == Nil
  {
    var f := Alone(root);
    assert f.ReachesRoot(root, 0);
    assert f.Rooted(root);
  }

  lemma OutlookAtTheStart<T>(contents: map<T, Content>, root: T, sgfRootNode: Level<Content>)
    requires sgfRootNode.Cons?
    ensures var f := Alone(root);
      f.Valid() && Outlook(f, contents, root, [(root, sgfRootNode)], sgfRootNode.below) == sgfRootNode.below
  {
    AloneIsValid(root);
    var f := Alone(root);
    FinishedKidsEnd(f, contents, PendingOf([(root, sgfRootNode)], sgfRootNode.below), root);
  }

  lemma OutlookAtTheEnd<T>(f: Forest<T>, contents: map<T, Content>, root: T, sgfRootNode: Level<Content>)
    requires f.Valid() && root in f.parent
    ensures In(f, f.First(root))
    ensures Outlook(f, contents, root, [(root, sgfRootNode)], Nil) == ContentOf(LevelAt(f, f.First(root)), contents)
  {
    assert f.First(root) == Kid(f, root, 0);
    var stack: seq<Entry<T>> := [(root, sgfRootNode)];
    assert stack[..0] == [] && PendingOf(stack, Nil) == map[][root := Nil];
    ForgetNil(LevelAt(f, f.First(root)), contents, map[], root, Nil);
    NothingPending(LevelAt(f, f.First(root)), contents, map[]);
  }

  // ---------------------------------------------------------------- what the loop keeps

  ghost predicate Parsing<T>(f: Forest<T>, contents: map<T, Content>, root: T, sgfRootNode: Level<Content>,
                             stack: seq<Entry<T>>, next: Level<Content>) {
    && f.Valid() && root in f.parent
    && (forall n {:trigger f.parent[n]} :: n in f.parent ==> (f.parent[n].None? <==> n == root))
    && Spine(f, root, stack) && Inside(sgfRootNode, stack, next)
    && if stack == [] then f == Alone(root)
       else sgfRootNode.Cons? && Outlook(f, contents, root, stack, next) == sgfRootNode.below
  }

  lemma StartParsing<T>(contents: map<T, Content>, root: T, sgfRootNode: Level<Content>)
    ensures Parsing(Alone(root), contents, root, sgfRootNode, [], sgfRootNode)
  {
    AloneIsValid(root);
  }

  /** The loop tells the root node from all others. */
  lemma RootOrNot<T>(f: Forest<T>, contents: map<T, Content>, root: T, sgfRootNode: Level<Content>,
                     stack: seq<Entry<T>>, next: Level<Content>)
    requires Parsing(f, contents, root, sgfRootNode, stack, next)
    ensures root in f.parent && f.parent[root].None?
    ensures forall n {:trigger f.parent[n]} :: n in f.parent && n != root ==> f.parent[n].Some?
    ensures stack == [] ==> next == sgfRootNode
    ensures stack != [] && next.Cons? ==> next != sgfRootNode
    ensures stack != [] ==>
              var top := stack[|stack| - 1];
              top.0 in f.parent && top.1.Cons? && (top.1 == sgfRootNode <==> |stack| == 1)
  {
  }

  lemma PushRoot<T>(contents: map<T, Content>, root: T, sgfRootNode: Level<Content>)
    requires sgfRootNode.Cons?
    ensures Parsing(Alone(root), contents, root, sgfRootNode, [(root, sgfRootNode)], sgfRootNode.below)
  {
    AloneIsValid(root);
    OutlookAtTheStart(contents, root, sgfRootNode);
  }

  lemma ParsingSpine<T>(f: Forest<T>, contents: map<T, Content>, root: T, sgfRootNode: Level<Content>,
                        stack: seq<Entry<T>>, next: Level<Content>)
    requires Parsing(f, contents, root, sgfRootNode, stack, next) && stack != []
    ensures Spine(f, root, stack) && stack[|stack| - 1].0 in f.parent && stack[|stack| - 1].0 in f.kids
  {
  }

  lemma GrownValid<T>(f: Forest<T>, p: T, c: T)
    requires f.Valid() && p in f.parent && c !in f.parent
    ensures Grown(f, p, c).Valid()
  {
    AppendNew(f, p, c);
  }

  lemma InsideAfterPush<T>(sgfRootNode: Level<Content>, stack: seq<Entry<T>>, next: Level<Content>, c: T)
    requires Inside(sgfRootNode, stack, next) && stack != [] && next.Cons?
    ensures Inside(sgfRootNode, stack + [(c, next)], next.below)
  {
  }

  lemma PushNew<T>(f: Forest<T>, contents: map<T, Content>, root: T, sgfRootNode: Level<Content>,
                   stack: seq<Entry<T>>, next: Level<Content>, c: T)
    requires Parsing(f, contents, root, sgfRootNode, stack, next) && stack != [] && next.Cons? && c !in f.parent
    ensures Parsing(Grown(f, stack[|stack| - 1].0, c), contents[c := next.node], root, sgfRootNode,
              stack + [(c, next)], next.below)
  {
    hide Outlook, Spine, Forest.Linked, Forest.Acyclic, Size;
    ParsingSpine(f, contents, root, sgfRootNode, stack, next);
    GrownValid(f, stack[|stack| - 1].0, c);
    InsideAfterPush(sgfRootNode, stack, next, c);
    SpineAfterPush(f, root, stack, next, c);
    PushKeepsOutlook(f, contents, root, stack, next, c);
  }

  lemma Pop<T>(f: Forest<T>, contents: map<T, Content>, root: T, sgfRootNode: Level<Content>, stack: seq<Entry<T>>)
    requires Parsing(f, contents, root, sgfRootNode, stack, Nil) && |stack| > 1
    ensures var top, rest := stack[|stack| - 1], stack[..|stack| - 1];
      && top.1.Cons? && Parsing(f, contents, root, sgfRootNode, rest, top.1.after)
      && top.0 in f.parent && f.parent[top.0] == Some(rest[|rest| - 1].0)
      && Remaining(rest, top.1.after) == Remaining(stack, Nil)
  {
    hide Outlook;
    PopKeepsOutlook(f, contents, root, stack);
  }

  lemma PopRoot<T>(f: Forest<T>, contents: map<T, Content>, root: T, sgfRootNode: Level<Content>, stack: seq<Entry<T>>)
    requires Parsing(f, contents, root, sgfRootNode, stack, Nil) && |stack| == 1
    ensures f.Valid() && root in f.parent && In(f, f.First(root))
    ensures sgfRootNode.Cons? && ContentOf(LevelAt(f, f.First(root)), contents) == sgfRootNode.below
  {
    assert stack == [(root, sgfRootNode)];
    OutlookAtTheEnd(f, contents, root, sgfRootNode);
  }

  lemma NoRoot<T>(f: Forest<T>, contents: map<T, Content>, root: T)
    requires Parsing(f, contents, root, Nil, [], Nil)
    ensures f.Valid() && root in f.parent && In(f, f.First(root))
              && ContentOf(LevelAt(f, f.First(root)), contents) == Nil
  {
    AloneIsValid(root);
  }

  // ---------------------------------------------------------------- the document

  lemma WithRootRepresented(f: Forest<SgfcNode>, c: SgfcNode)
    requires Represents(f) && c !in f.parent
    requires c.parent == null && c.firstChild == null && c.nextSibling == null
    ensures Represents(WithRoot(f, c))
  {
    WithRootValid(f, c);
    forall n | n in WithRoot(f, c).parent ensures Links(WithRoot(f, c), n) {
      if n != c { assert Links(f, n); }
    }
  }

  ghost function NoNodes<T>(): Forest<T> {
    Forest(map[], map[])
  }

  lemma NoNodesAreValid(sgfRootNodes: Level<Content>)
    ensures NoNodes<SgfcNode>().Valid() && Represents(NoNodes())
              && TreesAt<SgfcNode>(NoNodes(), map[], [], sgfRootNodes) == sgfRootNodes
  {
  }

  lemma UnionRepresented(f: Forest<SgfcNode>, g: Forest<SgfcNode>)
    requires Represents(f) && Represents(g) && f.parent.Keys !! g.parent.Keys
    ensures Represents(Union(f, g))
  {
    UnionValid(f, g);
    forall n | n in Union(f, g).parent ensures Links(Union(f, g), n) {
      if n in f.parent {
        assert Links(f, n);
        LinksInPart(f, Union(f, g), n);
      } else {
        assert Links(g, n);
        LinksInPart(g, Union(f, g), n);
      }
    }
  }

  lemma AddGame(f: Forest<SgfcNode>, g: Forest<SgfcNode>, rootNodes: seq<SgfcNode>, x: SgfcNode, after: Level<Content>)
    requires Represents(f) && Represents(g) && f.parent.Keys !! g.parent.Keys && x in g.parent
    requires forall i :: 0 <= i < |rootNodes| ==> rootNodes[i] in f.parent
    ensures var h := Union(f, g);
      && h.Valid() && Represents(h) && (forall i :: 0 <= i < |rootNodes + [x]| ==> (rootNodes + [x])[i] in h.parent)
      && TreesAt(h, Contents(h), rootNodes + [x], after) ==
           TreesAt(f, Contents(f), rootNodes, TreeAt(g, Contents(g), x, after))
  {
    UnionRepresented(f, g);
    OneMoreGame(f, g, Contents(f), Contents(g), Contents(Union(f, g)), rootNodes, x, after);
  }

  lemma AloneIsRepresented(rootNode: SgfcNode)
    requires rootNode.parent == null && rootNode.firstChild == null && rootNode.nextSibling == null
    ensures Represents(Alone(rootNode))
  {
    AloneIsValid(rootNode);
  }

  class SgfcDocument {
    var games: seq<SgfcGame>

    constructor ()
      ensures games == []
    {
      games := [];
    }

    /** A new node, as a root of the forest. */
    method CreateNode(ghost g: Forest<SgfcNode>) returns (node: SgfcNode)
      requires Represents(g)
      ensures fresh(node) && g.Valid() && node !in g.parent && Represents(WithRoot(g, node))
      ensures Contents(WithRoot(g, node)) == old(Contents(g))[node := []]
    {
      hide Forest.Linked, Forest.Acyclic;
      node := new SgfcNode();
      WithRootRepresented(g, node);
    }

    /** A new node becomes the last child of another one. */
    method AppendNode(parentNode: SgfcNode, node: SgfcNode, treeBuilder: SgfcTreeBuilder, ghost g: Forest<SgfcNode>)
      returns (ghost h: Forest<SgfcNode>)
      requires g.Valid() && parentNode in g.parent && node !in g.parent && Represents(WithRoot(g, node))
      modifies g.parent.Keys`parent, g.parent.Keys`firstChild, g.parent.Keys`nextSibling
      modifies node`parent, node`firstChild, node`nextSibling
      ensures parentNode in g.kids && h == Grown(g, parentNode, node) && node in h.parent
      ensures Represents(h) && Contents(h) == old(Contents(WithRoot(g, node)))
    {
      hide FaultOf, Afterwards, Perform, Forest.Linked, Forest.Acyclic;
      AppendNew(g, parentNode, node);
      h := Grown(g, parentNode, node);
      var r := treeBuilder.AppendChild(parentNode, node, WithRoot(g, node));
    }

    /** The properties of a node are those that were decoded. */
    method ParseProperties(node: SgfcNode, content: Content, ghost g: Forest<SgfcNode>)
      requires Represents(g) && node in g.parent
      modifies node`properties
      ensures Represents(g) && Contents(g) == old(Contents(g))[node := content]
    {
      hide Forest.Linked, Forest.Acyclic, Forest.First, Forest.Next;
      node.properties := content;
      forall n | n in g.parent ensures Links(g, n) { assert old(Links(g, n)); }
    }

    /**
     * The inner loop of ParseGameTreeDepthFirst makes a node, appends it to the children of another one, and fills it.
     */
    method AddNode(currentParentNode: SgfcNode, content: Content, treeBuilder: SgfcTreeBuilder,
                   ghost g: Forest<SgfcNode>)
      returns (node: SgfcNode, ghost h: Forest<SgfcNode>)
      requires Represents(g) && currentParentNode in g.parent
      modifies g.parent.Keys`parent, g.parent.Keys`firstChild, g.parent.Keys`nextSibling
      ensures fresh(node) && h == Grown(g, currentParentNode, node) && Represents(h)
      ensures Contents(h) == old(Contents(g))[node := content]
    {
      hide Represents, Grown;
      node := CreateNode(g);
      h := AppendNode(currentParentNode, node, treeBuilder, g);
      ParseProperties(node, content, h);
    }

    /**
     * sgfRootNode is the decoded root node with its siblings, that is, the game trees behind it: these are not entered.
     */
    method ParseGameTreeDepthFirst(rootNode: SgfcNode, sgfRootNode: Level<Content>, treeBuilder: SgfcTreeBuilder)
      returns (ghost g: Forest<SgfcNode>)
      requires rootNode.parent == null && rootNode.firstChild == null && rootNode.nextSibling == null
      modifies rootNode
      ensures Represents(g) && rootNode in g.parent && g.parent[rootNode].None?
      ensures forall n :: n in g.parent && n != rootNode ==> fresh(n) && g.parent[n].Some?
      ensures rootNode.properties == old(rootNode.properties)
      ensures In(g, g.First(rootNode))
      ensures ContentOf(LevelAt(g, g.First(rootNode)), Contents(g)) ==
                if sgfRootNode.Nil? then Nil else sgfRootNode.below
    {
      hide Parsing, Remaining, ContentOf, LevelAt, Forest.Linked, Forest.Acyclic;
      g := Alone(rootNode);
      AloneIsRepresented(rootNode);
      StartParsing(Contents(g), rootNode, sgfRootNode);
      var stack: seq<Entry<SgfcNode>> := [];
      var currentNode: SgfcNode? := rootNode;
      var sgfCurrentNode := sgfRootNode;
      var currentParentNode: SgfcNode? := null;
      while true
        invariant Represents(g) && Parsing(g, Contents(g), rootNode, sgfRootNode, stack, sgfCurrentNode)
        invariant if stack == [] then g == Alone(rootNode) && currentNode == rootNode
            else currentParentNode == stack[|stack| - 1].0
        invariant forall n :: n in g.parent && n != rootNode ==> fresh(n)
        invariant rootNode.properties == old(rootNode.properties)
        decreases Remaining(stack, sgfCurrentNode), |stack|
      {
        ghost var remaining, height := Remaining(stack, sgfCurrentNode), |stack|;
        while sgfCurrentNode.Cons?
          invariant Represents(g) && Parsing(g, Contents(g), rootNode, sgfRootNode, stack, sgfCurrentNode)
          invariant if stack == [] then g == Alone(rootNode) && currentNode == rootNode
              else currentParentNode == stack[|stack| - 1].0
          invariant forall n :: n in g.parent && n != rootNode ==> fresh(n)
          invariant rootNode.properties == old(rootNode.properties)
          invariant Remaining(stack, sgfCurrentNode) < remaining
              || (Remaining(stack, sgfCurrentNode) == remaining && |stack| == height)
          decreases Remaining(stack, sgfCurrentNode)
        {
          RootOrNot(g, Contents(g), rootNode, sgfRootNode, stack, sgfCurrentNode);
          if sgfCurrentNode != sgfRootNode {
            ghost var f, contents := g, Contents(g);
            currentNode, g := AddNode(currentParentNode, sgfCurrentNode.node, treeBuilder, g);
            PushNew<SgfcNode>(f, contents, rootNode, sgfRootNode, stack, sgfCurrentNode, currentNode);
          } else {
            PushRoot(Contents(g), rootNode, sgfRootNode);
            assert stack + [(rootNode, sgfRootNode)] == [(rootNode, sgfRootNode)];
          }
          RemainingAfterPush<SgfcNode>(stack, sgfCurrentNode, currentNode);
          stack := stack + [(currentNode, sgfCurrentNode)];
          currentParentNode := currentNode;
          currentNode := null;
          sgfCurrentNode := sgfCurrentNode.below;
        }
        RootOrNot(g, Contents(g), rootNode, sgfRootNode, stack, sgfCurrentNode);
        if stack != [] {
          var currentStackEntry := stack[|stack| - 1];
          ghost var whole := stack;
          stack := stack[..|stack| - 1];
          currentNode := currentStackEntry.0;
          sgfCurrentNode := currentStackEntry.1;
          if sgfCurrentNode == sgfRootNode {
            PopRoot(g, Contents(g), rootNode, sgfRootNode, whole);
            break;
          }
          Pop(g, Contents(g), rootNode, sgfRootNode, whole);
          assert Links(g, currentNode);
          currentParentNode := currentNode.parent;
          currentNode := null;
          sgfCurrentNode := sgfCurrentNode.after;
        } else {
          NoRoot(g, Contents(g), rootNode);
          break;
        }
      }
    }

    /** One turn of the loop of ReadGames; the nodes of the other games are left alone. */
    method ReadGame(sgfRootNode: Level<Content>, ghost f: Forest<SgfcNode>)
      returns (game: SgfcGame, ghost g: Forest<SgfcNode>, ghost rootNode: SgfcNode)
      requires Represents(f) && sgfRootNode.Cons?
      ensures fresh(game) && game.rootNode == rootNode
      ensures Represents(g) && rootNode in g.parent && g.parent[rootNode].None?
      ensures f.parent.Keys !! g.parent.Keys && forall n :: n in g.parent ==> fresh(n)
      ensures TreeAt(g, Contents(g), rootNode, sgfRootNode.after) == sgfRootNode
    {
      hide Forest.Linked, Forest.Acyclic;
      var node := new SgfcNode();
      node.properties := sgfRootNode.node;
      game := new SgfcGame(node);
      var treeBuilder := new SgfcTreeBuilder();
      rootNode := node;
      g := ParseGameTreeDepthFirst(node, sgfRootNode, treeBuilder);
    }

    /**
     * The loop of the constructor that reads a document: one game for each of the root nodes, which are siblings.
     * All the games together are the whole input.
     */
    method ReadGames(sgfRootNodes: Level<Content>) returns (ghost f: Forest<SgfcNode>, ghost rootNodes: seq<SgfcNode>)
      requires games == []
      modifies this`games
      ensures Represents(f) && |games| == |rootNodes|
      ensures forall i :: 0 <= i < |games| ==> games[i].rootNode == rootNodes[i]
      ensures forall i :: 0 <= i < |rootNodes| ==> rootNodes[i] in f.parent && f.parent[rootNodes[i]].None?
      ensures TreesAt(f, Contents(f), rootNodes, Nil) == sgfRootNodes
    {
      hide TreesAt, TreeAt, Represents, Forest.Linked, Forest.Acyclic;
      f, rootNodes := NoNodes(), [];
      NoNodesAreValid(sgfRootNodes);
      var sgfRootNode := sgfRootNodes;
      while sgfRootNode.Cons?
        invariant f.Valid() && Represents(f) && |games| == |rootNodes|
        invariant forall n :: n in f.parent ==> fresh(n)
        invariant forall i :: 0 <= i < |games| ==> games[i].rootNode == rootNodes[i]
        invariant forall i :: 0 <= i < |rootNodes| ==> rootNodes[i] in f.parent && f.parent[rootNodes[i]].None?
        invariant TreesAt(f, Contents(f), rootNodes, sgfRootNode) == sgfRootNodes
        decreases sgfRootNode
      {
        var game;
        ghost var g, rootNode;
        game, g, rootNode := ReadGame(sgfRootNode, f);
        games := games + [game];
        AddGame(f, g, rootNodes, rootNode, sgfRootNode.after);
        f, rootNodes := Union(f, g), rootNodes + [rootNode];
        sgfRootNode := sgfRootNode.after;
      }
    }
  }
}
