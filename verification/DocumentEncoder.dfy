/** The document encoder: nodes of a heap, written to a stream by a loop with a stack. */
module DocumentEncoder {
  import opened Sequences
  import opened Forests
  import opened Relinking
  import opened Properties
  import opened Nodes
  import opened Rendering
  import opened Traversal

  /** The properties of all nodes. */
  ghost function Contents(f: Forest<SgfcNode>): map<SgfcNode, Content>
    reads f.parent.Keys
  {
    map n | n in f.parent :: n.properties
  }

  /** A level of nodes as a level of what the nodes contain. */
  ghost function ContentOf<T>(l: Level<T>, contents: map<T, Content>): Level<Content> {
    match l
    case Nil => Nil
    case Cons(x, below, after) =>
      Cons(if x in contents then contents[x] else [], ContentOf(below, contents), ContentOf(after, contents))
  }

  ghost predicate HasSiblings<T>(f: Forest<T>, x: T)
    requires f.Linked() && x in f.parent
  {
    f.Next(x).Some? || f.Previous(x).Some?
  }

  // ---------------------------------------------------------------- what is left to write

  /**
   * The text still to come: the level at o, then for each node on the stack its closing line and the siblings after it.
   */
  ghost function Todo<T>(f: Forest<T>, contents: map<T, Content>, stack: seq<T>, o: Option<T>, level: int): string
    requires OnForest(f, stack, o)
    decreases |stack|, 1
  {
    RenderLevel(ContentOf(LevelAt(f, o), contents), o.Some? && HasSiblings(f, o.value), level)
    + TodoStack(f, contents, stack, level)
  }

  ghost function TodoStack<T>(f: Forest<T>, contents: map<T, Content>, stack: seq<T>, level: int): string
    requires OnForest(f, stack, None)
    decreases |stack|, 0
  {
    if stack == [] then ""
    else
      var top, rest := stack[|stack| - 1], stack[..|stack| - 1];
      LevelStep(f, top);
      if HasSiblings(f, top) then EndLine(level - 1) + Todo(f, contents, rest, f.Next(top), level - 1)
      else Todo(f, contents, rest, f.Next(top), level)
  }

  /** What is written and what is still to come. */
  ghost function Whole<T>(f: Forest<T>, contents: map<T, Content>, stack: seq<T>, o: Option<T>, level: int,
                          written: string): string
    requires OnForest(f, stack, o)
  {
    written + Todo(f, contents, stack, o, level)
  }

  /** The siblings of a node have siblings, and a level of children is written with parentheses if there are several. */
  lemma SiblingsHaveSiblings<T>(f: Forest<T>, x: T)
    requires f.Valid() && x in f.parent
    ensures In(f, f.First(x)) && In(f, f.Next(x))
    ensures f.Next(x).Some? ==> HasSiblings(f, x) && HasSiblings(f, f.Next(x).value)
    ensures f.First(x).Some? ==> (HasSiblings(f, f.First(x).value) <==> Many(LevelAt(f, f.First(x))))
  {
    LevelStep(f, x);
    if f.Next(x).Some? {
      LinksAt(f, f.parent[x].value, f.Place(x) + 1);
    }
    if f.First(x).Some? {
      LinksAt(f, x, 0);
      LevelStep(f, f.First(x).value);
    }
  }

  lemma ManyContents<T>(l: Level<T>, contents: map<T, Content>)
    ensures Many(ContentOf(l, contents)) <==> Many(l)
  {
  }

  /** Nothing to write, however it is written. */
  lemma NilRenders<T>(f: Forest<T>, o: Option<T>, contents: map<T, Content>, many: bool, level: int)
    requires f.Valid() && In(f, o) && (o.Some? ==> (many <==> HasSiblings(f, o.value)))
    ensures RenderLevel(ContentOf(LevelAt(f, o), contents), many, level) ==
              RenderLevel(ContentOf(LevelAt(f, o), contents), o.Some? && HasSiblings(f, o.value), level)
  {
  }

  lemma Regroup(a: string, b: string, c: string, d: string, e: string)
    ensures a + b + c + d + e == a + (b + (c + (d + e)))
  {
  }

  lemma TodoIs<T>(f: Forest<T>, contents: map<T, Content>, stack: seq<T>, o: Option<T>, many: bool, level: int)
    requires OnForest(f, stack, o) && (o.Some? ==> (many <==> HasSiblings(f, o.value)))
    ensures OnForest(f, stack, None)
    ensures Todo(f, contents, stack, o, level) ==
              RenderLevel(ContentOf(LevelAt(f, o), contents), many, level) + TodoStack(f, contents, stack, level)
  {
    NilRenders(f, o, contents, many, level);
  }

  lemma TodoPushed<T>(f: Forest<T>, contents: map<T, Content>, stack: seq<T>, x: T, level: int)
    requires OnForest(f, stack, Some(x))
    ensures OnForest(f, stack + [x], None) && OnForest(f, stack, f.Next(x))
    ensures var many := HasSiblings(f, x);
      TodoStack(f, contents, stack + [x], if many then level + 1 else level) ==
        (if many then EndLine(level) else "") + Todo(f, contents, stack, f.Next(x), level)
  {
    hide RenderLevel, ContentOf, EndLine;
    LevelStep(f, x);
    assert (stack + [x])[..|stack|] == stack;
    var later := Todo(f, contents, stack, f.Next(x), level);
    assert "" + later == later;
  }

  lemma RenderNode<T>(f: Forest<T>, contents: map<T, Content>, x: T, many: bool, level: int)
    requires f.Valid() && x in f.parent && x in contents
    ensures In(f, f.First(x)) && In(f, f.Next(x))
    ensures var inner := if many then level + 1 else level;
      RenderLevel(ContentOf(LevelAt(f, Some(x)), contents), many, level) ==
        (if many then BeginLine(level) else "") + NodeLine(contents[x], inner)
        + RenderLevel(ContentOf(LevelAt(f, f.First(x)), contents), Many(LevelAt(f, f.First(x))), inner)
        + (if many then EndLine(level) else "")
        + RenderLevel(ContentOf(LevelAt(f, f.Next(x)), contents), many, level)
  {
    hide NodeLine, BeginLine, EndLine;
    LevelStep(f, x);
    ManyContents(LevelAt(f, f.First(x)), contents);
  }

  /** Writing a node and going down. */
  lemma PushStep<T>(f: Forest<T>, contents: map<T, Content>, stack: seq<T>, x: T, level: int)
    requires OnForest(f, stack, Some(x)) && x in contents
    ensures OnForest(f, stack + [x], f.First(x))
    ensures var many := HasSiblings(f, x);
      var inner := if many then level + 1 else level;
      Todo(f, contents, stack, Some(x), level) ==
        (if many then BeginLine(level) else "") + NodeLine(contents[x], inner)
          + Todo(f, contents, stack + [x], f.First(x), inner)
  {
    hide Todo, TodoStack, RenderLevel, ContentOf, LevelAt, NodeLine, BeginLine, EndLine, HasSiblings, Many,
         Forest.Acyclic;
    var many := HasSiblings(f, x);
    var inner := if many then level + 1 else level;
    SiblingsHaveSiblings(f, x);
    TodoPushed(f, contents, stack, x, level);
    TodoIs(f, contents, stack, Some(x), many, level);
    TodoIs(f, contents, stack, f.Next(x), many, level);
    TodoIs(f, contents, stack + [x], f.First(x), Many(LevelAt(f, f.First(x))), inner);
    RenderNode(f, contents, x, many, level);
    Regroup((if many then BeginLine(level) else "") + NodeLine(contents[x], inner),
      RenderLevel(ContentOf(LevelAt(f, f.First(x)), contents), Many(LevelAt(f, f.First(x))), inner),
      if many then EndLine(level) else "",
      RenderLevel(ContentOf(LevelAt(f, f.Next(x)), contents), many, level),
      TodoStack(f, contents, stack, level));
  }

  /** Taking a node from the stack. */
  lemma PopStep<T>(f: Forest<T>, contents: map<T, Content>, stack: seq<T>, level: int)
    requires OnForest(f, stack, None) && stack != []
    ensures var top, rest := stack[|stack| - 1], stack[..|stack| - 1];
      top in f.parent && OnForest(f, rest, f.Next(top)) &&
      var outer := if HasSiblings(f, top) then level - 1 else level;
      Todo(f, contents, stack, None, level) ==
           (if HasSiblings(f, top) then EndLine(outer) else "") + Todo(f, contents, rest, f.Next(top), outer)
  {
    LevelStep(f, stack[|stack| - 1]);
    assert Todo(f, contents, stack, None, level) == TodoStack(f, contents, stack, level);
  }

  // ---------------------------------------------------------------- the encoder

  datatype EncodeResult = Encoded(sgfContent: string) | NoRootNode(indexOfGame: nat)

  ghost predicate RootsIn(f: Forest<SgfcNode>, rootNodes: seq<SgfcNode?>) {
    forall i :: 0 <= i < |rootNodes| && rootNodes[i] != null ==> rootNodes[i] in f.parent
  }

  /** The first k games have a root node. */
  ghost predicate AllRoots(rootNodes: seq<SgfcNode?>, k: nat)
    requires k <= |rootNodes|
  {
    forall i :: 0 <= i < k ==> rootNodes[i] != null
  }

  /** The first k games of a document: for each root node its level, and whether it has siblings. */
  ghost function GamesOf(f: Forest<SgfcNode>, contents: map<SgfcNode, Content>, rootNodes: seq<SgfcNode?>,
                         k: nat): seq<(Level<Content>, bool)>
    requires f.Valid() && RootsIn(f, rootNodes) && k <= |rootNodes| && AllRoots(rootNodes, k)
  {
    if k == 0 then []
    else
      var n := rootNodes[k - 1];
      GamesOf(f, contents, rootNodes, k - 1) + [(ContentOf(LevelAt(f, Some(n)), contents), HasSiblings(f, n))]
  }

  lemma GamesStep(f: Forest<SgfcNode>, contents: map<SgfcNode, Content>, rootNodes: seq<SgfcNode?>, k: nat)
    requires f.Valid() && RootsIn(f, rootNodes) && k < |rootNodes| && AllRoots(rootNodes, k) && rootNodes[k] != null
    ensures AllRoots(rootNodes, k + 1)
    ensures var n := rootNodes[k];
      RenderGames(GamesOf(f, contents, rootNodes, k + 1)) ==
        RenderGames(GamesOf(f, contents, rootNodes, k))
          + RenderGame(ContentOf(LevelAt(f, Some(n)), contents), HasSiblings(f, n))
  {
    var games, n := GamesOf(f, contents, rootNodes, k), rootNodes[k];
    var game := (ContentOf(LevelAt(f, Some(n)), contents), HasSiblings(f, n));
    assert (games + [game])[..|games|] == games;
  }

  lemma ValuesStep(vs: seq<PropertyValue>, i: nat)
    requires i < |vs|
    ensures ValuesText(vs[i..]) == "[" + ValueText(vs[i]) + "]" + ValuesText(vs[i + 1..])
  {
    assert vs[i..][1..] == vs[i + 1..];
  }

  lemma ValuesEnd(vs: seq<PropertyValue>)
    ensures ValuesText(vs[|vs|..]) == ""
  {
  }

  lemma ContentStep(ps: Content, i: nat)
    requires i < |ps|
    ensures ContentText(ps[i..]) == PropertyText(ps[i]) + ContentText(ps[i + 1..])
  {
    assert ps[i..][1..] == ps[i + 1..];
  }

  lemma ContentEnd(ps: Content)
    ensures ContentText(ps[|ps|..]) == ""
  {
  }

  /** At the start everything is still to write, at the end nothing. */
  lemma TodoAtTheEnds<T>(f: Forest<T>, contents: map<T, Content>, x: T, level: int)
    requires f.Valid() && x in f.parent
    ensures Todo(f, contents, [], Some(x), level) ==
              RenderLevel(ContentOf(LevelAt(f, Some(x)), contents), HasSiblings(f, x), level)
    ensures Todo(f, contents, [], None, level) == ""
  {
    var text := RenderLevel(ContentOf(LevelAt(f, Some(x)), contents), HasSiblings(f, x), level);
    assert text + "" == text;
  }

  lemma WholeAtTheEnd<T>(f: Forest<T>, contents: map<T, Content>, x: T, level: int, stream: string, endLevel: int,
                         r: string)
    requires f.Valid() && x in f.parent
    ensures Whole(f, contents, [], Some(x), level, stream) ==
              stream + RenderLevel(ContentOf(LevelAt(f, Some(x)), contents), HasSiblings(f, x), level)
    ensures Whole(f, contents, [], None, endLevel, r) == r
  {
    TodoAtTheEnds(f, contents, x, level);
    TodoAtTheEnds(f, contents, x, endLevel);
    assert r + "" == r;
  }

  lemma Regroup2(a: string, b: string, c: string, d: string)
    ensures a + b + c + d == a + (b + c + d) && a + "" == a
  {
  }

  lemma Regroup3(a: string, b: string, c: string, d: string)
    ensures a + b + c + d == a + (b + c + d)
  {
  }

  class SgfcDocumentEncoder {
    constructor () {}

    method EncodeIndentation(indentationLevel: int, stream: string) returns (r: string)
      ensures r == stream + Indentation(indentationLevel)
    {
      r := stream;
      var level := indentationLevel;
      assert stream + Indentation(level) == stream + Indentation(indentationLevel);
      while level > 0
        invariant r + Indentation(level) == stream + Indentation(indentationLevel)
      {
        ConcatIsAssociative(r, "  ", Indentation(level - 1));
        r := r + "  ";
        level := level - 1;
      }
      assert r + "" == r;
    }

    method EncodeGameTreeBeginOrEnd(beginOrEndToken: string, stream: string, indentationLevel: int) returns (r: string)
      ensures r == stream + (Indentation(indentationLevel) + beginOrEndToken + "\n")
    {
      r := EncodeIndentation(indentationLevel, stream);
      r := r + beginOrEndToken;
      r := r + "\n";
    }

    method EncodeProperty(property: SgfcProperty, stream: string) returns (r: string)
      ensures r == stream + PropertyText(property)
    {
      hide ValuesText, ValueText;
      r := stream + property.propertyName;
      var propertyHasNoValues := true;
      ghost var head, vs := r, property.values;
      assert vs[0..] == vs;
      var i := 0;
      while i < |property.values|
        invariant i <= |vs| && (propertyHasNoValues <==> i == 0) && (i == 0 ==> r == head)
        invariant r + ValuesText(vs[i..]) == head + ValuesText(vs)
      {
        propertyHasNoValues := false;
        var text := "[" + ValueText(property.values[i]) + "]";
        ValuesStep(vs, i);
        ConcatIsAssociative(r, text, ValuesText(vs[i + 1..]));
        r := r + text;
        i := i + 1;
      }
      if propertyHasNoValues {
        r := r + "[]";
        ConcatIsAssociative(stream, property.propertyName, "[]");
      } else {
        ValuesEnd(vs);
        assert r + "" == r;
        ConcatIsAssociative(stream, property.propertyName, ValuesText(vs));
      }
    }

    method EncodeNode(node: SgfcNode, stream: string, indentationLevel: int) returns (r: string)
      ensures r == stream + NodeLine(node.properties, indentationLevel)
    {
      hide ContentText, PropertyText, Indentation;
      r := EncodeIndentation(indentationLevel, stream);
      r := r + ";";
      ghost var head, ps := r, node.properties;
      assert ps[0..] == ps;
      var i := 0;
      while i < |node.properties|
        invariant i <= |ps|
        invariant r + ContentText(ps[i..]) == head + ContentText(ps)
      {
        ContentStep(ps, i);
        ConcatIsAssociative(r, PropertyText(ps[i]), ContentText(ps[i + 1..]));
        r := EncodeProperty(node.properties[i], r);
        i := i + 1;
      }
      ContentEnd(ps);
      assert r + "" == r;
      r := r + "\n";
      Regroup(stream, Indentation(indentationLevel), ";", ContentText(ps), "\n");
    }

    method HasSiblingNodes(node: SgfcNode, ghost f: Forest<SgfcNode>) returns (r: bool)
      requires Represents(f) && node in f.parent
      ensures r <==> HasSiblings(f, node)
    {
      assert Links(f, node);
      r := node.nextSibling != null;
      if !r {
        var previousSibling := node.GetPreviousSibling(f);
        r := previousSibling != null;
      }
    }

    /**
     * The inner loop of ParseDepthFirst writes a node, and before it the beginning of a variation if the node has
     * siblings.
     */
    method BeginNode(node: SgfcNode, stream: string, level: int, ghost f: Forest<SgfcNode>, ghost stack: seq<SgfcNode>)
      returns (r: string, inner: int)
      requires Represents(f) && OnForest(f, stack, Some(node))
      ensures node.firstChild == Ptr(f.First(node)) && OnForest(f, stack + [node], f.First(node))
      ensures Whole(f, Contents(f), stack + [node], f.First(node), inner, r) ==
                Whole(f, Contents(f), stack, Some(node), level, stream)
    {
      assert Links(f, node);
      r, inner := stream, level;
      var many := HasSiblingNodes(node, f);
      if many {
        r := EncodeGameTreeBeginOrEnd("(", r, inner);
        inner := inner + 1;
      }
      r := EncodeNode(node, r, inner);
      PushStep(f, Contents(f), stack, node, level);
      Regroup2(stream, if many then BeginLine(level) else "", NodeLine(node.properties, inner),
               Todo(f, Contents(f), stack + [node], f.First(node), inner));
    }

    /** The outer loop of ParseDepthFirst writes the end of the variation, if the node has siblings. */
    method EndNode(node: SgfcNode, stream: string, level: int, ghost f: Forest<SgfcNode>, ghost stack: seq<SgfcNode>)
      returns (r: string, outer: int)
      requires Represents(f) && OnForest(f, stack, None) && stack != [] && stack[|stack| - 1] == node
      ensures node.nextSibling == Ptr(f.Next(node)) && OnForest(f, stack[..|stack| - 1], f.Next(node))
      ensures Whole(f, Contents(f), stack[..|stack| - 1], f.Next(node), outer, r) ==
                Whole(f, Contents(f), stack, None, level, stream)
    {
      assert Links(f, node);
      r, outer := stream, level;
      var many := HasSiblingNodes(node, f);
      if many {
        outer := outer - 1;
        r := EncodeGameTreeBeginOrEnd(")", r, outer);
      }
      PopStep(f, Contents(f), stack, level);
      ConcatIsAssociative(stream, if many then EndLine(outer) else "",
        Todo(f, Contents(f), stack[..|stack| - 1], f.Next(node), outer));
    }

    method ParseDepthFirst(rootNode: SgfcNode, stream: string, startLevel: int, ghost f: Forest<SgfcNode>)
      returns (r: string)
      requires Represents(f) && rootNode in f.parent
      ensures r == stream + RenderLevel(ContentOf(LevelAt(f, Some(rootNode)), Contents(f)), HasSiblings(f, rootNode),
                startLevel)
    {
      hide Whole, Todo, TodoStack, RenderLevel, ContentOf, LevelAt, Left, HasSiblings, Forest.Linked, Forest.Acyclic;
      ghost var contents := Contents(f);
      ghost var target := Whole(f, contents, [], Some(rootNode), startLevel, stream);
      r := stream;
      var indentationLevel := startLevel;
      var stack: seq<SgfcNode> := [];
      var currentNode: SgfcNode? := rootNode;
      while true
        invariant OnForest(f, stack, Opt(currentNode))
        invariant Whole(f, contents, stack, Opt(currentNode), indentationLevel, r) == target
        decreases Left(f, stack, Opt(currentNode)), |stack|
      {
        ghost var todo, height := Left(f, stack, Opt(currentNode)), |stack|;
        while currentNode != null
          invariant OnForest(f, stack, Opt(currentNode))
          invariant Whole(f, contents, stack, Opt(currentNode), indentationLevel, r) == target
          invariant Left(f, stack, Opt(currentNode)) < todo
              || (Left(f, stack, Opt(currentNode)) == todo && |stack| == height)
          decreases Left(f, stack, Opt(currentNode))
        {
          LeftAfterVisit(f, stack, currentNode);
          r, indentationLevel := BeginNode(currentNode, r, indentationLevel, f, stack);
          stack := stack + [currentNode];
          currentNode := currentNode.firstChild;
        }
        if stack != [] {
          LeftAfterPop(f, stack);
          currentNode := stack[|stack| - 1];
          r, indentationLevel := EndNode(currentNode, r, indentationLevel, f, stack);
          stack := stack[..|stack| - 1];
          currentNode := currentNode.nextSibling;
        } else {
          break;
        }
      }
      WholeAtTheEnd(f, contents, rootNode, startLevel, stream, indentationLevel, r);
    }

    /** The body of the loop of Encode. */
    method EncodeGame(rootNode: SgfcNode, stream: string, level: int, ghost f: Forest<SgfcNode>) returns (r: string)
      requires Represents(f) && rootNode in f.parent && level == 0
      ensures r == stream + RenderGame(ContentOf(LevelAt(f, Some(rootNode)), Contents(f)), HasSiblings(f, rootNode))
    {
      var indentationLevel := level;
      r := EncodeGameTreeBeginOrEnd("(", stream, indentationLevel);
      indentationLevel := indentationLevel + 1;
      r := ParseDepthFirst(rootNode, r, indentationLevel, f);
      indentationLevel := indentationLevel - 1;
      r := EncodeGameTreeBeginOrEnd(")", r, indentationLevel);
      Regroup3(stream, BeginLine(0),
        RenderLevel(ContentOf(LevelAt(f, Some(rootNode)), Contents(f)), HasSiblings(f, rootNode), 1), EndLine(0));
    }

    /** The root nodes stand for the games of the document. */
    method Encode(rootNodes: seq<SgfcNode?>, ghost f: Forest<SgfcNode>) returns (r: EncodeResult)
      requires Represents(f) && RootsIn(f, rootNodes)
      ensures r.NoRootNode? ==>
                r.indexOfGame < |rootNodes| && rootNodes[r.indexOfGame] == null && AllRoots(rootNodes, r.indexOfGame)
      ensures r.Encoded? ==> AllRoots(rootNodes, |rootNodes|)
                             && r.sgfContent == RenderGames(GamesOf(f, Contents(f), rootNodes, |rootNodes|))
    {
      hide RenderLevel, Forest.Linked, HasSiblings, Indentation;
      var stream := "";
      var indentationLevel := 0;
      var i := 0;
      while i < |rootNodes|
        invariant i <= |rootNodes| && AllRoots(rootNodes, i) && indentationLevel == 0
        invariant stream == RenderGames(GamesOf(f, Contents(f), rootNodes, i))
      {
        var rootNode := rootNodes[i];
        if rootNode == null {
          return NoRootNode(i);
        }
        GamesStep(f, Contents(f), rootNodes, i);
        stream := EncodeGame(rootNode, stream, indentationLevel, f);
        i := i + 1;
      }
      r := Encoded(stream);
    }
  }
}
