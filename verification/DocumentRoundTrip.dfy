/** Whole documents on the heap: what Encode writes for games with true root nodes is read back as these game trees. */
module DocumentRoundTrip {
  import opened Sequences
  import opened Forests
  import opened Nodes
  import opened Rendering
  import opened Document
  import opened DocumentEncoder
  import opened GameTrees
  import opened Grammar
  import opened EncodingRoundTrip

  /** A root node of a document with its level is a game; a true root node has no siblings. */
  lemma RootIsGame<T>(f: Forest<T>, contents: map<T, Content>, x: T)
    requires f.Valid() && x in f.parent
    ensures f.parent[x].None? ==> !HasSiblings(f, x)
    ensures var l := ContentOf(LevelAt(f, Some(x)), contents);
      IsGame((l, HasSiblings(f, x))) && Cons(l.node, l.below, Nil) == TreeAt(f, contents, x, Nil)
  {
    LevelStep(f, x);
  }

  lemma GamesLength(f: Forest<SgfcNode>, contents: map<SgfcNode, Content>, rootNodes: seq<SgfcNode?>, k: nat)
    requires f.Valid() && RootsIn(f, rootNodes) && k <= |rootNodes| && AllRoots(rootNodes, k)
    ensures |GamesOf(f, contents, rootNodes, k)| == k
  {
  }

  lemma GameAt(f: Forest<SgfcNode>, contents: map<SgfcNode, Content>, rootNodes: seq<SgfcNode?>, k: nat, i: nat)
    requires f.Valid() && RootsIn(f, rootNodes) && i < k <= |rootNodes| && AllRoots(rootNodes, k)
    ensures |GamesOf(f, contents, rootNodes, k)| == k
    ensures GamesOf(f, contents, rootNodes, k)[i] ==
              (ContentOf(LevelAt(f, Some(rootNodes[i])), contents), HasSiblings(f, rootNodes[i]))
  {
    GamesLength(f, contents, rootNodes, k);
    GamesLength(f, contents, rootNodes, k - 1);
    if i < k - 1 { GameAt(f, contents, rootNodes, k - 1, i); }
  }

  /** The collection of the games is the game trees at their root nodes. */
  lemma {:induction false} CollectionIsTrees(f: Forest<SgfcNode>, contents: map<SgfcNode, Content>,
                                             rootNodes: seq<SgfcNode>, games: seq<(Level<Content>, bool)>)
    requires f.Valid() && |games| == |rootNodes| && forall i :: 0 <= i < |rootNodes| ==> rootNodes[i] in f.parent
    requires forall i :: 0 <= i < |games| ==>
               && IsGame(games[i])
               && Cons(games[i].0.node, games[i].0.below, Nil) == TreeAt(f, contents, rootNodes[i], Nil)
    ensures CollectionOf(games) == TreesAt(f, contents, rootNodes, Nil)
  {
    if games != [] {
      assert IsGame(games[0]);
      assert forall i :: 0 <= i < |games[1..]| ==> games[1..][i] == games[i + 1];
      CollectionIsTrees(f, contents, rootNodes[1..], games[1..]);
    }
  }

  /**
   * Main result on encoding: what Encode writes from the heap is read back as exactly the game trees at the root nodes,
   * if and only if there is a root node, none of them has siblings (a true root node never has), and all properties in
   * these trees have identifiers as names and closed values.
   */
  lemma {:induction false} EncodedTreesAreRead(f: Forest<SgfcNode>, contents: map<SgfcNode, Content>,
                                               rootNodes: seq<SgfcNode>)
    requires f.Valid() && RootsIn(f, rootNodes)
    requires forall i :: 0 <= i < |rootNodes| ==> rootNodes[i] in f.parent
    ensures ParseCollection(RenderGames(GamesOf(f, contents, rootNodes, |rootNodes|))) ==
              Some(RawLevel(TreesAt(f, contents, rootNodes, Nil)))
            <==>
            && rootNodes != [] && (forall i :: 0 <= i < |rootNodes| ==> !HasSiblings(f, rootNodes[i]))
            && ReadableLevel(TreesAt(f, contents, rootNodes, Nil))
  {
    hide RenderGames, ParseCollection, GamesOf, CollectionOf, TreesAt, TreeAt, RawLevel, ReadableContent, LevelAt,
         ReadableLevel, HasSiblings, Forest.Linked, Forest.Acyclic;
    var games := GamesOf(f, contents, rootNodes, |rootNodes|);
    GamesLength(f, contents, rootNodes, |rootNodes|);
    forall i | 0 <= i < |rootNodes|
      ensures IsGame(games[i]) && games[i].1 == HasSiblings(f, rootNodes[i])
      ensures Cons(games[i].0.node, games[i].0.below, Nil) == TreeAt(f, contents, rootNodes[i], Nil)
    {
      GameAt(f, contents, rootNodes, |rootNodes|, i);
      RootIsGame(f, contents, rootNodes[i]);
    }
    EncodedDocumentIsRead(games);
    CollectionIsTrees(f, contents, rootNodes, games);
  }

  lemma OneGameIsRead(content: Content, below: Level<Content>)
    ensures ParseCollection(RenderGame(Cons(content, below, Nil), false)) == Some(RawLevel(Cons(content, below, Nil)))
            <==> ReadableContent(content) && ReadableLevel(below)
  {
    hide RenderGame, RenderGames, ParseCollection, ReadableContent;
    var tree: Level<Content> := Cons(content, below, Nil);
    assert ReadableLevel(tree.after);
    var game := (tree, false);
    RenderFirstGame(game, []);
    NoGames();
    assert [game] + [] == [game];
    assert RenderGame(game.0, game.1) + "" == RenderGame(game.0, game.1);
    assert IsGame([game][0]) && [game][1..] == [];
    EncodedDocumentIsRead([game]);
  }

  /** A game tree in the heap whose content is a given tree is read back as this tree exactly if it is readable. */
  lemma {:induction false} ReadTreeIsReadAgain(f: Forest<SgfcNode>, contents: map<SgfcNode, Content>,
                                               rootNode: SgfcNode, sgfRootNode: Level<Content>)
    requires f.Valid() && rootNode in f.parent && f.parent[rootNode].None? && rootNode in contents
    requires sgfRootNode.Cons? && contents[rootNode] == sgfRootNode.node
    requires In(f, f.First(rootNode)) && ContentOf(LevelAt(f, f.First(rootNode)), contents) == sgfRootNode.below
    ensures ParseCollection(RenderGame(ContentOf(LevelAt(f, Some(rootNode)), contents), HasSiblings(f, rootNode))) ==
              Some(RawLevel(Cons(sgfRootNode.node, sgfRootNode.below, Nil)))
            <==> ReadableContent(sgfRootNode.node) && ReadableLevel(sgfRootNode.below)
  {
    hide RenderGame, RenderGames, ParseCollection, LevelAt, ReadableContent, Forest.Linked, Forest.Acyclic;
    RootIsGame(f, contents, rootNode);
    OneGameIsRead(sgfRootNode.node, sgfRootNode.below);
  }

  /**
   * Main result on documents: read into nodes, written by Encode and read again, it is the same games, if and only if
   * there is a game and all properties are readable.
   */
  method ReadAndEncode(sgfRootNodes: Level<Content>) returns (sgfContent: string)
    ensures ParseCollection(sgfContent) == Some(RawLevel(sgfRootNodes)) <==>
            sgfRootNodes.Cons? && ReadableLevel(sgfRootNodes)
  {
    hide RenderGames, ParseCollection, GamesOf, RawLevel, ReadableLevel, LevelAt, HasSiblings,
         Forest.Linked, Forest.Acyclic;
    var document := new SgfcDocument();
    ghost var f, roots;
    f, roots := document.ReadGames(sgfRootNodes);
    var rootNodes: seq<SgfcNode?> := [];
    while |rootNodes| < |document.games|
      invariant |rootNodes| <= |roots| && rootNodes == roots[..|rootNodes|]
    {
      rootNodes := rootNodes + [document.games[|rootNodes|].rootNode];
    }
    assert rootNodes == roots;
    var encoder := new SgfcDocumentEncoder();
    var r := encoder.Encode(rootNodes, f);
    forall i | 0 <= i < |roots| ensures !HasSiblings(f, roots[i]) { RootIsGame(f, Contents(f), roots[i]); }
    EncodedTreesAreRead(f, Contents(f), roots);
    sgfContent := r.sgfContent;
  }
}
