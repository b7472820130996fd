/** What the encoder writes, the grammar reads back: the same collection of ordered trees. */
module EncodingRoundTrip {
  import opened Sequences
  import opened Forests
  import opened Text
  import opened Escaping
  import opened Properties
  import opened Rendering
  import opened Grammar
  import opened WellWritten

  // ---------------------------------------------------------------- what should be read back

  function RawValues(vs: seq<PropertyValue>): seq<string> {
    if vs == [] then [] else [ValueText(vs[0])] + RawValues(vs[1..])
  }

  /** A property without values is written as one with an empty value. */
  function RawOf(p: SgfcProperty): RawProperty {
    RawProperty(p.propertyName, if p.values == [] then [""] else RawValues(p.values))
  }

  function RawContentOf(ps: Content): RawContent {
    if ps == [] then [] else [RawOf(ps[0])] + RawContentOf(ps[1..])
  }

  function RawLevel(l: Level<Content>): Level<RawContent> {
    match l
    case Nil => Nil
    case Cons(ps, below, after) => Cons(RawContentOf(ps), RawLevel(below), RawLevel(after))
  }

  // ---------------------------------------------------------------- what the grammar can read

  /** The name is a property identifier and every value ends at its bracket. */
  predicate Readable(p: SgfcProperty) {
    IsIdentifier(p.propertyName) && forall v :: v in p.values ==> Closed(ValueText(v), {']'})
  }

  predicate ReadableContent(ps: Content) {
    forall i :: 0 <= i < |ps| ==> Readable(ps[i])
  }

  predicate ReadableLevel(l: Level<Content>) {
    l.Cons? ==> ReadableContent(l.node) && ReadableLevel(l.below) && ReadableLevel(l.after)
  }

  lemma ValuesAreWellWrittenIff(vs: seq<PropertyValue>)
    ensures (forall text :: text in RawValues(vs) ==> Closed(text, {']'})) <==>
            (forall v :: v in vs ==> Closed(ValueText(v), {']'}))
  {
    hide Closed, ValueText;
    if vs != [] { ValuesAreWellWrittenIff(vs[1..]); }
  }

  lemma IsWellWrittenIff(p: SgfcProperty)
    ensures IsWellWritten(RawOf(p)) <==> Readable(p)
  {
    ValuesAreWellWrittenIff(p.values);
  }

  lemma {:induction false} ContentIsWellWrittenIff(ps: Content)
    ensures WellWrittenContent(RawContentOf(ps)) <==> ReadableContent(ps)
  {
    hide RawOf, IsWellWritten, Readable;
    if ps != [] {
      var rest := ps[1..];
      ContentIsWellWrittenIff(rest);
      IsWellWrittenIff(ps[0]);
      assert ReadableContent(ps) <==> Readable(ps[0]) && ReadableContent(rest) by {
        assert forall i :: 0 <= i < |rest| ==> rest[i] == ps[i + 1];
        assert forall i :: 0 < i < |ps| ==> ps[i] == rest[i - 1];
      }
    }
  }

  /** What a level is written as is well written exactly if the level is readable. */
  lemma {:induction false} LevelIsWellWrittenIff(l: Level<Content>)
    ensures WellWrittenLevel(RawLevel(l)) <==> ReadableLevel(l)
  {
    hide WellWrittenContent, ReadableContent;
    if l.Cons? {
      ContentIsWellWrittenIff(l.node);
      LevelIsWellWrittenIff(l.below);
      LevelIsWellWrittenIff(l.after);
    }
  }

  /** The next token is neither a value nor an identifier. */
  predicate EndsContent(s: string) {
    !StartsWith(SkipSpace(s), '[') && !StartsUpper(SkipSpace(s))
  }

  // ---------------------------------------------------------------- values and properties

  lemma ParseOneValue(text: string, s: string)
    requires Closed(text, {']'})
    ensures ParseValues("[" + text + "]" + s) ==
              match ParseValues(s)
              case None => None
              case Some((texts, end)) => Some(([text] + texts, end))
  {
    var whole := "[" + text + "]" + s;
    assert whole[1..] == text + ("]" + s);
    assert SkipSpace(whole) == whole;
    ClosedIffScanned(text, "]" + s, {']'});
    assert ("]" + s)[1..] == s;
  }

  lemma {:induction false} ParseWrittenValues(vs: seq<PropertyValue>, tail: string)
    requires (forall v :: v in vs ==> Closed(ValueText(v), {']'})) && !StartsWith(SkipSpace(tail), '[')
    ensures ParseValues(ValuesText(vs) + tail) == Some((RawValues(vs), SkipSpace(tail)))
  {
    if vs == [] {
      assert "" + tail == tail;
    } else {
      ParseWrittenValues(vs[1..], tail);
      ParseOneValue(ValueText(vs[0]), ValuesText(vs[1..]) + tail);
      assert ValuesText(vs) + tail == "[" + ValueText(vs[0]) + "]" + (ValuesText(vs[1..]) + tail);
    }
  }

  lemma {:induction false} ParseIdentifier(name: string, s: string)
    requires (forall c :: c in name ==> IsUpper(c)) && StartsWith(s, '[')
    ensures Identifier(name + s) == (name, s)
  {
    if name == "" {
      assert name + s == s;
    } else {
      ParseIdentifier(name[1..], s);
      assert (name + s)[1..] == name[1..] + s;
      assert name[0] in name && [name[0]] + name[1..] == name;
    }
  }

  lemma ValuesStart(p: SgfcProperty, tail: string)
    ensures var values := if p.values == [] then "[]" else ValuesText(p.values);
      && values != "" && values[0] == '[' && PropertyText(p) == p.propertyName + values
      && RawOf(p).values != [] && RawOf(p).name == p.propertyName
  {
  }

  lemma ParsePropertyValues(p: SgfcProperty, tail: string)
    requires Readable(p) && !StartsWith(SkipSpace(tail), '[')
    ensures ParseValues((if p.values == [] then "[]" else ValuesText(p.values)) + tail) ==
              Some((RawOf(p).values, SkipSpace(tail)))
  {
    if p.values == [] {
      ParseOneValue("", tail);
      assert "[" + "" + "]" + tail == "[]" + tail;
      assert ParseValues(tail) == Some(([], SkipSpace(tail)));
      assert [""] + [] == [""];
    } else {
      ParseWrittenValues(p.values, tail);
    }
  }

  /** Unfolding of ParseContent, behind the first property. */
  lemma PropertyFollows(s: string, name: string, behind: string, texts: seq<string>, end: string)
    requires StartsUpper(s) && Identifier(s) == (name, behind) && ParseValues(behind) == Some((texts, end))
              && texts != []
    ensures ParseContent(s) ==
      match ParseContent(end)
      case None => None
      case Some((ps, rest)) => Some(([RawProperty(name, texts)] + ps, rest))
  {
    assert SkipSpace(s) == s;
  }

  lemma ParseOneProperty(p: SgfcProperty, tail: string)
    requires Readable(p) && !StartsWith(SkipSpace(tail), '[')
    ensures ParseContent(PropertyText(p) + tail) ==
              match ParseContent(tail)
              case None => None
              case Some((ps, end)) => Some(([RawOf(p)] + ps, end))
  {
    hide Scan, ValuesText, ValueText, PropertyText, RawOf, ParseValues, ParseContent, Closed, SkipSpace, Identifier;
    var values := if p.values == [] then "[]" else ValuesText(p.values);
    ValuesStart(p, tail);
    ParsePropertyValues(p, tail);
    var whole := PropertyText(p) + tail;
    ConcatIsAssociative(p.propertyName, values, tail);
    ParseIdentifier(p.propertyName, values + tail);
    assert whole[0] == p.propertyName[0] && p.propertyName[0] in p.propertyName;
    PropertyFollows(whole, p.propertyName, values + tail, RawOf(p).values, SkipSpace(tail));
    assert RawOf(p) == RawProperty(p.propertyName, RawOf(p).values);
    SkipSpaceTwice(tail);
    ParsersSkipSpace(SkipSpace(tail), tail);
  }

  function BracketedText(texts: seq<string>): string {
    if texts == [] then "" else "[" + texts[0] + "]" + BracketedText(texts[1..])
  }

  lemma BracketedIsValuesText(vs: seq<PropertyValue>)
    ensures BracketedText(RawValues(vs)) == ValuesText(vs)
  {
  }

  lemma TextOfRaw(p: SgfcProperty)
    ensures PropertyText(p) == RawOf(p).name + BracketedText(RawOf(p).values)
    ensures RawOf(p).values == RawValues(p.values) <==> p.values != []
  {
    BracketedIsValuesText(p.values);
    assert BracketedText([""]) == "[]" by { assert [""][1..] == []; }
  }

  lemma NoContent()
    ensures ParseContent("") == Some(([], ""))
  {
  }

  /**
   * Two readable properties are written as the same text exactly if they have the same name and the same texts as
   * values, where no value counts as one empty value: the values are recovered exactly if there is at least one.
   */
  lemma SameTextIff(p: SgfcProperty, q: SgfcProperty)
    requires Readable(p) && Readable(q)
    ensures PropertyText(p) == PropertyText(q) <==> RawOf(p) == RawOf(q)
    ensures RawOf(p).values == RawValues(p.values) <==> p.values != []
  {
    hide PropertyText, RawOf, ParseContent, Readable;
    TextOfRaw(p);
    TextOfRaw(q);
    ParseOneProperty(p, "");
    ParseOneProperty(q, "");
    NoContent();
    assert PropertyText(p) + "" == PropertyText(p) && PropertyText(q) + "" == PropertyText(q);
    assert ([RawOf(p)] + [])[0] == RawOf(p) && ([RawOf(q)] + [])[0] == RawOf(q);
  }

  lemma ContentStarts(ps: Content, tail: string)
    requires ReadableContent(ps) && EndsContent(tail)
    ensures !StartsWith(SkipSpace(ContentText(ps) + tail), '[')
  {
    if ps == [] {
      assert "" + tail == tail;
    } else {
      var name := ps[0].propertyName;
      assert Readable(ps[0]);
      ValuesStart(ps[0], tail);
      var whole := ContentText(ps) + tail;
      assert whole[0] == name[0] && name[0] in name;
      assert SkipSpace(whole) == whole;
    }
  }

  lemma {:induction false} ParseWrittenContent(ps: Content, tail: string)
    requires ReadableContent(ps) && EndsContent(tail)
    ensures ParseContent(ContentText(ps) + tail) == Some((RawContentOf(ps), SkipSpace(tail)))
  {
    if ps == [] {
      assert "" + tail == tail;
    } else {
      assert ReadableContent(ps[1..]) by { assert forall i :: 0 <= i < |ps[1..]| ==> ps[1..][i] == ps[i + 1]; }
      ParseWrittenContent(ps[1..], tail);
      ContentStarts(ps[1..], tail);
      assert Readable(ps[0]);
      ParseOneProperty(ps[0], ContentText(ps[1..]) + tail);
      ConcatIsAssociative(PropertyText(ps[0]), ContentText(ps[1..]), tail);
    }
  }

  // ---------------------------------------------------------------- trees

  lemma IndentationIsSpace(level: int)
    ensures forall c :: c in Indentation(level) ==> IsSpace(c)
  {
  }

  /** A line that begins with the token c, whatever its indentation. */
  lemma SkipIndentation(level: int, c: char, rest: string)
    requires !IsSpace(c)
    ensures SkipSpace(Indentation(level) + ([c] + rest)) == [c] + rest
  {
    IndentationIsSpace(level);
    SkipSpaceSkips(Indentation(level), [c] + rest);
  }

  lemma SkipNewline(s: string)
    ensures SkipSpace("\n" + s) == SkipSpace(s)
  {
    SkipSpaceSkips("\n", s);
  }

  lemma SkipToBegin(level: int, rest: string)
    ensures SkipSpace(BeginLine(level) + rest) == "(" + ("\n" + rest)
  {
    SkipIndentation(level, '(', "\n" + rest);
    assert BeginLine(level) + rest == Indentation(level) + (['('] + ("\n" + rest));
  }

  lemma SkipToEnd(level: int, rest: string)
    ensures SkipSpace(EndLine(level) + rest) == ")" + ("\n" + rest)
  {
    SkipIndentation(level, ')', "\n" + rest);
    assert EndLine(level) + rest == Indentation(level) + ([')'] + ("\n" + rest));
  }

  lemma FourPlusTail(a: string, b: string, c: string, d: string, t: string)
    ensures (a + b + c + d) + t == a + (b + (c + (d + t)))
  {
  }

  lemma SkipToNode(ps: Content, level: int, rest: string)
    ensures SkipSpace(NodeLine(ps, level) + rest) == ";" + (ContentText(ps) + ("\n" + rest))
  {
    SkipIndentation(level, ';', ContentText(ps) + ("\n" + rest));
    FourPlusTail(Indentation(level), ";", ContentText(ps), "\n", rest);
  }

  lemma FivePlusTail(a: string, b: string, c: string, d: string, e: string, t: string)
    ensures (a + b + c + d + e) + t == a + (b + (c + (d + (e + t))))
  {
  }

  /** The text of one node of a level, and of the rest of the level, before a tail. */
  lemma RenderStep(l: Level<Content>, many: bool, level: int, tail: string)
    requires l.Cons?
    ensures var inner := if many then level + 1 else level;
      var rest := RenderLevel(l.after, many, level) + tail;
      var closing := if many then EndLine(level) + rest else rest;
      var tree := NodeLine(l.node, inner) + (RenderLevel(l.below, Many(l.below), inner) + closing);
      RenderLevel(l, many, level) + tail == if many then BeginLine(level) + tree else tree
  {
    var inner := if many then level + 1 else level;
    var line, below, after := NodeLine(l.node, inner), RenderLevel(l.below, Many(l.below), inner),
      RenderLevel(l.after, many, level);
    if many {
      FivePlusTail(BeginLine(level), line, below, EndLine(level), after, tail);
    } else {
      FivePlusTail("", line, below, "", after, tail);
      assert "" + (line + (below + ("" + (after + tail)))) == line + (below + (after + tail)) by {
        assert "" + (after + tail) == after + tail;
      }
    }
  }

  /** What a level that is followed by a closing parenthesis begins with. */
  lemma LevelStarts(l: Level<Content>, level: int, tail: string)
    requires StartsWith(SkipSpace(tail), ')')
    ensures var t := SkipSpace(RenderLevel(l, Many(l), level) + tail);
      && (l.Nil? ==> t == SkipSpace(tail))
      && (l.Cons? && !Many(l) ==> StartsWith(t, ';'))
      && (l.Cons? && Many(l) ==> StartsWith(t, '('))
  {
    if l.Nil? {
      assert "" + tail == tail;
    } else {
      RenderStep(l, Many(l), level, tail);
      var inner := if Many(l) then level + 1 else level;
      var rest := RenderLevel(l.after, Many(l), level) + tail;
      var closing := if Many(l) then EndLine(level) + rest else rest;
      var below := RenderLevel(l.below, Many(l.below), inner) + closing;
      if Many(l) {
        SkipToBegin(level, NodeLine(l.node, inner) + below);
      } else {
        SkipToNode(l.node, inner, below);
      }
    }
  }

  /** Unfolding of ParseTree, behind the content of its first node. */
  lemma NodeFollows(s: string, behind: string, content: RawContent, rest: string)
    requires SkipSpace(s) == ";" + behind && ParseContent(behind) == Some((content, rest))
    ensures ParseTree(s) ==
      if StartsWith(rest, ';') then
        match ParseTree(rest)
        case None => None
        case Some((next, below, end)) => Some((content, Cons(next, below, Nil), end))
      else
        match ParseForest(rest)
        case None => None
        case Some((below, end)) => Some((content, below, end))
  {
    assert (";" + behind)[1..] == behind;
  }

  lemma NoForest(tail: string)
    requires !StartsWith(SkipSpace(tail), '(')
    ensures ParseForest(tail) == Some((Nil, SkipSpace(tail)))
  {
  }

  lemma OnlyChild(l: Level<Content>, level: int, tail: string)
    requires l.Cons? && l.after.Nil?
    ensures RenderLevel(l, false, level) + tail ==
              NodeLine(l.node, level) + (RenderLevel(l.below, Many(l.below), level) + tail)
    ensures RawLevel(l) == Cons(RawContentOf(l.node), RawLevel(l.below), Nil)
  {
    RenderStep(l, false, level, tail);
    assert "" + tail == tail;
  }

  /** A node line and what is below it, before a closing parenthesis. */
  lemma {:induction false} ParseWrittenTree(ps: Content, below: Level<Content>, level: int, tail: string)
    requires ReadableContent(ps) && ReadableLevel(below) && StartsWith(SkipSpace(tail), ')')
    ensures ParseTree(NodeLine(ps, level) + (RenderLevel(below, Many(below), level) + tail)) ==
              Some((RawContentOf(ps), RawLevel(below), SkipSpace(tail)))
    decreases below, 1
  {
    hide Scan, Closed, NodeLine, ContentText, RenderLevel, Indentation, SkipSpace;
    var rest := RenderLevel(below, Many(below), level) + tail;
    var s := NodeLine(ps, level) + rest;
    SkipToNode(ps, level, rest);
    SkipNewline(rest);
    LevelStarts(below, level, tail);
    SkipSpaceTwice(tail);
    SkipSpaceTwice(rest);
    assert (";" + (ContentText(ps) + ("\n" + rest)))[1..] == ContentText(ps) + ("\n" + rest);
    ParseWrittenContent(ps, "\n" + rest);
    ParsersSkipSpace(SkipSpace(rest), rest);
    NodeFollows(s, ContentText(ps) + ("\n" + rest), RawContentOf(ps), SkipSpace(rest));
    if below.Nil? {
      ParsersSkipSpace(SkipSpace(rest), tail);
      NoForest(tail);
    } else if Many(below) {
      ParseWrittenForest(below, level, tail);
    } else {
      OnlyChild(below, level, tail);
      ParseWrittenTree(below.node, below.below, level, tail);
    }
  }

  /** Unfolding of ParseForest, behind the first game tree. */
  lemma GameTreeFollows(s: string, behind: string, content: RawContent, below: Level<RawContent>, rest: string,
                        next: string)
    requires SkipSpace(s) == "(" + behind && ParseTree(behind) == Some((content, below, rest))
              && SkipSpace(rest) == ")" + next
    ensures ParseForest(s) ==
      match ParseForest(next)
      case None => None
      case Some((after, end)) => Some((Cons(content, below, after), end))
  {
    assert ("(" + behind)[1..] == behind && (")" + next)[1..] == next;
  }

  lemma NothingRendered(many: bool, level: int, tail: string)
    ensures RenderLevel(Nil, many, level) + tail == tail
  {
    assert "" + tail == tail;
  }

  /** A level written with parentheses, before something that is no opening parenthesis. */
  lemma {:induction false} ParseWrittenForest(l: Level<Content>, level: int, tail: string)
    requires ReadableLevel(l) && !StartsWith(SkipSpace(tail), '(')
    ensures ParseForest(RenderLevel(l, true, level) + tail) == Some((RawLevel(l), SkipSpace(tail)))
    decreases l, 0
  {
    hide Scan, Closed, NodeLine, ContentText, RenderLevel, Indentation, SkipSpace;
    if l.Nil? {
      NothingRendered(true, level, tail);
      NoForest(tail);
    } else {
      var rest := RenderLevel(l.after, true, level) + tail;
      var closing := EndLine(level) + rest;
      var tree := NodeLine(l.node, level + 1) + (RenderLevel(l.below, Many(l.below), level + 1) + closing);
      RenderStep(l, true, level, tail);
      SkipToBegin(level, tree);
      SkipToEnd(level, rest);
      SkipNewline(tree);
      SkipNewline(rest);
      SkipSpaceTwice(closing);
      ParsersSkipSpace("\n" + tree, tree);
      ParsersSkipSpace("\n" + rest, rest);
      ParseWrittenTree(l.node, l.below, level + 1, closing);
      GameTreeFollows(RenderLevel(l, true, level) + tail, "\n" + tree, RawContentOf(l.node), RawLevel(l.below),
        SkipSpace(closing), "\n" + rest);
      ParseWrittenForest(l.after, level, tail);
    }
  }

  /** A node with everything below it is read back exactly if its properties, and all below it, are readable. */
  lemma TreeIsReadIff(ps: Content, below: Level<Content>, level: int, tail: string)
    requires StartsWith(SkipSpace(tail), ')')
    ensures ParseTree(NodeLine(ps, level) + (RenderLevel(below, Many(below), level) + tail)) ==
              Some((RawContentOf(ps), RawLevel(below), SkipSpace(tail)))
            <==> ReadableContent(ps) && ReadableLevel(below)
  {
    hide ParseTree, NodeLine, RenderLevel, SkipSpace, WellWrittenContent, WellWrittenLevel, ReadableContent,
         ReadableLevel;
    if ReadableContent(ps) && ReadableLevel(below) { ParseWrittenTree(ps, below, level, tail); }
    ReadTree(NodeLine(ps, level) + (RenderLevel(below, Many(below), level) + tail));
    ContentIsWellWrittenIff(ps);
    LevelIsWellWrittenIff(below);
  }

  /** Variations in parentheses are read back exactly if all their properties are readable. */
  lemma ForestIsReadIff(l: Level<Content>, level: int, tail: string)
    requires !StartsWith(SkipSpace(tail), '(')
    ensures ParseForest(RenderLevel(l, true, level) + tail) == Some((RawLevel(l), SkipSpace(tail)))
            <==> ReadableLevel(l)
  {
    hide ParseForest, RenderLevel, SkipSpace, WellWrittenLevel, ReadableLevel;
    if ReadableLevel(l) { ParseWrittenForest(l, level, tail); }
    ReadForest(RenderLevel(l, true, level) + tail);
    LevelIsWellWrittenIff(l);
  }

  // ---------------------------------------------------------------- documents

  /** A root node with its level, as the encoder takes it: without siblings it is alone on the level. */
  predicate IsGame(game: (Level<Content>, bool)) {
    game.0.Cons? && (!game.1 ==> game.0.after.Nil?)
  }

  /** The games of a document, as siblings. */
  function CollectionOf(games: seq<(Level<Content>, bool)>): Level<Content>
    requires forall i :: 0 <= i < |games| ==> IsGame(games[i])
  {
    if games == [] then Nil
    else
      assert IsGame(games[0]);
      Cons(games[0].0.node, games[0].0.below, CollectionOf(games[1..]))
  }

  lemma RenderLastGame(games: seq<(Level<Content>, bool)>, game: (Level<Content>, bool))
    ensures RenderGames(games + [game]) == RenderGames(games) + RenderGame(game.0, game.1)
  {
    hide RenderGame;
    assert (games + [game])[..|games|] == games;
  }

  lemma NoGames()
    ensures RenderGames([]) == "" && ParseForest("") == Some((Nil, ""))
  {
  }

  lemma {:induction false} RenderFirstGame(game: (Level<Content>, bool), games: seq<(Level<Content>, bool)>)
    ensures RenderGames([game] + games) == RenderGame(game.0, game.1) + RenderGames(games)
  {
    hide RenderGame, RenderGames;
    if games == [] {
      RenderLastGame([], game);
      NoGames();
      assert [game] + games == games + [game];
    } else {
      var init, last := games[..|games| - 1], games[|games| - 1];
      RenderFirstGame(game, init);
      RenderLastGame(init, last);
      RenderLastGame([game] + init, last);
      assert [game] + init + [last] == [game] + games && init + [last] == games;
      ConcatIsAssociative(RenderGame(game.0, game.1), RenderGames(init), RenderGame(last.0, last.1));
    }
  }

  lemma GameText(l: Level<Content>, many: bool, tail: string)
    ensures RenderGame(l, many) + tail == BeginLine(0) + (RenderLevel(l, many, 1) + (EndLine(0) + tail))
  {
  }

  /** A game whose root node has no siblings is one game tree. */
  lemma ParseOneGame(l: Level<Content>, tail: string)
    requires l.Cons? && l.after.Nil? && ReadableContent(l.node) && ReadableLevel(l.below)
    ensures ParseForest(RenderGame(l, false) + tail) ==
              match ParseForest(tail)
              case None => None
              case Some((after, end)) => Some((Cons(RawContentOf(l.node), RawLevel(l.below), after), end))
  {
    hide Scan, Closed, NodeLine, ContentText, RenderLevel, Indentation, SkipSpace;
    var closing := EndLine(0) + tail;
    var tree := RenderLevel(l, false, 1) + closing;
    GameText(l, false, tail);
    OnlyChild(l, 1, closing);
    SkipToBegin(0, tree);
    SkipToEnd(0, tail);
    SkipNewline(tree);
    SkipNewline(tail);
    SkipSpaceTwice(closing);
    ParsersSkipSpace("\n" + tree, tree);
    ParsersSkipSpace("\n" + tail, tail);
    ParseWrittenTree(l.node, l.below, 1, closing);
    GameTreeFollows(BeginLine(0) + tree, "\n" + tree, RawContentOf(l.node), RawLevel(l.below), SkipSpace(closing),
      "\n" + tail);
  }

  /** A game whose root node has siblings is none: after its opening parenthesis comes another one. */
  lemma CannotParseSiblings(l: Level<Content>, tail: string)
    requires l.Cons?
    ensures ParseForest(RenderGame(l, true) + tail) == None
  {
    hide Scan, Closed, NodeLine, ContentText, RenderLevel, Indentation, SkipSpace;
    var closing := EndLine(0) + tail;
    var trees := RenderLevel(l, true, 1) + closing;
    GameText(l, true, tail);
    SkipToBegin(0, trees);
    SkipNewline(trees);
    RenderStep(l, true, 1, closing);
    var rest := EndLine(1) + (RenderLevel(l.after, true, 1) + closing);
    SkipToBegin(1, NodeLine(l.node, 2) + (RenderLevel(l.below, Many(l.below), 2) + rest));
    assert ("(" + ("\n" + trees))[1..] == "\n" + trees;
    assert ParseTree("\n" + trees) == None;
  }

  lemma {:induction false} EncodedGamesAreRead(games: seq<(Level<Content>, bool)>)
    requires forall i :: 0 <= i < |games| ==> IsGame(games[i])
    requires ReadableLevel(CollectionOf(games))
    ensures ParseForest(RenderGames(games)) ==
              if forall i :: 0 <= i < |games| ==> !games[i].1 then Some((RawLevel(CollectionOf(games)), "")) else None
  {
    hide ParseForest, RenderGame, RenderGames, ReadableContent;
    if games == [] {
      NoGames();
    } else {
      var game, rest := games[0], games[1..];
      assert IsGame(game);
      assert forall i :: 0 <= i < |rest| ==> rest[i] == games[i + 1];
      RenderFirstGame(game, rest);
      assert [game] + rest == games;
      if game.1 {
        CannotParseSiblings(game.0, RenderGames(rest));
      } else {
        ParseOneGame(game.0, RenderGames(rest));
        EncodedGamesAreRead(rest);
        assert (forall i :: 0 <= i < |games| ==> !games[i].1) <==> (forall i :: 0 <= i < |rest| ==> !rest[i].1) by {
          if forall i :: 0 <= i < |rest| ==> !rest[i].1 {
            forall i | 0 <= i < |games| ensures !games[i].1 { if i > 0 { assert !rest[i - 1].1; } }
          }
        }
      }
    }
  }

  /**
   * Main result on documents: the grammar reads the encoded text back as the collection of the games, tree by tree,
   * child by child, exactly if there is a game, no root node has siblings, and all properties are readable. With
   * readable properties it otherwise rejects the text.
   */
  lemma {:induction false} EncodedDocumentIsRead(games: seq<(Level<Content>, bool)>)
    requires forall i :: 0 <= i < |games| ==> IsGame(games[i])
    ensures ParseCollection(RenderGames(games)) == Some(RawLevel(CollectionOf(games))) <==>
            games != [] && (forall i :: 0 <= i < |games| ==> !games[i].1) && ReadableLevel(CollectionOf(games))
    ensures ReadableLevel(CollectionOf(games)) && (games == [] || exists i :: 0 <= i < |games| && games[i].1) ==>
              ParseCollection(RenderGames(games)) == None
  {
    hide RenderGames, ReadableLevel, WellWrittenLevel, ParseForest;
    if ReadableLevel(CollectionOf(games)) { EncodedGamesAreRead(games); }
    CollectionsAreWellWritten(RenderGames(games));
    LevelIsWellWrittenIff(CollectionOf(games));
  }

  // ---------------------------------------------------------------- values

  /** Unknown values, and moves, points and stones of other games than Go: these can contain anything. */
  predicate IsMandatoryOnly(v: SingleValue) {
    v.valueType == Unknown || (v.valueType in {Point, Move, Stone} && !v.typed.GoValue?)
  }

  /** What a value is about, whatever it is written as. */
  function Meant(v: SingleValue): string {
    if IsText(v) then TextOf(v) else v.raw
  }

  /** What the decoder makes of the text of a value. */
  function Unescaped(v: SingleValue, text: string, context: Context): string {
    if IsText(v) then RemoveSimpleTextAndTextEscapeCharacters(text, context)
    else if IsMandatoryOnly(v) then RemoveMoveAndPointAndStoneEscapeCharactersForNonGoGameTypes(text, context)
    else text
  }

  /**
   * The values that end where they should: all texts, mandatory-only values with even runs, others if they are closed.
   */
  ghost predicate EndsRight(v: SingleValue, context: Context) {
    if IsText(v) then true
    else if IsMandatoryOnly(v) then EvenRuns(v.raw, 0, Escaped(context))
    else Closed(v.raw, Escaped(context))
  }

  /** A value on its own, or a half of a composed one. */
  lemma SingleValueIsReadableIff(v: SingleValue, context: Context)
    ensures Closed(SingleValueText(v, context), Escaped(context)) <==> EndsRight(v, context)
    ensures Unescaped(v, SingleValueText(v, context), context) == Meant(v)
  {
    hide Closed, Escape, Unescape;
    if IsText(v) {
      SimpleTextIsOnePass(TextOf(v), context);
      EscapedIsClosed(TextOf(v), {'\\'} + Escaped(context), Escaped(context));
      SimpleTextRoundTrip(TextOf(v), context);
    } else if IsMandatoryOnly(v) {
      MandatoryIsClosedIffEvenRuns(v.raw, context);
      MandatoryRoundTrip(v.raw, context);
    }
  }

  /**
   * Main result on values: a single value of any kind is readable, and a composed value of any two kinds is readable
   * and split at its separator, exactly if it, or both its halves, end right; and unescaping gives back what was meant.
   */
  lemma ValuesAreReadableIff(v: PropertyValue)
    ensures v.Single? ==>
              && (Closed(ValueText(v), {']'}) <==> EndsRight(v.value, Standalone))
              && Unescaped(v.value, ValueText(v), Standalone) == Meant(v.value)
    ensures v.Composed? ==>
              var text1 := SingleValueText(v.value1, FirstValueOfComposedValue);
              var text2 := SingleValueText(v.value2, SecondValueOfComposedValue);
              && (Closed(ValueText(v), {']'}) && Scan(ValueText(v), {':'}) == Some((text1, ":" + text2)) <==>
                  EndsRight(v.value1, FirstValueOfComposedValue) && EndsRight(v.value2, SecondValueOfComposedValue))
              && Unescaped(v.value1, text1, FirstValueOfComposedValue) == Meant(v.value1)
              && Unescaped(v.value2, text2, SecondValueOfComposedValue) == Meant(v.value2)
  {
    hide Closed, Scan, Unescaped, SingleValueText, EndsRight;
    match v
    case Single(value) =>
      SingleValueIsReadableIff(value, Standalone);
    case Composed(value1, value2) =>
      SingleValueIsReadableIff(value1, FirstValueOfComposedValue);
      SingleValueIsReadableIff(value2, SecondValueOfComposedValue);
      var text1 := SingleValueText(value1, FirstValueOfComposedValue);
      var text2 := SingleValueText(value2, SecondValueOfComposedValue);
      ComposedFramingIff(text1, text2, "");
      var text := text1 + ":" + text2;
      ClosedIffScanned(text, "]", {']'});
      assert text + "]" + "" == text + "]" && "]" + "" == "]";
  }

  /** What is written of a text is its typed value if it has one, and its raw value otherwise. */
  lemma TypedTextIsWritten(v: SingleValue, context: Context)
    requires IsText(v)
    ensures match v.typed
            case TypedText(text) =>
              RemoveSimpleTextAndTextEscapeCharacters(SingleValueText(v, context), context) == text
            case _ => RemoveSimpleTextAndTextEscapeCharacters(SingleValueText(v, context), context) == v.raw
  {
    SingleValueIsReadableIff(v, context);
  }

  /** Every single or composed SimpleText or Text value is readable, and unescaping gives back what was written. */
  lemma TextValuesAreRead(v: PropertyValue)
    requires v.Single? ==> IsText(v.value)
    requires v.Composed? ==> IsText(v.value1) && IsText(v.value2)
    ensures Closed(ValueText(v), {']'})
    ensures v.Single? ==> RemoveSimpleTextAndTextEscapeCharacters(ValueText(v), Standalone) == TextOf(v.value)
    ensures v.Composed? ==>
              match Scan(ValueText(v), {':'})
              case None => false
              case Some((text1, rest)) =>
                && rest != ""
                && RemoveSimpleTextAndTextEscapeCharacters(text1, FirstValueOfComposedValue) == TextOf(v.value1)
                && RemoveSimpleTextAndTextEscapeCharacters(rest[1..], SecondValueOfComposedValue) == TextOf(v.value2)
  {
    hide Closed, Scan, SingleValueText;
    ValuesAreReadableIff(v);
    if v.Composed? {
      var text2 := SingleValueText(v.value2, SecondValueOfComposedValue);
      assert (":" + text2)[1..] == text2;
    }
  }

  /** Such a single value survives unescaping, and is readable exactly if its backslash runs are even. */
  lemma MandatoryValuesAreReadableIff(v: SingleValue)
    requires IsMandatoryOnly(v)
    ensures Closed(ValueText(Single(v)), {']'}) <==> EvenRuns(v.raw, 0, {']'})
    ensures RemoveMoveAndPointAndStoneEscapeCharactersForNonGoGameTypes(ValueText(Single(v)), Standalone) == v.raw
  {
    ValuesAreReadableIff(Single(v));
  }

  // ---------------------------------------------------------------- what is not read back

  /** A document with one node, and in it one property. */
  function OneProperty(p: SgfcProperty): seq<(Level<Content>, bool)> {
    [(Cons([p], Nil, Nil), false)]
  }

  lemma OnePropertyIsReadIff(p: SgfcProperty)
    ensures ParseCollection(RenderGames(OneProperty(p))) == Some(Cons([RawOf(p)], Nil, Nil)) <==> Readable(p)
  {
    hide Readable, RawOf, RenderGames, ParseCollection;
    var games := OneProperty(p);
    assert games[1..] == [] && IsGame(games[0]) && CollectionOf(games[1..]) == Nil;
    var tree: Level<Content> := CollectionOf(games);
    assert tree == Cons([p], Nil, Nil);
    assert ReadableLevel(tree.below) && ReadableLevel(tree.after);
    assert ReadableContent([p]) <==> Readable(p) by { assert [p][0] == p; }
    assert [p][1..] == [] && RawContentOf([p]) == [RawOf(p)];
    assert RawLevel(tree) == Cons(RawContentOf(tree.node), RawLevel(tree.below), RawLevel(tree.after));
    EncodedDocumentIsRead(games);
  }

  /** An unknown value of a single backslash swallows its bracket: the document is not read back. */
  lemma LoneBackslashExample(p: SgfcProperty)
    requires p.propertyName == "XX" && p.values == [Single(SingleValue(Unknown, "\\", NoTypedValue))]
    ensures PropertyText(p) == "XX[\\]"
    ensures ParseCollection(RenderGames(OneProperty(p))) != Some(Cons([RawOf(p)], Nil, Nil))
  {
    var v := SingleValue(Unknown, "\\", NoTypedValue);
    OnePropertyIsReadIff(p);
    MandatoryValuesAreReadableIff(v);
    assert Run(v.raw, 0) == 0 && Run(v.raw, 1) == 1;
    assert p.values[0] in p.values;
    assert ValueText(p.values[0]) == "\\" by { assert "\\"[1..] == "" && "\\" + "" == "\\"; }
    assert p.values[1..] == [] && ValuesText(p.values[1..]) == "";
    assert ValuesText(p.values) == "[" + "\\" + "]" + "";
  }

  /** Neither is one with a lower-case property name. */
  lemma LowerCaseNameExample(p: SgfcProperty)
    requires p.propertyName == "foo"
    ensures ParseCollection(RenderGames(OneProperty(p))) != Some(Cons([RawOf(p)], Nil, Nil))
  {
    OnePropertyIsReadIff(p);
    assert p.propertyName[0] in p.propertyName;
  }
}
