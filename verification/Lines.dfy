/** The lines of the text of a game: each is indented by two spaces for every parenthesis open around it. */
module Lines {
  import opened Sequences
  import opened Forests
  import opened Rendering

  datatype LineKind = Begin | End | NodeOf(content: Content)

  /** A line of the text, by its indentation and its token. */
  datatype Line = Line(level: int, kind: LineKind)

  function LineText(line: Line): string {
    match line.kind
    case Begin => BeginLine(line.level)
    case End => EndLine(line.level)
    case NodeOf(ps) => NodeLine(ps, line.level)
  }

  function LinesText(lines: seq<Line>): string {
    if lines == [] then "" else LineText(lines[0]) + LinesText(lines[1..])
  }

  ghost function LinesOf(l: Level<Content>, many: bool, level: int): seq<Line> {
    match l
    case Nil => []
    case Cons(ps, below, after) =>
      var inner := if many then level + 1 else level;
      (if many then [Line(level, Begin)] else []) + [Line(inner, NodeOf(ps))] + LinesOf(below, Many(below), inner)
      + (if many then [Line(level, End)] else []) + LinesOf(after, many, level)
  }

  /**
   * The number of open parentheses behind the lines, if every line is indented by the number of those open around it.
   */
  function OpenBehind(lines: seq<Line>, open: int): Option<int> {
    if lines == [] then Some(open)
    else
      match lines[0].kind
      case Begin => if lines[0].level == open then OpenBehind(lines[1..], open + 1) else None
      case End => if lines[0].level == open - 1 then OpenBehind(lines[1..], open - 1) else None
      case NodeOf(_) => if lines[0].level == open then OpenBehind(lines[1..], open) else None
  }

  lemma LinesTextConcat(a: seq<Line>, b: seq<Line>)
    ensures LinesText(a + b) == LinesText(a) + LinesText(b)
  {
    hide LineText;
    if a == [] {
      assert a + b == b;
    } else {
      LinesTextConcat(a[1..], b);
      assert (a + b)[1..] == a[1..] + b;
      ConcatIsAssociative(LineText(a[0]), LinesText(a[1..]), LinesText(b));
    }
  }

  lemma OpenBehindConcat(a: seq<Line>, b: seq<Line>, open: int)
    ensures OpenBehind(a + b, open) == match OpenBehind(a, open) case None => None case Some(n) => OpenBehind(b, n)
  {
    if a == [] {
      assert a + b == b;
    } else {
      assert (a + b)[1..] == a[1..] + b;
      OpenBehindConcat(a[1..], b, if a[0].kind == Begin then open + 1 else if a[0].kind == End then open - 1 else open);
    }
  }

  lemma OneLine(line: Line)
    ensures LinesText([line]) == LineText(line) && LinesText([]) == ""
  {
  }

  lemma LineTexts(ps: Content, level: int, inner: int)
    ensures LinesText([]) == "" && LinesText([Line(level, Begin)]) == BeginLine(level)
    ensures LinesText([Line(inner, NodeOf(ps))]) == NodeLine(ps, inner)
              && LinesText([Line(level, End)]) == EndLine(level)
  {
  }

  /** The text of a level is made of these lines. */
  lemma {:induction false} RenderedInLines(l: Level<Content>, many: bool, level: int)
    ensures LinesText(LinesOf(l, many, level)) == RenderLevel(l, many, level)
  {
    hide LinesText, LineText;
    match l
    case Nil =>
      OneLine(Line(level, Begin));
    case Cons(ps, below, after) =>
      var inner := if many then level + 1 else level;
      var a, b, c := if many then [Line(level, Begin)] else [], [Line(inner, NodeOf(ps))],
        LinesOf(below, Many(below), inner);
      var d, e := if many then [Line(level, End)] else [], LinesOf(after, many, level);
      LinesTextConcat(a + b + c + d, e);
      LinesTextConcat(a + b + c, d);
      LinesTextConcat(a + b, c);
      LinesTextConcat(a, b);
      LineTexts(ps, level, inner);
      RenderedInLines(below, Many(below), inner);
      RenderedInLines(after, many, level);
  }

  /**
   * Main result on indentation: parentheses balance, every line is indented by those open, none goes below the start.
   */
  lemma {:induction false} LevelsAreBalanced(l: Level<Content>, many: bool, level: int)
    ensures OpenBehind(LinesOf(l, many, level), level) == Some(level)
    ensures forall i :: 0 <= i < |LinesOf(l, many, level)| ==> LinesOf(l, many, level)[i].level >= level
  {
    if l.Cons? {
      var below, after := l.below, l.after;
      var inner := if many then level + 1 else level;
      var a, b, c := if many then [Line(level, Begin)] else [], [Line(inner, NodeOf(l.node))],
        LinesOf(below, Many(below), inner);
      var d, e := if many then [Line(level, End)] else [], LinesOf(after, many, level);
      LevelsAreBalanced(below, Many(below), inner);
      LevelsAreBalanced(after, many, level);
      OpenBehindConcat(a + b + c + d, e, level);
      OpenBehindConcat(a + b + c, d, level);
      OpenBehindConcat(a + b, c, level);
      OpenBehindConcat(a, b, level);
    }
  }

  // ---------------------------------------------------------------- the characters of the lines

  function Spaces(n: nat): string {
    seq(n, _ => ' ')
  }

  /** Two spaces for each level, none below level 1. */
  lemma {:induction false} IndentationIsSpaces(level: int)
    ensures Indentation(level) == Spaces(if level > 0 then 2 * level else 0)
  {
    if level > 0 {
      IndentationIsSpaces(level - 1);
      assert Spaces(2 * level) == "  " + Spaces(2 * (level - 1));
    }
  }

  function Token(kind: LineKind): string {
    match kind
    case Begin => "("
    case End => ")"
    case NodeOf(ps) => ";" + ContentText(ps)
  }

  lemma LineIsIndented(line: Line)
    requires line.level >= 0
    ensures LineText(line) == Spaces(2 * line.level) + Token(line.kind) + "\n"
  {
    IndentationIsSpaces(line.level);
    match line.kind
    case Begin =>
    case End =>
    case NodeOf(ps) => ConcatIsAssociative(Indentation(line.level), ";", ContentText(ps));
  }

  /** The parentheses opened and not closed in the lines. */
  function Opened(lines: seq<Line>): int {
    if lines == [] then 0
    else
      Opened(lines[..|lines| - 1]) +
      match lines[|lines| - 1].kind
      case Begin => 1
      case End => -1
      case NodeOf(_) => 0
  }

  lemma OpenBehindOne(line: Line, open: int)
    ensures OpenBehind([line], open) ==
      match line.kind
      case Begin => if line.level == open then Some(open + 1) else None
      case End => if line.level == open - 1 then Some(open - 1) else None
      case NodeOf(_) => if line.level == open then Some(open) else None
  {
    assert [line][1..] == [];
  }

  /** Each of the lines that balance is at the level of the parentheses open around it. */
  lemma {:induction false} LevelIsOpened(lines: seq<Line>, open: int, i: nat)
    requires OpenBehind(lines, open).Some? && i <= |lines|
    ensures OpenBehind(lines[..i], open) == Some(open + Opened(lines[..i]))
    ensures i < |lines| ==>
              lines[i].level == open + Opened(lines[..i]) - if lines[i].kind == End then 1 else 0
  {
    if i == 0 {
      assert lines[..0] == [];
    } else {
      LevelIsOpened(lines, open, i - 1);
      assert lines[..i][..i - 1] == lines[..i - 1];
      assert lines[..i] == lines[..i - 1] + [lines[i - 1]];
      OpenBehindConcat(lines[..i - 1], [lines[i - 1]], open);
      OpenBehindOne(lines[i - 1], open + Opened(lines[..i - 1]));
    }
    assert lines == lines[..i] + lines[i..];
    OpenBehindConcat(lines[..i], lines[i..], open);
  }

  /** The lines of a game: a parenthesis, the level of the root node, a parenthesis. */
  ghost function GameLines(l: Level<Content>, many: bool): seq<Line> {
    [Line(0, Begin)] + LinesOf(l, many, 1) + [Line(0, End)]
  }

  lemma GameInLines(l: Level<Content>, many: bool)
    ensures LinesText(GameLines(l, many)) == RenderGame(l, many)
    ensures OpenBehind(GameLines(l, many), 0) == Some(0)
    ensures forall i :: 0 <= i < |GameLines(l, many)| ==> GameLines(l, many)[i].level >= 0
  {
    var lines := LinesOf(l, many, 1);
    RenderedInLines(l, many, 1);
    LevelsAreBalanced(l, many, 1);
    OneLine(Line(0, Begin));
    OneLine(Line(0, End));
    LinesTextConcat([Line(0, Begin)] + lines, [Line(0, End)]);
    LinesTextConcat([Line(0, Begin)], lines);
    OpenBehindOne(Line(0, Begin), 0);
    OpenBehindOne(Line(0, End), 1);
    OpenBehindConcat([Line(0, Begin)] + lines, [Line(0, End)], 0);
    OpenBehindConcat([Line(0, Begin)], lines, 0);
  }

  /**
   * Main result on the text of a game: the i-th line begins with exactly two spaces for every parenthesis that is open
   * around it, and then comes its token; and at the end all parentheses are closed.
   */
  lemma GameIsIndented(l: Level<Content>, many: bool, i: nat)
    requires i < |GameLines(l, many)|
    ensures var lines := GameLines(l, many);
      var open := Opened(lines[..i]) - if lines[i].kind == End then 1 else 0;
      && open >= 0 && Opened(lines) == 0
      && RenderGame(l, many) ==
           LinesText(lines[..i]) + (Spaces(2 * open) + Token(lines[i].kind) + "\n") + LinesText(lines[i + 1..])
  {
    hide LinesText, LineText, RenderGame, Opened, OpenBehind;
    var lines := GameLines(l, many);
    GameInLines(l, many);
    LevelIsOpened(lines, 0, i);
    LevelIsOpened(lines, 0, |lines|);
    assert lines[..|lines|] == lines;
    assert lines == lines[..i] + [lines[i]] + lines[i + 1..];
    LinesTextConcat(lines[..i] + [lines[i]], lines[i + 1..]);
    LinesTextConcat(lines[..i], [lines[i]]);
    OneLine(lines[i]);
    LineIsIndented(lines[i]);
  }
}
