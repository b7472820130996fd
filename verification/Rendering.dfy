/** The text of a document, by structural recursion. */
module Rendering {
  import opened Forests
  import opened Escaping
  import opened Properties

  type Content = seq<SgfcProperty>

  function Indentation(level: int): string {
    if level <= 0 then "" else "  " + Indentation(level - 1)
  }

  predicate IsText(v: SingleValue) {
    v.valueType in {SimpleText, Text}
  }

  function TextOf(v: SingleValue): string {
    if v.typed.TypedText? then v.typed.text else v.raw
  }

  function SingleValueText(v: SingleValue, context: Context): string {
    match v.valueType
    case SimpleText | Text => AddSimpleTextAndTextEscapeCharacters(TextOf(v), context)
    case Unknown => AddMandatoryEscapeCharacters(v.raw, context)
    case Point | Move | Stone => if v.typed.GoValue? then v.raw else AddMandatoryEscapeCharacters(v.raw, context)
    case OtherType => v.raw
  }

  /** The text between the brackets. */
  function ValueText(v: PropertyValue): string {
    match v
    case Single(value) => SingleValueText(value, Standalone)
    case Composed(value1, value2) =>
      SingleValueText(value1, FirstValueOfComposedValue) + ":" + SingleValueText(value2, SecondValueOfComposedValue)
  }

  function ValuesText(vs: seq<PropertyValue>): string {
    if vs == [] then "" else "[" + ValueText(vs[0]) + "]" + ValuesText(vs[1..])
  }

  function PropertyText(p: SgfcProperty): string {
    p.propertyName + if p.values == [] then "[]" else ValuesText(p.values)
  }

  function ContentText(ps: Content): string {
    if ps == [] then "" else PropertyText(ps[0]) + ContentText(ps[1..])
  }

  function NodeLine(ps: Content, indentationLevel: int): string {
    Indentation(indentationLevel) + ";" + ContentText(ps) + "\n"
  }

  function BeginLine(indentationLevel: int): string {
    Indentation(indentationLevel) + "(" + "\n"
  }

  function EndLine(indentationLevel: int): string {
    Indentation(indentationLevel) + ")" + "\n"
  }

  predicate Many<T>(l: Level<T>) {
    l.Cons? && l.after.Cons?
  }

  /** A level whose nodes have siblings, if many, or whose only node has none. */
  ghost function RenderLevel(l: Level<Content>, many: bool, indentationLevel: int): string {
    match l
    case Nil => ""
    case Cons(ps, below, after) =>
      var inner := if many then indentationLevel + 1 else indentationLevel;
      (if many then BeginLine(indentationLevel) else "") + NodeLine(ps, inner)
      + RenderLevel(below, Many(below), inner)
      + (if many then EndLine(indentationLevel) else "")
      + RenderLevel(after, many, indentationLevel)
  }

  /** One game: the level of its root node between parentheses. */
  ghost function RenderGame(l: Level<Content>, many: bool): string {
    BeginLine(0) + RenderLevel(l, many, 1) + EndLine(0)
  }

  /** The games of a document, by root node level and by whether that root node has siblings. */
  ghost function RenderGames(games: seq<(Level<Content>, bool)>): string {
    if games == [] then ""
    else RenderGames(games[..|games| - 1]) + RenderGame(games[|games| - 1].0, games[|games| - 1].1)
  }
}
