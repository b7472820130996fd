/**
 * A recursive-descent parser for the EBNF of SGF FF[4]: the specification against which the encoder is
 * proved. White space between tokens is skipped; property values are taken as they stand between their
 * brackets, still escaped.
 *
 *   Collection = GameTree { GameTree }
 *   GameTree   = "(" Sequence { GameTree } ")"
 *   Sequence   = Node { Node }
 *   Node       = ";" { Property }
 *   Property   = PropIdent PropValue { PropValue }
 *   PropIdent  = UcLetter { UcLetter }
 */
module Grammar {
  import opened Sequences
  import opened Forests
  import opened Text
  import opened Escaping

  datatype RawProperty = RawProperty(name: string, values: seq<string>)

  type RawContent = seq<RawProperty>

  predicate IsUpper(c: char) { 'A' <= c <= 'Z' }

  predicate StartsWith(s: string, c: char) { s != "" && s[0] == c }

  predicate StartsUpper(s: string) { s != "" && IsUpper(s[0]) }

  function Identifier(s: string): (r: (string, string))
    ensures |r.1| <= |s| && (StartsUpper(s) ==> |r.1| < |s|)
  {
    if StartsUpper(s) then var (name, rest) := Identifier(s[1..]); ([s[0]] + name, rest) else ("", s)
  }

  lemma SkipSpaceShrinks(s: string)
    ensures |SkipSpace(s)| <= |s|
  {
  }

  lemma ScanShrinks(s: string, stops: set<char>)
    ensures Scan(s, stops).Some? ==> Scan(s, stops).value.1 != "" && |Scan(s, stops).value.1| <= |s|
  {
  }

  /** { PropValue } */
  function ParseValues(s: string): (r: Option<(seq<string>, string)>)
    ensures r.Some? ==> |r.value.1| <= |s|
    decreases |s|
  {
    SkipSpaceShrinks(s);
    var t := SkipSpace(s);
    if !StartsWith(t, '[') then Some(([], t))
    else
      ScanShrinks(t[1..], {']'});
      match Scan(t[1..], {']'})
      case None => None
      case Some((text, rest)) =>
        match ParseValues(rest[1..])
        case None => None
        case Some((texts, end)) => Some(([text] + texts, end))
  }

  /** { Property } */
  function ParseContent(s: string): (r: Option<(RawContent, string)>)
    ensures r.Some? ==> |r.value.1| <= |s|
    decreases |s|
  {
    SkipSpaceShrinks(s);
    var t := SkipSpace(s);
    if !StartsUpper(t) then Some(([], t))
    else
      var (name, values) := Identifier(t);
      match ParseValues(values)
      case None => None
      case Some((texts, rest)) =>
        if texts == [] then None
        else
          match ParseContent(rest)
          case None => None
          case Some((properties, end)) => Some(([RawProperty(name, texts)] + properties, end))
  }

  /** Sequence { GameTree }: the first node, and everything below it. */
  function ParseTree(s: string): (r: Option<(RawContent, Level<RawContent>, string)>)
    ensures r.Some? ==> |r.value.2| <= |s|
    decreases |s|, 0
  {
    SkipSpaceShrinks(s);
    var t := SkipSpace(s);
    if !StartsWith(t, ';') then None
    else
      match ParseContent(t[1..])
      case None => None
      case Some((content, rest)) =>
        if StartsWith(rest, ';') then
          match ParseTree(rest)
          case None => None
          case Some((next, below, end)) => Some((content, Cons(next, below, Nil), end))
        else
          match ParseForest(rest)
          case None => None
          case Some((below, end)) => Some((content, below, end))
  }

  /** { GameTree } */
  function ParseForest(s: string): (r: Option<(Level<RawContent>, string)>)
    ensures r.Some? ==> |r.value.1| <= |s|
    decreases |s|, 1
  {
    SkipSpaceShrinks(s);
    var t := SkipSpace(s);
    if !StartsWith(t, '(') then Some((Nil, t))
    else
      match ParseTree(t[1..])
      case None => None
      case Some((content, below, rest)) =>
        SkipSpaceShrinks(rest);
        var u := SkipSpace(rest);
        if !StartsWith(u, ')') then None
        else
          match ParseForest(u[1..])
          case None => None
          case Some((after, end)) => Some((Cons(content, below, after), end))
  }

  function ParseCollection(s: string): Option<Level<RawContent>> {
    match ParseForest(s)
    case None => None
    case Some((games, end)) => if games.Cons? && end == "" then Some(games) else None
  }

  // ---------------------------------------------------------------- white space

  lemma SkipSpaceSkips(a: string, s: string)
    requires forall c :: c in a ==> IsSpace(c)
    ensures SkipSpace(a + s) == SkipSpace(s)
  {
    if a == "" {
      assert a + s == s;
    } else {
      assert (a + s)[1..] == a[1..] + s;
      SkipSpaceSkips(a[1..], s);
    }
  }

  lemma SkipSpaceTwice(s: string)
    ensures SkipSpace(SkipSpace(s)) == SkipSpace(s)
  {
  }

  /** White space in front makes no difference to any of the parsers. */
  lemma ParsersSkipSpace(s: string, t: string)
    requires SkipSpace(s) == SkipSpace(t)
    ensures ParseTree(s) == ParseTree(t) && ParseForest(s) == ParseForest(t)
    ensures ParseContent(s) == ParseContent(t) && ParseValues(s) == ParseValues(t)
  {
  }
}
