/** Whatever the grammar reads is well written: names are identifiers, and values end where they should. */
module WellWritten {
  import opened Forests
  import opened Text
  import opened Escaping
  import opened Grammar

  predicate IsIdentifier(name: string) {
    name != "" && forall c :: c in name ==> IsUpper(c)
  }

  predicate IsWellWritten(p: RawProperty) {
    IsIdentifier(p.name) && forall text :: text in p.values ==> Closed(text, {']'})
  }

  predicate WellWrittenContent(ps: RawContent) {
    forall p :: p in ps ==> IsWellWritten(p)
  }

  predicate WellWrittenLevel(l: Level<RawContent>) {
    l.Cons? ==> WellWrittenContent(l.node) && WellWrittenLevel(l.below) && WellWrittenLevel(l.after)
  }

  lemma {:induction false} ScannedIsClosed(s: string, stops: set<char>)
    requires '\\' !in stops
    ensures Scan(s, stops).Some? ==> Closed(Scan(s, stops).value.0, stops)
    decreases |s|
  {
    if s != "" && s[0] !in stops {
      var n := if s[0] == '\\' then 2 else 1;
      if n <= |s| {
        ScannedIsClosed(s[n..], stops);
        if Scan(s[n..], stops).Some? {
          var rest := Scan(s[n..], stops).value.0;
          assert s[..n] == if n == 2 then ['\\', s[1]] else [s[0]];
          if n == 2 { ClosedSkips(s[1], rest, stops); } else { ClosedSkips(s[0], rest, stops); }
        }
      }
    }
  }

  lemma ReadIdentifier(s: string)
    ensures StartsUpper(s) ==> IsIdentifier(Identifier(s).0)
    ensures forall c :: c in Identifier(s).0 ==> IsUpper(c)
  {
    if StartsUpper(s) { ReadIdentifier(s[1..]); }
  }

  lemma {:induction false} ReadValues(s: string)
    ensures ParseValues(s).Some? ==> forall text :: text in ParseValues(s).value.0 ==> Closed(text, {']'})
    decreases |s|
  {
    hide Closed, Scan;
    SkipSpaceShrinks(s);
    var t := SkipSpace(s);
    if StartsWith(t, '[') {
      ScanShrinks(t[1..], {']'});
      ScannedIsClosed(t[1..], {']'});
      match Scan(t[1..], {']'})
      case None =>
      case Some((text, rest)) => ReadValues(rest[1..]);
    }
  }

  lemma {:induction false} ReadContent(s: string)
    ensures ParseContent(s).Some? ==> WellWrittenContent(ParseContent(s).value.0)
    decreases |s|
  {
    hide ParseValues, Identifier, Closed;
    SkipSpaceShrinks(s);
    var t := SkipSpace(s);
    if StartsUpper(t) {
      ReadIdentifier(t);
      var (name, values) := Identifier(t);
      ReadValues(values);
      match ParseValues(values)
      case None =>
      case Some((texts, rest)) => ReadContent(rest);
    }
  }

  lemma {:induction false} ReadTree(s: string)
    ensures match ParseTree(s)
            case None => true
            case Some((content, below, rest)) => WellWrittenContent(content) && WellWrittenLevel(below)
    decreases |s|, 0
  {
    hide ParseContent, WellWrittenContent;
    SkipSpaceShrinks(s);
    var t := SkipSpace(s);
    if StartsWith(t, ';') {
      ReadContent(t[1..]);
      match ParseContent(t[1..])
      case None =>
      case Some((content, rest)) =>
        ReadForest(rest);
        if StartsWith(rest, ';') { ReadTree(rest); }
    }
  }

  lemma {:induction false} ReadForest(s: string)
    ensures ParseForest(s).Some? ==> WellWrittenLevel(ParseForest(s).value.0)
    decreases |s|, 1
  {
    hide WellWrittenContent;
    SkipSpaceShrinks(s);
    var t := SkipSpace(s);
    if StartsWith(t, '(') {
      ReadTree(t[1..]);
      match ParseTree(t[1..])
      case None =>
      case Some((content, below, rest)) =>
        SkipSpaceShrinks(rest);
        if StartsWith(SkipSpace(rest), ')') { ReadForest(SkipSpace(rest)[1..]); }
    }
  }

  /** Main result on reading: every collection the grammar accepts, of whatever text, is well written. */
  lemma CollectionsAreWellWritten(s: string)
    ensures ParseCollection(s).Some? ==> WellWrittenLevel(ParseCollection(s).value)
  {
    ReadForest(s);
  }
}
