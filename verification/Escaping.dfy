/**
 * Escaping and unescaping of property values. Both directions of the original are chains of global
 * replacements; here they are shown to be what a single left-to-right pass would do.
 */
module Escaping {
  import opened Sequences

  datatype Context = FirstValueOfComposedValue | SecondValueOfComposedValue | Standalone

  // ---------------------------------------------------------------- the replacements

  /** Every c replaced by r. */
  function ReplaceChar(s: string, c: char, r: string): string {
    if s == "" then "" else (if s[0] == c then r else [s[0]]) + ReplaceChar(s[1..], c, r)
  }

  /** Every backslash followed by c replaced by c, from left to right, without overlaps. */
  function ReplaceEscaped(s: string, c: char): string {
    if |s| < 2 then s
    else if s[0] == '\\' && s[1] == c then [c] + ReplaceEscaped(s[2..], c)
    else [s[0]] + ReplaceEscaped(s[1..], c)
  }

  // ---------------------------------------------------------------- the encoder

  function AddMandatoryEscapeCharacters(value: string, context: Context): string {
    var result := ReplaceChar(value, ']', "\\]");
    match context
    case FirstValueOfComposedValue => ReplaceChar(result, ':', "\\:")
    case SecondValueOfComposedValue => result
    case Standalone => result
  }

  function AddSimpleTextAndTextEscapeCharacters(value: string, context: Context): string {
    AddMandatoryEscapeCharacters(ReplaceChar(value, '\\', "\\\\"), context)
  }

  // ---------------------------------------------------------------- the decoder

  function RemoveMandatoryEscapeCharacters(raw: string): string {
    ReplaceEscaped(raw, ']')
  }

  function RemoveSimpleTextAndTextEscapeCharacters(raw: string, context: Context): string {
    var withoutBrackets := RemoveMandatoryEscapeCharacters(raw);
    var withoutColons :=
      match context
      case FirstValueOfComposedValue => ReplaceEscaped(withoutBrackets, ':')
      case SecondValueOfComposedValue => ReplaceEscaped(withoutBrackets, ':')
      case Standalone => withoutBrackets;
    ReplaceEscaped(withoutColons, '\\')
  }

  function RemoveMoveAndPointAndStoneEscapeCharactersForNonGoGameTypes(raw: string, context: Context): string {
    var result := RemoveMandatoryEscapeCharacters(raw);
    match context
    case FirstValueOfComposedValue => ReplaceEscaped(result, ':')
    case SecondValueOfComposedValue => result
    case Standalone => result
  }

  // ---------------------------------------------------------------- one pass

  /** The characters a backslash is removed from, in a SimpleText or Text value. */
  function Unescapable(context: Context): set<char> {
    if context.Standalone? then {'\\', ']'} else {'\\', ']', ':'}
  }

  /** One pass from left to right: a backslash acts on the character after it, and on no other. */
  function Unescape(s: string, escapable: set<char>): string {
    if |s| < 2 then s
    else if s[0] == '\\' && s[1] in escapable then [s[1]] + Unescape(s[2..], escapable)
    else [s[0]] + Unescape(s[1..], escapable)
  }

  /** The characters that mandatory escaping puts a backslash before. */
  function Escaped(context: Context): set<char> {
    if context.FirstValueOfComposedValue? then {']', ':'} else {']'}
  }

  /** One pass: a backslash before every character in escaped. */
  function Escape(s: string, escaped: set<char>): string {
    if s == "" then "" else (if s[0] in escaped then ['\\', s[0]] else [s[0]]) + Escape(s[1..], escaped)
  }

  /** A replacement passes over a character that does not start a match, and then keeps it in front. */
  lemma Pass(s: string, c: char)
    requires s != "" && (s[0] != '\\' || |s| < 2 || s[1] != c)
    ensures ReplaceEscaped(s, c) == [s[0]] + ReplaceEscaped(s[1..], c)
  {
  }

  /** Two backslashes: the second one belongs to c if c follows. */
  lemma PassTwoBackslashes(u: string, c: char)
    requires c != '\\'
    ensures ReplaceEscaped("\\\\" + u, c) ==
              if u != "" && u[0] == c then "\\" + ReplaceEscaped(u, c) else "\\\\" + ReplaceEscaped(u, c)
  {
    Pass("\\\\" + u, c);
    assert ("\\\\" + u)[1..] == "\\" + u;
    if u != "" && u[0] == c {
      assert ("\\" + u)[2..] == u[1..];
      Pass(u, c);
    } else {
      Pass("\\" + u, c);
      assert ("\\" + u)[1..] == u;
    }
  }

  /** Backslash and c: one match. */
  lemma PassMatch(u: string, c: char)
    ensures ReplaceEscaped(['\\', c] + u, c) == [c] + ReplaceEscaped(u, c)
  {
    assert (['\\', c] + u)[2..] == u;
  }

  /** The first two passes. */
  function FirstPasses(s: string, context: Context): string {
    if context.Standalone? then ReplaceEscaped(s, ']') else ReplaceEscaped(ReplaceEscaped(s, ']'), ':')
  }

  lemma FirstPassesSkip(s: string, context: Context)
    requires s != "" && (s[0] != '\\' || |s| < 2 || s[1] !in Unescapable(context))
    ensures FirstPasses(s, context) == [s[0]] + FirstPasses(s[1..], context)
    ensures |s| >= 2 && s[1] != '\\' ==> FirstPasses(s[1..], context) != "" && FirstPasses(s[1..], context)[0] == s[1]
  {
    Pass(s, ']');
    var t := ReplaceEscaped(s[1..], ']');
    assert ([s[0]] + t)[1..] == t;
    if |s| >= 2 && s[1] != '\\' {
      Pass(s[1..], ']');
      if !context.Standalone? { Pass(t, ':'); }
    } else if |s| >= 2 {
      assert s[0] != '\\';
    }
    if !context.Standalone? { Pass([s[0]] + t, ':'); }
  }

  lemma FirstPassesOnTwoBackslashes(u: string, context: Context)
    ensures var r := FirstPasses(u, context);
      || FirstPasses("\\\\" + u, context) == "\\\\" + r
      || (FirstPasses("\\\\" + u, context) == "\\" + r && r != "" && r[0] != '\\')
  {
    PassTwoBackslashes(u, ']');
    var t := ReplaceEscaped(u, ']');
    if u != "" && u[0] == ']' {
      Pass(u, ']');
      if !context.Standalone? {
        Pass("\\" + t, ':');
        assert ("\\" + t)[1..] == t;
        Pass(t, ':');
      }
    } else if !context.Standalone? {
      PassTwoBackslashes(t, ':');
      if t != "" && t[0] == ':' { Pass(t, ':'); }
    }
  }

  lemma FirstPassesOnEscaped(c: char, u: string, context: Context)
    requires c in Unescapable(context) && c != '\\'
    ensures FirstPasses(['\\', c] + u, context) == [c] + FirstPasses(u, context)
  {
    var t := ReplaceEscaped(u, ']');
    if c == ']' {
      PassMatch(u, ']');
      if !context.Standalone? {
        Pass([c] + t, ':');
        assert ([c] + t)[1..] == t;
      }
    } else {
      var s := ['\\', c] + u;
      Pass(s, ']');
      assert s[1..] == [c] + u;
      Pass([c] + u, ']');
      assert ([c] + u)[1..] == u;
      assert ReplaceEscaped(s, ']') == ['\\', c] + t;
      PassMatch(t, ':');
    }
  }

  /**
   * Main result on unescaping: the three passes, first for "]", then for ":" in composed values, then
   * for the backslash, are one pass from left to right, on every string and in every context.
   */
  lemma {:induction false} ThreePassesAreOne(s: string, context: Context)
    ensures RemoveSimpleTextAndTextEscapeCharacters(s, context) == Unescape(s, Unescapable(context))
    decreases |s|
  {
    var t := if |s| < 2 then "" else s[2..];
    if |s| < 2 {
    } else if s[0] == '\\' && s[1] == '\\' {
      assert s == "\\\\" + t;
      FirstPassesOnTwoBackslashes(t, context);
      var r := FirstPasses(t, context);
      PassMatch(r, '\\');
      if r != "" && r[0] != '\\' {
        Pass("\\" + r, '\\');
        assert ("\\" + r)[1..] == r;
      }
      ThreePassesAreOne(t, context);
    } else if s[0] == '\\' && s[1] in Unescapable(context) {
      assert s == ['\\', s[1]] + t;
      FirstPassesOnEscaped(s[1], t, context);
      var r := FirstPasses(t, context);
      Pass([s[1]] + r, '\\');
      assert ([s[1]] + r)[1..] == r;
      ThreePassesAreOne(t, context);
    } else {
      FirstPassesSkip(s, context);
      var r := FirstPasses(s[1..], context);
      Pass([s[0]] + r, '\\');
      assert ([s[0]] + r)[1..] == r;
      ThreePassesAreOne(s[1..], context);
    }
  }

  lemma UnescapeStep(s: string, escapable: set<char>)
    requires s != ""
    ensures Unescape(s, escapable) ==
              if |s| > 1 && s[0] == '\\' && s[1] in escapable then [s[1]] + Unescape(s[2..], escapable)
              else [s[0]] + Unescape(s[1..], escapable)
  {
  }

  lemma UnescapeBackslash(c: char, s: string, escapable: set<char>)
    requires '\\' in escapable
    ensures Unescape(['\\', c] + s, escapable) ==
              (if c in escapable then [c] else ['\\', c]) + Unescape(s, escapable)
  {
    hide Unescape;
    var t := [c] + s;
    var u := ['\\', c] + s;
    assert u[0] == '\\' && u[1] == c && u[1..] == t && u[2..] == s && t[1..] == s;
    UnescapeStep(u, escapable);
    if c !in escapable {
      UnescapeStep(t, escapable);
      assert ['\\'] + ([c] + Unescape(s, escapable)) == ['\\', c] + Unescape(s, escapable);
    }
  }

  /** What a backslash does, whatever comes behind it: it goes if it escapes, and stays with its character if not. */
  lemma BackslashIsRemovedIff(c: char, s: string, context: Context)
    ensures RemoveSimpleTextAndTextEscapeCharacters(['\\', c] + s, context) ==
              (if c == '\\' || c == ']' || (c == ':' && !context.Standalone?) then [c] else ['\\', c])
              + RemoveSimpleTextAndTextEscapeCharacters(s, context)
  {
    hide RemoveSimpleTextAndTextEscapeCharacters, Unescape;
    ThreePassesAreOne(['\\', c] + s, context);
    ThreePassesAreOne(s, context);
    UnescapeBackslash(c, s, Unescapable(context));
  }

  /** Every other character stays, and so does a backslash at the end. */
  lemma OthersStay(c: char, s: string, context: Context)
    ensures c != '\\' ==> RemoveSimpleTextAndTextEscapeCharacters([c] + s, context) ==
                             [c] + RemoveSimpleTextAndTextEscapeCharacters(s, context)
    ensures RemoveSimpleTextAndTextEscapeCharacters("", context) == ""
    ensures RemoveSimpleTextAndTextEscapeCharacters("\\", context) == "\\"
  {
    ThreePassesAreOne([c] + s, context);
    ThreePassesAreOne(s, context);
    ThreePassesAreOne("", context);
    ThreePassesAreOne("\\", context);
    assert ([c] + s)[1..] == s;
  }

  lemma PlainTextStays(a: string, s: string, context: Context)
    requires '\\' !in a
    ensures RemoveSimpleTextAndTextEscapeCharacters(a + s, context) ==
              a + RemoveSimpleTextAndTextEscapeCharacters(s, context)
  {
    hide RemoveSimpleTextAndTextEscapeCharacters;
    if a == "" {
      assert a + s == s;
      assert "" + RemoveSimpleTextAndTextEscapeCharacters(s, context) ==
          RemoveSimpleTextAndTextEscapeCharacters(s, context);
    } else {
      PlainTextStays(a[1..], s, context);
      assert a + s == [a[0]] + (a[1..] + s) && a == [a[0]] + a[1..];
      OthersStay(a[0], a[1..] + s, context);
      ConcatIsAssociative([a[0]], a[1..], RemoveSimpleTextAndTextEscapeCharacters(s, context));
    }
  }

  /** An escaped colon loses its backslash in both halves of a composed value, but not in a value on its own. */
  lemma EscapedColonExample(context: Context)
    ensures RemoveSimpleTextAndTextEscapeCharacters("foo\\:bar", context) ==
              if context.Standalone? then "foo\\:bar" else "foo:bar"
  {
    hide RemoveSimpleTextAndTextEscapeCharacters;
    assert "foo\\:bar" == "foo" + (['\\', ':'] + ("bar" + ""));
    PlainTextStays("foo", ['\\', ':'] + ("bar" + ""), context);
    BackslashIsRemovedIff(':', "bar" + "", context);
    PlainTextStays("bar", "", context);
    OthersStay('b', "", context);
  }

  // ---------------------------------------------------------------- the encoder in one pass

  lemma ReplaceCharStep(s: string, c: char, r: string)
    ensures ReplaceChar("", c, r) == ""
    ensures s != "" ==> ReplaceChar(s, c, r) == (if s[0] == c then r else [s[0]]) + ReplaceChar(s[1..], c, r)
  {
  }

  lemma ReplaceCharConcat(a: string, b: string, c: char, r: string)
    ensures ReplaceChar(a + b, c, r) == ReplaceChar(a, c, r) + ReplaceChar(b, c, r)
  {
    hide ReplaceChar;
    ReplaceCharStep(a, c, r);
    if a == "" {
      assert a + b == b;
    } else {
      ReplaceCharConcat(a[1..], b, c, r);
      assert (a + b)[1..] == a[1..] + b;
      ReplaceCharStep(a + b, c, r);
      ConcatIsAssociative(if a[0] == c then r else [a[0]], ReplaceChar(a[1..], c, r), ReplaceChar(b, c, r));
    }
  }

  /** Putting a backslash before c as well, after c was left alone. */
  lemma EscapeOneMore(s: string, escaped: set<char>, c: char)
    requires c !in escaped && c != '\\'
    ensures ReplaceChar(Escape(s, escaped), c, ['\\', c]) == Escape(s, escaped + {c})
  {
    if s != "" {
      var head := if s[0] in escaped then ['\\', s[0]] else [s[0]];
      ReplaceCharConcat(head, Escape(s[1..], escaped), c, ['\\', c]);
      EscapeOneMore(s[1..], escaped, c);
      if s[0] in escaped {
        assert head[1..] == [s[0]] && [s[0]][1..] == "";
        assert ReplaceChar([s[0]], c, ['\\', c]) == [s[0]];
        assert ReplaceChar(head, c, ['\\', c]) == head;
      } else {
        assert head[1..] == "";
      }
    }
  }

  lemma EscapeFirst(s: string, c: char)
    ensures ReplaceChar(s, c, ['\\', c]) == Escape(s, {c})
  {
  }

  lemma MandatoryIsOnePass(value: string, context: Context)
    ensures AddMandatoryEscapeCharacters(value, context) == Escape(value, Escaped(context))
  {
    EscapeFirst(value, ']');
    EscapeOneMore(value, {']'}, ':');
    assert {']'} + {':'} == {']', ':'};
  }

  lemma SimpleTextIsOnePass(value: string, context: Context)
    ensures AddSimpleTextAndTextEscapeCharacters(value, context) == Escape(value, {'\\'} + Escaped(context))
  {
    EscapeFirst(value, '\\');
    EscapeOneMore(value, {'\\'}, ']');
    EscapeOneMore(value, {'\\', ']'}, ':');
    assert {'\\'} + {']'} == {'\\', ']'} && {'\\', ']'} + {':'} == {'\\'} + {']', ':'};
  }

  // ---------------------------------------------------------------- unescaping undoes escaping

  lemma {:induction false} UnescapeEscape(s: string, escaped: set<char>, escapable: set<char>)
    requires '\\' in escaped && escaped <= escapable
    ensures Unescape(Escape(s, escaped), escapable) == s
  {
    if s != "" {
      var e := Escape(s[1..], escaped);
      UnescapeEscape(s[1..], escaped, escapable);
      if s[0] in escaped {
        assert (['\\', s[0]] + e)[2..] == e;
      } else {
        assert ([s[0]] + e)[1..] == e;
      }
    }
  }

  /** Main result on SimpleText and Text values: every value survives, in every context. */
  lemma SimpleTextRoundTrip(value: string, context: Context)
    ensures RemoveSimpleTextAndTextEscapeCharacters(AddSimpleTextAndTextEscapeCharacters(value, context), context) ==
              value
  {
    SimpleTextIsOnePass(value, context);
    ThreePassesAreOne(AddSimpleTextAndTextEscapeCharacters(value, context), context);
    UnescapeEscape(value, {'\\'} + Escaped(context), Unescapable(context));
  }

  lemma NothingReplaced(c: char)
    ensures ReplaceEscaped("", c) == ""
  {
  }

  /** One replacement of the decoder takes back one replacement of the encoder. */
  lemma {:induction false} ReplaceTakesBack(s: string, escaped: set<char>, c: char)
    requires c in escaped && c != '\\' && '\\' !in escaped
    ensures ReplaceEscaped(Escape(s, escaped), c) == Escape(s, escaped - {c})
  {
    hide ReplaceEscaped;
    NothingReplaced(c);
    if s != "" {
      var e := Escape(s[1..], escaped);
      ReplaceTakesBack(s[1..], escaped, c);
      assert e == "" || e[0] !in escaped;
      if s[0] == c {
        PassMatch(e, c);
      } else if s[0] in escaped {
        Pass(['\\', s[0]] + e, c);
        assert (['\\', s[0]] + e)[1..] == [s[0]] + e;
        Pass([s[0]] + e, c);
        assert ([s[0]] + e)[1..] == e;
      } else {
        Pass([s[0]] + e, c);
        assert ([s[0]] + e)[1..] == e;
      }
    }
  }

  lemma EscapeNothing(s: string)
    ensures Escape(s, {}) == s
  {
  }

  /** Main result on values with mandatory escaping only: every value survives, in every context. */
  lemma MandatoryRoundTrip(value: string, context: Context)
    ensures RemoveMoveAndPointAndStoneEscapeCharactersForNonGoGameTypes(
              AddMandatoryEscapeCharacters(value, context), context) == value
  {
    MandatoryIsOnePass(value, context);
    ReplaceTakesBack(value, Escaped(context), ']');
    EscapeNothing(value);
    assert {']'} - {']'} == {} && {']', ':'} - {']'} == {':'} && {':'} - {':'} == {};
    if context.FirstValueOfComposedValue? { ReplaceTakesBack(value, {':'}, ':'); }
  }

  // ---------------------------------------------------------------- framing

  function Prepend(p: string, r: Option<(string, string)>): Option<(string, string)> {
    match r
    case None => None
    case Some((text, rest)) => Some((p + text, rest))
  }

  /** The text up to the first unescaped character in stops, and the rest from there on. */
  function Scan(s: string, stops: set<char>): Option<(string, string)> {
    if s == "" then None
    else if s[0] in stops then Some(("", s))
    else
      var n := if s[0] == '\\' then 2 else 1;
      if |s| < n then None else Prepend(s[..n], Scan(s[n..], stops))
  }

  /** No unescaped character in stops, and no backslash without a character after it. */
  predicate Closed(text: string, stops: set<char>) {
    if text == "" then true
    else if text[0] in stops then false
    else if text[0] == '\\' then |text| > 1 && Closed(text[2..], stops)
    else Closed(text[1..], stops)
  }

  lemma PrependIsInjective(p: string, e: string, r: Option<(string, string)>, t: string)
    ensures Prepend(p, r) == Some((p + e, t)) <==> r == Some((e, t))
  {
    if r.Some? && p + r.value.0 == p + e {
      assert (p + r.value.0)[|p|..] == r.value.0 && (p + e)[|p|..] == e;
    }
  }

  /** A scan that starts on a backslash takes at least two characters. */
  lemma ScanIsLonger(s: string, stops: set<char>)
    requires s != "" && s[0] == '\\' && '\\' !in stops
    ensures Scan(s, stops).Some? ==> |Scan(s, stops).value.0| >= 2
  {
  }

  /** Closed is what the scan needs: it passes over a text and stops behind it exactly if the text is closed. */
  lemma {:induction false} ClosedIffScanned(text: string, t: string, stops: set<char>)
    requires '\\' !in stops && t != "" && t[0] in stops
    ensures Scan(text + t, stops) == Some((text, t)) <==> Closed(text, stops)
    decreases |text|
  {
    if text == "" {
      assert "" + t == t;
    } else if text[0] !in stops {
      var n := if text[0] == '\\' then 2 else 1;
      if n <= |text| {
        SliceOfConcat(text, t, n);
        assert text[..n] + text[n..] == text;
        PrependIsInjective(text[..n], text[n..], Scan(text[n..] + t, stops), t);
        ClosedIffScanned(text[n..], t, stops);
      } else {
        ScanIsLonger(text + t, stops);
      }
    }
  }

  /** Behind a text without a lone backslash at its end, scanning starts afresh. */
  lemma {:induction false} ClosedConcatIff(a: string, b: string, stops: set<char>, others: set<char>)
    requires Closed(a, others) && '\\' !in stops && '\\' !in others
    ensures Closed(a + b, stops) <==> Closed(a, stops) && Closed(b, stops)
    decreases |a|
  {
    if a == "" {
      assert a + b == b;
    } else {
      var n := if a[0] == '\\' then 2 else 1;
      ClosedConcatIff(a[n..], b, stops, others);
      SliceOfConcat(a, b, n);
    }
  }

  lemma ClosedBoth(text: string, a: set<char>, b: set<char>)
    requires '\\' !in a && '\\' !in b
    ensures Closed(text, a + b) <==> Closed(text, a) && Closed(text, b)
    decreases |text|
  {
    if text != "" {
      var n := if text[0] == '\\' then 2 else 1;
      if n <= |text| { ClosedBoth(text[n..], a, b); }
    }
  }

  lemma ClosedSkips(c: char, d: string, stops: set<char>)
    requires '\\' !in stops
    ensures Closed(['\\', c] + d, stops) <==> Closed(d, stops)
    ensures c != '\\' ==> (Closed([c] + d, stops) <==> c !in stops && Closed(d, stops))
  {
    assert (['\\', c] + d)[2..] == d && ([c] + d)[1..] == d;
  }

  /** Escaped SimpleText and Text values are closed, whatever they contain. */
  lemma {:induction false} EscapedIsClosed(s: string, escaped: set<char>, stops: set<char>)
    requires '\\' in escaped && '\\' !in stops && stops <= escaped
    ensures Closed(Escape(s, escaped), stops)
  {
    if s != "" {
      EscapedIsClosed(s[1..], escaped, stops);
      ClosedSkips(s[0], Escape(s[1..], escaped), stops);
    }
  }

  /** A single SimpleText or Text value ends at its terminator, whatever it contains. */
  lemma SingleValueIsFramed(value: string, rest: string)
    ensures var text := AddSimpleTextAndTextEscapeCharacters(value, Standalone);
      Scan(text + "]" + rest, {']'}) == Some((text, "]" + rest))
  {
    SimpleTextIsOnePass(value, Standalone);
    var text := AddSimpleTextAndTextEscapeCharacters(value, Standalone);
    EscapedIsClosed(value, {'\\'} + Escaped(Standalone), {']'});
    ClosedIffScanned(text, "]" + rest, {']'});
    assert text + "]" + rest == text + ("]" + rest);
  }

  /**
   * Main result on composed values of any kind: the first unescaped "]" is the terminator and the first unescaped ":"
   * is the separator exactly if the first text is closed against both, and the second against "]".
   */
  lemma ComposedFramingIff(text1: string, text2: string, rest: string)
    ensures
      && Scan(text1 + ":" + text2 + "]" + rest, {']'}) == Some((text1 + ":" + text2, "]" + rest))
      && Scan(text1 + ":" + text2, {':'}) == Some((text1, ":" + text2))
      <==> Closed(text1, {']', ':'}) && Closed(text2, {']'})
  {
    hide Scan, Closed;
    var whole := text1 + ":" + text2;
    assert whole == text1 + (":" + text2) && whole + "]" + rest == whole + ("]" + rest);
    ClosedIffScanned(whole, "]" + rest, {']'});
    ClosedIffScanned(text1, ":" + text2, {':'});
    assert {']'} + {':'} == {']', ':'};
    ClosedBoth(text1, {']'}, {':'});
    if Closed(text1, {':'}) {
      ClosedConcatIff(text1, ":" + text2, {']'}, {':'});
      ClosedSkips(':', text2, {']'});
    }
  }

  /**
   * Main result on composed SimpleText and Text values: the first unescaped "]" is the terminator, the
   * first unescaped ":" is the separator, and the two slices give back the two values.
   */
  lemma ComposedValueIsFramed(value1: string, value2: string, rest: string)
    ensures var text1 := AddSimpleTextAndTextEscapeCharacters(value1, FirstValueOfComposedValue);
      var text2 := AddSimpleTextAndTextEscapeCharacters(value2, SecondValueOfComposedValue);
      && Scan(text1 + ":" + text2 + "]" + rest, {']'}) == Some((text1 + ":" + text2, "]" + rest))
      && Scan(text1 + ":" + text2, {':'}) == Some((text1, ":" + text2))
      && RemoveSimpleTextAndTextEscapeCharacters(text1, FirstValueOfComposedValue) == value1
      && RemoveSimpleTextAndTextEscapeCharacters(text2, SecondValueOfComposedValue) == value2
  {
    hide Scan, Closed, Unescape, Escape;
    SimpleTextIsOnePass(value1, FirstValueOfComposedValue);
    SimpleTextIsOnePass(value2, SecondValueOfComposedValue);
    SimpleTextRoundTrip(value1, FirstValueOfComposedValue);
    SimpleTextRoundTrip(value2, SecondValueOfComposedValue);
    EscapedIsClosed(value1, {'\\'} + {']', ':'}, {']', ':'});
    EscapedIsClosed(value2, {'\\'} + {']'}, {']'});
    ComposedFramingIff(AddSimpleTextAndTextEscapeCharacters(value1, FirstValueOfComposedValue),
                       AddSimpleTextAndTextEscapeCharacters(value2, SecondValueOfComposedValue), rest);
  }

  /** The number of backslashes directly before position i. */
  function Run(s: string, i: nat): nat
    requires i <= |s|
  {
    if i == 0 || s[i - 1] != '\\' then 0 else 1 + Run(s, i - 1)
  }

  /** From position k on, every run of backslashes before a character in stops, or at the end, is even. */
  ghost predicate EvenRuns(s: string, k: nat, stops: set<char>) {
    forall i {:trigger Run(s, i)} :: k <= i <= |s| && (i == |s| || s[i] in stops) ==> Run(s, i) % 2 == 0
  }

  /** What the scanner does with a value whose backslashes are not escaped. */
  predicate Framed(s: string, stops: set<char>) {
    if s == "" then true
    else if s[0] == '\\' then |s| > 1 && s[1] !in stops && Framed(s[2..], stops)
    else Framed(s[1..], stops)
  }

  lemma {:induction false} FramedIffEvenRuns(s: string, k: nat, stops: set<char>)
    requires k <= |s| && Run(s, k) % 2 == 0 && '\\' !in stops
    ensures Framed(s[k..], stops) <==> EvenRuns(s, k, stops)
    decreases |s| - k
  {
    if k < |s| {
      assert s[k..][1..] == s[k + 1..];
      assert Run(s, k + 1) == if s[k] == '\\' then 1 + Run(s, k) else 0;
      if s[k] != '\\' {
        FramedIffEvenRuns(s, k + 1, stops);
      } else if k + 1 < |s| {
        assert s[k..][2..] == s[k + 2..];
        assert Run(s, k + 2) == if s[k + 1] == '\\' then 1 + Run(s, k + 1) else 0;
        FramedIffEvenRuns(s, k + 2, stops);
      }
    }
  }

  lemma EscapeStep(s: string, stops: set<char>)
    requires s != ""
    ensures Escape(s, stops) == (if s[0] in stops then ['\\', s[0]] else [s[0]]) + Escape(s[1..], stops)
  {
  }

  lemma EscapeBackslash(s: string, stops: set<char>)
    requires |s| > 1 && s[0] == '\\' && '\\' !in stops
    ensures Escape(s, stops) ==
              if s[1] in stops then ['\\', '\\'] + ([s[1]] + Escape(s[2..], stops))
              else ['\\', s[1]] + Escape(s[2..], stops)
  {
    hide Escape;
    EscapeStep(s, stops);
    EscapeStep(s[1..], stops);
    assert s[1..][1..] == s[2..];
  }

  lemma ClosedEnds(stops: set<char>)
    requires '\\' !in stops
    ensures Closed("", stops) && Escape("", stops) == "" && !Closed("\\", stops) && Escape("\\", stops) == "\\"
  {
    assert "\\"[1..] == "";
  }

  /** With mandatory escaping only, a value is closed exactly if it is Framed. */
  lemma {:induction false} MandatoryIsClosedIff(s: string, stops: set<char>)
    requires '\\' !in stops
    ensures Closed(Escape(s, stops), stops) <==> Framed(s, stops)
    decreases |s|
  {
    hide Closed, Escape;
    ClosedEnds(stops);
    if s == "" {
    } else if s[0] != '\\' {
      MandatoryIsClosedIff(s[1..], stops);
      EscapeStep(s, stops);
      ClosedSkips(s[0], Escape(s[1..], stops), stops);
    } else if |s| == 1 {
      assert s == "\\";
    } else {
      var d := Escape(s[2..], stops);
      MandatoryIsClosedIff(s[2..], stops);
      EscapeBackslash(s, stops);
      ClosedSkips(s[1], d, stops);
      ClosedSkips('\\', [s[1]] + d, stops);
    }
  }

  lemma MandatoryIsClosedIffEvenRuns(value: string, context: Context)
    ensures Closed(AddMandatoryEscapeCharacters(value, context), Escaped(context))
            <==> EvenRuns(value, 0, Escaped(context))
  {
    MandatoryIsOnePass(value, context);
    MandatoryIsClosedIff(value, Escaped(context));
    FramedIffEvenRuns(value, 0, Escaped(context));
    assert value[0..] == value;
  }

  /** Main result on framing with mandatory escaping only: it works exactly for the values with even runs. */
  lemma MandatoryFramingIff(value: string, context: Context, t: string)
    requires t != "" && t[0] in Escaped(context)
    ensures Scan(AddMandatoryEscapeCharacters(value, context) + t, Escaped(context))
              == Some((AddMandatoryEscapeCharacters(value, context), t))
            <==> EvenRuns(value, 0, Escaped(context))
  {
    MandatoryIsClosedIffEvenRuns(value, context);
    ClosedIffScanned(AddMandatoryEscapeCharacters(value, context), t, Escaped(context));
  }
}
