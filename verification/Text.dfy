/** Splitting strings and reading numbers, as the date decoder uses them. */
module Text {
  import opened Sequences

  /** The position of the first d from position start on. */
  function Find(s: string, d: char, start: nat): (r: Option<nat>)
    requires start <= |s|
    ensures r.Some? ==> start <= r.value < |s| && s[r.value] == d
    decreases |s| - start
  {
    if start == |s| then None else if s[start] == d then Some(start) else Find(s, d, start + 1)
  }

  lemma {:induction false} FindIsFirst(s: string, d: char, start: nat)
    requires start <= |s|
    ensures match Find(s, d, start) case None => d !in s[start..] case Some(i) => d !in s[start..i]
    decreases |s| - start
  {
    if start < |s| && s[start] != d {
      FindIsFirst(s, d, start + 1);
      match Find(s, d, start)
      case None => assert s[start..] == [s[start]] + s[start + 1..];
      case Some(i) => assert s[start..i] == [s[start]] + s[start + 1..i];
    }
  }

  /** The pieces of s between the occurrences of d. */
  ghost function Split(s: string, d: char): (parts: seq<string>)
    ensures parts != []
    decreases |s|
  {
    match Find(s, d, 0)
    case None => [s]
    case Some(i) => [s[..i]] + Split(s[i + 1..], d)
  }

  ghost function Join(parts: seq<string>, d: char): string {
    if parts == [] then ""
    else if |parts| == 1 then parts[0]
    else parts[0] + [d] + Join(parts[1..], d)
  }

  lemma JoinNothing(d: char)
    ensures Join([], d) == ""
  {
  }

  lemma JoinOneMore(parts: seq<string>, p: string, d: char)
    ensures Join(parts + [p], d) == if parts == [] then p else Join(parts, d) + [d] + p
  {
    if |parts| > 1 {
      assert (parts + [p])[1..] == parts[1..] + [p];
      JoinOneMore(parts[1..], p, d);
      var head, rest := parts[0] + [d], Join(parts[1..], d);
      ConcatIsAssociative(head, rest, [d]);
      ConcatIsAssociative(head, rest + [d], p);
    } else if |parts| == 1 {
      assert (parts + [p])[1..] == [p];
    }
  }

  lemma FindIs(s: string, d: char, start: nat, i: nat)
    requires start <= i < |s| && s[i] == d && d !in s[start..i]
    ensures Find(s, d, start) == Some(i)
    decreases i - start
  {
    if start < i {
      assert s[start] == s[start..i][0];
      assert s[start + 1..i] == s[start..i][1..];
      FindIs(s, d, start + 1, i);
    }
  }

  lemma FindNone(s: string, d: char, start: nat)
    requires start <= |s| && d !in s[start..]
    ensures Find(s, d, start) == None
    decreases |s| - start
  {
    if start < |s| {
      assert s[start] == s[start..][0];
      assert s[start + 1..] == s[start..][1..];
      FindNone(s, d, start + 1);
    }
  }

  lemma FindInPiece(p: string, d: char, t: string)
    requires d !in p
    ensures Find(p, d, 0) == None && Find(p + [d] + t, d, 0) == Some(|p|)
  {
    assert p[0..] == p;
    FindNone(p, d, 0);
    assert (p + [d] + t)[0..|p|] == p;
    FindIs(p + [d] + t, d, 0, |p|);
  }

  /** Pieces without d, joined and split again. */
  lemma {:induction false} SplitOfJoin(parts: seq<string>, d: char)
    requires parts != [] && forall p :: p in parts ==> d !in p
    ensures Split(Join(parts, d), d) == parts
    decreases |parts|
  {
    var p := parts[0];
    if |parts| == 1 {
      FindInPiece(p, d, "");
    } else {
      var t := Join(parts[1..], d);
      FindInPiece(p, d, t);
      assert (p + [d] + t)[..|p|] == p && (p + [d] + t)[|p| + 1..] == t;
      SplitOfJoin(parts[1..], d);
    }
  }

  /** The other way round: the pieces of any string contain no d, and joined again give the string. */
  lemma {:induction false} JoinOfSplit(s: string, d: char)
    ensures Join(Split(s, d), d) == s
    ensures forall p :: p in Split(s, d) ==> d !in p
    decreases |s|
  {
    FindIsFirst(s, d, 0);
    match Find(s, d, 0)
    case None => assert s[0..] == s;
    case Some(i) =>
      JoinOfSplit(s[i + 1..], d);
      assert s == s[..i] + [d] + s[i + 1..];
      assert s[0..i] == s[..i];
  }

  lemma FindInSuffix(s: string, d: char, start: nat)
    requires start <= |s|
    ensures Find(s[start..], d, 0) ==
              match Find(s, d, start) case None => None case Some(i) => Some(i - start)
  {
    var t := s[start..];
    assert t[0..] == t;
    FindIsFirst(s, d, start);
    match Find(s, d, start)
    case None => FindNone(t, d, 0);
    case Some(i) =>
      assert t == s[start..i] + [d] + s[i + 1..];
      FindInPiece(s[start..i], d, s[i + 1..]);
  }

  lemma SplitFirst(s: string, d: char)
    ensures Split(s, d) == match Find(s, d, 0) case None => [s] case Some(i) => [s[..i]] + Split(s[i + 1..], d)
  {
  }

  lemma SlicesOfSuffix(s: string, start: nat, i: nat)
    requires start <= i < |s|
    ensures s[start..][..i - start] == s[start..i] && s[start..][i - start + 1..] == s[i + 1..]
  {
  }

  /** The pieces from a position on: one up to the next delimiter, and those behind it. */
  lemma SplitStep(s: string, d: char, start: nat)
    requires start <= |s|
    ensures Split(s[start..], d) ==
              match Find(s, d, start)
              case None => [s[start..]]
              case Some(i) => [s[start..i]] + Split(s[i + 1..], d)
  {
    hide Split, Find;
    var t, o := s[start..], Find(s, d, start);
    FindInSuffix(s, d, start);
    SplitFirst(t, d);
    if o.Some? {
      SlicesOfSuffix(s, start, o.value);
      assert Split(t, d) == [t[..o.value - start]] + Split(t[o.value - start + 1..], d);
    }
  }

  /** The original advances by one whatever the delimiter; it is called with one character only. */
  method SplitString(s: string, delimiter: char) returns (substrings: seq<string>)
    ensures substrings == Split(s, delimiter)
  {
    hide Split, Find;
    substrings := [];
    var startPosition := 0;
    var delimiterPosition: Option<nat> := Some(0);
    assert s[0..] == s && [] + Split(s, delimiter) == Split(s, delimiter);
    while delimiterPosition != None
      invariant startPosition <= |s|
      invariant delimiterPosition != None ==> substrings + Split(s[startPosition..], delimiter) == Split(s, delimiter)
      invariant delimiterPosition == None ==> substrings == Split(s, delimiter)
      decreases if delimiterPosition == None then 0 else 1, |s| - startPosition
    {
      SplitStep(s, delimiter, startPosition);
      if startPosition >= |s| {
        assert s[startPosition..] == "";
        substrings := substrings + [""];
        delimiterPosition := None;
      } else {
        delimiterPosition := Find(s, delimiter, startPosition);
        if delimiterPosition == None {
          substrings := substrings + [s[startPosition..]];
        } else {
          var next := delimiterPosition.value + 1;
          var piece := s[startPosition..delimiterPosition.value];
          ConcatIsAssociative(substrings, [piece], Split(s[next..], delimiter));
          substrings := substrings + [piece];
          startPosition := next;
        }
      }
    }
  }

  // ---------------------------------------------------------------- numbers

  predicate IsDigit(c: char) { '0' <= c <= '9' }

  predicate IsSpace(c: char) { c == ' ' || 9 <= c as int <= 13 }

  function SkipSpace(s: string): string {
    if s != "" && IsSpace(s[0]) then SkipSpace(s[1..]) else s
  }

  /** The number the digits at the start of s continue n to. */
  function ReadDigits(s: string, n: nat): nat {
    if s != "" && IsDigit(s[0]) then ReadDigits(s[1..], n * 10 + (s[0] as int - '0' as int)) else n
  }

  /**
   * stoi: leading white space, a sign, digits, anything behind them. None where it throws, because
   * there is no digit or because the number is not a 32-bit one.
   */
  function Stoi(s: string): Option<int> {
    var t := SkipSpace(s);
    var digits := if t != "" && t[0] in {'+', '-'} then t[1..] else t;
    if digits == "" || !IsDigit(digits[0]) then None
    else
      var n: int := ReadDigits(digits, 0);
      var value := if t[0] == '-' then -n else n;
      if -0x8000_0000 <= value < 0x8000_0000 then Some(value) else None
  }

  function TryConvertStringToNumberValue(s: string): Option<int> {
    Stoi(if s != "" && s[0] == '+' then s[1..] else s)
  }

  function Digit(n: nat): (c: char)
    requires n < 10
    ensures IsDigit(c) && c as int - '0' as int == n
  {
    ('0' as int + n) as char
  }

  /** n in at least width digits, for the widths and numbers that dates have. */
  function Pad2(n: nat): string
    requires n < 100
  {
    [Digit(n / 10), Digit(n % 10)]
  }

  function Pad4(n: nat): string
    requires n < 10000
  {
    Pad2(n / 100) + Pad2(n % 100)
  }

  lemma ReadPad2(n: nat, m: nat, t: string)
    requires n < 100
    ensures ReadDigits(Pad2(n) + t, m) == ReadDigits(t, m * 100 + n)
  {
    var s := Pad2(n) + t;
    assert s[1..][0] == Digit(n % 10);
    assert s[1..][1..] == t;
    assert (m * 10 + n / 10) * 10 + n % 10 == m * 100 + n;
  }

  lemma DigitsAreNumbers(s: string)
    requires s != "" && IsDigit(s[0])
    ensures var n := ReadDigits(s, 0); TryConvertStringToNumberValue(s) == if n < 0x8000_0000 then Some(n) else None
  {
  }

  lemma Pad2IsRead(n: nat)
    requires n < 100
    ensures TryConvertStringToNumberValue(Pad2(n)) == Some(n)
    ensures '-' !in Pad2(n) && ',' !in Pad2(n)
  {
    ReadPad2(n, 0, "");
    assert Pad2(n) + "" == Pad2(n);
    DigitsAreNumbers(Pad2(n));
  }

  lemma Pad4IsRead(n: nat)
    requires n < 10000
    ensures TryConvertStringToNumberValue(Pad4(n)) == Some(n)
    ensures '-' !in Pad4(n) && ',' !in Pad4(n)
  {
    ReadPad2(n / 100, 0, Pad2(n % 100));
    ReadPad2(n % 100, n / 100, "");
    assert Pad2(n % 100) + "" == Pad2(n % 100);
    DigitsAreNumbers(Pad4(n));
  }
}
