/**
 * The date lists of the DT property: an encoder that shortens a date when the date before it allows,
 * and a decoder that completes the shortcuts again. Each keeps its own state from date to date.
 */
module Dates {
  import opened Sequences
  import opened Text

  datatype SgfcDate = SgfcDate(year: int, month: int, day: int) {
    predicate IsValidSgfDate() {
      if year < 0 || year > 9999 || month < 0 || month > 12 || day < 0 then false
      else if year == 0 && month == 0 then day != 0 && day <= 31
      else if month == 0 then day == 0
      else if day == 0 then true
      else if month in {1, 3, 5, 7, 8, 10, 12} then day <= 31
      else if month in {4, 6, 9, 11} then day <= 30
      else if day == 29 then year % 4 == 0 && (year % 100 == 0 ==> year % 400 == 0)
      else day <= 28
    }
  }

  /** Which parts the preceding date was written with. */
  datatype Flags = Flags(year: bool, month: bool, day: bool)

  const NO_FLAGS := Flags(false, false, false)

  // ---------------------------------------------------------------- the decoder

  /** What is done, followed by the rest, unless the rest fails. */
  function Continue<T>(done: seq<T>, rest: Option<seq<T>>): Option<seq<T>> {
    match rest
    case None => None
    case Some(more) => Some(done + more)
  }

  lemma ContinueFromNothing<T>(rest: Option<seq<T>>)
    ensures Continue([], rest) == rest
  {
    if rest.Some? { assert [] + rest.value == rest.value; }
  }

  lemma ContinueOneMore<T>(done: seq<T>, x: T, rest: Option<seq<T>>)
    ensures Continue(done, Continue([x], rest)) == Continue(done + [x], rest)
  {
    if rest.Some? { ConcatIsAssociative(done, [x], rest.value); }
  }

  /** The numbers a date is written with, and whether the first one is a year. */
  datatype Item = Item(hasYear: bool, parts: seq<int>)

  function Numbers(texts: seq<string>): Option<seq<int>> {
    if texts == [] then Some([])
    else
      match TryConvertStringToNumberValue(texts[0])
      case None => None
      case Some(n) => Continue([n], Numbers(texts[1..]))
  }

  /** One to three parts: a year of four characters or a shortcut of two, then parts of two characters. */
  ghost function ReadItem(text: string): Option<Item> {
    var texts := Split(text, '-');
    if |texts| > 3 || |texts[0]| !in {2, 4} || (|texts[0]| == 2 && |texts| == 3)
       || exists i :: 1 <= i < |texts| && |texts[i]| != 2 then None
    else
      match Numbers(texts)
      case None => None
      case Some(parts) => Some(Item(|texts[0]| == 4, parts))
  }

  /** Whether a single number of two digits is a month or a day, after a date with these flags. */
  predicate MeansMonth(flags: Flags) { flags.month && !flags.day }

  predicate MeansDay(flags: Flags) { flags.day && (flags.month || !flags.year) }

  predicate AllowsMonthAndDay(flags: Flags) { !flags.year || flags.month }

  /** The date an item stands for, and the flags it leaves behind. */
  function Complete(item: Item, preceding: Option<SgfcDate>, flags: Flags): Option<(SgfcDate, Flags)> {
    var p := item.parts;
    if item.hasYear then
      if |p| == 1 then Some((SgfcDate(p[0], 0, 0), Flags(true, false, false)))
      else if |p| == 2 then Some((SgfcDate(p[0], p[1], 0), Flags(true, true, false)))
      else if |p| == 3 then Some((SgfcDate(p[0], p[1], p[2]), Flags(true, true, true)))
      else None
    else if preceding.None? then None
    else if |p| == 2 then
      if !AllowsMonthAndDay(flags) then None
      else Some((SgfcDate(preceding.value.year, p[0], p[1]), Flags(false, true, true)))
    else if |p| == 1 then
      if MeansMonth(flags) then Some((SgfcDate(preceding.value.year, p[0], 0), Flags(false, true, false)))
      else if MeansDay(flags) then
        Some((SgfcDate(preceding.value.year, preceding.value.month, p[0]), Flags(false, false, true)))
      else None
    else None
  }

  /** One turn of the decoder's loop. */
  ghost function DecodeOne(text: string, preceding: Option<SgfcDate>, flags: Flags): Option<(SgfcDate, Flags)> {
    match ReadItem(text)
    case None => None
    case Some(item) =>
      match Complete(item, preceding, flags)
      case None => None
      case Some((date, newFlags)) =>
        if (preceding.None? && date.year == 0) || !date.IsValidSgfDate() then None else Some((date, newFlags))
  }

  ghost function DecodeAll(texts: seq<string>, preceding: Option<SgfcDate>, flags: Flags): Option<seq<SgfcDate>> {
    if texts == [] then Some([])
    else
      match DecodeOne(texts[0], preceding, flags)
      case None => None
      case Some((date, newFlags)) => Continue([date], DecodeAll(texts[1..], Some(date), newFlags))
  }

  ghost function Decode(propertyValue: string): seq<SgfcDate> {
    match DecodeAll(Split(propertyValue, ','), None, NO_FLAGS)
    case None => []
    case Some(dates) => dates
  }

  // ---------------------------------------------------------------- the encoder

  /** A shortcut takes over the year, and if it has no month also the month, of the preceding date. */
  function Completed(date: SgfcDate, preceding: Option<SgfcDate>): SgfcDate {
    if date.year != 0 || preceding.None? then date
    else SgfcDate(preceding.value.year, if date.month == 0 then preceding.value.month else date.month, date.day)
  }

  /** Step 2 of the encoder: shorten a date with a year if the preceding date has the same year. */
  function Reduce(date: SgfcDate, preceding: SgfcDate): Option<SgfcDate> {
    if date.year != 0 && preceding.year != 0 && date.year == preceding.year then
      if date.month != 0 && preceding.month != 0 then
        if date.month == preceding.month then
          if date.day != 0 && preceding.day != 0 then
            if date.day == preceding.day then None else Some(SgfcDate(0, 0, date.day))
          else if date.day == 0 && preceding.day == 0 then None
          else Some(date)
        else
          Some(SgfcDate(0, date.month, date.day))
      else if date.month == 0 && preceding.month == 0 && date.day == 0 && preceding.day == 0 then None
      else Some(date)
    else Some(date)
  }

  predicate Writable(date: SgfcDate) {
    0 <= date.year < 10000 && 0 <= date.month < 100 && 0 <= date.day < 100
  }

  /** A date that is valid when completed can be written, reduced or not. */
  lemma OutputIsWritable(date: SgfcDate, preceding: Option<SgfcDate>)
    requires Completed(date, preceding).IsValidSgfDate()
    ensures Writable(date)
    ensures preceding.Some? && Reduce(date, preceding.value).Some? ==> Writable(Reduce(date, preceding.value).value)
  {
  }

  /** Step 3 of the encoder: write the date, unless it is a shortcut the flags do not allow. */
  function Write(date: SgfcDate, flags: Flags): Option<(string, Flags)>
    requires Writable(date)
  {
    if date.year != 0 then
      if date.month != 0 && date.day != 0 then
        Some((Pad4(date.year) + "-" + Pad2(date.month) + "-" + Pad2(date.day), Flags(true, true, true)))
      else if date.month != 0 then
        Some((Pad4(date.year) + "-" + Pad2(date.month), Flags(true, true, false)))
      else
        Some((Pad4(date.year), Flags(true, false, false)))
    else if date.month != 0 && date.day != 0 then
      if !AllowsMonthAndDay(flags) then None
      else Some((Pad2(date.month) + "-" + Pad2(date.day), Flags(false, true, true)))
    else if MeansMonth(flags) then
      if date.month != 0 then Some((Pad2(date.month), Flags(false, true, false))) else None
    else if MeansDay(flags) then
      if date.day != 0 then Some((Pad2(date.day), Flags(false, false, true))) else None
    else None
  }

  /** One turn of the encoder's loop. */
  function EncodeOne(date: SgfcDate, preceding: Option<SgfcDate>, flags: Flags): Option<(string, Flags)> {
    if date.year == 0 && preceding.None? then None
    else if !Completed(date, preceding).IsValidSgfDate() then None
    else
      OutputIsWritable(date, preceding);
      var output := if date.year != 0 && preceding.Some? then Reduce(date, preceding.value) else Some(date);
      if output.None? then None else Write(output.value, flags)
  }

  ghost function EncodeAll(dates: seq<SgfcDate>, preceding: Option<SgfcDate>, flags: Flags): Option<seq<string>> {
    if dates == [] then Some([])
    else
      match EncodeOne(dates[0], preceding, flags)
      case None => None
      case Some((text, newFlags)) =>
        Continue([text], EncodeAll(dates[1..], Some(Completed(dates[0], preceding)), newFlags))
  }

  ghost function Encode(dates: seq<SgfcDate>): string {
    match EncodeAll(dates, None, NO_FLAGS)
    case None => ""
    case Some(texts) => Join(texts, ',')
  }

  /** The dates with every shortcut completed from its predecessors. */
  function CompletedAll(dates: seq<SgfcDate>, preceding: Option<SgfcDate>): seq<SgfcDate> {
    if dates == [] then []
    else
      var date := Completed(dates[0], preceding);
      [date] + CompletedAll(dates[1..], Some(date))
  }

  // ---------------------------------------------------------------- the loops

  /** The inner loop of the decoder: the checks and conversions for the parts of one date. */
  method ReadParts(dateString: string) returns (item: Option<Item>)
    ensures item == ReadItem(dateString)
  {
    var texts := SplitString(dateString, '-');
    if |texts| < 1 || |texts| > 3 {
      return None;
    }
    var hasYear := false;
    var parts: seq<int> := [];
    var i := 0;
    ContinueFromNothing(Numbers(texts));
    assert texts[0..] == texts;
    while i < |texts|
      invariant i <= |texts| && |parts| == i
      invariant i > 0 ==> |texts[0]| in {2, 4} && hasYear == (|texts[0]| == 4) && (|texts[0]| == 2 ==> |texts| != 3)
      invariant forall j :: 1 <= j < i ==> |texts[j]| == 2
      invariant Numbers(texts) == Continue(parts, Numbers(texts[i..]))
    {
      if i == 0 {
        if |texts[i]| == 4 {
          hasYear := true;
        } else if |texts[i]| == 2 {
          hasYear := false;
          if |texts| == 3 {
            return None;
          }
        } else {
          return None;
        }
      } else {
        if |texts[i]| != 2 {
          return None;
        }
      }
      var number := TryConvertStringToNumberValue(texts[i]);
      assert texts[i..][1..] == texts[i + 1..];
      if number == None {
        return None;
      }
      ContinueOneMore(parts, number.value, Numbers(texts[i + 1..]));
      parts := parts + [number.value];
      i := i + 1;
    }
    assert parts + [] == parts;
    item := Some(Item(hasYear, parts));
  }

  method FromPropertyValue(propertyValue: string) returns (gameDates: seq<SgfcDate>)
    ensures gameDates == Decode(propertyValue)
  {
    gameDates := [];
    var preceding: Option<SgfcDate> := None;
    var flags := NO_FLAGS;
    var dateStrings := SplitString(propertyValue, ',');
    var i := 0;
    ContinueFromNothing(DecodeAll(dateStrings, None, NO_FLAGS));
    assert dateStrings[0..] == dateStrings;
    while i < |dateStrings|
      invariant i <= |dateStrings|
      invariant DecodeAll(dateStrings, None, NO_FLAGS) ==
          Continue(gameDates, DecodeAll(dateStrings[i..], preceding, flags))
    {
      assert dateStrings[i..][0] == dateStrings[i] && dateStrings[i..][1..] == dateStrings[i + 1..];
      var item := ReadParts(dateStrings[i]);
      if item == None {
        return [];
      }
      var completed := Complete(item.value, preceding, flags);
      if completed == None {
        return [];
      }
      var (date, newFlags) := completed.value;
      if preceding == None && date.year == 0 {
        return [];
      } else if date.IsValidSgfDate() {
        ContinueOneMore(gameDates, date, DecodeAll(dateStrings[i + 1..], Some(date), newFlags));
        gameDates := gameDates + [date];
      } else {
        return [];
      }
      flags := newFlags;
      preceding := Some(date);
      i := i + 1;
    }
    assert gameDates + [] == gameDates;
  }

  method ToPropertyValue(gameDates: seq<SgfcDate>) returns (propertyValue: string)
    ensures propertyValue == Encode(gameDates)
  {
    hide Write, Writable, Reduce, Completed, SgfcDate.IsValidSgfDate, Join;
    propertyValue := "";
    JoinNothing(',');
    var precedingCompletedDate: Option<SgfcDate> := None;
    var precedingOutput := NO_FLAGS;
    var i := 0;
    ghost var texts: seq<string> := [];
    ContinueFromNothing(EncodeAll(gameDates, None, NO_FLAGS));
    assert gameDates[0..] == gameDates;
    while i < |gameDates|
      invariant i <= |gameDates| && |texts| == i && (precedingCompletedDate == None <==> i == 0)
      invariant propertyValue == Join(texts, ',')
      invariant EncodeAll(gameDates, None, NO_FLAGS) ==
                Continue(texts, EncodeAll(gameDates[i..], precedingCompletedDate, precedingOutput))
    {
      var gameDate := gameDates[i];
      assert gameDates[i..][0] == gameDate && gameDates[i..][1..] == gameDates[i + 1..];
      if gameDate.year == 0 && precedingCompletedDate == None {
        return "";
      }
      var completedDate := Completed(gameDate, precedingCompletedDate);
      if !completedDate.IsValidSgfDate() {
        return "";
      }
      OutputIsWritable(gameDate, precedingCompletedDate);
      var outputDate := Some(gameDate);
      if gameDate.year != 0 && precedingCompletedDate != None {
        outputDate := Reduce(gameDate, precedingCompletedDate.value);
        if outputDate == None {
          return "";
        }
      }
      var written := Write(outputDate.value, precedingOutput);
      if written == None {
        return "";
      }
      var (text, newOutput) := written.value;
      ContinueOneMore(texts, text, EncodeAll(gameDates[i + 1..], Some(completedDate), newOutput));
      JoinOneMore(texts, text, ',');
      texts := texts + [text];
      if precedingCompletedDate != None {
        propertyValue := propertyValue + ",";
      }
      propertyValue := propertyValue + text;
      precedingOutput := newOutput;
      precedingCompletedDate := Some(completedDate);
      i := i + 1;
    }
    assert texts + [] == texts;
  }
}
