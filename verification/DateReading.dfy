/**
 * Which property values the date decoder accepts, and which dates it reads, said piece by piece: by the lengths of the
 * numbers in a piece, and by what the piece before it ends in.
 */
module DateReading {
  import opened Sequences
  import opened Text
  import opened Dates

  /** YYYY, YYYY-MM, YYYY-MM-DD, MM-DD, or two digits alone. */
  datatype Shape = Year | YearMonth | YearMonthDay | MonthDay | Lone | NoShape

  datatype Ending = InYear | InMonth | InDay | InNothing

  ghost function ShapeOf(piece: string): Shape {
    var parts := Split(piece, '-');
    if |parts| == 1 && |parts[0]| == 4 then Year
    else if |parts| == 1 && |parts[0]| == 2 then Lone
    else if |parts| == 2 && |parts[0]| == 4 && |parts[1]| == 2 then YearMonth
    else if |parts| == 2 && |parts[0]| == 2 && |parts[1]| == 2 then MonthDay
    else if |parts| == 3 && |parts[0]| == 4 && |parts[1]| == 2 && |parts[2]| == 2 then YearMonthDay
    else NoShape
  }

  /** What the number at the end of a piece stands for: a number alone goes on with what the piece before it ends in. */
  ghost function EndsIn(pieces: seq<string>, i: nat): Ending
    requires i < |pieces|
  {
    match ShapeOf(pieces[i])
    case Year => InYear
    case YearMonth => InMonth
    case YearMonthDay | MonthDay => InDay
    case Lone => if i == 0 then InNothing else EndsIn(pieces, i - 1)
    case NoShape => InNothing
  }

  /** The k-th part of the piece is the number n. */
  ghost predicate IsNumber(piece: string, k: nat, n: int) {
    var parts := Split(piece, '-');
    k < |parts| && TryConvertStringToNumberValue(parts[k]) == Some(n)
  }

  /** The i-th piece is accepted and stands for the i-th date, if the pieces before it stand for the dates before it. */
  ghost predicate StandsFor(pieces: seq<string>, dates: seq<SgfcDate>, i: nat)
    requires i < |pieces| == |dates|
  {
    var piece, d := pieces[i], dates[i];
    && d.IsValidSgfDate()
    && (i == 0 ==> d.year != 0)
    && match ShapeOf(piece)
       case Year => IsNumber(piece, 0, d.year) && d.month == 0 && d.day == 0
       case YearMonth => IsNumber(piece, 0, d.year) && IsNumber(piece, 1, d.month) && d.day == 0
       case YearMonthDay => IsNumber(piece, 0, d.year) && IsNumber(piece, 1, d.month) && IsNumber(piece, 2, d.day)
       case MonthDay =>
         && i > 0 && EndsIn(pieces, i - 1) != InYear
         && d.year == dates[i - 1].year && IsNumber(piece, 0, d.month) && IsNumber(piece, 1, d.day)
       case Lone =>
         && i > 0 && d.year == dates[i - 1].year
         && EndsIn(pieces, i - 1) in {InMonth, InDay}
         && (EndsIn(pieces, i - 1) == InMonth ==> IsNumber(piece, 0, d.month) && d.day == 0)
         && (EndsIn(pieces, i - 1) == InDay ==> d.month == dates[i - 1].month && IsNumber(piece, 0, d.day))
       case NoShape => false
  }

  ghost predicate AllStandFor(pieces: seq<string>, dates: seq<SgfcDate>) {
    |pieces| == |dates| && forall i :: 0 <= i < |pieces| ==> StandsFor(pieces, dates, i)
  }

  // ---------------------------------------------------------------- one piece

  ghost predicate AreNumbers(texts: seq<string>, parts: seq<int>) {
    && |parts| == |texts|
    && forall k :: 0 <= k < |texts| ==> TryConvertStringToNumberValue(texts[k]) == Some(parts[k])
  }

  lemma AreNumbersStep(texts: seq<string>, parts: seq<int>)
    requires texts != [] && parts != []
    ensures AreNumbers(texts, parts) <==>
            TryConvertStringToNumberValue(texts[0]) == Some(parts[0]) && AreNumbers(texts[1..], parts[1..])
  {
    hide TryConvertStringToNumberValue;
    var ts, ps := texts[1..], parts[1..];
    if TryConvertStringToNumberValue(texts[0]) == Some(parts[0]) && AreNumbers(ts, ps) {
      forall k | 0 <= k < |texts| ensures TryConvertStringToNumberValue(texts[k]) == Some(parts[k]) {
        if k > 0 { assert texts[k] == ts[k - 1] && parts[k] == ps[k - 1]; }
      }
    }
    forall k | 0 <= k < |ts| && k < |ps| ensures ts[k] == texts[k + 1] && ps[k] == parts[k + 1] {}
  }

  lemma FirstOfContinue<T>(x: T, rest: Option<seq<T>>, more: seq<T>)
    ensures Continue([x], rest) == Some([x] + more) <==> rest == Some(more)
  {
    if rest.Some? && [x] + rest.value == [x] + more {
      assert rest.value == ([x] + rest.value)[1..] && more == ([x] + more)[1..];
    }
  }

  lemma FirstDiffers<T>(x: T, rest: Option<seq<T>>, all: seq<T>)
    requires all != [] && all[0] != x
    ensures Continue([x], rest) != Some(all)
  {
    if rest.Some? { assert ([x] + rest.value)[0] == x; }
  }

  lemma {:induction false} NumbersAt(texts: seq<string>, parts: seq<int>)
    ensures Numbers(texts) == Some(parts) <==> AreNumbers(texts, parts)
    decreases |texts|
  {
    hide TryConvertStringToNumberValue;
    if texts != [] && parts != [] {
      NumbersAt(texts[1..], parts[1..]);
      AreNumbersStep(texts, parts);
      assert parts == [parts[0]] + parts[1..];
      if TryConvertStringToNumberValue(texts[0]).Some? {
        var n := TryConvertStringToNumberValue(texts[0]).value;
        if n == parts[0] { FirstOfContinue(n, Numbers(texts[1..]), parts[1..]); }
        else { FirstDiffers(n, Numbers(texts[1..]), parts); }
      }
    } else if texts != [] {
      assert Numbers(texts) != Some([]);
    }
  }

  lemma PartsAreNumbers(piece: string, parts: seq<int>)
    ensures AreNumbers(Split(piece, '-'), parts) <==>
            |parts| == |Split(piece, '-')| && forall k :: 0 <= k < |parts| ==> IsNumber(piece, k, parts[k])
  {
    hide Split, TryConvertStringToNumberValue;
  }

  lemma HasShapeIff(piece: string)
    ensures var texts := Split(piece, '-');
      ShapeOf(piece) != NoShape <==>
      && |texts| <= 3 && |texts[0]| in {2, 4} && !(|texts[0]| == 2 && |texts| == 3)
      && forall i :: 1 <= i < |texts| ==> |texts[i]| == 2
    ensures ShapeOf(piece) != NoShape ==>
              (|Split(piece, '-')[0]| == 4 <==> ShapeOf(piece) in {Year, YearMonth, YearMonthDay})
  {
  }

  /** The item of a piece, from its shape and its numbers. */
  lemma ItemIs(piece: string, item: Item)
    ensures ReadItem(piece) == Some(item) <==>
            && ShapeOf(piece) != NoShape
            && item.hasYear == (ShapeOf(piece) in {Year, YearMonth, YearMonthDay})
            && |item.parts| == |Split(piece, '-')|
            && forall k :: 0 <= k < |item.parts| ==> IsNumber(piece, k, item.parts[k])
  {
    hide Split, ShapeOf, IsNumber, AreNumbers, Numbers, TryConvertStringToNumberValue;
    HasShapeIff(piece);
    NumbersAt(Split(piece, '-'), item.parts);
    PartsAreNumbers(piece, item.parts);
  }

  /** The flags tell what the preceding piece ends in. */
  ghost predicate Tells(flags: Flags, ending: Ending) {
    match ending
    case InYear => flags == Flags(true, false, false)
    case InMonth => MeansMonth(flags)
    case InDay => MeansDay(flags)
    case InNothing => false
  }

  /** Where a loop turn of the decoder at the i-th piece starts from, if it has read the dates before. */
  ghost predicate IsState(pieces: seq<string>, dates: seq<SgfcDate>, i: nat, preceding: Option<SgfcDate>, flags: Flags)
    requires i <= |pieces| == |dates|
  {
    if i == 0 then preceding == None && flags == NO_FLAGS
    else preceding == Some(dates[i - 1]) && Tells(flags, EndsIn(pieces, i - 1))
  }

  /** The item of a piece that stands for the date. */
  ghost function ItemFor(pieces: seq<string>, i: nat, d: SgfcDate): Item
    requires i < |pieces|
  {
    match ShapeOf(pieces[i])
    case Year => Item(true, [d.year])
    case YearMonth => Item(true, [d.year, d.month])
    case YearMonthDay => Item(true, [d.year, d.month, d.day])
    case MonthDay => Item(false, [d.month, d.day])
    case Lone => Item(false, [if i > 0 && EndsIn(pieces, i - 1) == InMonth then d.month else d.day])
    case NoShape => Item(false, [])
  }

  lemma ShapeHasParts(piece: string)
    ensures ShapeOf(piece) in {Year, Lone} ==> |Split(piece, '-')| == 1
    ensures ShapeOf(piece) in {YearMonth, MonthDay} ==> |Split(piece, '-')| == 2
    ensures ShapeOf(piece) == YearMonthDay ==> |Split(piece, '-')| == 3
  {
  }

  lemma OneDecoded(pieces: seq<string>, dates: seq<SgfcDate>, i: nat, preceding: Option<SgfcDate>, flags: Flags)
    requires i < |pieces| == |dates| && IsState(pieces, dates, i, preceding, flags)
    requires DecodeOne(pieces[i], preceding, flags).Some?
    ensures Tells(DecodeOne(pieces[i], preceding, flags).value.1, EndsIn(pieces, i))
    ensures DecodeOne(pieces[i], preceding, flags).value.0 == dates[i] ==> StandsFor(pieces, dates, i)
  {
    hide ReadItem, ShapeOf, SgfcDate.IsValidSgfDate;
    ItemIs(pieces[i], ReadItem(pieces[i]).value);
    ShapeHasParts(pieces[i]);
  }

  lemma StandsForIsDecoded(pieces: seq<string>, dates: seq<SgfcDate>, i: nat, preceding: Option<SgfcDate>, flags: Flags)
    requires i < |pieces| == |dates| && IsState(pieces, dates, i, preceding, flags)
    requires StandsFor(pieces, dates, i)
    ensures DecodeOne(pieces[i], preceding, flags).Some?
    ensures DecodeOne(pieces[i], preceding, flags).value.0 == dates[i]
  {
    hide ReadItem, ShapeOf, EndsIn, Split, SgfcDate.IsValidSgfDate;
    ItemIs(pieces[i], ItemFor(pieces, i, dates[i]));
    ShapeHasParts(pieces[i]);
  }

  // ---------------------------------------------------------------- all pieces

  lemma {:induction false} DecodedFromIff(pieces: seq<string>, dates: seq<SgfcDate>, i: nat,
                                          preceding: Option<SgfcDate>, flags: Flags)
    requires i <= |pieces| == |dates| && IsState(pieces, dates, i, preceding, flags)
    ensures DecodeAll(pieces[i..], preceding, flags) == Some(dates[i..]) <==>
            forall j :: i <= j < |pieces| ==> StandsFor(pieces, dates, j)
    decreases |pieces| - i
  {
    hide DecodeOne, StandsFor, Tells;
    if i < |pieces| {
      var rest := pieces[i..];
      assert rest[0] == pieces[i] && rest[1..] == pieces[i + 1..];
      assert dates[i..] == [dates[i]] + dates[i + 1..];
      if DecodeOne(pieces[i], preceding, flags).Some? {
        var (date, newFlags) := DecodeOne(pieces[i], preceding, flags).value;
        OneDecoded(pieces, dates, i, preceding, flags);
        if date == dates[i] {
          DecodedFromIff(pieces, dates, i + 1, Some(date), newFlags);
          FirstOfContinue(date, DecodeAll(rest[1..], Some(date), newFlags), dates[i + 1..]);
        } else if StandsFor(pieces, dates, i) {
          StandsForIsDecoded(pieces, dates, i, preceding, flags);
        } else {
          FirstDiffers(date, DecodeAll(rest[1..], Some(date), newFlags), dates[i..]);
        }
      } else if StandsFor(pieces, dates, i) {
        StandsForIsDecoded(pieces, dates, i, preceding, flags);
      }
    } else {
      assert pieces[i..] == [] && dates[i..] == [];
    }
  }

  lemma DecodedLength(pieces: seq<string>, preceding: Option<SgfcDate>, flags: Flags)
    ensures DecodeAll(pieces, preceding, flags).Some? ==> |DecodeAll(pieces, preceding, flags).value| == |pieces|
  {
    hide DecodeOne;
    if pieces != [] && DecodeOne(pieces[0], preceding, flags).Some? {
      var (date, newFlags) := DecodeOne(pieces[0], preceding, flags).value;
      DecodedLength(pieces[1..], Some(date), newFlags);
    }
  }

  /** Main result on what is read: the decoder reads just the dates the pieces between the commas stand for. */
  lemma DecodedIff(propertyValue: string, dates: seq<SgfcDate>)
    requires dates != []
    ensures Decode(propertyValue) == dates <==> AllStandFor(Split(propertyValue, ','), dates)
  {
    var pieces := Split(propertyValue, ',');
    assert pieces[0..] == pieces && dates[0..] == dates;
    DecodedLength(pieces, None, NO_FLAGS);
    if |pieces| == |dates| { DecodedFromIff(pieces, dates, 0, None, NO_FLAGS); }
  }

  /** Main result on what is accepted: exactly the property values whose pieces stand for dates. */
  lemma AcceptedIff(propertyValue: string)
    ensures Decode(propertyValue) != [] <==> exists dates :: AllStandFor(Split(propertyValue, ','), dates)
  {
    var pieces := Split(propertyValue, ',');
    if Decode(propertyValue) != [] {
      DecodedIff(propertyValue, Decode(propertyValue));
    }
    if dates :| AllStandFor(pieces, dates) {
      DecodedIff(propertyValue, dates);
    }
  }

  lemma PiecesOfExample()
    ensures Split("2019,02-02", ',') == ["2019", "02-02"]
  {
    var pieces := ["2019", "02-02"];
    JoinOneMore(["2019"], "02-02", ',');
    assert Join(["2019"], ',') == "2019" && ["2019"] + ["02-02"] == pieces;
    assert "2019" + [','] + "02-02" == "2019,02-02";
    SplitOfJoin(pieces, ',');
  }

  lemma ShapesOfExample()
    ensures ShapeOf("2019") == Year && ShapeOf("02-02") == MonthDay
  {
    hide Split;
    JoinOneMore(["02"], "02", '-');
    assert Join(["02"], '-') == "02" && ["02"] + ["02"] == ["02", "02"] && "02" + ['-'] + "02" == "02-02";
    SplitOfJoin(["02", "02"], '-');
    assert Join(["2019"], '-') == "2019";
    SplitOfJoin(["2019"], '-');
  }

  /** After a year alone there is no shortcut: this value is refused. */
  lemma ShortcutAfterYearExample()
    ensures Decode("2019,02-02") == []
  {
    hide Split, ShapeOf, Decode;
    var pieces := ["2019", "02-02"];
    PiecesOfExample();
    ShapesOfExample();
    assert EndsIn(pieces, 0) == InYear;
    AcceptedIff("2019,02-02");
    forall dates ensures !AllStandFor(pieces, dates) {
      if |dates| == 2 { assert !StandsFor(pieces, dates, 1); }
    }
  }
}
