/** What the date encoder and the date decoder promise together, and exactly when the encoder gives up. */
module DateRoundTrip {
  import opened Sequences
  import opened Text
  import opened Dates

  // ---------------------------------------------------------------- one date

  lemma ReadBack(texts: seq<string>, parts: seq<int>)
    requires 1 <= |texts| <= 3 && |texts[0]| in {2, 4} && (|texts[0]| == 2 ==> |texts| != 3)
    requires forall i :: 1 <= i < |texts| ==> |texts[i]| == 2
    requires forall t :: t in texts ==> '-' !in t
    requires Numbers(texts) == Some(parts)
    ensures ReadItem(Join(texts, '-')) == Some(Item(|texts[0]| == 4, parts))
  {
    SplitOfJoin(texts, '-');
  }

  lemma OnePart(a: string)
    ensures Join([a], '-') == a
    ensures TryConvertStringToNumberValue(a).Some? ==> Numbers([a]) == Some([TryConvertStringToNumberValue(a).value])
  {
    var rest: seq<string> := [];
    assert Numbers(rest) == Some([]);
    assert [a][1..] == rest;
    if TryConvertStringToNumberValue(a).Some? {
      var n := TryConvertStringToNumberValue(a).value;
      assert [n] + [] == [n];
    }
  }

  lemma MoreParts(a: string, texts: seq<string>, parts: seq<int>)
    requires texts != [] && Numbers(texts) == Some(parts) && TryConvertStringToNumberValue(a).Some?
    ensures Join([a] + texts, '-') == a + "-" + Join(texts, '-')
    ensures Numbers([a] + texts) == Some([TryConvertStringToNumberValue(a).value] + parts)
  {
    assert ([a] + texts)[1..] == texts;
  }

  /** The item that Write writes. */
  function ItemOf(date: SgfcDate, flags: Flags): Item {
    if date.year != 0 then
      if date.month == 0 then Item(true, [date.year])
      else if date.day == 0 then Item(true, [date.year, date.month])
      else Item(true, [date.year, date.month, date.day])
    else if date.month != 0 && date.day != 0 then Item(false, [date.month, date.day])
    else if MeansMonth(flags) then Item(false, [date.month])
    else Item(false, [date.day])
  }

  lemma ReadYear(y: nat)
    requires y < 10000
    ensures ReadItem(Pad4(y)) == Some(Item(true, [y]))
  {
    Pad4IsRead(y);
    OnePart(Pad4(y));
    ReadBack([Pad4(y)], [y]);
  }

  lemma ReadShort(n: nat)
    requires n < 100
    ensures ReadItem(Pad2(n)) == Some(Item(false, [n]))
  {
    Pad2IsRead(n);
    OnePart(Pad2(n));
    ReadBack([Pad2(n)], [n]);
  }

  lemma ReadTwo(a: string, x: nat, n: nat)
    requires |a| in {2, 4} && '-' !in a && TryConvertStringToNumberValue(a) == Some(x) && n < 100
    ensures ReadItem(a + "-" + Pad2(n)) == Some(Item(|a| == 4, [x, n]))
  {
    Pad2IsRead(n);
    OnePart(Pad2(n));
    MoreParts(a, [Pad2(n)], [n]);
    assert [a] + [Pad2(n)] == [a, Pad2(n)] && [x] + [n] == [x, n];
    ReadBack([a, Pad2(n)], [x, n]);
  }

  lemma ReadThree(y: nat, m: nat, d: nat)
    requires y < 10000 && m < 100 && d < 100
    ensures ReadItem(Pad4(y) + "-" + Pad2(m) + "-" + Pad2(d)) == Some(Item(true, [y, m, d]))
  {
    Pad4IsRead(y);
    Pad2IsRead(m);
    Pad2IsRead(d);
    OnePart(Pad2(d));
    MoreParts(Pad2(m), [Pad2(d)], [d]);
    assert [Pad2(m)] + [Pad2(d)] == [Pad2(m), Pad2(d)] && [m] + [d] == [m, d];
    MoreParts(Pad4(y), [Pad2(m), Pad2(d)], [m, d]);
    var texts := [Pad4(y), Pad2(m), Pad2(d)];
    assert [Pad4(y)] + [Pad2(m), Pad2(d)] == texts && [y] + [m, d] == [y, m, d];
    ReadBack(texts, [y, m, d]);
    var rest := Pad2(m) + "-" + Pad2(d);
    assert Pad4(y) + "-" + rest == Pad4(y) + "-" + Pad2(m) + "-" + Pad2(d);
  }

  lemma WrittenIsRead(date: SgfcDate, flags: Flags)
    requires Writable(date) && Write(date, flags).Some?
    ensures ReadItem(Write(date, flags).value.0) == Some(ItemOf(date, flags))
    ensures ',' !in Write(date, flags).value.0
  {
    if date.year != 0 { Pad4IsRead(date.year); }
    Pad2IsRead(date.month);
    Pad2IsRead(date.day);
    if date.year != 0 {
      if date.month != 0 && date.day != 0 {
        ReadThree(date.year, date.month, date.day);
      } else if date.month != 0 {
        ReadTwo(Pad4(date.year), date.year, date.month);
      } else {
        ReadYear(date.year);
      }
    } else if date.month != 0 && date.day != 0 {
      ReadTwo(Pad2(date.month), date.month, date.day);
    } else if MeansMonth(flags) {
      ReadShort(date.month);
    } else {
      ReadShort(date.day);
    }
  }

  lemma ItemIsCompleted(date: SgfcDate, preceding: Option<SgfcDate>, flags: Flags, output: SgfcDate)
    requires EncodeOne(date, preceding, flags).Some?
    requires output == if date.year != 0 && preceding.Some? then Reduce(date, preceding.value).value else date
    ensures Writable(output) && Write(output, flags).Some?
    ensures Complete(ItemOf(output, flags), preceding, flags) ==
              Some((Completed(date, preceding), Write(output, flags).value.1))
  {
  }

  /**
   * The simulation: from the same preceding date and the same flags, what the encoder writes for a date
   * the decoder reads as the completed date, and both end with the same flags.
   */
  lemma EncodedIsDecoded(date: SgfcDate, preceding: Option<SgfcDate>, flags: Flags)
    requires EncodeOne(date, preceding, flags).Some?
    ensures var (text, newFlags) := EncodeOne(date, preceding, flags).value;
      ',' !in text && DecodeOne(text, preceding, flags) == Some((Completed(date, preceding), newFlags))
  {
    OutputIsWritable(date, preceding);
    var output := if date.year != 0 && preceding.Some? then Reduce(date, preceding.value).value else date;
    WrittenIsRead(output, flags);
    ItemIsCompleted(date, preceding, flags, output);
  }

  // ---------------------------------------------------------------- all dates

  lemma {:induction false} AllEncodedAreDecoded(dates: seq<SgfcDate>, preceding: Option<SgfcDate>, flags: Flags)
    requires EncodeAll(dates, preceding, flags).Some?
    ensures var texts := EncodeAll(dates, preceding, flags).value;
      && |texts| == |dates|
      && (forall t :: t in texts ==> ',' !in t)
      && DecodeAll(texts, preceding, flags) == Some(CompletedAll(dates, preceding))
  {
    if dates != [] {
      EncodedIsDecoded(dates[0], preceding, flags);
      var (text, newFlags) := EncodeOne(dates[0], preceding, flags).value;
      var date := Completed(dates[0], preceding);
      AllEncodedAreDecoded(dates[1..], Some(date), newFlags);
      var rest := EncodeAll(dates[1..], Some(date), newFlags).value;
      assert ([text] + rest)[1..] == rest;
    }
  }

  /** Main result on dates: what the encoder writes is read back as the given dates, every shortcut completed. */
  lemma DatesRoundTrip(dates: seq<SgfcDate>)
    requires Encode(dates) != ""
    ensures Decode(Encode(dates)) == CompletedAll(dates, None)
  {
    AllEncodedAreDecoded(dates, None, NO_FLAGS);
    SplitOfJoin(EncodeAll(dates, None, NO_FLAGS).value, ',');
  }

  /** A list without shortcuts comes back unchanged. */
  lemma {:induction false} NothingToComplete(dates: seq<SgfcDate>, preceding: Option<SgfcDate>)
    requires forall d :: d in dates ==> d.year != 0
    ensures CompletedAll(dates, preceding) == dates
  {
    if dates != [] { NothingToComplete(dates[1..], Some(dates[0])); }
  }

  // ---------------------------------------------------------------- when the encoder gives up

  /** A date without a day after a date with a day, in the same year but another month. */
  predicate OverShortened(preceding: SgfcDate, date: SgfcDate) {
    && date.year == preceding.year && date.month != preceding.month && date.month != 0 && preceding.month != 0
    && date.day == 0 && preceding.day != 0
  }

  /** Whether date can be written after the completed date preceding. */
  predicate Encodable(date: SgfcDate, preceding: Option<SgfcDate>) {
    && Completed(date, preceding).IsValidSgfDate()
    && match preceding
       case None => date.year != 0
       case Some(p) =>
         if date.year != 0 then date != p && !OverShortened(p, date)
         else if date.month != 0 && date.day != 0 then p.month != 0
         else if date.month != 0 then p.month != 0 && p.day == 0
         else date.day != 0 && p.day != 0
  }

  predicate AllEncodable(dates: seq<SgfcDate>, preceding: Option<SgfcDate>) {
    dates == [] ||
    (Encodable(dates[0], preceding) && AllEncodable(dates[1..], Some(Completed(dates[0], preceding))))
  }

  /** The flags tell of the completed date no more than which parts it has. */
  predicate Fits(flags: Flags, p: SgfcDate) {
    && p.IsValidSgfDate() && p.year != 0
    && (p.month == 0 ==> flags == Flags(true, false, false))
    && (p.month != 0 && p.day == 0 ==> MeansMonth(flags))
    && (p.day != 0 ==> MeansDay(flags))
  }

  lemma EncodeOneIff(date: SgfcDate, preceding: Option<SgfcDate>, flags: Flags)
    requires preceding.Some? ==> Fits(flags, preceding.value)
    ensures EncodeOne(date, preceding, flags).Some? <==> Encodable(date, preceding)
    ensures EncodeOne(date, preceding, flags).Some? ==>
              Fits(EncodeOne(date, preceding, flags).value.1, Completed(date, preceding))
  {
    hide Pad2, Pad4;
  }

  lemma {:induction false} EncodeAllIff(dates: seq<SgfcDate>, preceding: Option<SgfcDate>, flags: Flags)
    requires preceding.Some? ==> Fits(flags, preceding.value)
    ensures EncodeAll(dates, preceding, flags).Some? <==> AllEncodable(dates, preceding)
  {
    if dates != [] {
      EncodeOneIff(dates[0], preceding, flags);
      if EncodeOne(dates[0], preceding, flags).Some? {
        var (text, newFlags) := EncodeOne(dates[0], preceding, flags).value;
        EncodeAllIff(dates[1..], Some(Completed(dates[0], preceding)), newFlags);
      }
    }
  }

  lemma WrittenIsNotEmpty(date: SgfcDate, preceding: Option<SgfcDate>, flags: Flags)
    requires EncodeOne(date, preceding, flags).Some?
    ensures EncodeOne(date, preceding, flags).value.0 != ""
  {
  }

  /** Main result on failure: the encoder gives up exactly on the lists that are empty or not encodable. */
  lemma EncodeFailsIff(dates: seq<SgfcDate>)
    ensures Encode(dates) == "" <==> dates == [] || !AllEncodable(dates, None)
  {
    EncodeAllIff(dates, None, NO_FLAGS);
    if dates != [] && EncodeAll(dates, None, NO_FLAGS).Some? {
      WrittenIsNotEmpty(dates[0], None, NO_FLAGS);
    }
  }

  lemma {:induction false} DatedIsEncodableIff(dates: seq<SgfcDate>, p: SgfcDate)
    requires forall d :: d in dates ==> d.year != 0 && d.IsValidSgfDate()
    ensures AllEncodable(dates, Some(p)) <==>
              forall i {:trigger dates[i]} :: 0 <= i < |dates| ==>
                var q := if i == 0 then p else dates[i - 1]; dates[i] != q && !OverShortened(q, dates[i])
  {
    if dates != [] {
      var rest := dates[1..];
      DatedIsEncodableIff(rest, dates[0]);
      assert forall i :: 0 <= i < |rest| ==> rest[i] == dates[i + 1];
      if forall i {:trigger rest[i]} :: 0 <= i < |rest| ==>
           var q := if i == 0 then dates[0] else rest[i - 1]; rest[i] != q && !OverShortened(q, rest[i]) {
        forall i | 1 <= i < |dates| ensures dates[i] != dates[i - 1] && !OverShortened(dates[i - 1], dates[i]) {
          assert rest[i - 1] == dates[i];
        }
      }
    }
  }

  /** For valid dates that all have a year, the condition is about neighbours only. */
  lemma DatedListFailsIff(dates: seq<SgfcDate>)
    requires forall d :: d in dates ==> d.year != 0 && d.IsValidSgfDate()
    ensures Encode(dates) == "" <==>
              || dates == []
              || exists i {:trigger dates[i]} ::
                   1 <= i < |dates| && (dates[i - 1] == dates[i] || OverShortened(dates[i - 1], dates[i]))
  {
    EncodeFailsIff(dates);
    if dates != [] {
      var rest := dates[1..];
      DatedIsEncodableIff(rest, dates[0]);
      assert forall i :: 0 <= i < |rest| ==> rest[i] == dates[i + 1];
      forall i | 0 <= i < |rest| ensures dates[i] == if i == 0 then dates[0] else rest[i - 1] {}
    }
  }

  /** The smallest case of over-shortening: after 2019-01-01, the encoder cannot write 2019-02. */
  lemma OverShorteningExample()
    ensures Encode([SgfcDate(2019, 1, 1), SgfcDate(2019, 2, 0)]) == ""
  {
    var dates := [SgfcDate(2019, 1, 1), SgfcDate(2019, 2, 0)];
    DatedListFailsIff(dates);
    assert OverShortened(dates[1 - 1], dates[1]);
  }

  // ---------------------------------------------------------------- what the decoder accepts

  /** A date with a year, written in full. */
  function FullText(date: SgfcDate): string
    requires date.IsValidSgfDate()
  {
    if date.month == 0 then Pad4(date.year)
    else if date.day == 0 then Pad4(date.year) + "-" + Pad2(date.month)
    else Pad4(date.year) + "-" + Pad2(date.month) + "-" + Pad2(date.day)
  }

  function FullTexts(dates: seq<SgfcDate>): (texts: seq<string>)
    requires forall d :: d in dates ==> d.IsValidSgfDate()
    ensures |texts| == |dates|
  {
    if dates == [] then [] else [FullText(dates[0])] + FullTexts(dates[1..])
  }

  lemma FullTextIsDecoded(date: SgfcDate, preceding: Option<SgfcDate>, flags: Flags)
    requires date.year != 0 && date.IsValidSgfDate()
    ensures ',' !in FullText(date)
    ensures DecodeOne(FullText(date), preceding, flags) ==
              Some((date, Flags(true, date.month != 0, date.day != 0)))
  {
    WrittenIsRead(date, flags);
  }

  lemma {:induction false} FullTextsAreDecoded(dates: seq<SgfcDate>, preceding: Option<SgfcDate>, flags: Flags)
    requires forall d :: d in dates ==> d.year != 0 && d.IsValidSgfDate()
    ensures var texts := FullTexts(dates);
      (forall t :: t in texts ==> ',' !in t) && DecodeAll(texts, preceding, flags) == Some(dates)
  {
    if dates != [] {
      FullTextIsDecoded(dates[0], preceding, flags);
      FullTextsAreDecoded(dates[1..], Some(dates[0]), Flags(true, dates[0].month != 0, dates[0].day != 0));
      var rest := FullTexts(dates[1..]);
      assert ([FullText(dates[0])] + rest)[1..] == rest;
      assert [dates[0]] + dates[1..] == dates;
    }
  }

  /** Every list of valid dates with a year has a property value, also those the encoder gives up on. */
  lemma EveryDatedListIsWritable(dates: seq<SgfcDate>)
    requires dates != [] && forall d :: d in dates ==> d.year != 0 && d.IsValidSgfDate()
    ensures Decode(Join(FullTexts(dates), ',')) == dates
  {
    FullTextsAreDecoded(dates, None, NO_FLAGS);
    SplitOfJoin(FullTexts(dates), ',');
  }

  lemma {:induction false} AllDecodedAreValid(texts: seq<string>, preceding: Option<SgfcDate>, flags: Flags)
    requires DecodeAll(texts, preceding, flags).Some?
    ensures var dates := DecodeAll(texts, preceding, flags).value;
      && |dates| == |texts|
      && (forall d :: d in dates ==> d.IsValidSgfDate())
      && (preceding.None? && dates != [] ==> dates[0].year != 0)
  {
    if texts != [] {
      var (date, newFlags) := DecodeOne(texts[0], preceding, flags).value;
      AllDecodedAreValid(texts[1..], Some(date), newFlags);
    }
  }

  /** Whatever the property value, the decoder returns valid dates only, and the first one has a year. */
  lemma DecodedAreValid(propertyValue: string)
    ensures forall d :: d in Decode(propertyValue) ==> d.IsValidSgfDate()
    ensures Decode(propertyValue) != [] ==> Decode(propertyValue)[0].year != 0
  {
    if DecodeAll(Split(propertyValue, ','), None, NO_FLAGS).Some? {
      AllDecodedAreValid(Split(propertyValue, ','), None, NO_FLAGS);
    }
  }
}
