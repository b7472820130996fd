/** Which text the date encoder writes for each date: when it shortens, and to what. */
module DateWriting {
  import opened Sequences
  import opened Text
  import opened Dates
  import opened DateRoundTrip

  /** A shortcut: MM-DD, MM or DD, by the parts that are there. */
  function ShortcutText(month: nat, day: nat): string
    requires month < 100 && day < 100
  {
    if month != 0 && day != 0 then Pad2(month) + "-" + Pad2(day) else if month != 0 then Pad2(month) else Pad2(day)
  }

  /** The text of a date behind a completed date, or at the start. */
  function TextBehind(date: SgfcDate, preceding: Option<SgfcDate>): string
    requires Encodable(date, preceding)
  {
    OutputIsWritable(date, preceding);
    match preceding
    case None => FullText(date)
    case Some(p) =>
      if date.year == 0 then ShortcutText(date.month, date.day)
      else if date.year == p.year && date.month != 0 && p.month != 0 && date.month != p.month then
        ShortcutText(date.month, date.day)
      else if date.year == p.year && date.month == p.month && date.day != 0 && p.day != 0 then Pad2(date.day)
      else FullText(date)
  }

  lemma OneIsWrittenAs(date: SgfcDate, preceding: Option<SgfcDate>, flags: Flags)
    requires preceding.Some? ==> Fits(flags, preceding.value)
    requires Encodable(date, preceding)
    ensures EncodeOne(date, preceding, flags).Some?
    ensures EncodeOne(date, preceding, flags).value.0 == TextBehind(date, preceding)
    ensures Fits(EncodeOne(date, preceding, flags).value.1, Completed(date, preceding))
  {
    hide Pad2, Pad4;
    EncodeOneIff(date, preceding, flags);
  }

  function PrecedingAt(dates: seq<SgfcDate>, preceding: Option<SgfcDate>, i: nat): Option<SgfcDate>
    requires i <= |dates|
  {
    if i == 0 then preceding else Some(Completed(dates[i - 1], PrecedingAt(dates, preceding, i - 1)))
  }

  lemma PrecedingLater(dates: seq<SgfcDate>, preceding: Option<SgfcDate>, i: nat)
    requires i < |dates|
    ensures PrecedingAt(dates, preceding, i + 1) == PrecedingAt(dates[1..], Some(Completed(dates[0], preceding)), i)
  {
    if i > 0 { PrecedingLater(dates, preceding, i - 1); }
  }

  lemma {:induction false} AllAreWrittenAs(dates: seq<SgfcDate>, preceding: Option<SgfcDate>, flags: Flags, i: nat)
    requires preceding.Some? ==> Fits(flags, preceding.value)
    requires AllEncodable(dates, preceding) && i < |dates|
    ensures EncodeAll(dates, preceding, flags).Some? && |EncodeAll(dates, preceding, flags).value| == |dates|
    ensures Encodable(dates[i], PrecedingAt(dates, preceding, i))
    ensures EncodeAll(dates, preceding, flags).value[i] == TextBehind(dates[i], PrecedingAt(dates, preceding, i))
    decreases |dates|
  {
    hide EncodeOne, Encodable, TextBehind, Fits, Completed;
    OneIsWrittenAs(dates[0], preceding, flags);
    var (text, newFlags) := EncodeOne(dates[0], preceding, flags).value;
    var p, rest := Some(Completed(dates[0], preceding)), dates[1..];
    if rest != [] {
      AllAreWrittenAs(rest, p, newFlags, if i == 0 then 0 else i - 1);
    }
    if i > 0 { PrecedingLater(dates, preceding, i - 1); }
  }

  /**
   * Main result on shortening: every date of a list that can be written gets exactly its text behind the date before
   * it, with the shortcuts before it completed.
   */
  lemma WrittenAs(dates: seq<SgfcDate>, i: nat)
    requires Encode(dates) != "" && i < |dates|
    ensures |Split(Encode(dates), ',')| == |dates|
    ensures Encodable(dates[i], PrecedingAt(dates, None, i))
    ensures Split(Encode(dates), ',')[i] == TextBehind(dates[i], PrecedingAt(dates, None, i))
  {
    EncodeFailsIff(dates);
    AllAreWrittenAs(dates, None, NO_FLAGS, i);
    AllEncodedAreDecoded(dates, None, NO_FLAGS);
    SplitOfJoin(EncodeAll(dates, None, NO_FLAGS).value, ',');
  }

  lemma PrecedingIsBefore(dates: seq<SgfcDate>, i: nat)
    requires 0 < i <= |dates| && forall j :: 0 <= j < i ==> dates[j].year != 0
    ensures PrecedingAt(dates, None, i) == Some(dates[i - 1])
  {
  }

  /** For dates with years: two characters for another day of the month, five or two for another month of the year. */
  lemma NeighboursAreShortened(dates: seq<SgfcDate>, i: nat)
    requires Encode(dates) != "" && 0 < i < |dates| && forall d :: d in dates ==> d.year != 0
    ensures |Split(Encode(dates), ',')| == |dates| && dates[i].IsValidSgfDate()
    ensures var d, p, text := dates[i], dates[i - 1], Split(Encode(dates), ',')[i];
      && (d.year != p.year || d.month == 0 || p.month == 0 ==> text == FullText(d))
      && (d.year == p.year && d.month == p.month && d.day != 0 && p.day != 0 ==> text == Pad2(d.day))
      && (d.year == p.year && d.month == p.month && (d.day == 0 || p.day == 0) ==> text == FullText(d))
      && (d.year == p.year && d.month != p.month && d.month != 0 && p.month != 0 && d.day != 0 ==>
            text == Pad2(d.month) + "-" + Pad2(d.day))
      && (d.year == p.year && d.month != p.month && d.month != 0 && p.month != 0 && d.day == 0 ==>
            text == Pad2(d.month))
  {
    hide Pad2, Pad4;
    WrittenAs(dates, i);
    PrecedingIsBefore(dates, i);
  }
}
