/**
 * The payment-terms resolver: free-text payment terms and today's date
 * give a number of days until payment is due.
 */
module Terms {
  import opened Wrappers
  import opened Text
  import opened Calendar

  const NoVendorMarker: string := "No current vendor"
  const ThirtyDayMarker: string := "30 day"
  const AugustMarker: string := "August 1st"
  const MarchMarker: string := "March 15th"

  /** When this year's 'month/day' is still to come (or is today), it is
      at most 365 days away, and 0 days away only if it is today. */
  lemma ThisYearGap(today: Date, month: int, day: int)
    requires ValidDate(today) && AnnualDate(month, day)
    requires !Before(Date(today.year, month, day), today)
    ensures ValidDate(Date(today.year, month, day))
    ensures 0 <= Ordinal(Date(today.year, month, day)) - Ordinal(today) <= 365
    ensures Ordinal(Date(today.year, month, day)) == Ordinal(today)
            <==> today.month == month && today.day == day
  {
    var due := Date(today.year, month, day);
    OrdinalMonotone(due, today);
    OrdinalInjective(due, today);
    OrdinalWithinYear(due);
    OrdinalWithinYear(today);
  }

  /** When this year's 'month/day' has passed, next year's is between 1
      and 365 days away. */
  lemma NextYearGap(today: Date, month: int, day: int)
    requires ValidDate(today) && AnnualDate(month, day)
    requires Before(Date(today.year, month, day), today)
    ensures ValidDate(Date(today.year + 1, month, day))
    ensures 0 < Ordinal(Date(today.year + 1, month, day)) - Ordinal(today) <= 365
  {
    var due := Date(today.year, month, day);
    NextYearSameDay(today.year, month, day);
    OrdinalMonotone(due, today);
    OrdinalMonotone(today, Date(today.year + 1, month, day));
  }

  /** Days from today to the next 'month/day' that is not before today:
      this year's if it has not passed yet, otherwise next year's. */
  function DaysUntilNext(today: Date, month: int, day: int): (r: int)
    requires ValidDate(today) && AnnualDate(month, day)
    ensures 0 <= r <= 365
    ensures r == 0 <==> (today.month == month && today.day == day)
  {
    var due := Date(today.year, month, day);
    if Before(due, today) then
      NextYearGap(today, month, day);
      Ordinal(Date(today.year + 1, month, day)) - Ordinal(today)
    else
      ThisYearGap(today, month, day);
      Ordinal(due) - Ordinal(today)
  }

  /** The date 'month/day' falls on in some year. */
  predicate IsOccurrence(d: Date, month: int, day: int) {
    ValidDate(d) && d.month == month && d.day == day
  }

  /** DaysUntilNext counts the days to the earliest occurrence of
      'month/day' on or after today, and no other number of days. */
  lemma DaysUntilNextIsNextOccurrence(today: Date, month: int, day: int)
    requires ValidDate(today) && AnnualDate(month, day)
    ensures exists due :: IsOccurrence(due, month, day) && !Before(due, today)
                          && DaysUntilNext(today, month, day) == Ordinal(due) - Ordinal(today)
    ensures forall e :: IsOccurrence(e, month, day) && !Before(e, today)
                        ==> DaysUntilNext(today, month, day) <= Ordinal(e) - Ordinal(today)
  {
    var y := today.year;
    var thisYear, nextYear := Date(y, month, day), Date(y + 1, month, day);
    NextYearSameDay(y, month, day);
    var due := if Before(thisYear, today) then nextYear else thisYear;
    assert IsOccurrence(due, month, day) && !Before(due, today);
    forall e | IsOccurrence(e, month, day) && !Before(e, today)
      ensures Ordinal(due) <= Ordinal(e)
    {
      OrdinalMonotone(e, due);
    }
  }

  /** Payment terms in days: a missing cell, "No current vendor" and
      unrecognised text give 0; "30 day" gives 30; "August 1st" and
      "March 15th" give the days until the next such date. The rules are
      tried in that order, on the text with surrounding whitespace removed. */
  function ResolveTermsDays(termRaw: Option<string>, today: Date): (r: int)
    requires ValidDate(today)
    ensures 0 <= r <= 365
  {
    match termRaw
    case None => 0
    case Some(raw) =>
      var text := Strip(raw);
      if Contains(text, NoVendorMarker) then 0
      else if Contains(text, ThirtyDayMarker) then 30
      else if Contains(text, AugustMarker) then DaysUntilNext(today, 8, 1)
      else if Contains(text, MarchMarker) then DaysUntilNext(today, 3, 15)
      else 0
  }

  /** None of the four markers starts or ends with whitespace, so stripping
      does not change which of them the text contains. */
  lemma MarkersSurviveStrip(raw: string)
    ensures Contains(Strip(raw), NoVendorMarker) == Contains(raw, NoVendorMarker)
    ensures Contains(Strip(raw), ThirtyDayMarker) == Contains(raw, ThirtyDayMarker)
    ensures Contains(Strip(raw), AugustMarker) == Contains(raw, AugustMarker)
    ensures Contains(Strip(raw), MarchMarker) == Contains(raw, MarchMarker)
  {
    StripKeepsMarker(raw, NoVendorMarker);
    StripKeepsMarker(raw, ThirtyDayMarker);
    StripKeepsMarker(raw, AugustMarker);
    StripKeepsMarker(raw, MarchMarker);
  }

  /** A missing terms cell resolves to 0 days. */
  lemma MissingTermsResolveToZero(today: Date)
    requires ValidDate(today)
    ensures ResolveTermsDays(None, today) == 0
  {
  }

  /** "No current vendor" anywhere in the text gives 0, whatever else the
      text contains. */
  lemma NoVendorWins(raw: string, today: Date)
    requires ValidDate(today) && Contains(raw, NoVendorMarker)
    ensures ResolveTermsDays(Some(raw), today) == 0
  {
    MarkersSurviveStrip(raw);
  }

  /** "30 day" without "No current vendor" gives exactly 30, even next to a
      date marker. */
  lemma ThirtyDayWins(raw: string, today: Date)
    requires ValidDate(today)
    requires Contains(raw, ThirtyDayMarker) && !Contains(raw, NoVendorMarker)
    ensures ResolveTermsDays(Some(raw), today) == 30
  {
    MarkersSurviveStrip(raw);
  }

  /** "August 1st", with neither earlier marker, gives the days until the
      next 1 August. */
  lemma AugustRule(raw: string, today: Date)
    requires ValidDate(today)
    requires Contains(raw, AugustMarker)
    requires !Contains(raw, NoVendorMarker) && !Contains(raw, ThirtyDayMarker)
    ensures ResolveTermsDays(Some(raw), today) == DaysUntilNext(today, 8, 1)
  {
    MarkersSurviveStrip(raw);
  }

  /** "March 15th", with none of the earlier markers, gives the days until
      the next 15 March. */
  lemma MarchRule(raw: string, today: Date)
    requires ValidDate(today)
    requires Contains(raw, MarchMarker)
    requires !Contains(raw, NoVendorMarker) && !Contains(raw, ThirtyDayMarker)
    requires !Contains(raw, AugustMarker)
    ensures ResolveTermsDays(Some(raw), today) == DaysUntilNext(today, 3, 15)
  {
    MarkersSurviveStrip(raw);
  }

  /** Text with none of the markers gives 0. */
  lemma UnrecognisedTermsResolveToZero(raw: string, today: Date)
    requires ValidDate(today)
    requires !Contains(raw, NoVendorMarker) && !Contains(raw, ThirtyDayMarker)
    requires !Contains(raw, AugustMarker) && !Contains(raw, MarchMarker)
    ensures ResolveTermsDays(Some(raw), today) == 0
  {
    MarkersSurviveStrip(raw);
  }

  /** The result depends on the text only through which markers it
      contains. */
  lemma SameMarkersSameDays(a: string, b: string, today: Date)
    requires ValidDate(today)
    requires Contains(a, NoVendorMarker) == Contains(b, NoVendorMarker)
    requires Contains(a, ThirtyDayMarker) == Contains(b, ThirtyDayMarker)
    requires Contains(a, AugustMarker) == Contains(b, AugustMarker)
    requires Contains(a, MarchMarker) == Contains(b, MarchMarker)
    ensures ResolveTermsDays(Some(a), today) == ResolveTermsDays(Some(b), today)
  {
    MarkersSurviveStrip(a);
    MarkersSurviveStrip(b);
  }

  /** Whitespace around the terms text never changes the result. */
  lemma PaddingDoesNotMatter(pad: string, raw: string, pad': string, today: Date)
    requires ValidDate(today) && SpaceBetween(pad, 0, |pad|) && SpaceBetween(pad', 0, |pad'|)
    ensures ResolveTermsDays(Some(pad + raw + pad'), today) == ResolveTermsDays(Some(raw), today)
  {
    PaddingKeepsMarker(pad, raw, pad', NoVendorMarker);
    PaddingKeepsMarker(pad, raw, pad', ThirtyDayMarker);
    PaddingKeepsMarker(pad, raw, pad', AugustMarker);
    PaddingKeepsMarker(pad, raw, pad', MarchMarker);
    SameMarkersSameDays(pad + raw + pad', raw, today);
  }

  /** The result is 0 exactly when the cell is missing, says
      "No current vendor", matches no rule, or names today's date. */
  lemma ZeroDaysExactly(termRaw: Option<string>, today: Date)
    requires ValidDate(today)
    ensures ResolveTermsDays(termRaw, today) == 0 <==>
      (termRaw.None?
       || Contains(termRaw.value, NoVendorMarker)
       || (!Contains(termRaw.value, ThirtyDayMarker)
           && (Contains(termRaw.value, AugustMarker) ==> today.month == 8 && today.day == 1)
           && (!Contains(termRaw.value, AugustMarker) && Contains(termRaw.value, MarchMarker)
               ==> today.month == 3 && today.day == 15)))
  {
    if termRaw.Some? {
      MarkersSurviveStrip(termRaw.value);
    }
  }

  /** Which markers the text "Due March 15th" contains. */
  lemma MarchTextMarkers(raw: string)
    requires raw == "Due " + MarchMarker
    ensures !Contains(raw, NoVendorMarker) && !Contains(raw, ThirtyDayMarker)
    ensures !Contains(raw, AugustMarker) && Contains(raw, MarchMarker)
  {
    assert !Contains(raw, NoVendorMarker) by {
      AbsentFirstChar(raw, NoVendorMarker);
    }
    assert !Contains(raw, ThirtyDayMarker) by {
      AbsentFirstChar(raw, ThirtyDayMarker);
    }
    assert !Contains(raw, AugustMarker) by {
      AbsentFirstChar(raw, AugustMarker);
    }
    assert Contains(raw, MarchMarker) by {
      ContainsSuffix("Due ", MarchMarker);
    }
  }

  /** "Due March 15th" on 1 January 2024 is 74 days away: the rest of
      January, all of leap-year February and 14 days of March. */
  lemma MarchFromNewYear2024(raw: string)
    requires raw == "Due " + MarchMarker
    ensures ResolveTermsDays(Some(raw), Date(2024, 1, 1)) == 74
  {
    assert DaysUntilNext(Date(2024, 1, 1), 3, 15) == 74;
    MarchTextMarkers(raw);
    MarchRule(raw, Date(2024, 1, 1));
  }

  /** Which markers the text "Due August 1st" contains. */
  lemma AugustTextMarkers(raw: string)
    requires raw == "Due " + AugustMarker
    ensures !Contains(raw, NoVendorMarker) && !Contains(raw, ThirtyDayMarker)
    ensures Contains(raw, AugustMarker)
  {
    assert !Contains(raw, NoVendorMarker) by {
      AbsentFirstChar(raw, NoVendorMarker);
    }
    assert !Contains(raw, ThirtyDayMarker) by {
      AbsentFirstChar(raw, ThirtyDayMarker);
    }
    assert Contains(raw, AugustMarker) by {
      ContainsSuffix("Due ", AugustMarker);
    }
  }

  /** "Due August 1st" on 2 August 2024 has just missed this year's date
      and waits 364 days for 1 August 2025. */
  lemma AugustJustMissed2024(raw: string)
    requires raw == "Due " + AugustMarker
    ensures ResolveTermsDays(Some(raw), Date(2024, 8, 2)) == 364
  {
    assert DaysUntilNext(Date(2024, 8, 2), 8, 1) == 364;
    AugustTextMarkers(raw);
    AugustRule(raw, Date(2024, 8, 2));
  }
}
