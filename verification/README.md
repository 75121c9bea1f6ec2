# Vendor pricing dashboard: terms, score and product filter

This project is a Dafny model of the decision logic in the vendor pricing
dashboard (`streamlit_app.py`). The dashboard loads a table of vendor
offers with the columns `vendor_code`, `product`, `price` and `terms_raw`.
Only these four input columns and the two derived ones below are modelled;
any other column of the uploaded CSV passes through lines 91, 94 and 104 of
the source untouched and has no counterpart in the model's row record.
It then adds two derived columns to every row:

- `terms_days`: the payment term in days, resolved from the free-text
  `terms_raw` and today's date;
- `vendor_score`: `price + 1/terms_days` when the term is positive, and
  the fixed value 9999 otherwise. Lower is better.

The user picks one product. The dashboard shows that product's rows, lets
the user edit them, and recomputes both derived columns.

The model has six modules:

- `Calendar`: proleptic Gregorian dates `(year, month, day)`.
  - Date order is lexicographic, as with `date < date`.
  - The day ordinal is the closed form that `date.toordinal()` uses: 1 January
    of year 1 is day 1. `(due - today).days` is therefore a difference of
    ordinals.
  - The model proves that the ordinal orders dates exactly as the date
    comparison does, and that each year adds exactly its own length.
- `Text`: the string `in` test (`Contains`) and `str.strip()` (`Strip`).
  - `Strip` removes every character that Python's `str.isspace` accepts.
  - `Contains` is proved equal to "p occurs at some index".
  - Stripping is proved never to add or remove an occurrence of a pattern that
    neither starts nor ends with whitespace.
- `Terms`: the payment-terms resolver `ResolveTermsDays`.
  - Its rules are tried in the source's order.
  - Each rule has a lemma saying it wins over every rule after it.
  - The date rules are shown to count the days to the *next* occurrence of
    the date.
  - The result always lies between 0 and 365.
- `Scoring`: the vendor score over exact rationals (`real`).
- `Table`: vendor rows, the column derivation, and the product filter.
- `Wrappers`: `Option`. `None` stands for a missing (NaN) cell.

## Model

| member | source | states |
|---|---|---|
| `Calendar.DaysInYear` | streamlit_app.py:58-67 | a year has 366 days exactly when it is a Gregorian leap year, and 365 otherwise |
| `Calendar.DaysInMonth` | streamlit_app.py:58-67 | months have 28 to 31 days; only February of a leap year has 29 |
| `Calendar.Before` | streamlit_app.py:59 | the `due < today` comparison (also at line 65): earlier year, then earlier month, then earlier day; no date is before itself |
| `Calendar.Ordinal` | streamlit_app.py:61 | the day number that `(due - today).days` subtracts (also at line 67): 1 January of year 1 is day 1 and every other date has a larger number |
| `Calendar.DaysBeforeYearStep` | streamlit_app.py:61 | the closed-form count of days before a year grows by exactly that year's length from one year to the next |
| `Calendar.DaysBeforeMonthStep` | streamlit_app.py:61 | the cumulative month table agrees with the month lengths |
| `Calendar.DaysBeforeMonthTotal` | streamlit_app.py:61 | the twelve months add up to the year's length |
| `Calendar.OrdinalWithinYear` | streamlit_app.py:61 | a date's day number lies strictly after the days of the earlier years and within its own year |
| `Calendar.OrdinalMonotone` | streamlit_app.py:59 | `due < today` holds exactly when due's day number is smaller, so the comparison and the day difference agree |
| `Calendar.OrdinalInjective` | streamlit_app.py:61 | two valid dates are zero days apart exactly when they are the same date |
| `Calendar.NextYearSameDay` | streamlit_app.py:60 | the same month and day (not 29 February) one year later exists and is 365 or 366 days later |
| `Text.Contains` | streamlit_app.py:51-63 | the substring test `p in s`: the empty pattern is in every text, and a pattern found is no longer than the text |
| `Text.ContainsIffOccurs` | streamlit_app.py:51 | the substring test holds exactly when the pattern occurs at some index of the text |
| `Text.IsSpace` | streamlit_app.py:48 | the characters `str.strip()` removes (those `str.isspace` accepts): every ASCII blank, tab and line break, and no ASCII letter or digit |
| `Text.SkipSpace` | streamlit_app.py:48 | scanning forward from an index, everything skipped is whitespace and the scan stops at the end or at a character that is not |
| `Text.SkipSpaceBack` | streamlit_app.py:48 | scanning backward to a lower bound, everything skipped is whitespace and the scan stops at the bound or after a character that is not |
| `Text.Strip` | streamlit_app.py:48 | the result is the slice of the input after its leading whitespace, with only whitespace after it, and it neither starts nor ends with whitespace |
| `Text.StripKeepsMarker` | streamlit_app.py:48-63 | for a pattern that neither starts nor ends with whitespace, the stripped text contains it exactly when the original does |
| `Text.AbsentFirstChar` | streamlit_app.py:51 | a pattern whose first character does not occur in the text is not contained in it |
| `Text.ContainsSuffix` | streamlit_app.py:51 | a text that ends with the pattern contains it |
| `Terms.ThisYearGap` | streamlit_app.py:57-61 | when this year's date has not passed, it is 0 to 365 days away, and 0 days only when it is today |
| `Terms.NextYearGap` | streamlit_app.py:59-61 | when this year's date has passed, next year's date is 1 to 365 days away |
| `Terms.DaysUntilNext` | streamlit_app.py:57-67 | the days to the rolled-over due date are between 0 and 365, and are 0 exactly when today is that month and day |
| `Terms.DaysUntilNextIsNextOccurrence` | streamlit_app.py:57-67 | the result is the day distance to an occurrence of the month and day that is not before today, and no such occurrence is closer |
| `Terms.ResolveTermsDays` | streamlit_app.py:43-69 | the resolved term is never negative and never more than 365 days |
| `Terms.MarkersSurviveStrip` | streamlit_app.py:48 | stripping the text changes none of the four marker tests |
| `Terms.MissingTermsResolveToZero` | streamlit_app.py:45-46 | a missing (NaN) terms cell resolves to 0 |
| `Terms.NoVendorWins` | streamlit_app.py:51-52 | text containing "No current vendor" resolves to 0, whatever else it contains |
| `Terms.ThirtyDayWins` | streamlit_app.py:54-55 | text containing "30 day" but not "No current vendor" resolves to exactly 30, even beside a date marker |
| `Terms.AugustRule` | streamlit_app.py:57-61 | "August 1st" without the earlier markers resolves to the days until the next 1 August |
| `Terms.MarchRule` | streamlit_app.py:63-67 | "March 15th" without the earlier markers resolves to the days until the next 15 March |
| `Terms.UnrecognisedTermsResolveToZero` | streamlit_app.py:69 | text with none of the four markers resolves to 0 |
| `Terms.SameMarkersSameDays` | streamlit_app.py:51-69 | two texts that contain the same markers resolve to the same term |
| `Terms.PaddingDoesNotMatter` | streamlit_app.py:48 | adding whitespace before or after the terms text never changes the resolved term |
| `Text.PaddingKeepsMarker` | streamlit_app.py:48 | whitespace added around a text never adds or removes an occurrence of a pattern that neither starts nor ends with whitespace |
| `Terms.ZeroDaysExactly` | streamlit_app.py:43-69 | the term is 0 exactly when the cell is missing, says "No current vendor", matches no rule, or its date rule names today |
| `Terms.MarchTextMarkers` | streamlit_app.py:51-63 | "Due March 15th" contains only the March marker |
| `Terms.MarchFromNewYear2024` | streamlit_app.py:63-67 | "Due March 15th" on 1 January 2024 resolves to 74 days (this year's date, across a leap February) |
| `Terms.AugustTextMarkers` | streamlit_app.py:51-57 | "Due August 1st" contains the August marker and neither earlier marker |
| `Terms.AugustJustMissed2024` | streamlit_app.py:57-61 | "Due August 1st" on 2 August 2024 resolves to 364 days (rolled over to 2025) |
| `Scoring.VendorScore` | streamlit_app.py:72-75 | with a term of 0 days or less the score is 9999; otherwise (score - price) × days = 1, so price < score ≤ price + 1 |
| `Scoring.LongerTermsScoreLower` | streamlit_app.py:75 | at equal price, a longer positive term gives a strictly lower score |
| `Scoring.LowerPriceScoresLower` | streamlit_app.py:75 | at equal positive term, a lower price gives a strictly lower score |
| `Scoring.ThirtyDayExample` | streamlit_app.py:75 | price 10 on a 30-day term scores 10 + 1/30 |
| `Table.RowScore` | streamlit_app.py:72-75 | a row's score is 9999 when its terms_days is at most 0, and otherwise satisfies (score - price) × terms_days = 1, so it lies in (price, price + 1] |
| `Table.WithTermsDays` | streamlit_app.py:91 | same length and order; each row keeps its other columns, and its terms_days is the resolved term of its own terms_raw (0 to 365) |
| `Table.WithScores` | streamlit_app.py:94 | same length and order; each row keeps its other columns, and its vendor_score is 9999 or satisfies (score - price) × terms_days = 1, from its own columns only |
| `Table.DeriveColumns` | streamlit_app.py:91-94 | same length and order, inputs untouched, and every row's derived columns are those of its own inputs |
| `Table.DeriveUnique` | streamlit_app.py:91-94 | any table that keeps the inputs row by row and is consistent on every row is the derived table |
| `Table.DeriveIgnoresStaleColumns` | streamlit_app.py:91-94 | derived values already present in the uploaded table have no influence on the result |
| `Table.DeriveIdempotent` | streamlit_app.py:116-117 | on the same date, recomputing the columns of an already derived table changes nothing |
| `Table.DeriveRowLocal` | streamlit_app.py:91-94 | a derived row depends only on that row's own inputs, not on its position or on any other row |
| `Table.DeriveCons` | streamlit_app.py:91-94 | deriving a table with one more row in front derives that row as on its own, and the rest as on their own |
| `Table.FilterProduct` | streamlit_app.py:104 | the selection is no longer than the table and holds only rows of the selected product |
| `Table.FilterIsOrderedSelection` | streamlit_app.py:104 | the selection is the table at strictly increasing indices, and those are exactly the indices of the selected product's rows |
| `Table.FilterThenDerive` | streamlit_app.py:91-104 | on the same date, selecting the product and then deriving gives the same rows as deriving the whole table and then selecting |
| `Table.RederiveSelectionUnchanged` | streamlit_app.py:116-117 | on the same date, if the grid is not edited, the recomputation after editing leaves the selected rows as they were |

## Left out

- Login: the password screen, the hard-coded password and the session flag
  (streamlit_app.py:8, 18-37) are user-interface and session state. They
  are not part of this model.
- Reading the uploaded CSV (line 88) is left out. So are the editable grid
  (108-113), the bar charts (122-130), merging the edits back with
  `df.update` (138) and the CSV download (140-147). All of these are
  library calls with no logic of their own. Edits made in the grid appear
  in the model only as an arbitrary input table to `Table.DeriveColumns`.
- The dropdown's product list, `sorted(df["product"].unique())` (line 101),
  is not part of this model. The selected product is a parameter.
- Reading the wall clock, `datetime.date.today()` (line 49), is not
  modelled: today's date is a parameter of the resolver. Dates must be
  valid with a year of at least 1, which Python's `date` guarantees.
- The source reads the clock again for every row, at line 91 and again at
  line 116. The model uses one date for every row and for both passes.
  A run that crosses midnight can resolve the "August 1st" and "March 15th"
  rows against two different dates; the model does not capture that.
- Python's upper year limit of 9999 is not modelled; years are unbounded. In
  the source, `date(today.year + 1, …)` at lines 60 and 66 fails with an
  exception in year 9999, but only once that year's 1 August or 15 March has
  passed (`due < today`, lines 59 and 65). The model then just moves to year
  10000.
- `str(term_raw)` (line 48) is taken as already applied: a present cell is
  given as its text. `pd.isna` (line 45) is modelled as the cell being
  `None`.
- Scoring.VendorScore: computes over exact rationals (`real`), so it does not
  model floating-point rounding of `1 / days` or of the sum. It also does not
  model NaN or missing prices, which pandas would pass straight through
  line 75. A price cell that is not numeric (text the CSV reader keeps as a
  string, such as `$12.50` or `1,234.50`) makes line 75 raise a TypeError on
  every row with a positive term, stopping the script at line 94 (or 117);
  rows whose term is 0 still get 9999, since that branch never reads the
  price. The model's price is always a number.
- The sentinel 9999 is an integer in Python. The column built from it at
  lines 94 and 117 is a float column when some row has a positive term, and
  an int64 column when none does. The model writes it as the real number
  9999.0 either way.
- Price-text cleaning, ranking with medal badges and a total-cost projection
  do not occur in `streamlit_app.py` and are not modelled.
- The 30-day rule fires on the exact substring `"30 day"` (line 54). Every
  missing or unrecognised term resolves to 0 (lines 46 and 69).
