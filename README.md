# Graduate cost calculator: verified model

This project models the decision logic of `TC.py`, a single-page calculator for
graduate program costs. It has three parts:

- **Loading the rate table** (`load_data`). The header names are stripped. Each
  of the four money columns (`Per Credit`, `Tuition for 18 Credits`, `Fees`,
  `Living Expenses`) is converted in turn: every `$` and `,` is deleted, then
  the text is read as a float. A blank cell stays NaN. Any other text that is
  not a number aborts the load, and so does a missing column. Finally the
  `College` and `Program` texts are stripped.
- **Selection.** The college list is the sorted distinct non-blank colleges.
  The program list is the same for the rows of the chosen college. The chosen
  pair resolves to the first matching row in table order.
- **The estimate.**
  - Tuition is `credits × Per Credit` when a per-credit rate is present. The
    widget keeps credits between 1 and 100.
  - Otherwise tuition is the flat `Tuition for 18 Credits` figure, whatever
    the credits.
  - The estimated tuition is shown at that point.
  - 400 is added when the college name contains `Hartt`.
  - 5 386 is added when the program name contains `ELI`.
  - Fees and living expenses come straight from the row.
  - The total is the sum of tuition, fees and living expenses.

Modules, one file each:

| file | module | models |
|---|---|---|
| `wrappers.dfy` | `Wrappers` | `Option` (NaN is `None`) and `Result` |
| `text.dfy` | `Text` | Python's `str.strip()`, the `in` substring test and string `<` |
| `money.dfy` | `Money` | the `[\$,]` clean-up, the `float()` reading of a cell, the `$1,234.56` display form |
| `catalog.dfy` | `Catalog` | `load_data` as a function `Load` and as the method `LoadData` with its column loop |
| `selection.dfy` | `Selection` | the two sorted lists and the first-match lookup |
| `cost.dfy` | `Cost` | the estimate as a function `Quote`, and as the method `Estimate` with its `+=` steps |

Money is exact `real`. pandas' NaN is `None`, and it propagates through every
sum as float NaN does. A raw cell is `Option<string>`; `None` there is a cell
the CSV reader already turned into NaN.

Several behaviours of `TC.py` differ from what one might expect of a cost
calculator. The model keeps the code's behaviour:

- **Rate words.** One might expect a `Per Credit` cell holding a word such as
  "flat" or "year" to mark a flat-rate row. The code reads every cell with
  `float()`, so such a word aborts the load (`Money.MarkerWordsUnreadable`,
  `Catalog.TextAbortsLoad`). Tokens the CSV reader treats as missing ("n/a",
  "N/A", "NA", "nan", "null", an empty cell and so on) arrive as NaN, so such
  a row is billed at the flat rate.
- **Neither billing figure present.** Such a row is not rejected at load. Its
  tuition and total are NaN (`Cost.NoBillingFigureIsNaN`).
- **Duplicate college and program pairs.** These are not rejected. The first
  row in table order wins (`Selection.Lookup`).
- **A pair with no row.** `.iloc[0]` raises here; the model reports it as
  `None` (`Cost.Calculate`).
- **Credits outside 1..100.** These never reach the computation, because the
  credits widget bounds them. The widget appears only for a per-credit row, so
  the model requires the range only when the matched row is billed per credit.

## Model

| member | source | states |
|---|---|---|
| Text.Trim | TC.py:16 | the result has no leading or trailing whitespace (Python `isspace`), and it is a slice of the input with only whitespace cut on either side |
| Text.TrimIdempotent | TC.py:22-23 | stripping an already stripped name changes nothing |
| Text.ContainsAt | TC.py:80 | the `in` test holds exactly when the fragment occurs at some position of the name |
| Text.BelowIrreflexive | TC.py:39 | no string sorts before itself |
| Text.BelowTransitive | TC.py:39 | the order used by `sorted` is transitive |
| Text.BelowTotal | TC.py:39 | any two different strings are ordered one way or the other |
| Money.Clean | TC.py:20 | the cleaned text holds no `$` or `,` and is no longer than the cell |
| Money.CleanAppend | TC.py:20 | the clean-up works character by character, so it distributes over concatenation |
| Money.CleanKeeps | TC.py:20 | text without `$` or `,` passes through unchanged |
| Money.CleanIdempotent | TC.py:20 | cleaning twice is cleaning once |
| Money.ParseCell | TC.py:20 | a blank cell, and only a blank cell, stays NaN; any other cell is the reading of its cleaned text; a failure carries the cleaned text, which has no reading |
| Money.ReadableIsNumeral | TC.py:20 | text with a reading is, once stripped, non-empty and made only of digits, signs and points |
| Money.ReadWhole | TC.py:20 | a bare whole numeral such as `950` reads as exactly the number its digits denote |
| Money.NegatedReading | TC.py:20 | a leading `-` negates the reading of a numeral, and the signed text reads exactly when the numeral does |
| Money.PlusReading | TC.py:20 | a leading `+` leaves the reading of a numeral unchanged |
| Money.UnreadableText | TC.py:20 | text holding a character that is neither whitespace nor part of a numeral has no reading |
| Money.UnreadableCell | TC.py:20 | such a cell, free of `$` and `,`, fails with its own text |
| Money.MarkerWordsUnreadable | TC.py:20 | the cells "flat" and "year" fail to convert instead of reading as NaN |
| Money.GroupClean | TC.py:20 | the clean-up removes exactly the thousands separators that the display grouping inserts |
| Money.DisplayRoundTrip | TC.py:20 | a cell written as `$` + grouped whole digits + `.` + fraction digits converts to exactly that amount |
| Money.WholeRoundTrip | TC.py:20 | a whole amount written as `$` + grouped digits, such as `$18,000`, converts to exactly that amount |
| Money.DollarsExample | TC.py:20 | the cell `$12,345.67` converts to 12345.67 |
| Wrappers.IndexOf | TC.py:20 | finds the first column with the name, or reports that no column has it (the `KeyError` case); the same search finds the decimal point in a cell |
| Catalog.StripNames | TC.py:16 | the header keeps one name per column, each name is stripped, and a name without surrounding whitespace is unchanged |
| Catalog.ParseColumn | TC.py:20 | a column converts exactly when every cell does, cell by cell; a failure reports the cleaned text of the first bad cell |
| Catalog.ConvertMoney | TC.py:18-20 | the conversion loop succeeds exactly when every listed column is present and converts; it yields one converted column per listed name |
| Catalog.ConvertStops | TC.py:19-20 | once a column fails, the loop's outcome is that failure |
| Catalog.ConvertColumns | TC.py:18-20 | the `for col in numeric_cols` loop with early exit computes `ConvertMoney` |
| Catalog.ConvertFailure | TC.py:18-20 | a failed conversion reports the first listed column, in loop order, that is missing (`KeyError`) or holds a non-number (`ValueError`) |
| Catalog.StripCells | TC.py:22-23 | each text cell is stripped, a blank cell stays blank, and every result is stripped |
| Catalog.Load | TC.py:13-34 | a loaded catalog has one row per table row, and every College and Program text in it is stripped |
| Catalog.LoadData | TC.py:13-25 | the step-by-step load (header, money loop, text columns) computes `Load` |
| Catalog.LoadSucceedsIff | TC.py:16-23 | the load succeeds exactly when all six columns are present after stripping the header and every money cell converts |
| Catalog.LoadFailure | TC.py:18-34 | a failed load reports the first money column that is missing or bad; otherwise it reports `College`, or else `Program`, as missing |
| Catalog.LoadedHeader | TC.py:16-23 | a loaded table has all six columns |
| Catalog.LoadedText | TC.py:22-23 | each loaded College and Program is its stripped cell, blank exactly when the cell was blank |
| Catalog.LoadedMoney | TC.py:18-20 | each loaded amount is the reading of its cell, NaN exactly when the cell was blank |
| Catalog.TextAbortsLoad | TC.py:20 | a money cell with a letter, or any character outside a numeral, makes the whole load fail |
| Catalog.LoadedTextStable | TC.py:22-23 | stripping a loaded College or Program again changes nothing |
| Selection.Insert | TC.py:39 | adding a value keeps the list strictly ascending, and the values are the old ones plus the new one |
| Selection.SortedUnique | TC.py:39 | `sorted(unique(...))` is strictly ascending and holds exactly the values of its input |
| Selection.AscendingUnique | TC.py:39 | two strictly ascending lists with the same values are equal |
| Selection.PresentColleges | TC.py:39 | `dropna()` keeps exactly the colleges of the rows that have one |
| Selection.PresentPrograms | TC.py:43 | the programs kept are exactly those on a row of the chosen college |
| Selection.Colleges | TC.py:39 | the college list is strictly ascending and holds exactly the colleges present in the catalog |
| Selection.Programs | TC.py:43 | the program list is strictly ascending and holds exactly the programs on rows of the chosen college |
| Selection.CollegesDetermined | TC.py:39 | the college list is the only strictly ascending list of those colleges |
| Selection.ProgramsDetermined | TC.py:43 | the program list is the only strictly ascending list of those programs |
| Selection.OfferedNamesTrimmed | TC.py:39-43 | on a loaded catalog every name in either list is already stripped |
| Selection.Lookup | TC.py:47-50 | returns the first row matching both college and program, and returns nothing exactly when no row matches |
| Selection.OfferedChoiceResolves | TC.py:39-50 | any college from the first list, paired with any program from the second list, finds a row of that college |
| Cost.Plus | TC.py:82-89 | float addition with NaN: the sum is NaN exactly when either side is, and otherwise the sum of the two |
| Cost.SurchargeTotal | TC.py:80-86 | the surcharges applied add up to 400 when `Hartt` occurs in the college, plus 5 386 when `ELI` occurs in the program |
| Cost.Quote | TC.py:58-89 | billing is per credit exactly when the rate is present. Per-credit tuition is credits × rate; flat tuition is the 18-credit figure. The Hartt fee is applied exactly when `Hartt` occurs in the college, and the support fee exactly when `ELI` occurs in the program, Hartt first. Tuition is the estimate plus the fees that apply. Fees and living pass through. The total is tuition + fees + living, NaN-propagating |
| Cost.Estimate | TC.py:58-89 | the page's steps (base tuition, shown estimate, two conditional `+=`, total) compute `Quote` |
| Cost.Calculate | TC.py:47-89 | with credits in 1..100 whenever the matched row is billed per credit, the page prices the first matching row; there is no result exactly when no row matches |
| Cost.FlatIgnoresCredits | TC.py:67-69 | a flat-rate program costs the same for any credits |
| Cost.SurchargesAdditive | TC.py:80-86 | tuition is the shown estimate plus the sum of the listed surcharges |
| Cost.EstimateIsTuitionIffNoSurcharge | TC.py:71-86 | when the estimate is a number, the shown estimate equals the final tuition exactly when no surcharge applies |
| Cost.TotalAddsUp | TC.py:89 | the total is a number exactly when the estimate, fees and living are, and then it is estimate + surcharges + fees + living |
| Cost.NoBillingFigureIsNaN | TC.py:67-69 | with neither a rate nor a flat figure, tuition and total are NaN |
| Cost.HarttFlatExample | TC.py:67-89 | Hartt School, Music, flat 18 000, fees 1 200, living 9 000: tuition 18 400, total 28 600 |
| Cost.PerCreditPlainExample | TC.py:58-89 | Arts & Sciences, Data Science, 950 per credit, 9 credits: tuition 8 550, total 18 350 |
| Cost.PerCreditSupportExample | TC.py:58-89 | Arts & Sciences, ELI Program, 950 per credit, 9 credits: tuition 13 936, total 23 736 |

## Left out

- The page itself is not modelled: page setup, titles, columns, subheaders and the text written beside each figure (TC.py:1-9, 53-57, 73-74, 91-92). Nothing is computed there.
- Caching of `load_data` and the page halt on a load error (TC.py:12, 26-34) are not modelled. A failed load is a `LoadError` value instead.
- Reading `TuitionCost.csv` (TC.py:15) is not modelled. The input is the table after parsing. Which tokens the reader turns into NaN, and its own number inference for a column that is wholly numeric, are the reader's business. A missing file (TC.py:26-28) is part of that.
- The select boxes and the credits number input (TC.py:40, 44, 59-65) are not modelled. The chosen values are parameters, and the credits range is a precondition.
- Money.ParseNumber: reads only an optional sign and ASCII digits with at most one decimal point, around optional whitespace. Exponents, `inf`/`nan`, digit-group underscores and non-ASCII decimal digits (such as `１２` or `١٢`), which `float()` also accepts, are read as "not a number" here. A cell written with them makes `Money.UnreadableText` and `Catalog.TextAbortsLoad` predict a failed load where the program loads the value.
- Amounts are exact reals, so the model has no binary floating-point rounding.
- The two-decimal display with thousands grouping (TC.py:71, 77-78, 93-102) is covered only by `Money.DisplayRoundTrip`: grouped `$` text reads back as its amount. Rounding to cents and right-aligned padding are not modelled.
- If two header names are equal after stripping, the first is taken. pandas would select both columns at once; the model does not capture that.
- Catalog.StripCells: treats every non-blank College and Program cell as text. A column that the reader made wholly numeric, where `.str` would raise, is not modelled.
- Catalog.LoadData: collects the converted columns in a list next to the raw table rather than writing them back into the frame. The result is the same, but no frame is modified in place.
