# Stats Clienti: the analysis behind "Analizza"

`stats_clienti_web.py` is a small Dash dashboard for visits to a venue. The visits are documents with a date (`data`), a time of day (`orario`) and a description (`descrizione`), read once at start-up. The user picks a date, or `'all'`, and presses "Analizza". The callback `aggiorna_analisi` then does five things:

1. It keeps the visits of that date.
2. It puts each visit in a half-hour bucket with `fascia_30min`, where a time that raises while being parsed falls back to `"00:00"`.
3. It counts a visit as a child (`Bambini`) when its lower-cased description contains `"bamb"`, and as an adult (`Adulti`) otherwise.
4. It groups by bucket, with the keys sorted, and derives `Totale`, the adult revenue (3 per adult) and the child revenue (2 per child).
5. It appends a `TOTALE` row of column sums, writes the revenue cells as `"<n> €"`, and builds a one-line summary and a stacked bar chart of every row except the last.

The date dropdown lists the distinct dates in ascending order, followed by `'all'`.

The project models that computation in Dafny and proves what it promises. The modules are:

- `Wrappers` holds `Option`.
- `Text` holds Python's string order, a sorted insert (the group-by key order), `str.split` and `sep.join`, ASCII `lower()` and the `in` substring test.
- `PyInt` holds Python's `int()` on strings (whitespace, sign, underscores), `str(int)` and `%02d`.
- `Fascia` holds a table cell (absent, null, string, other), `fillna("00:00")` and `fascia_30min`, with its lemmas.
- `Report` holds functions that state the result of each step of the callback, and the dropdown options.
- `ReportProperties` holds lemmas about the `Report` functions: counting, row arithmetic, the total row, order, the summary and the chart.
- `Callback` holds the callback body as imperative methods: a filter loop, a bucketing loop, one pass that fills a map of counts, a loop building the rows, a loop summing the total row, and a loop formatting the revenue cells. Each method is proved to compute the matching `Report` function.

The callback is modelled as a method of `(n_clicks, selected_date, records)`. The fetched documents are the parameter `recs`. A cleared dropdown is `None`, and pandas's `== None` keeps no rows.

Two lines of the code raise on inputs of their own, and the model records when:

- `dati['data']` (line 84) and `dati['orario']` (line 90) raise `KeyError` when no document has a `data` or `orario` field. `Report.CallbackRuns` is exactly the condition under which the callback gets past those lines, and it is the callback's precondition.
- `df['data']` at line 29 raises on a table without a `data` column, so an empty fetch crashes the page before the dropdown is built. `Report.DropdownOptions` requires that column.

## Model

| member | source | states |
|---|---|---|
| Text.LessIrreflexive | stats_clienti_web.py:29 | no string sorts before itself under Python's string order |
| Text.LessAsymmetric | stats_clienti_web.py:29 | two strings never sort before each other both ways |
| Text.LessTransitive | stats_clienti_web.py:29 | the string order `sorted()` and `groupby` use is transitive |
| Text.LessTotal | stats_clienti_web.py:29 | any two distinct strings are ordered one way or the other |
| Text.Less | stats_clienti_web.py:29 | Python's `<` on `str`, code point by code point; `Text.LessIrreflexive`, `Text.LessAsymmetric`, `Text.LessTransitive` and `Text.LessTotal` state that it is a strict total order |
| Text.Insert | stats_clienti_web.py:101 | inserting a key into sorted keys keeps them sorted, adds exactly that key, and grows the keys by one only when the key is new |
| Text.SortedUnique | stats_clienti_web.py:101 | two sorted key sequences with the same members are equal, so the group keys are determined by the set of buckets |
| Text.Split | stats_clienti_web.py:93 | `o.split(":")` gives at least one piece; what the pieces are is stated by `Text.SplitPieces` and `Text.SplitJoin` |
| Text.SplitPieces | stats_clienti_web.py:93 | `o.split(":")` has one piece more than `o` has colons, no piece holds a colon, and joining the pieces with `":"` gives `o` back |
| Text.SplitJoin | stats_clienti_web.py:93 | splitting the join of colon-free pieces gives those pieces back |
| Text.Lower | stats_clienti_web.py:102-103 | the model's ASCII `lower()` keeps the length, lower-cases each ASCII capital and leaves every other character as it is |
| Text.Contains | stats_clienti_web.py:102-103 | `pat in s`; `Text.ContainsOccurs` states that it holds exactly when `pat` occurs at some index |
| Text.ContainsOccurs | stats_clienti_web.py:102-103 | `pat in s` holds exactly when `pat` occurs in `s` at some index |
| PyInt.LeadingSpacesRun | stats_clienti_web.py:93 | the whitespace counted at the start of a string is whitespace, and the next character is not |
| PyInt.TrailingSpacesRun | stats_clienti_web.py:93 | the whitespace counted at the end of a string is whitespace, and the character before it is not |
| PyInt.ParseInt | stats_clienti_web.py:93 | `int()` of a string: surrounding whitespace skipped (`PyInt.StripTrims`), an optional sign, then digits with single underscores, and `None` where Python raises; its values on digits, on digits after `-` or `+`, on `str(n)` and on `%02d` are stated by `PyInt.ParseDigits`, `PyInt.ParseNegative`, `PyInt.ParsePositive`, `PyInt.ParseIntToString` and `PyInt.ParseFormat02` |
| PyInt.StripTrims | stats_clienti_web.py:93 | the stripped string neither starts nor ends with whitespace, sits in the original after its leading whitespace, and only whitespace surrounds it |
| PyInt.Strip | stats_clienti_web.py:93 | the whitespace `int()` skips at both ends is cut off; `PyInt.StripTrims` states what remains |
| PyInt.SeparatorNotSkipped | stats_clienti_web.py:93 | `int()` raises on every string that starts with one of U+001C to U+001F, since those are not skipped |
| PyInt.DecimalDigits | stats_clienti_web.py:95 | the decimal digits of `n` are a non-empty string of ASCII digits whose value is `n` |
| PyInt.LeadingZero | stats_clienti_web.py:95 | a leading zero does not change a digit string's value |
| PyInt.ParseDigits | stats_clienti_web.py:93 | `int()` of a string of ASCII digits is their value |
| PyInt.ParseNegative | stats_clienti_web.py:93 | `int()` of a minus sign followed by ASCII digits is minus their value |
| PyInt.ParsePositive | stats_clienti_web.py:93 | `int()` of a plus sign followed by ASCII digits is their value |
| PyInt.ParseIntToString | stats_clienti_web.py:128 | `int(str(n)) == n` for every integer |
| PyInt.IntToString | stats_clienti_web.py:128 | `str(x)` of an integer inside the f-strings of lines 128 and 131; `PyInt.ParseIntToString` reads it back and `PyInt.DecimalDigits` gives its digits |
| PyInt.ParseFormat02 | stats_clienti_web.py:95 | `int(f"{h:02d}") == h` for every integer, negative ones included |
| PyInt.Format02 | stats_clienti_web.py:95 | `f"{h:02d}"`; `PyInt.ParseFormat02` reads it back as `h` and `PyInt.Format02Shape` gives its characters and its width |
| PyInt.Format02Shape | stats_clienti_web.py:95 | `%02d` prints digits and a sign only, and exactly two characters for hours 0 to 99 |
| Fascia.LabelShape | stats_clienti_web.py:91-97 | every output of `fascia_30min` is a label: a `%02d` hour, a colon, then `00` or `30` |
| Fascia.FillNa | stats_clienti_web.py:90 | `fillna("00:00")` on one cell; with `Fascia.MissingTimeBucket`, a missing or null time lands in `"00:00"` |
| Fascia.ParseTime | stats_clienti_web.py:93 | `h, m = map(int, o.split(":"))`, `None` where it raises; `Fascia.ParseTimeOfPieces` and `Fascia.ParseTimeNeedsOneColon` state its value on every string |
| Fascia.HalfHour | stats_clienti_web.py:94 | `0 if m < 30 else 30` printed as `{m:02d}`; `Fascia.LabelOfTime` states that it is `00` exactly when `m < 30` and `30` otherwise |
| Fascia.Fascia30Min | stats_clienti_web.py:91-97 | `fascia_30min`; its outputs are labels (`Fascia.LabelShape`), a parsed time gives its hour and half hour (`Fascia.LabelOfTime`), and the fallback cases are `Fascia.MidnightBucket` |
| Fascia.SeparatorBeforeHour | stats_clienti_web.py:93-97 | a time `c + a + ":" + b` with `c` one of U+001C to U+001F and colon-free `a`, `b` raises at line 93 and lands in `"00:00"` |
| Fascia.ParseTimeOfPieces | stats_clienti_web.py:93 | `a:b` with colon-free pieces parses to `(int(a), int(b))` when both pieces are integers, and raises otherwise |
| Fascia.ParseTimeNeedsOneColon | stats_clienti_web.py:93-97 | a string without exactly one colon raises in `h, m = ...` and lands in `"00:00"` |
| Fascia.LabelOfTime | stats_clienti_web.py:91-95 | for a time that parses to `h` and `m`, the label's hour reads back as `h`, and its minutes are `00` exactly when `m < 30` and `30` exactly when `m >= 30` |
| Fascia.IdempotentOnLabels | stats_clienti_web.py:91-95 | `fascia_30min` returns each of its labels unchanged |
| Fascia.Idempotent | stats_clienti_web.py:91-97 | bucketing the bucket of any cell gives that bucket again |
| Fascia.MidnightBucket | stats_clienti_web.py:91-97 | the bucket is `"00:00"` exactly when the time does not parse, or parses to hour 0 with minutes below 30 |
| Fascia.MissingTimeBucket | stats_clienti_web.py:90-97 | a missing time (filled with `"00:00"`) and a non-string time both land in `"00:00"` |
| Fascia.LabelOrderIsChronological | stats_clienti_web.py:101 | for hours 0 to 99, the string order of labels is the chronological order of the half hours they start |
| Report.Filtered | stats_clienti_web.py:82-84 | the kept records are exactly the records of the selected date (all of them for `'all'`, none for a cleared dropdown), and no more than the input; how many times and in which order each is kept is stated by `ReportProperties.FilteredKeepsDuplicates` and `ReportProperties.FilteredInOrder` |
| Report.Keep | stats_clienti_web.py:82-84 | which records line 84 keeps: all for `'all'`, none for a cleared dropdown, else those whose `data` equals the selection; `Report.Filtered` and `ReportProperties.FilteredKeepsDuplicates` state the filter built on it |
| Report.IsChild | stats_clienti_web.py:102-103 | the child test of the aggregation lambdas; `ReportProperties.ChildExactlyWhenBamb` states it as an occurrence of `"bamb"` |
| Report.Label | stats_clienti_web.py:90-98 | the `fascia` cell of a record; `ReportProperties.EntriesAreLabelled` and `Fascia.LabelShape` state that it is a bucket label |
| Report.Entries | stats_clienti_web.py:90-103 | one entry per kept record, in order, holding its bucket and whether it is a child |
| Report.Keys | stats_clienti_web.py:101 | the group keys are strictly ascending |
| Report.KeysMembers | stats_clienti_web.py:101 | the group keys are exactly the buckets some record falls in |
| Report.RowsFor | stats_clienti_web.py:101-112 | one bucket row per given key; `ReportProperties.RowsForConsistent` and `ReportProperties.ColumnSumRowsFor` state its arithmetic and its sums |
| Report.BucketRows | stats_clienti_web.py:101-112 | the grouped `fasce` frame; `ReportProperties.BucketRowsCover` and `ReportProperties.BucketRowsCount` state its order, cover and counts |
| Report.Count | stats_clienti_web.py:101-103 | adults or children of one bucket; `ReportProperties.BucketCountsPartition` and `Callback.CountByFascia` state what it counts |
| Report.BucketRow | stats_clienti_web.py:109-112 | a bucket row with its derived columns; `ReportProperties.BucketRowConsistent` states their arithmetic |
| Report.TotalRow | stats_clienti_web.py:115-123 | `tot_row`; `ReportProperties.TotalRowConsistent` and `ReportProperties.TotalRowCounts` state its fields |
| Report.ColumnSum | stats_clienti_web.py:117-122 | `fasce[col].sum()`; `ReportProperties.TotalRowConsistent` and `ReportProperties.ColumnSumRowsFor` state what the sums are |
| Report.WithTotal | stats_clienti_web.py:124 | `pd.concat` of the rows and their total row; `ReportProperties.WithTotalConsistent` states that every row keeps the arithmetic |
| Report.Table | stats_clienti_web.py:101-124 | the table before rendering; `ReportProperties.TableShape`, `ReportProperties.TableTotals` and `ReportProperties.TableConsistent` state its shape, total row and arithmetic |
| Report.Euro | stats_clienti_web.py:128 | `f"{x} €"`; `ReportProperties.EuroReadsBack` states its shape and that the number reads back |
| Report.Render | stats_clienti_web.py:127-128 | one displayed row; `ReportProperties.RenderKeepsArithmetic` states what its cells show |
| Report.RenderAll | stats_clienti_web.py:127-128 | the displayed table has one row per row, each with its revenue cells formatted |
| Report.AllButLast | stats_clienti_web.py:136-137 | `s[:-1]` drops exactly the last element and keeps the others in place |
| Report.Summary | stats_clienti_web.py:131 | `analisi_text`; `ReportProperties.AnalysisSummary` and `ReportProperties.SummaryOfRendered` state what it quotes |
| Report.Chart | stats_clienti_web.py:134-141 | the figure; `ReportProperties.AnalysisChart` and `ReportProperties.ChartOfRows` state its series and title |
| Report.SelectionText | stats_clienti_web.py:139 | `{selected_date}` in the chart title, `None` for a cleared dropdown; `ReportProperties.ChartOfRows` states the title |
| Report.CallbackRuns | stats_clienti_web.py:84-90 | the callback gets past `dati['data']` and `dati['orario']`, which raise when no document has that field |
| Report.Analysis | stats_clienti_web.py:78-143 | the three outputs of the callback; `ReportProperties.AnalysisEmptyCases`, `ReportProperties.AnalysisTable`, `ReportProperties.AnalysisSummary` and `ReportProperties.AnalysisChart` state them |
| Report.Dates | stats_clienti_web.py:29 | the distinct dates, ascending, exactly those some record holds |
| Report.DropdownOptions | stats_clienti_web.py:29 | the options are the distinct dates, ascending, each labelled by itself, then `'all'` labelled "Tutti i dati" |
| ReportProperties.FilteredKeepsDuplicates | stats_clienti_web.py:82-84 | every record of the selected date is kept as many times as it occurs, identical visits included, and no other record is kept |
| ReportProperties.FilteredOne | stats_clienti_web.py:84 | no record keeps nothing, and one record is kept exactly when it matches the selection |
| ReportProperties.FilteredInOrder | stats_clienti_web.py:84 | filtering two stretches of records one after the other is filtering them together, so the kept records keep their input order |
| ReportProperties.BucketCountsPartition | stats_clienti_web.py:101-103 | in each bucket, adults plus children is the number of records in the bucket |
| ReportProperties.KindsPartition | stats_clienti_web.py:102-103 | every record counts once, as an adult or as a child |
| ReportProperties.ChildExactlyWhenBamb | stats_clienti_web.py:102-103 | a record is a child exactly when `"bamb"` occurs in its lower-cased description |
| ReportProperties.CountLabelPositive | stats_clienti_web.py:101 | a bucket has records exactly when some record falls in it |
| ReportProperties.CountInCovering | stats_clienti_web.py:117-118 | buckets that cover every record count every record of each kind |
| ReportProperties.ColumnSumRowsFor | stats_clienti_web.py:117-118 | the adult and child columns of distinct bucket rows sum to the records in those buckets |
| ReportProperties.BucketRowConsistent | stats_clienti_web.py:109-112 | on a bucket row, `Totale = Adulti + Bambini`, the revenues are `3·Adulti` and `2·Bambini`, and `Incasso Totale` is their sum |
| ReportProperties.RowsForConsistent | stats_clienti_web.py:109-112 | every bucket row keeps that arithmetic |
| ReportProperties.TotalRowConsistent | stats_clienti_web.py:115-123 | the column sums of rows that keep the arithmetic keep it too, and each field of the total row is the sum of that field |
| ReportProperties.WithTotalConsistent | stats_clienti_web.py:115-124 | appending the total row to rows that keep the arithmetic keeps it on every row |
| ReportProperties.EntriesAreLabelled | stats_clienti_web.py:98 | every record's `fascia` is a bucket label |
| ReportProperties.BucketRowsCover | stats_clienti_web.py:101-104 | bucket rows are strictly ascending by label, and every record falls in one of them |
| ReportProperties.BucketRowsCount | stats_clienti_web.py:101-112 | each bucket row is a bucket some record falls in, counts its adults and children, has at least one record, and keeps the arithmetic |
| ReportProperties.TotalRowKinds | stats_clienti_web.py:117-118 | the total row's adults and children are all kept records of each kind |
| ReportProperties.TotalRowArithmetic | stats_clienti_web.py:115-123 | the total row is labelled `TOTALE` and keeps the row arithmetic |
| ReportProperties.TotalRowCustomers | stats_clienti_web.py:117-119 | the total row's `Totale` is the number of kept records |
| ReportProperties.TotalRowCounts | stats_clienti_web.py:115-123 | the total row is `TOTALE`, keeps the arithmetic, counts each kind, and its `Totale` is the number of kept records |
| ReportProperties.EuroReadsBack | stats_clienti_web.py:128 | a revenue cell is the number followed by `" €"`, and the number reads back as the value |
| ReportProperties.TotalIsNotALabel | stats_clienti_web.py:116 | `"TOTALE"` is not a bucket label |
| ReportProperties.AnalysisEmptyCases | stats_clienti_web.py:79-87 | before a click every output is empty; after one, the table is empty exactly when no record is kept, then the no-data message shows with no figure, and a non-empty table has a bucket row and the total row |
| ReportProperties.AnalysisTable | stats_clienti_web.py:101-128 | the table holds the rendered bucket rows (ascending labels, each a `%02d` hour then `:00` or `:30`, none `TOTALE`), then one `TOTALE` row; that row renders the sums and counts every kept record; every row keeps the arithmetic with euro cells |
| ReportProperties.TableShape | stats_clienti_web.py:124 | the table is the rendered bucket rows, at least one, then the rendered total row |
| ReportProperties.TableTotals | stats_clienti_web.py:115-124 | the last row is `TOTALE` with the adults, children and customers of all kept records |
| ReportProperties.TableOrder | stats_clienti_web.py:101-104 | the labels of the rows above the total are strictly ascending |
| ReportProperties.TableLabels | stats_clienti_web.py:98 | every row above the total carries a bucket label, so none of them is `TOTALE` |
| ReportProperties.TableConsistent | stats_clienti_web.py:109-124 | every row of the table, the total included, keeps the arithmetic |
| ReportProperties.RenderKeepsArithmetic | stats_clienti_web.py:127-128 | a displayed row shows `Totale = Adulti + Bambini` and revenue cells `3·Adulti €`, `2·Bambini €` and their sum |
| ReportProperties.RenderAllArithmetic | stats_clienti_web.py:127-128 | rendering rows that keep the arithmetic shows it on every row |
| ReportProperties.TableArithmetic | stats_clienti_web.py:109-128 | every displayed row, the total included, shows the arithmetic with euro cells |
| ReportProperties.AnalysisSummary | stats_clienti_web.py:131 | the summary reports the last table row's adults, children and customers, and its total revenue cell |
| ReportProperties.SummaryOfRendered | stats_clienti_web.py:131 | the summary of a row quotes that row's rendered total revenue cell |
| ReportProperties.AnalysisChart | stats_clienti_web.py:134-137 | the chart shows every table row but the last, one bar per bucket key, with each row's label, adults and children, and never the total |
| ReportProperties.ChartOfRows | stats_clienti_web.py:136-139 | a chart drawn from a table has the labels, adults and children of all rows but the last, and the title of the selection |
| Callback.SelectRecords | stats_clienti_web.py:82-84 | the filter loop keeps exactly `Filtered(recs, selected)` |
| Callback.Classify | stats_clienti_web.py:90-103 | the bucketing loop builds exactly `Entries(dati)` |
| Callback.CountByFascia | stats_clienti_web.py:101-103 | one pass builds the sorted group keys and, for each, its adult and child counts |
| Callback.GroupByFascia | stats_clienti_web.py:101-112 | the aggregated table with its derived columns is exactly `BucketRows(es)` |
| Callback.AppendTotal | stats_clienti_web.py:115-124 | the summing loop builds `TotalRow(rows)` and appends it |
| Callback.FormatRevenue | stats_clienti_web.py:127-128 | the formatting loop builds exactly `RenderAll(fasce)` |
| Callback.AggiornaAnalisi | stats_clienti_web.py:78-143 | the callback body returns exactly `Analysis(n_clicks, selected_date, recs)`: its figure, table and summary |

## Left out

- The Firebase credentials, `initialize_app` and the streaming of the `clienti` collection (lines 8-15) are network I/O. The fetched documents are a parameter `recs`.
- The Dash app, its layout and styling (lines 18-68), the callback wiring (lines 71-77) and `app.run` (lines 146-147) are UI and framework code. The callback is a method of its inputs.
- Figure cosmetics (bar type, names, colours, axis titles, `barmode`) are not modelled. The figure keeps the x values, the two series and the title.
- pandas itself is not modelled, only its observable effect: the group-by's sorted keys, `concat` as list append, and `to_dict('records')` as a sequence of rows.
- Report.CallbackRuns: the `KeyError` crashes of lines 84 and 90, when no document has a `data` or `orario` field, are excluded by this precondition rather than modelled.
- A missing `descrizione` column, a missing description, and non-string descriptions (where `.lower()` raises) are not modelled. A description is always a string.
- Report.DropdownOptions: requires a `data` column, because line 29 raises without one. It also requires no non-string date, although pandas can sort dates that are all of one non-string type; cells of other types are opaque here.
- Text.Lower: lower-cases ASCII letters only, while Python's `lower()` also maps non-ASCII capitals and can change the length (U+0130 becomes two characters). The child test of lines 102-103 is still exact: no non-ASCII character lower-cases to a string holding `a`, `b` or `m` (only U+0130 and U+212A give an ASCII letter, `i` and `k`), so `"bamb"` occurs in Python's lower-cased text exactly when it occurs in the model's.
- PyInt.ParseInt: accepts ASCII digits only, while Python also accepts other Unicode decimal digits. Python's limit of 4300 digits on `int()` is not modelled.
- The euro loop of lines 127-128 rewrites one column at a time. The model formats one row at a time; the resulting table is the same.
- Column updates in place on `dati` and `fasce` (lines 90, 98, 107, 109-112, 124) are modelled as new local sequences. Nothing else aliases those frames.
- The count and revenue columns (lines 101-123) are pandas int64 and are unbounded `int` here. They would differ only once a column sum passed 2^63, which takes more than 10^18 records, so no fetch reaches it.
