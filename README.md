# progetto_calcio — a verified model of the table pipeline

This project models the data-preparation core of progetto_calcio, a Premier
League analysis built on polars and Streamlit, and proves properties of the
model. It covers:

- **the schema normaliser** `completa_e_ordina`, which appears in both
  `elaborazione_df.py` and `Introduzione.py`. It derives `Anno` from
  `Stagione` or `Stagione` from `Anno`, forces the types, rewrites the season
  from the year, and reorders the columns to `Stagione, …, Anno`. The two
  copies are line for line the same (Introduzione.py:17-71), so the
  `Normalizer` rows below describe both;
- **the superlative extraction** `estrai_record` and its formatting
  `formatta_record`;
- **the titles table** `df_titles`: the champions sorted by year, each row
  numbered with its winner's running title count;
- **the record catalogue** `df_record`: 24 `estrai_record` calls in a fixed
  order, the team with most top scorers, and the concatenation of the
  formatted frames;
- **from the front page** `Introduzione.py`: the row highlighter
  `evidenzia_squadra`, the Liverpool inverse score, which is written into the
  frame in place, and the four slices of the record table shown on the page.

A dataframe is a list of column names plus a sequence of rows. Each row maps
column names to cells, and a cell is `Int`, `Str` or `Null`. Columns carry
no type of their own, so a type error is decided cell by cell. The exceptions
the model raises are `Error` values in an `Outcome`:

- a missing column;
- a failed strict cast, or an operation on a column of the wrong type;
- the `ValueError` raised when the team or season column cannot be
  determined.

Files:

- `wrappers.dfy`: `Option` and `Result`.
- `decimal.dfy`: decimal text of integers and the strict integer parse.
- `frames.dfy`: values, rows, tables, `select`, column extraction and
  occurrence counts.
- `normalizer.dfy`: `completa_e_ordina`, written as staged methods that
  rebind the working table, and proved equal to a declarative normal form.
- `extractor.dfy`: `estrai_record` and `formatta_record`.
- `titles.dfy`: `df_titles`.
- `records.dfy`: the record catalogue. Its methods grow the records list
  group by group, as the script does.
- `introduzione.dfy`: the highlighter, the `LiverpoolFrame` class with its
  in-place score assignment, and the record-table slices.

## Model

| member | source | states |
|---|---|---|
| Normalizer.CompletaEOrdina | elaborazione_df.py:17-71 | The staged function returns exactly the normal form `Normalized(df)`, error included. |
| Normalizer.Normalized | elaborazione_df.py:17-71 | With neither Stagione nor Anno, the table comes back unchanged. Otherwise the columns are Stagione, the others in their original order, then Anno. No column is dropped. The row count and row order are kept, and every other cell is unchanged. Each row's Stagione is the season of its Anno. |
| Normalizer.Completa | elaborazione_df.py:24-59 | The stages before the reordering fail exactly when the normal form fails, with the same error. Otherwise they give the grown columns and the normal-form rows. |
| Normalizer.AggiungiColonne | elaborazione_df.py:26-44 | Adding the missing Anno or Stagione either fails with the normal form's error or leaves a table that `Completed` describes. |
| Normalizer.ForzaTipi | elaborazione_df.py:46-59 | The casts and the season rewrite turn a completed table into the normal-form rows, or fail exactly as the normal form fails. |
| Normalizer.WithColumn | elaborazione_df.py:28-35 | `with_columns` succeeds iff the expression evaluates on every row. It replaces the column or appends it, and changes only that key of each row. |
| Normalizer.NormalizedFails | elaborazione_df.py:27-48 | A single row whose year cannot be derived or cast makes the whole normalisation fail, with the cast error. |
| Normalizer.OrdinaColonne | elaborazione_df.py:62-69 | The final column list is Stagione if present, every other column in its original order, then Anno if present. |
| Normalizer.Others | elaborazione_df.py:63 | `centro` holds exactly the columns other than Stagione and Anno. |
| Normalizer.SeasonTextExamples | elaborazione_df.py:38-44 | The season of 1992 is "1992/93", and the season of 1999 is "1999/00". |
| Normalizer.SeasonFromYear | elaborazione_df.py:38-44 | With Anno and no Stagione, normalisation succeeds iff no Anno cell is text. Anno is kept, and Stagione is the year's text, "/", then the last two characters of the next year's text; a missing year gives a missing season. |
| Normalizer.YearFromSeason | elaborazione_df.py:27-35 | With Stagione and no Anno, normalisation succeeds iff every season cell's year part parses. Anno is then that integer. |
| Normalizer.SeasonPrefix | elaborazione_df.py:29-32 | After replacing "-" by "/" and splitting, element 0 is the longest prefix of the season text that holds no "/" or "-". |
| Normalizer.SeasonYearExample | elaborazione_df.py:27-35 | "2008-09" gives the year 2008. |
| Normalizer.SeasonYearRoundTrip | elaborazione_df.py:27-44 | Parsing the year back out of the season text of a non-negative year gives that year. |
| Normalizer.SeasonAgreesWithYear | elaborazione_df.py:53-59 | In the normal form, reading the year back from each row's Stagione gives its Anno, for integer and for missing years. |
| Normalizer.YearIsAuthoritative | elaborazione_df.py:53-59 | When Anno is present, the supplied Stagione cells have no effect on the result. |
| Normalizer.Idempotent | elaborazione_df.py:17-71 | Normalising a normal form gives it back unchanged. |
| Normalizer.KeepsYears | elaborazione_df.py:47-48 | The Int64 cast keeps integer and missing years as they are. |
| Decimal.ParseIntText | elaborazione_df.py:33-42 | Casting an integer to Utf8 and strictly back to Int64 gives the integer. |
| RecordExtractor.DetectColumn | elaborazione_df.py:85-90 | An explicitly passed name wins. Otherwise the result is the first candidate if present, else the second, else none; none iff neither is present. |
| RecordExtractor.FilterRows | elaborazione_df.py:94 | The filter fails iff it compares a text cell. Otherwise it keeps every row that passes, as many times as it occurs, and no other row, in the original order (a subsequence of the input). |
| RecordExtractor.BestIndex | elaborazione_df.py:97-104 | The row kept by the sort and `limit(1)` is a row that no other row sorts strictly before, with nulls sorting first. |
| RecordExtractor.EstraiRecord | elaborazione_df.py:76-111 | An undetermined team or season column raises `TeamOrSeasonUndetermined`; a failing filter raises its error; a missing metric column raises `ColumnNotFound`. The call succeeds iff both columns are determined and present, the filter succeeds, the metric column is present and no filtered metric is text, so an empty filtered table is a success. On success the columns are Record, Squadra, Stagione, Valore, and the filter succeeded. The result has 0 rows when the filtered table is empty and 1 otherwise. That row is the label, the team as text, the season as text, and the metric of a filtered row that nothing sorts before. |
| RecordExtractor.ValoreIsExtreme | elaborazione_df.py:94-104 | Valore is the maximum of the metric over the filtered rows when descending and the minimum when ascending, and some filtered row has it. |
| RecordExtractor.FormattaRecord | elaborazione_df.py:116-128 | Formatting succeeds iff the four record columns are present and every Valore passes the numeric cast (it is not text, or its text is a number). The columns then become Record, Squadra, Stagione, Valore; the row count is kept; the text columns are cast to text; Valore is never text afterwards: a number is kept and numeric text becomes its number. |
| RecordExtractor.FormattaKeepsExtracted | elaborazione_df.py:105-128 | `formatta_record` returns the output of `estrai_record` unchanged. |
| RecordExtractor.FormattaIdempotent | elaborazione_df.py:116-128 | Formatting a formatted frame changes nothing. |
| TitlesTable.SortByYear | elaborazione_df.py:186 | `sort("Anno")` gives the rows in ascending year order, with missing years first, as a permutation of the input. |
| TitlesTable.CountSort | elaborazione_df.py:186 | Sorting keeps the number of rows of every winner. |
| TitlesTable.RunningCountIsTally | elaborazione_df.py:188 | A row's Titoli is one more than the number of earlier rows with the same Vincitore. |
| TitlesTable.FirstTitleIsOne | elaborazione_df.py:188 | A winner's first row has Titoli 1. |
| TitlesTable.NextTitleAddsOne | elaborazione_df.py:188 | Each later row of a winner has Titoli one more than that winner's previous row. |
| TitlesTable.RunningCountIncreases | elaborazione_df.py:188 | Within one winner, Titoli strictly increases down the table. |
| TitlesTable.LastRunningCountIsTotal | elaborazione_df.py:188 | A winner's last row carries its total number of titles. |
| TitlesTable.DfTitles | elaborazione_df.py:184-192 | A missing Anno, then a missing Vincitore, then a missing Stagione raises ColumnNotFound for that column. With all three present the call succeeds iff every Anno cell passes the Int64 cast, and raises the cast error otherwise. On success the columns are Stagione, Vincitore, Titoli, Anno, with one row per input row. |
| TitlesTable.TitlesAreRunningCounts | elaborazione_df.py:184-192 | Row by row, df_titles has the year and winner of a permutation of df_principale's rows. It is in year order and has every winner exactly as often as df_principale. Each row's Titoli is one more than the number of earlier rows with the same winner. |
| RecordCatalogue.MostFrequent | elaborazione_df.py:249-250 | The chosen entry occurs at least as often as every other entry. |
| RecordCatalogue.SquadMostScorers | elaborazione_df.py:248-258 | A missing Squadra raises. Otherwise the result has one row (none for an empty table). That row is the fixed label, a team of the top-scorer table with the highest row count, season "-", and that count as value. |
| RecordCatalogue.Collect | elaborazione_df.py:203-245 | Evaluating the calls in order succeeds iff every call does. The list then holds each call's frame, in order. |
| RecordCatalogue.ExtractAllConcat | elaborazione_df.py:203-245 | Running two groups of calls one after the other gives the first error, or the concatenation of both lists. |
| RecordCatalogue.Grow | elaborazione_df.py:203-245 | Each `records += [...]` extends the list to the extraction of the calls so far, or propagates the first exception. |
| RecordCatalogue.ExtractRecords | elaborazione_df.py:200-245 | The five groups give the extraction of the whole catalogue, in order. |
| RecordCatalogue.FormatRecords | elaborazione_df.py:262 | The formatted frames are concatenated in order, and the first formatting error raises. |
| RecordCatalogue.BuildRecordTable | elaborazione_df.py:200-262 | The script's construction of df_record equals the declarative `RecordTable`. |
| RecordCatalogue.RecordTableRows | elaborazione_df.py:200-262 | When every call finds a record, df_record has 25 rows. Row i is the record of the i-th call and carries its label. The last row is squad_most_scorers' row: label "SQUADRA MAGGIOR VOLTE CON CAPOCANNONIERE", season "-". |
| RecordCatalogue.RecordTableFails | elaborazione_df.py:203-262 | The first failing call's error is df_record's error. |
| RecordCatalogue.SquadMostScorersFormatted | elaborazione_df.py:248-262 | `formatta_record` leaves the squad_most_scorers frame as it is. |
| RecordCatalogue.AllExtracted | elaborazione_df.py:203-245 | When every call finds a record, the list holds one one-row frame per call, unchanged by formatting and labelled with the call's name. |
| Introduzione.EvidenziaSquadra | Introduzione.py:75-81 | A frame without a Squadra column raises. Otherwise there is one style per column: all `"background-color: " + colour + "55"` iff the row's team is the given one, all empty otherwise. |
| Introduzione.MaxPos | Introduzione.py:107 | `max()` skips missing positions and is none iff every position is missing. Otherwise it is a position of the column and at least every position. |
| Introduzione.LiverpoolFrame.AssignScore | Introduzione.py:107-108 | Without Pos, or with a text position (pandas raises a TypeError at `max()` or `max_pos + 1`), the frame is unchanged and the error is reported. Otherwise Score is added (or replaced) in place, and each row's Score is max_pos + 1 - Pos. |
| Introduzione.LastPlaceScoresOne | Introduzione.py:107-108 | The row with the largest position scores 1. |
| Introduzione.ScoreRange | Introduzione.py:107-108 | Every score of a position of at least 1 lies between 1 and max_pos, and position 1 scores max_pos. |
| Introduzione.ScoreStrictlyDecreasing | Introduzione.py:107-108 | A smaller position gets a strictly larger score. |
| Introduzione.Slice | Introduzione.py:145-164 | `slice(offset, length)` keeps the columns and gives at most `length` rows from `offset`, clamped to the table. |
| Introduzione.SlicesCover | Introduzione.py:145-164 | The four slices are consecutive and disjoint, and cover the first 25 rows. |
| Introduzione.GroupSlices | Introduzione.py:145-164 | On a table labelled as the catalogue, the slices hold the merit, demerit and non-champion groups, then the ages, the top scorers and the most-scorers row. |
| Introduzione.SlicesAreGroups | Introduzione.py:145-164 | On the df_record the catalogue builds, the four slices are exactly those groups, and together they are the whole table. |

## Left out

- CSV input and output (`carica_dati`, `write_csv`) are not modelled; tables are values. The loader's null tokens appear only as the predicate `Frames.IsNullToken`.
- The left joins that build df_principale and the league average age (`mean().round(1)`) are not modelled. They are polars join semantics and floating-point means.
- Column types are not modelled. Polars raises some type errors from a column's type alone: `+ 1` on an all-missing Anno that loaded as text, `.str` on an empty integer Stagione, or `!= 1` on a text Posizione. On an empty or all-missing column of the wrong type the model does not raise them.
- `estrai_record` accepts any polars expression as `filtro`. The model supports only `pl.col(c) != n`, the one filter the catalogue uses.
- Floating point: `Valore` is cast to Float64 by the source. The model keeps the integer. Fractional metrics such as PPG or Average_age are taken as integers at a fixed scale.
- RecordExtractor.FormattaRecord: the numeric cast of a text Valore parses integer text only; fractional text such as "85.5", which polars' Float64 cast accepts, fails in the model.
- The source's integers are Int64. The model uses unbounded integers, so overflow of `Anno + 1` is not modelled.
- The strict integer parse accepts an optional "-" and digits only. Other spellings polars might accept, such as a leading "+" or surrounding spaces, are treated as failures.
- RecordExtractor.EstraiRecord: raises `CastFailed` for any text metric among the filtered rows. Polars sorts the text, casts only the kept cell to Float64, and succeeds when that cell is numeric text or missing.
- Ties: polars' sort is not stable by default, so any of several equal rows may come first. The model keeps the earliest of them, and its contracts only use "no row sorts strictly before it". In `sort("Anno")` the model's insertion sort is stable; only the order of years is proved. For squad_most_scorers, the model keeps the team seen first among teams with equally many top scorers.
- The Liverpool frame's preparation (Introduzione.py:97-104: filter, select, rename, sort, conversion to pandas) is not modelled. `LiverpoolFrame` starts from the prepared frame.
- crea_rankings.py, crea_average_age.py and the pages are not modelled: they are scraping, charts, clustering and Streamlit state.
- Normalizer.SeasonYearRoundTrip: stated for non-negative years only. The text of a negative year starts with "-", which the season parse turns into a separator.
- Normalizer.SeasonAgreesWithYear: the same restriction to non-negative years (missing years are covered).
- RecordExtractor.ValoreIsExtreme: assumes no missing metric among the filtered rows. A missing value sorts first and would be the record.
- TitlesTable.TitlesAreRunningCounts: assumes no Anno cell of df_principale is text. df_principale is already in normal form, where Anno is an integer or missing. For the same reason `SortByYear` ranks every text year alike and keeps their input order, where polars would order a text column lexicographically.
- RecordCatalogue.RecordTableRows: assumes every call finds a record and no team name in the top-scorer table is an integer. Otherwise formatting would turn the team into text and the row would no longer equal squad_most_scorers' row.
- RecordCatalogue.SquadMostScorersFormatted: the same assumption about integer team names.
- Introduzione.SlicesAreGroups: the same two assumptions as RecordTableRows.
- Introduzione.ScoreRange: the lower bound is stated for positions of at least 1.
