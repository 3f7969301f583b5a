# nl2sql: the SQL normaliser and the chart classifier

nl2sql answers questions about cryptocurrency prices. A typed or spoken
question goes to a text generator, which returns SQL. Four front ends then do
the same post-processing, each with its own copy of the code:

- `app.py` and `app_movie.py`, Streamlit with a recorder;
- `stream.py`, Streamlit with a file upload;
- `app_ip.py`, ipywidgets.

The post-processing has three parts:

1. it picks the question from the typed text or the transcript;
2. it normalises the generated SQL: strip it, remove Markdown code fences,
   collapse every `ORDER BY` clause into the last one, and qualify
   `FROM`/`JOIN` references to the four attached coin databases with their
   table names;
3. it runs the SQL and, when the question asks for a chart, picks a pie,
   histogram, bar or line chart from the keywords in the question and the
   column types of the result.

A small script derives each coin's database and table name from its CSV file
name.

This project models those parts in Dafny:

- `text.dfy` (`Text`, `Options`): characters, ASCII case, Python's `strip`
  family, substring search.
- `question.dfy` (`Question`): where the question comes from, per front end.
- `fences.dfy` (`Fences`), `order_by.dfy` (`OrderBy`) and `qualify.dfy`
  (`Qualification`): the three rewriting steps. Each regular expression is a
  scanner that follows Python's `re` semantics for that one pattern.
- `normalizer.dfy` (`Normalizer`): the steps run in sequence by methods that
  reassign `sql`, as the source does.
- `table.dfy` (`Tables`): a query result, how pandas types its columns, and
  the HTML-unescaping of the rows.
- `grouping.dfy` (`Grouping`): `unique()` and the keys of `groupby`.
- `charts.dfy` (`Charts`): the classifier as functions, one per branch, for
  each of the three front-end variants.
- `plot.dfy` (`Plotting`): the line branch as the code runs it. A `Frame`
  class has its date column overwritten in place, then a loop over the
  sources assigns `ycol` as it goes.
- `coins.dfy` (`Coins`): the file-name convention of the coin databases.

## Model

| member | source | states |
|---|---|---|
| Question.ChooseRecorded | app.py:30-39 | Typed text alone is the question, with no notice. A recording alone gives its transcript with a "Transcript: " notice. Both give the typed text with the "Using typed question." notice, which appears exactly when both are present. Neither gives no question. |
| Question.ChooseUploaded | stream.py:40-47 | Typed text wins outright. Otherwise an uploaded file gives its transcript with a notice. Otherwise there is no question. |
| Question.AskRecorded | app.py:42-44 | The recorder front end generates exactly when there is typed text or a non-empty transcript of a recording, from the typed text when there is one. Otherwise it warns "Please type or speak your question (but not both)." |
| Question.AskUploaded | stream.py:50-52 | The upload front end generates exactly when there is typed text or a non-empty transcript of an uploaded file, from the typed text when there is one. Otherwise it warns "Please either type a question or upload an audio clip." |
| Question.OnAsk | app.py:42-45 | SQL is generated exactly when there is a non-empty question, and from that question. Otherwise the front end's warning is shown. |
| Question.AskWidget | app_ip.py:21-26 | The widget generates exactly when the stripped text is non-empty, from the stripped text, which neither starts nor ends with whitespace. An all-whitespace entry prints "Please enter a question." |
| Question.TypedTextWins | app.py:30-39 | In both front ends with a text box (the recorder's, and the upload front end's at stream.py:40-47), a non-empty text box is what SQL is generated from, whatever the recording or upload. |
| Question.TranscriptWhenNoText | stream.py:40-52 | With an empty text box, both front ends generate exactly when there is audio with a non-empty transcript, and then from the same transcript. |
| Question.NeitherWarns | app.py:43-44 | With neither input, Ask shows the front end's own warning. |
| Question.WidgetIgnoresPadding | app_ip.py:21 | Whitespace around the widget's input does not change what Ask does. |
| Text.Lower | app.py:105 | `str.lower` keeps the length and lower-cases each character (ASCII only). |
| Text.Upper | create_coins.py:22 | `str.upper` keeps the length and upper-cases each ASCII letter, leaving every other character as it is. |
| Text.LowerOfUpper | create_coins.py:18-22 | Lower-casing an upper-cased text gives the lower-cased text. |
| Text.LStrip | app.py:49 | `lstrip()` returns a suffix. Everything cut is whitespace, and a non-empty result does not start with whitespace. |
| Text.RStrip | app.py:49 | `rstrip()` returns a prefix. Everything cut is whitespace, and a non-empty result does not end with whitespace. |
| Text.Strip | app.py:49 | `str.strip()` returns the inner slice. Everything cut from either end is whitespace, and a non-empty result has no whitespace at either end. |
| Text.StripUnpadded | app.py:49 | `strip()` leaves a text without outer whitespace unchanged. |
| Text.RemoveAll | create_coins.py:10 | `str.replace(pat, "")` never lengthens the text and adds no character that was not in it. A text without `pat` is unchanged. |
| Fences.StripFences | app.py:52-53 | The fence step never lengthens the text. It leaves the text unchanged exactly when it neither opens with three backticks and holds a newline, nor ends with the closing marker, with or without a final newline. |
| Fences.StripOpeningFence | app.py:52 | `^```.*\n` removes exactly the first line, through its newline, when the text opens with three backticks and has a newline. Otherwise nothing changes. |
| Fences.StripClosingFence | app.py:53 | `\n```$` removes the marker at the very end, or just before a final newline, which is kept. Otherwise nothing changes. |
| Fences.UnfencedUnchanged | app.py:52-53 | Text with no fence at either end passes through unchanged. |
| Fences.AtMostOneFenceEachEnd | app.py:52-53 | The fence step is the input minus at most one opening line and at most one closing marker. |
| Fences.SecondPassCanStripAgain | app.py:52-53 | The fence step is not idempotent: a doubly fenced text loses another line on a second pass. |
| OrderBy.ClauseHere | app.py:56 | A match of `(?i)ORDER BY\s+[^;]+` at this position spans at least ten characters, opens with `o` in either case, and holds no `;` in its first ten. |
| OrderBy.FindAll | app.py:56-57 | Every match returned by `findall` opens with the case-insensitive keyword, whitespace and a non-`;` character, and holds no `;`. |
| OrderBy.FoundIffPresent | app.py:57-58 | `findall` returns nothing exactly when no match of the pattern starts anywhere. |
| OrderBy.Collapse | app.py:55-61 | When `findall` returns nothing, the `if all_orders:` branch is skipped and the statement is unchanged. |
| OrderBy.NothingLeftAfterRemoval | app.py:60 | After `order_patterns.sub("", sql)`, no match of the pattern is left. |
| OrderBy.RemoveClauses | app.py:60 | `order_patterns.sub("", sql)` never lengthens the text. A character where no match starts is kept, so a non-empty text whose head opens no match keeps its first character. |
| OrderBy.RStripSemicolons | app.py:60 | `rstrip(";")` returns a prefix that does not end with `;`. |
| OrderBy.CollapseShape | app.py:55-61 | With a match present, the result is the rest, a newline, then the stripped last match. The last match starts with the keyword and holds no `;`. The rest holds no match and does not end with `;`. |
| OrderBy.LastMatchIsFinal | app.py:59 | The last match `findall` returns is the match of the pattern at some position, and no match starts after its end. |
| OrderBy.SwallowsLaterClauses | app.py:56 | `[^;]+` runs to the next `;`, so a clause without a `;` consumes any later `ORDER BY` as one match. |
| OrderBy.SecondOrderByCanRemain | app.py:55-61 | On `ORDER BY;ORDER BY z` the step leaves two `ORDER BY` texts, and the result's only match is the whole of it. The step is not idempotent. |
| Qualification.RulesOf | app.py:70-80 | The substitutions run FROM then JOIN for each entry, in the order of `alias_to_table`. |
| Qualification.GoodEntries | app.py:64-69 | All four aliases and tables avoid `F`/`J` and end with a word character. |
| Qualification.RulesCompatible | app.py:64-80 | Any two of the eight substitutions have equal aliases or aliases that differ, in any case, at index 5. |
| Qualification.MatchHere | app.py:72 | A match needs a non-word character, or the start, before it (`\b`), and room for the keyword, one whitespace character and the alias. |
| Qualification.MatchOpensWithKw | app.py:72 | A match of `\bFROM\s+alias\b(?!\.)` or its JOIN twin starts with `f` or `j` in either case. |
| Qualification.MatchWindow | app.py:72 | No character of a match after its first, nor the character just after it, can open another match. |
| Qualification.Substitute | app.py:71-75 | `re.sub` leaves a text with no match unchanged. |
| Qualification.ReplacementNoMatch | app.py:73 | A replacement `FROM alias.TABLE` is never matched by any substitution, because the `.` after the alias blocks it. |
| Qualification.CleanAfter | app.py:71-80 | After a substitution, the text has no match of that substitution, and it gains no match of any compatible one. |
| Qualification.QualifyEntryCleans | app.py:70-80 | One loop iteration leaves no match of its own two substitutions and introduces none of the others. |
| Qualification.QualifyWithCleans | app.py:70-80 | After the loop, no match of any of its substitutions is left. |
| Qualification.QualifyWith | app.py:70-80 | Over entries of `alias_to_table`, the loop leaves a text with no bare reference unchanged. |
| Qualification.Qualify | app.py:63-80 | The qualified statement holds no bare `FROM`/`JOIN` reference to a known alias. |
| Qualification.FixedPointIffClean | app.py:63-80 | The alias loop leaves a statement unchanged exactly when it holds no bare reference. |
| Qualification.QualifyIdempotent | app.py:63-80 | Running the alias loop twice gives the same as once. |
| Qualification.RefMatches | app.py:72 | A keyword, whitespace and the alias is matched exactly when what follows is neither a word character nor a `.`. The match then ends after the alias. |
| Qualification.QualifyRewrites | app.py:70-80 | A bare reference `FROM coin_x`, in any case and spacing, followed by the end or a non-word, non-`.` character, becomes `FROM coin_x.TABLE`. The rest is qualified independently. |
| Qualification.QualifyKeepsRef | app.py:72 | A reference followed by `.`, or continued by any run of word characters (letters `f`/`j` included, as in `coin_bitcoinfoo`), is kept as written together with that continuation. The rest is qualified independently. |
| Qualification.PlainPrefix | app.py:70-80 | Text without `f`/`j` is copied unchanged ahead of the rest of the statement. |
| Qualification.QualifyWithSplit | app.py:70 | Running the loop over two lists of entries in turn equals running it over their concatenation. |
| Normalizer.Prepare | app.py:49-61 | The strip, fence and ORDER BY statements compute the composition of the three step functions. |
| Normalizer.QualifyAliases | app.py:70-80 | The loop that reassigns `sql` per entry computes the alias step. Its invariant is that the remaining entries bring `sql` to the result. |
| Normalizer.Normalize | app.py:49-80 | The normalised SQL is the composition of the four steps. It holds no bare reference, and qualifying it again changes nothing. |
| Tables.Column | app.py:110 | A column is the row-order cells at its index. |
| Tables.IsNumeric | app.py:106 | A column is numeric only when the result has rows. The columns of an empty result are typed `object`, so `select_dtypes` finds none. |
| Tables.NumCols | app.py:106 | `num_cols` holds columns of the result, and a column is in it exactly when it is numeric. |
| Tables.CatCols | app.py:107 | `cat_cols` holds columns of the result, and a column is in it exactly when it is not numeric. |
| Tables.NumColsExact | app.py:106 | A column is among the first `n` numeric ones exactly when it is within the first `n` and numeric. |
| Tables.Partition | app.py:106-107 | `num_cols` and `cat_cols` split the columns: each column is in exactly one, by its type, and their sizes add up to the column count. |
| Tables.FirstNumericIsLeftmost | app.py:106 | `num_cols[0]` is the leftmost numeric column. |
| Tables.WithoutFirst | app.py:107 | The list comprehension is non-empty exactly when some column is not dropped, and it starts with the leftmost such column. |
| Tables.CleanCell | app_movie.py:163 | A string cell is unescaped. Any other cell is kept as it is, and a cell stays a string exactly when it was one. |
| Tables.CleanRows | app_movie.py:162-165 | Cleaning keeps the row count and widths. Each cell is unescaped if it is a string and kept otherwise. |
| Tables.CleaningKeepsColumnKinds | app_movie.py:162-166 | The cleaned result is well shaped, and it has the same numeric columns as the raw result. |
| Tables.CleaningIdentity | app_movie.py:162-165 | Rows whose strings are already unescaped are unchanged. |
| Grouping.StrLessTransitive | app.py:122 | Python string comparison is transitive. |
| Grouping.StrLessTotal | app.py:122 | Python string comparison is total on distinct strings. |
| Grouping.CellLessTransitive | app.py:122 | The order of `groupby` keys is transitive. |
| Grouping.CellLessTotal | app.py:122 | The order of `groupby` keys is total on distinct non-NULL values. |
| Grouping.InsertSorted | app_ip.py:59 | Inserting a key keeps the key list sorted and adds exactly that key. |
| Grouping.GroupKeys | app_ip.py:59 | `groupby` keys are strictly sorted and are exactly the non-NULL values present. |
| Grouping.SortedDistinct | app_ip.py:59 | Strictly sorted keys have no repeats. |
| Grouping.Uniques | app.py:131 | `unique()` holds exactly the values present, NULL included. |
| Grouping.UniquesSpec | app.py:131 | `unique()` lists each value once, in order of first appearance. |
| Charts.IndexOf | app.py:110 | `df[c]` finds the first, and only, column named `c`. |
| Charts.Numbers | app.py:114 | `dropna()` keeps no more values than the column has cells. |
| Charts.NumbersSpec | app.py:114 | `dropna()` on a numeric column keeps exactly its numbers, in column order: the `k`-th number kept is that of the `k`-th numeric cell, so counts are kept too. |
| Charts.GroupSum | app.py:122 | A key that no row carries sums to 0. |
| Charts.BarTotals | app.py:122 | There is one bar per group key, in key order, each holding the sum of the value column over that key's rows. |
| Charts.BarTotalsSpec | app.py:122 | The bar keys are sorted and are exactly the non-NULL group values. The bars add up to the total over all grouped rows. |
| Charts.KeysSumCovers | app.py:122 | Summing per key over keys that cover every non-NULL group value gives the total over all grouped rows. |
| Charts.ParseDates | app.py:129-130 | Only rows whose date parses are kept, with the date replaced by a time stamp. |
| Charts.ParseDatesSpec | app.py:129-130 | A row is kept, converted, exactly when its date parses. The `k`-th kept row is the `k`-th row whose date parses, so row order and repeats are kept. The result is empty exactly when no date parses. |
| Charts.Dated | app.py:129-130 | The dated rows are no more than the rows and keep their width. |
| Charts.Labels | app.py:131 | Every line label is a `Source` value. The Streamlit front ends label every value present, NULL included; the widget's `groupby` (app_ip.py:59) labels exactly the non-NULL values. |
| Charts.YColumn | app.py:133 | `ycol` is `num_cols[0]` when there is a numeric column, and `Close` otherwise. |
| Charts.LineSeries | app.py:131-134 | There is one series per source, in the loop's order, each with that source's points. |
| Charts.PointsOfSpec | app.py:132-134 | A source's points are exactly the (date, y) pairs of its rows. The `k`-th point comes from the `k`-th row with that source, so the points keep the row order. |
| Charts.PointsOf | app.py:132-134 | A source has no more points than there are rows. |
| Charts.PointsOfNull | app.py:132 | A NULL source selects no rows, because NaN equals nothing. |
| Charts.ChartOnlyWhenAsked | app.py:101-102 | A chart, warning or error arises exactly when the lower-cased question contains a plot keyword. |
| Charts.WantsChart | app.py:101-102 | "pie", "bar" or "histogram" in the question passes the keyword gate. |
| Charts.RequestOf | app.py:101-105 | Asking for a pie or bar passes the gate. A histogram flag that does not pass it means "histogram" is absent, so only "hist" was asked. |
| Charts.HistAloneDrawsNothing | app.py:101-112 | "hist" alone sets the histogram flag but does not pass the gate, so nothing is drawn. |
| Charts.NoPlotKeyword | app.py:101 | None of the eight plot keywords occurs in "hist". |
| Charts.Decide | app.py:109-138 | No chart exactly when the gate fails. A pie only when asked for. A histogram only when "hist" is asked for. Bars only when "bar" is asked for without "hist". Lines only with a `Date` column and neither keyword. |
| Charts.Classify | app.py:101-138 | Any chart, warning or error implies the keyword gate passed. A pie, histogram or bar chart implies that "pie", "hist" or "bar" is in the lower-cased question. |
| Charts.DispatchGate | app.py:102-110 | No chart exactly when the gate fails. A pie exactly when the gate passes, "pie" is asked for and there are both kinds of column. The pie then plots the first numeric column by the first other column. |
| Charts.DispatchBranches | app.py:112-138 | Past the pie, "hist" picks the histogram branch, then "bar" the bar branch, then a `Date` column the line branch. Otherwise there is a warning, or a blank figure in the widget. |
| Charts.PieContents | app.py:109-110 | A pie exactly when asked for with a numeric and a non-numeric column present. It plots the leftmost numeric column by the leftmost other column. |
| Charts.LeftmostColumns | app.py:106-107 | `num_cols`/`cat_cols` are non-empty exactly when such a column exists, and they start with the leftmost one. |
| Charts.HistogramChart | app.py:112-118 | The branch draws a histogram of a result column whose sample has at most one value per row. Otherwise the guarded front ends warn and the widget raises `IndexError`. |
| Charts.NumericSample | app.py:114 | On a numeric column, `dropna()` is non-empty and holds exactly the column's numbers. |
| Charts.HistogramContents | app.py:112-118 | A histogram exactly when there is a numeric column. It draws the leftmost numeric column's non-NULL values, which are non-empty. Otherwise the recorder and upload front ends warn and the widget raises `IndexError`. |
| Charts.HistogramAcross | app_ip.py:46-49 | The widget's histogram is the guarded front ends' histogram, except it raises `IndexError` where they warn. |
| Charts.BarGroup | app.py:121 | `grp`, when defined, is a column of the result. |
| Charts.BarChart | app.py:119-126 | The branch draws bars grouped by a result column, summing a result column, with at least one bar. Otherwise it raises `IndexError`, or a guarded front end warns. |
| Charts.BarContents | app.py:119-126 | A bar chart exactly when there is a numeric column, either a `Source` column or a non-numeric one, and a row with a non-NULL group key. Otherwise the guarded front ends warn when there is no numeric column. Every other case raises `IndexError`: from `cat_cols[0]`, from `numeric_cols[0]` in the widget, or from `plot.bar` on an empty series. |
| Charts.BarColumns | app.py:121-122 | The bars are grouped by `Source` when present, else by the leftmost other column. They sum the leftmost numeric column. |
| Charts.BarShape | app.py:119-124 | A bar chart is drawn exactly when there is a numeric column, a group column and at least one bar. Its group and value columns and its totals are given in terms of `BarGroup` and `num_cols`. |
| Charts.BarTotalsEmpty | app.py:122 | `groupby(grp)[v].sum()` has no rows exactly when no row has a non-NULL group key. |
| Charts.BarBars | app.py:122 | There is at least one bar. The bars are sorted by key, cover exactly the non-NULL group values and add up to the grouped total. |
| Charts.BarAcross | app_ip.py:50-54 | The widget's bar chart is the guarded front ends' bar chart, except it raises where they warn. |
| Charts.LineChart | app.py:128-136 | With a `Date` column, the line branch either draws lines, whose y column is a result column when there is a line, or raises `KeyError`, or, in the upload front end only, `NameError`. |
| Charts.SourceLines | app.py:131-134 | The loop over dated rows does the same, and no line has more points than there are dated rows. |
| Charts.LineSources | app.py:128-136 | A line per source. In the Streamlit front ends that is each distinct dated `Source` value, NULL included, once, in order of first appearance. In the widget it is the sorted non-NULL values. The y column is the first numeric column, else `Close`, and exists whenever a line is drawn. |
| Charts.LinePoints | app.py:131-134 | Each line's points are the (date, y) pairs of the dated rows of its source, in row order: its `k`-th point comes from the `k`-th such row. A line has no points exactly when its source is NULL. |
| Charts.UploaderDiffersWithoutDates | stream.py:124-131 | The upload front end differs from the recorder front ends only when the line loop runs zero times. It then raises `NameError`, because `ycol` is never assigned. This happens exactly when no date parses. |
| Charts.UploaderLine | stream.py:124-131 | As above, for the line branch. |
| Charts.SourceLinesUploader | stream.py:127-131 | As above, for the loop over given dated rows. |
| Charts.WidgetRaisesWhereOthersWarn | app_ip.py:43-62 | The widget never warns. Where the others warn about a missing numeric column it raises `IndexError`. Where they warn about a missing `Date` it leaves a blank figure. |
| Charts.WidgetAgrees | app_ip.py:38-62 | Wherever a guarded front end draws nothing, a pie, a histogram or bars, or raises `IndexError`, the widget does the same. |
| Plotting.ToDatetime | app.py:129 | `to_datetime(errors='coerce')` gives NaT (NULL) exactly when the cell does not parse, and the parsed time otherwise. |
| Plotting.Coerced | app.py:129 | The conversion replaces each row's date cell with its converted value. |
| Plotting.DropNull | app.py:130 | `dropna(subset=['Date'])` keeps only rows from the input whose date is not NULL. |
| Plotting.CoerceThenDrop | app.py:129-130 | Converting then dropping gives exactly the parsed rows of `ParseDates`. |
| Plotting.Frame.constructor | app.py:98 | `pd.DataFrame(rows_plot, columns=cols_plot)` holds the result's columns and rows. |
| Plotting.Frame.ConvertColumn | app.py:129 | The in-place loop overwrites the date column of every row with its conversion. The columns are unchanged. |
| Plotting.Frame.DropUndated | app.py:130 | Returns a fresh frame with the same columns and the rows whose date is not NULL. |
| Plotting.DatedFrame | app.py:128-130 | The frame after the conversion and the `dropna` holds exactly the dated rows. |
| Plotting.PlotSources | stream.py:127-131 | The loop over the sources, which assigns `ycol` inside and reads it after, produces exactly `SourceLines`. |
| Plotting.LinePlot | app_ip.py:56-61 | The imperative line branch produces exactly `LineChart`. |
| Plotting.Plot | app.py:101-138 | The whole chart step, run imperatively, produces exactly `Classify`. |
| Coins.Basename | create_coins.py:9 | `os.path.basename` returns a suffix without `/` that follows the last `/`. |
| Coins.CoinName | create_coins.py:9-10 | The coin name holds no `/`. A base name without `coin_` or `.csv` is the coin name as it is. |
| Coins.CoinOfName | create_coins.py:10 | `coin_X.csv` names coin `X` for any `X` without `_`, `.` or `/`. |
| Coins.DbFile | create_coins.py:18 | The database file is the coin name, lower-cased, followed by `.db`: it is three characters longer and holds no upper-case letter. |
| Coins.TableName | create_coins.py:22 | The table name has the coin name's length and no lower-case letter. Lower-cased, it equals the lower-cased coin name, and adding `.db` gives the database file. |
| Coins.DirectoryIgnored | create_coins.py:9-10 | The coin name does not depend on the directory. |
| Coins.CoinOfFile | create_coins.py:7-10 | `coin_X.csv` names coin `X` for any `X` without `_`, `.` or `/`, in any directory. |
| Coins.UpperOfLower | create_coins.py:18-22 | The table name does not depend on the case of the file name. |
| Coins.EntriesNameCoins | app.py:64-69 | Each entry of `alias_to_table` is `coin_n` with the table `n` upper-cased. |
| Coins.AttachedFollowsMap | core.py:75-78 | `run_sql` attaches the aliases of `alias_to_table`, in the same order, each as the file `n.db` for its alias `coin_n`. |
| Coins.NamingAgreesWithMap | create_coins.py:18-22 | The file `coin_X.csv` whose lower-cased name is an alias of `alias_to_table` produces the database that `run_sql` attaches under that alias, holding the table the normaliser qualifies it with. |

## Where the code and its description differ

The model follows the code. In these places the code does something other
than the project's written description says:

- The fences: the description calls fence stripping idempotent. Each regular
  expression runs once, so a text fenced twice loses one more line on a second
  pass (`Fences.SecondPassCanStripAgain`).
- ORDER BY: the step is not idempotent either (`OrderBy.SecondOrderByCanRemain`),
  and a clause without `;` swallows later clauses (`OrderBy.SwallowsLaterClauses`).
- Source column in the line chart: the description treats a result without a
  `Source` column as one unlabeled series. The code indexes `df_plot['Source']`
  and raises `KeyError` (`Charts.LineChart`).
- Order of line points: the description draws each line in date order. The
  code plots the rows in result order, with no sort (`Charts.LinePoints`).
- Failures: the description says unmet chart requirements only warn. Some
  paths raise instead:
  - the widget front end's `numeric_cols[0]` and `categorical_cols[0]` raise
    `IndexError`, and all front ends raise it for `cat_cols[0]` in the bar
    branch and when no row has a group key, since `plot.bar` then gets an
    empty series;
  - the upload front end raises `NameError` when the line loop never runs.

  The Streamlit front ends show these errors as "SQL Error: …". The model
  represents them as `Failed(…)` charts.
- The histogram keyword: "hist" alone selects the histogram branch but does
  not pass the keyword gate, so it draws nothing
  (`Charts.HistAloneDrawsNothing`).

## Left out

- The text generator, transcription, sqlite and `run_sql` are outside the
  model. A transcript and a query result are parameters, and the unescaping
  and date parsing functions are parameters too. `html.unescape` and
  `pd.to_datetime` are library code.
- The drawing is not modelled: axes, titles, labels, `autopct`,
  `tight_layout` and `st.pyplot`. A chart is the branch chosen and the data it
  plots.
- Numbers are integers. Floating-point values, NaN arithmetic and the float
  promotion of integer columns holding NULLs are not modelled (NULLs are
  allowed in numeric columns).
- Case folding covers ASCII only. `str.lower`/`str.upper` on other Unicode
  letters, and the `(?i)` matching of non-ASCII letters, are not modelled.
  `\s` is the ASCII whitespace set plus the separators `\x1c`–`\x1f`; Unicode
  spaces are not included.
- Text.IsWordChar: `\w` is ASCII letters, digits and `_`. Python 3 matches
  every Unicode letter and digit there (`é`, say), so `\b` in
  `Qualification.MatchHere` is also ASCII only. The model qualifies an
  alias followed by a non-ASCII letter (`FROM coin_bitcoiné`), and a
  keyword preceded by one (`éFROM coin_bitcoin`). The code does neither.
- Text.Strip: `str.strip()` also removes Unicode whitespace such as `\xa0`
  and `\x85`; the model removes only the ASCII set above.
- Results with duplicate column names are excluded (`Tables.Shaped`), since
  `df['x']` then returns a frame.
- Grouping.CellLess orders mixed key types as numbers, then times, then
  strings. For numbers and strings this is what pandas does (its mixed sort
  puts numbers first). Numbers mixed with times would raise `TypeError` in
  pandas. sqlite returns no time values, so times only appear in the
  converted `Date` column, which is never a group key. The model's `Cell`
  type does allow times in a raw result; there they are simply ordered.
- Errors `ax.pie` raises on negative or NULL values are not modelled.
- `Plotting.Frame.DropUndated`: `df_plot = df_plot.dropna(...)` rebinds the
  name to a new frame. The model returns a fresh `Frame`, and no alias of the
  old frame is observed.
- `app_ip.py` calls `core.generate_sql`, which core.py does not define, and
  uses the tuple returned by `run_sql` as a frame. The classifier is modelled
  as if `df_plot` were the result frame.
- app_movie.py repeats the statements of app.py line for line, and the same
  members model both; the table cites app.py for them.
- The `glob`, `read_csv`, `to_sql` and printing parts of create_coins.py are
  I/O. Only the naming is modelled.
