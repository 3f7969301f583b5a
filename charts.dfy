/**
 * The chart the front ends draw for a question and its result: the keyword
 * gate, then pie, histogram, bar and line, first match wins (app.py:101-138,
 * app_movie.py:175-212, stream.py:97-134, app_ip.py:38-64). The drawing
 * itself is not modelled; a chart is the kind chosen and the data it plots.
 */
module Charts {
  import opened Text
  import opened Options
  import opened Tables
  import opened Grouping

  /**
   * The copies of the classifier: the recorder front ends (app.py,
   * app_movie.py), the upload front end (stream.py), whose line chart reads
   * the y column from a variable the loop assigns, and the widget front end
   * (app_ip.py), which has no guards and groups the line series with
   * `groupby`.
   */
  datatype FrontEnd = Recorder | Uploader | Widget

  /** The Python exceptions the classifier can raise. */
  datatype Failure = IndexError | KeyError | NameError

  datatype Point = Point(x: Cell, y: Cell)

  /** One line of the line chart: its source label and its points, in row order. */
  datatype Series = Series(source: Cell, points: seq<Point>)

  /** One bar: a group key and the sum of the value column over the rows of the group. */
  datatype Total = Total(key: Cell, sum: int)

  datatype Chart =
    | NoChart
    | Pie(values: String, labels: String)
    | Histogram(column: String, sample: seq<int>)
    | Bar(group: String, value: String, totals: seq<Total>)
    | Line(y: String, series: seq<Series>)
    | Warning(msg: String)
    | BlankFigure
    | Failed(error: Failure)

  const PlotKeywords: seq<String> := ["plot", "graph", "chart", "visualize", "line", "bar", "histogram", "pie"]

  const NoNumericHistogram: String := "No numeric column available for histogram."
  const NoNumericBar: String := "No numeric column available for bar chart."
  const NoDateColumn: String := "No 'Date' column for line chart."

  /**
   * `any(kw in question.lower() for kw in plot_kw)`. The words that pick the
   * pie, bar and histogram branches are plot keywords themselves.
   */
  predicate WantsChart(q: String)
    ensures Contains(Lower(q), "pie") || Contains(Lower(q), "bar") || Contains(Lower(q), "histogram") ==> WantsChart(q)
  {
    assert PlotKeywords[7] == "pie" && PlotKeywords[5] == "bar" && PlotKeywords[6] == "histogram";
    exists k :: 0 <= k < |PlotKeywords| && Contains(Lower(q), PlotKeywords[k])
  }

  /** The position of column `c` in the header. */
  function IndexOf(cols: seq<String>, c: String): (j: nat)
    requires c in cols
    ensures j < |cols| && cols[j] == c && c !in cols[..j]
  {
    if cols[0] == c then 0 else 1 + IndexOf(cols[1..], c)
  }

  /** `column.dropna()` on a numeric column: its numbers, in row order. */
  function Numbers(cells: seq<Cell>): (ns: seq<int>)
    ensures |ns| <= |cells|
    decreases |cells|
  {
    if cells == [] then []
    else Numbers(cells[..|cells| - 1]) + (if cells[|cells| - 1].Num? then [cells[|cells| - 1].n] else [])
  }

  /** The value a row adds to a sum: its number, or nothing for NULL. */
  function Weight(c: Cell): int {
    if c.Num? then c.n else 0
  }

  /** `df.groupby(grp)[val].sum()` for the group `key`: the sum of the numbers of column `v` over the rows whose column `g` is `key`. */
  function GroupSum(rows: seq<seq<Cell>>, g: nat, v: nat, key: Cell): (sum: int)
    requires forall r :: r in rows ==> g < |r| && v < |r|
    ensures (forall i :: 0 <= i < |rows| ==> rows[i][g] != key) ==> sum == 0
    decreases |rows|
  {
    if rows == [] then 0
    else
      var r := rows[|rows| - 1];
      GroupSum(rows[..|rows| - 1], g, v, key) + (if r[g] == key then Weight(r[v]) else 0)
  }

  /** The bars, in the order `groupby` gives the keys. */
  function BarTotals(rows: seq<seq<Cell>>, g: nat, v: nat): (ts: seq<Total>)
    requires forall r :: r in rows ==> g < |r| && v < |r|
    ensures |ts| == |GroupKeys(Column(rows, g))|
    ensures forall i :: 0 <= i < |ts| ==> ts[i] == Total(GroupKeys(Column(rows, g))[i], GroupSum(rows, g, v, GroupKeys(Column(rows, g))[i]))
  {
    var keys := GroupKeys(Column(rows, g));
    seq(|keys|, i requires 0 <= i < |keys| => Total(keys[i], GroupSum(rows, g, v, keys[i])))
  }

  /**
   * `pd.to_datetime(df['Date'], errors='coerce')` followed by
   * `dropna(subset=['Date'])`: the rows whose date cell `parse` accepts, in
   * order, with that cell replaced by the parsed time.
   */
  function ParseDates(rows: seq<seq<Cell>>, d: nat, parse: Cell -> Option<int>): (kept: seq<seq<Cell>>)
    requires forall r :: r in rows ==> d < |r|
    ensures |kept| <= |rows|
    ensures forall r: seq<Cell> :: r in kept ==> d < |r| && r[d].Stamp?
    decreases |rows|
  {
    if rows == [] then []
    else
      var r := rows[|rows| - 1];
      var front := ParseDates(rows[..|rows| - 1], d, parse);
      match parse(r[d])
      case None => front
      case Some(t) => front + [r[d := Stamp(t)]]
  }

  /** Dropping rows and converting a cell keeps the width of the rows. */
  lemma {:induction false} ParseDatesWidth(rows: seq<seq<Cell>>, d: nat, parse: Cell -> Option<int>, w: nat)
    requires forall r :: r in rows ==> |r| == w && d < w
    ensures forall r :: r in ParseDates(rows, d, parse) ==> |r| == w
    decreases |rows|
  {
    if rows != [] {
      ParseDatesWidth(rows[..|rows| - 1], d, parse, w);
    }
  }

  /** The rows the line chart plots from: those whose date parses, with the date converted. */
  function Dated(t: Table, parse: Cell -> Option<int>): (rows: seq<seq<Cell>>)
    requires Shaped(t) && "Date" in t.columns
    ensures |rows| <= |t.rows|
    ensures forall r :: r in rows ==> |r| == |t.columns|
  {
    ParseDatesWidth(t.rows, IndexOf(t.columns, "Date"), parse, |t.columns|);
    ParseDates(t.rows, IndexOf(t.columns, "Date"), parse)
  }

  /** `df['Source'] == src`: NULL equals nothing, not even NULL. */
  predicate SameKey(c: Cell, src: Cell) {
    !src.Null? && c == src
  }

  /** The points of the series for `src`: date and y value of every row whose source is `src`, in row order. */
  function PointsOf(rows: seq<seq<Cell>>, d: nat, s: nat, y: nat, src: Cell): (ps: seq<Point>)
    requires forall r :: r in rows ==> d < |r| && s < |r| && y < |r|
    ensures |ps| <= |rows|
    decreases |rows|
  {
    if rows == [] then []
    else
      var r := rows[|rows| - 1];
      PointsOf(rows[..|rows| - 1], d, s, y, src) + (if SameKey(r[s], src) then [Point(r[d], r[y])] else [])
  }

  /** One series per source label, in the order of the labels. */
  function LineSeries(rows: seq<seq<Cell>>, srcs: seq<Cell>, d: nat, s: nat, y: nat): (ss: seq<Series>)
    requires forall r :: r in rows ==> d < |r| && s < |r| && y < |r|
    ensures |ss| == |srcs|
    ensures forall i :: 0 <= i < |srcs| ==> ss[i] == Series(srcs[i], PointsOf(rows, d, s, y, srcs[i]))
  {
    seq(|srcs|, i requires 0 <= i < |srcs| => Series(srcs[i], PointsOf(rows, d, s, y, srcs[i])))
  }

  /**
   * The labels the line loop visits: `unique()` in the Streamlit copies, the
   * `groupby` keys in the widget copy. They come from the source column; the
   * Streamlit copies miss none of its values, the widget copy drops NULL.
   */
  function Labels(fe: FrontEnd, sources: seq<Cell>): (ls: seq<Cell>)
    ensures forall c :: c in ls ==> c in sources
    ensures fe.Widget? ==> forall c :: c in sources ==> (c in ls <==> !c.Null?)
    ensures !fe.Widget? ==> forall c :: c in sources ==> c in ls
  {
    if fe.Widget? then GroupKeys(sources) else Uniques(sources)
  }

  /** The y column of the line chart: the first numeric column, and `'Close'` only when there is none. */
  function YColumn(num: seq<String>): (y: String)
    ensures y in num || (num == [] && y == "Close")
    ensures num != [] ==> y == num[0]
  {
    if num != [] then num[0] else "Close"
  }

  /**
   * The line branch, on a result that has a `Date` column: lines, or
   * `KeyError`, or, in the upload front end only, `NameError`.
   */
  function LineChart(fe: FrontEnd, t: Table, parse: Cell -> Option<int>): (c: Chart)
    requires Shaped(t) && "Date" in t.columns
    ensures c.Line? || c == Failed(KeyError) || (c == Failed(NameError) && fe.Uploader?)
    ensures c.Line? && c.series != [] ==> c.y in t.columns
  {
    if "Source" !in t.columns then Failed(KeyError)
    else SourceLines(fe, t, Dated(t, parse))
  }

  /**
   * The loop over the sources of the dated rows: lines from a y column of
   * the result, each with no more points than there are dated rows.
   */
  function SourceLines(fe: FrontEnd, t: Table, dated: seq<seq<Cell>>): (c: Chart)
    requires Shaped(t) && "Date" in t.columns && "Source" in t.columns
    requires forall r :: r in dated ==> |r| == |t.columns|
    ensures c.Line? || c == Failed(KeyError) || (c == Failed(NameError) && fe.Uploader?)
    ensures c.Line? && c.series != [] ==> c.y in t.columns
    ensures c.Line? ==> forall i :: 0 <= i < |c.series| ==> |c.series[i].points| <= |dated|
  {
    var d, s := IndexOf(t.columns, "Date"), IndexOf(t.columns, "Source");
    var srcs := Labels(fe, Column(dated, s));
    var ycol := YColumn(NumCols(t));
    if srcs != [] && ycol !in t.columns then Failed(KeyError)
    else if srcs == [] && fe.Uploader? then Failed(NameError)
    else if srcs == [] then Line(ycol, [])
    else Line(ycol, LineSeries(dated, srcs, d, s, IndexOf(t.columns, ycol)))
  }

  /** The group column of the bar chart, if the expression that picks it does not raise. */
  function BarGroup(t: Table): (g: Option<String>)
    requires Shaped(t)
    ensures g.Some? ==> g.value in t.columns
  {
    if "Source" in t.columns then Some("Source")
    else if CatCols(t) != [] then Some(CatCols(t)[0])
    else None
  }

  /**
   * The bar branch. `Series.plot.bar` on a series without rows (no row has
   * a group key) reads the position of its first bar and raises
   * `IndexError`.
   */
  function BarChart(fe: FrontEnd, t: Table): (c: Chart)
    requires Shaped(t)
    ensures c.Bar? || c == Failed(IndexError) || (c == Warning(NoNumericBar) && !fe.Widget?)
    ensures c.Bar? ==> c.group in t.columns && c.value in t.columns && c.totals != []
  {
    var num := NumCols(t);
    if num == [] && !fe.Widget? then Warning(NoNumericBar)
    else if BarGroup(t).None? || num == [] then Failed(IndexError)
    else
      var grp := BarGroup(t).value;
      var totals := BarTotals(t.rows, IndexOf(t.columns, grp), IndexOf(t.columns, num[0]));
      if totals == [] then Failed(IndexError) else Bar(grp, num[0], totals)
  }

  /** Some row has a group key, i.e. a non-NULL cell in the column the bar chart groups by. */
  predicate BarKeyed(t: Table)
    requires Shaped(t)
  {
    BarGroup(t).Some? && exists i :: 0 <= i < |t.rows| && !t.rows[i][IndexOf(t.columns, BarGroup(t).value)].Null?
  }

  /**
   * The histogram branch: a histogram of a column of the result, or the
   * warning of the guarded front ends, or the widget's `IndexError`.
   */
  function HistogramChart(fe: FrontEnd, t: Table): (c: Chart)
    requires Shaped(t)
    ensures c.Histogram? || (c == Failed(IndexError) && fe.Widget?) || (c == Warning(NoNumericHistogram) && !fe.Widget?)
    ensures c.Histogram? ==> c.column in t.columns && |c.sample| <= |t.rows|
  {
    var num := NumCols(t);
    if num != [] then
      Histogram(num[0], Numbers(Column(t.rows, IndexOf(t.columns, num[0]))))
    else if fe.Widget? then Failed(IndexError)
    else Warning(NoNumericHistogram)
  }

  /** What the classifier looks for in the lower-cased question. */
  datatype Request = Request(chart: bool, pie: bool, hist: bool, bar: bool)

  /** The flags of the question; a question asking for a pie or bars always passes the gate. */
  function RequestOf(q: String): (rq: Request)
    ensures rq.pie || rq.bar ==> rq.chart
    ensures rq.hist && !rq.chart ==> !Contains(Lower(q), "histogram")
  {
    var ql := Lower(q);
    Request(WantsChart(q), Contains(ql, "pie"), Contains(ql, "hist"), Contains(ql, "bar"))
  }

  /**
   * The if/elif chain, on what the question asks for. Each kind of chart is
   * drawn only when asked for, and an earlier branch wins over a later one.
   */
  function Decide(fe: FrontEnd, rq: Request, t: Table, parse: Cell -> Option<int>): (c: Chart)
    requires Shaped(t)
    ensures c == NoChart <==> !rq.chart
    ensures c.Pie? ==> rq.pie
    ensures c.Histogram? ==> rq.hist
    ensures c.Bar? ==> rq.bar && !rq.hist
    ensures c.Line? ==> "Date" in t.columns && !rq.hist && !rq.bar
  {
    if !rq.chart then NoChart
    else if rq.pie && NumCols(t) != [] && CatCols(t) != [] then Pie(NumCols(t)[0], CatCols(t)[0])
    else if rq.hist then HistogramChart(fe, t)
    else if rq.bar then BarChart(fe, t)
    else if "Date" in t.columns then LineChart(fe, t, parse)
    else if fe.Widget? then BlankFigure
    else Warning(NoDateColumn)
  }

  /** The whole classifier: each kind of chart needs its word in the lower-cased question. */
  function Classify(fe: FrontEnd, q: String, t: Table, parse: Cell -> Option<int>): (c: Chart)
    requires Shaped(t)
    ensures c != NoChart ==> WantsChart(q)
    ensures c.Pie? ==> Contains(Lower(q), "pie")
    ensures c.Histogram? ==> Contains(Lower(q), "hist")
    ensures c.Bar? ==> Contains(Lower(q), "bar")
  {
    Decide(fe, RequestOf(q), t, parse)
  }

  /* ---------- What the charts contain ---------- */

  /** The pie branch applies: a pie is asked for and there are both kinds of column. */
  predicate PieBranch(rq: Request, t: Table)
    requires Shaped(t)
  {
    rq.pie && NumCols(t) != [] && CatCols(t) != []
  }

  /** `c` names the leftmost numeric column. */
  predicate FirstNumeric(t: Table, c: String)
    requires Shaped(t)
  {
    exists j :: 0 <= j < |t.columns| && t.columns[j] == c && IsNumeric(t, j)
                && forall i :: 0 <= i < j ==> !IsNumeric(t, i)
  }

  /** `c` names the leftmost column that is not numeric. */
  predicate FirstOther(t: Table, c: String)
    requires Shaped(t)
  {
    exists j :: 0 <= j < |t.columns| && t.columns[j] == c && !IsNumeric(t, j)
                && forall i :: 0 <= i < j ==> IsNumeric(t, i)
  }

  /** `num_cols[0]` and `cat_cols[0]` exist exactly when a column of their kind does, and are the leftmost such columns. */
  lemma LeftmostColumns(t: Table)
    requires Shaped(t)
    ensures NumCols(t) != [] <==> exists j :: 0 <= j < |t.columns| && IsNumeric(t, j)
    ensures CatCols(t) != [] <==> exists j :: 0 <= j < |t.columns| && !IsNumeric(t, j)
    ensures NumCols(t) != [] ==> FirstNumeric(t, NumCols(t)[0])
    ensures CatCols(t) != [] ==> FirstOther(t, CatCols(t)[0])
  {
    NumLeftmost(t);
    CatLeftmost(t);
  }

  lemma NumLeftmost(t: Table)
    requires Shaped(t)
    ensures NumCols(t) != [] <==> exists j :: 0 <= j < |t.columns| && IsNumeric(t, j)
    ensures NumCols(t) != [] ==> FirstNumeric(t, NumCols(t)[0])
  {
    FirstNumericIsLeftmost(t, |t.columns|);
  }

  lemma CatLeftmost(t: Table)
    requires Shaped(t)
    ensures CatCols(t) != [] <==> exists j :: 0 <= j < |t.columns| && !IsNumeric(t, j)
    ensures CatCols(t) != [] ==> FirstOther(t, CatCols(t)[0])
  {
    WithoutFirst(t.columns, NumCols(t));
    NumColsMembers(t);
  }

  /** No chart is drawn without a plot keyword, and the pie comes first. */
  lemma DispatchGate(fe: FrontEnd, rq: Request, t: Table, parse: Cell -> Option<int>)
    requires Shaped(t)
    ensures var c := Decide(fe, rq, t, parse);
            (c == NoChart <==> !rq.chart)
            && (c.Pie? <==> rq.chart && PieBranch(rq, t))
            && (c.Pie? ==> c == Pie(NumCols(t)[0], CatCols(t)[0]))
  {
  }

  /** After the pie, the histogram, bar and line branches are tried in that order. */
  lemma DispatchBranches(fe: FrontEnd, rq: Request, t: Table, parse: Cell -> Option<int>)
    requires Shaped(t) && rq.chart && !PieBranch(rq, t)
    ensures var c := Decide(fe, rq, t, parse);
            (rq.hist ==> c == HistogramChart(fe, t))
            && (!rq.hist && rq.bar ==> c == BarChart(fe, t))
            && (!rq.hist && !rq.bar ==>
                  c == if "Date" in t.columns then LineChart(fe, t, parse)
                       else if fe.Widget? then BlankFigure else Warning(NoDateColumn))
  {
  }

  /** A chart, of whatever kind, is drawn exactly when the question names a plot keyword, in every front end. */
  lemma ChartOnlyWhenAsked(fe: FrontEnd, q: String, t: Table, parse: Cell -> Option<int>)
    requires Shaped(t)
    ensures Classify(fe, q, t, parse) != NoChart <==> WantsChart(q)
  {
    DispatchGate(fe, RequestOf(q), t, parse);
  }

  /** A text lacking a character of `p` does not contain `p`. */
  lemma Absent(s: String, p: String, c: char)
    requires c in p && c !in s
    ensures !Contains(s, p)
  {
    var k :| 0 <= k < |p| && p[k] == c;
    forall i | 0 <= i <= |s| ensures !OccursAt(s, p, i) {
      if i + |p| <= |s| {
        assert s[i..i + |p|][k] == s[i + k] != c;
      }
    }
  }

  /** `hist` is not a plot keyword (only `histogram` is), so a question saying only "hist" draws nothing. */
  lemma HistAloneDrawsNothing()
    ensures RequestOf("hist").hist && !RequestOf("hist").chart
  {
    var h := "hist";
    assert Lower(h) == h;
    assert OccursAt(h, "hist", 0);
    NoPlotKeyword();
  }

  lemma NoPlotKeyword()
    ensures forall k :: 0 <= k < |PlotKeywords| ==> !Contains("hist", PlotKeywords[k])
  {
    var h := "hist";
    forall k | 0 <= k < |PlotKeywords| ensures !Contains(h, PlotKeywords[k]) {
      var p := PlotKeywords[k];
      var c := if k == 6 then 'o' else p[0];
      assert c in p && c !in h;
      Absent(h, p, c);
    }
  }

  /**
   * A pie is drawn exactly when a pie is asked for and the result has a
   * numeric and a non-numeric column; it plots the leftmost numeric column,
   * labelled by the leftmost other column.
   */
  lemma PieContents(fe: FrontEnd, rq: Request, t: Table, parse: Cell -> Option<int>)
    requires Shaped(t)
    ensures Decide(fe, rq, t, parse).Pie? <==>
              rq.chart && rq.pie
              && (exists j :: 0 <= j < |t.columns| && IsNumeric(t, j))
              && (exists j :: 0 <= j < |t.columns| && !IsNumeric(t, j))
    ensures Decide(fe, rq, t, parse).Pie? ==>
              FirstNumeric(t, Decide(fe, rq, t, parse).values) && FirstOther(t, Decide(fe, rq, t, parse).labels)
  {
    DispatchGate(fe, rq, t, parse);
    LeftmostColumns(t);
  }

  /**
   * The histogram sample is the numbers of the column, in order: every
   * number of the column, and nothing else; more precisely, its `k`-th
   * element is the number in the `k`-th numeric cell, so each number occurs
   * as often as in the column.
   */
  lemma NumbersSpec(cells: seq<Cell>)
    ensures forall i :: 0 <= i < |cells| && cells[i].Num? ==> cells[i].n in Numbers(cells)
    ensures forall x :: x in Numbers(cells) ==> Num(x) in cells
    ensures MapsKept(Numbers(cells), cells, IsNumber, NumberOf)
  {
    NumbersInOrder(cells);
    NumbersMembers(cells);
  }

  lemma NumbersMembers(cells: seq<Cell>)
    ensures forall i :: 0 <= i < |cells| && cells[i].Num? ==> cells[i].n in Numbers(cells)
    ensures forall x :: x in Numbers(cells) ==> Num(x) in cells
  {
    NumbersInOrder(cells);
    var ns := Numbers(cells);
    MapsKeptMembers(ns, cells, IsNumber, NumberOf);
    forall i | 0 <= i < |cells| && cells[i].Num? ensures cells[i].n in ns {
      assert IsNumber(cells[i]) && NumberOf(cells[i]) == cells[i].n;
    }
    forall x | x in ns ensures Num(x) in cells {
      var i :| 0 <= i < |cells| && IsNumber(cells[i]) && x == NumberOf(cells[i]);
      assert cells[i] == Num(x);
    }
  }

  predicate IsNumber(c: Cell) {
    c.Num?
  }

  /** The number in a numeric cell. */
  function NumberOf(c: Cell): int {
    if c.Num? then c.n else 0
  }

  lemma {:induction false} NumbersInOrder(cells: seq<Cell>)
    ensures MapsKept(Numbers(cells), cells, IsNumber, NumberOf)
    decreases |cells|
  {
    if cells != [] {
      var n := |cells| - 1;
      NumbersInOrder(cells[..n]);
      MapsKeptSnoc(Numbers(cells[..n]), cells, IsNumber, NumberOf);
    }
  }

  /** The sample of a numeric column is not empty, and holds exactly the numbers of the column. */
  lemma NumericSample(t: Table, j: nat)
    requires Shaped(t) && j < |t.columns| && IsNumeric(t, j)
    ensures var col := Column(t.rows, j);
            Numbers(col) != []
            && (forall i :: 0 <= i < |col| && col[i].Num? ==> col[i].n in Numbers(col))
            && (forall x :: x in Numbers(col) ==> Num(x) in col)
  {
    var col := Column(t.rows, j);
    NumbersMembers(col);
    var i :| 0 <= i < |t.rows| && t.rows[i][j].Num?;
    assert col[i] == t.rows[i][j];
    assert col[i].n in Numbers(col);
  }

  /**
   * The histogram plots the leftmost numeric column; its sample is that
   * column without its NULLs, so it is never empty. Without a numeric column
   * the guarded front ends warn and the widget raises `IndexError`.
   */
  lemma HistogramContents(fe: FrontEnd, t: Table)
    requires Shaped(t)
    ensures HistogramChart(fe, t).Histogram? <==> exists j :: 0 <= j < |t.columns| && IsNumeric(t, j)
    ensures var c := HistogramChart(fe, t);
            c.Histogram? ==>
              FirstNumeric(t, c.column)
              && var col := Column(t.rows, IndexOf(t.columns, c.column));
                 c.sample == Numbers(col) && c.sample != []
                 && (forall i :: 0 <= i < |col| && col[i].Num? ==> col[i].n in c.sample)
                 && (forall x :: x in c.sample ==> Num(x) in col)
    ensures !HistogramChart(fe, t).Histogram? ==>
              HistogramChart(fe, t) == if fe.Widget? then Failed(IndexError) else Warning(NoNumericHistogram)
  {
    LeftmostColumns(t);
    Partition(t);
    if NumCols(t) != [] {
      NumericSample(t, IndexOf(t.columns, NumCols(t)[0]));
    }
  }

  /** The widget raises `IndexError` where the guarded front ends warn that there is no numeric column, and otherwise agrees with them. */
  lemma HistogramAcross(fe: FrontEnd, t: Table)
    requires Shaped(t) && !fe.Widget?
    ensures HistogramChart(Widget, t) == if NumCols(t) == [] then Failed(IndexError) else HistogramChart(fe, t)
    ensures HistogramChart(fe, t).Warning? <==> NumCols(t) == []
    ensures HistogramChart(fe, t).Warning? ==> HistogramChart(fe, t) == Warning(NoNumericHistogram)
  {
  }

  /** The same for the bar branch. */
  lemma BarAcross(fe: FrontEnd, t: Table)
    requires Shaped(t) && !fe.Widget?
    ensures BarChart(Widget, t) == if NumCols(t) == [] then Failed(IndexError) else BarChart(fe, t)
    ensures BarChart(fe, t).Warning? <==> NumCols(t) == []
    ensures BarChart(fe, t).Warning? ==> BarChart(fe, t) == Warning(NoNumericBar)
  {
  }

  /** The group keys of a list of bars. */
  function Keys(ts: seq<Total>): (ks: seq<Cell>)
    ensures |ks| == |ts| && forall i :: 0 <= i < |ts| ==> ks[i] == ts[i].key
  {
    seq(|ts|, i requires 0 <= i < |ts| => ts[i].key)
  }

  /** The height of all bars together. */
  function TotalsSum(ts: seq<Total>): int {
    if ts == [] then 0 else ts[0].sum + TotalsSum(ts[1..])
  }

  /** The sum of column `v` over the rows whose column `g` is not NULL: what `groupby(...).sum()` distributes over the bars. */
  function GroupedTotal(rows: seq<seq<Cell>>, g: nat, v: nat): int
    requires forall r :: r in rows ==> g < |r| && v < |r|
    decreases |rows|
  {
    if rows == [] then 0
    else
      var r := rows[|rows| - 1];
      GroupedTotal(rows[..|rows| - 1], g, v) + (if r[g].Null? then 0 else Weight(r[v]))
  }

  /** The group sums of the keys `ks`, added up. */
  function KeysSum(rows: seq<seq<Cell>>, g: nat, v: nat, ks: seq<Cell>): int
    requires forall r :: r in rows ==> g < |r| && v < |r|
  {
    if ks == [] then 0 else GroupSum(rows, g, v, ks[0]) + KeysSum(rows, g, v, ks[1..])
  }

  predicate Distinct(ks: seq<Cell>) {
    forall i, j :: 0 <= i < j < |ks| ==> ks[i] != ks[j]
  }

  /** One more row adds its value to the sums of distinct keys once, if its key is among them. */
  lemma {:induction false} KeysSumStep(rows: seq<seq<Cell>>, r: seq<Cell>, g: nat, v: nat, ks: seq<Cell>)
    requires forall x :: x in rows ==> g < |x| && v < |x|
    requires g < |r| && v < |r| && Distinct(ks)
    ensures forall x :: x in rows + [r] ==> g < |x| && v < |x|
    ensures KeysSum(rows + [r], g, v, ks) == KeysSum(rows, g, v, ks) + (if r[g] in ks then Weight(r[v]) else 0)
    decreases |ks|
  {
    assert forall x :: x in rows + [r] ==> x in rows || x == r;
    if ks != [] {
      assert (rows + [r])[..|rows|] == rows;
      assert GroupSum(rows + [r], g, v, ks[0]) == GroupSum(rows, g, v, ks[0]) + (if r[g] == ks[0] then Weight(r[v]) else 0);
      KeysSumStep(rows, r, g, v, ks[1..]);
      if r[g] == ks[0] {
        assert r[g] !in ks[1..];
      } else {
        assert r[g] in ks <==> r[g] in ks[1..];
      }
    }
  }

  /** Summing the groups of distinct non-NULL keys that cover every non-NULL key gives the grouped total. */
  lemma {:induction false} KeysSumCovers(rows: seq<seq<Cell>>, g: nat, v: nat, ks: seq<Cell>)
    requires forall x :: x in rows ==> g < |x| && v < |x|
    requires Distinct(ks) && forall k :: k in ks ==> !k.Null?
    requires forall i :: 0 <= i < |rows| && !rows[i][g].Null? ==> rows[i][g] in ks
    ensures KeysSum(rows, g, v, ks) == GroupedTotal(rows, g, v)
    decreases |rows|
  {
    if rows == [] {
      KeysSumEmpty(g, v, ks);
    } else {
      var n := |rows| - 1;
      var front, r := rows[..n], rows[n];
      assert forall i :: 0 <= i < n ==> front[i] == rows[i];
      KeysSumCovers(front, g, v, ks);
      assert front + [r] == rows;
      KeysSumStep(front, r, g, v, ks);
    }
  }

  lemma {:induction false} KeysSumEmpty(g: nat, v: nat, ks: seq<Cell>)
    ensures KeysSum([], g, v, ks) == 0
    decreases |ks|
  {
    if ks != [] {
      KeysSumEmpty(g, v, ks[1..]);
    }
  }

  /** The bars of the keys add up to the group sums of the keys. */
  lemma {:induction false} TotalsSumOfKeys(rows: seq<seq<Cell>>, g: nat, v: nat, ks: seq<Cell>, ts: seq<Total>)
    requires forall x :: x in rows ==> g < |x| && v < |x|
    requires |ts| == |ks| && forall i :: 0 <= i < |ts| ==> ts[i] == Total(ks[i], GroupSum(rows, g, v, ks[i]))
    ensures TotalsSum(ts) == KeysSum(rows, g, v, ks)
    decreases |ts|
  {
    if ts != [] {
      TotalsSumOfKeys(rows, g, v, ks[1..], ts[1..]);
    }
  }

  /** The bars of `groupby(g)[v].sum()` have the sorted distinct non-NULL keys of `g` and together hold the whole grouped total. */
  lemma BarTotalsSpec(rows: seq<seq<Cell>>, g: nat, v: nat)
    requires forall r :: r in rows ==> g < |r| && v < |r|
    ensures StrictlySorted(Keys(BarTotals(rows, g, v)))
    ensures forall c :: c in Keys(BarTotals(rows, g, v)) <==> c in Column(rows, g) && !c.Null?
    ensures TotalsSum(BarTotals(rows, g, v)) == GroupedTotal(rows, g, v)
  {
    var col := Column(rows, g);
    var ks := GroupKeys(col);
    SortedDistinct(ks);
    assert Keys(BarTotals(rows, g, v)) == ks;
    forall i | 0 <= i < |rows| && !rows[i][g].Null? ensures rows[i][g] in ks {
      assert col[i] == rows[i][g];
    }
    KeysSumCovers(rows, g, v, ks);
    TotalsSumOfKeys(rows, g, v, ks, BarTotals(rows, g, v));
  }

  /**
   * A bar chart is drawn when there is a numeric column, a column to group
   * by, and a row with a group key. Without a numeric column the guarded
   * front ends warn; `IndexError` is raised when there is no column to
   * group by or no row with a key, and in the widget front end when there
   * is no numeric column.
   */
  lemma BarContents(fe: FrontEnd, t: Table)
    requires Shaped(t)
    ensures BarChart(fe, t).Bar? <==>
              (exists j :: 0 <= j < |t.columns| && IsNumeric(t, j))
              && ("Source" in t.columns || exists j :: 0 <= j < |t.columns| && !IsNumeric(t, j))
              && BarKeyed(t)
    ensures !BarChart(fe, t).Bar? ==>
              BarChart(fe, t) == if NumCols(t) == [] && !fe.Widget? then Warning(NoNumericBar) else Failed(IndexError)
  {
    LeftmostColumns(t);
    BarShape(fe, t);
    if NumCols(t) != [] && BarGroup(t).Some? {
      var g := IndexOf(t.columns, BarGroup(t).value);
      BarTotalsEmpty(t.rows, g, IndexOf(t.columns, NumCols(t)[0]));
    }
  }

  /** There are no bars exactly when no row has a group key. */
  lemma BarTotalsEmpty(rows: seq<seq<Cell>>, g: nat, v: nat)
    requires forall r :: r in rows ==> g < |r| && v < |r|
    ensures BarTotals(rows, g, v) == [] <==> forall i :: 0 <= i < |rows| ==> rows[i][g].Null?
  {
    BarTotalsSpec(rows, g, v);
    var ks, col := Keys(BarTotals(rows, g, v)), Column(rows, g);
    if ks == [] {
      forall i | 0 <= i < |rows| ensures rows[i][g].Null? {
        assert col[i] == rows[i][g];
      }
    } else {
      assert ks[0] in col;
    }
  }

  /**
   * A bar chart groups by `Source` when there is such a column and by the
   * leftmost non-numeric column otherwise, and sums the leftmost numeric
   * column.
   */
  lemma BarColumns(fe: FrontEnd, t: Table)
    requires Shaped(t)
    ensures var b := BarChart(fe, t);
            b.Bar? ==>
              b.group in t.columns && b.value in t.columns && FirstNumeric(t, b.value)
              && (if "Source" in t.columns then b.group == "Source" else FirstOther(t, b.group))
              && b.totals == BarTotals(t.rows, IndexOf(t.columns, b.group), IndexOf(t.columns, b.value)) != []
  {
    BarShape(fe, t);
    LeftmostColumns(t);
    Partition(t);
  }

  /** A bar chart is `Bar(grp, num_cols[0], ...)`. */
  lemma BarShape(fe: FrontEnd, t: Table)
    requires Shaped(t)
    ensures BarChart(fe, t).Bar? <==>
              NumCols(t) != [] && BarGroup(t).Some?
              && BarTotals(t.rows, IndexOf(t.columns, BarGroup(t).value), IndexOf(t.columns, NumCols(t)[0])) != []
    ensures BarChart(fe, t).Bar? ==>
              BarGroup(t).value in t.columns && NumCols(t)[0] in t.columns
              && BarChart(fe, t) == Bar(BarGroup(t).value, NumCols(t)[0],
                                        BarTotals(t.rows, IndexOf(t.columns, BarGroup(t).value), IndexOf(t.columns, NumCols(t)[0])))
  {
    assert t.columns[..|t.columns|] == t.columns;
  }

  /**
   * The bars of a bar chart are the distinct non-NULL group keys in sorted
   * order, and together they hold the sum of the value column over every
   * row with a key.
   */
  lemma BarBars(fe: FrontEnd, t: Table)
    requires Shaped(t) && BarChart(fe, t).Bar?
    ensures var b := BarChart(fe, t);
            b.group in t.columns && b.value in t.columns
            && var g, v := IndexOf(t.columns, b.group), IndexOf(t.columns, b.value);
               b.totals != [] && StrictlySorted(Keys(b.totals))
               && (forall c :: c in Keys(b.totals) <==> c in Column(t.rows, g) && !c.Null?)
               && TotalsSum(b.totals) == GroupedTotal(t.rows, g, v)
  {
    var b := BarChart(fe, t);
    BarColumns(fe, t);
    BarTotalsSpec(t.rows, IndexOf(t.columns, b.group), IndexOf(t.columns, b.value));
  }

  /** A `NULL` source matches no row, so its series has no points. */
  lemma {:induction false} PointsOfNull(rows: seq<seq<Cell>>, d: nat, s: nat, y: nat)
    requires forall r :: r in rows ==> d < |r| && s < |r| && y < |r|
    ensures PointsOf(rows, d, s, y, Null) == []
    decreases |rows|
  {
    if rows != [] {
      PointsOfNull(rows[..|rows| - 1], d, s, y);
    }
  }

  /**
   * The points of a source are the date and y value of exactly the rows with
   * that source; more precisely, the `k`-th point comes from the `k`-th row
   * with that source, so the points keep the row order.
   */
  lemma PointsOfSpec(rows: seq<seq<Cell>>, d: nat, s: nat, y: nat, src: Cell)
    requires forall r :: r in rows ==> d < |r| && s < |r| && y < |r|
    ensures forall k :: 0 <= k < |rows| && SameKey(rows[k][s], src) ==> Point(rows[k][d], rows[k][y]) in PointsOf(rows, d, s, y, src)
    ensures forall p :: p in PointsOf(rows, d, s, y, src) ==>
              exists k :: 0 <= k < |rows| && SameKey(rows[k][s], src) && p == Point(rows[k][d], rows[k][y])
    ensures ExactPoints(rows, d, s, y, src, PointsOf(rows, d, s, y, src))
  {
    var keep, f := FromSource(s, src), PointOf(d, y);
    PointsInOrder(rows, d, s, y, src);
    MapsKeptMembers(PointsOf(rows, d, s, y, src), rows, keep, f);
    forall k | 0 <= k < |rows|
      ensures keep(rows[k]) <==> SameKey(rows[k][s], src)
      ensures f(rows[k]) == Point(rows[k][d], rows[k][y])
    {
      assert rows[k] in rows;
    }
  }

  /** The rows whose source is `src`. */
  function FromSource(s: nat, src: Cell): seq<Cell> -> bool {
    r => s < |r| && SameKey(r[s], src)
  }

  /** The point a row contributes: its date and its y value. */
  function PointOf(d: nat, y: nat): seq<Cell> -> Point {
    r => Point(if d < |r| then r[d] else Null, if y < |r| then r[y] else Null)
  }

  lemma {:induction false} PointsInOrder(rows: seq<seq<Cell>>, d: nat, s: nat, y: nat, src: Cell)
    requires forall r :: r in rows ==> d < |r| && s < |r| && y < |r|
    ensures ExactPoints(rows, d, s, y, src, PointsOf(rows, d, s, y, src))
    decreases |rows|
  {
    if rows != [] {
      var n := |rows| - 1;
      var front, r := rows[..n], rows[n];
      assert forall x :: x in front ==> x in rows;
      PointsInOrder(front, d, s, y, src);
      MapsKeptSnoc(PointsOf(front, d, s, y, src), rows, FromSource(s, src), PointOf(d, y));
      assert FromSource(s, src)(r) <==> SameKey(r[s], src);
      assert PointOf(d, y)(r) == Point(r[d], r[y]);
    }
  }

  /** The sources of the series, in order. */
  function Sources(ss: seq<Series>): (srcs: seq<Cell>)
    ensures |srcs| == |ss| && forall i :: 0 <= i < |ss| ==> srcs[i] == ss[i].source
  {
    seq(|ss|, i requires 0 <= i < |ss| => ss[i].source)
  }

  /**
   * A line chart needs a `Source` column; it plots the leftmost numeric
   * column, else `Close`, which must exist once there is a series. Its
   * series are one per source of the rows whose date parses: every value,
   * NULL included, in order of first appearance in the Streamlit front
   * ends; the non-NULL values in sorted order in the widget front end.
   */
  lemma LineSources(fe: FrontEnd, t: Table, parse: Cell -> Option<int>)
    requires Shaped(t) && "Date" in t.columns && LineChart(fe, t, parse).Line?
    ensures var c := LineChart(fe, t, parse);
            "Source" in t.columns && c.y == YColumn(NumCols(t)) && (c.series != [] ==> c.y in t.columns)
            && var srcs, col := Sources(c.series), Column(Dated(t, parse), IndexOf(t.columns, "Source"));
               (fe.Widget? ==> StrictlySorted(srcs) && forall x :: x in srcs <==> x in col && !x.Null?)
               && (!fe.Widget? ==>
                     (forall x :: x in srcs <==> x in col)
                     && (forall i, j :: 0 <= i < j < |srcs| ==> srcs[i] != srcs[j])
                     && (forall i, j :: 0 <= i < j < |srcs| ==> FirstIndex(col, srcs[i]) < FirstIndex(col, srcs[j])))
  {
    var c := LineChart(fe, t, parse);
    var col := Column(Dated(t, parse), IndexOf(t.columns, "Source"));
    assert Sources(c.series) == Labels(fe, col);
    if !fe.Widget? {
      UniquesSpec(col);
    }
  }

  /**
   * `points` are the date and y value of the rows whose source is `src`, in
   * row order: the `k`-th point comes from the `k`-th such row.
   */
  ghost predicate ExactPoints(rows: seq<seq<Cell>>, d: nat, s: nat, y: nat, src: Cell, points: seq<Point>) {
    MapsKept(points, rows, FromSource(s, src), PointOf(d, y))
  }

  /** The series of a source that occurs in the rows, or of NULL, has exactly its points, and is empty exactly for NULL. */
  lemma SeriesPoints(rows: seq<seq<Cell>>, d: nat, s: nat, y: nat, src: Cell)
    requires forall r :: r in rows ==> d < |r| && s < |r| && y < |r|
    requires src.Null? || src in Column(rows, s)
    ensures ExactPoints(rows, d, s, y, src, PointsOf(rows, d, s, y, src))
    ensures PointsOf(rows, d, s, y, src) == [] <==> src.Null?
  {
    PointsOfSpec(rows, d, s, y, src);
    if src.Null? {
      PointsOfNull(rows, d, s, y);
    } else {
      var col := Column(rows, s);
      var k :| 0 <= k < |col| && col[k] == src;
      assert Point(rows[k][d], rows[k][y]) in PointsOf(rows, d, s, y, src);
    }
  }

  /**
   * Each series of a line chart holds the date and y value of exactly the
   * rows, among those whose date parses, that have its source, in row
   * order; so a series
   * is empty exactly when its source is NULL, which only the Streamlit front
   * ends plot.
   */
  lemma LinePoints(fe: FrontEnd, t: Table, parse: Cell -> Option<int>)
    requires Shaped(t) && "Date" in t.columns && LineChart(fe, t, parse).Line?
    ensures var c := LineChart(fe, t, parse);
            "Source" in t.columns && (c.series != [] ==> c.y in t.columns)
            && var rows, d, s := Dated(t, parse), IndexOf(t.columns, "Date"), IndexOf(t.columns, "Source");
               forall i :: 0 <= i < |c.series| ==>
                 ExactPoints(rows, d, s, IndexOf(t.columns, c.y), c.series[i].source, c.series[i].points)
                 && (c.series[i].points == [] <==> c.series[i].source.Null?)
  {
    var c := LineChart(fe, t, parse);
    var rows, d, s := Dated(t, parse), IndexOf(t.columns, "Date"), IndexOf(t.columns, "Source");
    LineSources(fe, t, parse);
    forall i | 0 <= i < |c.series|
      ensures ExactPoints(rows, d, s, IndexOf(t.columns, c.y), c.series[i].source, c.series[i].points)
      ensures c.series[i].points == [] <==> c.series[i].source.Null?
    {
      assert Sources(c.series)[i] == c.series[i].source;
      SeriesPoints(rows, d, s, IndexOf(t.columns, c.y), c.series[i].source);
    }
  }

  /**
   * The rows whose date parses are kept, with the parsed time in their date
   * cell, and nothing else is; none is kept exactly when no date parses.
   * More precisely, the `k`-th kept row is the `k`-th row whose date parses,
   * converted: the rows keep their order and their multiplicity.
   */
  lemma ParseDatesSpec(rows: seq<seq<Cell>>, d: nat, parse: Cell -> Option<int>)
    requires forall r :: r in rows ==> d < |r|
    ensures forall k :: 0 <= k < |rows| && parse(rows[k][d]).Some? ==>
              rows[k][d := Stamp(parse(rows[k][d]).value)] in ParseDates(rows, d, parse)
    ensures forall r :: r in ParseDates(rows, d, parse) ==>
              exists k :: 0 <= k < |rows| && parse(rows[k][d]).Some? && r == rows[k][d := Stamp(parse(rows[k][d]).value)]
    ensures ParseDates(rows, d, parse) == [] <==> forall k :: 0 <= k < |rows| ==> parse(rows[k][d]).None?
    ensures MapsKept(ParseDates(rows, d, parse), rows, DateParses(d, parse), Converted(d, parse))
  {
    var keep, f := DateParses(d, parse), Converted(d, parse);
    ParseDatesInOrder(rows, d, parse);
    MapsKeptMembers(ParseDates(rows, d, parse), rows, keep, f);
    DateParsesRows(rows, d, parse);
  }

  /** On rows wide enough, the keep test and the conversion are the parse of the date cell. */
  lemma DateParsesRows(rows: seq<seq<Cell>>, d: nat, parse: Cell -> Option<int>)
    requires forall r :: r in rows ==> d < |r|
    ensures forall k :: 0 <= k < |rows| ==> (DateParses(d, parse)(rows[k]) <==> parse(rows[k][d]).Some?)
    ensures forall k :: 0 <= k < |rows| && parse(rows[k][d]).Some? ==>
              Converted(d, parse)(rows[k]) == rows[k][d := Stamp(parse(rows[k][d]).value)]
  {
    forall k | 0 <= k < |rows| ensures d < |rows[k]| {
      assert rows[k] in rows;
    }
  }

  /** The rows whose date cell parses; a row narrower than `d` has none. */
  function DateParses(d: nat, parse: Cell -> Option<int>): seq<Cell> -> bool {
    r => d < |r| && parse(r[d]).Some?
  }

  /** A row with the parsed time in its date cell, when the date parses. */
  function Converted(d: nat, parse: Cell -> Option<int>): seq<Cell> -> seq<Cell> {
    r => if d < |r| && parse(r[d]).Some? then r[d := Stamp(parse(r[d]).value)] else r
  }

  lemma {:induction false} ParseDatesInOrder(rows: seq<seq<Cell>>, d: nat, parse: Cell -> Option<int>)
    requires forall r :: r in rows ==> d < |r|
    ensures MapsKept(ParseDates(rows, d, parse), rows, DateParses(d, parse), Converted(d, parse))
    decreases |rows|
  {
    if rows != [] {
      var n := |rows| - 1;
      var front, r := rows[..n], rows[n];
      assert forall x :: x in front ==> x in rows;
      ParseDatesInOrder(front, d, parse);
      MapsKeptSnoc(ParseDates(front, d, parse), rows, DateParses(d, parse), Converted(d, parse));
      assert DateParses(d, parse)(r) <==> parse(r[d]).Some?;
    }
  }

  /**
   * The upload front end differs from the recorder front end only where it
   * reads `ycol` after a loop that never ran: it raises `NameError` exactly
   * where the recorder draws a line chart without series, which happens
   * exactly when no date of the result parses.
   */
  lemma UploaderDiffersWithoutDates(rq: Request, t: Table, parse: Cell -> Option<int>)
    requires Shaped(t)
    ensures Decide(Uploader, rq, t, parse) != Decide(Recorder, rq, t, parse) <==>
              Decide(Recorder, rq, t, parse).Line? && Decide(Recorder, rq, t, parse).series == []
    ensures Decide(Uploader, rq, t, parse) != Decide(Recorder, rq, t, parse) ==>
              Decide(Uploader, rq, t, parse) == Failed(NameError)
    ensures "Date" in t.columns && Decide(Recorder, rq, t, parse).Line? ==>
              (Decide(Recorder, rq, t, parse).series == [] <==> Dated(t, parse) == [])
  {
    if rq.chart && !PieBranch(rq, t) && !rq.hist && !rq.bar && "Date" in t.columns {
      DispatchBranches(Uploader, rq, t, parse);
      DispatchBranches(Recorder, rq, t, parse);
      UploaderLine(t, parse);
    } else {
      DispatchGate(Uploader, rq, t, parse);
      DispatchGate(Recorder, rq, t, parse);
      if rq.chart && !PieBranch(rq, t) {
        DispatchBranches(Uploader, rq, t, parse);
        DispatchBranches(Recorder, rq, t, parse);
      }
    }
  }

  /** The line branches of the upload and recorder front ends, which differ in where `ycol` is read. */
  lemma UploaderLine(t: Table, parse: Cell -> Option<int>)
    requires Shaped(t) && "Date" in t.columns
    ensures LineChart(Uploader, t, parse) != LineChart(Recorder, t, parse) <==>
              LineChart(Recorder, t, parse).Line? && LineChart(Recorder, t, parse).series == []
    ensures LineChart(Uploader, t, parse) != LineChart(Recorder, t, parse) ==> LineChart(Uploader, t, parse) == Failed(NameError)
    ensures LineChart(Recorder, t, parse).Line? ==> (LineChart(Recorder, t, parse).series == [] <==> Dated(t, parse) == [])
  {
    if "Source" in t.columns {
      SourceLinesUploader(t, Dated(t, parse));
    }
  }

  /** The loop over the sources of the upload front end differs from the recorder's only where there is no source. */
  lemma SourceLinesUploader(t: Table, dated: seq<seq<Cell>>)
    requires Shaped(t) && "Date" in t.columns && "Source" in t.columns
    requires forall r :: r in dated ==> |r| == |t.columns|
    ensures SourceLines(Uploader, t, dated) != SourceLines(Recorder, t, dated) <==>
              SourceLines(Recorder, t, dated).Line? && SourceLines(Recorder, t, dated).series == []
    ensures SourceLines(Uploader, t, dated) != SourceLines(Recorder, t, dated) ==>
              SourceLines(Uploader, t, dated) == Failed(NameError)
    ensures SourceLines(Recorder, t, dated).Line? ==> (SourceLines(Recorder, t, dated).series == [] <==> dated == [])
  {
    var col := Column(dated, IndexOf(t.columns, "Source"));
    if col != [] {
      assert col[0] in Uniques(col);
    }
  }

  /**
   * Where the guarded front ends warn, the widget front end, which has no
   * guards, raises (`IndexError` on `numeric_cols[0]`) or draws an empty
   * figure, and it never warns.
   */
  lemma WidgetRaisesWhereOthersWarn(fe: FrontEnd, rq: Request, t: Table, parse: Cell -> Option<int>)
    requires Shaped(t) && !fe.Widget?
    ensures !Decide(Widget, rq, t, parse).Warning?
    ensures Decide(fe, rq, t, parse) == Warning(NoNumericHistogram) ==> Decide(Widget, rq, t, parse) == Failed(IndexError)
    ensures Decide(fe, rq, t, parse) == Warning(NoNumericBar) ==> Decide(Widget, rq, t, parse) == Failed(IndexError)
    ensures Decide(fe, rq, t, parse) == Warning(NoDateColumn) ==> Decide(Widget, rq, t, parse) == BlankFigure
  {
    if rq.chart && !PieBranch(rq, t) {
      DispatchBranches(fe, rq, t, parse);
      DispatchBranches(Widget, rq, t, parse);
      if rq.hist {
        HistogramAcross(fe, t);
      } else if rq.bar {
        BarAcross(fe, t);
      }
    }
  }

  /** Outside the line branch and the warnings, the widget front end draws what the guarded front ends draw. */
  lemma WidgetAgrees(fe: FrontEnd, rq: Request, t: Table, parse: Cell -> Option<int>)
    requires Shaped(t) && !fe.Widget?
    ensures var c := Decide(fe, rq, t, parse);
            c == NoChart || c.Pie? || c.Histogram? || c.Bar? || c == Failed(IndexError) ==> Decide(Widget, rq, t, parse) == c
  {
    if !rq.chart || PieBranch(rq, t) {
      DispatchGate(fe, rq, t, parse);
      DispatchGate(Widget, rq, t, parse);
    } else {
      DispatchGate(fe, rq, t, parse);
      WidgetAgreesAfterPie(fe, rq, t, parse);
    }
  }

  lemma WidgetAgreesAfterPie(fe: FrontEnd, rq: Request, t: Table, parse: Cell -> Option<int>)
    requires Shaped(t) && !fe.Widget? && rq.chart && !PieBranch(rq, t)
    ensures var c := Decide(fe, rq, t, parse);
            c.Histogram? || c.Bar? || c == Failed(IndexError) ==> Decide(Widget, rq, t, parse) == c
  {
    DispatchBranches(fe, rq, t, parse);
    DispatchBranches(Widget, rq, t, parse);
    if rq.hist {
      HistogramAcross(fe, t);
    } else if rq.bar {
      BarAcross(fe, t);
    }
  }
}
