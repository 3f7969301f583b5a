/**
 * The classifier as the front ends run it. The line branch works on the
 * frame step by step: it overwrites the date column in place, keeps the rows
 * whose date converted, and then loops over the sources, one line per
 * source (app.py:128-136, app_movie.py:202-210, stream.py:124-134,
 * app_ip.py:56-61).
 */
module Plotting {
  import opened Text
  import opened Options
  import opened Tables
  import opened Grouping
  import opened Charts

  /** `pd.to_datetime(cell, errors='coerce')`: the parsed time, or NaT, a NULL, where the cell does not parse. */
  function ToDatetime(c: Cell, parse: Cell -> Option<int>): (r: Cell)
    ensures r.Null? <==> parse(c).None?
    ensures r.Stamp? <==> parse(c).Some?
    ensures r.Stamp? ==> r.t == parse(c).value
  {
    match parse(c)
    case None => Null
    case Some(t) => Stamp(t)
  }

  /** The rows after the conversion of column `d`. */
  function Coerced(rows: seq<seq<Cell>>, d: nat, parse: Cell -> Option<int>): (out: seq<seq<Cell>>)
    requires forall r :: r in rows ==> d < |r|
    ensures |out| == |rows|
    ensures forall i :: 0 <= i < |rows| ==> out[i] == rows[i][d := ToDatetime(rows[i][d], parse)]
    ensures forall r :: r in out ==> d < |r|
  {
    var out := seq(|rows|, i requires 0 <= i < |rows| => rows[i][d := ToDatetime(rows[i][d], parse)]);
    assert forall i :: 0 <= i < |out| ==> d < |out[i]|;
    out
  }

  /** `dropna(subset=[column d])`: the rows whose cell `d` is not NULL, in order. */
  function DropNull(rows: seq<seq<Cell>>, d: nat): (kept: seq<seq<Cell>>)
    requires forall r :: r in rows ==> d < |r|
    ensures forall r: seq<Cell> :: r in kept ==> r in rows && !r[d].Null?
    decreases |rows|
  {
    if rows == [] then []
    else
      var r := rows[|rows| - 1];
      DropNull(rows[..|rows| - 1], d) + (if r[d].Null? then [] else [r])
  }

  /** Converting the dates and then dropping the NaT rows keeps exactly the rows whose date parses, converted. */
  lemma {:induction false} CoerceThenDrop(rows: seq<seq<Cell>>, d: nat, parse: Cell -> Option<int>)
    requires forall r :: r in rows ==> d < |r|
    ensures DropNull(Coerced(rows, d, parse), d) == ParseDates(rows, d, parse)
    decreases |rows|
  {
    if rows != [] {
      var n := |rows| - 1;
      var cs := Coerced(rows, d, parse);
      CoerceThenDrop(rows[..n], d, parse);
      assert cs[..n] == Coerced(rows[..n], d, parse);
      var r := rows[n];
      assert cs[n] == r[d := ToDatetime(r[d], parse)];
      assert DropNull(cs, d) == DropNull(cs[..n], d) + (if cs[n][d].Null? then [] else [cs[n]]);
      assert ParseDates(rows, d, parse) == ParseDates(rows[..n], d, parse) + (if parse(r[d]).None? then [] else [r[d := Stamp(parse(r[d]).value)]]);
    }
  }

  /** The part of a pandas frame the plotting code changes. */
  class Frame {
    var columns: seq<String>
    var rows: seq<seq<Cell>>

    /** `pd.DataFrame(rows, columns=cols)` */
    constructor (t: Table)
      ensures columns == t.columns && rows == t.rows
    {
      columns := t.columns;
      rows := t.rows;
    }

    /** `df_plot['Date'] = pd.to_datetime(df_plot['Date'], errors='coerce')`, with the column at position `d`. */
    method ConvertColumn(d: nat, parse: Cell -> Option<int>)
      requires forall r :: r in rows ==> d < |r|
      modifies this
      ensures columns == old(columns)
      ensures rows == Coerced(old(rows), d, parse)
    {
      var i := 0;
      while i < |rows|
        invariant 0 <= i <= |rows| == |old(rows)|
        invariant columns == old(columns)
        invariant forall k :: 0 <= k < i ==> rows[k] == old(rows)[k][d := ToDatetime(old(rows)[k][d], parse)]
        invariant forall k :: i <= k < |rows| ==> rows[k] == old(rows)[k]
      {
        rows := rows[i := rows[i][d := ToDatetime(rows[i][d], parse)]];
        i := i + 1;
      }
    }

    /** `df_plot.dropna(subset=['Date'])`: a new frame without the rows whose cell `d` is NULL. */
    method DropUndated(d: nat) returns (f: Frame)
      requires forall r :: r in rows ==> d < |r|
      ensures fresh(f)
      ensures f.columns == columns && f.rows == DropNull(rows, d)
    {
      var kept: seq<seq<Cell>> := [];
      for i := 0 to |rows|
        invariant kept == DropNull(rows[..i], d)
      {
        assert rows[..i + 1][..i] == rows[..i];
        if !rows[i][d].Null? {
          kept := kept + [rows[i]];
        }
      }
      assert rows[..|rows|] == rows;
      f := new Frame(Table(columns, kept));
    }
  }

  /**
   * The line branch: the date column is converted and the undated rows
   * dropped, then each source gets a line of its rows.
   */
  method LinePlot(fe: FrontEnd, t: Table, parse: Cell -> Option<int>) returns (c: Chart)
    requires Shaped(t) && "Date" in t.columns
    ensures c == LineChart(fe, t, parse)
  {
    var frame := DatedFrame(t, parse);
    if "Source" !in frame.columns {
      return Failed(KeyError);
    }
    c := PlotSources(fe, t, frame.rows);
  }

  /** The frame after the date conversion and the `dropna`. */
  method DatedFrame(t: Table, parse: Cell -> Option<int>) returns (frame: Frame)
    requires Shaped(t) && "Date" in t.columns
    ensures fresh(frame)
    ensures frame.columns == t.columns && frame.rows == Dated(t, parse)
  {
    var d := IndexOf(t.columns, "Date");
    frame := new Frame(t);
    frame.ConvertColumn(d, parse);
    CoerceThenDrop(t.rows, d, parse);
    frame := frame.DropUndated(d);
  }

  /**
   * The loop over the sources. `ycol` is assigned inside the loop; the
   * upload front end reads it after the loop.
   */
  method PlotSources(fe: FrontEnd, t: Table, rows: seq<seq<Cell>>) returns (c: Chart)
    requires Shaped(t) && "Date" in t.columns && "Source" in t.columns
    requires forall r :: r in rows ==> |r| == |t.columns|
    ensures c == SourceLines(fe, t, rows)
  {
    var d, s := IndexOf(t.columns, "Date"), IndexOf(t.columns, "Source");
    var sources := Labels(fe, Column(rows, s));
    var num := NumCols(t);
    var ycol: Option<String> := None;
    var series: seq<Series> := [];
    for i := 0 to |sources|
      invariant ycol == if i == 0 then None else Some(YColumn(num))
      invariant i > 0 ==> YColumn(num) in t.columns && series == LineSeries(rows, sources[..i], d, s, IndexOf(t.columns, YColumn(num)))
      invariant i == 0 ==> series == []
    {
      var y := YColumn(num);
      if y !in t.columns {
        return Failed(KeyError);
      }
      ycol := Some(y);
      LineSeriesStep(rows, sources, i, d, s, IndexOf(t.columns, y));
      series := series + [Series(sources[i], PointsOf(rows, d, s, IndexOf(t.columns, y), sources[i]))];
    }
    if sources != [] {
      LineSeriesAll(rows, sources, d, s, IndexOf(t.columns, YColumn(num)));
    }
    if fe.Uploader? && ycol.None? {
      return Failed(NameError);
    }
    c := Line(YColumn(num), series);
  }

  /** One more source adds its series at the end. */
  lemma LineSeriesStep(rows: seq<seq<Cell>>, srcs: seq<Cell>, i: nat, d: nat, s: nat, y: nat)
    requires forall r :: r in rows ==> d < |r| && s < |r| && y < |r|
    requires i < |srcs|
    ensures LineSeries(rows, srcs[..i + 1], d, s, y) == LineSeries(rows, srcs[..i], d, s, y) + [Series(srcs[i], PointsOf(rows, d, s, y, srcs[i]))]
  {
    assert srcs[..i + 1] == srcs[..i] + [srcs[i]];
  }

  lemma LineSeriesAll(rows: seq<seq<Cell>>, srcs: seq<Cell>, d: nat, s: nat, y: nat)
    requires forall r :: r in rows ==> d < |r| && s < |r| && y < |r|
    ensures LineSeries(rows, srcs[..|srcs|], d, s, y) == LineSeries(rows, srcs, d, s, y)
  {
    assert srcs[..|srcs|] == srcs;
  }

  /** The whole chart step: the keyword gate, then the if/elif chain over the chart kinds. */
  method Plot(fe: FrontEnd, q: String, t: Table, parse: Cell -> Option<int>) returns (c: Chart)
    requires Shaped(t)
    ensures c == Classify(fe, q, t, parse)
  {
    var rq := RequestOf(q);
    if !rq.chart {
      return NoChart;
    }
    var num, cat := NumCols(t), CatCols(t);
    if rq.pie && num != [] && cat != [] {
      c := Pie(num[0], cat[0]);
    } else if rq.hist {
      c := HistogramChart(fe, t);
    } else if rq.bar {
      c := BarChart(fe, t);
    } else if "Date" in t.columns {
      c := LinePlot(fe, t, parse);
    } else if fe.Widget? {
      c := BlankFigure;
    } else {
      c := Warning(NoDateColumn);
    }
  }
}
