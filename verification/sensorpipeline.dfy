/** The pieces of the two sensor pipelines that are plain table logic: the
    cell rewriters handed to `modifyColumn` and `trimPartiallyEmpty`. The
    regular-expression and floating-point work they call is taken as given
    functions (`Numerics`). */
module SensorPipeline {
  import opened Wrappers
  import opened Faults
  import opened RowCodec
  import opened ColumnTransform

  /** The collaborators the rewriters call and the model does not define. */
  datatype Numerics = Numerics(
    /** Finding the clock pattern `hh:mm:ss:f` in a cell and printing its
        seconds with `Double.toString`; `None` when the pattern is not found. */
    clockSeconds: string -> Option<string>,
    /** `Double.parseDouble`; `None` where it throws NumberFormatException. */
    parseDouble: string -> Option<real>,
    /** `String.format("%.1f", x)` */
    tenths: real -> string,
    /** `Double.toString(value - start)` */
    elapsed: (real, real) -> string)

  // ---------------------------------------------------------------------
  // timeToSeconds
  // ---------------------------------------------------------------------

  /** `Main_SensorDataProcessor.timeToSeconds`: clock text becomes seconds, a
      plain number is rounded to tenths, anything else is kept as it is. It
      never answers empty, so it never deletes a cell. */
  function TimeToSeconds(n: Numerics, cell: string): (r: Option<string>)
    ensures r.Some?
    ensures n.clockSeconds(cell).Some? ==> r == n.clockSeconds(cell)
    ensures n.clockSeconds(cell).None? && n.parseDouble(cell).Some? ==> r == Some(n.tenths(n.parseDouble(cell).value))
    ensures n.clockSeconds(cell).None? && n.parseDouble(cell).None? ==> r == Some(cell)
  {
    match n.clockSeconds(cell)
    case Some(seconds) => Some(seconds)
    case None =>
      match n.parseDouble(cell)
      case Some(x) => Some(n.tenths(x))
      case None => Some(cell)
  }

  /** `SensorDataProcessor.timeToSeconds`: without the clock pattern the cell
      comes back unchanged. */
  function TimeToSecondsLegacy(n: Numerics, cell: string): (r: Option<string>)
    ensures r.Some?
    ensures n.clockSeconds(cell).None? ==> r == Some(cell)
    ensures n.clockSeconds(cell).Some? ==> r == n.clockSeconds(cell)
  {
    match n.clockSeconds(cell)
    case Some(seconds) => Some(seconds)
    case None => Some(cell)
  }

  /** The two versions disagree only on cells that hold a plain number. */
  lemma TimeToSecondsVersions(n: Numerics, cell: string)
    ensures TimeToSeconds(n, cell) != TimeToSecondsLegacy(n, cell) ==>
      n.clockSeconds(cell).None? && n.parseDouble(cell).Some?
  {
  }

  /** The `dateResolve` lambda of `processAccGyrMagData`. */
  function DateResolve(n: Numerics): (r: Modifier<()>)
  {
    Lift((cell: string, sep: string) => TimeToSeconds(n, cell))
  }

  /** `dateResolve` on column A keeps every line's cells, rewriting only the
      first: column A is never deleted. */
  lemma DateResolveKeepsColumns(n: Numerics, lines: seq<string>, sep: Separator)
    ensures ModifyColumn(lines, 'A', DateResolve(n), sep, ()).Ok?
    ensures var out := ModifyColumn(lines, 'A', DateResolve(n), sep, ()).value;
      forall k :: 0 <= k < |lines| ==>
        var cells := Split(lines[k], sep);
        out[k] == if |cells| == 0 then "" else Terminated([TimeToSeconds(n, cells[0]).value] + cells[1..], sep)
  {
    var f := (cell: string, sep: string) => TimeToSeconds(n, cell);
    StatelessLineByLine(lines, 0, f, sep);
    forall k | 0 <= k < |lines|
      ensures var cells := Split(lines[k], sep);
        RewriteLine(lines[k], 0, Lift(f), sep, ()).value.1 ==
          if |cells| == 0 then "" else Terminated([TimeToSeconds(n, cells[0]).value] + cells[1..], sep)
    {
      var cells := Split(lines[k], sep);
      if |cells| == 0 {
        ShortLinePassesThrough(lines[k], 0, Lift(f), sep, ());
      } else {
        KeptCellReplaced(lines[k], 0, Lift(f), sep, (), (), TimeToSeconds(n, cells[0]).value);
        assert cells[..0] == [];
      }
    }
  }

  // ---------------------------------------------------------------------
  // TimeElapser
  // ---------------------------------------------------------------------

  /** `[\-\.0-9]+` matched against the whole cell. */
  predicate NumericText(cell: string) {
    |cell| > 0 && forall k :: 0 <= k < |cell| ==> cell[k] in "-.0123456789"
  }

  /** The elapser's initial `start`. */
  const ElapserStart: real := -1.0

  /** `TimeElapser.apply`: a non-numeric cell (the header) becomes the two
      column titles; a numeric cell becomes itself and its time since
      `start`, where `start` is taken from the cell while it is still
      negative. A cell that looks numeric but does not parse ("-", ".")
      throws. The cell is never deleted. */
  function ElapseStep(n: Numerics, start: real, cell: string, sep: string): (r: Result<Applied<real>, Fault>)
    ensures r.Err? <==> NumericText(cell) && n.parseDouble(cell).None?
    ensures r.Err? ==> r.error == NumberFormat(cell)
    ensures r.Ok? ==> r.value.cell.Some?
    ensures !NumericText(cell) ==> r == Ok(Applied(start, Some("Clock Time (s)" + sep + "Elapsed Time (s)")))
    ensures r.Ok? && NumericText(cell) ==>
      var v := n.parseDouble(cell).value;
      && r.value.state == (if start < 0.0 then v else start)
      && r.value.cell == Some(cell + sep + n.elapsed(v, r.value.state))
  {
    if !NumericText(cell) then Ok(Applied(start, Some("Clock Time (s)" + sep + "Elapsed Time (s)")))
    else
      match n.parseDouble(cell)
      case None => Err(NumberFormat(cell))
      case Some(v) =>
        var s := if start < 0.0 then v else start;
        Ok(Applied(s, Some(cell + sep + n.elapsed(v, s))))
  }

  function TimeElapser(n: Numerics): (m: Modifier<real>)
  {
    (start: real, cell: string, sep: string) => ElapseStep(n, start, cell, sep)
  }

  /** On column A the elapser turns one cell into two and copies the rest:
      the header line gains the two titles, a data line its clock time and
      elapsed time. */
  lemma ElapserSplitsFirstCell(n: Numerics, line: string, sep: Separator, start: real)
    requires |Split(line, sep)| > 0
    requires ElapseStep(n, start, Split(line, sep)[0], sep).Ok?
    ensures var cells := Split(line, sep);
      var a := ElapseStep(n, start, cells[0], sep).value;
      RewriteLine(line, 0, TimeElapser(n), sep, start) == Ok((a.state, Terminated([a.cell.value] + cells[1..], sep)))
  {
    var cells := Split(line, sep);
    var a := ElapseStep(n, start, cells[0], sep).value;
    KeptCellReplaced(line, 0, TimeElapser(n), sep, start, a.state, a.cell.value);
    assert cells[..0] == [];
  }

  /** One line through the elapser on column A, whatever the outcome: a line
      with no cell is written empty and leaves `start` alone; otherwise the
      first cell's step decides, failing with its fault or splitting the cell
      in two. */
  lemma ElapserLine(n: Numerics, line: string, sep: Separator, start: real)
    ensures var cells := Split(line, sep);
      var r := RewriteLine(line, 0, TimeElapser(n), sep, start);
      && (|cells| == 0 ==> r == Ok((start, "")))
      && (|cells| > 0 ==>
            match ElapseStep(n, start, cells[0], sep)
            case Err(e) => r == Err(e)
            case Ok(a) => r == Ok((a.state, Terminated([a.cell.value] + cells[1..], sep))))
  {
    var cells := Split(line, sep);
    if |cells| == 0 {
      ShortLinePassesThrough(line, 0, TimeElapser(n), sep, start);
    } else if ElapseStep(n, start, cells[0], sep).Ok? {
      ElapserSplitsFirstCell(n, line, sep, start);
    } else {
      RewriteLineMatchesSpec(line, 0, TimeElapser(n), sep, start);
      assert cells[0..] == cells;
    }
  }

  /** `modifyColumn` with a fresh elapser over a whole table: line `k` is
      rewritten with the `start` the lines before it leave, its first cell
      split into itself and its elapsed time (or the two titles), the rest
      copied. */
  lemma ElapsedTable(n: Numerics, lines: seq<string>, sep: Separator, k: nat)
    requires k < |lines|
    requires ModifyColumn(lines, 'A', TimeElapser(n), sep, ElapserStart).Ok?
    ensures var pre := RewriteLines(lines[..k], 0, TimeElapser(n), sep, ElapserStart);
      var cells := Split(lines[k], sep);
      var out := ModifyColumn(lines, 'A', TimeElapser(n), sep, ElapserStart).value;
      && pre.Ok?
      && (|cells| == 0 ==> out[k] == "")
      && (|cells| > 0 ==>
            var a := ElapseStep(n, pre.value.0, cells[0], sep);
            a.Ok? && out[k] == Terminated([a.value.cell.value] + cells[1..], sep))
  {
    ThreadedLine(lines, 0, TimeElapser(n), sep, ElapserStart, k);
    var pre := RewriteLines(lines[..k], 0, TimeElapser(n), sep, ElapserStart);
    ElapserLine(n, lines[k], sep, pre.value.0);
  }

  /** A fresh elapser over a whole table fails only with the
      NumberFormatException of a cell that looks numeric and does not parse
      (`FirstFailingLine` says which line raises it). */
  lemma ElapsedTableFault(n: Numerics, lines: seq<string>, sep: Separator)
    requires ModifyColumn(lines, 'A', TimeElapser(n), sep, ElapserStart).Err?
    ensures var e := ModifyColumn(lines, 'A', TimeElapser(n), sep, ElapserStart).error;
      e.NumberFormat? && NumericText(e.text) && n.parseDouble(e.text).None?
  {
    var k := FirstFailingLine(lines, 0, TimeElapser(n), sep, ElapserStart);
    var pre := RewriteLines(lines[..k], 0, TimeElapser(n), sep, ElapserStart);
    ElapserLine(n, lines[k], sep, pre.value.0);
  }

  // ---------------------------------------------------------------------
  // trimPartiallyEmpty
  // ---------------------------------------------------------------------

  /** A line with no empty cell inside: it does not contain `sep + sep`. */
  predicate Clean(line: string, sep: string) {
    !Contains(line, sep + sep)
  }

  /** First index from `from` on whose line is clean, -1 if none. */
  function FirstClean(lines: seq<string>, sep: string, from: nat): (r: int)
    decreases |lines| - from
    ensures r == -1 <==> forall k :: from <= k < |lines| ==> !Clean(lines[k], sep)
    ensures r != -1 ==> from <= r < |lines| && Clean(lines[r], sep)
    ensures r != -1 ==> forall k :: from <= k < r ==> !Clean(lines[k], sep)
  {
    if from >= |lines| then -1
    else if Clean(lines[from], sep) then from
    else FirstClean(lines, sep, from + 1)
  }

  /** Last index below `upto` whose line is clean, -1 if none. */
  function LastClean(lines: seq<string>, sep: string, upto: nat): (r: int)
    requires upto <= |lines|
    ensures r == -1 <==> forall k :: 0 <= k < upto ==> !Clean(lines[k], sep)
    ensures r != -1 ==> 0 <= r < upto && Clean(lines[r], sep)
    ensures r != -1 ==> forall k :: r < k < upto ==> !Clean(lines[k], sep)
  {
    if upto == 0 then -1
    else if Clean(lines[upto - 1], sep) then upto - 1
    else LastClean(lines, sep, upto - 1)
  }

  /** `start`: the first clean data line (header excluded). */
  function Start(lines: seq<string>, sep: string): (r: int)
  {
    FirstClean(lines, sep, 1)
  }

  /** `end`: the last clean line, header included. */
  function End(lines: seq<string>, sep: string): (r: int)
  {
    LastClean(lines, sep, |lines|)
  }

  /** `Main_SensorDataProcessor.trimPartiallyEmpty` on the file's lines: the
      header, then the lines from `start` up to but excluding `end`; only
      the header when no data line is clean. An empty file throws. */
  function TrimPartiallyEmpty(lines: seq<string>, sep: string): (r: Result<seq<string>, Fault>)
    ensures r.Err? <==> |lines| == 0
    ensures r.Ok? ==> 1 <= |r.value| <= |lines| && r.value[0] == lines[0]
  {
    if |lines| == 0 then Err(IndexOutOfBounds)
    else
      var start := Start(lines, sep);
      var end := End(lines, sep);
      if start > -1 && end > -1 then Ok([lines[0]] + lines[start..end]) else Ok([lines[0]])
  }

  /** `SensorDataProcessor.trimPartiallyEmpty`: the same without the guard,
      so `subList(-1, end)` throws when no data line is clean. */
  function TrimPartiallyEmptyLegacy(lines: seq<string>, sep: string): (r: Result<seq<string>, Fault>)
    ensures r.Err? <==> |lines| == 0 || Start(lines, sep) == -1
  {
    if |lines| == 0 then Err(IndexOutOfBounds)
    else
      var start := Start(lines, sep);
      var end := End(lines, sep);
      if start < 0 then Err(IndexOutOfBounds) else Ok([lines[0]] + lines[start..end])
  }

  /** Whenever a clean data line exists, `start <= end`, so the guarded
      slice is always legal; the output starts with the header unchanged,
      continues with lines[start..end), interior lines holding `sep + sep`
      included, and is never longer than the input. */
  lemma TrimShape(lines: seq<string>, sep: string)
    requires |lines| > 0
    ensures Start(lines, sep) != -1 ==> 1 <= Start(lines, sep) <= End(lines, sep) < |lines|
    ensures var out := TrimPartiallyEmpty(lines, sep).value;
      && out[0] == lines[0]
      && |out| <= |lines|
      && (Start(lines, sep) != -1 ==> out == [lines[0]] + lines[Start(lines, sep)..End(lines, sep)])
  {
  }

  /** Without any clean data line the output is the header alone. */
  lemma TrimNoCleanData(lines: seq<string>, sep: string)
    requires |lines| > 0
    requires forall k :: 1 <= k < |lines| ==> !Clean(lines[k], sep)
    ensures TrimPartiallyEmpty(lines, sep) == Ok([lines[0]])
  {
  }

  /** The older copy computes the same output whenever a clean data line
      exists, and throws exactly when the guarded version falls back to the
      header alone. */
  lemma TrimVersionsAgree(lines: seq<string>, sep: string)
    requires |lines| > 0
    ensures Start(lines, sep) != -1 ==> TrimPartiallyEmptyLegacy(lines, sep) == TrimPartiallyEmpty(lines, sep)
    ensures Start(lines, sep) == -1 ==>
      TrimPartiallyEmptyLegacy(lines, sep) == Err(IndexOutOfBounds) && TrimPartiallyEmpty(lines, sep) == Ok([lines[0]])
  {
    if Start(lines, sep) != -1 {
      TrimShape(lines, sep);
    }
  }

  /** A three-character line with one separator in the middle is clean. */
  lemma ShortLineClean(line: string)
    requires |line| == 3 && line[0] != ',' && line[1] == ',' && line[2] != ','
    ensures Clean(line, ",")
  {
    forall j ensures !OccursAt(line, ",,", j) {
      if 0 <= j && j + 2 <= |line| {
        assert line[j..j + 2] == [line[j], line[j + 1]];
        assert j == 0 || j == 1;
      }
    }
    ContainsIff(line, ",,");
  }

  /** As written, `subList(start, end)` leaves out the line at `end`, the
      last clean line: on a file whose data lines are all clean the last
      one is lost. */
  lemma TrimDropsLastClean()
    ensures TrimPartiallyEmpty(["h", "1,a", "2,b"], ",") == Ok(["h", "1,a"])
    ensures Clean("2,b", ",") && "2,b" !in TrimPartiallyEmpty(["h", "1,a", "2,b"], ",").value
  {
    var lines := ["h", "1,a", "2,b"];
    ShortLineClean("1,a");
    ShortLineClean("2,b");
    assert Start(lines, ",") == 1;
    assert End(lines, ",") == 2;
    assert TrimPartiallyEmpty(lines, ",") == Ok([lines[0]] + lines[1..2]);
    assert [lines[0]] + lines[1..2] == ["h", "1,a"];
  }

  /** The evidently intended trim: the header, then every line from the
      first clean data line through the last clean line inclusive. */
  function TrimInclusive(lines: seq<string>, sep: string): (r: Result<seq<string>, Fault>)
    ensures r.Err? <==> |lines| == 0
  {
    if |lines| == 0 then Err(IndexOutOfBounds)
    else
      var start := Start(lines, sep);
      var end := End(lines, sep);
      if start > -1 && end > -1 then Ok([lines[0]] + lines[start..end + 1]) else Ok([lines[0]])
  }

  /** The corrected trim loses no clean line and removes unclean lines only
      at the two ends: after the header comes the contiguous run of lines
      starting at the first clean data line, which begins and ends with a
      clean line and contains every clean data line. */
  lemma TrimInclusiveKeepsClean(lines: seq<string>, sep: string)
    requires |lines| > 0
    ensures var out := TrimInclusive(lines, sep).value;
      && out[0] == lines[0]
      && |out| <= |lines|
      && (forall k :: 1 <= k < |lines| && Clean(lines[k], sep) ==> lines[k] in out[1..])
      && (|out| > 1 ==> Clean(out[1], sep) && Clean(out[|out| - 1], sep))
      && (|out| > 1 ==> out[1..] == lines[Start(lines, sep)..Start(lines, sep) + |out| - 1])
  {
    var out := TrimInclusive(lines, sep).value;
    var s := Start(lines, sep);
    var e := End(lines, sep);
    if s != -1 {
      TrimShape(lines, sep);
      assert out[1..] == lines[s..e + 1];
      forall k | 1 <= k < |lines| && Clean(lines[k], sep)
        ensures lines[k] in out[1..]
      {
        CleanBetween(lines, sep, k);
        assert out[1..][k - s] == lines[k];
      }
    }
  }

  /** Every clean data line lies between `start` and `end`. */
  lemma CleanBetween(lines: seq<string>, sep: string, k: nat)
    requires 1 <= k < |lines| && Clean(lines[k], sep)
    ensures 1 <= Start(lines, sep) <= k <= End(lines, sep)
  {
  }
}
