/** `modifyColumn`: one lettered column of every line rewritten through a
    modifier that returns a replacement cell or deletes the cell. */
module ColumnTransform {
  import opened Wrappers
  import opened Faults
  import opened RowCodec

  /** What a modifier makes of one cell: its next state, and the replacement
      cell or `None` to delete the cell. */
  datatype Applied<S> = Applied(state: S, cell: Option<string>)

  /** A modifier applied to (cell, separator). A stateful modifier such as the
      elapsed-time one threads its state `S` explicitly; an exception thrown
      inside it is `Err`. */
  type Modifier<!S> = (S, string, string) -> Result<Applied<S>, Fault>

  /** A stateless modifier that cannot fail, as every lambda of the source is. */
  function Lift(f: (string, string) -> Option<string>): (r: Modifier<()>)
  {
    (s: (), cell: string, sep: string) => Ok(Applied(s, f(cell, sep)))
  }

  /** `columnName - 'A'` */
  function ColumnIndex(columnName: char): (r: int)
  {
    columnName as int - 'A' as int
  }

  /** The inner loop of `modifyColumn` from cell `i` on: the modifier runs on
      the cell whose index is `column + woffset`; a deletion bumps `woffset`,
      every kept cell is followed by the separator. */
  function RewriteFrom<S>(cells: seq<string>, i: nat, column: int, woffset: nat,
                          m: Modifier<S>, sep: string, s: S): (r: Result<(S, string), Fault>)
    requires i <= |cells|
    decreases |cells| - i
  {
    if i == |cells| then Ok((s, ""))
    else if i == column + woffset then
      var a :- m(s, cells[i], sep);
      match a.cell
      case Some(v) =>
        var rest :- RewriteFrom(cells, i + 1, column, woffset, m, sep, a.state);
        Ok((rest.0, v + sep + rest.1))
      case None => RewriteFrom(cells, i + 1, column, woffset + 1, m, sep, a.state)
    else
      var rest :- RewriteFrom(cells, i + 1, column, woffset, m, sep, s);
      Ok((rest.0, cells[i] + sep + rest.1))
  }

  /** One line: split, then the loop from cell 0 with no offset. */
  function RewriteLine<S>(line: string, column: int, m: Modifier<S>, sep: Separator, s: S): (r: Result<(S, string), Fault>)
  {
    RewriteFrom(Split(line, sep), 0, column, 0, m, sep, s)
  }

  /** All lines in order, the modifier's state carried from line to line; the
      first failure ends the run. */
  function RewriteLines<S>(lines: seq<string>, column: int, m: Modifier<S>, sep: Separator, s: S): (r: Result<(S, seq<string>), Fault>)
    decreases |lines|
    ensures r.Ok? ==> |r.value.1| == |lines|
  {
    if |lines| == 0 then Ok((s, []))
    else
      var first :- RewriteLine(lines[0], column, m, sep, s);
      var rest :- RewriteLines(lines[1..], column, m, sep, first.0);
      Ok((rest.0, [first.1] + rest.1))
  }

  /** `modifyColumn(dir, in, out, columnName, modifier, separator)` with the
      file read and write replaced by the line sequences; `s0` is the
      modifier's initial state. Every line, header included, gives one line. */
  function ModifyColumn<S>(lines: seq<string>, columnName: char, m: Modifier<S>, sep: Separator, s0: S): (r: Result<seq<string>, Fault>)
    ensures r.Ok? ==> |r.value| == |lines|
  {
    var t :- RewriteLines(lines, ColumnIndex(columnName), m, sep, s0);
    Ok(t.1)
  }

  // ---------------------------------------------------------------------
  // Reference description of one line, and its agreement with the loop
  // ---------------------------------------------------------------------

  /** The modifier runs on the first cell and then, for as long as it keeps
      deleting, on each following one; once it returns a cell, the rest of the
      cells are copied. */
  function Cascade<S>(cells: seq<string>, m: Modifier<S>, sep: string, s: S): (r: Result<(S, string), Fault>)
    decreases |cells|
  {
    if |cells| == 0 then Ok((s, ""))
    else
      var a :- m(s, cells[0], sep);
      match a.cell
      case Some(v) => Ok((a.state, v + sep + Terminated(cells[1..], sep)))
      case None => Cascade(cells[1..], m, sep, a.state)
  }

  /** A line rewritten at `column`: the cells before it copied, the cascade
      from it on; a line too short for the column is copied untouched and the
      modifier is never consulted. */
  function LineSpec<S>(cells: seq<string>, column: int, m: Modifier<S>, sep: string, s: S): (r: Result<(S, string), Fault>)
  {
    if 0 <= column < |cells| then Prefixed(Terminated(cells[..column], sep), Cascade(cells[column..], m, sep, s))
    else Ok((s, Terminated(cells, sep)))
  }

  /** A line result with `prefix` put in front of its text. */
  function Prefixed<S>(prefix: string, r: Result<(S, string), Fault>): (res: Result<(S, string), Fault>)
  {
    match r
    case Ok(t) => Ok((t.0, prefix + t.1))
    case Err(e) => Err(e)
  }

  lemma {:induction false} CopyTail<S>(cells: seq<string>, i: nat, column: int, woffset: nat, m: Modifier<S>, sep: string, s: S)
    requires i <= |cells| && column + woffset < i
    ensures RewriteFrom(cells, i, column, woffset, m, sep, s) == Ok((s, Terminated(cells[i..], sep)))
    decreases |cells| - i
  {
    if i < |cells| {
      CopyTail(cells, i + 1, column, woffset, m, sep, s);
      assert cells[i..][1..] == cells[i + 1..];
    }
  }

  lemma {:induction false} AtTarget<S>(cells: seq<string>, i: nat, column: int, woffset: nat, m: Modifier<S>, sep: string, s: S)
    requires i <= |cells| && column + woffset == i
    ensures RewriteFrom(cells, i, column, woffset, m, sep, s) == Cascade(cells[i..], m, sep, s)
    decreases |cells| - i
  {
    if i < |cells| {
      assert cells[i..][0] == cells[i];
      assert cells[i..][1..] == cells[i + 1..];
      var a := m(s, cells[i], sep);
      if a.Ok? {
        match a.value.cell
        case Some(v) =>
          CopyTail(cells, i + 1, column, woffset, m, sep, a.value.state);
        case None =>
          AtTarget(cells, i + 1, column, woffset + 1, m, sep, a.value.state);
      }
    }
  }

  lemma {:induction false} BeforeTarget<S>(cells: seq<string>, i: nat, column: int, m: Modifier<S>, sep: string, s: S)
    requires i <= |cells| && i <= column
    ensures column < |cells| ==>
      RewriteFrom(cells, i, column, 0, m, sep, s) == Prefixed(Terminated(cells[i..column], sep), Cascade(cells[column..], m, sep, s))
    ensures column >= |cells| ==>
      RewriteFrom(cells, i, column, 0, m, sep, s) == Ok((s, Terminated(cells[i..], sep)))
    decreases |cells| - i
  {
    if i == column && column < |cells| {
      AtTarget(cells, i, column, 0, m, sep, s);
      assert cells[i..column] == [];
      var c := Cascade(cells[column..], m, sep, s);
      assert Terminated(cells[i..column], sep) == "";
      if c.Ok? {
        var t := c.value;
        assert "" + t.1 == t.1;
        assert Prefixed("", c) == Ok((t.0, t.1));
        assert c == Ok((t.0, t.1));
      }
    } else if i < |cells| {
      BeforeTarget(cells, i + 1, column, m, sep, s);
      assert cells[i..][1..] == cells[i + 1..];
      if column < |cells| {
        assert cells[i..column][0] == cells[i];
        assert cells[i..column][1..] == cells[i + 1..column];
        var c := Cascade(cells[column..], m, sep, s);
        var pre := Terminated(cells[i + 1..column], sep);
        assert Terminated(cells[i..column], sep) == cells[i] + sep + pre;
        if c.Ok? {
          var t := c.value;
          assert RewriteFrom(cells, i + 1, column, 0, m, sep, s) == Ok((t.0, pre + t.1));
          assert i != column + 0;
          assert RewriteFrom(cells, i, column, 0, m, sep, s) == Ok((t.0, cells[i] + sep + (pre + t.1)));
          assert cells[i] + sep + (pre + t.1) == (cells[i] + sep + pre) + t.1;
        }
      }
    }
  }

  /** The source's offset loop computes exactly the reference description. */
  lemma RewriteLineMatchesSpec<S>(line: string, column: int, m: Modifier<S>, sep: Separator, s: S)
    ensures RewriteLine(line, column, m, sep, s) == LineSpec(Split(line, sep), column, m, sep, s)
  {
    var cells := Split(line, sep);
    if column < 0 {
      CopyTail(cells, 0, column, 0, m, sep, s);
      assert cells[0..] == cells;
    } else {
      BeforeTarget(cells, 0, column, m, sep, s);
      assert cells[0..] == cells;
      if column < |cells| {
        assert cells[0..column] == cells[..column];
      }
    }
  }

  // ---------------------------------------------------------------------
  // Consequences
  // ---------------------------------------------------------------------

  /** A line with no cell at `column` is re-emitted cell by cell, each cell
      followed by the separator, and the modifier is not called (its state is
      unchanged). */
  lemma ShortLinePassesThrough<S>(line: string, column: int, m: Modifier<S>, sep: Separator, s: S)
    requires column < 0 || |Split(line, sep)| <= column
    ensures RewriteLine(line, column, m, sep, s) == Ok((s, Terminated(Split(line, sep), sep)))
  {
    RewriteLineMatchesSpec(line, column, m, sep, s);
  }

  /** When the modifier keeps the cell at `column`, only that cell changes. */
  lemma KeptCellReplaced<S>(line: string, column: int, m: Modifier<S>, sep: Separator, s: S, s': S, v: string)
    requires 0 <= column < |Split(line, sep)|
    requires m(s, Split(line, sep)[column], sep) == Ok(Applied(s', Some(v)))
    ensures var cells := Split(line, sep);
      RewriteLine(line, column, m, sep, s) == Ok((s', Terminated(cells[..column] + [v] + cells[column + 1..], sep)))
  {
    RewriteLineMatchesSpec(line, column, m, sep, s);
    SpecKept(Split(line, sep), column, m, sep, s, s', v);
  }

  /** The cell-level half of `KeptCellReplaced`, stated for any cells. */
  lemma SpecKept<S>(cells: seq<string>, column: int, m: Modifier<S>, sep: string, s: S, s': S, v: string)
    requires 0 <= column < |cells|
    requires m(s, cells[column], sep) == Ok(Applied(s', Some(v)))
    ensures LineSpec(cells, column, m, sep, s) == Ok((s', Terminated(cells[..column] + [v] + cells[column + 1..], sep)))
  {
    assert cells[column..][0] == cells[column];
    assert cells[column..][1..] == cells[column + 1..];
    TerminatedAppend(cells[..column], [v] + cells[column + 1..], sep);
    assert cells[..column] + [v] + cells[column + 1..] == cells[..column] + ([v] + cells[column + 1..]);
  }

  lemma {:induction false} PureCascade(cells: seq<string>, f: (string, string) -> Option<string>, sep: string, d: nat, v: string)
    requires d < |cells|
    requires forall j :: 0 <= j < d ==> f(cells[j], sep).None?
    requires f(cells[d], sep) == Some(v)
    ensures Cascade(cells, Lift(f), sep, ()) == Ok(((), v + sep + Terminated(cells[d + 1..], sep)))
    decreases d
  {
    if d > 0 {
      PureCascade(cells[1..], f, sep, d - 1, v);
      assert cells[1..][d - 1 + 1..] == cells[d + 1..];
    }
  }

  lemma {:induction false} PureCascadeAllDeleted(cells: seq<string>, f: (string, string) -> Option<string>, sep: string)
    requires forall j :: 0 <= j < |cells| ==> f(cells[j], sep).None?
    ensures Cascade(cells, Lift(f), sep, ()) == Ok(((), ""))
    decreases |cells|
  {
    if |cells| > 0 {
      PureCascadeAllDeleted(cells[1..], f, sep);
    }
  }

  /** Deletion cascades: the cells at `column`, ..., `column + d - 1` on which
      the modifier returned empty are removed, the first returned value takes
      the place of its cell, and everything after it is copied. */
  lemma DeletionCascades(line: string, column: nat, f: (string, string) -> Option<string>, sep: Separator, d: nat, v: string)
    requires column + d < |Split(line, sep)|
    requires forall j :: column <= j < column + d ==> f(Split(line, sep)[j], sep).None?
    requires f(Split(line, sep)[column + d], sep) == Some(v)
    ensures var cells := Split(line, sep);
      RewriteLine(line, column, Lift(f), sep, ()) ==
        Ok(((), Terminated(cells[..column] + [v] + cells[column + d + 1..], sep)))
  {
    RewriteLineMatchesSpec(line, column, Lift(f), sep, ());
    SpecCascades(Split(line, sep), column, f, sep, d, v);
  }

  /** The cell-level half of `DeletionCascades`, stated for any cells. */
  lemma SpecCascades(cells: seq<string>, column: nat, f: (string, string) -> Option<string>, sep: string, d: nat, v: string)
    requires column + d < |cells|
    requires forall j :: column <= j < column + d ==> f(cells[j], sep).None?
    requires f(cells[column + d], sep) == Some(v)
    ensures LineSpec(cells, column, Lift(f), sep, ()) == Ok(((), Terminated(cells[..column] + [v] + cells[column + d + 1..], sep)))
  {
    PureCascade(cells[column..], f, sep, d, v);
    assert cells[column..][d + 1..] == cells[column + d + 1..];
    TerminatedAppend(cells[..column], [v] + cells[column + d + 1..], sep);
    assert cells[..column] + [v] + cells[column + d + 1..] == cells[..column] + ([v] + cells[column + d + 1..]);
  }

  /** A modifier that deletes every cell from `column` on cuts the line before
      `column`. */
  lemma DeletionToEnd(line: string, column: nat, f: (string, string) -> Option<string>, sep: Separator)
    requires column < |Split(line, sep)|
    requires forall j :: column <= j < |Split(line, sep)| ==> f(Split(line, sep)[j], sep).None?
    ensures RewriteLine(line, column, Lift(f), sep, ()) == Ok(((), Terminated(Split(line, sep)[..column], sep)))
  {
    var cells := Split(line, sep);
    RewriteLineMatchesSpec(line, column, Lift(f), sep, ());
    assert forall j :: 0 <= j < |cells[column..]| ==> cells[column..][j] == cells[column + j];
    PureCascadeAllDeleted(cells[column..], f, sep);
    var pre := Terminated(cells[..column], sep);
    assert pre + "" == pre;
    assert Prefixed(pre, Cascade(cells[column..], Lift(f), sep, ())) == Ok(((), pre));
  }

  /** A stateless modifier never fails on a line. */
  lemma LiftedLineSucceeds(line: string, column: int, f: (string, string) -> Option<string>, sep: Separator)
    ensures RewriteLine(line, column, Lift(f), sep, ()).Ok?
  {
    RewriteLineMatchesSpec(line, column, Lift(f), sep, ());
    var cells := Split(line, sep);
    if 0 <= column < |cells| {
      LiftedCascadeSucceeds(cells[column..], f, sep);
    }
  }

  lemma {:induction false} LiftedCascadeSucceeds(cells: seq<string>, f: (string, string) -> Option<string>, sep: string)
    ensures Cascade(cells, Lift(f), sep, ()).Ok?
    decreases |cells|
  {
    if |cells| > 0 && f(cells[0], sep).None? {
      LiftedCascadeSucceeds(cells[1..], f, sep);
    }
  }

  /** With a stateless modifier every line is rewritten on its own: the table
      result is the line-by-line result, in order. */
  lemma {:induction false} StatelessLineByLine(lines: seq<string>, column: int, f: (string, string) -> Option<string>, sep: Separator)
    ensures var r := RewriteLines(lines, column, Lift(f), sep, ());
      && r.Ok?
      && |r.value.1| == |lines|
      && forall k :: 0 <= k < |lines| ==> RewriteLine(lines[k], column, Lift(f), sep, ()) == Ok(((), r.value.1[k]))
    decreases |lines|
  {
    if |lines| > 0 {
      StatelessLineByLine(lines[1..], column, f, sep);
      LiftedLineSucceeds(lines[0], column, f, sep);
      var first := RewriteLine(lines[0], column, Lift(f), sep, ());
      var rest := RewriteLines(lines[1..], column, Lift(f), sep, ());
      var out := [first.value.1] + rest.value.1;
      var u: () := first.value.0;
      assert u == ();
      assert first == Ok(((), first.value.1));
      var w: () := rest.value.0;
      assert w == ();
      assert rest == Ok(((), rest.value.1));
      assert RewriteLines(lines, column, Lift(f), sep, ()) == Ok(((), out));
      forall k | 0 <= k < |lines|
        ensures RewriteLine(lines[k], column, Lift(f), sep, ()) == Ok(((), out[k]))
      {
        if k > 0 {
          assert lines[k] == lines[1..][k - 1] && out[k] == rest.value.1[k - 1];
        }
      }
    }
  }

  /** The first `column` cells of a row, or the whole row when it is shorter. */
  function KeptBefore(cells: seq<string>, column: int): (kept: seq<string>)
  {
    if 0 <= column < |cells| then cells[..column] else cells
  }

  /** The source's `x -> Optional.empty()`. */
  function AlwaysEmpty(cell: string, sep: string): (none: Option<string>)
  {
    None
  }

  /** The always-empty modifier cuts
      every line just before the column, header included, and keeps the
      number of lines. */
  lemma DeleteAllTruncates(lines: seq<string>, columnName: char, sep: Separator)
    ensures var r := ModifyColumn(lines, columnName, Lift(AlwaysEmpty), sep, ());
      && r.Ok?
      && forall k :: 0 <= k < |lines| ==> r.value[k] == Terminated(KeptBefore(Split(lines[k], sep), ColumnIndex(columnName)), sep)
  {
    var column := ColumnIndex(columnName);
    StatelessLineByLine(lines, column, AlwaysEmpty, sep);
    forall k | 0 <= k < |lines|
      ensures RewriteLine(lines[k], column, Lift(AlwaysEmpty), sep, ()).value.1 == Terminated(KeptBefore(Split(lines[k], sep), column), sep)
    {
      if 0 <= column < |Split(lines[k], sep)| {
        DeletionToEnd(lines[k], column, AlwaysEmpty, sep);
      } else {
        ShortLinePassesThrough(lines[k], column, Lift(AlwaysEmpty), sep, ());
      }
    }
  }

  // ---------------------------------------------------------------------
  // The modifier's state across lines
  // ---------------------------------------------------------------------

  /** Rewriting `a + b` is rewriting `a`, then `b` from the state `a` left;
      the first failure, in `a` or in `b`, is the failure of the whole. */
  lemma {:induction false} RewriteLinesAppend<S>(a: seq<string>, b: seq<string>, column: int, m: Modifier<S>, sep: Separator, s: S)
    decreases |a|
    ensures RewriteLines(a + b, column, m, sep, s) ==
      match RewriteLines(a, column, m, sep, s)
      case Err(e) => Err(e)
      case Ok(t) =>
        match RewriteLines(b, column, m, sep, t.0)
        case Err(e) => Err(e)
        case Ok(u) => Ok((u.0, t.1 + u.1))
  {
    if |a| == 0 {
      assert a + b == b;
      match RewriteLines(b, column, m, sep, s)
      case Err(e) =>
      case Ok(u) => assert [] + u.1 == u.1;
    } else {
      assert (a + b)[0] == a[0];
      assert (a + b)[1..] == a[1..] + b;
      var first := RewriteLine(a[0], column, m, sep, s);
      if first.Ok? {
        RewriteLinesAppend(a[1..], b, column, m, sep, first.value.0);
        match RewriteLines(a[1..], column, m, sep, first.value.0)
        case Err(e) =>
        case Ok(t) =>
          match RewriteLines(b, column, m, sep, t.0)
          case Err(e) =>
          case Ok(u) => assert [first.value.1] + (t.1 + u.1) == ([first.value.1] + t.1) + u.1;
      }
    }
  }

  /** Line `k` is rewritten from the state the lines before it leave. Once
      those lines succeed, a failure of line `k` is the failure of the whole
      table; on success, the table's line `k` is line `k`'s own rewrite from
      that state, after the rewrites of the lines before it. */
  lemma ThreadedLine<S>(lines: seq<string>, column: int, m: Modifier<S>, sep: Separator, s: S, k: nat)
    requires k < |lines|
    ensures var all := RewriteLines(lines, column, m, sep, s);
      var pre := RewriteLines(lines[..k], column, m, sep, s);
      && (all.Ok? ==> pre.Ok?)
      && (pre.Ok? ==>
            var here := RewriteLine(lines[k], column, m, sep, pre.value.0);
            && (here.Err? ==> all == Err(here.error))
            && (all.Ok? ==> here.Ok? && all.value.1[..k] == pre.value.1 && all.value.1[k] == here.value.1))
  {
    RewriteLinesAppend(lines[..k], lines[k..], column, m, sep, s);
    assert lines[..k] + lines[k..] == lines;
    assert lines[k..][0] == lines[k];
    assert lines[k..][1..] == lines[k + 1..];
  }

  /** A table that fails fails with the fault of its first failing line:
      every line before it succeeds, threading the state, and that line's
      rewrite from the state they leave raises the table's fault. */
  lemma {:induction false} FirstFailingLine<S>(lines: seq<string>, column: int, m: Modifier<S>, sep: Separator, s: S) returns (k: nat)
    requires RewriteLines(lines, column, m, sep, s).Err?
    decreases |lines|
    ensures k < |lines| && RewriteLines(lines[..k], column, m, sep, s).Ok?
    ensures RewriteLine(lines[k], column, m, sep, RewriteLines(lines[..k], column, m, sep, s).value.0)
              == Err(RewriteLines(lines, column, m, sep, s).error)
  {
    var first := RewriteLine(lines[0], column, m, sep, s);
    if first.Err? {
      k := 0;
      assert lines[..0] == [];
    } else {
      var j := FirstFailingLine(lines[1..], column, m, sep, first.value.0);
      k := j + 1;
      assert lines[..k][0] == lines[0];
      assert lines[..k][1..] == lines[1..][..j];
      assert lines[k] == lines[1..][j];
    }
  }
}
