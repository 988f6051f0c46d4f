/** The two `pad` overloads of SpreadsheetHandler, shared by both merges. */
module Padding {
  import opened Seqs
  import opened RowCodec

  /** `pad(String line, separator, to)`: appends one separator per missing
      cell, counting the cells the way `split` does. */
  function PadLine(line: string, sep: Separator, to: int): (padded: string)
  {
    line + Repeat(sep, to - Width(line, sep))
  }

  /** `pad("", separator, columns)`: the blank row of a table that is
      `columns` cells wide (the `empty[i]` / `components` of the source). */
  function Blank(sep: Separator, columns: int): (blank: string)
  {
    PadLine("", sep, columns)
  }

  /** `pad(List list, separator, columns, rows)`: appends blank rows while the
      index runs from the list's size up to `rows` inclusive. */
  function PadRows(list: seq<string>, sep: Separator, columns: int, rows: int): (padded: seq<string>)
  {
    list + seq(if rows - |list| + 1 > 0 then rows - |list| + 1 else 0, _ => Blank(sep, columns))
  }

  lemma {:induction false} RepeatSingle(sep: Separator, n: int)
    requires |sep| == 1
    ensures |Repeat(sep, n)| == (if n <= 0 then 0 else n)
    ensures forall k :: 0 <= k < |Repeat(sep, n)| ==> Repeat(sep, n)[k] == sep[0]
    decreases if n <= 0 then 0 else n
  {
    if n > 0 {
      RepeatSingle(sep, n - 1);
    }
  }

  /** A padded line is the original line followed by exactly one separator per
      cell it lacks, and nothing else. */
  lemma PadLineShape(line: string, sep: Separator, to: int)
    requires |sep| == 1
    ensures var r := PadLine(line, sep, to);
      && r[..|line|] == line
      && |r| == |line| + (if to > Width(line, sep) then to - Width(line, sep) else 0)
      && forall k :: |line| <= k < |r| ==> r[k] == sep[0]
  {
    RepeatSingle(sep, to - Width(line, sep));
  }

  /** The blank row of a `columns`-wide table is `columns - 1` separators. */
  lemma BlankIsSeparators(sep: Separator, columns: int)
    ensures Blank(sep, columns) == Repeat(sep, columns - 1)
  {
    assert !Contains("", sep);
  }

  /** Padding never changes what `split` reads back from a nonempty line: the
      appended separators only add trailing empty cells, which split drops. */
  lemma PadLineInvisible(line: string, sep: Separator, to: int)
    requires |sep| == 1 && line != ""
    ensures Split(PadLine(line, sep, to), sep) == Split(line, sep)
  {
    var n := to - Width(line, sep);
    assert PadLine(line, sep, to) == line + Repeat(sep, n);
    SplitAfterSeparators(line, sep, n);
  }

  lemma SplitAfterSeparators(line: string, sep: Separator, n: int)
    requires |sep| == 1 && line != ""
    ensures Split(line + Repeat(sep, n), sep) == Split(line, sep)
  {
    var f := (s: string) => Split(s, sep);
    forall s | line <= s
      ensures f(s + sep) == f(s)
    {
      SplitSnocSep(s, sep);
    }
    StableUnderRepeat(f, line, sep, n);
  }

  /** A function that ignores one more `x` after any extension of `line`
      ignores any number of them. */
  lemma {:induction false} StableUnderRepeat(f: string -> seq<string>, line: string, x: string, n: int)
    requires forall s :: line <= s ==> f(s + x) == f(s)
    ensures f(line + Repeat(x, n)) == f(line)
    decreases if n <= 0 then 0 else n
  {
    if n <= 0 {
      assert line + Repeat(x, n) == line;
    } else {
      StableUnderRepeat(f, line, x, n - 1);
      var s := line + Repeat(x, n - 1);
      assert line <= s;
      assert line + Repeat(x, n) == s + x;
    }
  }
}
