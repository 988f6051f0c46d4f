/** The row codec: `String.indexOf`, `String.contains` and `String.split`
    with a literal (non-regex) separator, and the two ways the source glues
    cells back into a line. */
module RowCodec {
  import opened Wrappers
  import opened Seqs

  /** A cell separator: a nonempty literal string such as ",". */
  type Separator = s: string | |s| > 0 witness ","

  /** `t` occurs in `s` starting at index `i`. */
  predicate OccursAt(s: string, t: string, i: int) {
    0 <= i && i + |t| <= |s| && s[i..i + |t|] == t
  }

  function IndexOfFrom(s: string, t: string, from: nat): (r: Option<nat>)
    decreases |s| - from
    ensures r.Some? ==> from <= r.value && OccursAt(s, t, r.value)
    ensures r.Some? ==> forall j :: from <= j < r.value ==> !OccursAt(s, t, j)
    ensures r.None? ==> forall j :: from <= j ==> !OccursAt(s, t, j)
  {
    if from + |t| > |s| then None
    else if s[from..from + |t|] == t then Some(from)
    else IndexOfFrom(s, t, from + 1)
  }

  /** `s.indexOf(t)`: the first occurrence of `t` in `s`, `None` for -1. */
  function IndexOf(s: string, t: string): (r: Option<nat>)
    ensures r.Some? ==> OccursAt(s, t, r.value) && forall j :: 0 <= j < r.value ==> !OccursAt(s, t, j)
    ensures r.None? ==> forall j :: !OccursAt(s, t, j)
  {
    IndexOfFrom(s, t, 0)
  }

  /** `s.contains(t)` */
  predicate Contains(s: string, t: string) {
    IndexOf(s, t).Some?
  }

  lemma ContainsIff(s: string, t: string)
    ensures Contains(s, t) <==> exists j :: OccursAt(s, t, j)
  {
  }

  /** An occurrence inside a prefix is an occurrence in the whole string. */
  lemma OccursInPrefix(s: string, t: string, n: nat, j: int)
    requires n <= |s|
    requires OccursAt(s[..n], t, j)
    ensures OccursAt(s, t, j)
  {
    assert s[..n][j..j + |t|] == s[j..j + |t|];
  }

  /** For a one-character separator an occurrence is just that character. */
  lemma OccursAtSingle(s: string, sep: Separator, j: int)
    requires |sep| == 1
    ensures OccursAt(s, sep, j) <==> 0 <= j < |s| && s[j] == sep[0]
  {
    if 0 <= j < |s| {
      assert s[j..j + 1] == [s[j]];
    }
  }

  /** Cells joined with the separator between consecutive cells. */
  function JoinWith(cells: seq<string>, sep: string): (r: string)
  {
    if |cells| == 0 then ""
    else if |cells| == 1 then cells[0]
    else cells[0] + sep + JoinWith(cells[1..], sep)
  }

  /** Every cell followed by `t`: how `modifyColumn` and the merge header build
      a row, and how `writeLines` lays lines out in a file. */
  function Terminated(cells: seq<string>, t: string): (r: string)
  {
    if |cells| == 0 then "" else cells[0] + t + Terminated(cells[1..], t)
  }

  lemma {:induction false} TerminatedAppend(a: seq<string>, b: seq<string>, t: string)
    ensures Terminated(a + b, t) == Terminated(a, t) + Terminated(b, t)
    decreases |a|
  {
    if |a| == 0 {
      assert a + b == b;
    } else {
      assert (a + b)[1..] == a[1..] + b;
      TerminatedAppend(a[1..], b, t);
    }
  }

  lemma {:induction false} TerminatedIsJoinPlusSep(cells: seq<string>, t: string)
    requires |cells| > 0
    ensures Terminated(cells, t) == JoinWith(cells, t) + t
    decreases |cells|
  {
    if |cells| > 1 {
      TerminatedIsJoinPlusSep(cells[1..], t);
    }
  }

  /** All pieces between separator occurrences, trailing empty pieces kept:
      joining them back with the separator gives the line again. */
  function RawSplit(s: string, sep: Separator): (cells: seq<string>)
    decreases |s|
    ensures |cells| >= 1
    ensures forall k :: 0 <= k < |cells| ==> !Contains(cells[k], sep)
    ensures JoinWith(cells, sep) == s
  {
    match IndexOf(s, sep)
    case None => [s]
    case Some(i) =>
      var head := s[..i];
      var rest := RawSplit(s[i + |sep|..], sep);
      assert !Contains(head, sep) by {
        var o := IndexOf(head, sep);
        if o.Some? {
          OccursInPrefix(s, sep, i, o.value);
        }
      }
      assert s == head + sep + s[i + |sep|..] by {
        assert s[i..i + |sep|] == sep;
      }
      [head] + rest
  }

  /** Drops empty strings from the end, as `String.split` does. */
  function DropTrailingEmpty(xs: seq<string>): (r: seq<string>)
    ensures r <= xs
    ensures |r| == 0 || r[|r| - 1] != ""
    ensures forall k :: |r| <= k < |xs| ==> xs[k] == ""
  {
    if |xs| > 0 && xs[|xs| - 1] == "" then DropTrailingEmpty(xs[..|xs| - 1]) else xs
  }

  /** Java's `line.split(sep)` for a literal separator: a line without the
      separator is its own single cell (so "" splits to [""]); otherwise the
      pieces between separators with the trailing empty pieces dropped (so a
      line made only of separators splits to no cells at all). */
  function Split(line: string, sep: Separator): (cells: seq<string>)
    ensures !Contains(line, sep) ==> cells == [line]
    ensures Contains(line, sep) ==> cells <= RawSplit(line, sep)
    ensures Contains(line, sep) ==> forall k :: |cells| <= k < |RawSplit(line, sep)| ==> RawSplit(line, sep)[k] == ""
    ensures forall k :: 0 <= k < |cells| ==> !Contains(cells[k], sep)
    ensures line != "" && |cells| > 0 ==> cells[|cells| - 1] != ""
  {
    if !Contains(line, sep) then [line] else SplitFound(line, sep)
  }

  /** `split` of a line that holds the separator: the raw pieces without the
      trailing empty ones. */
  function SplitFound(line: string, sep: Separator): (cells: seq<string>)
    ensures cells <= RawSplit(line, sep)
    ensures forall k :: |cells| <= k < |RawSplit(line, sep)| ==> RawSplit(line, sep)[k] == ""
    ensures forall k :: 0 <= k < |cells| ==> !Contains(cells[k], sep)
    ensures |cells| > 0 ==> cells[|cells| - 1] != ""
  {
    var raw := RawSplit(line, sep);
    var r := DropTrailingEmpty(raw);
    assert forall k :: 0 <= k < |r| ==> r[k] == raw[k];
    r
  }

  /** Number of cells `split` finds: the `cells.length` of the source. */
  function Width(line: string, sep: Separator): (r: nat)
  {
    |Split(line, sep)|
  }

  /** A cell free of a one-character separator. */
  predicate PlainCell(c: string, sep: Separator)
    requires |sep| == 1
  {
    sep[0] !in c
  }

  lemma PlainCellNoOccurrence(c: string, sep: Separator)
    requires |sep| == 1 && PlainCell(c, sep)
    ensures !Contains(c, sep)
  {
    var o := IndexOf(c, sep);
    if o.Some? {
      OccursAtSingle(c, sep, o.value);
    }
  }

  /** Conversely, a cell `split` produced is free of the separator. */
  lemma NoOccurrencePlain(c: string, sep: Separator)
    requires |sep| == 1 && !Contains(c, sep)
    ensures PlainCell(c, sep)
  {
    ContainsIff(c, sep);
    forall j | 0 <= j < |c|
      ensures c[j] != sep[0]
    {
      OccursAtSingle(c, sep, j);
    }
  }

  /** The first separator of `c + sep + rest` is the one after `c`. */
  lemma IndexAfterPlain(c: string, rest: string, sep: Separator)
    requires |sep| == 1 && PlainCell(c, sep)
    ensures IndexOf(c + sep + rest, sep) == Some(|c|)
  {
    var s := c + sep + rest;
    OccursAtSingle(s, sep, |c|);
    var o := IndexOf(s, sep);
    OccursAtSingle(s, sep, o.value);
  }

  /** Splitting undoes joining plain cells, trailing empty pieces included. */
  lemma {:induction false} RawSplitJoin(cells: seq<string>, sep: Separator)
    requires |sep| == 1 && |cells| >= 1
    requires forall k :: 0 <= k < |cells| ==> PlainCell(cells[k], sep)
    ensures RawSplit(JoinWith(cells, sep), sep) == cells
    decreases |cells|
  {
    if |cells| == 1 {
      PlainCellNoOccurrence(cells[0], sep);
    } else {
      var rest := JoinWith(cells[1..], sep);
      var s := cells[0] + sep + rest;
      IndexAfterPlain(cells[0], rest, sep);
      assert s[|cells[0]| + |sep|..] == rest;
      RawSplitJoin(cells[1..], sep);
    }
  }

  /** Joining one more cell adds the separator and that cell at the end. */
  lemma {:induction false} JoinWithSnoc(cells: seq<string>, x: string, sep: string)
    requires |cells| > 0
    ensures JoinWith(cells + [x], sep) == JoinWith(cells, sep) + sep + x
    decreases |cells|
  {
    if |cells| > 1 {
      assert (cells + [x])[1..] == cells[1..] + [x];
      JoinWithSnoc(cells[1..], x, sep);
    }
  }

  /** Appending one separator adds exactly one empty trailing piece. */
  lemma RawSplitSnocSep(s: string, sep: Separator)
    requires |sep| == 1
    ensures RawSplit(s + sep, sep) == RawSplit(s, sep) + [""]
  {
    var cells := RawSplit(s, sep);
    var more := cells + [""];
    forall k | 0 <= k < |more|
      ensures PlainCell(more[k], sep)
    {
      if k < |cells| {
        NoOccurrencePlain(cells[k], sep);
      }
    }
    JoinWithSnoc(cells, "", sep);
    assert JoinWith(more, sep) == s + sep;
    RawSplitJoin(more, sep);
  }

  /** Appending a separator to a nonempty line does not change its cells. */
  lemma SplitSnocSep(s: string, sep: Separator)
    requires |sep| == 1 && s != ""
    ensures Split(s + sep, sep) == Split(s, sep)
  {
    RawSplitSnocSep(s, sep);
    var raw := RawSplit(s, sep);
    OccursAtSingle(s + sep, sep, |s|);
    assert Contains(s + sep, sep);
    assert DropTrailingEmpty(raw + [""]) == DropTrailingEmpty(raw) by {
      assert (raw + [""])[..|raw + [""]| - 1] == raw;
    }
    if !Contains(s, sep) {
      assert raw == [s];
    }
  }

  /** Round trip of the codec: a row of plain cells whose last cell is not
      empty splits back into exactly those cells. */
  lemma SplitJoin(cells: seq<string>, sep: Separator)
    requires |sep| == 1 && |cells| >= 1
    requires forall k :: 0 <= k < |cells| ==> PlainCell(cells[k], sep)
    requires |cells| == 1 || cells[|cells| - 1] != ""
    ensures Split(JoinWith(cells, sep), sep) == cells
  {
    RawSplitJoin(cells, sep);
    if |cells| == 1 {
      PlainCellNoOccurrence(cells[0], sep);
    } else {
      IndexAfterPlain(cells[0], JoinWith(cells[1..], sep), sep);
    }
  }

  /** Round trip for separator-terminated rows (the shape `modifyColumn`
      and the merge header produce). */
  lemma SplitTerminated(cells: seq<string>, sep: Separator)
    requires |sep| == 1 && |cells| >= 1
    requires forall k :: 0 <= k < |cells| ==> PlainCell(cells[k], sep)
    requires cells[|cells| - 1] != ""
    ensures Split(Terminated(cells, sep), sep) == cells
  {
    TerminatedIsJoinPlusSep(cells, sep);
    var j := JoinWith(cells, sep);
    RawSplitJoin(cells, sep);
    SplitSnocSep(j, sep);
    SplitJoin(cells, sep);
  }
}
