/** `merge`: tables concatenated side by side, row by row, without keys. */
module UniformMerge {
  import opened Seqs
  import opened RowCodec
  import opened Padding

  /** The widest row of a table, in `split` cells (0 for an empty table). */
  function MaxWidth(table: seq<string>, sep: Separator): (w: nat)
    ensures forall i :: 0 <= i < |table| ==> Width(table[i], sep) <= w
    ensures |table| == 0 ==> w == 0
    ensures |table| > 0 ==> exists i :: 0 <= i < |table| && Width(table[i], sep) == w
  {
    var widths := seq(|table|, i requires 0 <= i < |table| => Width(table[i], sep));
    var w := Max(widths);
    assert forall i :: 0 <= i < |table| ==> widths[i] == Width(table[i], sep);
    w
  }

  /** One table after both padding passes of `merge`. */
  function PaddedTable(table: seq<string>, sep: Separator, maxRows: int): (r: seq<string>)
    requires |table| <= maxRows
    ensures |r| == maxRows + 1
  {
    var w := MaxWidth(table, sep);
    PadRows(seq(|table|, i requires 0 <= i < |table| => PadLine(table[i], sep, w)), sep, w, maxRows)
  }

  /** Every table after both padding passes, all to the longest table's length. */
  function PaddedTables(tables: seq<seq<string>>, sep: Separator): (r: seq<seq<string>>)
    ensures |r| == |tables|
    ensures forall j :: 0 <= j < |r| ==> |r[j]| == MaxLen(tables) + 1
  {
    seq(|tables|, j requires 0 <= j < |tables| => PaddedTable(tables[j], sep, MaxLen(tables)))
  }

  /** Row `i` of every padded table, concatenated in table order. */
  function RowAcross(padded: seq<seq<string>>, i: nat): (r: string)
    requires forall j :: 0 <= j < |padded| ==> i < |padded[j]|
  {
    Concat(seq(|padded|, j requires 0 <= j < |padded| => padded[j][i]))
  }

  /** `merge(dir, in, out, separator)` with the files replaced by their lines. */
  function Merge(tables: seq<seq<string>>, sep: Separator): (r: seq<string>)
  {
    var padded := PaddedTables(tables, sep);
    seq(MaxLen(tables), i requires 0 <= i < MaxLen(tables) => RowAcross(padded, i))
  }

  /** What table `t` contributes to output row `i`: its own row `i` padded to
      the table's width, or the table's blank row once it has run out. */
  function Contribution(t: seq<string>, sep: Separator, i: nat): (r: string)
  {
    if i < |t| then PadLine(t[i], sep, MaxWidth(t, sep)) else Blank(sep, MaxWidth(t, sep))
  }

  lemma PaddedTableAt(t: seq<string>, sep: Separator, maxRows: int, i: nat)
    requires |t| <= maxRows && i <= maxRows
    ensures PaddedTable(t, sep, maxRows)[i] == Contribution(t, sep, i)
  {
  }

  /** The output has as many rows as the longest table, and row `i` is the
      concatenation, table by table, of each table's contribution. */
  lemma MergeRows(tables: seq<seq<string>>, sep: Separator)
    ensures |Merge(tables, sep)| == MaxLen(tables)
    ensures forall i :: 0 <= i < |Merge(tables, sep)| ==>
      Merge(tables, sep)[i] == Concat(seq(|tables|, j requires 0 <= j < |tables| => Contribution(tables[j], sep, i)))
  {
    var maxRows := MaxLen(tables);
    var padded := PaddedTables(tables, sep);
    forall i | 0 <= i < maxRows
      ensures Merge(tables, sep)[i] == Concat(seq(|tables|, j requires 0 <= j < |tables| => Contribution(tables[j], sep, i)))
    {
      var lhs := seq(|padded|, j requires 0 <= j < |padded| => padded[j][i]);
      var rhs := seq(|tables|, j requires 0 <= j < |tables| => Contribution(tables[j], sep, i));
      forall j | 0 <= j < |tables| ensures lhs[j] == rhs[j] {
        PaddedTableAt(tables[j], sep, maxRows, i);
      }
      assert lhs == rhs;
      assert Merge(tables, sep)[i] == RowAcross(padded, i);
    }
  }

  /** Merging a single table reproduces its rows in order, each padded to the
      table's own widest row. */
  lemma MergeSingle(t: seq<string>, sep: Separator)
    ensures Merge([t], sep) == seq(|t|, i requires 0 <= i < |t| => PadLine(t[i], sep, MaxWidth(t, sep)))
  {
    MergeRows([t], sep);
    assert MaxLen([t]) == |t|;
    forall i | 0 <= i < |t|
      ensures Merge([t], sep)[i] == PadLine(t[i], sep, MaxWidth(t, sep))
    {
      OneContribution(t, sep, i);
    }
  }

  lemma OneContribution(t: seq<string>, sep: Separator, i: nat)
    requires i < |t|
    ensures Concat(seq(1, j requires 0 <= j < 1 => Contribution([t][j], sep, i))) == PadLine(t[i], sep, MaxWidth(t, sep))
  {
    var parts := seq(1, j requires 0 <= j < 1 => Contribution([t][j], sep, i));
    assert parts == [PadLine(t[i], sep, MaxWidth(t, sep))];
    assert Concat(parts) == parts[0] + Concat(parts[1..]);
  }

  /** No tables, no rows. */
  lemma MergeNone(sep: Separator)
    ensures Merge([], sep) == []
  {
  }
}
