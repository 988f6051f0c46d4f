/** `SpreadsheetHandler.mergeByIndex`: several tables joined on the number in
    their first column. Every data line whose text before the first
    separator parses as a key contributes the rest of the line to that key,
    per source, at most `limit` of them; the output has one block of rows per
    key in ascending key order. */
module KeyedMerge {
  import opened Wrappers
  import opened Faults
  import opened Seqs
  import opened RowCodec
  import opened Padding
  import opened FileIO

  /** The `Double` keys: `parse` is `Double.parseDouble` (`None` where it
      throws), `show` is the key's `toString`. Keys are compared the way the
      `TreeMap` compares them, which is a total order on the finitely many
      doubles; the model numbers them with `int`. */
  datatype KeyCodec = KeyCodec(parse: string -> Option<int>, show: int -> string)

  /** Per key, one list of captured remainders per source. */
  type Lists = seq<seq<string>>

  /** The `TreeMap` after reading: ordered iteration is modelled separately
      by `KeyOrder`. */
  type Collected = map<int, Lists>

  // ---------------------------------------------------------------------
  // Reading one data line
  // ---------------------------------------------------------------------

  /** The key and the remainder of one data line, or `None` when the line is
      skipped: no separator (`substring(0, -1)` throws) or a key text that
      does not parse. The remainder starts right after the first separator. */
  function ParseLine(line: string, sep: Separator, codec: KeyCodec): (parsed: Option<(int, string)>)
  {
    match IndexOf(line, sep)
    case None => None
    case Some(p) =>
      match codec.parse(line[..p])
      case None => None
      case Some(k) => Some((k, line[p + |sep|..]))
  }

  /** A line is read exactly when it has a separator and the text before the
      first one parses; the key, the separator and the remainder then make up
      the whole line. */
  lemma ParseLineSpec(line: string, sep: Separator, codec: KeyCodec)
    ensures var r := ParseLine(line, sep, codec);
      && (!Contains(line, sep) ==> r.None?)
      && (Contains(line, sep) ==>
        var p := IndexOf(line, sep).value;
        && (r.Some? <==> codec.parse(line[..p]).Some?)
        && (r.Some? ==> r.value.0 == codec.parse(line[..p]).value && line[..p] + sep + r.value.1 == line))
  {
    ContainsIff(line, sep);
    if Contains(line, sep) {
      var p := IndexOf(line, sep).value;
      assert line[p..p + |sep|] == sep;
      assert line == line[..p] + line[p..p + |sep|] + line[p + |sep|..];
    }
  }

  /** Whether `line` is read as a line of key `k`. */
  predicate LineOf(line: string, k: int, sep: Separator, codec: KeyCodec) {
    ParseLine(line, sep, codec).Some? && ParseLine(line, sep, codec).value.0 == k
  }

  /** The remainders of the data lines of key `k`, in file order. */
  function Rems(data: seq<string>, k: int, sep: Separator, codec: KeyCodec): (r: seq<string>)
  {
    if |data| == 0 then []
    else
      var last := data[|data| - 1];
      var r := Rems(data[..|data| - 1], k, sep, codec);
      if LineOf(last, k, sep, codec) then r + [ParseLine(last, sep, codec).value.1] else r
  }

  /** The keys the data lines carry. */
  function KeysOf(data: seq<string>, sep: Separator, codec: KeyCodec): (ks: set<int>)
  {
    if |data| == 0 then {}
    else
      var last := data[|data| - 1];
      var ks := KeysOf(data[..|data| - 1], sep, codec);
      match ParseLine(last, sep, codec)
      case None => ks
      case Some(p) => ks + {p.0}
  }

  /** A key is present exactly when some data line carries it, and then it
      has at least one remainder. */
  lemma {:induction false} KeysOfIff(data: seq<string>, k: int, sep: Separator, codec: KeyCodec)
    ensures k in KeysOf(data, sep, codec) <==> exists j :: 0 <= j < |data| && LineOf(data[j], k, sep, codec)
    ensures k in KeysOf(data, sep, codec) <==> |Rems(data, k, sep, codec)| > 0
  {
    if |data| > 0 {
      var init := data[..|data| - 1];
      KeysOfIff(init, k, sep, codec);
      assert forall j :: 0 <= j < |init| ==> init[j] == data[j];
    }
  }

  /** Remainders distribute over concatenated data. */
  lemma {:induction false} RemsAppend(a: seq<string>, b: seq<string>, k: int, sep: Separator, codec: KeyCodec)
    ensures Rems(a + b, k, sep, codec) == Rems(a, k, sep, codec) + Rems(b, k, sep, codec)
    ensures KeysOf(a + b, sep, codec) == KeysOf(a, sep, codec) + KeysOf(b, sep, codec)
    decreases |b|
  {
    if |b| == 0 {
      assert a + b == a;
    } else {
      var init := b[..|b| - 1];
      assert (a + b)[..|a + b| - 1] == a + init;
      RemsAppend(a, init, k, sep, codec);
    }
  }

  // ---------------------------------------------------------------------
  // Filling the TreeMap
  // ---------------------------------------------------------------------

  /** `n` empty lists: the table created for a new key. */
  function Fresh(n: nat): (r: Lists)
    ensures |r| == n && forall i :: 0 <= i < n ==> r[i] == []
  {
    seq(n, _ => [])
  }

  /** Every key holds one list per source. */
  predicate Sized(m: Collected, n: nat) {
    forall k :: k in m ==> |m[k]| == n
  }

  /** The lists of `k`, creating them when `k` is new. */
  function Base(m: Collected, k: int, n: nat): (r: Lists)
  {
    if k in m then m[k] else Fresh(n)
  }

  /** `if (size < limit) add(rem)` on source `i`'s list. */
  function Append(lists: Lists, i: nat, rem: string, limit: int): (r: Lists)
    requires i < |lists|
    ensures |r| == |lists|
    ensures forall j :: 0 <= j < |lists| && j != i ==> r[j] == lists[j]
    ensures r[i] == if |lists[i]| < limit then lists[i] + [rem] else lists[i]
  {
    if |lists[i]| < limit then lists[i := lists[i] + [rem]] else lists
  }

  /** One data line of source `i`. */
  function AddLine(m: Collected, n: nat, i: nat, line: string, limit: int, sep: Separator, codec: KeyCodec): (r: Collected)
    requires Sized(m, n) && i < n
    ensures Sized(r, n)
  {
    match ParseLine(line, sep, codec)
    case None => m
    case Some(p) => m[p.0 := Append(Base(m, p.0, n), i, p.1, limit)]
  }

  /** All data lines of source `i`, in file order. */
  function Absorb(m: Collected, n: nat, i: nat, data: seq<string>, limit: int, sep: Separator, codec: KeyCodec): (r: Collected)
    requires Sized(m, n) && i < n
    ensures Sized(r, n)
  {
    if |data| == 0 then m
    else AddLine(Absorb(m, n, i, data[..|data| - 1], limit, sep, codec), n, i, data[|data| - 1], limit, sep, codec)
  }

  /** The data lines of a table: everything after the header. */
  function Data(table: seq<string>): (r: seq<string>)
  {
    if |table| == 0 then [] else table[1..]
  }

  /** The outer loop: the sources in order, out of `n` in all. */
  function Collect(tables: seq<seq<string>>, n: nat, limit: int, sep: Separator, codec: KeyCodec): (r: Collected)
    requires |tables| <= n
    ensures Sized(r, n)
  {
    if |tables| == 0 then map[]
    else
      var i := |tables| - 1;
      Absorb(Collect(tables[..i], n, limit, sep, codec), n, i, Data(tables[i]), limit, sep, codec)
  }

  /** Every key any of the first `m` tables carries. */
  function AllKeys(tables: seq<seq<string>>, sep: Separator, codec: KeyCodec): (keys: set<int>)
  {
    if |tables| == 0 then {}
    else AllKeys(tables[..|tables| - 1], sep, codec) + KeysOf(Data(tables[|tables| - 1]), sep, codec)
  }

  /** A key any table carries is collected ... */
  lemma {:induction false} AllKeysHas(tables: seq<seq<string>>, j: nat, k: int, sep: Separator, codec: KeyCodec)
    requires j < |tables| && k in KeysOf(Data(tables[j]), sep, codec)
    ensures k in AllKeys(tables, sep, codec)
  {
    var last := |tables| - 1;
    if j < last {
      assert tables[..last][j] == tables[j];
      AllKeysHas(tables[..last], j, k, sep, codec);
    }
  }

  /** ... and only such keys are. */
  lemma {:induction false} AllKeysFrom(tables: seq<seq<string>>, k: int, sep: Separator, codec: KeyCodec)
    requires k in AllKeys(tables, sep, codec)
    ensures exists j :: 0 <= j < |tables| && k in KeysOf(Data(tables[j]), sep, codec)
  {
    var last := |tables| - 1;
    if k !in KeysOf(Data(tables[last]), sep, codec) {
      AllKeysFrom(tables[..last], k, sep, codec);
      var j :| 0 <= j < last && k in KeysOf(Data(tables[..last][j]), sep, codec);
      assert tables[..last][j] == tables[j];
    }
  }

  /** Reading source `i` adds exactly its keys and fills source `i`'s list of
      each key with the key's first `limit` remainders, leaving every other
      source's lists alone, as long as source `i` had captured nothing yet. */
  lemma {:induction false} AbsorbSpec(m: Collected, n: nat, i: nat, data: seq<string>, limit: int, sep: Separator, codec: KeyCodec)
    requires Sized(m, n) && i < n
    requires forall k :: k in m ==> m[k][i] == []
    ensures var r := Absorb(m, n, i, data, limit, sep, codec);
      && r.Keys == m.Keys + KeysOf(data, sep, codec)
      && forall k :: k in r ==>
        && r[k][i] == Take(Rems(data, k, sep, codec), limit)
        && forall j :: 0 <= j < n && j != i ==> r[k][j] == Base(m, k, n)[j]
  {
    if |data| > 0 {
      var init := data[..|data| - 1];
      var last := data[|data| - 1];
      AbsorbSpec(m, n, i, init, limit, sep, codec);
      var prev := Absorb(m, n, i, init, limit, sep, codec);
      var r := Absorb(m, n, i, data, limit, sep, codec);
      forall k | k in r
        ensures r[k][i] == Take(Rems(data, k, sep, codec), limit)
      {
        KeysOfIff(init, k, sep, codec);
        AddLineAt(prev, n, i, last, limit, sep, codec, k, Rems(init, k, sep, codec));
      }
    }
  }

  /** One more line of source `i` grows key `k`'s list there as the key's
      remainders grow, cut to `limit`. */
  lemma AddLineAt(m: Collected, n: nat, i: nat, line: string, limit: int, sep: Separator, codec: KeyCodec, k: int, before: seq<string>)
    requires Sized(m, n) && i < n
    requires k in m ==> m[k][i] == Take(before, limit)
    requires k !in m ==> before == []
    requires k in AddLine(m, n, i, line, limit, sep, codec)
    ensures AddLine(m, n, i, line, limit, sep, codec)[k][i] ==
      Take(if LineOf(line, k, sep, codec) then before + [ParseLine(line, sep, codec).value.1] else before, limit)
  {
    if LineOf(line, k, sep, codec) {
      TakeSnoc(before, ParseLine(line, sep, codec).value.1, limit);
    }
  }

  /** What the `TreeMap` holds after all sources are read: exactly the keys
      some source carries, each with, for every source, the first `limit`
      remainders of that key in file order (none for sources not yet read). */
  lemma {:induction false} CollectSpec(tables: seq<seq<string>>, n: nat, limit: int, sep: Separator, codec: KeyCodec)
    requires |tables| <= n
    ensures var r := Collect(tables, n, limit, sep, codec);
      && r.Keys == AllKeys(tables, sep, codec)
      && forall k :: k in r ==> forall i :: 0 <= i < n ==>
        r[k][i] == if i < |tables| then Take(Rems(Data(tables[i]), k, sep, codec), limit) else []
  {
    if |tables| > 0 {
      var i := |tables| - 1;
      var init := tables[..i];
      CollectSpec(init, n, limit, sep, codec);
      var prev := Collect(init, n, limit, sep, codec);
      AbsorbSpec(prev, n, i, Data(tables[i]), limit, sep, codec);
      var r := Collect(tables, n, limit, sep, codec);
      forall k | k in r
        ensures forall j :: 0 <= j < n ==>
          r[k][j] == if j < |tables| then Take(Rems(Data(tables[j]), k, sep, codec), limit) else []
      {
        forall j | 0 <= j < n
          ensures r[k][j] == if j < |tables| then Take(Rems(Data(tables[j]), k, sep, codec), limit) else []
        {
          if j < i {
            assert init[j] == tables[j];
            if k !in prev {
              if k in KeysOf(Data(init[j]), sep, codec) {
                AllKeysHas(init, j, k, sep, codec);
              }
              KeysOfIff(Data(tables[j]), k, sep, codec);
            }
          }
        }
      }
    }
  }

  // ---------------------------------------------------------------------
  // Iterating the TreeMap
  // ---------------------------------------------------------------------

  /** Strictly ascending, hence free of repeats. */
  predicate Increasing(xs: seq<int>) {
    forall a, b :: 0 <= a < b < |xs| ==> xs[a] < xs[b]
  }

  /** `put` of a key into the ordered key set. */
  function Insert(xs: seq<int>, x: int): (r: seq<int>)
    requires Increasing(xs)
    ensures Increasing(r)
    ensures forall y :: y in r <==> y in xs || y == x
  {
    if |xs| == 0 then [x]
    else if x < xs[0] then [x] + xs
    else if x == xs[0] then xs
    else
      var rest := Insert(xs[1..], x);
      assert forall j :: 0 <= j < |rest| ==> xs[0] < rest[j] by {
        forall j | 0 <= j < |rest|
          ensures xs[0] < rest[j]
        {
          assert rest[j] in rest;
          if rest[j] != x {
            var i :| 0 <= i < |xs[1..]| && xs[1..][i] == rest[j];
            assert xs[1..][i] == xs[i + 1];
          }
        }
      }
      [xs[0]] + rest
  }

  /** The keys of the `TreeMap` while source data is put into it, kept the
      way the map keeps them: each once, ascending. */
  function OrderData(xs: seq<int>, data: seq<string>, sep: Separator, codec: KeyCodec): (r: seq<int>)
    requires Increasing(xs)
    ensures Increasing(r)
    ensures forall y :: y in r <==> y in xs || y in KeysOf(data, sep, codec)
  {
    if |data| == 0 then xs
    else
      var prev := OrderData(xs, data[..|data| - 1], sep, codec);
      match ParseLine(data[|data| - 1], sep, codec)
      case None => prev
      case Some(p) => Insert(prev, p.0)
  }

  /** `entrySet()` order after all sources: every collected key once,
      ascending. */
  function KeyOrder(tables: seq<seq<string>>, sep: Separator, codec: KeyCodec): (r: seq<int>)
    ensures Increasing(r)
    ensures forall y :: y in r <==> y in AllKeys(tables, sep, codec)
  {
    if |tables| == 0 then []
    else OrderData(KeyOrder(tables[..|tables| - 1], sep, codec), Data(tables[|tables| - 1]), sep, codec)
  }

  // ---------------------------------------------------------------------
  // Writing the blocks
  // ---------------------------------------------------------------------

  /** A list lengthened to `len` with copies of `blank`. */
  function PadTo(list: seq<string>, blank: string, len: int): (r: seq<string>)
    ensures |r| == if len > |list| then len else |list|
    ensures r[..|list|] == list
    ensures forall j :: |list| <= j < |r| ==> r[j] == blank
  {
    list + seq(if len > |list| then len - |list| else 0, _ => blank)
  }

  /** Every source's list padded with that source's blank row to the length
      of the longest. */
  function Padded(lists: Lists, empties: seq<string>): (r: Lists)
    requires |empties| == |lists|
    ensures |r| == |lists|
    ensures forall i :: 0 <= i < |r| ==> r[i] == PadTo(lists[i], empties[i], MaxLen(lists))
  {
    seq(|lists|, i requires 0 <= i < |lists| => PadTo(lists[i], empties[i], MaxLen(lists)))
  }

  /** The `rowN`-th item of every source, in source order. */
  function Across(padded: Lists, row: nat): (cells: seq<string>)
    requires forall i :: 0 <= i < |padded| ==> row < |padded[i]|
    ensures |cells| == |padded|
  {
    seq(|padded|, i requires 0 <= i < |padded| => padded[i][row])
  }

  /** The rows of one key: as many as its list for the first source holds
      after padding, each the key, the separator, and the row's items glued
      together. */
  function Block(k: int, lists: Lists, empties: seq<string>, sep: Separator, codec: KeyCodec): (r: seq<string>)
    requires |empties| == |lists|
  {
    var p := Padded(lists, empties);
    var rows := if |p| == 0 then 0 else |p[0]|;
    seq(rows, row requires 0 <= row < rows => codec.show(k) + sep + Concat(Across(p, row)))
  }

  /** Row `row` of a source: its own item, or its blank row past its end. */
  function ItemAt(lists: Lists, empties: seq<string>, i: nat, row: nat): (r: string)
    requires |empties| == |lists| && i < |lists|
  {
    if row < |lists[i]| then lists[i][row] else empties[i]
  }

  /** A key has as many rows as its longest list, and row `row` joins the key
      with every source's item of that row, sources past their end giving
      their blank row; nothing separates one source's item from the next. */
  lemma BlockSpec(k: int, lists: Lists, empties: seq<string>, sep: Separator, codec: KeyCodec)
    requires |empties| == |lists| > 0
    ensures var b := Block(k, lists, empties, sep, codec);
      && |b| == MaxLen(lists)
      && forall row :: 0 <= row < |b| ==>
        b[row] == codec.show(k) + sep + Concat(seq(|lists|, i requires 0 <= i < |lists| => ItemAt(lists, empties, i, row)))
  {
    var p := Padded(lists, empties);
    var b := Block(k, lists, empties, sep, codec);
    forall row | 0 <= row < |b|
      ensures b[row] == codec.show(k) + sep + Concat(seq(|lists|, i requires 0 <= i < |lists| => ItemAt(lists, empties, i, row)))
    {
      var items := seq(|lists|, i requires 0 <= i < |lists| => ItemAt(lists, empties, i, row));
      forall i | 0 <= i < |lists|
        ensures Across(p, row)[i] == items[i]
      {
        if row < |lists[i]| {
          assert p[i][..|lists[i]|][row] == lists[i][row];
        }
      }
      assert Across(p, row) == items;
    }
  }

  /** The block of every collected key. */
  function Blocks(m: Collected, empties: seq<string>, sep: Separator, codec: KeyCodec): (r: map<int, seq<string>>)
    requires Sized(m, |empties|)
  {
    map k | k in m :: Block(k, m[k], empties, sep, codec)
  }

  /** The blocks `bs` holds for `keys`, one after the other. */
  function Chain(keys: seq<int>, bs: map<int, seq<string>>): (r: seq<string>)
    requires forall j :: 0 <= j < |keys| ==> keys[j] in bs
  {
    if |keys| == 0 then [] else bs[keys[0]] + Chain(keys[1..], bs)
  }

  /** The blocks of `keys`, in that order: the rows the `TreeMap` walk
      writes when `keys` are its keys in iteration order. */
  function Rows(keys: seq<int>, m: Collected, empties: seq<string>, sep: Separator, codec: KeyCodec): (r: seq<string>)
    requires Sized(m, |empties|)
    requires forall j :: 0 <= j < |keys| ==> keys[j] in m
  {
    Chain(keys, Blocks(m, empties, sep, codec))
  }

  /** The key each row of `Rows` belongs to. */
  function RowKeys(keys: seq<int>, m: Collected): (r: seq<int>)
  {
    if |keys| == 0 then []
    else seq(if keys[0] in m then MaxLen(m[keys[0]]) else 0, _ => keys[0]) + RowKeys(keys[1..], m)
  }

  /** Every row starts with the key it belongs to and the separator. */
  lemma RowsStartWithKey(keys: seq<int>, m: Collected, empties: seq<string>, sep: Separator, codec: KeyCodec)
    requires |empties| > 0 && Sized(m, |empties|)
    requires forall j :: 0 <= j < |keys| ==> keys[j] in m
    ensures var rows := Rows(keys, m, empties, sep, codec);
      var rk := RowKeys(keys, m);
      && |rows| == |rk|
      && forall j :: 0 <= j < |rows| ==> codec.show(rk[j]) + sep <= rows[j]
  {
    var bs := Blocks(m, empties, sep, codec);
    forall k | k in m
      ensures k in bs && |bs[k]| == MaxLen(m[k])
      ensures forall r :: 0 <= r < |bs[k]| ==> codec.show(k) + sep <= bs[k][r]
    {
      BlockSpec(k, m[k], empties, sep, codec);
    }
    ChainStarts(keys, m, bs, codec.show, sep);
  }

  /** Each row of `rows` starts with its label in `rk` and the separator. */
  predicate Labelled(rows: seq<string>, rk: seq<int>, show: int -> string, sep: string) {
    && |rows| == |rk|
    && forall j :: 0 <= j < |rows| ==> show(rk[j]) + sep <= rows[j]
  }

  /** Every key of `m` has a block in `bs` as long as its longest list, whose
      rows all start with the key and the separator. */
  predicate BlocksLabelled(m: Collected, bs: map<int, seq<string>>, show: int -> string, sep: string) {
    forall k :: k in m ==>
      && k in bs
      && |bs[k]| == MaxLen(m[k])
      && forall r :: 0 <= r < |bs[k]| ==> show(k) + sep <= bs[k][r]
  }

  /** Labelled blocks chained one after the other are labelled by `RowKeys`. */
  lemma {:induction false} ChainStarts(keys: seq<int>, m: Collected, bs: map<int, seq<string>>, show: int -> string, sep: string)
    requires forall j :: 0 <= j < |keys| ==> keys[j] in m
    requires BlocksLabelled(m, bs, show, sep)
    ensures forall j :: 0 <= j < |keys| ==> keys[j] in bs
    ensures Labelled(Chain(keys, bs), RowKeys(keys, m), show, sep)
  {
    if |keys| > 0 {
      var k := keys[0];
      ChainStarts(keys[1..], m, bs, show, sep);
      var head := seq(if k in m then MaxLen(m[k]) else 0, _ => k);
      assert Chain(keys, bs) == bs[k] + Chain(keys[1..], bs);
      assert RowKeys(keys, m) == head + RowKeys(keys[1..], m);
      LabelledAppend(bs[k], Chain(keys[1..], bs), head, RowKeys(keys[1..], m), show, sep);
    }
  }

  /** Two labelled runs put one after the other stay labelled. */
  lemma LabelledAppend(b: seq<string>, rest: seq<string>, head: seq<int>, tail: seq<int>, show: int -> string, sep: string)
    requires Labelled(b, head, show, sep) && Labelled(rest, tail, show, sep)
    ensures Labelled(b + rest, head + tail, show, sep)
  {
    forall j | 0 <= j < |b + rest|
      ensures show((head + tail)[j]) + sep <= (b + rest)[j]
    {
      if j >= |b| {
        assert (b + rest)[j] == rest[j - |b|] && (head + tail)[j] == tail[j - |b|];
      }
    }
  }

  /** The length of each key's block: its longest list. */
  function BlockSizes(keys: seq<int>, m: Collected): (r: seq<nat>)
    ensures |r| == |keys| && forall j :: 0 <= j < |keys| && keys[j] in m ==> r[j] == MaxLen(m[keys[j]])
  {
    seq(|keys|, j requires 0 <= j < |keys| => if keys[j] in m then MaxLen(m[keys[j]]) else 0)
  }

  /** There are as many rows as the blocks' sizes add up to. */
  lemma {:induction false} RowCountIsSum(keys: seq<int>, m: Collected)
    ensures |RowKeys(keys, m)| == Sum(BlockSizes(keys, m))
  {
    if |keys| > 0 {
      RowCountIsSum(keys[1..], m);
      assert BlockSizes(keys, m)[1..] == BlockSizes(keys[1..], m);
    }
  }

  /** With ascending keys the rows' keys never decrease, and every one is
      among the keys. */
  lemma {:induction false} RowKeysAscend(keys: seq<int>, m: Collected)
    requires forall j :: 0 <= j < |keys| ==> keys[j] in m
    requires Increasing(keys)
    ensures forall j :: 0 <= j < |RowKeys(keys, m)| ==> RowKeys(keys, m)[j] in keys
    ensures forall a, b :: 0 <= a <= b < |RowKeys(keys, m)| ==> RowKeys(keys, m)[a] <= RowKeys(keys, m)[b]
  {
    if |keys| > 0 {
      var k := keys[0];
      var rest := keys[1..];
      RowKeysAscend(rest, m);
      var head := seq(if k in m then MaxLen(m[k]) else 0, _ => k);
      var tail := RowKeys(rest, m);
      var rk := RowKeys(keys, m);
      assert rk == head + tail;
      forall j | 0 <= j < |tail|
        ensures k < tail[j] && tail[j] in keys
      {
        var i :| 0 <= i < |rest| && rest[i] == tail[j];
        assert rest[i] == keys[i + 1];
      }
      forall j | 0 <= j < |rk|
        ensures rk[j] in keys
      {
        if j >= |head| {
          assert rk[j] == tail[j - |head|];
        }
      }
      forall a, b | 0 <= a <= b < |rk|
        ensures rk[a] <= rk[b]
      {
        if b >= |head| {
          assert rk[b] == tail[b - |head|];
          if a >= |head| {
            assert rk[a] == tail[a - |head|];
          }
        }
      }
    }
  }

  /** Each key present yields between one and `limit` rows when `limit` is
      positive, and no row at all otherwise. */
  lemma BlockSize(k: int, lists: Lists, empties: seq<string>, sep: Separator, codec: KeyCodec, limit: int)
    requires |empties| == |lists| > 0
    requires forall i :: 0 <= i < |lists| ==> |lists[i]| <= (if limit > 0 then limit else 0)
    ensures |Block(k, lists, empties, sep, codec)| <= (if limit > 0 then limit else 0)
    ensures (exists i :: 0 <= i < |lists| && |lists[i]| > 0) ==> |Block(k, lists, empties, sep, codec)| > 0
  {
    BlockSpec(k, lists, empties, sep, codec);
  }

  /** The head of an ascending sequence is its least element, and the tail
      holds all the others. */
  lemma IncreasingHead(xs: seq<int>)
    requires Increasing(xs) && |xs| > 0
    ensures forall y :: y in xs ==> xs[0] <= y
    ensures forall y :: y in xs[1..] <==> y in xs && y != xs[0]
  {
    forall y | y in xs
      ensures xs[0] <= y
    {
      var a :| 0 <= a < |xs| && xs[a] == y;
    }
    forall y | y in xs && y != xs[0]
      ensures y in xs[1..]
    {
      var a :| 0 <= a < |xs| && xs[a] == y;
      assert xs[1..][a - 1] == y;
    }
    forall y | y in xs[1..]
      ensures y != xs[0]
    {
      var a :| 0 <= a < |xs[1..]| && xs[1..][a] == y;
      assert xs[a + 1] == y;
    }
  }

  lemma HeadIsMember(xs: seq<int>)
    requires |xs| > 0
    ensures xs[0] in xs
  {
  }

  /** Two ascending key sequences holding the same keys are the same. */
  lemma {:induction false} IncreasingUnique(xs: seq<int>, ys: seq<int>)
    requires Increasing(xs) && Increasing(ys)
    requires forall y :: y in xs <==> y in ys
    ensures xs == ys
    decreases |xs|
  {
    if |xs| > 0 {
      HeadIsMember(xs);
    }
    if |ys| > 0 {
      HeadIsMember(ys);
    }
    if |xs| > 0 && |ys| > 0 {
      IncreasingHead(xs);
      IncreasingHead(ys);
      assert xs[0] == ys[0];
      IncreasingUnique(xs[1..], ys[1..]);
      assert xs == [xs[0]] + xs[1..] && ys == [ys[0]] + ys[1..];
    }
  }

  // ---------------------------------------------------------------------
  // The header
  // ---------------------------------------------------------------------

  /** The header line of every table. */
  function Heads(tables: seq<seq<string>>): (heads: seq<string>)
    requires forall i :: 0 <= i < |tables| ==> |tables[i]| > 0
    ensures |heads| == |tables| && forall i :: 0 <= i < |tables| ==> heads[i] == tables[i][0]
  {
    seq(|tables|, i requires 0 <= i < |tables| => tables[i][0])
  }

  /** The column titles one source adds: every header cell but the first,
      prefixed with `stem`, the source's file name without its extension. */
  function SourceLabels(stem: string, cells: seq<string>): (r: seq<string>)
    ensures |r| == if |cells| > 0 then |cells| - 1 else 0
    ensures forall j :: 0 <= j < |r| ==> r[j] == stem + cells[j + 1]
  {
    if |cells| <= 1 then []
    else seq(|cells| - 1, j requires 0 <= j < |cells| - 1 => stem + cells[j + 1])
  }

  /** The column titles of all sources, in source order. */
  function Labels(names: seq<string>, heads: seq<string>, sep: Separator): (r: seq<string>)
    requires |names| == |heads|
  {
    if |names| == 0 then []
    else
      var last := |names| - 1;
      Labels(names[..last], heads[..last], sep) + SourceLabels(NameOf(names[last]), Split(heads[last], sep))
  }

  /** The merged header: the first source's first header cell, then every
      title, each followed by the separator. */
  function Header(names: seq<string>, heads: seq<string>, sep: Separator): (r: string)
    requires |names| == |heads| > 0 && |Split(heads[0], sep)| > 0
  {
    Terminated([Split(heads[0], sep)[0]] + Labels(names, heads, sep), sep)
  }

  /** One source's titles are free of a one-character separator when its
      file name is. */
  lemma OwnLabelsPlain(stem: string, head: string, sep: Separator)
    requires |sep| == 1 && PlainCell(stem, sep)
    ensures var own := SourceLabels(stem, Split(head, sep));
      forall j :: 0 <= j < |own| ==> PlainCell(own[j], sep)
  {
    var cells := Split(head, sep);
    var own := SourceLabels(stem, cells);
    forall j | 0 <= j < |own|
      ensures PlainCell(own[j], sep)
    {
      NoOccurrencePlain(cells[j + 1], sep);
      assert own[j] == stem + cells[j + 1];
    }
  }

  lemma PlainAppend(a: seq<string>, b: seq<string>, sep: Separator)
    requires |sep| == 1
    requires forall j :: 0 <= j < |a| ==> PlainCell(a[j], sep)
    requires forall j :: 0 <= j < |b| ==> PlainCell(b[j], sep)
    ensures forall j :: 0 <= j < |a + b| ==> PlainCell((a + b)[j], sep)
  {
    forall j | 0 <= j < |a + b|
      ensures PlainCell((a + b)[j], sep)
    {
      if j >= |a| {
        assert (a + b)[j] == b[j - |a|];
      }
    }
  }

  /** Every title is free of a one-character separator when the file names
      are. */
  lemma {:induction false} LabelsPlain(names: seq<string>, heads: seq<string>, sep: Separator)
    requires |sep| == 1 && |names| == |heads|
    requires forall i :: 0 <= i < |names| ==> PlainCell(NameOf(names[i]), sep)
    ensures forall j :: 0 <= j < |Labels(names, heads, sep)| ==> PlainCell(Labels(names, heads, sep)[j], sep)
  {
    if |names| > 0 {
      var last := |names| - 1;
      LabelsPlain(names[..last], heads[..last], sep);
      OwnLabelsPlain(NameOf(names[last]), heads[last], sep);
      PlainAppend(Labels(names[..last], heads[..last], sep), SourceLabels(NameOf(names[last]), Split(heads[last], sep)), sep);
    }
  }

  /** The merged header opens with the first source's first header cell and
      the separator, and ends with the separator. */
  lemma HeaderShape(names: seq<string>, heads: seq<string>, sep: Separator)
    requires |names| == |heads| > 0 && |Split(heads[0], sep)| > 0
    ensures var h := Header(names, heads, sep);
      && Split(heads[0], sep)[0] + sep <= h
      && |sep| <= |h| && h[|h| - |sep|..] == sep
  {
    var cells := [Split(heads[0], sep)[0]] + Labels(names, heads, sep);
    TerminatedIsJoinPlusSep(cells, sep);
    assert cells[1..] == Labels(names, heads, sep);
  }

  /** Reading the merged header back with `split` gives the first source's
      first cell and then every title, when no file name holds the
      separator and the last title is not empty. */
  lemma HeaderCells(names: seq<string>, heads: seq<string>, sep: Separator)
    requires |sep| == 1 && |names| == |heads| > 0 && |Split(heads[0], sep)| > 0
    requires forall i :: 0 <= i < |names| ==> PlainCell(NameOf(names[i]), sep)
    requires var cells := [Split(heads[0], sep)[0]] + Labels(names, heads, sep); cells[|cells| - 1] != ""
    ensures Split(Header(names, heads, sep), sep) == [Split(heads[0], sep)[0]] + Labels(names, heads, sep)
  {
    var first := Split(heads[0], sep)[0];
    var cells := [first] + Labels(names, heads, sep);
    LabelsPlain(names, heads, sep);
    NoOccurrencePlain(first, sep);
    forall j | 0 <= j < |cells|
      ensures PlainCell(cells[j], sep)
    {
      if j > 0 {
        assert cells[j] == Labels(names, heads, sep)[j - 1];
      }
    }
    SplitTerminated(cells, sep);
  }

  // ---------------------------------------------------------------------
  // The whole merge
  // ---------------------------------------------------------------------

  /** `empty[i]`: a blank row as wide as source `i`'s header. */
  function Empties(heads: seq<string>, sep: Separator): (r: seq<string>)
    ensures |r| == |heads| && forall i :: 0 <= i < |heads| ==> r[i] == Blank(sep, Width(heads[i], sep))
  {
    seq(|heads|, i requires 0 <= i < |heads| => Blank(sep, Width(heads[i], sep)))
  }

  /** The rows written after the header: the blocks of the keys in
      ascending order. */
  function MergedRows(tables: seq<seq<string>>, sep: Separator, limit: int, codec: KeyCodec): (r: seq<string>)
    requires forall i :: 0 <= i < |tables| ==> |tables[i]| > 0
  {
    var m := Collect(tables, |tables|, limit, sep, codec);
    CollectSpec(tables, |tables|, limit, sep, codec);
    Rows(KeyOrder(tables, sep, codec), m, Empties(Heads(tables), sep), sep, codec)
  }

  /** The lines written for tables that were all read successfully. */
  function Assemble(names: seq<string>, tables: seq<seq<string>>, sep: Separator, limit: int, codec: KeyCodec): (r: seq<string>)
    requires |names| == |tables| > 0
    requires forall i :: 0 <= i < |tables| ==> |tables[i]| > 0
    requires |Split(tables[0][0], sep)| > 0
  {
    [Header(names, Heads(tables), sep)] + MergedRows(tables, sep, limit, codec)
  }

  /** Why reading source `i` fails, if it does: the read itself, an empty
      file (`lines.get(0)`), or, for the first source only, a header that
      splits to no cells (`cells[0]`). */
  function SourceFault(lines: Result<seq<string>, Fault>, sep: Separator, first: bool): (r: Option<Fault>)
  {
    match lines
    case Err(e) => Some(e)
    case Ok(ls) =>
      if |ls| == 0 then Some(IndexOutOfBounds)
      else if first && |Split(ls[0], sep)| == 0 then Some(IndexOutOfBounds)
      else None
  }

  function FaultAt(dir: Directory, names: seq<string>, matches: seq<seq<string>>, sep: Separator, j: nat): (r: Option<Fault>)
    requires |matches| == |names| && j < |names|
  {
    SourceFault(ReadAll(dir, names[j], matches[j]), sep, j == 0)
  }

  /** Every source read in order; `matches[j]` are the directory entries a
      wildcard in `names[j]` matches. */
  function ReadSources(dir: Directory, names: seq<string>, matches: seq<seq<string>>): (r: seq<Result<seq<string>, Fault>>)
    requires |matches| == |names|
    ensures |r| == |names|
    ensures forall j :: 0 <= j < |names| ==> r[j] == ReadAll(dir, names[j], matches[j])
  {
    seq(|names|, j requires 0 <= j < |names| => ReadAll(dir, names[j], matches[j]))
  }

  /** The sources from `i` on, taken in order; the first one at fault stops
      the merge with its fault. */
  function Load(results: seq<Result<seq<string>, Fault>>, sep: Separator, i: nat): (r: Result<seq<seq<string>>, Fault>)
    requires i <= |results|
    decreases |results| - i
    ensures r.Ok? ==> |r.value| == |results| - i
    ensures r.Ok? ==> forall j :: 0 <= j < |r.value| ==> |r.value[j]| > 0 && results[i + j] == Ok(r.value[j])
  {
    if i == |results| then Ok([])
    else
      match SourceFault(results[i], sep, i == 0)
      case Some(e) => Err(e)
      case None =>
        match Load(results, sep, i + 1)
        case Err(e) => Err(e)
        case Ok(rest) =>
          var out := [results[i].value] + rest;
          assert forall j :: 1 <= j < |out| ==> out[j] == rest[j - 1] && results[i + j] == results[(i + 1) + (j - 1)];
          Ok(out)
  }

  /** Loading succeeds exactly when no source is at fault, and otherwise
      fails with the fault of the first source that is. */
  lemma {:induction false} LoadFaults(results: seq<Result<seq<string>, Fault>>, sep: Separator, i: nat)
    requires i <= |results|
    decreases |results| - i
    ensures Load(results, sep, i).Ok? <==> forall j :: i <= j < |results| ==> SourceFault(results[j], sep, j == 0).None?
    ensures Load(results, sep, i).Err? ==> exists j :: (i <= j < |results| && SourceFault(results[j], sep, j == 0) == Some(Load(results, sep, i).error)
      && forall j' :: i <= j' < j ==> SourceFault(results[j'], sep, j' == 0).None?)
  {
    if i < |results| && SourceFault(results[i], sep, i == 0).None? {
      LoadFaults(results, sep, i + 1);
    }
  }

  /** `mergeByIndex(dir, in, out, separator, limit)`: the lines written to
      `out`. With no source the header stays `null`, which is what gets
      written. */
  function MergeByIndex(dir: Directory, names: seq<string>, matches: seq<seq<string>>, sep: Separator, limit: int, codec: KeyCodec): (r: Result<seq<string>, Fault>)
    requires |matches| == |names|
    ensures |names| == 0 ==> r == Ok(["null"])
    ensures |names| > 0 ==> (r.Ok? <==> forall j :: 0 <= j < |names| ==> FaultAt(dir, names, matches, sep, j).None?)
    ensures |names| > 0 && r.Ok? ==> |r.value| >= 1
  {
    if |names| == 0 then Ok(["null"])
    else
      var results := ReadSources(dir, names, matches);
      assert forall j :: 0 <= j < |names| ==> FaultAt(dir, names, matches, sep, j) == SourceFault(results[j], sep, j == 0);
      LoadFaults(results, sep, 0);
      var tables :- Load(results, sep, 0);
      Ok(Assemble(names, tables, sep, limit, codec))
  }

  /** `b` sits in `out` starting at index `o`. */
  predicate SliceAt(out: seq<string>, b: seq<string>, o: int) {
    0 <= o && o + |b| <= |out| && out[o..o + |b|] == b
  }

  lemma SliceShift(h: string, rows: seq<string>, b: seq<string>, o: int)
    requires SliceAt(rows, b, o)
    ensures SliceAt([h] + rows, b, o + 1)
  {
    assert ([h] + rows)[o + 1..o + 1 + |b|] == rows[o..o + |b|];
  }

  /** Chaining two runs of keys chains the chains. */
  lemma {:induction false} ChainAppend(k1: seq<int>, k2: seq<int>, bs: map<int, seq<string>>)
    requires forall x :: 0 <= x < |k1| ==> k1[x] in bs
    requires forall x :: 0 <= x < |k2| ==> k2[x] in bs
    ensures Chain(k1 + k2, bs) == Chain(k1, bs) + Chain(k2, bs)
  {
    if |k1| == 0 {
      assert k1 + k2 == k2;
    } else {
      assert (k1 + k2)[0] == k1[0];
      assert (k1 + k2)[1..] == k1[1..] + k2;
      ChainAppend(k1[1..], k2, bs);
    }
  }

  /** The block of `keys[j]` sits, whole, after the blocks of the keys before
      it. */
  lemma ChainContains(keys: seq<int>, bs: map<int, seq<string>>, j: nat)
    requires forall x :: 0 <= x < |keys| ==> keys[x] in bs
    requires j < |keys|
    ensures SliceAt(Chain(keys, bs), bs[keys[j]], |Chain(keys[..j], bs)|)
  {
    var k := keys[j];
    var front, back := keys[..j], keys[j + 1..];
    assert keys == front + [k] + back;
    ChainAppend(front + [k], back, bs);
    ChainAppend(front, [k], bs);
    assert [k][1..] == [];
    var before := Chain(front, bs);
    var chain := Chain(keys, bs);
    assert chain == before + bs[k] + Chain(back, bs);
    assert chain[|before|..|before| + |bs[k]|] == bs[k];
  }

  /** Where the block of a listed key sits in the chain. */
  lemma ChainHas(keys: seq<int>, bs: map<int, seq<string>>, k: int) returns (o: nat)
    requires forall x :: 0 <= x < |keys| ==> keys[x] in bs
    requires k in keys
    ensures k in bs && SliceAt(Chain(keys, bs), bs[k], o)
  {
    var j :| 0 <= j < |keys| && keys[j] == k;
    ChainContains(keys, bs, j);
    o := |Chain(keys[..j], bs)|;
  }

  /** A chain reads `bs` only at the keys it lists. */
  lemma {:induction false} ChainCongruent(keys: seq<int>, b1: map<int, seq<string>>, b2: map<int, seq<string>>)
    requires forall j :: 0 <= j < |keys| ==> keys[j] in b1 && keys[j] in b2 && b1[keys[j]] == b2[keys[j]]
    ensures Chain(keys, b1) == Chain(keys, b2)
  {
    if |keys| > 0 {
      ChainCongruent(keys[1..], b1, b2);
    }
  }

  /** Empty blocks chain to nothing. */
  lemma {:induction false} ChainOfEmpty(keys: seq<int>, bs: map<int, seq<string>>)
    requires forall j :: 0 <= j < |keys| ==> keys[j] in bs && bs[keys[j]] == []
    ensures Chain(keys, bs) == []
  {
    if |keys| > 0 {
      ChainOfEmpty(keys[1..], bs);
    }
  }

  /** The merged rows are the blocks of the keys in ascending order, every
      key having its lists collected. */
  lemma MergedRowsIs(tables: seq<seq<string>>, sep: Separator, limit: int, codec: KeyCodec)
    requires forall i :: 0 <= i < |tables| ==> |tables[i]| > 0
    ensures var m := Collect(tables, |tables|, limit, sep, codec);
      && (forall k :: k in KeyOrder(tables, sep, codec) ==> k in m)
      && Sized(m, |tables|)
      && MergedRows(tables, sep, limit, codec) == Rows(KeyOrder(tables, sep, codec), m, Empties(Heads(tables), sep), sep, codec)
  {
    CollectSpec(tables, |tables|, limit, sep, codec);
  }

  /** `rows` are the blocks of `keys`, all of them collected in `m`. */
  predicate RowsOf(rows: seq<string>, keys: seq<int>, m: Collected, empties: seq<string>, sep: Separator, codec: KeyCodec) {
    && Sized(m, |empties|)
    && (forall x :: 0 <= x < |keys| ==> keys[x] in m)
    && rows == Rows(keys, m, empties, sep, codec)
  }

  lemma MergedRowsOf(tables: seq<seq<string>>, sep: Separator, limit: int, codec: KeyCodec)
    requires forall i :: 0 <= i < |tables| ==> |tables[i]| > 0
    ensures RowsOf(MergedRows(tables, sep, limit, codec), KeyOrder(tables, sep, codec),
      Collect(tables, |tables|, limit, sep, codec), Empties(Heads(tables), sep), sep, codec)
  {
    MergedRowsIs(tables, sep, limit, codec);
  }

  /** The header comes first; then come the rows, each opening with its key
      and the separator, in ascending key order, every row's key one that
      some source carries. */
  lemma MergeShape(names: seq<string>, tables: seq<seq<string>>, sep: Separator, limit: int, codec: KeyCodec)
    requires |names| == |tables| > 0
    requires forall i :: 0 <= i < |tables| ==> |tables[i]| > 0
    requires |Split(tables[0][0], sep)| > 0
    ensures var out := Assemble(names, tables, sep, limit, codec);
      var rk := RowKeys(KeyOrder(tables, sep, codec), Collect(tables, |tables|, limit, sep, codec));
      && out[0] == Header(names, Heads(tables), sep)
      && |out| == 1 + |rk|
      && (forall j :: 0 <= j < |rk| ==> codec.show(rk[j]) + sep <= out[j + 1])
      && (forall a, b :: 0 <= a <= b < |rk| ==> rk[a] <= rk[b])
      && (forall j :: 0 <= j < |rk| ==> rk[j] in AllKeys(tables, sep, codec))
  {
    var rows := MergedRows(tables, sep, limit, codec);
    var h := Header(names, Heads(tables), sep);
    MergedRowsShape(tables, sep, limit, codec);
    assert Assemble(names, tables, sep, limit, codec) == [h] + rows;
    HeadedRowsStart(h, rows, RowKeys(KeyOrder(tables, sep, codec), Collect(tables, |tables|, limit, sep, codec)), sep, codec);
  }

  /** The output is the header and, per key, as many rows as the key's
      longest list: `1 + Σ max` lines. */
  lemma MergeRowCount(names: seq<string>, tables: seq<seq<string>>, sep: Separator, limit: int, codec: KeyCodec)
    requires |names| == |tables| > 0
    requires forall i :: 0 <= i < |tables| ==> |tables[i]| > 0
    requires |Split(tables[0][0], sep)| > 0
    ensures |Assemble(names, tables, sep, limit, codec)| ==
      1 + Sum(BlockSizes(KeyOrder(tables, sep, codec), Collect(tables, |tables|, limit, sep, codec)))
  {
    MergeShape(names, tables, sep, limit, codec);
    RowCountIsSum(KeyOrder(tables, sep, codec), Collect(tables, |tables|, limit, sep, codec));
  }

  lemma HeadedRowsStart(h: string, rows: seq<string>, rk: seq<int>, sep: Separator, codec: KeyCodec)
    requires |rows| == |rk| && forall j :: 0 <= j < |rk| ==> codec.show(rk[j]) + sep <= rows[j]
    ensures forall j :: 0 <= j < |rk| ==> codec.show(rk[j]) + sep <= ([h] + rows)[j + 1]
  {
  }

  /** The shape of the merged rows: one per entry of `RowKeys`, each opening
      with its key, the keys ascending and each carried by some source. */
  lemma MergedRowsShape(tables: seq<seq<string>>, sep: Separator, limit: int, codec: KeyCodec)
    requires |tables| > 0
    requires forall i :: 0 <= i < |tables| ==> |tables[i]| > 0
    ensures var rows := MergedRows(tables, sep, limit, codec);
      var rk := RowKeys(KeyOrder(tables, sep, codec), Collect(tables, |tables|, limit, sep, codec));
      && |rows| == |rk|
      && (forall j :: 0 <= j < |rk| ==> codec.show(rk[j]) + sep <= rows[j])
      && (forall a, b :: 0 <= a <= b < |rk| ==> rk[a] <= rk[b])
      && (forall j :: 0 <= j < |rk| ==> rk[j] in AllKeys(tables, sep, codec))
  {
    var m := Collect(tables, |tables|, limit, sep, codec);
    var keys := KeyOrder(tables, sep, codec);
    MergedRowsIs(tables, sep, limit, codec);
    RowsStartWithKey(keys, m, Empties(Heads(tables), sep), sep, codec);
    RowKeysAscend(keys, m);
  }

  /** Per source, the first `limit` remainders of the lines with key `k`. */
  function KeyLists(tables: seq<seq<string>>, k: int, limit: int, sep: Separator, codec: KeyCodec): (lists: Lists)
    ensures |lists| == |tables|
    ensures forall i :: 0 <= i < |tables| ==> lists[i] == Take(Rems(Data(tables[i]), k, sep, codec), limit)
  {
    seq(|tables|, i requires 0 <= i < |tables| => Take(Rems(Data(tables[i]), k, sep, codec), limit))
  }

  lemma CollectedLists(tables: seq<seq<string>>, k: int, limit: int, sep: Separator, codec: KeyCodec)
    requires k in AllKeys(tables, sep, codec)
    ensures k in Collect(tables, |tables|, limit, sep, codec)
    ensures Collect(tables, |tables|, limit, sep, codec)[k] == KeyLists(tables, k, limit, sep, codec)
  {
    CollectSpec(tables, |tables|, limit, sep, codec);
  }

  /** Every key some source carries gets its block in the output, in one
      piece, after the header: the block of its lists, which hold, per
      source, the first `limit` remainders of the lines with that key in
      file order. */
  lemma MergeHasBlock(names: seq<string>, tables: seq<seq<string>>, sep: Separator, limit: int, codec: KeyCodec, k: int)
    requires |names| == |tables| > 0
    requires forall i :: 0 <= i < |tables| ==> |tables[i]| > 0
    requires |Split(tables[0][0], sep)| > 0
    requires k in AllKeys(tables, sep, codec)
    ensures exists o :: 1 <= o && SliceAt(Assemble(names, tables, sep, limit, codec),
      Block(k, KeyLists(tables, k, limit, sep, codec), Empties(Heads(tables), sep), sep, codec), o)
  {
    var rows := MergedRows(tables, sep, limit, codec);
    var b := Block(k, KeyLists(tables, k, limit, sep, codec), Empties(Heads(tables), sep), sep, codec);
    var o := MergedRowsHaveBlock(tables, sep, limit, codec, k);
    var h := Header(names, Heads(tables), sep);
    SliceShift(h, rows, b, o);
    assert Assemble(names, tables, sep, limit, codec) == [h] + rows;
    assert SliceAt(Assemble(names, tables, sep, limit, codec), b, o + 1);
  }

  /** Where key `k`'s block sits in the merged rows. */
  lemma MergedRowsHaveBlock(tables: seq<seq<string>>, sep: Separator, limit: int, codec: KeyCodec, k: int) returns (o: nat)
    requires forall i :: 0 <= i < |tables| ==> |tables[i]| > 0
    requires k in AllKeys(tables, sep, codec)
    ensures SliceAt(MergedRows(tables, sep, limit, codec),
      Block(k, KeyLists(tables, k, limit, sep, codec), Empties(Heads(tables), sep), sep, codec), o)
  {
    var m := Collect(tables, |tables|, limit, sep, codec);
    var keys := KeyOrder(tables, sep, codec);
    var lists := KeyLists(tables, k, limit, sep, codec);
    MergedRowsOf(tables, sep, limit, codec);
    CollectedLists(tables, k, limit, sep, codec);
    o := RowsHaveBlock(MergedRows(tables, sep, limit, codec), keys, m, Empties(Heads(tables), sep), sep, codec, k, lists);
  }

  /** Where the block of a listed key sits in the rows. */
  lemma RowsHaveBlock(rows: seq<string>, keys: seq<int>, m: Collected, empties: seq<string>, sep: Separator, codec: KeyCodec, k: int, lists: Lists)
    returns (o: nat)
    requires RowsOf(rows, keys, m, empties, sep, codec)
    requires k in keys && k in m && m[k] == lists
    ensures SliceAt(rows, Block(k, lists, empties, sep, codec), o)
  {
    var bs := Blocks(m, empties, sep, codec);
    o := ChainHas(keys, bs, k);
  }

  /** Blocks of keys whose lists are all empty contribute nothing. */
  lemma RowsOfEmpty(keys: seq<int>, m: Collected, empties: seq<string>, sep: Separator, codec: KeyCodec)
    requires |empties| > 0 && Sized(m, |empties|)
    requires forall x :: 0 <= x < |keys| ==> keys[x] in m
    requires forall k, i :: k in m && 0 <= i < |empties| ==> m[k][i] == []
    ensures Rows(keys, m, empties, sep, codec) == []
  {
    var bs := Blocks(m, empties, sep, codec);
    forall j | 0 <= j < |keys|
      ensures bs[keys[j]] == []
    {
      BlockSpec(keys[j], m[keys[j]], empties, sep, codec);
    }
    ChainOfEmpty(keys, bs);
  }

  /** With `limit <= 0` nothing is captured and only the header is written,
      though keys are still entered in the map. */
  lemma MergeLimitZero(names: seq<string>, tables: seq<seq<string>>, sep: Separator, limit: int, codec: KeyCodec)
    requires |names| == |tables| > 0
    requires forall i :: 0 <= i < |tables| ==> |tables[i]| > 0
    requires |Split(tables[0][0], sep)| > 0
    requires limit <= 0
    ensures Assemble(names, tables, sep, limit, codec) == [Header(names, Heads(tables), sep)]
  {
    MergedRowsLimitZero(tables, sep, limit, codec);
    assert Assemble(names, tables, sep, limit, codec) == [Header(names, Heads(tables), sep)] + MergedRows(tables, sep, limit, codec);
  }

  lemma MergedRowsLimitZero(tables: seq<seq<string>>, sep: Separator, limit: int, codec: KeyCodec)
    requires |tables| > 0
    requires forall i :: 0 <= i < |tables| ==> |tables[i]| > 0
    requires limit <= 0
    ensures MergedRows(tables, sep, limit, codec) == []
  {
    MergedRowsIs(tables, sep, limit, codec);
    CollectNothing(tables, sep, limit, codec);
    RowsOfEmpty(KeyOrder(tables, sep, codec), Collect(tables, |tables|, limit, sep, codec), Empties(Heads(tables), sep), sep, codec);
  }

  lemma CollectNothing(tables: seq<seq<string>>, sep: Separator, limit: int, codec: KeyCodec)
    requires limit <= 0
    ensures var m := Collect(tables, |tables|, limit, sep, codec);
      forall k, i :: k in m && 0 <= i < |tables| ==> m[k][i] == []
  {
    var m := Collect(tables, |tables|, limit, sep, codec);
    CollectSpec(tables, |tables|, limit, sep, codec);
    forall k, i | k in m && 0 <= i < |tables|
      ensures m[k][i] == []
    {
      assert |Take(Rems(Data(tables[i]), k, sep, codec), limit)| == 0;
    }
  }

  /** A key some source carries has between one and `limit` rows when
      `limit` is positive: as many as the source with the most captured
      lines of that key. */
  lemma KeyRowCount(tables: seq<seq<string>>, k: int, limit: int, empties: seq<string>, sep: Separator, codec: KeyCodec)
    requires |empties| == |tables| > 0
    requires k in AllKeys(tables, sep, codec)
    ensures var b := Block(k, KeyLists(tables, k, limit, sep, codec), empties, sep, codec);
      && |b| <= (if limit > 0 then limit else 0)
      && (limit > 0 ==> |b| > 0)
      && forall i :: 0 <= i < |tables| ==> |Take(Rems(Data(tables[i]), k, sep, codec), limit)| <= |b|
  {
    var lists := KeyLists(tables, k, limit, sep, codec);
    AllKeysFrom(tables, k, sep, codec);
    var j :| 0 <= j < |tables| && k in KeysOf(Data(tables[j]), sep, codec);
    KeysOfIff(Data(tables[j]), k, sep, codec);
    assert |lists[j]| > 0 || limit <= 0;
    BlockSize(k, lists, empties, sep, codec, limit);
    BlockSpec(k, lists, empties, sep, codec);
  }

  /** Tables whose sources agree, key by key, on the remainders. */
  ghost predicate SameView(t1: seq<seq<string>>, t2: seq<seq<string>>, sep: Separator, codec: KeyCodec) {
    |t1| == |t2| && forall i, k :: 0 <= i < |t1| ==> Rems(Data(t1[i]), k, sep, codec) == Rems(Data(t2[i]), k, sep, codec)
  }

  lemma SameKeys(t1: seq<seq<string>>, t2: seq<seq<string>>, sep: Separator, codec: KeyCodec)
    requires SameView(t1, t2, sep, codec)
    ensures forall k :: k in AllKeys(t1, sep, codec) <==> k in AllKeys(t2, sep, codec)
    ensures KeyOrder(t1, sep, codec) == KeyOrder(t2, sep, codec)
  {
    forall k
      ensures k in AllKeys(t1, sep, codec) <==> k in AllKeys(t2, sep, codec)
    {
      if k in AllKeys(t1, sep, codec) {
        AllKeysFrom(t1, k, sep, codec);
        var j :| 0 <= j < |t1| && k in KeysOf(Data(t1[j]), sep, codec);
        KeysOfIff(Data(t1[j]), k, sep, codec);
        KeysOfIff(Data(t2[j]), k, sep, codec);
        AllKeysHas(t2, j, k, sep, codec);
      }
      if k in AllKeys(t2, sep, codec) {
        AllKeysFrom(t2, k, sep, codec);
        var j :| 0 <= j < |t2| && k in KeysOf(Data(t2[j]), sep, codec);
        KeysOfIff(Data(t1[j]), k, sep, codec);
        KeysOfIff(Data(t2[j]), k, sep, codec);
        AllKeysHas(t1, j, k, sep, codec);
      }
    }
    IncreasingUnique(KeyOrder(t1, sep, codec), KeyOrder(t2, sep, codec));
  }

  lemma CollectKeys(tables: seq<seq<string>>, limit: int, sep: Separator, codec: KeyCodec)
    ensures Collect(tables, |tables|, limit, sep, codec).Keys == AllKeys(tables, sep, codec)
  {
    CollectSpec(tables, |tables|, limit, sep, codec);
  }

  lemma SameListsAt(t1: seq<seq<string>>, t2: seq<seq<string>>, k: int, limit: int, sep: Separator, codec: KeyCodec)
    requires SameView(t1, t2, sep, codec)
    requires k in Collect(t1, |t1|, limit, sep, codec) && k in Collect(t2, |t2|, limit, sep, codec)
    ensures Collect(t1, |t1|, limit, sep, codec)[k] == Collect(t2, |t2|, limit, sep, codec)[k]
  {
    CollectKeys(t1, limit, sep, codec);
    CollectKeys(t2, limit, sep, codec);
    CollectedLists(t1, k, limit, sep, codec);
    CollectedLists(t2, k, limit, sep, codec);
    assert KeyLists(t1, k, limit, sep, codec) == KeyLists(t2, k, limit, sep, codec);
  }

  /** Rows read the map only at the keys they list. */
  lemma RowsCongruent(keys: seq<int>, m1: Collected, m2: Collected, empties: seq<string>, sep: Separator, codec: KeyCodec)
    requires Sized(m1, |empties|) && Sized(m2, |empties|)
    requires forall j :: 0 <= j < |keys| ==> keys[j] in m1 && keys[j] in m2 && m1[keys[j]] == m2[keys[j]]
    ensures Rows(keys, m1, empties, sep, codec) == Rows(keys, m2, empties, sep, codec)
  {
    ChainCongruent(keys, Blocks(m1, empties, sep, codec), Blocks(m2, empties, sep, codec));
  }

  /** Two sets of tables that agree on every header and, per source and
      key, on the remainders of the lines with that key produce the same
      output: nothing else about the data lines matters. */
  lemma MergeDependsOnView(names: seq<string>, t1: seq<seq<string>>, t2: seq<seq<string>>, sep: Separator, limit: int, codec: KeyCodec)
    requires |names| == |t1| == |t2| > 0
    requires forall i :: 0 <= i < |t1| ==> |t1[i]| > 0 && |t2[i]| > 0 && t1[i][0] == t2[i][0]
    requires |Split(t1[0][0], sep)| > 0
    requires forall i, k :: 0 <= i < |t1| ==> Rems(Data(t1[i]), k, sep, codec) == Rems(Data(t2[i]), k, sep, codec)
    ensures Assemble(names, t1, sep, limit, codec) == Assemble(names, t2, sep, limit, codec)
  {
    SameKeys(t1, t2, sep, codec);
    var keys := KeyOrder(t1, sep, codec);
    var m1 := Collect(t1, |t1|, limit, sep, codec);
    var m2 := Collect(t2, |t2|, limit, sep, codec);
    MergedRowsIs(t1, sep, limit, codec);
    MergedRowsIs(t2, sep, limit, codec);
    forall j | 0 <= j < |keys|
      ensures keys[j] in m1 && keys[j] in m2 && m1[keys[j]] == m2[keys[j]]
    {
      SameListsAt(t1, t2, keys[j], limit, sep, codec);
    }
    assert Heads(t1) == Heads(t2);
    RowsCongruent(keys, m1, m2, Empties(Heads(t1), sep), sep, codec);
  }

  /** A data line that is skipped (no separator, or a key that does not
      parse) has no effect on the output. */
  lemma SkippedLineInvisible(names: seq<string>, tables: seq<seq<string>>, i: nat, h: string, a: seq<string>, x: string, b: seq<string>,
                             sep: Separator, limit: int, codec: KeyCodec)
    requires |names| == |tables| > 0
    requires forall j :: 0 <= j < |tables| ==> |tables[j]| > 0
    requires |Split(tables[0][0], sep)| > 0
    requires i < |tables| && tables[i] == [h] + a + [x] + b
    requires ParseLine(x, sep, codec).None?
    ensures Assemble(names, tables[i := [h] + a + b], sep, limit, codec) == Assemble(names, tables, sep, limit, codec)
  {
    var row := [h] + a + b;
    assert Data(tables[i]) == a + [x] + b;
    assert Data(row) == a + b;
    forall k ensures Rems(Data(row), k, sep, codec) == Rems(Data(tables[i]), k, sep, codec) {
      SkipRems(a, x, b, k, sep, codec);
    }
    UpdateOneSource(tables, i, row, sep, codec);
    MergeDependsOnView(names, tables[i := row], tables, sep, limit, codec);
  }

  /** Replacing one source by another with the same header and the same
      remainders for every key leaves every source's view unchanged. */
  lemma UpdateOneSource(tables: seq<seq<string>>, i: nat, row: seq<string>, sep: Separator, codec: KeyCodec)
    requires forall j :: 0 <= j < |tables| ==> |tables[j]| > 0
    requires i < |tables| && |row| > 0 && row[0] == tables[i][0]
    requires forall k :: Rems(Data(row), k, sep, codec) == Rems(Data(tables[i]), k, sep, codec)
    ensures forall j :: 0 <= j < |tables| ==> tables[i := row][j][0] == tables[j][0]
    ensures forall j, k :: 0 <= j < |tables| ==> Rems(Data(tables[i := row][j]), k, sep, codec) == Rems(Data(tables[j]), k, sep, codec)
  {
  }

  /** Within one source, a line that does not parse adds no remainder for any
      key. */
  lemma SkipRems(a: seq<string>, x: string, b: seq<string>, k: int, sep: Separator, codec: KeyCodec)
    requires ParseLine(x, sep, codec).None?
    ensures Rems(a + b, k, sep, codec) == Rems(a + [x] + b, k, sep, codec)
  {
    RemsAppend(a + [x], b, k, sep, codec);
    RemsAppend(a, [x], k, sep, codec);
    RemsAppend(a, b, k, sep, codec);
    assert [x][..0] == [];
    assert (a + [x]) + b == a + [x] + b;
  }

  /** Two neighbouring data lines that do not carry the same key can trade
      places without changing the output: only the order of lines within
      one key matters. */
  lemma SwapAcrossKeys(names: seq<string>, tables: seq<seq<string>>, i: nat, h: string, a: seq<string>, x: string, y: string, b: seq<string>,
                       sep: Separator, limit: int, codec: KeyCodec)
    requires |names| == |tables| > 0
    requires forall j :: 0 <= j < |tables| ==> |tables[j]| > 0
    requires |Split(tables[0][0], sep)| > 0
    requires i < |tables| && tables[i] == [h] + a + [x, y] + b
    requires forall k :: !(LineOf(x, k, sep, codec) && LineOf(y, k, sep, codec))
    ensures Assemble(names, tables[i := [h] + a + [y, x] + b], sep, limit, codec) == Assemble(names, tables, sep, limit, codec)
  {
    var row := [h] + a + [y, x] + b;
    assert Data(tables[i]) == a + [x, y] + b;
    assert Data(row) == a + [y, x] + b;
    forall k ensures Rems(Data(row), k, sep, codec) == Rems(Data(tables[i]), k, sep, codec) {
      SwapRems(a, x, y, b, k, sep, codec);
    }
    UpdateOneSource(tables, i, row, sep, codec);
    MergeDependsOnView(names, tables[i := row], tables, sep, limit, codec);
  }

  /** Within one source, two neighbouring lines that do not both carry `k`
      can trade places without changing `k`'s remainders. */
  lemma SwapRems(a: seq<string>, x: string, y: string, b: seq<string>, k: int, sep: Separator, codec: KeyCodec)
    requires !(LineOf(x, k, sep, codec) && LineOf(y, k, sep, codec))
    ensures Rems(a + [y, x] + b, k, sep, codec) == Rems(a + [x, y] + b, k, sep, codec)
  {
    RemsAppend(a + [x, y], b, k, sep, codec);
    RemsAppend(a, [x, y], k, sep, codec);
    RemsAppend(a + [y, x], b, k, sep, codec);
    RemsAppend(a, [y, x], k, sep, codec);
    assert [x, y][..1] == [x] && [y, x][..1] == [y];
    assert [x][..0] == [] && [y][..0] == [];
    assert (a + [x, y]) + b == a + [x, y] + b;
    assert (a + [y, x]) + b == a + [y, x] + b;
  }
}
