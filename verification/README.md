# Phone sensor data processor: the table engine, in Dafny

This project models the text-table engine of the Phone-Sensor-Data-Processor.
It covers `SpreadsheetHandler`, the table logic of the two sensor pipelines
(`Main_SensorDataProcessor` and the older `SensorDataProcessor`), and the line
store of `IO`. Files are comma-separated tables held as lines of text.

Every operation is a pure function over sequences of strings:

- A directory is a map from file name to file text.
- Reading splits a text into lines.
- Writing puts a line separator after every line.
- Exceptions are values of `Faults.Fault`.

Modules:

- `RowCodec`: `String.indexOf`, and Java `String.split` with a literal
  separator. A line without the separator is one cell, and trailing empty
  cells are dropped. Also the "every cell followed by the separator" layout.
- `Padding`: both `pad` overloads.
- `UniformMerge`: `merge`, a side-by-side join of tables by line position.
- `ColumnTransform`: `modifyColumn`.
  - The modifier is a parameter that threads a state and may fail, which is
    how the stateful `TimeElapser` is expressed.
  - The model states the `woffset` loop as written, and also as a reference
    description: cells before the column are copied, then the modifier
    cascades over deleted cells.
- `KeyedMerge`: `mergeByIndex`.
  - Keys come from an opaque `parse`/`show` pair standing for
    `Double.parseDouble` and `Double.toString`. Keys are numbered by `int` in
    `TreeMap` order.
  - The ordered map is a `map` plus the ascending key sequence `KeyOrder`.
  - The output is the header, then one block of rows per key.
- `FileIO`: `readLines` (bounded and unbounded, with the wildcard match-count
  rule), `writeLines`, `pullFirst` and `nameOf`.
- `SensorPipeline`:
  - both `timeToSeconds`;
  - the `dateResolve` and `TimeElapser` modifiers;
  - both `trimPartiallyEmpty`, plus a corrected trim (see Findings).
- `Seqs`, `Wrappers`, `Faults`: shared helpers, `Option`/`Result`, and
  exceptions.

Paths in the source column are relative to the repository root.

## Model

| member | source | states |
|---|---|---|
| RowCodec.IndexOf | src/dataprocessor/data/manipulation/SpreadsheetHandler.java:39 | The answer is an occurrence of the separator with no earlier one. `None` exactly when the separator occurs nowhere. |
| RowCodec.ContainsIff | src/dataprocessor/data/manipulation/SpreadsheetHandler.java:39 | `Contains` (a found `indexOf`) holds iff the text occurs at some position. |
| RowCodec.Split | src/dataprocessor/data/manipulation/SpreadsheetHandler.java:31 | Java `split`, in these cases: (1) no separator gives the whole line as one cell; (2) otherwise the cells are a prefix of the raw cut, and every dropped cell is empty; (3) no cell holds the separator; (4) the last cell of a nonempty line is not empty. |
| RowCodec.SplitJoin | src/dataprocessor/data/manipulation/SpreadsheetHandler.java:31 | Round trip: cells without the separator, joined and split again, come back, unless the join ends in an empty cell. Stated for a one-character separator. |
| RowCodec.SplitTerminated | src/dataprocessor/data/manipulation/SpreadsheetHandler.java:103-105 | A line written with every cell followed by the separator splits back into those cells. The trailing separator is invisible. Stated for a one-character separator. |
| RowCodec.SplitSnocSep | src/dataprocessor/data/manipulation/SpreadsheetHandler.java:148-150 | Appending a separator to a nonempty line does not change its cells, for a one-character separator. |
| RowCodec.TerminatedAppend | src/dataprocessor/data/manipulation/SpreadsheetHandler.java:98-107 | Writing cells with a trailing separator each distributes over concatenation. |
| Padding.PadLineShape | src/dataprocessor/data/manipulation/SpreadsheetHandler.java:147-152 | `pad(line, sep, to)` keeps the line as a prefix. It appends exactly `to - width` separators, or none when the line is already that wide. Stated for a one-character separator. |
| Padding.PadLineInvisible | src/dataprocessor/data/manipulation/SpreadsheetHandler.java:147-152 | Padding never changes a nonempty line's cells, so the padded line still has the same width, for a one-character separator. |
| Padding.BlankIsSeparators | src/dataprocessor/data/manipulation/SpreadsheetHandler.java:143 | The blank row `pad("", sep, columns)` is `columns - 1` separators, because `"".split` has one cell. |
| UniformMerge.MaxWidth | src/dataprocessor/data/manipulation/SpreadsheetHandler.java:119-121 | The table's column count is at least every line's width and is attained by some line. It is 0 for an empty table. |
| UniformMerge.PaddedTables | src/dataprocessor/data/manipulation/SpreadsheetHandler.java:128-130 | After `pad(List, …)` every table has the longest table's line count plus one, since the loop runs up to `rows` inclusive. |
| UniformMerge.PaddedTableAt | src/dataprocessor/data/manipulation/SpreadsheetHandler.java:141-146 | Row `i` of a padded table is line `i` padded to the table's width or, past the table's end, the blank row. |
| UniformMerge.MergeRows | src/dataprocessor/data/manipulation/SpreadsheetHandler.java:131-138 | `merge` gives as many lines as the longest input. Line `i` concatenates each table's contribution at row `i`, in table order, with nothing between them. |
| UniformMerge.MergeSingle | src/dataprocessor/data/manipulation/SpreadsheetHandler.java:111-140 | Merging one table gives its own lines, in order, each padded to the table's width. |
| ColumnTransform.ModifyColumn | src/dataprocessor/data/manipulation/SpreadsheetHandler.java:87-110 | A successful `modifyColumn` has exactly one output line per input line, header included. |
| ColumnTransform.RewriteLineMatchesSpec | src/dataprocessor/data/manipulation/SpreadsheetHandler.java:94-107 | The `woffset` loop equals the reference description. The cells before the column are copied. From the column on, the modifier cascades over deleted cells until it keeps one, and the rest is copied. A line too short is copied whole. |
| ColumnTransform.ShortLinePassesThrough | src/dataprocessor/data/manipulation/SpreadsheetHandler.java:98-105 | A line with at most `column` cells is re-emitted cell by cell, each cell followed by the separator. The modifier is not consulted and its state is unchanged. |
| ColumnTransform.KeptCellReplaced | src/dataprocessor/data/manipulation/SpreadsheetHandler.java:99-103 | When the modifier keeps the target cell, only that cell changes. Every other cell is copied in place. |
| ColumnTransform.DeletionCascades | src/dataprocessor/data/manipulation/SpreadsheetHandler.java:97-105 | If the modifier deletes `d` cells and then keeps one, those `d` cells disappear and its value takes their place. All later cells are copied. |
| ColumnTransform.DeletionToEnd | src/dataprocessor/data/manipulation/SpreadsheetHandler.java:97-105 | If the modifier deletes every cell from the column on, the line is cut just before the column. |
| ColumnTransform.LiftedLineSucceeds | src/dataprocessor/data/manipulation/SpreadsheetHandler.java:99-104 | A stateless modifier never makes a line fail. |
| ColumnTransform.StatelessLineByLine | src/dataprocessor/data/manipulation/SpreadsheetHandler.java:94-108 | With a stateless modifier the table succeeds, keeps its line count, and each output line is that line's own rewrite. |
| ColumnTransform.RewriteLinesAppend | src/dataprocessor/data/manipulation/SpreadsheetHandler.java:94-108 | The line loop over `a + b` is the loop over `a` and then, from the state `a` leaves, the loop over `b`. A fault in `a` stops it before `b`. |
| ColumnTransform.ThreadedLine | src/dataprocessor/data/manipulation/SpreadsheetHandler.java:94-108 | Line `k` is rewritten from the state the lines before it leave. If that rewrite throws, the table fails with that fault. If the table succeeds, output line `k` is that rewrite and the earlier output lines are the prefix's output. |
| ColumnTransform.FirstFailingLine | src/dataprocessor/data/manipulation/SpreadsheetHandler.java:94-108 | A failed table has a first failing line `k`: the lines before it succeed, and line `k`'s rewrite from their state throws the table's fault. |
| ColumnTransform.DeleteAllTruncates | src/dataprocessor/main/Main_SensorDataProcessor.java:65-66 | The always-empty modifier cuts every line, header included, just before the column. Lines shorter than the column are only re-terminated. |
| KeyedMerge.ParseLineSpec | src/dataprocessor/data/manipulation/SpreadsheetHandler.java:39-53 | A line without the separator is skipped. Otherwise the line is kept iff the text before the first separator parses. The key is that parse, and key text + separator + remainder rebuilds the line. |
| KeyedMerge.KeysOfIff | src/dataprocessor/data/manipulation/SpreadsheetHandler.java:37-48 | A key is carried by the data iff some data line reads as that key, iff that key has a remainder. |
| KeyedMerge.RemsAppend | src/dataprocessor/data/manipulation/SpreadsheetHandler.java:37-55 | A key's remainders, and the key set, distribute over concatenated data lines. |
| KeyedMerge.AllKeysHas | src/dataprocessor/data/manipulation/SpreadsheetHandler.java:42-48 | Any key some source carries is put in the map. |
| KeyedMerge.AllKeysFrom | src/dataprocessor/data/manipulation/SpreadsheetHandler.java:42-48 | Only keys some source carries are put in the map. |
| KeyedMerge.AbsorbSpec | src/dataprocessor/data/manipulation/SpreadsheetHandler.java:37-55 | Reading source `i` adds exactly its keys. It fills each key's list `i` with that key's first `limit` remainders in file order, and no other source's list changes. |
| KeyedMerge.CollectSpec | src/dataprocessor/data/manipulation/SpreadsheetHandler.java:27-56 | After all sources, the map holds exactly the carried keys. Per source, each holds that key's first `limit` remainders, or none for sources not yet read. |
| KeyedMerge.Append | src/dataprocessor/data/manipulation/SpreadsheetHandler.java:49-53 | `if (size < limit) add(rem)`: only list `i` can change, and it grows by the remainder exactly while below `limit`. |
| KeyedMerge.KeyOrder | src/dataprocessor/data/manipulation/SpreadsheetHandler.java:63-64 | The `TreeMap` iteration order is strictly ascending and holds exactly the collected keys. |
| KeyedMerge.IncreasingUnique | src/dataprocessor/data/manipulation/SpreadsheetHandler.java:63-64 | Two ascending key sequences with the same members are equal, so the iteration order is determined by the key set. |
| KeyedMerge.PadTo | src/dataprocessor/data/manipulation/SpreadsheetHandler.java:69-73 | Padding a source's list keeps the list as a prefix and adds that source's blank row up to the group's longest length, never shortening it. |
| KeyedMerge.BlockSpec | src/dataprocessor/data/manipulation/SpreadsheetHandler.java:74-80 | A key's group emits exactly `max` rows. Row `r` is the key's text, the separator, then each source's item `r` (or its blank row), concatenated with nothing between. |
| KeyedMerge.HeaderShape | src/dataprocessor/data/manipulation/SpreadsheetHandler.java:33-35 | The header opens with the first source's first header cell and the separator, and always ends with the separator. |
| KeyedMerge.HeaderCells | src/dataprocessor/data/manipulation/SpreadsheetHandler.java:31-36 | Splitting the header gives the first cell and then every source's titles in source order, as long as the file stems are free of the separator, for a one-character separator. It also needs the last of these cells to be nonempty, because Java's `split` drops trailing empty cells. |
| KeyedMerge.MergeShape | src/dataprocessor/data/manipulation/SpreadsheetHandler.java:61-81 | Line 0 is the header. Every other line starts with its key's text and the separator. Keys along the rows never decrease, and each is a key some source carries. |
| KeyedMerge.MergeRowCount | src/dataprocessor/data/manipulation/SpreadsheetHandler.java:65-80 | The output has `1 + Σ max` lines: the header plus, per key, its longest list's length. |
| KeyedMerge.MergeHasBlock | src/dataprocessor/data/manipulation/SpreadsheetHandler.java:63-81 | Every carried key's block appears as one contiguous run of output lines below the header. This holds even for a key seen in only one source. |
| KeyedMerge.KeyRowCount | src/dataprocessor/data/manipulation/SpreadsheetHandler.java:49-74 | A carried key has at most `limit` rows, and at least one when `limit > 0`. No source's kept remainders outnumber them. |
| KeyedMerge.MergeLimitZero | src/dataprocessor/data/manipulation/SpreadsheetHandler.java:49 | With `limit <= 0` nothing is captured and the output is the header alone. |
| KeyedMerge.MergeDependsOnView | src/dataprocessor/data/manipulation/SpreadsheetHandler.java:37-81 | The output depends on the data lines only through each source's per-key remainder lists. |
| KeyedMerge.SkippedLineInvisible | src/dataprocessor/data/manipulation/SpreadsheetHandler.java:37-54 | Removing a data line that is skipped (no separator, or a key that does not parse) leaves the output unchanged. |
| KeyedMerge.SwapAcrossKeys | src/dataprocessor/data/manipulation/SpreadsheetHandler.java:42-53 | Swapping two neighbouring data lines that do not share a key leaves the output unchanged. |
| KeyedMerge.Load | src/dataprocessor/data/manipulation/SpreadsheetHandler.java:29-31 | On success there is one nonempty table per source, in source order, and each is that source's whole file. |
| KeyedMerge.LoadFaults | src/dataprocessor/data/manipulation/SpreadsheetHandler.java:29-33 | The sources are read in order and the first fault stops the merge with that fault. A source is at fault if it cannot be read, is empty, or (the first source only) has a header with no cell. Loading succeeds iff no source is at fault. |
| KeyedMerge.MergeByIndex | src/dataprocessor/data/manipulation/SpreadsheetHandler.java:23-83 | No sources give the single line `null`. Otherwise the merge succeeds iff no source is at fault, and then writes at least one line (the header, whose content `KeyedMerge.MergeShape` states). |
| FileIO.ReadFile | src/dataprocessor/io/IO.java:35-41 | Reading gives the first `min(rows, n)` lines of the file in order. A missing file is FileNotFound. |
| FileIO.ReadLines | src/dataprocessor/io/IO.java:23-34 | A file whose base name has `*` resolves by match count: 0 is FileNotFound, more than 1 is the too-many-matches IOException, and exactly 1 reads the match in the same directory. Other names are read directly. |
| FileIO.HasWildcardIff | src/dataprocessor/io/IO.java:25 | The wildcard test holds iff `getName()` contains `*`. |
| FileIO.StarInDirectoryIsLiteral | src/dataprocessor/io/IO.java:25 | A `*` in the directory part does not trigger matching: `dir/file` with a plain `file` is read directly whatever the matches. |
| FileIO.WildcardReadsSibling | src/dataprocessor/io/IO.java:25-34 | For `dir/pattern` with `*` in `pattern` and a single match `m`, the file read is `dir/m`. |
| FileIO.SiblingShape | src/dataprocessor/io/IO.java:33 | `new File(parent, m)` ends with `m`, and what comes before it is a prefix of the name ending in `/`, or nothing when the name has no `/`. |
| FileIO.SiblingInDirectory | src/dataprocessor/io/IO.java:33 | `new File(getParentFile(), m)` for `dir/name` is `dir/m`. |
| FileIO.WriteLines | src/dataprocessor/io/IO.java:57-63 | The written file's text is every line followed by the line separator, the last included. No other file changes. |
| FileIO.LinesOfText | src/dataprocessor/io/IO.java:57-63 | Round trip: lines without line breaks, written and read back, come back unchanged, for any of the three line separators. |
| FileIO.PullFirstReadsBack | src/dataprocessor/data/manipulation/SpreadsheetHandler.java:161-165 | The file `pullFirst` writes reads back as the first `rows` lines of its input, in order. |
| FileIO.LastIndexOf | src/dataprocessor/io/IO.java:73 | `lastIndexOf` finds an occurrence with none after it, or answers `None` when there is none. |
| FileIO.BaseName | src/dataprocessor/io/IO.java:70-71 | `File.getName` contains no `/`, and a name without `/` is its own base name. |
| FileIO.BaseNameInDirectory | src/dataprocessor/io/IO.java:70-71 | The base name of `dir/name` is `name`. |
| FileIO.NameOf | src/dataprocessor/io/IO.java:69-74 | `nameOf` has no directory part. It is the whole base name when that has no `.`; otherwise it is the base name before its last `.`. |
| SensorPipeline.TimeToSeconds | src/dataprocessor/main/Main_SensorDataProcessor.java:95-116 | Always present: clock text gives its seconds, a plain number is rounded to tenths, and any other cell is returned unchanged. |
| SensorPipeline.TimeToSecondsLegacy | src/dataprocessor/main/SensorDataProcessor.java:63-74 | Always present: clock text gives its seconds, and anything else is returned unchanged. |
| SensorPipeline.TimeToSecondsVersions | src/dataprocessor/main/Main_SensorDataProcessor.java:97-106 | The two versions differ only on cells that are plain numbers without the clock pattern. |
| SensorPipeline.DateResolveKeepsColumns | src/dataprocessor/main/Main_SensorDataProcessor.java:59-64 | `dateResolve` on column A always succeeds and never deletes a column. Each line's first cell is replaced by its `timeToSeconds`, and the rest is copied. |
| SensorPipeline.ElapseStep | src/dataprocessor/main/Main_SensorDataProcessor.java:79-86 | `TimeElapser` never deletes a cell. A non-numeric cell becomes the two titles. A numeric cell becomes itself, the separator and its elapsed time, and the first one sets `start`. Text like `-` or `.` that looks numeric but does not parse throws. |
| SensorPipeline.ElapserSplitsFirstCell | src/dataprocessor/main/Main_SensorDataProcessor.java:89-90 | On column A the elapser rewrites only the first cell, into two, and copies the rest of the line. |
| SensorPipeline.ElapserLine | src/dataprocessor/main/Main_SensorDataProcessor.java:79-90 | On one line the elapser sends an empty line to the empty line with the state unchanged. Otherwise it throws the first cell's fault, or writes the first cell's rewrite then the remaining cells, each followed by the separator. |
| SensorPipeline.ElapsedTable | src/dataprocessor/main/Main_SensorDataProcessor.java:77-90 | When the elapsed-time pass succeeds, output line `k` is line `k` with its first cell rewritten against the `start` that lines `0..k-1` left (-1 before the first number). The remaining cells are copied. |
| SensorPipeline.ElapsedTableFault | src/dataprocessor/main/Main_SensorDataProcessor.java:80-85 | The elapsed-time pass fails only with a `NumberFormatException`: on text that passes the numeric pattern but does not parse. |
| SensorPipeline.FirstClean | src/dataprocessor/main/Main_SensorDataProcessor.java:164-169 | `start` is the first data line without `sep+sep`, or -1 when there is none. |
| SensorPipeline.LastClean | src/dataprocessor/main/Main_SensorDataProcessor.java:170-175 | `end` is the last line (header included) without `sep+sep`, or -1 when there is none. |
| SensorPipeline.TrimPartiallyEmpty | src/dataprocessor/main/Main_SensorDataProcessor.java:158-178 | An empty file throws (`lines.get(0)`), and nothing else does. The output opens with the header unchanged and is never longer than the input. |
| SensorPipeline.TrimShape | src/dataprocessor/main/Main_SensorDataProcessor.java:163-176 | When a clean data line exists, `1 <= start <= end < size`, so `subList` is always legal. The output is then the header followed by the lines from `start` up to but excluding `end`, with the interior lines that hold `sep + sep` kept. |
| SensorPipeline.TrimNoCleanData | src/dataprocessor/main/Main_SensorDataProcessor.java:176 | If no data line is clean, the output is exactly the header and nothing throws. |
| SensorPipeline.TrimPartiallyEmptyLegacy | src/dataprocessor/main/SensorDataProcessor.java:116-135 | The unguarded trim fails exactly when the file is empty or no data line is clean, because `subList(-1, end)` throws. |
| SensorPipeline.TrimVersionsAgree | src/dataprocessor/main/SensorDataProcessor.java:133 | When a clean data line exists, both trims give the same lines. Otherwise the old one throws and the guarded one writes the header alone. |
| SensorPipeline.TrimDropsLastClean | src/dataprocessor/main/Main_SensorDataProcessor.java:176 | On `h`, `1,a`, `2,b` the trim drops the clean last line `2,b`. |
| SensorPipeline.TrimInclusiveKeepsClean | src/dataprocessor/main/Main_SensorDataProcessor.java:158-178 | The corrected trim keeps the header and the contiguous run from the first clean data line through the last clean line. That run starts and ends with a clean line and contains every clean data line. |

## Left out

- File system I/O (`FileReader`, `FileWriter`, `RandomAccessFile`, `IO.read`, `IO.write`, `File.delete`) is not modelled. A directory is a map from file name to text, and reading and writing are the functions above.
- The wildcard filter's glob matching is not modelled. The names it accepts are an input (`matches`); only the rule applied to their count is modelled. A wildcard whose parent directory cannot be listed (`list` gives `null`) is not modelled.
- The empty separator is excluded: `Separator` is a nonempty string. Java's `split("")` cuts between every pair of characters, which the literal-separator model does not cover.
- The round-trip and padding lemmas about `split` are stated for a one-character separator. With a longer one an occurrence can straddle a joined cell boundary.
- Regular expressions are not modelled: the clock pattern, `matches("[-.0-9]+")` (modelled as `NumericText`), and `dateTimeSplitter`. The separator is taken literally in `split`, not as a regular expression.
- Floating point is not modelled: `Double.parseDouble`, `Double.toString`, `String.format("%.1f")`, the clock arithmetic and the elapsed-time subtraction. These are the given functions of `SensorPipeline.Numerics` and `KeyedMerge.KeyCodec`. Keys are numbered by `int` in `TreeMap` order. Infinities and NaN take whatever place in the `Double.compareTo` order that numbering gives them.
- `toSpherical` (square roots and `atan2`), the `main` methods, the `processAccGyrMagData` orchestration with its fixed file names, and the `System.out.println` debugging are not modelled.
- A `Directory` is keyed by path text exactly as written. `java.io.File` collapses repeated and trailing `/`, so a name like `a//*.csv` reads `a/m` in Java, while the model looks up `a//m`. The model assumes names are already normalized paths.
- The line separator of `writeLines` is a parameter (`nl`) rather than `System.lineSeparator()`. `readLines` splits on `\n`, `\r` or `\r\n`, as `BufferedReader.readLine` does.
- `mergeByIndex`, `modifyColumn` and `merge` return the output file's lines rather than writing them.
- In `mergeByIndex` an empty source file is a fault (`lines.get(0)` throws). So is a first header that splits into no cell (`cells[0]` throws), which happens when the header is only separators. A later source's header may split into no cell; it then adds no titles.
- SensorPipeline.ElapseStep: after a failed parse the modelled run stops with the fault, so the elapser's state after an exception is not modelled.
- `pad(List, …)` adds one row beyond the longest table. That row is never read by `merge`, which reads only `maxRows` rows, so it is invisible in the output.
- SensorDataProcessor.java is modelled only for its two functions above. Its imports name a package that does not exist, so its links to other files are not modelled.

## Findings

| source | as written | input that shows it | evidently intended | confidence | as-written member | corrected member |
|---|---|---|---|---|---|---|
| src/dataprocessor/main/Main_SensorDataProcessor.java:176 | `lines.subList(start, end)` excludes index `end`, which is the last clean line. The old copy at SensorDataProcessor.java:133 has the same bound. | `["h", "1,a", "2,b"]` with separator `,` gives `["h", "1,a"]`: the clean line `2,b` is lost. | Keep the lines from the first clean data line through the last clean line inclusive (`subList(start, end + 1)`). | medium, not executed | SensorPipeline.TrimDropsLastClean | SensorPipeline.TrimInclusiveKeepsClean |
