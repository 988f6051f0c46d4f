/** The Line Store of `IO.java` over an in-memory directory: a map from file
    name to file text. Reading splits a text into lines the way
    `BufferedReader.readLine` does; writing puts a line separator after every
    line. */
module FileIO {
  import opened Wrappers
  import opened Faults
  import opened Seqs
  import opened RowCodec

  /** `Long.MAX_VALUE`, the row bound of the unbounded `readLines(file)`. */
  const LongMax: int := 0x7fff_ffff_ffff_ffff

  /** The directory: file name to file text. */
  type Directory = map<string, string>

  predicate IsBreak(c: char) {
    c == '\n' || c == '\r'
  }

  /** A line as `readLine` returns it: no line-break characters inside. */
  predicate OneLine(s: string) {
    forall k :: 0 <= k < |s| ==> !IsBreak(s[k])
  }

  /** `System.lineSeparator()` on the platforms Java supports. */
  predicate LineSeparator(nl: string) {
    nl == "\n" || nl == "\r\n" || nl == "\r"
  }

  function BreakFrom(text: string, from: nat): (r: nat)
    requires from <= |text|
    decreases |text| - from
    ensures from <= r <= |text|
    ensures forall k :: from <= k < r ==> !IsBreak(text[k])
    ensures r < |text| ==> IsBreak(text[r])
  {
    if from == |text| || IsBreak(text[from]) then from else BreakFrom(text, from + 1)
  }

  /** Repeated `BufferedReader.readLine` until end of stream: a line ends at
      "\n", "\r" or "\r\n"; a last line without terminator still counts. */
  function Lines(text: string): (ls: seq<string>)
    decreases |text|
    ensures forall k :: 0 <= k < |ls| ==> OneLine(ls[k])
  {
    if |text| == 0 then []
    else
      var i := BreakFrom(text, 0);
      if i == |text| then [text]
      else
        var next := if text[i] == '\r' && i + 1 < |text| && text[i + 1] == '\n' then i + 2 else i + 1;
        [text[..i]] + Lines(text[next..])
  }

  /** The text `writeLines` puts in a file: each line followed by `nl`. */
  function Text(lines: seq<string>, nl: string): (r: string)
  {
    Terminated(lines, nl)
  }

  /** Reading an existing file: its first `rows` lines, in file order; a
      missing file is FileNotFoundException. */
  function ReadFile(dir: Directory, file: string, rows: int): (r: Result<seq<string>, Fault>)
    ensures file !in dir <==> r == Err(FileNotFound(file))
    ensures r.Ok? ==> r.value <= Lines(dir[file])
    ensures r.Ok? ==> |r.value| == if rows <= 0 then 0 else if rows < |Lines(dir[file])| then rows else |Lines(dir[file])|
  {
    if file !in dir then Err(FileNotFound(file)) else Ok(Take(Lines(dir[file]), rows))
  }

  /** `readLines(file, rows)` on the file `name` of the directory. Only the
      file name proper (`getName()`) is tested for '*'; such a name is first
      resolved against `matches`, the entries of its parent directory that
      the wildcard filter accepts: none is FileNotFoundException, several is
      an IOException naming them, and exactly one is read instead, in the
      same directory as `name`. */
  function ReadLines(dir: Directory, name: string, matches: seq<string>, rows: int): (r: Result<seq<string>, Fault>)
    ensures HasWildcard(name) && |matches| == 0 ==> r == Err(FileNotFound(name))
    ensures HasWildcard(name) && |matches| > 1 ==> r == Err(TooManyMatches(name, matches))
    ensures HasWildcard(name) && |matches| == 1 ==> r == ReadFile(dir, Sibling(name, matches[0]), rows)
    ensures !HasWildcard(name) ==> r == ReadFile(dir, name, rows)
  {
    var file :- if !HasWildcard(name) then Ok(name)
                else if |matches| == 0 then Err(FileNotFound(name))
                else if |matches| > 1 then Err(TooManyMatches(name, matches))
                else Ok(Sibling(name, matches[0]));
    ReadFile(dir, file, rows)
  }

  /** A '*' in the directory part of a name is no wildcard: the file is read
      as named, whatever the matches. */
  lemma StarInDirectoryIsLiteral(d: Directory, parent: string, file: string, matches: seq<string>, rows: int)
    requires file != "" && '/' !in file && '*' !in file
    ensures ReadLines(d, parent + "/" + file, matches, rows) == ReadFile(d, parent + "/" + file, rows)
  {
    BaseNameInDirectory(parent, file);
    HasWildcardIff(parent + "/" + file);
  }

  /** A wildcard in the file name resolves to its one match inside the same
      directory. */
  lemma WildcardReadsSibling(d: Directory, parent: string, pattern: string, match1: string, rows: int)
    requires pattern != "" && '/' !in pattern && '*' in pattern
    ensures ReadLines(d, parent + "/" + pattern, [match1], rows) == ReadFile(d, parent + "/" + match1, rows)
  {
    BaseNameInDirectory(parent, pattern);
    HasWildcardIff(parent + "/" + pattern);
    SiblingInDirectory(parent, pattern, match1);
  }

  /** `readLines(file)`: bounded by `Long.MAX_VALUE`, so every line of any
      file that can exist. */
  function ReadAll(dir: Directory, name: string, matches: seq<string>): (r: Result<seq<string>, Fault>)
  {
    ReadLines(dir, name, matches, LongMax)
  }

  lemma ReadAllIsWholeFile(dir: Directory, name: string)
    requires !HasWildcard(name) && name in dir && |Lines(dir[name])| <= LongMax
    ensures ReadAll(dir, name, []) == Ok(Lines(dir[name]))
  {
  }

  /** `writeLines(file, output)`: the file's text is replaced. */
  function WriteLines(dir: Directory, name: string, lines: seq<string>, nl: string): (d: Directory)
    ensures name in d && d[name] == Text(lines, nl)
    ensures forall f :: f in dir && f != name ==> f in d && d[f] == dir[f]
    ensures d.Keys == dir.Keys + {name}
  {
    dir[name := Text(lines, nl)]
  }

  /** After the first line and its terminator, the rest of a written text. */
  lemma TextStep(lines: seq<string>, nl: string)
    requires LineSeparator(nl) && |lines| > 0
    requires forall k :: 0 <= k < |lines| ==> OneLine(lines[k])
    ensures var text := Text(lines, nl);
      var i := |lines[0]|;
      && BreakFrom(text, 0) == i
      && (if text[i] == '\r' && i + 1 < |text| && text[i + 1] == '\n' then i + 2 else i + 1) == i + |nl|
      && text[..i] == lines[0]
      && text[i + |nl|..] == Text(lines[1..], nl)
  {
    var text := Text(lines, nl);
    var rest := Text(lines[1..], nl);
    assert text == lines[0] + nl + rest;
    var i := |lines[0]|;
    assert text[i] == nl[0];
    if nl == "\r" && |rest| > 0 {
      assert rest == lines[1] + nl + Text(lines[2..], nl);
      if |lines[1]| > 0 {
        assert rest[0] == lines[1][0];
      } else {
        assert rest[0] == '\r';
      }
      assert text[i + 1] == rest[0];
    }
    assert text[i + |nl|..] == rest;
  }

  /** Reading back what `writeLines` wrote gives the same lines, for lines
      that hold no line break (every line `readLines` produces is such). */
  lemma {:induction false} LinesOfText(lines: seq<string>, nl: string)
    requires LineSeparator(nl)
    requires forall k :: 0 <= k < |lines| ==> OneLine(lines[k])
    ensures Lines(Text(lines, nl)) == lines
    decreases |lines|
  {
    if |lines| > 0 {
      TextStep(lines, nl);
      LinesOfText(lines[1..], nl);
    }
  }

  /** `pullFirst`: the first `rows` lines of `source` written to `out`. */
  function PullFirst(dir: Directory, source: string, matches: seq<string>, out: string, rows: int, nl: string): (written: Result<Directory, Fault>)
  {
    var lines :- ReadLines(dir, source, matches, rows);
    Ok(WriteLines(dir, out, lines, nl))
  }

  /** The file `pullFirst` writes reads back as the first `rows` lines of its
      input, in order. */
  lemma PullFirstReadsBack(dir: Directory, source: string, out: string, rows: int, nl: string)
    requires LineSeparator(nl) && !HasWildcard(source) && !HasWildcard(out) && source in dir
    ensures PullFirst(dir, source, [], out, rows, nl).Ok?
    ensures ReadAll(PullFirst(dir, source, [], out, rows, nl).value, out, []) == Ok(Take(Take(Lines(dir[source]), rows), LongMax))
    ensures |Lines(dir[source])| <= LongMax ==>
      ReadAll(PullFirst(dir, source, [], out, rows, nl).value, out, []) == Ok(Take(Lines(dir[source]), rows))
  {
    var kept := Take(Lines(dir[source]), rows);
    assert forall k :: 0 <= k < |kept| ==> OneLine(kept[k]) by {
      assert forall k :: 0 <= k < |kept| ==> kept[k] == Lines(dir[source])[k];
    }
    LinesOfText(kept, nl);
    assert ReadLines(dir, source, [], rows) == Ok(kept);
    var written := WriteLines(dir, out, kept, nl);
    assert PullFirst(dir, source, [], out, rows, nl) == Ok(written);
    assert ReadAll(written, out, []) == ReadFile(written, out, LongMax);
  }

  /** Index of the last `c` in `s`: `lastIndexOf`. */
  function LastIndexOf(s: string, c: char): (r: Option<nat>)
    ensures r.Some? ==> r.value < |s| && s[r.value] == c && c !in s[r.value + 1..]
    ensures r.None? ==> c !in s
  {
    if |s| == 0 then None
    else if s[|s| - 1] == c then Some(|s| - 1)
    else
      var r := LastIndexOf(s[..|s| - 1], c);
      assert s == s[..|s| - 1] + [s[|s| - 1]];
      r
  }

  /** `s` without its trailing '/' characters. */
  function StripSlashes(s: string): (r: string)
    ensures r <= s
    ensures |r| == 0 || r[|r| - 1] != '/'
  {
    if |s| > 0 && s[|s| - 1] == '/' then StripSlashes(s[..|s| - 1]) else s
  }

  /** What follows the last '/' of `p`: all of `p` when it holds none. */
  function LastComponent(p: string): (c: string)
    decreases |p|
    ensures '/' !in c
    ensures |c| <= |p| && c == p[|p| - |c|..]
    ensures |c| < |p| ==> p[|p| - |c| - 1] == '/'
  {
    if |p| == 0 || p[|p| - 1] == '/' then ""
    else
      var c := LastComponent(p[..|p| - 1]) + [p[|p| - 1]];
      assert p == p[..|p| - 1] + [p[|p| - 1]];
      c
  }

  /** A '/'-free string is its own last component. */
  lemma {:induction false} LastComponentPlain(p: string)
    requires '/' !in p
    ensures LastComponent(p) == p
    decreases |p|
  {
    if |p| > 0 {
      assert p[|p| - 1] in p;
      LastComponentPlain(p[..|p| - 1]);
      assert p == p[..|p| - 1] + [p[|p| - 1]];
    }
  }

  /** The last component of `dir/name` is `name`. */
  lemma {:induction false} LastComponentAfterSlash(dir: string, name: string)
    requires '/' !in name
    ensures LastComponent(dir + "/" + name) == name
    decreases |name|
  {
    var p := dir + "/" + name;
    if |name| > 0 {
      var init := name[..|name| - 1];
      assert name[|name| - 1] in name;
      assert p[|p| - 1] == name[|name| - 1];
      assert p[..|p| - 1] == dir + "/" + init;
      LastComponentAfterSlash(dir, init);
      assert name == init + [name[|name| - 1]];
    }
  }

  /** A '*' after the last '/' of `p`. */
  predicate StarInLast(p: string)
    decreases |p|
  {
    |p| > 0 && p[|p| - 1] != '/' && (p[|p| - 1] == '*' || StarInLast(p[..|p| - 1]))
  }

  /** `file.getName().contains("*")`. */
  predicate HasWildcard(path: string) {
    StarInLast(StripSlashes(path))
  }

  lemma {:induction false} StarInLastIff(p: string)
    ensures StarInLast(p) <==> '*' in LastComponent(p)
    decreases |p|
  {
    if |p| > 0 && p[|p| - 1] != '/' {
      StarInLastIff(p[..|p| - 1]);
      var c := LastComponent(p[..|p| - 1]);
      assert LastComponent(p) == c + [p[|p| - 1]];
      assert '*' in c + [p[|p| - 1]] <==> '*' in c || p[|p| - 1] == '*';
    }
  }

  /** The wildcard test looks at the file name proper only. */
  lemma HasWildcardIff(path: string)
    ensures HasWildcard(path) <==> '*' in BaseName(path)
  {
    StarInLastIff(StripSlashes(path));
  }

  /** `new File(path).getName()` on a Unix path: File normalizes away repeated
      and trailing '/' characters, and the name is what follows the last '/'. */
  function BaseName(path: string): (name: string)
    ensures '/' !in name
    ensures '/' !in path ==> name == path
  {
    var p := StripSlashes(path);
    var name := LastComponent(p);
    assert '/' !in path ==> name == path by {
      if '/' !in path {
        assert p == path;
        LastComponentPlain(p);
      }
    }
    name
  }

  /** `IO.nameOf`: the file name of a path with its final extension removed. */
  function NameOf(path: string): (r: string)
    ensures '/' !in r
    ensures '.' !in BaseName(path) ==> r == BaseName(path)
    ensures '.' in BaseName(path) ==>
      var name := BaseName(path);
      |r| < |name| && name[..|r|] == r && name[|r|] == '.' && '.' !in name[|r| + 1..]
  {
    var name := BaseName(path);
    match LastIndexOf(name, '.')
    case None => name
    case Some(i) =>
      assert forall c :: c in name[..i] ==> c in name;
      name[..i]
  }

  /** `p` up to and including its last '/': empty when it holds none. */
  function DirPart(p: string): (d: string)
    decreases |p|
    ensures d <= p
    ensures |d| > 0 ==> d[|d| - 1] == '/'
  {
    if |p| == 0 || p[|p| - 1] == '/' then p else DirPart(p[..|p| - 1])
  }

  /** The directory part and the last component make up the whole. */
  lemma {:induction false} DirPartAndLast(p: string)
    ensures DirPart(p) + LastComponent(p) == p
    decreases |p|
  {
    if |p| > 0 && p[|p| - 1] != '/' {
      var init := p[..|p| - 1];
      DirPartAndLast(init);
      assert DirPart(p) == DirPart(init);
      assert LastComponent(p) == LastComponent(init) + [p[|p| - 1]];
      assert DirPart(init) + (LastComponent(init) + [p[|p| - 1]]) == (DirPart(init) + LastComponent(init)) + [p[|p| - 1]];
      assert p == init + [p[|p| - 1]];
    }
  }

  /** `new File(file.getParentFile(), m)` for the file `name`: `m` put in
      the directory part of `name`, which may be empty. */
  function Sibling(name: string, m: string): (r: string)
  {
    DirPart(StripSlashes(name)) + m
  }

  /** The sibling `m` of `name` ends in `m`, after a prefix of `name` that is
      empty or ends in '/'; it is `m` itself when `name` has no directory. */
  lemma SiblingShape(name: string, m: string)
    ensures var r := Sibling(name, m);
      && |m| <= |r| && r[|r| - |m|..] == m
      && r[..|r| - |m|] <= name
      && (|r| > |m| ==> r[|r| - |m| - 1] == '/')
      && ('/' !in name ==> r == m)
  {
    var p := StripSlashes(name);
    var r := Sibling(name, m);
    assert r[..|r| - |m|] == DirPart(p);
    if '/' !in name {
      assert p == name;
      DirPartAndLast(p);
      LastComponentPlain(p);
    }
  }

  /** The file name of `dir/name` is `name`, whatever the directory. */
  lemma BaseNameInDirectory(dir: string, name: string)
    requires name != "" && '/' !in name
    ensures BaseName(dir + "/" + name) == name
  {
    var p := dir + "/" + name;
    assert p[|p| - 1] == name[|name| - 1];
    assert StripSlashes(p) == p;
    LastComponentAfterSlash(dir, name);
  }

  /** The sibling `m` of `dir/name` is `dir/m`. */
  lemma SiblingInDirectory(dir: string, name: string, m: string)
    requires name != "" && '/' !in name
    ensures Sibling(dir + "/" + name, m) == dir + "/" + m
  {
    var p := dir + "/" + name;
    assert p[|p| - 1] == name[|name| - 1];
    assert StripSlashes(p) == p;
    LastComponentAfterSlash(dir, name);
    DirPartAndLast(p);
    assert p[..|p| - |name|] == dir + "/";
  }
}
