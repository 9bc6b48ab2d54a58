/**
 * The plain-text `.cells` pattern format (utils/patterns.py): reading a file's
 * lines into a 0/1 grid, writing a grid back as lines, and listing the presets of
 * a directory. A file is given as the sequence of lines that iterating over it
 * yields; a directory as the sequence of its entries.
 */
module Patterns {
  import opened Grids

  /** The file extension of pattern files. */
  const Extension: string := ".cells"

  // ---------------------------------------------------------------------------
  // Lines of a pattern file

  /** A comment line starts with `!`. */
  predicate IsComment(l: string)
  {
    |l| > 0 && l[0] == '!'
  }

  /** The line ends with its terminator. */
  predicate Terminated(l: string)
  {
    |l| > 0 && l[|l| - 1] == '\n'
  }

  /**
   * What iterating over a text file yields: no line is empty, and every line but
   * the last ends with `\n` (the last one does too when the file ends with a newline).
   */
  ghost predicate FileLines(ls: seq<string>)
  {
    forall i :: 0 <= i < |ls| ==> |ls[i]| > 0 && (i < |ls| - 1 ==> Terminated(ls[i]))
  }

  /** The non-comment lines, in file order: the rows of the pattern. */
  function Content(ls: seq<string>): (cs: seq<string>)
    ensures |cs| <= |ls|
  {
    if |ls| == 0 then []
    else
      var last := ls[|ls| - 1];
      assert ls == ls[..|ls| - 1] + [last];
      Content(ls[..|ls| - 1]) + if IsComment(last) then [] else [last]
  }

  /** The number of cells a line describes: its length without the terminator. */
  function LineWidth(l: string): nat
  {
    if Terminated(l) then |l| - 1 else |l|
  }

  /** The widest of some lines (0 when there are none). */
  function MaxWidth(cs: seq<string>): (w: nat)
    ensures forall r :: 0 <= r < |cs| ==> LineWidth(cs[r]) <= w
  {
    if |cs| == 0 then 0
    else
      var w0, last := MaxWidth(cs[..|cs| - 1]), LineWidth(cs[|cs| - 1]);
      if last > w0 then last else w0
  }

  /** The width of some lines is the width of one of them, or 0 when there are none. */
  lemma {:induction false} MaxWidthAttained(cs: seq<string>)
    ensures |cs| == 0 ==> MaxWidth(cs) == 0
    ensures |cs| > 0 ==> exists r :: 0 <= r < |cs| && LineWidth(cs[r]) == MaxWidth(cs)
    decreases |cs|
  {
    if |cs| > 0 {
      var init, last := cs[..|cs| - 1], |cs| - 1;
      MaxWidthAttained(init);
      if LineWidth(cs[last]) < MaxWidth(init) {
        var r :| 0 <= r < |init| && LineWidth(init[r]) == MaxWidth(init);
        assert cs[r] == init[r];
      } else {
        assert LineWidth(cs[last]) == MaxWidth(cs);
      }
    }
  }

  /** The number of columns of a pattern: its widest non-comment line. */
  function Width(ls: seq<string>): nat
  {
    MaxWidth(Content(ls))
  }

  /** Cell `c` of a row: 1 for an `O`, 0 for any other character and past the end of the line. */
  function CellOf(l: string, c: nat): int
  {
    if c < |l| && l[c] == 'O' then 1 else 0
  }

  /** The grid some rows describe, as wide as the widest row. */
  function RowsGrid(cs: seq<string>): (g: Grid)
    ensures HasShape(g, |cs|, MaxWidth(cs))
  {
    var w := MaxWidth(cs);
    seq(|cs|, r requires 0 <= r < |cs| => seq(w, c requires 0 <= c < w => CellOf(cs[r], c)))
  }

  /** The grid a pattern file describes: one row per non-comment line, as wide as the widest. */
  function Decode(ls: seq<string>): (g: Grid)
    ensures HasShape(g, |Content(ls)|, Width(ls))
  {
    RowsGrid(Content(ls))
  }

  // ---------------------------------------------------------------------------
  // Facts about reading

  /** Every row is a non-comment line of the file, and every non-comment line is a row. */
  lemma {:induction false} ContentLines(ls: seq<string>)
    ensures forall r :: 0 <= r < |Content(ls)| ==> Content(ls)[r] in ls && !IsComment(Content(ls)[r])
    ensures forall i :: 0 <= i < |ls| && !IsComment(ls[i]) ==> ls[i] in Content(ls)
    decreases |ls|
  {
    if |ls| > 0 {
      var init := ls[..|ls| - 1];
      ContentLines(init);
      assert ls == init + [ls[|ls| - 1]];
      assert forall i :: 0 <= i < |init| ==> ls[i] == init[i];
    }
  }

  /** One more line adds one more row, unless it is a comment. */
  lemma ContentSnoc(ls: seq<string>, i: nat)
    requires i < |ls|
    ensures Content(ls[..i + 1]) == Content(ls[..i]) + if IsComment(ls[i]) then [] else [ls[i]]
  {
    assert ls[..i + 1][..i] == ls[..i];
  }

  /** One more row widens the pattern to that row's width if it is wider. */
  lemma MaxWidthSnoc(cs: seq<string>, l: string)
    ensures MaxWidth(cs + [l]) == if LineWidth(l) > MaxWidth(cs) then LineWidth(l) else MaxWidth(cs)
  {
    assert (cs + [l])[..|cs|] == cs;
  }

  /** Filtering comments distributes over concatenation. */
  lemma {:induction false} ContentAppend(a: seq<string>, b: seq<string>)
    ensures Content(a + b) == Content(a) + Content(b)
    decreases |b|
  {
    if |b| > 0 {
      var ab, bl := a + b, b[..|b| - 1];
      assert ab[..|ab| - 1] == a + bl;
      ContentAppend(a, bl);
    } else {
      assert a + b == a;
    }
  }

  /** The rows found in the first `j` lines are the first rows of the whole file. */
  lemma ContentPrefix(ls: seq<string>, j: nat)
    requires j <= |ls|
    ensures |Content(ls[..j])| <= |Content(ls)|
    ensures Content(ls[..j]) == Content(ls)[..|Content(ls[..j])|]
  {
    assert ls == ls[..j] + ls[j..];
    ContentAppend(ls[..j], ls[j..]);
  }

  /**
   * A comment line anywhere in a file changes nothing: it is skipped and takes
   * no row index, so the following lines keep their rows.
   */
  lemma CommentIgnored(a: seq<string>, comment: string, b: seq<string>)
    requires IsComment(comment)
    ensures Decode(a + [comment] + b) == Decode(a + b)
  {
    ContentAppend(a + [comment], b);
    ContentAppend(a, [comment]);
    ContentAppend(a, b);
    assert Content([comment]) == [] by {
      assert [comment][..0] == [];
    }
    assert Content(a + [comment] + b) == Content(a + b);
  }

  /** A cell of the decoded grid is read from its row. */
  lemma DecodeAt(ls: seq<string>, r: nat, c: nat)
    requires r < |Content(ls)| && c < Width(ls)
    ensures Decode(ls)[r][c] == CellOf(Content(ls)[r], c)
  {
  }

  /** Every cell read is 0 or 1, and it is 1 exactly where its row has an `O`. */
  lemma DecodeCells(ls: seq<string>, r: nat, c: nat)
    requires r < |Content(ls)| && c < Width(ls)
    ensures Decode(ls)[r][c] == 0 || Decode(ls)[r][c] == 1
    ensures Decode(ls)[r][c] == 1 <==> c < |Content(ls)[r]| && Content(ls)[r][c] == 'O'
  {
  }

  /** A row never has an `O` at or past the pattern's width, so the grid holds every live cell. */
  lemma LiveCellInside(ls: seq<string>, r: nat, c: nat)
    requires r < |Content(ls)| && c < |Content(ls)[r]| && Content(ls)[r][c] == 'O'
    ensures c < Width(ls)
  {
    var l := Content(ls)[r];
    assert c < LineWidth(l) by {
      if Terminated(l) {
        assert l[|l| - 1] == '\n';
      }
    }
  }

  // ---------------------------------------------------------------------------
  // Reading (read_pattern_file)

  /**
   * The first pass of the reader: counts the non-comment lines and finds the
   * widest of them.
   */
  method MeasurePattern(ls: seq<string>) returns (rows: nat, cols: nat)
    requires FileLines(ls)
    ensures rows == |Content(ls)| && cols == Width(ls)
  {
    rows, cols := 0, 0;
    for i := 0 to |ls|
      invariant rows == |Content(ls[..i])| && cols == MaxWidth(Content(ls[..i]))
    {
      var l := ls[i];
      MeasureSnoc(ls, i);
      if l[0] != '!' {
        rows := rows + 1;
        if LineWidth(l) > cols {
          cols := LineWidth(l);
        }
      }
    }
    assert ls[..|ls|] == ls;
  }

  /** What one more line does to the row count and the width. */
  lemma MeasureSnoc(ls: seq<string>, i: nat)
    requires i < |ls| && |ls[i]| > 0
    ensures var before, after, l := Content(ls[..i]), Content(ls[..i + 1]), ls[i];
            if l[0] == '!' then after == before
            else |after| == |before| + 1 &&
                 MaxWidth(after) == if LineWidth(l) > MaxWidth(before) then LineWidth(l) else MaxWidth(before)
  {
    ContentSnoc(ls, i);
    MaxWidthSnoc(Content(ls[..i]), ls[i]);
    if ls[i][0] == '!' {
      assert Content(ls[..i + 1]) == Content(ls[..i]) + [];
      assert Content(ls[..i]) + [] == Content(ls[..i]);
    }
  }

  /**
   * The second pass of the reader: on a zero grid of the pattern's size, writes a
   * 1 for every `O`, keeping a count of the comment lines skipped so far so that
   * line `j` fills row `j - skip`.
   */
  method FillPattern(ls: seq<string>, grid: array2<int>)
    requires FileLines(ls)
    requires grid.Length0 == |Content(ls)| && grid.Length1 == Width(ls)
    requires forall r, c :: 0 <= r < grid.Length0 && 0 <= c < grid.Length1 ==> grid[r, c] == 0
    modifies grid
    ensures Snapshot(grid) == Decode(ls)
  {
    ghost var cs := Content(ls);
    var skip := 0;
    for j := 0 to |ls|
      invariant skip <= j && skip == j - |Content(ls[..j])|
      invariant forall r, c :: 0 <= r < grid.Length0 && 0 <= c < grid.Length1 ==>
        grid[r, c] == if r < j - skip then CellOf(cs[r], c) else 0
    {
      var line := ls[j];
      FillSnoc(ls, j);
      if line[0] == '!' {
        skip := skip + 1;
      } else {
        var row := j - skip;
        forall k | 0 <= k < |line| && line[k] == 'O'
          ensures k < grid.Length1
        {
          LiveCellInside(ls, row, k);
        }
        MarkLiveCells(grid, row, line);
      }
    }
    assert ls[..|ls|] == ls;
    forall r, c | 0 <= r < grid.Length0 && 0 <= c < grid.Length1
      ensures grid[r, c] == Decode(ls)[r][c]
    {
      DecodeAt(ls, r, c);
    }
    SnapshotIs(grid, Decode(ls));
  }

  /** One more line of the second pass: a comment adds no row, any other line is the next row. */
  lemma FillSnoc(ls: seq<string>, j: nat)
    requires j < |ls| && |ls[j]| > 0
    ensures var before, after := |Content(ls[..j])|, |Content(ls[..j + 1])|;
            && after <= |Content(ls)|
            && (ls[j][0] == '!' ==> after == before)
            && (ls[j][0] != '!' ==> after == before + 1 && Content(ls)[before] == ls[j])
  {
    ContentSnoc(ls, j);
    ContentPrefix(ls, j + 1);
    if ls[j][0] == '!' {
      assert Content(ls[..j + 1]) == Content(ls[..j]) + [];
    } else {
      var before := Content(ls[..j]);
      assert Content(ls[..j + 1]) == before + [ls[j]];
      assert Content(ls)[|before|] == Content(ls[..j + 1])[|before|];
    }
  }

  /**
   * Reads a pattern file: measures it, then fills a zero grid of that size.
   * `None` stands for a file that does not exist.
   */
  method ReadPatternFile(file: Option<seq<string>>) returns (pattern: Option<array2<int>>)
    requires file.Some? ==> FileLines(file.value)
    ensures file.None? <==> pattern.None?
    ensures file.Some? ==>
              && pattern.Some?
              && pattern.value.Length0 == |Content(file.value)|
              && pattern.value.Length1 == Width(file.value)
              && Snapshot(pattern.value) == Decode(file.value)
  {
    if file.None? {
      return None;
    }
    var rows, cols := MeasurePattern(file.value);
    var grid := new int[rows, cols]((_, _) => 0);
    FillPattern(file.value, grid);
    return Some(grid);
  }

  /** The second pass over one non-comment line: a 1 in its row for every `O`. */
  method MarkLiveCells(grid: array2<int>, row: nat, line: string)
    requires row < grid.Length0
    requires forall k :: 0 <= k < |line| && line[k] == 'O' ==> k < grid.Length1
    modifies grid
    ensures forall r, c :: 0 <= r < grid.Length0 && 0 <= c < grid.Length1 ==>
      grid[r, c] == if r == row && c < |line| && line[c] == 'O' then 1 else old(grid[r, c])
  {
    for k := 0 to |line|
      invariant forall r, c :: 0 <= r < grid.Length0 && 0 <= c < grid.Length1 ==>
        grid[r, c] == if r == row && c < k && line[c] == 'O' then 1 else old(grid[r, c])
    {
      if line[k] == 'O' {
        grid[row, k] := 1;
      }
    }
  }

  // ---------------------------------------------------------------------------
  // The reader as written: the column count subtracts one from every line

  /** The width the source computes for a line: its length minus one, terminator or not. */
  function WidthAsWritten(l: string): nat
  {
    if |l| == 0 then 0 else |l| - 1
  }

  /** The widest line as the source computes it. */
  function MaxWidthAsWritten(cs: seq<string>): nat
  {
    if |cs| == 0 then 0
    else
      var w0, last := MaxWidthAsWritten(cs[..|cs| - 1]), WidthAsWritten(cs[|cs| - 1]);
      if last > w0 then last else w0
  }

  /** The outcome of the reader as written: a grid, or the index error its second pass raises. */
  datatype ReadOutcome = Read(grid: Grid) | IndexError

  /**
   * The reader as written: the grid is `MaxWidthAsWritten` wide, and an `O` at or
   * past that column makes the second pass index out of the grid.
   */
  ghost function ReadAsWritten(ls: seq<string>): (r: ReadOutcome)
    ensures r.Read? ==> |r.grid| == |Content(ls)|
    ensures r.Read? ==> forall i, j :: 0 <= i < |r.grid| && 0 <= j < |r.grid[i]| ==> r.grid[i][j] == 0 || r.grid[i][j] == 1
  {
    var cs := Content(ls);
    var w := MaxWidthAsWritten(cs);
    if exists r, c :: 0 <= r < |cs| && 0 <= c < |cs[r]| && cs[r][c] == 'O' && c >= w then IndexError
    else Read(seq(|cs|, r requires 0 <= r < |cs| => seq(w, c requires 0 <= c < w => CellOf(cs[r], c))))
  }

  /** On terminated lines both widths agree. */
  lemma {:induction false} MaxWidthTerminated(cs: seq<string>)
    requires forall r :: 0 <= r < |cs| ==> Terminated(cs[r])
    ensures MaxWidthAsWritten(cs) == MaxWidth(cs)
    decreases |cs|
  {
    if |cs| > 0 {
      MaxWidthTerminated(cs[..|cs| - 1]);
    }
  }

  /** When every line ends with a newline, the reader as written reads what `Decode` describes. */
  lemma AsWrittenAgrees(ls: seq<string>)
    requires forall i :: 0 <= i < |ls| ==> Terminated(ls[i])
    ensures ReadAsWritten(ls) == Read(Decode(ls))
  {
    var cs := Content(ls);
    ContentLines(ls);
    MaxWidthTerminated(cs);
    forall r, c | 0 <= r < |cs| && 0 <= c < |cs[r]| && cs[r][c] == 'O'
      ensures c < MaxWidthAsWritten(cs)
    {
      LiveCellInside(ls, r, c);
    }
  }

  /**
   * A last line without a newline is one column too narrow: "OO" raises an index
   * error, where the intended reading is one row of two live cells.
   */
  lemma UnterminatedLastLine()
    ensures FileLines(["OO"])
    ensures ReadAsWritten(["OO"]) == IndexError
    ensures Decode(["OO"]) == [[1, 1]]
  {
    var ls := ["OO"];
    assert ls[..0] == [];
    var cs := Content(ls);
    assert cs == ["OO"];
    assert cs[..0] == [];
    var w := MaxWidthAsWritten(cs);
    assert w == WidthAsWritten("OO") == 1;
    assert 0 <= 0 < |cs| && 0 <= 1 < |cs[0]| && cs[0][1] == 'O' && 1 >= w;
    var d := Decode(ls);
    assert MaxWidth(cs) == 2;
    assert d[0] == [1, 1];
  }

  // ---------------------------------------------------------------------------
  // Writing (save_pattern_file)

  /** A row rendered in the format: `.` for a dead cell, `O` for a live one of any age. */
  function RowText(row: seq<int>): string
  {
    seq(|row|, j requires 0 <= j < |row| => if row[j] == 0 then '.' else 'O')
  }

  /** The lines written for a grid: one terminated line per row. */
  function Encode(g: Grid): (ls: seq<string>)
    ensures |ls| == |g|
    ensures forall i :: 0 <= i < |g| ==> |ls[i]| == |g[i]| + 1 && Terminated(ls[i])
  {
    seq(|g|, i requires 0 <= i < |g| => RowText(g[i]) + "\n")
  }

  /** Builds the lines of a saved pattern, row by row. */
  method SavePatternFile(grid: array2<int>) returns (lines: seq<string>)
    ensures lines == Encode(Snapshot(grid))
  {
    lines := [];
    for row := 0 to grid.Length0
      invariant |lines| == row
      invariant forall i :: 0 <= i < row ==> lines[i] == RowText(Snapshot(grid)[i]) + "\n"
    {
      var line := seq(grid.Length1, j requires 0 <= j < grid.Length1 reads grid => if grid[row, j] == 0 then '.' else 'O');
      assert line == RowText(Snapshot(grid)[row]);
      lines := lines + [line + "\n"];
    }
  }

  /**
   * Saving writes exactly one line per row, each of the row's length plus a
   * newline, with `O` exactly at the nonzero cells and `.` elsewhere; no saved
   * line is a comment.
   */
  lemma EncodeLines(g: Grid, i: nat)
    requires i < |g|
    ensures |Encode(g)| == |g|
    ensures |Encode(g)[i]| == |g[i]| + 1 && Terminated(Encode(g)[i]) && !IsComment(Encode(g)[i])
    ensures LineWidth(Encode(g)[i]) == |g[i]|
    ensures forall j :: 0 <= j < |g[i]| ==> (Encode(g)[i][j] == 'O' <==> g[i][j] != 0)
    ensures forall j :: 0 <= j < |g[i]| ==> (Encode(g)[i][j] == '.' <==> g[i][j] == 0)
  {
    var l := Encode(g)[i];
    assert l == RowText(g[i]) + "\n";
    if |g[i]| > 0 {
      assert l[0] == RowText(g[i])[0];
    }
  }

  /** Lines none of which is a comment are all rows. */
  lemma {:induction false} NoComments(ls: seq<string>)
    requires forall i :: 0 <= i < |ls| ==> !IsComment(ls[i])
    ensures Content(ls) == ls
    decreases |ls|
  {
    if |ls| > 0 {
      NoComments(ls[..|ls| - 1]);
      assert ls == ls[..|ls| - 1] + [ls[|ls| - 1]];
    }
  }

  /** Lines that all describe `w` cells are `w` wide. */
  lemma {:induction false} UniformWidth(cs: seq<string>, w: nat)
    requires |cs| > 0 && forall r :: 0 <= r < |cs| ==> LineWidth(cs[r]) == w
    ensures MaxWidth(cs) == w
    decreases |cs|
  {
    if |cs| > 1 {
      UniformWidth(cs[..|cs| - 1], w);
    }
  }

  /**
   * Round trip: reading back a saved grid gives the same number of rows, the same
   * number of columns (when there is a row), and a 1 exactly where the saved cell
   * was nonzero. Ages are not kept.
   */
  lemma RoundTrip(g: Grid)
    requires Rect(g)
    ensures |Content(Encode(g))| == |g|
    ensures |g| > 0 ==> Width(Encode(g)) == Cols(g)
    ensures Decode(Encode(g)) == Liveness(g)
    ensures forall i :: 0 <= i < |Encode(g)| ==> Terminated(Encode(g)[i])
  {
    EncodedRows(g);
    EncodedCells(g);
  }

  /** Every saved line is a row, and all rows are as wide as the grid. */
  lemma EncodedRows(g: Grid)
    requires Rect(g)
    ensures Content(Encode(g)) == Encode(g)
    ensures |g| > 0 ==> Width(Encode(g)) == Cols(g)
  {
    var ls := Encode(g);
    forall i | 0 <= i < |ls|
      ensures !IsComment(ls[i]) && LineWidth(ls[i]) == Cols(g)
    {
      EncodeLines(g, i);
    }
    NoComments(ls);
    if |g| > 0 {
      UniformWidth(ls, Cols(g));
    }
  }

  /** Reading the saved lines back gives a 1 exactly at the nonzero cells. */
  lemma EncodedCells(g: Grid)
    requires Rect(g)
    ensures Decode(Encode(g)) == Liveness(g)
  {
    var ls := Encode(g);
    EncodedRows(g);
    var d, l := Decode(ls), Liveness(g);
    forall i | 0 <= i < |g|
      ensures d[i] == l[i]
    {
      assert |d[i]| == Cols(g) == |l[i]|;
      forall j | 0 <= j < |g[i]|
        ensures d[i][j] == l[i][j]
      {
        EncodedCell(g, i, j);
      }
    }
  }

  /** One cell read back from the saved lines. */
  lemma EncodedCell(g: Grid, i: nat, j: nat)
    requires Rect(g) && i < |g| && j < |g[i]|
    requires Content(Encode(g)) == Encode(g) && Width(Encode(g)) == Cols(g)
    ensures Decode(Encode(g))[i][j] == if g[i][j] == 0 then 0 else 1
  {
    var ls := Encode(g);
    EncodeLines(g, i);
    DecodeAt(ls, i, j);
  }

  /** A saved grid reads back the same with the reader as written, since every saved line ends with a newline. */
  lemma RoundTripAsWritten(g: Grid)
    requires Rect(g)
    ensures ReadAsWritten(Encode(g)) == Read(Liveness(g))
  {
    RoundTrip(g);
    AsWrittenAgrees(Encode(g));
  }

  // ---------------------------------------------------------------------------
  // Listing the presets (get_available_patterns)

  /** An entry of the patterns directory: its name and whether it is a regular file. */
  datatype DirEntry = DirEntry(name: string, isFile: bool)

  /** `s` ends with `suffix`. */
  predicate EndsWith(s: string, suffix: string)
  {
    |suffix| <= |s| && s[|s| - |suffix|..] == suffix
  }

  /** The extension occurs in `s` at position `k`. */
  predicate OccursAt(s: string, k: nat)
  {
    k + |Extension| <= |s| && s[k..k + |Extension|] == Extension
  }

  /** `s` contains the extension somewhere. */
  ghost predicate ContainsExtension(s: string)
  {
    exists k: nat :: OccursAt(s, k)
  }

  /**
   * `s` with every occurrence of the extension removed, scanning left to right
   * and resuming after each removed occurrence, as Python's `str.replace` does.
   */
  function RemoveExtension(s: string): (r: string)
    ensures |r| <= |s|
    decreases |s|
  {
    if |s| >= |Extension| && s[..|Extension|] == Extension then RemoveExtension(s[|Extension|..])
    else if |s| == 0 then ""
    else [s[0]] + RemoveExtension(s[1..])
  }

  /** A preset is a regular file whose name ends with the extension. */
  predicate IsPreset(e: DirEntry)
  {
    e.isFile && EndsWith(e.name, Extension)
  }

  /** The preset names of a directory listing, in listing order. */
  function AvailablePatterns(entries: seq<DirEntry>): (names: seq<string>)
    ensures |names| <= |entries|
  {
    if |entries| == 0 then []
    else (if IsPreset(entries[0]) then [RemoveExtension(entries[0].name)] else []) + AvailablePatterns(entries[1..])
  }

  /** A name is listed exactly when some regular `.cells` file gives it once the extension is removed. */
  lemma {:induction false} AvailablePatternsIff(entries: seq<DirEntry>, n: string)
    ensures n in AvailablePatterns(entries) <==>
      exists e :: e in entries && IsPreset(e) && n == RemoveExtension(e.name)
    decreases |entries|
  {
    if |entries| > 0 {
      var head, tail := entries[0], entries[1..];
      AvailablePatternsIff(tail, n);
      assert entries == [head] + tail;
      if n in AvailablePatterns(entries) && !(IsPreset(head) && n == RemoveExtension(head.name)) {
        var e :| e in tail && IsPreset(e) && n == RemoveExtension(e.name);
        assert e in entries;
      }
      if exists e :: e in entries && IsPreset(e) && n == RemoveExtension(e.name) {
        var e :| e in entries && IsPreset(e) && n == RemoveExtension(e.name);
        assert e == head || e in tail;
      }
    }
  }

  /** Removing the extension from a trailing extension is removing it from what precedes it. */
  lemma {:induction false} RemoveTrailingExtension(b: string)
    ensures RemoveExtension(b + Extension) == RemoveExtension(b)
    decreases |b|
  {
    var s := b + Extension;
    if |b| == 0 {
      assert s[..|Extension|] == Extension;
      assert s[|Extension|..] == b;
    } else if |b| >= |Extension| {
      assert s[..|Extension|] == b[..|Extension|];
      if b[..|Extension|] == Extension {
        assert s[|Extension|..] == b[|Extension|..] + Extension;
        RemoveTrailingExtension(b[|Extension|..]);
      } else {
        assert s[1..] == b[1..] + Extension;
        RemoveTrailingExtension(b[1..]);
      }
    } else {
      assert s[|b|] == '.' && Extension[|b|] != '.';
      assert s[..|Extension|] != Extension;
      assert s[1..] == b[1..] + Extension;
      RemoveTrailingExtension(b[1..]);
      NothingToRemove(b[1..]);
      NothingToRemove(b);
    }
  }

  /** A name shorter than the extension is left as it is. */
  lemma NothingToRemove(s: string)
    requires |s| < |Extension|
    ensures RemoveExtension(s) == s
    decreases |s|
  {
    if |s| > 0 {
      NothingToRemove(s[1..]);
    }
  }

  /** A name without the extension in it is left as it is. */
  lemma {:induction false} NoExtensionKept(s: string)
    requires !ContainsExtension(s)
    ensures RemoveExtension(s) == s
    decreases |s|
  {
    if |s| >= |Extension| {
      assert !OccursAt(s, 0);
      assert s[..|Extension|] != Extension;
      assert !ContainsExtension(s[1..]) by {
        forall k: nat | OccursAt(s[1..], k)
          ensures false
        {
          assert s[1..][k..k + |Extension|] == s[k + 1..k + 1 + |Extension|];
          assert OccursAt(s, k + 1);
        }
      }
      NoExtensionKept(s[1..]);
    } else if |s| > 0 {
      NothingToRemove(s);
    }
  }

  /** The regular file `glider.cells` is listed as the preset `glider`. */
  lemma PresetName(b: string)
    requires !ContainsExtension(b)
    ensures b in AvailablePatterns([DirEntry(b + Extension, true)])
  {
    var e := DirEntry(b + Extension, true);
    assert (b + Extension)[|b + Extension| - |Extension|..] == Extension;
    RemoveTrailingExtension(b);
    NoExtensionKept(b);
    assert AvailablePatterns([e]) == [RemoveExtension(e.name)] + AvailablePatterns([]);
  }
}
