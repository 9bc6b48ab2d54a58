/**
 * The controller (controller/main_controller.py): the operations the window
 * triggers, each reading and writing the state holder through its getters and
 * setters. Pattern files are given as a map from path to lines of text.
 */
module Controller {
  import opened Grids
  import opened Life
  import opened Patterns
  import opened GolState

  /** Directory of the preset pattern files. */
  const FolderPatterns: string := "patterns"

  /** Where the preset called `name` is stored. */
  function PresetPath(name: string): (path: string)
    ensures path == FolderPatterns + "/" + name + Extension
    ensures EndsWith(path, Extension)
  {
    var path := FolderPatterns + "/" + name + Extension;
    assert path[|path| - |Extension|..] == Extension;
    path
  }

  /**
   * Selecting a listed preset reads the file it was listed from: the regular file
   * `b.cells` is listed as `b`, and `b` is loaded from `patterns/b.cells`.
   */
  lemma ListedPresetPath(b: string)
    requires !ContainsExtension(b)
    ensures PresetPath(RemoveExtension(b + Extension)) == FolderPatterns + "/" + b + Extension
  {
    RemoveTrailingExtension(b);
    NoExtensionKept(b);
  }

  /**
   * The one exception: a file whose name holds the extension twice, `a.cells.cells`,
   * is listed as `a`, but selecting `a` reads `patterns/a.cells`.
   */
  lemma InnerExtensionPreset()
    ensures RemoveExtension("a" + Extension + Extension) == "a"
    ensures PresetPath("a") != FolderPatterns + "/" + "a" + Extension + Extension
  {
    RemoveTrailingExtension("a" + Extension);
    RemoveTrailingExtension("a");
    NothingToRemove("a");
    var p, q := PresetPath("a"), FolderPatterns + "/" + "a" + Extension + Extension;
    assert |p| != |q|;
  }

  /** The file system as the controller sees it: the lines of each readable file. */
  ghost predicate WellFormedFiles(files: map<string, seq<string>>)
  {
    forall path :: path in files ==> FileLines(files[path])
  }

  /** The lines stored at `path`, if there is such a file. */
  function FileAt(files: map<string, seq<string>>, path: string): (file: Option<seq<string>>)
    ensures file.Some? <==> path in files
    ensures file.Some? ==> file.value == files[path]
  {
    if path in files then Some(files[path]) else None
  }

  // ---------------------------------------------------------------------------
  // Placing a pattern in the middle of a blank grid
  // ---------------------------------------------------------------------------

  /** The margin before a pattern of length `pattern` centred in `grid` cells: half the spare room, rounded down. */
  function Margin(grid: nat, pattern: nat): (m: nat)
    requires pattern <= grid
    ensures m + pattern <= grid
    ensures m <= grid - pattern - m <= m + 1
  {
    (grid - pattern) / 2
  }

  /** A row of `n` dead cells. */
  function DeadRow(n: nat): (r: seq<int>)
    ensures |r| == n && forall j :: 0 <= j < n ==> r[j] == 0
  {
    seq(n, _ => 0)
  }

  /**
   * The `rows` x `cols` grid that is blank but for the pattern `p` (of width `w`)
   * copied with its top-left corner at the two margins.
   */
  function Centred(p: Grid, w: nat, rows: nat, cols: nat): (g: Grid)
    requires HasShape(p, |p|, w) && |p| <= rows && w <= cols
    ensures HasShape(g, rows, cols)
  {
    var top, left := Margin(rows, |p|), Margin(cols, w);
    var middle := seq(|p|, i requires 0 <= i < |p| => DeadRow(left) + p[i] + DeadRow(cols - left - w));
    forall i | 0 <= i < |p|
      ensures |middle[i]| == cols
    {
      assert middle[i] == DeadRow(left) + p[i] + DeadRow(cols - left - w);
    }
    Zeros(top, cols) + middle + Zeros(rows - top - |p|, cols)
  }

  /** Each cell of a centred pattern: inside the window it is the pattern's cell, outside it is dead. */
  lemma CentredAt(p: Grid, w: nat, rows: nat, cols: nat, r: nat, c: nat)
    requires HasShape(p, |p|, w) && |p| <= rows && w <= cols
    requires r < rows && c < cols
    ensures var top, left := Margin(rows, |p|), Margin(cols, w);
            Centred(p, w, rows, cols)[r][c] ==
              if top <= r < top + |p| && left <= c < left + w then p[r - top][c - left] else 0
  {
    var top, left := Margin(rows, |p|), Margin(cols, w);
    var g := Centred(p, w, rows, cols);
    if r < top {
      assert g[r] == Zeros(top, cols)[r];
    } else if r < top + |p| {
      var i := r - top;
      assert g[r] == DeadRow(left) + p[i] + DeadRow(cols - left - w);
    } else {
      assert g[r] == Zeros(rows - top - |p|, cols)[r - top - |p|];
    }
  }

  /** Where each cell of the pattern lands: offset by the two margins (`CentredAt` gives the dead cells around it). */
  lemma CentredLiveCells(p: Grid, w: nat, rows: nat, cols: nat, r: nat, c: nat)
    requires HasShape(p, |p|, w) && |p| <= rows && w <= cols
    requires r < |p| && c < w
    ensures var top, left := Margin(rows, |p|), Margin(cols, w);
            Centred(p, w, rows, cols)[top + r][left + c] == p[r][c]
  {
    CentredAt(p, w, rows, cols, Margin(rows, |p|) + r, Margin(cols, w) + c);
  }

  /** A single cell centred in a 5 x 5 grid lands at (2, 2); in a 4 x 4 grid at (1, 1). */
  lemma CentredSingleCell()
    ensures Centred([[1]], 1, 5, 5)[2][2] == 1
    ensures Centred([[1]], 1, 4, 4)[1][1] == 1
    ensures Centred([[1]], 1, 4, 4)[2][2] == 0
  {
    CentredAt([[1]], 1, 5, 5, 2, 2);
    CentredAt([[1]], 1, 4, 4, 1, 1);
    CentredAt([[1]], 1, 4, 4, 2, 2);
  }

  // ---------------------------------------------------------------------------
  // Loading a pattern file
  // ---------------------------------------------------------------------------

  /** How loading a file ends: the grid is replaced, the pattern is too big for it, or there is no such file. */
  datatype LoadOutcome = Loaded | TooLarge | NotFound

  /** The outcome of loading `file` into a `rows` x `cols` grid. */
  ghost function LoadResult(file: Option<seq<string>>, rows: nat, cols: nat): LoadOutcome
  {
    match file
    case None => NotFound
    case Some(ls) => if |Content(ls)| > rows || Width(ls) > cols then TooLarge else Loaded
  }

  /** The grid that loading the well-formed file `ls` into a grid of the given size produces. */
  ghost function Placed(ls: seq<string>, rows: nat, cols: nat): (g: Grid)
    requires |Content(ls)| <= rows && Width(ls) <= cols
    ensures HasShape(g, rows, cols)
  {
    Centred(Decode(ls), Width(ls), rows, cols)
  }

  /** A loaded file holds only 0 and 1: it is within the 8-bit range. */
  lemma PlacedInRange(ls: seq<string>, rows: nat, cols: nat)
    requires |Content(ls)| <= rows && Width(ls) <= cols
    ensures InRange(Placed(ls, rows, cols))
    ensures forall r, c :: 0 <= r < rows && 0 <= c < cols ==>
              Placed(ls, rows, cols)[r][c] == 0 || Placed(ls, rows, cols)[r][c] == 1
  {
    var p, w := Decode(ls), Width(ls);
    forall r, c | 0 <= r < rows && 0 <= c < cols
      ensures 0 <= Placed(ls, rows, cols)[r][c] <= 1
    {
      CentredAt(p, w, rows, cols, r, c);
      var top, left := Margin(rows, |p|), Margin(cols, w);
      if top <= r < top + |p| && left <= c < left + w {
        DecodeCells(ls, r - top, c - left);
      }
    }
  }

  /** Copies `src` into `dst` with its top-left corner at (`top`, `left`); the rest of `dst` is untouched. */
  method PasteAt(dst: array2<int>, src: array2<int>, top: nat, left: nat)
    requires dst != src
    requires top + src.Length0 <= dst.Length0 && left + src.Length1 <= dst.Length1
    modifies dst
    ensures forall r, c :: 0 <= r < dst.Length0 && 0 <= c < dst.Length1 ==>
              dst[r, c] == if top <= r < top + src.Length0 && left <= c < left + src.Length1
                           then src[r - top, c - left] else old(dst[r, c])
  {
    for i := 0 to src.Length0
      invariant forall r, c :: 0 <= r < dst.Length0 && 0 <= c < dst.Length1 ==>
                  dst[r, c] == if top <= r < top + i && left <= c < left + src.Length1
                               then src[r - top, c - left] else old(dst[r, c])
    {
      for j := 0 to src.Length1
        invariant forall r, c :: 0 <= r < dst.Length0 && 0 <= c < dst.Length1 ==>
                    dst[r, c] == if (top <= r < top + i && left <= c < left + src.Length1) ||
                                    (r == top + i && left <= c < left + j)
                                 then src[r - top, c - left] else old(dst[r, c])
      {
        dst[top + i, left + j] := src[i, j];
      }
    }
  }

  /** A new blank `rows` x `cols` array with the pattern `p` copied into its middle. */
  method CentreInBlank(p: array2<int>, rows: nat, cols: nat) returns (grid: array2<int>)
    requires p.Length0 <= rows && p.Length1 <= cols
    ensures fresh(grid) && grid.Length0 == rows && grid.Length1 == cols
    ensures Snapshot(grid) == Centred(Snapshot(p), p.Length1, rows, cols)
  {
    grid := new int[rows, cols]((_, _) => 0);
    var top, left := Margin(rows, p.Length0), Margin(cols, p.Length1);
    PasteAt(grid, p, top, left);
    forall r, c | 0 <= r < rows && 0 <= c < cols
      ensures grid[r, c] == Centred(Snapshot(p), p.Length1, rows, cols)[r][c]
    {
      CentredAt(Snapshot(p), p.Length1, rows, cols, r, c);
    }
    SnapshotIs(grid, Centred(Snapshot(p), p.Length1, rows, cols));
  }

  class MainController {
    /** The state holder the controller reads and writes. */
    const model: GolModel

    constructor (model: GolModel)
      ensures this.model == model
    {
      this.model := model;
    }

    /**
     * Loads the pattern file at `path`: when it exists and fits the grid, the grid
     * becomes a blank grid of the same size with the pattern in its middle; when it
     * is too large the grid is kept (the window shows an error); when it does not
     * exist nothing changes.
     */
    method LoadFile(path: string, files: map<string, seq<string>>) returns (outcome: LoadOutcome)
      requires WellFormedFiles(files) && model.Consistent()
      modifies model`grid, model`notifications
      ensures model.Consistent()
      ensures outcome == LoadResult(FileAt(files, path), model.gridSize.0, model.gridSize.1)
      ensures outcome == Loaded ==>
                && fresh(model.grid)
                && Snapshot(model.grid) == Placed(files[path], model.gridSize.0, model.gridSize.1)
                && model.notifications == old(model.notifications) + 1
      ensures outcome != Loaded ==>
                model.grid == old(model.grid) && model.notifications == old(model.notifications)
    {
      var pattern := ReadPatternFile(FileAt(files, path));
      if pattern.None? {
        // Asking a missing pattern for its shape fails before anything is set.
        return NotFound;
      }
      var p := pattern.value;
      var size := model.GetGridSize();
      var rows, cols := size.0, size.1;
      if p.Length0 > rows || p.Length1 > cols {
        return TooLarge;
      }
      var grid := CentreInBlank(p, rows, cols);
      PlacedInRange(files[path], rows, cols);
      model.SetGridAsArray(grid);
      return Loaded;
    }

    /**
     * Selects a preset: records it as the base pattern, then either blanks the grid
     * ("Custom") or loads the preset's file.
     */
    method SelectExamplePattern(name: string, files: map<string, seq<string>>) returns (outcome: LoadOutcome)
      requires WellFormedFiles(files) && model.Consistent()
      modifies model`basePattern, model`grid, model`notifications
      ensures model.Consistent() && model.basePattern == name
      ensures name == Custom ==>
                && outcome == Loaded
                && fresh(model.grid)
                && Snapshot(model.grid) == Zeros(model.gridSize.0, model.gridSize.1)
                && model.notifications == old(model.notifications) + 2
      ensures name != Custom ==>
                outcome == LoadResult(FileAt(files, PresetPath(name)), model.gridSize.0, model.gridSize.1)
      ensures name != Custom && outcome == Loaded ==>
                && fresh(model.grid)
                && Snapshot(model.grid) == Placed(files[PresetPath(name)], model.gridSize.0, model.gridSize.1)
                && model.notifications == old(model.notifications) + 2
      ensures name != Custom && outcome != Loaded ==>
                model.grid == old(model.grid) && model.notifications == old(model.notifications) + 1
    {
      model.SetBasePattern(name);
      if name == Custom {
        var size := model.GetGridSize();
        var grid := new int[size.0, size.1]((_, _) => 0);
        SnapshotIs(grid, Zeros(size.0, size.1));
        model.SetGridAsArray(grid);
        outcome := Loaded;
      } else {
        outcome := LoadFile(PresetPath(name), files);
      }
    }

    /** Brings the grid back to the state of the current base pattern by selecting it again. */
    method ClearGrid(files: map<string, seq<string>>) returns (outcome: LoadOutcome)
      requires WellFormedFiles(files) && model.Consistent()
      modifies model`basePattern, model`grid, model`notifications
      ensures model.Consistent() && model.basePattern == old(model.basePattern)
      ensures model.notifications == old(model.notifications) + (if outcome == Loaded then 2 else 1)
      ensures outcome == Loaded ==> fresh(model.grid)
      ensures old(model.basePattern) == Custom ==>
                && outcome == Loaded
                && Snapshot(model.grid) == Zeros(model.gridSize.0, model.gridSize.1)
      ensures old(model.basePattern) != Custom ==>
                outcome == LoadResult(FileAt(files, PresetPath(old(model.basePattern))), model.gridSize.0, model.gridSize.1)
      ensures old(model.basePattern) != Custom && outcome == Loaded ==>
                Snapshot(model.grid) == Placed(files[PresetPath(old(model.basePattern))], model.gridSize.0, model.gridSize.1)
      ensures old(model.basePattern) != Custom && outcome != Loaded ==> model.grid == old(model.grid)
    {
      var name := model.GetBasePattern();
      outcome := SelectExamplePattern(name, files);
    }

    /** Advances the grid by one generation of the age-tracking rule. */
    method SingleStep()
      requires model.Consistent()
      modifies model`grid, model`notifications
      ensures model.Consistent() && fresh(model.grid)
      ensures Snapshot(model.grid) == Step(old(Snapshot(model.grid)))
      ensures model.notifications == old(model.notifications) + 1
    {
      var current := model.GetGridAsArray();
      var next := Step(Snapshot(current));
      StepShape(Snapshot(current), current.Length0, current.Length1);
      StepInRange(Snapshot(current));
      var grid := new int[current.Length0, current.Length1]((i, j) requires 0 <= i < current.Length0 && 0 <= j < current.Length1 => next[i][j]);
      SnapshotIs(grid, next);
      model.SetGridAsArray(grid);
    }

    /** Starts the simulation if it is stopped, stops it if it runs. */
    method StartStop()
      modifies model`running, model`notifications
      ensures model.running == !old(model.running)
      ensures model.notifications == old(model.notifications) + 1
    {
      var running := model.GetRunning();
      if !running {
        model.SetRunning(true);
      } else {
        model.SetRunning(false);
      }
    }

    /** Changes the simulation speed. */
    method SetSpeed(speed: int)
      modifies model`fps, model`notifications
      ensures model.fps == speed && model.notifications == old(model.notifications) + 1
    {
      model.SetFps(speed);
    }

    /** Shows or hides the cell ages. */
    method ToggleShowCellAge(show: bool)
      modifies model`showCellAge, model`notifications
      ensures model.showCellAge == show && model.notifications == old(model.notifications) + 1
    {
      model.SetShowCellAge(show);
    }

    /** Flips the cell at (`row`, `col`): a live cell of any age dies, a dead cell is born with age 1. */
    method ToggleCell(row: nat, col: nat)
      requires model.Consistent() && row < model.gridSize.0 && col < model.gridSize.1
      modifies model`grid, model`notifications
      ensures model.Consistent() && fresh(model.grid)
      ensures Snapshot(model.grid) == Toggle(old(Snapshot(model.grid)), row, col)
      ensures model.notifications == old(model.notifications) + 1
    {
      var grid := model.GetGridAsArray();
      grid[row, col] := if grid[row, col] != 0 then 0 else 1;
      SnapshotIs(grid, Toggle(old(Snapshot(model.grid)), row, col));
      model.SetGridAsArray(grid);
    }

    /** The lines written when the current grid is saved as a pattern file. */
    method SavePattern() returns (lines: seq<string>)
      ensures lines == Encode(Snapshot(model.grid))
    {
      var grid := model.GetGridAsArray();
      lines := SavePatternFile(grid);
    }
  }

  // ---------------------------------------------------------------------------
  // Toggling a cell
  // ---------------------------------------------------------------------------

  /** `g` with the cell at (`r`, `c`) flipped between dead and newborn. */
  function Toggle(g: Grid, r: nat, c: nat): (t: Grid)
    requires r < |g| && c < |g[r]|
    ensures |t| == |g| && forall i :: 0 <= i < |g| ==> |t[i]| == |g[i]|
  {
    g[r := g[r][c := if g[r][c] != 0 then 0 else 1]]
  }

  /** Toggling changes the chosen cell's liveness and no other cell. */
  lemma ToggleAt(g: Grid, r: nat, c: nat)
    requires r < |g| && c < |g[r]|
    ensures Toggle(g, r, c)[r][c] == (if g[r][c] == 0 then 1 else 0)
    ensures Liveness(Toggle(g, r, c))[r][c] != Liveness(g)[r][c]
    ensures forall i, j :: 0 <= i < |g| && 0 <= j < |g[i]| && (i, j) != (r, c) ==> Toggle(g, r, c)[i][j] == g[i][j]
  {
  }

  /** Toggling the same cell twice gives back the same live cells; the grid itself only when that cell was 0 or 1. */
  lemma ToggleTwice(g: Grid, r: nat, c: nat)
    requires r < |g| && c < |g[r]|
    ensures Liveness(Toggle(Toggle(g, r, c), r, c)) == Liveness(g)
    ensures Toggle(Toggle(g, r, c), r, c) == g <==> g[r][c] == 0 || g[r][c] == 1
  {
    var t := Toggle(Toggle(g, r, c), r, c);
    if g[r][c] == 0 || g[r][c] == 1 {
      assert t[r] == g[r];
      assert t == g;
    } else {
      assert t[r][c] != g[r][c];
    }
    var lt, lg := Liveness(t), Liveness(g);
    forall i | 0 <= i < |g|
      ensures lt[i] == lg[i]
    {
      assert |lt[i]| == |lg[i]|;
    }
  }

  /** Toggling keeps every cell within the 8-bit range. */
  lemma ToggleInRange(g: Grid, r: nat, c: nat)
    requires r < |g| && c < |g[r]| && InRange(g)
    ensures InRange(Toggle(g, r, c))
  {
  }
}
