/**
 * The state of the simulation (model/gol_model.py): the grid of cell ages, its
 * size, the preset it came from, the speed and the two display/run flags. Every
 * setter notifies the observers once; the notifications are counted.
 */
module GolState {
  import opened Grids

  /** Default grid size (rows, columns) and speed in frames per second. */
  const GridSize: (nat, nat) := (150, 300)
  const Fps: int := 30

  /** The base-pattern name meaning "no preset": a hand-edited or blank grid. */
  const Custom: string := "Custom"

  class GolModel {
    var basePattern: string
    var gridSize: (nat, nat)
    /** Cell ages, 0 for a dead cell; an 8-bit array in the program. */
    var grid: array2<int>
    var fps: int
    var running: bool
    var showCellAge: bool
    /** How many change notifications the observers have received. */
    var notifications: nat

    /**
     * The grid has the recorded size and holds 8-bit values. The setters do not
     * check this; the controller's operations keep it.
     */
    ghost predicate Consistent()
      reads this, grid
    {
      && grid.Length0 == gridSize.0
      && grid.Length1 == gridSize.1
      && forall i, j :: 0 <= i < grid.Length0 && 0 <= j < grid.Length1 ==> 0 <= grid[i, j] <= 255
    }

    /** The initial state: a blank default-size grid, no preset, default speed, stopped, ages hidden. */
    constructor ()
      ensures basePattern == Custom && gridSize == GridSize && fps == Fps
      ensures !running && !showCellAge && notifications == 0
      ensures fresh(grid) && Snapshot(grid) == Zeros(GridSize.0, GridSize.1)
      ensures Consistent()
    {
      basePattern := Custom;
      gridSize := GridSize;
      grid := new int[GridSize.0, GridSize.1]((_, _) => 0);
      fps := Fps;
      running := false;
      showCellAge := false;
      notifications := 0;
      new;
      SnapshotIs(grid, Zeros(GridSize.0, GridSize.1));
    }

    /** Sends one change notification to the observers. */
    method Notify()
      modifies this`notifications
      ensures notifications == old(notifications) + 1
    {
      notifications := notifications + 1;
    }

    method GetBasePattern() returns (name: string)
      ensures name == basePattern
    {
      name := basePattern;
    }

    /** A copy of the grid: a new array with the same cells, so writing to it leaves the model alone. */
    method GetGridAsArray() returns (copy: array2<int>)
      ensures fresh(copy)
      ensures copy.Length0 == grid.Length0 && copy.Length1 == grid.Length1
      ensures Snapshot(copy) == Snapshot(grid)
    {
      copy := new int[grid.Length0, grid.Length1]((i, j) requires 0 <= i < grid.Length0 && 0 <= j < grid.Length1 reads this, grid => grid[i, j]);
      SnapshotIs(copy, Snapshot(grid));
    }

    method GetFps() returns (f: int)
      ensures f == fps
    {
      f := fps;
    }

    method GetGridSize() returns (size: (nat, nat))
      ensures size == gridSize
    {
      size := gridSize;
    }

    method GetRunning() returns (r: bool)
      ensures r == running
    {
      r := running;
    }

    method GetShowCellAge() returns (s: bool)
      ensures s == showCellAge
    {
      s := showCellAge;
    }

    method SetBasePattern(name: string)
      modifies this`basePattern, this`notifications
      ensures basePattern == name && notifications == old(notifications) + 1
    {
      basePattern := name;
      Notify();
    }

    method SetFps(value: int)
      modifies this`fps, this`notifications
      ensures fps == value && notifications == old(notifications) + 1
    {
      fps := value;
      Notify();
    }

    /** Records a new size and replaces the grid by a blank one of that size. */
    method SetGridSize(rows: nat, cols: nat)
      modifies this`gridSize, this`grid, this`notifications
      ensures gridSize == (rows, cols) && fresh(grid) && Snapshot(grid) == Zeros(rows, cols)
      ensures notifications == old(notifications) + 1
      ensures Consistent()
    {
      gridSize := (rows, cols);
      grid := new int[rows, cols]((_, _) => 0);
      SnapshotIs(grid, Zeros(rows, cols));
      Notify();
    }

    /** Stores the given array itself as the grid, without checking its shape. */
    method SetGridAsArray(g: array2<int>)
      modifies this`grid, this`notifications
      ensures grid == g && notifications == old(notifications) + 1
    {
      grid := g;
      Notify();
    }

    method SetRunning(value: bool)
      modifies this`running, this`notifications
      ensures running == value && notifications == old(notifications) + 1
    {
      running := value;
      Notify();
    }

    method SetShowCellAge(value: bool)
      modifies this`showCellAge, this`notifications
      ensures showCellAge == value && notifications == old(notifications) + 1
    {
      showCellAge := value;
      Notify();
    }
  }
}
