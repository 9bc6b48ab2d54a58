# Game of Life with cell ages — a Dafny model

This project models the core of a desktop Game of Life (an MVC program in Python
with numpy). It covers four parts:

- **The state holder** (`GOLModel`). It holds the grid of cell ages, the grid size,
  the preset the grid came from, the speed and two flags. Every setter notifies the
  observers.
- **The controller** (`MainController`). Its operations step the grid, toggle a
  cell, load a pattern file into the middle of a blank grid, select or re-select a
  preset, start and stop the run, change the speed, and save.
- **The `.cells` plain-text pattern format**. This covers reading a file into a 0/1
  grid, writing a grid back, and listing the presets of a directory.
- **The update rule**. It is B3/S23 Life on a bounded grid whose cells count how
  many generations they have been alive. The count saturates at 255.

Modules:

- `Grids` (`grids.dfy`): grids as values (`seq<seq<int>>`) and the bridge from the
  two-dimensional arrays that hold them (`Snapshot`).
- `Life` (`life.dfy`): one generation, computed as the controller computes it. The
  steps are a 0/1 liveness mask, eight-neighbour counts with the outside counted as
  dead, birth and survival masks, `age * next + next`, and finally every cell whose
  old age is 255 is put back to 255. The lemmas tie this computation to the B3/S23
  rule and to the ages it produces.
- `LifeExamples` (`life_examples.dfy`): the block still life and the blinker
  oscillator, run through the step.
- `Patterns` (`patterns.dfy`):
  - the reader's two passes over the lines of a file, as methods over an `array2`;
  - the writer;
  - the preset-listing filter;
  - the round trip between writing and reading.
- `GolState` (`gol_model.dfy`): the state holder as a class. It has a notification
  counter, and its getter returns a copy of the grid array.
- `Controller` (`controller.dfy`): the controller as a class over a `GolModel`.
  Pattern files are given as a map from path to the lines of the file.

A cell whose age is 255 before a step is 255 after it, even with no live
neighbours. The pin at controller/main_controller.py:145-146 depends on the old
age, not on the next liveness, so an ancient cell never dies. Under plain B3/S23
an isolated cell would die; the program keeps it at 255, and so does this model
(`Life.NextAge`, `Life.StepSaturated`).

The reader's first pass sets the width to `len(line) - 1` whenever `len(line)` is
larger than the current width. On lines that end with a newline this is the largest
line length without its newline, and that is what `Patterns.MeasurePattern`
computes. A last line without a newline is the one case where the two differ; see
Findings.

## Model

| member | source | states |
|---|---|---|
| Grids.Zeros | model/gol_model.py:21 | the blank grid has the requested number of rows and columns, and every cell is dead |
| Grids.Liveness | controller/main_controller.py:127 | the liveness mask has the grid's shape, with 1 exactly where the age is nonzero and 0 exactly where it is zero |
| Life.AliveAt | controller/main_controller.py:127-130 | a position counts 0 or 1 towards a neighbour count, and positions outside the grid count as dead (the convolution pads with 0) |
| Life.NextAge | controller/main_controller.py:132-146 | one cell's next value: it stays in 0..255, an old age of 255 stays 255, and below 255 the cell is alive next exactly when the B3/S23 rule says so |
| Life.Neighbours | controller/main_controller.py:129-130 | a neighbour count lies in 0..8 |
| Life.Step | controller/main_controller.py:120-148 | one generation has as many rows as the grid, and each row keeps its length |
| Life.StepNAdd | controller/main_controller.py:120-148 | running m generations and then n more is running m + n |
| Life.StepLiveness | controller/main_controller.py:132-141 | for a cell younger than 255: alive next iff (dead and exactly 3 live neighbours) or (alive and 2 or 3), in both directions |
| Life.StepAge | controller/main_controller.py:143-144 | for a cell younger than 255: a survivor ages by one, a newborn gets age 1, and any other cell gets 0 |
| Life.StepSaturated | controller/main_controller.py:145-146 | a cell of age 255 is 255 after the step whatever its neighbours, so it never dies |
| Life.StepInRange | controller/main_controller.py:143-146 | a step keeps every value within 0..255 (no uint8 wrap-around) |
| Life.StepShape | controller/main_controller.py:126-148 | a step keeps the grid's dimensions |
| Life.StepAllZero | controller/main_controller.py:132-134 | an all-dead grid steps to itself (no spontaneous birth) |
| Life.NeighboursByLiveness | controller/main_controller.py:127-130 | neighbour counts depend only on liveness, not on ages |
| Life.LivenessIgnoresAge | controller/main_controller.py:127-141 | two grids with the same live cells, none of age 255, have the same live cells after a step |
| Life.SurvivorStep | controller/main_controller.py:137-146 | a live cell with 2 or 3 live neighbours goes from age a to min(a + 1, 255) |
| Life.SurvivorAge | controller/main_controller.py:143-146 | a live cell that keeps 2 or 3 live neighbours for n generations goes from age a to min(a + n, 255) |
| LifeExamples.BlockStillLife | controller/main_controller.py:132-144 | a 2x2 block of equal age a < 255 steps to the same block with age a + 1 |
| LifeExamples.BlinkerVertical | controller/main_controller.py:132-144 | a vertical blinker becomes horizontal: its centre ages, its ends die and the side cells are born with age 1 |
| LifeExamples.BlinkerHorizontal | controller/main_controller.py:132-144 | a horizontal blinker becomes vertical again, in the same way |
| LifeExamples.BlinkerTwoSteps | controller/main_controller.py:120-148 | two generations bring a vertical blinker back, with its centre two generations older |
| LifeExamples.BlinkerChanges | controller/main_controller.py:120-148 | one generation changes a blinker's live cells |
| LifeExamples.BlinkerPeriod | controller/main_controller.py:120-148 | two generations, and also four, give a blinker back its live cells |
| Patterns.Content | utils/patterns.py:33 | the comment filter keeps no more rows than there are lines (which rows it keeps: `Patterns.ContentLines`) |
| Patterns.MaxWidth | utils/patterns.py:35-36 | the pattern is at least as wide as each of its rows |
| Patterns.MaxWidthAttained | utils/patterns.py:35-36 | the width is the width of some row, or 0 when there are no rows |
| Patterns.Decode | utils/patterns.py:38-48 | the grid read from a file has one row per non-comment line and as many columns as the widest row |
| Patterns.ContentLines | utils/patterns.py:33-34 | the rows are exactly the non-comment lines: each row is such a line, and each such line is a row |
| Patterns.CommentIgnored | utils/patterns.py:44-46 | inserting a comment line anywhere in a file leaves the grid read from it unchanged |
| Patterns.DecodeCells | utils/patterns.py:38-48 | every cell read is 0 or 1, and it is 1 exactly where the row has an `O` |
| Patterns.LiveCellInside | utils/patterns.py:35-36 | no `O` lies at or past the pattern's width, so the grid holds every live cell of the file |
| Patterns.MeasurePattern | utils/patterns.py:29-36 | the first pass returns the number of non-comment lines and the width of the widest of them |
| Patterns.FillSnoc | utils/patterns.py:40-48 | the second pass's row index: a comment line takes no row, and a non-comment line `j` is row number "non-comment lines before `j`" of the pattern |
| Patterns.FillPattern | utils/patterns.py:40-48 | the second pass, with its count of skipped comment lines, turns a zero grid of the right size into exactly the decoded grid |
| Patterns.MarkLiveCells | utils/patterns.py:43-48 | one line writes a 1 at each of its `O` columns in its row, and every other cell keeps its value |
| Patterns.ReadPatternFile | utils/patterns.py:17-50 | a missing file gives None; otherwise the result has the decoded shape and contents |
| Patterns.ReadAsWritten | utils/patterns.py:29-48 | the reader as written: when it gives a grid rather than an index error, that grid has one row per non-comment line and holds only 0 and 1 (when it errs: `Patterns.UnterminatedLastLine`) |
| Patterns.MaxWidthTerminated | utils/patterns.py:35-36 | when every line ends with a newline, the width as written (length minus one) is the true width |
| Patterns.AsWrittenAgrees | utils/patterns.py:29-48 | when every line ends with a newline, the reader as written gives the decoded grid |
| Patterns.UnterminatedLastLine | utils/patterns.py:35-36 | for the one-line file `OO` without a newline, the reader as written indexes past the grid, while the intended reading is one row of two live cells |
| Patterns.Encode | utils/patterns.py:62-66 | the saved lines are one per row, each the row's length plus a newline |
| Patterns.SavePatternFile | utils/patterns.py:62-66 | the lines built are the encoding of the saved grid |
| Patterns.EncodeLines | utils/patterns.py:62-66 | one line per row; each line is the row's length plus a newline; `O` exactly at the nonzero cells and `.` at the zero ones; no line is a comment |
| Patterns.RoundTrip | utils/patterns.py:17-69 | reading a saved rectangular grid back gives the same number of rows, the same width and exactly its liveness (ages are lost) |
| Patterns.EncodedRows | utils/patterns.py:29-36 | every saved line is read back as a row, and the rows read back are as wide as the grid |
| Patterns.EncodedCells | utils/patterns.py:40-48 | the saved lines read back to a 1 exactly at each nonzero cell and a 0 at each zero cell |
| Patterns.RoundTripAsWritten | utils/patterns.py:29-66 | the reader as written also reads every saved grid back as its liveness |
| Patterns.RemoveExtension | utils/patterns.py:14 | removing the extension never lengthens a name |
| Patterns.AvailablePatterns | utils/patterns.py:14 | no more names are listed than there are entries |
| Patterns.AvailablePatternsIff | utils/patterns.py:14 | a name is listed iff some regular file ending in `.cells` gives that name once the extension is removed |
| Patterns.RemoveTrailingExtension | utils/patterns.py:14 | removing the extension from a name ending in it is removing it from what precedes it |
| Patterns.NothingToRemove | utils/patterns.py:14 | a name shorter than the extension is kept unchanged |
| Patterns.NoExtensionKept | utils/patterns.py:14 | a name without the extension in it is kept unchanged |
| Patterns.PresetName | utils/patterns.py:14 | the regular file `b.cells` is listed as the preset `b` when `b` has no `.cells` inside |
| GolState.GolModel.constructor | model/gol_model.py:12-27 | the initial state is base pattern "Custom", size 150 x 300, an all-dead grid, 30 fps, stopped and ages hidden |
| GolState.GolModel.Notify | model/observable.py:16-17 | each notification is counted once |
| GolState.GolModel.GetBasePattern | model/gol_model.py:29-30 | returns the base pattern and changes nothing |
| GolState.GolModel.GetGridAsArray | model/gol_model.py:32-37 | returns a new array with the grid's shape and cells, so writes to it leave the state alone |
| GolState.GolModel.GetFps | model/gol_model.py:39-40 | returns the speed and changes nothing |
| GolState.GolModel.GetGridSize | model/gol_model.py:42-43 | returns the size and changes nothing |
| GolState.GolModel.GetRunning | model/gol_model.py:45-46 | returns the running flag and changes nothing |
| GolState.GolModel.GetShowCellAge | model/gol_model.py:48-49 | returns the show-ages flag and changes nothing |
| GolState.GolModel.SetBasePattern | model/gol_model.py:51-53 | sets the base pattern and notifies once; no other field changes |
| GolState.GolModel.SetFps | model/gol_model.py:55-57 | sets the speed and notifies once; no other field changes |
| GolState.GolModel.SetGridSize | model/gol_model.py:59-62 | records the size, replaces the grid by a new all-dead grid of that size and notifies once |
| GolState.GolModel.SetGridAsArray | model/gol_model.py:64-66 | stores the given array itself, unchecked, and notifies once |
| GolState.GolModel.SetRunning | model/gol_model.py:68-70 | sets the running flag and notifies once; no other field changes |
| GolState.GolModel.SetShowCellAge | model/gol_model.py:72-74 | sets the show-ages flag and notifies once; no other field changes |
| Controller.ListedPresetPath | controller/main_controller.py:107 | selecting a listed preset reads the file it was listed from: `b.cells`, listed as `b` when `b` has no `.cells` inside, is loaded from `patterns/b.cells` |
| Controller.InnerExtensionPreset | controller/main_controller.py:107 | the exception: the file `a.cells.cells` is listed as `a`, but selecting `a` reads `patterns/a.cells`, another file |
| Controller.Margin | controller/main_controller.py:79-80 | the margin is half the spare room, rounded down: the pattern fits, and the far margin equals it or is one larger |
| Controller.Centred | controller/main_controller.py:77-81 | the centred grid has the grid's full size |
| Controller.CentredAt | controller/main_controller.py:77-81 | each cell inside the window is the pattern's cell, and each cell outside is dead |
| Controller.CentredLiveCells | controller/main_controller.py:81 | pattern cell (r, c) lands at (top margin + r, left margin + c) |
| Controller.CentredSingleCell | controller/main_controller.py:79-81 | one cell lands at (2, 2) of a 5 x 5 grid, and at (1, 1) of a 4 x 4 grid |
| Controller.Placed | controller/main_controller.py:77-83 | loading a file that fits gives a grid of the current size |
| Controller.PlacedInRange | controller/main_controller.py:78-81 | a loaded grid holds only 0 and 1 |
| Controller.PasteAt | controller/main_controller.py:81 | the slice assignment copies the pattern into its window and leaves every other cell as it was |
| Controller.CentreInBlank | controller/main_controller.py:78-81 | a new array of the grid size holding the centred pattern |
| Controller.MainController.constructor | controller/main_controller.py:35 | the controller works on the given state holder |
| Controller.MainController.LoadFile | controller/main_controller.py:61-83 | there are three cases. A missing file changes nothing. A pattern larger than the grid in either dimension keeps the grid and sends no notification. Otherwise the grid becomes a new array holding the pattern centred in a blank grid of the same size, with one notification. Each case also states the outcome |
| Controller.MainController.SelectExamplePattern | controller/main_controller.py:95-108 | the base pattern becomes the name, with one notification. "Custom" then gives a new all-dead grid. Any other name loads `patterns/<name>.cells` as `LoadFile` does |
| Controller.MainController.ClearGrid | controller/main_controller.py:42-48 | the base pattern is kept, and the grid is reset to what selecting that base pattern gives: a new array with two notifications when the grid is replaced, and the old grid with one notification when the load is refused or the file is missing |
| Controller.MainController.SingleStep | controller/main_controller.py:120-148 | the grid becomes a new array holding exactly one generation of the old grid, with one notification, and it stays within the size and 0..255 |
| Controller.MainController.StartStop | controller/main_controller.py:150-160 | the running flag flips, with one notification |
| Controller.MainController.SetSpeed | controller/main_controller.py:110-118 | the speed becomes the given value, with one notification |
| Controller.MainController.ToggleShowCellAge | controller/main_controller.py:166-167 | the show-ages flag becomes the given value, with one notification |
| Controller.MainController.ToggleCell | controller/main_controller.py:169-178 | the grid becomes a new array equal to the old one with that one cell toggled, with one notification |
| Controller.MainController.SavePattern | controller/main_controller.py:85-93 | the lines saved are the encoding of the current grid, and nothing changes |
| Controller.Toggle | controller/main_controller.py:177 | toggling keeps the grid's shape |
| Controller.ToggleAt | controller/main_controller.py:177 | a live cell of any age becomes 0, a dead cell becomes 1, and every other cell is unchanged |
| Controller.ToggleTwice | controller/main_controller.py:177 | toggling the same cell twice restores the live cells. It restores the grid itself exactly when that cell was 0 or 1 |
| Controller.ToggleInRange | controller/main_controller.py:177 | toggling keeps every value in 0..255 |

## Left out

- The worker thread that calls the step repeatedly, its timing and its stop on exit (worker.py). These are concurrency and clocks. `Life.StepN` stands for a run of steps.
- Controller.MainController.StartStop: only the running flag and its notification are modelled, not the creation, start or stop of the worker thread.
- Controller.MainController.SetSpeed: the worker's new wait time (`1 / fps`, floating point) is not modelled.
- The window:
  - the file dialogs of loading and saving (`load_custom_pattern`, and the dialog part of `save_pattern`);
  - the status-bar and error messages, where the `TooLarge` outcome stands for the error dialog;
  - resetting the preset box before a custom load;
  - wiring the buttons in the controller's constructor.
- Controller.MainController.SavePattern returns the lines it would write. The file itself and any write error are not modelled.
- The file system is a map from path to lines. Reading a missing path models `os.path.isfile` being false. Paths are relative to the program's directory. I/O and decoding errors are not modelled.
- Controller.MainController.LoadFile: a missing file makes the program fail on `None.shape` before any setter runs. The model returns `NotFound` with the state unchanged.
- Controller.MainController.LoadFile reads with the corrected width (`Patterns.ReadPatternFile`, see Findings), and so do `SelectExamplePattern` and `ClearGrid` through it. For a last line without a newline, neither the program's `IndexError` nor its one-column-narrower grid (and the `TooLarge` decision taken on that narrower width) is modelled; `Patterns.ReadAsWritten` models them for the reader alone.
- Controller.InnerExtensionPreset: a listed file name with `.cells` inside it, as in `a.cells.cells`, makes the program read a different or missing file; the model shows this and does not correct it.
- Patterns.ReadPatternFile requires what iterating over a text file yields: no line is empty, and every line but the last ends with a newline.
- Patterns.AvailablePatterns takes the directory listing, whose order comes from the operating system, as a parameter.
- The observers' reactions to a notification, such as redrawing, are not modelled. Notifications are counted, not delivered.
- Cell values are unbounded integers. The 8-bit element type of the numpy arrays is not modelled: the 0..255 range is an invariant (`GolState.GolModel.Consistent`) that the controller's operations keep. The signed 8-bit array that `set_grid_size` creates is treated like the others.
- Controller.MainController.ToggleCell requires a position inside the grid. The window only reports clicks on cells; numpy's negative indices are not modelled.
- The controller's operations other than `StartStop`, `SetSpeed`, `ToggleShowCellAge` and `SavePattern` require `model.Consistent()`: a grid of the recorded size with values in 0..255.

## Findings

| source | as written | input that shows it | evidently intended | confidence | as-written member | corrected member |
|---|---|---|---|---|---|---|
| utils/patterns.py:35-36 | the width is `len(line) - 1` for every line, which assumes each line ends with a newline; the last line of a file need not | a file whose only line is `OO` with no final newline: the grid is 1 column wide, and the second `O` indexes past it | the width counts the characters before the newline, so the file reads as one row of two live cells | medium, not executed | Patterns.UnterminatedLastLine | Patterns.ReadPatternFile |
