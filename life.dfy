/**
 * One generation of B3/S23 Life on a bounded grid whose cells carry their age
 * (`MainController.single_step`). Positions outside the grid count as dead.
 */
module Life {
  import opened Grids

  /** 1 if position (i, j) lies inside the grid and holds a live cell, otherwise 0. */
  function AliveAt(g: Grid, i: int, j: int): (a: int)
    ensures a == 0 || a == 1
    ensures !(0 <= i < |g| && 0 <= j < |g[i]|) ==> a == 0
  {
    if 0 <= i < |g| && 0 <= j < |g[i]| && g[i][j] != 0 then 1 else 0
  }

  /** The number of live cells among the eight positions around (i, j). */
  function Neighbours(g: Grid, i: int, j: int): (n: int)
    ensures 0 <= n <= 8
  {
    AliveAt(g, i - 1, j - 1) + AliveAt(g, i - 1, j) + AliveAt(g, i - 1, j + 1) +
    AliveAt(g, i, j - 1) + AliveAt(g, i, j + 1) +
    AliveAt(g, i + 1, j - 1) + AliveAt(g, i + 1, j) + AliveAt(g, i + 1, j + 1)
  }

  /**
   * The next age of a cell of age `age` with `n` live neighbours, computed as the
   * controller does: a 0/1 "alive next" mask from the birth and survival masks,
   * then `age * next + next`, then every cell whose old age is 255 is put back to 255.
   */
  function NextAge(age: int, n: int): (r: int)
    ensures 0 <= age <= 255 ==> 0 <= r <= 255
    ensures age == 255 ==> r == 255
    ensures 0 <= age < 255 ==> (r != 0 <==> Rule(age != 0, n))
  {
    var alive := if age != 0 then 1 else 0;
    var newborn := n == 3 && alive == 0;
    var survived := 2 <= n && n <= 3 && alive == 1;
    var next := if newborn || survived then 1 else 0;
    if age == 255 then 255 else age * next + next
  }

  /** One generation: a new grid of the same shape, each cell from its own age and its neighbour count. */
  function Step(g: Grid): (r: Grid)
    ensures |r| == |g| && forall i :: 0 <= i < |g| ==> |r[i]| == |g[i]|
  {
    seq(|g|, i requires 0 <= i < |g| =>
      seq(|g[i]|, j requires 0 <= j < |g[i]| => NextAge(g[i][j], Neighbours(g, i, j))))
  }

  /** `n` generations in a row. */
  function StepN(g: Grid, n: nat): Grid
    decreases n
  {
    if n == 0 then g else StepN(Step(g), n - 1)
  }

  /** Running `m` generations and then `n` more is running `m + n`. */
  lemma {:induction false} StepNAdd(g: Grid, m: nat, n: nat)
    ensures StepN(g, m + n) == StepN(StepN(g, m), n)
    decreases m
  {
    if m > 0 {
      StepNAdd(Step(g), m - 1, n);
    }
  }

  /** The last of `n` generations is one step from the first `n - 1`. */
  lemma {:induction false} StepNLast(g: Grid, n: nat)
    requires n > 0
    ensures StepN(g, n) == Step(StepN(g, n - 1))
    decreases n
  {
    if n == 1 {
      assert StepN(g, 0) == g;
      assert StepN(Step(g), 0) == Step(g);
    } else {
      StepNLast(Step(g), n - 1);
    }
  }

  /** The B3/S23 rule that decides whether a cell is alive next. */
  ghost predicate Rule(alive: bool, n: int)
  {
    if alive then n == 2 || n == 3 else n == 3
  }

  /**
   * For a cell younger than 255: it is alive after the step iff it was dead with
   * exactly three live neighbours or alive with two or three.
   */
  lemma StepLiveness(g: Grid, i: nat, j: nat)
    requires i < |g| && j < |g[i]| && 0 <= g[i][j] < 255
    ensures Step(g)[i][j] != 0 <==> Rule(g[i][j] != 0, Neighbours(g, i, j))
  {
  }

  /** For a cell younger than 255: a survivor ages by one, a newborn gets age 1, a dying cell gets 0. */
  lemma StepAge(g: Grid, i: nat, j: nat)
    requires i < |g| && j < |g[i]| && 0 <= g[i][j] < 255
    ensures var n := Neighbours(g, i, j);
            Step(g)[i][j] == if Rule(g[i][j] != 0, n) then g[i][j] + 1 else 0
  {
  }

  /** A cell of age 255 is 255 after the step, whatever its neighbours: it never dies. */
  lemma StepSaturated(g: Grid, i: nat, j: nat)
    requires i < |g| && j < |g[i]| && g[i][j] == 255
    ensures Step(g)[i][j] == 255
  {
  }

  /** A step keeps every cell within 0..255. */
  lemma StepInRange(g: Grid)
    requires InRange(g)
    ensures InRange(Step(g))
  {
    forall i, j | 0 <= i < |g| && 0 <= j < |g[i]|
      ensures 0 <= Step(g)[i][j] <= 255
    {
      var n := Neighbours(g, i, j);
      assert Step(g)[i][j] == NextAge(g[i][j], n);
    }
  }

  /** A step keeps the shape of a rectangular grid. */
  lemma StepShape(g: Grid, rows: nat, cols: nat)
    requires HasShape(g, rows, cols)
    ensures HasShape(Step(g), rows, cols)
  {
  }

  /** No spontaneous birth: an all-dead grid steps to itself. */
  lemma StepAllZero(g: Grid)
    requires AllZero(g)
    ensures Step(g) == g
  {
    var r := Step(g);
    forall i | 0 <= i < |g|
      ensures r[i] == g[i]
    {
      forall j | 0 <= j < |g[i]|
        ensures r[i][j] == g[i][j]
      {
        assert Neighbours(g, i, j) == 0;
      }
    }
  }

  /** Two grids with the same liveness agree on whether each position holds a live cell. */
  lemma AliveAtByLiveness(g: Grid, h: Grid, x: int, y: int)
    requires Liveness(g) == Liveness(h)
    ensures AliveAt(g, x, y) == AliveAt(h, x, y)
  {
    assert |g| == |Liveness(g)| == |h|;
    if 0 <= x < |g| {
      assert |g[x]| == |Liveness(g)[x]| == |h[x]|;
      if 0 <= y < |g[x]| {
        assert Liveness(g)[x][y] == Liveness(h)[x][y];
      }
    }
  }

  /** Two grids with the same liveness give every cell the same neighbour count. */
  lemma NeighboursByLiveness(g: Grid, h: Grid, i: int, j: int)
    requires Liveness(g) == Liveness(h)
    ensures Neighbours(g, i, j) == Neighbours(h, i, j)
  {
    AliveAtByLiveness(g, h, i - 1, j - 1);
    AliveAtByLiveness(g, h, i - 1, j);
    AliveAtByLiveness(g, h, i - 1, j + 1);
    AliveAtByLiveness(g, h, i, j - 1);
    AliveAtByLiveness(g, h, i, j + 1);
    AliveAtByLiveness(g, h, i + 1, j - 1);
    AliveAtByLiveness(g, h, i + 1, j);
    AliveAtByLiveness(g, h, i + 1, j + 1);
  }

  /**
   * Ages do not affect liveness: grids with the same live cells, none of age 255,
   * have the same live cells after a step.
   */
  lemma LivenessIgnoresAge(g: Grid, h: Grid)
    requires Liveness(g) == Liveness(h) && InRange(g) && InRange(h)
    requires forall i, j :: 0 <= i < |g| && 0 <= j < |g[i]| ==> g[i][j] != 255
    requires forall i, j :: 0 <= i < |h| && 0 <= j < |h[i]| ==> h[i][j] != 255
    ensures Liveness(Step(g)) == Liveness(Step(h))
  {
    var lg, lh := Liveness(Step(g)), Liveness(Step(h));
    assert |g| == |h|;
    forall i | 0 <= i < |g|
      ensures lg[i] == lh[i]
    {
      assert |g[i]| == |Liveness(g)[i]| == |Liveness(h)[i]| == |h[i]|;
      forall j | 0 <= j < |g[i]|
        ensures lg[i][j] == lh[i][j]
      {
        NeighboursByLiveness(g, h, i, j);
        assert Liveness(g)[i][j] == Liveness(h)[i][j];
        StepLiveness(g, i, j);
        StepLiveness(h, i, j);
      }
    }
  }

  /**
   * Saturation: a live cell that keeps two or three live neighbours for `n`
   * generations goes from age `a` (1..255) to min(a + n, 255); so a cell alive for
   * 300 generations has age exactly 255, never a wrapped value.
   */
  lemma {:induction false} SurvivorAge(g: Grid, i: nat, j: nat, n: nat)
    requires i < |g| && j < |g[i]| && 1 <= g[i][j] <= 255
    requires forall k :: 0 <= k < n ==> i < |StepN(g, k)| && j < |StepN(g, k)[i]| &&
                                        2 <= Neighbours(StepN(g, k), i, j) <= 3
    ensures i < |StepN(g, n)| && j < |StepN(g, n)[i]|
    ensures StepN(g, n)[i][j] == if g[i][j] + n < 255 then g[i][j] + n else 255
    decreases n
  {
    if n == 0 {
      assert StepN(g, n) == g;
    } else {
      SurvivorAge(g, i, j, n - 1);
      SurvivorStep(StepN(g, n - 1), i, j);
      StepNLast(g, n);
    }
  }

  /** One generation of a live cell with two or three live neighbours: it ages by one, up to 255. */
  lemma SurvivorStep(g: Grid, i: nat, j: nat)
    requires i < |g| && j < |g[i]| && 1 <= g[i][j] <= 255
    requires 2 <= Neighbours(g, i, j) <= 3
    ensures i < |Step(g)| && j < |Step(g)[i]|
    ensures Step(g)[i][j] == if g[i][j] < 255 then g[i][j] + 1 else 255
  {
    StepCell(g, i, j);
  }

  /** Each cell of a step is its next age. */
  lemma StepCell(g: Grid, i: nat, j: nat)
    requires i < |g| && j < |g[i]|
    ensures Step(g)[i][j] == NextAge(g[i][j], Neighbours(g, i, j))
  {
  }
}
