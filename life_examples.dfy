/** Known patterns run through the age-tracking step: a still life and an oscillator. */
module LifeExamples {
  import opened Grids
  import opened Life

  /** `g` is the three-row grid with rows `a`, `b` and `c`. */
  ghost predicate Rows3(g: Grid, a: seq<int>, b: seq<int>, c: seq<int>)
  {
    |g| == 3 && g[0] == a && g[1] == b && g[2] == c
  }

  /** The 2x2 block is a still life: the same cells stay alive, each one generation older. */
  lemma BlockStillLife(g: Grid, a: int)
    requires |g| == 2 && g[0] == [a, a] && g[1] == [a, a] && 1 <= a < 255
    ensures |Step(g)| == 2 && Step(g)[0] == [a + 1, a + 1] && Step(g)[1] == [a + 1, a + 1]
  {
    StepCell(g, 0, 0); StepCell(g, 0, 1); StepCell(g, 1, 0); StepCell(g, 1, 1);
    assert Neighbours(g, 0, 0) == 3 && Neighbours(g, 0, 1) == 3;
    assert Neighbours(g, 1, 0) == 3 && Neighbours(g, 1, 1) == 3;
  }

  /** The vertical blinker turns horizontal: the centre ages, the ends die, two side cells are born. */
  lemma BlinkerVertical(g: Grid, a: int)
    requires Rows3(g, [0, 1, 0], [0, a, 0], [0, 1, 0]) && 1 <= a < 255
    ensures Rows3(Step(g), [0, 0, 0], [1, a + 1, 1], [0, 0, 0])
  {
    StepCell(g, 0, 0); StepCell(g, 0, 1); StepCell(g, 0, 2);
    assert Neighbours(g, 0, 0) == 2 && Neighbours(g, 0, 1) == 1 && Neighbours(g, 0, 2) == 2;
    StepCell(g, 1, 0); StepCell(g, 1, 1); StepCell(g, 1, 2);
    assert Neighbours(g, 1, 0) == 3 && Neighbours(g, 1, 1) == 2 && Neighbours(g, 1, 2) == 3;
    StepCell(g, 2, 0); StepCell(g, 2, 1); StepCell(g, 2, 2);
    assert Neighbours(g, 2, 0) == 2 && Neighbours(g, 2, 1) == 1 && Neighbours(g, 2, 2) == 2;
  }

  /** The horizontal blinker turns vertical again. */
  lemma BlinkerHorizontal(g: Grid, a: int)
    requires Rows3(g, [0, 0, 0], [1, a, 1], [0, 0, 0]) && 1 <= a < 255
    ensures Rows3(Step(g), [0, 1, 0], [0, a + 1, 0], [0, 1, 0])
  {
    StepCell(g, 0, 0); StepCell(g, 0, 1); StepCell(g, 0, 2);
    assert Neighbours(g, 0, 0) == 2 && Neighbours(g, 0, 1) == 3 && Neighbours(g, 0, 2) == 2;
    StepCell(g, 1, 0); StepCell(g, 1, 1); StepCell(g, 1, 2);
    assert Neighbours(g, 1, 0) == 1 && Neighbours(g, 1, 1) == 2 && Neighbours(g, 1, 2) == 1;
    StepCell(g, 2, 0); StepCell(g, 2, 1); StepCell(g, 2, 2);
    assert Neighbours(g, 2, 0) == 2 && Neighbours(g, 2, 1) == 3 && Neighbours(g, 2, 2) == 2;
  }

  /** The live cells of a vertical blinker, whatever the age of its centre. */
  lemma VerticalLiveness(g: Grid, a: int)
    requires Rows3(g, [0, 1, 0], [0, a, 0], [0, 1, 0]) && a != 0
    ensures Liveness(g) == [[0, 1, 0], [0, 1, 0], [0, 1, 0]]
  {
    var l := Liveness(g);
    assert l[0] == [0, 1, 0] && l[1] == [0, 1, 0] && l[2] == [0, 1, 0];
  }

  /** Two generations bring the vertical blinker back, its centre two generations older. */
  lemma BlinkerTwoSteps(g: Grid, a: int)
    requires Rows3(g, [0, 1, 0], [0, a, 0], [0, 1, 0]) && 1 <= a < 254
    ensures Rows3(StepN(g, 2), [0, 1, 0], [0, a + 2, 0], [0, 1, 0])
    ensures Rows3(StepN(g, 1), [0, 0, 0], [1, a + 1, 1], [0, 0, 0])
  {
    var g1 := Step(g);
    BlinkerVertical(g, a);
    BlinkerHorizontal(g1, a + 1);
    assert StepN(g, 1) == StepN(g1, 0);
    assert StepN(g, 2) == StepN(g1, 1) == StepN(Step(g1), 0);
  }

  /** One generation changes the blinker's live cells. */
  lemma BlinkerChanges(g: Grid)
    requires Rows3(g, [0, 1, 0], [0, 1, 0], [0, 1, 0])
    ensures Liveness(StepN(g, 1)) != Liveness(g)
  {
    BlinkerTwoSteps(g, 1);
    assert Liveness(StepN(g, 1))[0][1] != Liveness(g)[0][1];
  }

  /** Two generations bring the blinker's live cells back, and so do four. */
  lemma BlinkerPeriod(g: Grid)
    requires Rows3(g, [0, 1, 0], [0, 1, 0], [0, 1, 0])
    ensures Liveness(StepN(g, 2)) == Liveness(g)
    ensures Liveness(StepN(g, 4)) == Liveness(g)
  {
    BlinkerTwoSteps(g, 1);
    BlinkerTwoSteps(StepN(g, 2), 3);
    StepNAdd(g, 2, 2);
    VerticalLiveness(g, 1);
    VerticalLiveness(StepN(g, 2), 3);
    VerticalLiveness(StepN(g, 4), 5);
  }
}
