/**
 * The playback of src/PixiApp.tsx: `drawGrid` lays out one square per cell, and
 * `animateSolution` creates one sprite per agent and then, on every frame of the ticker,
 * moves each sprite along the straight line between its poses at two consecutive
 * timesteps. Progress within a timestep is kept as the whole number of frames `frame`
 * (progress = frame / 120); angles are in quarter turns (one quarter turn is π/2 radians).
 */
module PixiApp {
  import opened Graph
  import opened Solution

  /** `GRID_UNIT_TO_PX`: the side of a cell, in pixels. */
  const GridUnitToPx: int := 100

  /** `totalFramesPerStep`: 120 frames per timestep, divided by a `speed` that is always 1. */
  const FramesPerStep: nat := 120

  // ---------------------------------------------------------------------------------
  // drawGrid

  /** The square drawn for a cell, filled when the cell is an obstacle. */
  datatype Cell = Cell(left: int, top: int, size: int, filled: bool)

  /** The square of cell (x, y); `filled` is the obstacle test. */
  function CellAt(x: nat, y: nat, filled: (nat, nat) -> bool): Cell {
    Cell(x * GridUnitToPx, y * GridUnitToPx, GridUnitToPx, filled(x, y))
  }

  /** `drawGrid`'s obstacle test: the cell's `Coordinate` key is in the graph's obstacle set. */
  function IsObstacle(obstacles: set<string>): (nat, nat) -> bool {
    (x: nat, y: nat) => Coordinate(x, y).ToString() in obstacles
  }

  /** How many columns `x < graph.width` admits: none when the width is NaN. */
  function Columns(width: JsNumber): nat {
    if width.Whole? then width.n else 0
  }

  /** The first `n` cells of column `x`, top to bottom. */
  function ColumnCells(x: nat, n: nat, filled: (nat, nat) -> bool): (cells: seq<Cell>)
    ensures |cells| == n
  {
    if n == 0 then [] else ColumnCells(x, n - 1, filled) + [CellAt(x, n - 1, filled)]
  }

  /** The cells of the first `columns` columns, column by column. */
  function GridCells(columns: nat, height: nat, filled: (nat, nat) -> bool): seq<Cell> {
    if columns == 0 then [] else GridCells(columns - 1, height, filled) + ColumnCells(columns - 1, height, filled)
  }

  /** `drawGrid`: for each column, for each row, one square, filled over an obstacle. */
  method DrawGrid(graph: GraphValue) returns (cells: seq<Cell>)
    ensures cells == GridCells(Columns(graph.width), graph.height, IsObstacle(graph.obstacles))
  {
    cells := [];
    var x := 0;
    while x < Columns(graph.width)
      invariant x <= Columns(graph.width)
      invariant cells == GridCells(x, graph.height, IsObstacle(graph.obstacles))
    {
      var column := DrawColumn(x, graph.height, graph.obstacles);
      cells := cells + column;
      x := x + 1;
    }
  }

  /** The inner loop of `drawGrid`: the squares of column `x`, top to bottom. */
  method DrawColumn(x: nat, height: nat, obstacles: set<string>) returns (column: seq<Cell>)
    ensures column == ColumnCells(x, height, IsObstacle(obstacles))
  {
    column := [];
    for y := 0 to height
      invariant column == ColumnCells(x, y, IsObstacle(obstacles))
    {
      var filled := Coordinate(x, y).ToString() in obstacles;
      column := column + [Cell(x * GridUnitToPx, y * GridUnitToPx, GridUnitToPx, filled)];
    }
  }

  /**
   * There is one square per cell of the width-by-height grid; the square of cell (x, y)
   * is the `x * height + y`-th one drawn, covers [100x, 100x + 100) × [100y, 100y + 100),
   * and is filled exactly when (x, y) is an obstacle.
   */
  lemma {:induction false} GridCellsAt(columns: nat, height: nat, filled: (nat, nat) -> bool, x: nat, y: nat)
    requires x < columns && y < height
    ensures |GridCells(columns, height, filled)| == columns * height
    ensures x * height + y < columns * height
    ensures var cell := GridCells(columns, height, filled)[x * height + y];
      && cell.left == GridUnitToPx * x && cell.top == GridUnitToPx * y && cell.size == GridUnitToPx
      && cell.filled == filled(x, y)
  {
    GridCellsLength(columns, height, filled);
    GridCellsLength(x, height, filled);
    GridCellsStep(x, height, filled, y);
    GridCellsPrefixAt(x + 1, columns, height, filled, x * height + y);
    ColumnCellsAt(x, height, filled, y);
  }

  /** Column x is laid out right after the first x columns. */
  lemma {:induction false} GridCellsStep(x: nat, height: nat, filled: (nat, nat) -> bool, y: nat)
    requires y < height
    ensures |GridCells(x, height, filled)| + y < |GridCells(x + 1, height, filled)|
    ensures GridCells(x + 1, height, filled)[|GridCells(x, height, filled)| + y] == ColumnCells(x, height, filled)[y]
  {
    var before, column := GridCells(x, height, filled), ColumnCells(x, height, filled);
    var whole := GridCells(x + 1, height, filled);
    assert whole == before + column;
    assert |whole| == |before| + height;
    assert whole[|before| + y] == column[y];
  }

  /** A cell already laid out stays where it is when more columns follow. */
  lemma {:induction false} GridCellsPrefixAt(a: nat, b: nat, height: nat, filled: (nat, nat) -> bool, j: nat)
    requires a <= b && j < |GridCells(a, height, filled)|
    ensures j < |GridCells(b, height, filled)| && GridCells(b, height, filled)[j] == GridCells(a, height, filled)[j]
  {
    GridCellsPrefix(a, b, height, filled);
  }

  /** Laying out more columns only appends cells. */
  lemma {:induction false} GridCellsPrefix(a: nat, b: nat, height: nat, filled: (nat, nat) -> bool)
    requires a <= b
    ensures GridCells(a, height, filled) <= GridCells(b, height, filled)
    decreases b
  {
    if a < b {
      GridCellsPrefix(a, b - 1, height, filled);
    }
  }

  lemma {:induction false} ColumnCellsAt(x: nat, n: nat, filled: (nat, nat) -> bool, y: nat)
    requires y < n
    ensures ColumnCells(x, n, filled)[y] == CellAt(x, y, filled)
  {
    if y < n - 1 {
      ColumnCellsAt(x, n - 1, filled, y);
    }
  }

  lemma {:induction false} GridCellsLength(columns: nat, height: nat, filled: (nat, nat) -> bool)
    ensures |GridCells(columns, height, filled)| == columns * height
  {
    if columns > 0 {
      var prefix := GridCells(columns - 1, height, filled);
      assert |GridCells(columns, height, filled)| == |prefix| + height;
      GridCellsLength(columns - 1, height, filled);
      MulSucc(columns - 1, height);
    }
  }

  /**
   * Drawing a map that was read from a file: the square of an in-grid cell is filled
   * exactly when the cell's character in the file is not '.'.
   */
  lemma DrawnObstacle(lines: seq<string>, x: nat, y: nat)
    requires GraphOf(lines).Success?
    requires x < Columns(GraphOf(lines).value.width) && y < GraphOf(lines).value.height
    ensures CellAt(x, y, IsObstacle(GraphOf(lines).value.obstacles)).filled <==> Row(lines, y)[x] != '.'
  {
    GraphOfObstacles(lines, Coordinate(x, y));
  }

  lemma MulSucc(a: nat, b: nat)
    ensures (a + 1) * b == a * b + b
  {
  }

  // ---------------------------------------------------------------------------------
  // Geometry of a frame

  /** `scalePosition`: from grid units to pixels, at the centre of the cell. */
  function ScalePosition(g: real): real {
    g * GridUnitToPx as real + GridUnitToPx as real / 2.0
  }

  /** A cell's position lands strictly inside the square drawn for it, at its centre, and scaling keeps order. */
  lemma ScalePositionInCell(g: real, h: real)
    ensures GridUnitToPx as real * g < ScalePosition(g) < GridUnitToPx as real * (g + 1.0)
    ensures ScalePosition(g) - GridUnitToPx as real * g == GridUnitToPx as real * (g + 1.0) - ScalePosition(g)
    ensures g <= h <==> ScalePosition(g) <= ScalePosition(h)
  {
  }

  /** `interpolationProgress` after `k` frames of a step: k / 120. */
  function Progress(k: nat): real {
    k as real / FramesPerStep as real
  }

  /** Progress runs from 0 to 1 over a step, by the same 120th each frame. */
  lemma ProgressBounds(k: nat)
    ensures k <= FramesPerStep ==> 0.0 <= Progress(k) <= 1.0
    ensures Progress(0) == 0.0 && Progress(FramesPerStep) == 1.0
    ensures Progress(k + 1) - Progress(k) == 1.0 / FramesPerStep as real
  {
  }

  /** `start + (end − start) · progress`. */
  function Lerp(a: real, b: real, t: real): real {
    a + (b - a) * t
  }

  /** For progress in [0, 1] the interpolated value lies between the two ends. */
  lemma LerpBetween(a: real, b: real, t: real)
    requires 0.0 <= t <= 1.0
    ensures a <= b ==> a <= Lerp(a, b, t) <= b
    ensures b <= a ==> b <= Lerp(a, b, t) <= a
  {
    if a <= b {
      ScaleSpan(a, b, t);
    } else {
      ScaleSpan(b, a, 1.0 - t);
      LerpFromEnd(a, b, t);
    }
  }

  /** At progress 0 the interpolated value is the start, at progress 1 the end. */
  lemma LerpEnds(a: real, b: real)
    ensures Lerp(a, b, 0.0) == a && Lerp(a, b, 1.0) == b
  {
  }

  /** Each frame moves the interpolated value by the same amount, a 120th of the way. */
  lemma LerpStep(a: real, b: real, k: nat)
    ensures Lerp(a, b, Progress(k + 1)) - Lerp(a, b, Progress(k)) == (b - a) / FramesPerStep as real
  {
    var t, u := Progress(k), 1.0 / FramesPerStep as real;
    ProgressBounds(k);
    assert (b - a) * (t + u) - (b - a) * t == (b - a) * u;
  }

  /** A fraction in [0, 1] of a non-negative amount is between nothing and all of it. */
  lemma ScaleDown(d: real, t: real)
    requires 0.0 <= d && 0.0 <= t <= 1.0
    ensures 0.0 <= d * t <= d
  {
    assert d - d * t == d * (1.0 - t);
  }

  /** A fraction in [0, 1] of the span from lo up to hi is at most that span. */
  lemma ScaleSpan(lo: real, hi: real, t: real)
    requires lo <= hi && 0.0 <= t <= 1.0
    ensures 0.0 <= (hi - lo) * t <= hi - lo
  {
    ScaleDown(hi - lo, t);
  }

  /** Going a fraction `t` of the way from a to b is going the rest of the way back from b. */
  lemma LerpFromEnd(a: real, b: real, t: real)
    ensures Lerp(a, b, t) == b + (a - b) * (1.0 - t)
  {
  }

  /** The local `orientationToRotation` table of `animateSolution`, in quarter turns. */
  const AngleTable: map<Orientation, int> := map[NONE := 0, X_MINUS := 2, X_PLUS := 0, Y_MINUS := -1, Y_PLUS := 1]

  /** The local table covers every orientation and agrees with Solution's `orientationToRotation`. */
  lemma AngleTableAgrees(o: Orientation)
    ensures o in AngleTable && AngleTable[o] == RotationQuarterTurns(o)
  {
  }

  function Angle(o: Orientation): int {
    AngleTableAgrees(o);
    AngleTable[o]
  }

  /**
   * Rotation is interpolated in the raw angles, not along the shorter arc: a turn between
   * X_MINUS and Y_MINUS sweeps three quarter turns, and every other turn at most two.
   */
  lemma RotationSweep(o1: Orientation, o2: Orientation)
    ensures var d := Angle(o2) - Angle(o1);
      (d == 3 || d == -3) <==> {o1, o2} == {X_MINUS, Y_MINUS}
    ensures -3 <= Angle(o2) - Angle(o1) <= 3
  {
    AngleTableAgrees(o1);
    AngleTableAgrees(o2);
    if {o1, o2} == {X_MINUS, Y_MINUS} {
      assert o1 in {X_MINUS, Y_MINUS} && o2 in {X_MINUS, Y_MINUS};
    }
  }

  /** An agent's drawn shape: a circle at (x, y) in pixels, with the arrow when the solution has orientations. */
  datatype Sprite = Sprite(x: real, y: real, rotation: real, hasArrow: bool)

  /** A new sprite: at the origin, unrotated. */
  function NewSprite(aware: bool): Sprite {
    Sprite(0.0, 0.0, 0.0, aware)
  }

  /** The sprites made for `n` agents, in agent order. */
  function Spawned(n: nat, aware: bool): seq<Sprite> {
    if n == 0 then [] else Spawned(n - 1, aware) + [NewSprite(aware)]
  }

  /** Exactly one sprite per agent, each with the arrow exactly when the solution is orientation-aware. */
  lemma {:induction false} SpawnedShape(n: nat, aware: bool)
    ensures |Spawned(n, aware)| == n
    ensures forall i :: 0 <= i < n ==> Spawned(n, aware)[i] == NewSprite(aware)
  {
    if n > 0 {
      SpawnedShape(n - 1, aware);
    }
  }

  /** One sprite drawn at frame `k` of the step from `start` to `end`; rotation only when aware. */
  function Rendered(s: Sprite, start: Pose, end: Pose, k: nat, aware: bool): Sprite {
    var t := Progress(k);
    s.(x := ScalePosition(Lerp(start.position.x as real, end.position.x as real, t)),
       y := ScalePosition(Lerp(start.position.y as real, end.position.y as real, t)),
       rotation := if aware then Lerp(Angle(start.orientation) as real, Angle(end.orientation) as real, t) else s.rotation)
  }

  /** How many sprites a frame reaches before an agent is missing from one of the two configurations. */
  function Reach(count: nat, cur: Config, next: Config): (n: nat)
    ensures n <= count && n <= |cur| && n <= |next|
    ensures n == count || n == |cur| || n == |next|
  {
    if count <= |cur| && count <= |next| then count
    else if |cur| <= |next| then |cur|
    else |next|
  }

  /** The sprites after the first `n` of them have been drawn at frame `k`. */
  function Drawn(sprites: seq<Sprite>, cur: Config, next: Config, k: nat, aware: bool, n: nat): seq<Sprite>
    requires n <= |sprites| && n <= |cur| && n <= |next|
  {
    seq(|sprites|, j requires 0 <= j < |sprites| =>
      if j < n then Rendered(sprites[j], cur[j], next[j], k, aware) else sprites[j])
  }

  /**
   * Every sprite drawn during a step lies, in pixels, between where its agent stands at
   * the two timesteps; its rotation, written only when the solution is orientation-aware,
   * lies between the two angles; the sprites not reached are left as they were.
   */
  lemma DrawnBetween(sprites: seq<Sprite>, cur: Config, next: Config, k: nat, aware: bool, n: nat, j: nat)
    requires n <= |sprites| && n <= |cur| && n <= |next| && k <= FramesPerStep && j < |sprites|
    ensures var s := Drawn(sprites, cur, next, k, aware, n)[j];
      && s.hasArrow == sprites[j].hasArrow
      && (j < n ==>
            && Between(s.x, ScalePosition(cur[j].position.x as real), ScalePosition(next[j].position.x as real))
            && Between(s.y, ScalePosition(cur[j].position.y as real), ScalePosition(next[j].position.y as real))
            && (aware ==> Between(s.rotation, Angle(cur[j].orientation) as real, Angle(next[j].orientation) as real))
            && (!aware ==> s.rotation == sprites[j].rotation))
      && (j >= n ==> s == sprites[j])
  {
    if j < n {
      var a, b, t := cur[j].position, next[j].position, Progress(k);
      ProgressBounds(k);
      LerpBetween(a.x as real, b.x as real, t);
      LerpBetween(a.y as real, b.y as real, t);
      LerpBetween(Angle(cur[j].orientation) as real, Angle(next[j].orientation) as real, t);
      ScalePositionInCell(a.x as real, Lerp(a.x as real, b.x as real, t));
      ScalePositionInCell(Lerp(a.x as real, b.x as real, t), b.x as real);
      ScalePositionInCell(a.y as real, Lerp(a.y as real, b.y as real, t));
      ScalePositionInCell(Lerp(a.y as real, b.y as real, t), b.y as real);
    }
  }

  predicate Between(v: real, a: real, b: real) {
    (a <= v <= b) || (b <= v <= a)
  }

  lemma DrawnStep(sprites: seq<Sprite>, cur: Config, next: Config, k: nat, aware: bool, n: nat)
    requires n < |sprites| && n < |cur| && n < |next|
    ensures var before := Drawn(sprites, cur, next, k, aware, n);
      before[n] == sprites[n] &&
      before[n := Rendered(sprites[n], cur[n], next[n], k, aware)] == Drawn(sprites, cur, next, k, aware, n + 1)
  {
  }

  // ---------------------------------------------------------------------------------
  // The ticker's counters

  /** `currentTimestep` and the frames into the current step (`interpolationProgress` = frame / 120). */
  datatype Counters = Counters(timestep: nat, frame: nat)

  /** One frame of the ticker's counters; `last` is `solution.length - 1`. */
  function TickCounters(c: Counters, last: nat): Counters {
    if c.timestep >= last then c
    else if c.frame + 1 >= FramesPerStep then Counters(c.timestep + 1, 0)
    else Counters(c.timestep, c.frame + 1)
  }

  /** Frames elapsed since the first timestep began. */
  function Elapsed(c: Counters): nat {
    c.timestep * FramesPerStep + c.frame
  }

  /** The counters of a running ticker: progress in [0, 1), timestep within the solution, at rest on the last one. */
  predicate CountersValid(c: Counters, last: nat) {
    c.frame < FramesPerStep && c.timestep <= last && (c.timestep == last ==> c.frame == 0)
  }

  /**
   * Each frame keeps the counters valid. Before the last timestep it adds exactly one
   * frame: one 120th of progress, or, when progress reaches 1, progress back to 0 and
   * the next timestep. At the last timestep nothing changes any more.
   */
  lemma TickCountersStep(c: Counters, last: nat)
    requires CountersValid(c, last)
    ensures var r := TickCounters(c, last);
      && CountersValid(r, last)
      && (c.timestep < last ==> Elapsed(r) == Elapsed(c) + 1)
      && (c.timestep < last && c.frame + 1 == FramesPerStep ==> r == Counters(c.timestep + 1, 0))
      && (c.timestep < last && c.frame + 1 < FramesPerStep ==> r == Counters(c.timestep, c.frame + 1))
      && (c.timestep >= last ==> r == c)
      && c.timestep <= r.timestep <= c.timestep + 1
  {
  }

  /** The counters after `n` frames. */
  function Ticks(c: Counters, last: nat, n: nat): Counters {
    if n == 0 then c else TickCounters(Ticks(c, last, n - 1), last)
  }

  /**
   * From the start, after `n` frames the ticker is `n / 120` timesteps and `n % 120`
   * frames in, until it rests at the last timestep after `120 · last` frames.
   */
  lemma {:induction false} TicksFromStart(last: nat, n: nat)
    ensures var c := Ticks(Counters(0, 0), last, n);
      && CountersValid(c, last)
      && (n <= FramesPerStep * last ==> c == Counters(n / FramesPerStep, n % FramesPerStep))
      && (n >= FramesPerStep * last ==> c == Counters(last, 0))
  {
    if n > 0 {
      TicksFromStart(last, n - 1);
      var c := Ticks(Counters(0, 0), last, n - 1);
      TickCountersStep(c, last);
      if n <= FramesPerStep * last {
        assert Elapsed(c) == n - 1;
        assert Elapsed(Ticks(Counters(0, 0), last, n)) == n;
      }
    }
  }

  /** Frames drawn during a step show progress strictly between 0 and 1: the end pose itself is never drawn. */
  predicate Renders(c: Counters, last: nat) {
    c.timestep < last && c.frame + 1 < FramesPerStep
  }

  lemma RenderedProgress(c: Counters, last: nat)
    requires CountersValid(c, last) && Renders(c, last)
    ensures 0 < TickCounters(c, last).frame < FramesPerStep
  {
  }

  // ---------------------------------------------------------------------------------
  // animateSolution

  /** The state of the ticker closure of `animateSolution`. */
  class Animation {
    const solution: Solution
    /** Decided once, from the first agent of the first configuration. */
    const orientationAware: bool
    var sprites: seq<Sprite>
    var timestep: nat
    var frame: nat
    /** Whether the agents' container is still on the viewport. */
    var agentsShown: bool

    /**
     * The state of a running ticker: one sprite per agent of the first configuration,
     * progress in [0, 1), the timestep within the solution and at rest on the last one.
     */
    predicate Valid()
      reads this
    {
      && |solution| > 0 && |solution[0]| > 0
      && CountersValid(Counters(timestep, frame), |solution| - 1)
      && |sprites| == |solution[0]|
    }

    /** The set-up of `animateSolution`: one sprite per agent of the first configuration, counters at 0. */
    constructor(solution: Solution)
      requires |solution| > 0 && |solution[0]| > 0
      ensures this.solution == solution
      ensures orientationAware == (solution[0][0].orientation != NONE)
      ensures sprites == Spawned(|solution[0]|, orientationAware)
      ensures timestep == 0 && frame == 0 && agentsShown
      ensures Valid()
    {
      this.solution := solution;
      var aware := solution[0][0].orientation != NONE;
      orientationAware := aware;
      var made: seq<Sprite> := [];
      for i := 0 to |solution[0]|
        invariant made == Spawned(i, aware)
      {
        made := made + [NewSprite(aware)];
      }
      SpawnedShape(|solution[0]|, aware);
      sprites := made;
      timestep := 0;
      frame := 0;
      agentsShown := true;
    }

    /**
     * One frame of the ticker. At the last timestep it takes the agents off the viewport.
     * Otherwise it adds a frame of progress; when progress reaches 1 it moves to the next
     * timestep and draws nothing; else it draws the sprites in order at the new progress.
     * `ok` is false when some sprite's agent is missing from one of the two configurations,
     * where the source throws: the sprites before it have been drawn, the rest have not.
     */
    method Tick() returns (ok: bool)
      requires |solution| > 0
      modifies this
      ensures Counters(timestep, frame) == TickCounters(old(Counters(timestep, frame)), |solution| - 1)
      ensures agentsShown == (old(agentsShown) && old(timestep) < |solution| - 1)
      ensures Renders(old(Counters(timestep, frame)), |solution| - 1) ==>
        var cur, next := solution[old(timestep)], solution[old(timestep) + 1];
        var n := Reach(|old(sprites)|, cur, next);
        sprites == Drawn(old(sprites), cur, next, frame, orientationAware, n) && ok == (n == |old(sprites)|)
      ensures !Renders(old(Counters(timestep, frame)), |solution| - 1) ==> sprites == old(sprites) && ok
      ensures old(Valid()) ==> Valid()
    {
      if Valid() {
        TickCountersStep(Counters(timestep, frame), |solution| - 1);
      }
      if timestep >= |solution| - 1 {
        agentsShown := false;
        return true;
      }
      var cur, next := solution[timestep], solution[timestep + 1];
      frame := frame + 1;
      if frame >= FramesPerStep {
        frame := 0;
        timestep := timestep + 1;
        return true;
      }
      var i := 0;
      while i < |sprites|
        invariant i <= |old(sprites)| == |sprites| && i <= |cur| && i <= |next|
        invariant sprites == Drawn(old(sprites), cur, next, frame, orientationAware, i)
        invariant timestep == old(timestep) && frame == old(frame) + 1 && agentsShown == old(agentsShown)
      {
        if i >= |cur| || i >= |next| {
          return false;
        }
        DrawnStep(old(sprites), cur, next, frame, orientationAware, i);
        sprites := sprites[i := Rendered(sprites[i], cur[i], next[i], frame, orientationAware)];
        i := i + 1;
      }
      ok := true;
    }
  }
}
