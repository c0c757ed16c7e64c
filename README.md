# mapf-visualizer core, modelled in Dafny

mapf-visualizer plays back multi-agent path-finding solutions over a grid map. This
project models the core of that program and proves properties of it:

- **Map files** (`src/Graph.tsx`). A map file has a four-line header: a type line, `height H`,
  `width W` and `map`. It is followed by one row of characters per grid line, and every
  character other than `.` is an obstacle. `parseGraph` fills the `width`, `height` and
  `obstacles` fields of a `Graph` in place. The obstacles are keyed by the text `"(x, y)"`
  that `Coordinate.toString` writes. The model is the class `Graph.Graph`. Its methods are
  proved against the value-level reading `Graph.GraphOf`, and the lemmas state what that
  reading means: the exact obstacle cells, the exact error conditions, and that every key is
  a cell inside the grid.
- **Solution files** (`src/Solution.tsx`). `parseSolution` reads one configuration per line of
  the trimmed text. The configuration is the list of poses that the global pattern
  `(\((\d+),(\d+),?([XY]{1}_[A-Z]{4,5})?\),)` finds on the line, from left to right.
  - The pattern is modelled as a deterministic scanner. It is proved to accept exactly the
    entries of the grammar (sound and complete), and `exec` is proved to return the leftmost
    match.
  - `ParseSolution` and its per-line loop `ParseLine` are proved against `SolutionOf`.
  - The model adds a writer of its own, `FormatSolution`; the source has none. Every solution
    `parseSolution` can return (at least one configuration, none empty, no negative
    coordinate), written by `FormatSolution` and read back, is unchanged.
- **Playback** (`src/PixiApp.tsx`).
  - `drawGrid` lays out one square per cell, and the square is filled exactly over an
    obstacle.
  - `animateSolution` creates one sprite per agent. On each tick of its ticker it moves each
    sprite along the straight line between the agent's poses at two consecutive timesteps.
    Progress within a timestep is the number of frames over 120, and angles are counted in
    quarter turns.
  - The ticker's state is the class `PixiApp.Animation`.
  - The proofs show that:
    - every drawn sprite lies between its two poses;
    - progress goes up by one 120th per frame;
    - the timestep advances once every 120 frames and comes to rest at the last timestep.
- **Keyboard shortcuts** (`src/AnimationControl.tsx`). `handleKeyDown` does one of four things
  with a keydown: it flips one flag, moves the step size by one 0.2 notch, asks for a one-shot
  action, or changes nothing. It changes nothing for a key without a case, and for a step-size
  key whose move would cross 10 or 0.2. A step size that starts on the 0.2 grid within
  [0.2, 10] stays on that grid. The step size is kept in exact tenths.

Modules: `Wrappers` (Option and Result), `Text` (JavaScript's `trim`, `split`, `join` and
decimal number text), `Graph`, `Solution`, `PixiApp` and `AnimationControl`.

## Model

| member | source | states |
|---|---|---|
| Text.Trim | src/Graph.tsx:25 | `trim()` keeps a contiguous middle slice of the string, removing only spaces and line terminators before and after it, and the result neither starts nor ends with one |
| Text.TrimIdempotent | src/Graph.tsx:25 | trimming a trimmed text changes nothing |
| Text.Split | src/Graph.tsx:25 | `split` always yields at least one piece, and no piece holds the separator |
| Text.JoinSplit | src/Graph.tsx:25 | joining the pieces of a split with the separator gives back the original text |
| Text.SplitJoin | src/Solution.tsx:45 | splitting a join of separator-free pieces gives back exactly those pieces |
| Text.Lines | src/Solution.tsx:45 | `text.trim().split("\n")` always has at least one line |
| Text.LinesOfJoin | src/Solution.tsx:45 | lines that hold no line break, with visible first and last characters, read back unchanged after they are joined with line breaks |
| Text.NatToString | src/Graph.tsx:11 | the decimal form of a number is a non-empty run of digits |
| Text.DigitsValueOfNatToString | src/Solution.tsx:56-58 | reading back the decimal form of n gives n (`Number()` agrees below 2^53) |
| Text.IntToStringInjective | src/Graph.tsx:11 | two integers with the same decimal text are equal |
| Graph.ToStringInjective | src/Graph.tsx:10-12 | distinct coordinates have distinct `"(x, y)"` keys, so an obstacle key names exactly one cell |
| Graph.ToNumber | src/Graph.tsx:29 | `Number()` of an absent field is NaN, and of a trimmed run of digits it is that run's value |
| Graph.Field | src/Graph.tsx:29 | a field of `split(" ")` never contains a space |
| Graph.FitCount | src/Graph.tsx:37-40 | it counts the leading rows whose length is the declared width: every one of them fits, and the next row, if any, does not |
| Graph.FitCountGrows | src/Graph.tsx:37-40 | a fitting row right after the leading fitting rows extends them |
| Graph.RowKeysIff | src/Graph.tsx:41-45 | reading a row marks cell (x, y) exactly when x is within the read part and its character is not '.' |
| Graph.GridKeysIff | src/Graph.tsx:37-46 | after n rows, a cell is marked exactly when it lies in those rows and its character is not '.' |
| Graph.RowKeysInBounds | src/Graph.tsx:41-45 | every key a row adds is the key of a cell of that row whose character is not '.' |
| Graph.GridKeysInBounds | src/Graph.tsx:37-46 | every key in the obstacle set is the key of an in-grid cell whose character is not '.' |
| Graph.GraphOfObstacles | src/Graph.tsx:24-47 | on success the height is the number of rows, every row is `width` long, and a cell is an obstacle exactly when it is in the grid and not '.' |
| Graph.GraphOfObstaclesInBounds | src/Graph.tsx:24-47 | on success the obstacle set holds nothing but keys of in-grid cells that are not '.' |
| Graph.GraphOfIgnoresTypeAndMapLines | src/Graph.tsx:25-36 | the type line and the `map` line never change the outcome |
| Graph.GraphOfErrors | src/Graph.tsx:26-40 | each of the three errors is thrown exactly when its condition holds and the earlier checks passed: fewer than four lines; a height that is not the row count; a row whose length is not the width |
| Graph.Graph.Empty | src/Graph.tsx:16-18 | a new map is 0 by 0 and has no obstacles |
| Graph.Graph.ParseGraph | src/Graph.tsx:24-47 | on success the fields hold the map `GraphOf` reads. On each error it reports that error's message. On the width error the fields are as the source had left them: height set, width set, and the obstacles of the rows before the bad one added |
| Graph.Graph.ReadRow | src/Graph.tsx:41-45 | reading a row adds exactly that row's obstacle keys and changes neither width nor height |
| Graph.NewGraph | src/Graph.tsx:20-22 | `new Graph(text)` is a fresh map holding what `GraphOf` reads, or the error message `GraphOf` gives |
| Solution.RotationTable | src/Solution.tsx:11-19 | every angle lies in [−π/2, π]; the four real facings have four different angles; NONE is drawn like X_PLUS |
| Solution.OrientationFromStringIff | src/Solution.tsx:21-29 | a string maps to a real facing exactly when it is that facing's name; all else, including a missing group, maps to NONE |
| Solution.Next | src/Solution.tsx:51 | each scanner step either moves one character on or stays put and drops to an earlier phase |
| Solution.NextSound | src/Solution.tsx:51 | each scanner step keeps the scanner's invariant and accepts only a complete entry |
| Solution.ScanSound | src/Solution.tsx:51 | whatever the scanner accepts has the shape of an entry of the pattern |
| Solution.MatchAt | src/Solution.tsx:51 | an anchored match has well-formed captures (two digit runs and an optional `[XY]_` group of 4–5 capitals) and a length that fits in the line |
| Solution.MatchAtSound | src/Solution.tsx:51 | every anchored match is an occurrence of an entry text, and it consumes exactly that entry |
| Solution.MatchAtComplete | src/Solution.tsx:51 | every entry of the pattern's grammar is matched wherever it stands, with its own captures |
| Solution.Exec | src/Solution.tsx:53 | `exec` returns a match that starts at or after `lastIndex` and ends after it, inside the line |
| Solution.ExecLeftmost | src/Solution.tsx:53 | no match starts between `lastIndex` and the match `exec` returns; when there is none, no match starts anywhere from `lastIndex` on |
| Solution.ExecSkips | src/Solution.tsx:53 | `exec` steps over text that holds no '(' |
| Solution.ScanEntriesSkipsLabel | src/Solution.tsx:51-53 | a leading label such as `0:` without a '(' does not change the configuration read |
| Solution.ScanEntriesNonNegative | src/Solution.tsx:56-59 | every pose read from a line has non-negative coordinates |
| Solution.SolutionOfNonNegative | src/Solution.tsx:56-59 | every parsed position is non-negative, so the negativity checks can never throw |
| Solution.SolutionOfShape | src/Solution.tsx:44-68 | parsing succeeds exactly when every line has an entry. The result then has one non-empty configuration per line, in line order. The only error is "Invalid solution" |
| Solution.ParseLine | src/Solution.tsx:49-63 | the exec loop collects the poses of all the matches on the line, left to right |
| Solution.ParseSolution | src/Solution.tsx:44-68 | the parser returns the solution `SolutionOf` reads from the lines of the trimmed text, or its error |
| Solution.OrientationCaptureRoundTrip | src/Solution.tsx:21-29 | the group written for a facing is accepted by the pattern and reads back as that facing |
| Solution.PoseOfFormatted | src/Solution.tsx:56-61 | the captures written for a pose with non-negative coordinates read back as that pose |
| Solution.MatchFormattedPose | src/Solution.tsx:51-61 | a written pose is matched where it stands, consumes its whole text and reads back as the same pose |
| Solution.ScanMatches | src/Solution.tsx:52-63 | entries that match back to back up to the end of the line are exactly what the exec loop collects |
| Solution.FormattedLine | src/Solution.tsx:48-63 | a written configuration read back as a line gives its poses back in order |
| Solution.FormatSolutionLines | src/Solution.tsx:45 | the lines of a written solution are its written configurations, one per line |
| Solution.ParseFormattedSolution | src/Solution.tsx:44-68 | reading back a written solution gives the same solution: no pose is lost, added or reordered |
| PixiApp.ColumnCells | src/PixiApp.tsx:21-28 | the first n cells of a column are n squares |
| PixiApp.DrawColumn | src/PixiApp.tsx:21-28 | the inner loop draws a column's squares top to bottom, each filled exactly when its key is an obstacle |
| PixiApp.DrawGrid | src/PixiApp.tsx:17-29 | the grid drawn is the width-by-height layout, column by column; a NaN width draws nothing |
| PixiApp.GridCellsAt | src/PixiApp.tsx:20-27 | there is one square per cell. Cell (x, y) is square number x·height+y and covers [100x, 100x+100) × [100y, 100y+100). It is filled exactly when the cell is an obstacle |
| PixiApp.GridCellsPrefix | src/PixiApp.tsx:20-29 | drawing more columns only appends squares |
| PixiApp.DrawnObstacle | src/PixiApp.tsx:25-27 | for a map read from a file, an in-grid square is filled exactly when the cell's character in the file is not '.' |
| PixiApp.ScalePositionInCell | src/PixiApp.tsx:49-51 | a grid position maps to a pixel position strictly inside its cell's square, at its centre, and scaling keeps order |
| PixiApp.ProgressBounds | src/PixiApp.tsx:89 | progress starts at 0, reaches 1 after 120 frames, stays in [0, 1] until then, and grows by 1/120 per frame |
| PixiApp.LerpBetween | src/PixiApp.tsx:103-108 | for progress in [0, 1] the interpolated value lies between the two ends |
| PixiApp.LerpEnds | src/PixiApp.tsx:103-108 | at progress 0 the interpolated value is the start pose, and at progress 1 it is the end pose |
| PixiApp.LerpStep | src/PixiApp.tsx:103-108 | each frame moves the interpolated value by the same amount, a 120th of the way |
| PixiApp.AngleTableAgrees | src/PixiApp.tsx:40-46 | the ticker's own angle table covers every orientation and agrees with `orientationToRotation` |
| PixiApp.RotationSweep | src/PixiApp.tsx:115-120 | rotation is interpolated on the raw angles: a turn between X_MINUS and Y_MINUS sweeps three quarter turns, the long way round; every other turn sweeps at most two |
| PixiApp.SpawnedShape | src/PixiApp.tsx:56-72 | one sprite per agent of the first configuration, each at the origin with the arrow exactly when the solution is orientation-aware |
| PixiApp.Reach | src/PixiApp.tsx:98-100 | the sprites drawn before an agent is missing from one of the two configurations are no more than the sprites, and stop at the first missing agent |
| PixiApp.DrawnBetween | src/PixiApp.tsx:98-121 | each drawn sprite lies in pixels between its agent's two poses. Its rotation, written only when the solution is orientation-aware, lies between the two angles. Sprites not reached are unchanged |
| PixiApp.DrawnStep | src/PixiApp.tsx:98-121 | the `forEach` draws sprite n after sprites 0..n−1 and touches no other sprite |
| PixiApp.TickCountersStep | src/PixiApp.tsx:80-95 | each frame keeps the counters valid. Before the last timestep it adds exactly one frame, wrapping to the next timestep at 120. At the last timestep nothing changes |
| PixiApp.TicksFromStart | src/PixiApp.tsx:74-95 | after n frames from the start the ticker is at timestep n/120, frame n%120, and it comes to rest at the last timestep after 120·(length−1) frames |
| PixiApp.RenderedProgress | src/PixiApp.tsx:89-95 | a frame that draws shows progress strictly between 0 and 1, so the end pose itself is never drawn |
| PixiApp.Animation.constructor | src/PixiApp.tsx:54-78 | set-up: orientation awareness comes from the first agent, there is one new sprite per agent at the origin, the counters are at 0, and the ticker is valid |
| PixiApp.Animation.Tick | src/PixiApp.tsx:80-122 | one ticker frame. It advances the counters by `TickCounters`. It hides the agents at the last timestep. It draws the sprites reached at the new progress when the frame renders, and otherwise leaves them as they were. It reports a missing agent where the source throws. A valid ticker (one sprite per agent, progress in [0, 1), timestep within the solution) stays valid |
| AnimationControl.KeyNameInjective | src/AnimationControl.tsx:16-29 | the fourteen shortcut keys are pairwise different |
| AnimationControl.FirstCaseSound | src/AnimationControl.tsx:92-139 | the case the switch selects is the one labelled with the event's key |
| AnimationControl.FirstCaseIff | src/AnimationControl.tsx:92-139 | among distinct labels a case is selected exactly when the key is its label |
| AnimationControl.ShortcutOfIff | src/AnimationControl.tsx:92-139 | a key selects a shortcut exactly when it is that shortcut's key, and every shortcut has a case |
| AnimationControl.HandleKeyDown | src/AnimationControl.tsx:87-90 | the default is suppressed exactly when neither Ctrl, Alt nor Meta is held |
| AnimationControl.ActToggles | src/AnimationControl.tsx:96-138 | each toggle case flips its own flag, leaves every other setting and asks for no action |
| AnimationControl.ActToggleTwice | src/AnimationControl.tsx:96-138 | a toggle case applied twice restores the settings |
| AnimationControl.ActStepSizeUp | src/AnimationControl.tsx:114-118 | ArrowUp's case raises the step size by 0.2 only while it stays at most 10, and leaves everything else |
| AnimationControl.ActStepSizeDown | src/AnimationControl.tsx:119-123 | ArrowDown's case lowers the step size by 0.2 only while it stays at least 0.2, and leaves everything else |
| AnimationControl.ActKeepsStepSize | src/AnimationControl.tsx:92-139 | no case but the two step-size cases touches the step size |
| AnimationControl.ActOnGrid | src/AnimationControl.tsx:114-123 | every case keeps a step size that is on the 0.2 grid within [0.2, 10] on that grid, and moves it by at most one notch |
| AnimationControl.ActCommands | src/AnimationControl.tsx:92-139 | each of the five action cases asks for its own action and only that case does; an action leaves the settings unchanged |
| AnimationControl.StepSizeUpKeyEffect | src/AnimationControl.tsx:114-118 | pressing ArrowUp raises the step size by 0.2 exactly when the result is at most 10, and changes nothing else |
| AnimationControl.StepSizeDownKeyEffect | src/AnimationControl.tsx:119-123 | pressing ArrowDown lowers the step size by 0.2 exactly when the result is at least 0.2, and changes nothing else |
| AnimationControl.StepSizeStaysOnGrid | src/AnimationControl.tsx:114-123 | whatever the key, a step size on the grid stays on the grid and moves by at most 0.2 |
| AnimationControl.HandleAllOnGrid | src/AnimationControl.tsx:114-123 | no sequence of keydowns takes a step size on the grid off it |
| AnimationControl.Toggles | src/AnimationControl.tsx:96-138 | each toggle key (space, l, a, p, c, g, v) flips its own flag and nothing else, and pressing it twice restores the settings |
| AnimationControl.Commands | src/AnimationControl.tsx:93-129 | ArrowLeft, ArrowRight, r, f and s each ask for exactly their own action, and no other key asks for an action |
| AnimationControl.OtherKeys | src/AnimationControl.tsx:92-139 | a key without a case changes nothing and asks for nothing, since the switch has no default |
| AnimationControl.KeyAlone | src/AnimationControl.tsx:87-139 | what a keydown does depends on its key alone; the modifier keys only decide whether the default is suppressed |

## Left out

- Rendering with PIXI and React is not modelled: the containers, strokes, colours, circle and triangle graphics, the viewport and its world size (`src/PixiApp.tsx:31-32`), and the React component and its effects.
- Reading files is not modelled. The map text and the solution text are parameters.
- Registering and removing the keydown listener (`src/AnimationControl.tsx:141-144`) is not modelled. The shortcut callbacks are modelled as new settings plus a requested action.
- PixiApp.ProgressBounds: progress is the exact fraction frame/120. The source adds the double 1/120 on each frame, and that sum may first reach 1 one frame later than exact arithmetic does. Positions and angles are exact reals, not doubles.
- PixiApp.Angle: angles are whole quarter turns (π/2 radians each), not the double values of `Math.PI`.
- PixiApp.Animation.Tick: where the source throws a TypeError on an agent missing from a configuration, the model returns `false`. Ticks after such a throw are not modelled.
- PixiApp.Animation.constructor: it requires a non-empty first configuration, where the source would throw on `solution[0][0]`. Every solution that `parseSolution` returns meets this (`Solution.SolutionOfShape`).
- `speed` is the constant 1, so `totalFramesPerStep` is the constant 120.
- Graph.ToNumber: it reads only a field that is empty or a run of digits after trimming. Other forms that `Number()` accepts, such as `4.0`, `+4`, `4e0` or `0x4`, read as NaN here. So a header written that way is rejected by the model where the source accepts it. A width that `Number()` does not read as a whole number (NaN, negative, fractional or `Infinity`) can only be accepted by the source for a map with no rows. The model then draws nothing. The source does too for a negative or fractional width. But for a width of `Infinity`, `1e400`, or 2^53 or more, the source's `drawGrid` loop (`src/PixiApp.tsx:20`) never ends, because `x++` stops changing `x` at 2^53. The model cannot show that: it reads such a width as NaN, or as an unbounded whole number, and its loop ends.
- Solution.PoseOf and Text.DigitsValue: the digit captures of a solution entry (`src/Solution.tsx:56`, `src/Solution.tsx:58`) and the digits of a map header (`src/Graph.tsx:29`, `src/Graph.tsx:34`) are read as exact natural numbers. `Number()` rounds a value above 2^53 to the nearest double, so `9007199254740993` reads as 9007199254740992, and a run of about 310 digits or more reads as `Infinity`. `Text.DigitsValueOfNatToString` therefore matches `Number()` only below 2^53. Likewise `Text.NatToString` writes plain digits, while a template literal writes a number of 1e21 or more in exponent form.
- Graph.RowFits and Graph.Graph.ReadRow: strings are sequences of Unicode characters, so a row's length and its indexing count characters. JavaScript counts UTF-16 code units. A row holding a character outside the Basic Multilingual Plane differs. For example, a row of an emoji and '.' has length 3 in the source, where two of the units are surrogate halves and are marked as obstacles. In the model the same row has length 2, so with width 3 the model throws the width error where the source accepts the map.
- Graph.Graph: the obstacle `Map<string, boolean>` is a set of keys, because only `true` is ever stored in it.
- AnimationControl.ActStepSizeUp and AnimationControl.ActStepSizeDown: the step size is kept in exact tenths. The double arithmetic and the `toFixed(1)` rounding (`src/AnimationControl.tsx:84`) are not modelled. The bounds check is taken on exact tenths, with no floating-point error.
- The regular expression engine is modelled only for the one pattern the parser uses, as a scanner.
- The negativity checks of `parseSolution` (`src/Solution.tsx:57`, `src/Solution.tsx:59`) and its `m.length !== 5` check (`src/Solution.tsx:55`) are not separate branches of the model. They can never fire: `Solution.SolutionOfNonNegative` proves the first two, and a match always has its five slots.
- `Pose`'s default constructor arguments (`src/Solution.tsx:31-39`) are not modelled. Poses are only made from parsed captures.
