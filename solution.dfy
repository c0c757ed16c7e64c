/**
 * The solution file reader of src/Solution.tsx. Each line of the trimmed text is one
 * configuration; its agents' poses are the entries `(x,y),` or `(x,y,ORIENTATION),`
 * found on the line from left to right, as the global regular expression
 * `(\((\d+),(\d+),?([XY]{1}_[A-Z]{4,5})?\),)` finds them.
 */
module Solution {
  import opened Wrappers
  import opened Text
  import opened Graph

  /** The facing of an agent; NONE marks an orientation-unaware solution. */
  datatype Orientation = NONE | X_MINUS | X_PLUS | Y_MINUS | Y_PLUS

  /** `orientationToRotation`, in quarter turns (a quarter turn is π/2 radians). */
  function RotationQuarterTurns(o: Orientation): int {
    match o
    case NONE => 0
    case X_MINUS => 2
    case X_PLUS => 0
    case Y_MINUS => -1
    case Y_PLUS => 1
  }

  /**
   * Every orientation has an angle in [−π/2, π]; the four real facings have four
   * different angles, and NONE is drawn like X_PLUS.
   */
  lemma RotationTable(o1: Orientation, o2: Orientation)
    ensures -1 <= RotationQuarterTurns(o1) <= 2
    ensures o1 != NONE && o2 != NONE && RotationQuarterTurns(o1) == RotationQuarterTurns(o2) ==> o1 == o2
    ensures RotationQuarterTurns(NONE) == RotationQuarterTurns(X_PLUS)
  {
  }

  /** The enumerator's name, as it is written in a solution file. */
  function OrientationName(o: Orientation): string {
    match o
    case NONE => "NONE"
    case X_MINUS => "X_MINUS"
    case X_PLUS => "X_PLUS"
    case Y_MINUS => "Y_MINUS"
    case Y_PLUS => "Y_PLUS"
  }

  /** `orientationFromString`; an absent capture group (`undefined`) is None. */
  function OrientationFromString(s: Option<string>): Orientation {
    if s == Some("X_MINUS") then X_MINUS
    else if s == Some("X_PLUS") then X_PLUS
    else if s == Some("Y_MINUS") then Y_MINUS
    else if s == Some("Y_PLUS") then Y_PLUS
    else NONE
  }

  /** Exactly the four names map to a real facing; every other string, and no string, maps to NONE. */
  lemma OrientationFromStringIff(s: Option<string>, o: Orientation)
    requires o != NONE
    ensures OrientationFromString(s) == o <==> s == Some(OrientationName(o))
    ensures OrientationFromString(Some(OrientationName(o))) == o
  {
  }

  datatype Pose = Pose(position: Coordinate, orientation: Orientation)

  /** One pose per agent, the agent's index being its identity. */
  type Config = seq<Pose>

  /** One configuration per timestep. */
  type Solution = seq<Config>

  const InvalidSolution := "Invalid solution"

  predicate IsUpper(c: char) {
    'A' <= c <= 'Z'
  }

  /** Every character of `line[a..b]` is a decimal digit. */
  predicate DigitsIn(line: string, a: nat, b: nat)
    requires b <= |line|
  {
    forall k :: a <= k < b ==> IsDigit(line[k])
  }

  /** Every character of `line[a..b]` is a capital letter. */
  predicate UpperIn(line: string, a: nat, b: nat)
    requires b <= |line|
  {
    forall k :: a <= k < b ==> IsUpper(line[k])
  }

  /** A capture of the orientation group: `[XY]_` and four or five capital letters. */
  predicate IsOrientationText(t: string) {
    && (|t| == 6 || |t| == 7)
    && (t[0] == 'X' || t[0] == 'Y')
    && t[1] == '_'
    && forall k :: 2 <= k < |t| ==> IsUpper(t[k])
  }

  /**
   * The capture groups of one match (groups 2, 3 and 4; group 1 is the whole entry)
   * and the length of the text it consumed.
   */
  datatype Captures = Captures(x: string, y: string, orientation: Option<string>, length: nat)

  predicate WellFormed(c: Captures) {
    && |c.x| > 0 && AllDigits(c.x)
    && |c.y| > 0 && AllDigits(c.y)
    && (c.orientation.Some? ==> IsOrientationText(c.orientation.value))
  }

  /** The orientation capture as text, empty when the group did not take part. */
  function GroupText(orientation: Option<string>): string {
    if orientation.Some? then orientation.value else ""
  }

  /** The text of an entry: `(x,y),`, or with an orientation `(x,yORI),` or `(x,y,ORI),`. */
  function EntryText(x: string, y: string, orientation: Option<string>, comma: bool): string {
    "(" + x + "," + y + TailText(orientation, comma)
  }

  function Separator(comma: bool): string {
    if comma then "," else ""
  }

  /** What follows the second number of an entry: the optional comma, the orientation and `),`. */
  function TailText(orientation: Option<string>, comma: bool): string {
    Separator(comma) + GroupText(orientation) + "),"
  }

  /**
   * Where the entry scanner stands inside `(x,y[,][ORI]),`, with the positions it has
   * marked: `xEnd` is the ',' after the first number, `yEnd` the character after the
   * second, `start` the first character of the orientation group.
   */
  datatype Phase =
    | Open
    | FirstNumber
    | SecondNumber(xEnd: nat)
    | Tail(xEnd: nat, yEnd: nat)
    | Group(xEnd: nat, yEnd: nat, start: nat)
    | Close(xEnd: nat, yEnd: nat, group: Option<nat>)

  /** The order of the phases, for the steps that change phase without reading. */
  function Rank(phase: Phase): nat {
    match phase
    case Open => 5
    case FirstNumber => 4
    case SecondNumber(_) => 3
    case Tail(_, _) => 2
    case Group(_, _, _) => 1
    case Close(_, _, _) => 0
  }

  /** The positions of an accepted entry: the marks, the orientation group's start and the `)`. */
  datatype Span = Span(xEnd: nat, yEnd: nat, group: Option<nat>, close: nat)

  /** One step of the scanner: give up, accept the entry, or go on at `next` in `phase`. */
  datatype Step = Fail | Accept(span: Span) | Move(next: nat, phase: Phase)

  /**
   * The scanner reading `line[i]` in `phase`, the entry having begun at `line[p]`.
   * The steps that change phase without reading stay at `i` and go to a lower phase.
   */
  function Next(line: string, p: nat, i: nat, phase: Phase): (r: Step)
    requires i < |line|
    ensures r.Move? ==> i <= r.next <= i + 1 && (r.next == i ==> Rank(r.phase) < Rank(phase))
  {
    var c := line[i];
    match phase
    case Open =>
      if c == '(' then Move(i + 1, FirstNumber) else Fail
    case FirstNumber =>
      if IsDigit(c) then Move(i + 1, FirstNumber)
      else if c == ',' && i > p + 1 then Move(i + 1, SecondNumber(i))
      else Fail
    case SecondNumber(xEnd) =>
      if IsDigit(c) then Move(i + 1, phase)
      else if i == xEnd + 1 then Fail
      else if c == ',' then Move(i + 1, Tail(xEnd, i))
      else Move(i, Tail(xEnd, i))
    case Tail(xEnd, yEnd) =>
      if c == 'X' || c == 'Y' then Move(i + 1, Group(xEnd, yEnd, i))
      else Move(i, Close(xEnd, yEnd, None))
    case Group(xEnd, yEnd, start) =>
      if i == start + 1 then (if c == '_' then Move(i + 1, phase) else Fail)
      else if IsUpper(c) && i < start + 7 then Move(i + 1, phase)
      else if i >= start + 6 then Move(i, Close(xEnd, yEnd, Some(start)))
      else Fail
    case Close(xEnd, yEnd, group) =>
      if c == ')' && i + 1 < |line| && line[i + 1] == ',' then Accept(Span(xEnd, yEnd, group, i)) else Fail
  }

  /**
   * The entry grammar `\((\d+),(\d+),?([XY]{1}_[A-Z]{4,5})?\),` as a scanner that reads
   * `line` from `line[i]` on. It needs no backtracking: both digit runs stop at the first
   * non-digit (a shorter run would leave a digit where ',', 'X', 'Y' or ')' is needed);
   * the comma after the second number is taken whenever it is there (without it a ','
   * would stand where `[XY]` or `\)` is needed); and the group reads capital letters up
   * to five, then needs at least four before the `)`.
   */
  function Scan(line: string, p: nat, i: nat, phase: Phase): Option<Span>
    requires i <= |line|
    decreases |line| - i, Rank(phase)
  {
    if i == |line| then None
    else
      match Next(line, p, i, phase)
      case Fail => None
      case Accept(span) => Some(span)
      case Move(j, q) => Scan(line, p, j, q)
  }

  /** `(x,y` stands from `line[p]` on, `x` ending at the ',' at `xEnd` and `y` before `yEnd`. */
  predicate Numbers(line: string, p: nat, xEnd: nat, yEnd: nat) {
    && p + 1 < xEnd && xEnd + 1 < yEnd < |line|
    && line[p] == '('
    && DigitsIn(line, p + 1, xEnd)
    && line[xEnd] == ','
    && DigitsIn(line, xEnd + 1, yEnd)
  }

  /** Where the tail starts: after the comma that may follow the second number. */
  function TailStart(line: string, yEnd: nat): nat
    requires yEnd < |line|
  {
    if line[yEnd] == ',' then yEnd + 1 else yEnd
  }

  /** `[XY]_` and four or five capital letters stand in `line[start..close]`. */
  predicate GroupShape(line: string, start: nat, close: nat) {
    && start + 6 <= close <= start + 7 && close <= |line|
    && (line[start] == 'X' || line[start] == 'Y')
    && line[start + 1] == '_'
    && UpperIn(line, start + 2, close)
  }

  /** What the scanner has read when it stands at `line[i]` in `phase`. */
  predicate Inv(line: string, p: nat, i: nat, phase: Phase)
    requires i <= |line|
  {
    match phase
    case Open => i == p
    case FirstNumber => p < i && line[p] == '(' && DigitsIn(line, p + 1, i)
    case SecondNumber(xEnd) =>
      && p + 1 < xEnd < i && line[p] == '('
      && DigitsIn(line, p + 1, xEnd) && line[xEnd] == ',' && DigitsIn(line, xEnd + 1, i)
    case Tail(xEnd, yEnd) =>
      Numbers(line, p, xEnd, yEnd) && i == TailStart(line, yEnd)
    case Group(xEnd, yEnd, start) =>
      && Numbers(line, p, xEnd, yEnd) && start == TailStart(line, yEnd)
      && start < i <= start + 7
      && (line[start] == 'X' || line[start] == 'Y')
      && (i >= start + 2 ==> line[start + 1] == '_')
      && UpperIn(line, start + 2, i)
    case Close(xEnd, yEnd, group) =>
      && Numbers(line, p, xEnd, yEnd)
      && (group.None? ==> i == TailStart(line, yEnd))
      && (group.Some? ==> group.value == TailStart(line, yEnd) && GroupShape(line, group.value, i))
  }

  /** An accepted entry: `(x,y`, the optional comma, the optional group and `),`. */
  predicate EntryShape(line: string, p: nat, s: Span) {
    && s.close + 2 <= |line|
    && Inv(line, p, s.close, Close(s.xEnd, s.yEnd, s.group))
    && line[s.close] == ')'
    && line[s.close + 1] == ','
  }

  /** The captures of an accepted entry, as `exec` reports them. */
  function CapturesOf(line: string, p: nat, s: Span): (c: Captures)
    requires EntryShape(line, p, s)
    ensures WellFormed(c) && 0 < c.length <= |line| - p
  {
    var c := Captures(line[p + 1..s.xEnd], line[s.xEnd + 1..s.yEnd],
      if s.group.Some? then Some(line[s.group.value..s.close]) else None, s.close + 2 - p);
    assert forall k :: 0 <= k < |c.x| ==> c.x[k] == line[p + 1 + k];
    assert forall k :: 0 <= k < |c.y| ==> c.y[k] == line[s.xEnd + 1 + k];
    c
  }

  /** The regular expression anchored at `line[p]`. */
  function MatchAt(line: string, p: nat): (r: Option<Captures>)
    requires p <= |line|
    ensures r.Some? ==> WellFormed(r.value) && 0 < r.value.length <= |line| - p
  {
    match Scan(line, p, p, Open)
    case None => None
    case Some(s) => ScanSound(line, p, p, Open); Some(CapturesOf(line, p, s))
  }

  /** Whatever the scanner accepts, from a point its invariant holds at, has the shape of an entry. */
  lemma {:induction false} ScanSound(line: string, p: nat, i: nat, phase: Phase)
    requires i <= |line| && Inv(line, p, i, phase)
    ensures Scan(line, p, i, phase).Some? ==> EntryShape(line, p, Scan(line, p, i, phase).value)
    decreases |line| - i, Rank(phase)
  {
    if i < |line| {
      NextSound(line, p, i, phase);
      var r := Next(line, p, i, phase);
      if r.Move? {
        ScanSound(line, p, r.next, r.phase);
      }
    }
  }

  /** Each step keeps the scanner's invariant, and accepts only an entry. */
  lemma NextSound(line: string, p: nat, i: nat, phase: Phase)
    requires i < |line| && Inv(line, p, i, phase)
    ensures var r := Next(line, p, i, phase);
      && (r.Move? ==> Inv(line, p, r.next, r.phase))
      && (r.Accept? ==> EntryShape(line, p, r.span))
  {
  }

  /** The pieces of the entry `EntryText(x, y, orientation, comma)`, each in its place from `line[p]` on. */
  predicate EntryAt(line: string, p: nat, x: string, y: string, orientation: Option<string>, comma: bool) {
    var e1 := p + 1 + |x|;
    && At(line, p, "(")
    && At(line, p + 1, x)
    && At(line, e1, ",")
    && At(line, e1 + 1, y)
    && At(line, e1 + 1 + |y|, TailText(orientation, comma))
  }

  /** An occurrence of the entry text lays out its pieces as `EntryAt` says. */
  lemma TextEntryAt(line: string, p: nat, x: string, y: string, orientation: Option<string>, comma: bool)
    requires At(line, p, EntryText(x, y, orientation, comma))
    ensures EntryAt(line, p, x, y, orientation, comma)
  {
    var t1 := "(" + x;
    var t2 := t1 + ",";
    var t3 := t2 + y;
    assert EntryText(x, y, orientation, comma) == t3 + TailText(orientation, comma);
    AtSplit(line, p, t3, TailText(orientation, comma));
    AtSplit(line, p, t2, y);
    AtSplit(line, p, t1, ",");
    AtSplit(line, p, "(", x);
  }

  /** Pieces laid out as `EntryAt` says form an occurrence of the entry text. */
  lemma EntryAtToText(line: string, p: nat, x: string, y: string, orientation: Option<string>, comma: bool)
    requires EntryAt(line, p, x, y, orientation, comma)
    ensures At(line, p, EntryText(x, y, orientation, comma))
  {
    var t1 := "(" + x;
    var t2 := t1 + ",";
    var t3 := t2 + y;
    AtJoin(line, p, "(", x);
    AtJoin(line, p, t1, ",");
    AtJoin(line, p, t2, y);
    AtJoin(line, p, t3, TailText(orientation, comma));
    assert EntryText(x, y, orientation, comma) == t3 + TailText(orientation, comma);
  }

  /** Whatever the matcher accepts is an entry of the grammar, and it consumes exactly that entry. */
  lemma MatchAtSound(line: string, p: nat)
    requires p <= |line| && MatchAt(line, p).Some?
    ensures var c := MatchAt(line, p).value;
      exists comma: bool {:trigger EntryText(c.x, c.y, c.orientation, comma)} ::
        && c.length == |EntryText(c.x, c.y, c.orientation, comma)|
        && At(line, p, EntryText(c.x, c.y, c.orientation, comma))
  {
    var s := Scan(line, p, p, Open).value;
    MatchAtOfScan(line, p, s);
    var c := CapturesOf(line, p, s);
    var comma := line[s.yEnd] == ',';
    ShapeEntryAt(line, p, s);
    ShapeLength(line, p, s);
    EntryAtToText(line, p, c.x, c.y, c.orientation, comma);
  }

  /** An accepted span stands for the entry its captures describe, and its length is that entry's. */
  lemma ShapeEntryAt(line: string, p: nat, s: Span)
    requires EntryShape(line, p, s)
    ensures var c := CapturesOf(line, p, s);
      var comma := line[s.yEnd] == ',';
      EntryAt(line, p, c.x, c.y, c.orientation, comma)
  {
    var c := CapturesOf(line, p, s);
    var comma := line[s.yEnd] == ',';
    assert Numbers(line, p, s.xEnd, s.yEnd);
    assert c.x == line[p + 1..s.xEnd] && c.y == line[s.xEnd + 1..s.yEnd];
    TailShapeText(line, s, comma, c.orientation);
    EntryAtOfSlices(line, p, s.xEnd, s.yEnd, c.orientation, comma);
  }

  /** The opening parenthesis, two slices around a comma, and a tail make an entry. */
  lemma EntryAtOfSlices(line: string, p: nat, xEnd: nat, yEnd: nat, orientation: Option<string>, comma: bool)
    requires p < xEnd < yEnd <= |line| && line[p] == '(' && line[xEnd] == ','
    requires At(line, yEnd, TailText(orientation, comma))
    ensures EntryAt(line, p, line[p + 1..xEnd], line[xEnd + 1..yEnd], orientation, comma)
  {
    AtSlice(line, p + 1, line[p + 1..xEnd]);
    AtSlice(line, xEnd + 1, line[xEnd + 1..yEnd]);
    assert line[p + 0] == "("[0] && line[xEnd + 0] == ","[0];
  }

  lemma ShapeLength(line: string, p: nat, s: Span)
    requires EntryShape(line, p, s)
    ensures var c := CapturesOf(line, p, s);
      c.length == |EntryText(c.x, c.y, c.orientation, line[s.yEnd] == ',')|
  {
    var c := CapturesOf(line, p, s);
    var t := TailStart(line, s.yEnd);
    assert |Separator(line[s.yEnd] == ',')| == t - s.yEnd;
    assert |GroupText(c.orientation)| == s.close - t;
  }

  /** The tail of an accepted entry is the text `TailText` of its captures. */
  lemma TailShapeText(line: string, s: Span, comma: bool, orientation: Option<string>)
    requires s.yEnd < |line| && s.close + 2 <= |line|
    requires comma == (line[s.yEnd] == ',')
    requires s.group.None? ==> s.close == TailStart(line, s.yEnd) && orientation.None?
    requires s.group.Some? ==> s.group.value == TailStart(line, s.yEnd) <= s.close && orientation == Some(line[s.group.value..s.close])
    requires line[s.close] == ')' && line[s.close + 1] == ','
    ensures At(line, s.yEnd, TailText(orientation, comma))
  {
    var t := TailStart(line, s.yEnd);
    var g := GroupText(orientation);
    GroupCloseAt(line, t, s.close, orientation);
    assert At(line, s.yEnd, Separator(comma));
    AtJoin(line, s.yEnd, Separator(comma), g + "),");
    assert TailText(orientation, comma) == Separator(comma) + (g + "),");
  }

  /** The group, when there is one, and the closing "),". */
  lemma GroupCloseAt(line: string, t: nat, close: nat, orientation: Option<string>)
    requires t <= close && close + 2 <= |line|
    requires orientation.None? ==> close == t
    requires orientation.Some? ==> orientation == Some(line[t..close])
    requires line[close] == ')' && line[close + 1] == ','
    ensures At(line, t, GroupText(orientation) + "),")
  {
    var g := GroupText(orientation);
    assert |g| == close - t;
    AtSlice(line, t, g);
    assert At(line, close, "),");
    AtJoin(line, t, g, "),");
  }


  /** The first number, standing at `line[i..xEnd]` and followed by ',', is read up to that ','. */
  lemma {:induction false} ScanFirstNumber(line: string, p: nat, i: nat, xEnd: nat)
    requires p < i <= xEnd < |line| && p + 1 < xEnd
    requires DigitsIn(line, i, xEnd) && line[xEnd] == ','
    ensures Scan(line, p, i, FirstNumber) == Scan(line, p, xEnd + 1, SecondNumber(xEnd))
    decreases xEnd - i
  {
    if i < xEnd {
      ScanFirstNumber(line, p, i + 1, xEnd);
    }
  }

  /** The second number, standing at `line[i..yEnd]` and followed by a non-digit, is read up to the tail. */
  lemma {:induction false} ScanSecondNumber(line: string, p: nat, i: nat, xEnd: nat, yEnd: nat)
    requires xEnd + 1 <= i <= yEnd < |line| && xEnd + 1 < yEnd
    requires DigitsIn(line, i, yEnd) && !IsDigit(line[yEnd])
    ensures Scan(line, p, i, SecondNumber(xEnd)) == Scan(line, p, TailStart(line, yEnd), Tail(xEnd, yEnd))
    decreases yEnd - i
  {
    if i < yEnd {
      ScanSecondNumber(line, p, i + 1, xEnd, yEnd);
    }
  }

  /** The capital letters of a group, standing at `line[i..close]` before its `)`, are read up to the `)`. */
  lemma {:induction false} ScanLetters(line: string, p: nat, i: nat, xEnd: nat, yEnd: nat, start: nat, close: nat)
    requires start + 2 <= i <= close < |line| && start + 6 <= close <= start + 7
    requires UpperIn(line, i, close) && line[close] == ')'
    ensures Scan(line, p, i, Group(xEnd, yEnd, start)) == Scan(line, p, close, Close(xEnd, yEnd, Some(start)))
    decreases close - i
  {
    if i < close {
      ScanLetters(line, p, i + 1, xEnd, yEnd, start, close);
    }
  }

  /** The tail of every entry is read to its `),`, and the scanner marks the group it holds. */
  lemma ScanTail(line: string, p: nat, t: nat, xEnd: nat, yEnd: nat, orientation: Option<string>)
    requires orientation.Some? ==> IsOrientationText(orientation.value)
    requires At(line, t, GroupText(orientation) + "),")
    ensures var close := t + |GroupText(orientation)|;
      Scan(line, p, t, Tail(xEnd, yEnd)) == Some(Span(xEnd, yEnd, if orientation.Some? then Some(t) else None, close))
  {
    var g := GroupText(orientation);
    var close := t + |g|;
    AtSplit(line, t, g, "),");
    assert line[close + 0] == "),"[0] && line[close + 1] == "),"[1];
    if orientation.Some? {
      assert line[t + 0] == g[0] && line[t + 1] == g[1];
      assert forall k :: t + 2 <= k < close ==> line[k] == g[k - t];
      ScanLetters(line, p, t + 2, xEnd, yEnd, t, close);
    }
  }

  /** Every entry of the grammar is matched wherever it stands, and yields its own captures. */
  lemma MatchAtComplete(line: string, p: nat, x: string, y: string, orientation: Option<string>, comma: bool)
    requires WellFormed(Captures(x, y, orientation, 0))
    requires At(line, p, EntryText(x, y, orientation, comma))
    ensures MatchAt(line, p) == Some(Captures(x, y, orientation, |EntryText(x, y, orientation, comma)|))
  {
    var s := EntrySpan(p, x, y, orientation, comma);
    EntrySlices(line, p, x, y, orientation, comma);
    ScanEntryText(line, p, x, y, orientation, comma);
    MatchAtOfSlices(line, p, s, x, y, orientation, |EntryText(x, y, orientation, comma)|);
  }

  /** The span the scanner marks for the entry `EntryText(x, y, orientation, comma)` at `p`. */
  function EntrySpan(p: nat, x: string, y: string, orientation: Option<string>, comma: bool): (s: Span)
    ensures p + 1 + |x| == s.xEnd < s.yEnd <= s.close
  {
    var e1 := p + 1 + |x|;
    var e2 := e1 + 1 + |y|;
    var t := e2 + |Separator(comma)|;
    Span(e1, e2, if orientation.Some? then Some(t) else None, t + |GroupText(orientation)|)
  }

  /** The slices `span` marks in `line` are `x`, `y` and the group, and the match is `length` long. */
  predicate SpanSlices(line: string, p: nat, s: Span, x: string, y: string, orientation: Option<string>, length: nat) {
    && p + 1 <= s.xEnd < s.yEnd <= |line|
    && line[p + 1..s.xEnd] == x && line[s.xEnd + 1..s.yEnd] == y
    && (s.group.Some? <==> orientation.Some?)
    && (orientation.Some? ==> s.group.value <= s.close <= |line| && line[s.group.value..s.close] == orientation.value)
    && length == s.close + 2 - p
  }

  /** An accepted span whose slices are the given captures is matched with those captures. */
  lemma MatchAtOfSlices(line: string, p: nat, s: Span, x: string, y: string, orientation: Option<string>, length: nat)
    requires p <= |line| && Scan(line, p, p, Open) == Some(s)
    requires SpanSlices(line, p, s, x, y, orientation, length)
    ensures MatchAt(line, p) == Some(Captures(x, y, orientation, length))
  {
    MatchAtOfScan(line, p, s);
    CapturesOfEntry(line, p, s, x, y, orientation, length);
  }

  /** What the scanner accepts is what the anchored match reports. */
  lemma MatchAtOfScan(line: string, p: nat, s: Span)
    requires p <= |line| && Scan(line, p, p, Open) == Some(s)
    ensures EntryShape(line, p, s) && MatchAt(line, p) == Some(CapturesOf(line, p, s))
  {
    ScanSound(line, p, p, Open);
  }

  /** The captures of an accepted entry are the slices its span marks. */
  lemma CapturesOfEntry(line: string, p: nat, s: Span, x: string, y: string, orientation: Option<string>, length: nat)
    requires EntryShape(line, p, s)
    requires line[p + 1..s.xEnd] == x && line[s.xEnd + 1..s.yEnd] == y
    requires s.group.Some? <==> orientation.Some?
    requires orientation.Some? ==> line[s.group.value..s.close] == orientation.value
    requires length == s.close + 2 - p
    ensures CapturesOf(line, p, s) == Captures(x, y, orientation, length)
  {
  }

  /** Where an entry stands, its numbers and its group are the slices the scanner marks. */
  lemma EntrySlices(line: string, p: nat, x: string, y: string, orientation: Option<string>, comma: bool)
    requires At(line, p, EntryText(x, y, orientation, comma))
    ensures SpanSlices(line, p, EntrySpan(p, x, y, orientation, comma), x, y, orientation, |EntryText(x, y, orientation, comma)|)
  {
    var s := EntrySpan(p, x, y, orientation, comma);
    EntryNumberSlices(line, p, x, y, orientation, comma);
    EntryGroupSlice(line, p, x, y, orientation, comma);
    EntryTextLength(x, y, orientation, comma);
    assert s.close + 2 - p == |EntryText(x, y, orientation, comma)|;
  }

  lemma EntryNumberSlices(line: string, p: nat, x: string, y: string, orientation: Option<string>, comma: bool)
    requires At(line, p, EntryText(x, y, orientation, comma))
    ensures var e1 := p + 1 + |x|;
      e1 + 1 + |y| <= |line| && line[p + 1..e1] == x && line[e1 + 1..e1 + 1 + |y|] == y
  {
    TextEntryAt(line, p, x, y, orientation, comma);
    AtSlice(line, p + 1, x);
    AtSlice(line, p + 1 + |x| + 1, y);
  }

  lemma EntryGroupSlice(line: string, p: nat, x: string, y: string, orientation: Option<string>, comma: bool)
    requires At(line, p, EntryText(x, y, orientation, comma))
    ensures var t := p + 1 + |x| + 1 + |y| + |Separator(comma)|;
      orientation.Some? ==> t + |orientation.value| <= |line| && line[t..t + |orientation.value|] == orientation.value
  {
    TextEntryAt(line, p, x, y, orientation, comma);
    TailSlice(line, p + 1 + |x| + 1 + |y|, orientation, comma);
  }

  lemma EntryTextLength(x: string, y: string, orientation: Option<string>, comma: bool)
    ensures |EntryText(x, y, orientation, comma)| == 1 + |x| + 1 + |y| + |Separator(comma)| + |GroupText(orientation)| + 2
  {
    assert EntryText(x, y, orientation, comma) == "(" + x + "," + y + TailText(orientation, comma);
    assert TailText(orientation, comma) == Separator(comma) + (GroupText(orientation) + "),");
  }

  lemma TailSlice(line: string, e2: nat, orientation: Option<string>, comma: bool)
    requires At(line, e2, TailText(orientation, comma))
    ensures var t := e2 + |Separator(comma)|;
      orientation.Some? ==> t + |orientation.value| <= |line| && line[t..t + |orientation.value|] == orientation.value
  {
    var g := GroupText(orientation);
    var t := e2 + |Separator(comma)|;
    assert TailText(orientation, comma) == Separator(comma) + (g + "),");
    AtSplit(line, e2, Separator(comma), g + "),");
    AtSplit(line, t, g, "),");
    if orientation.Some? {
      AtSlice(line, t, g);
    }
  }

  lemma ScanEntryText(line: string, p: nat, x: string, y: string, orientation: Option<string>, comma: bool)
    requires WellFormed(Captures(x, y, orientation, 0))
    requires At(line, p, EntryText(x, y, orientation, comma))
    ensures Scan(line, p, p, Open) == Some(EntrySpan(p, x, y, orientation, comma))
  {
    TextEntryAt(line, p, x, y, orientation, comma);
    ScanEntry(line, p, x, y, orientation, comma);
  }

  /** The scanner reads every entry of the grammar to its end, marking its numbers and its group. */
  lemma ScanEntry(line: string, p: nat, x: string, y: string, orientation: Option<string>, comma: bool)
    requires WellFormed(Captures(x, y, orientation, 0))
    requires EntryAt(line, p, x, y, orientation, comma)
    ensures var e1 := p + 1 + |x|;
      var e2 := e1 + 1 + |y|;
      var t := e2 + |Separator(comma)|;
      Scan(line, p, p, Open) == Some(Span(e1, e2, if orientation.Some? then Some(t) else None, t + |GroupText(orientation)|))
  {
    var e1 := p + 1 + |x|;
    var e2 := e1 + 1 + |y|;
    EntryNumbers(line, p, x, y, orientation, comma);
    ScanNumbers(line, p, e1, e2);
    TailStartAt(line, e2, orientation, comma);
    ScanTail(line, p, e2 + |Separator(comma)|, e1, e2, orientation);
  }

  /** Where an entry stands, its two numbers are digit runs closed by the comma and the tail. */
  lemma EntryNumbers(line: string, p: nat, x: string, y: string, orientation: Option<string>, comma: bool)
    requires WellFormed(Captures(x, y, orientation, 0))
    requires EntryAt(line, p, x, y, orientation, comma)
    ensures var e1 := p + 1 + |x|;
      var e2 := e1 + 1 + |y|;
      && e2 < |line| && line[p] == '(' && line[e1] == ','
      && DigitsIn(line, p + 1, e1) && DigitsIn(line, e1 + 1, e2) && !IsDigit(line[e2])
  {
    var e1 := p + 1 + |x|;
    assert line[p + 0] == "("[0] && line[e1 + 0] == ","[0];
    AtDigits(line, p + 1, x);
    AtDigits(line, e1 + 1, y);
    TailStartAt(line, e1 + 1 + |y|, orientation, comma);
  }

  /** The scanner runs over both numbers of an entry to its tail. */
  lemma ScanNumbers(line: string, p: nat, xEnd: nat, yEnd: nat)
    requires p + 1 < xEnd && xEnd + 1 < yEnd < |line|
    requires line[p] == '(' && line[xEnd] == ','
    requires DigitsIn(line, p + 1, xEnd) && DigitsIn(line, xEnd + 1, yEnd) && !IsDigit(line[yEnd])
    ensures Scan(line, p, p, Open) == Scan(line, p, TailStart(line, yEnd), Tail(xEnd, yEnd))
  {
    ScanFirstNumber(line, p, p + 1, xEnd);
    ScanSecondNumber(line, p, xEnd + 1, xEnd, yEnd);
  }


  lemma AtDigits(line: string, i: nat, digits: string)
    requires At(line, i, digits) && AllDigits(digits)
    ensures i + |digits| <= |line| && DigitsIn(line, i, i + |digits|)
  {
    assert forall k :: i <= k < i + |digits| ==> line[k] == digits[k - i];
  }

  /** A tail text starts with its comma when it has one, and never with a digit. */
  lemma TailStartAt(line: string, yEnd: nat, orientation: Option<string>, comma: bool)
    requires orientation.Some? ==> IsOrientationText(orientation.value)
    requires At(line, yEnd, TailText(orientation, comma))
    ensures yEnd < |line| && !IsDigit(line[yEnd])
    ensures TailStart(line, yEnd) == yEnd + |Separator(comma)|
    ensures At(line, yEnd + |Separator(comma)|, GroupText(orientation) + "),")
  {
    var g := GroupText(orientation);
    assert TailText(orientation, comma) == Separator(comma) + (g + "),");
    AtSplit(line, yEnd, Separator(comma), g + "),");
    if comma {
      assert line[yEnd + 0] == ","[0];
    } else {
      assert line[yEnd + 0] == (g + "),")[0];
    }
  }

  /** A match found by `exec`: where it starts and what it captured. */
  datatype RegexMatch = RegexMatch(start: nat, captures: Captures) {
    function End(): nat {
      start + captures.length
    }
  }

  /**
   * `pos_re.exec(line)` with `pos_re.lastIndex == lastIndex`: the leftmost match that
   * starts at or after `lastIndex`, or null.
   */
  function Exec(line: string, lastIndex: nat): (r: Option<RegexMatch>)
    requires lastIndex <= |line|
    ensures r.Some? ==>
      && lastIndex <= r.value.start < |line|
      && MatchAt(line, r.value.start) == Some(r.value.captures)
      && lastIndex < r.value.End() <= |line|
    decreases |line| - lastIndex
  {
    match MatchAt(line, lastIndex)
    case Some(c) => Some(RegexMatch(lastIndex, c))
    case None => if lastIndex == |line| then None else Exec(line, lastIndex + 1)
  }

  /** `exec` finds the leftmost match: no match starts between `lastIndex` and the one it returns. */
  lemma {:induction false} ExecLeftmost(line: string, lastIndex: nat, j: nat)
    requires lastIndex <= j <= |line|
    requires Exec(line, lastIndex).Some? ==> j < Exec(line, lastIndex).value.start
    ensures MatchAt(line, j).None?
    decreases |line| - lastIndex
  {
    if j > lastIndex {
      ExecLeftmost(line, lastIndex + 1, j);
    }
  }

  /** The pose an entry describes: `Number()` of both digit groups and the orientation group. */
  function PoseOf(c: Captures): Pose
    requires WellFormed(c)
  {
    Pose(Coordinate(DigitsValue(c.x), DigitsValue(c.y)), OrientationFromString(c.orientation))
  }

  /** The poses of the entries found from `lastIndex` on, in the order `exec` finds them. */
  function ScanEntries(line: string, lastIndex: nat): seq<Pose>
    requires lastIndex <= |line|
    decreases |line| - lastIndex
  {
    match Exec(line, lastIndex)
    case None => []
    case Some(m) => [PoseOf(m.captures)] + ScanEntries(line, m.End())
  }

  /** The configuration a line describes. */
  function LineEntries(line: string): Config {
    ScanEntries(line, 0)
  }

  /** What `parseSolution` makes of the lines: their configurations, or the message it throws. */
  function SolutionOf(lines: seq<string>): Result<Solution, string> {
    if |lines| == 0 then Success([])
    else
      var config := LineEntries(lines[0]);
      if config == [] then Failure(InvalidSolution)
      else
        match SolutionOf(lines[1..])
        case Failure(e) => Failure(e)
        case Success(rest) => Success([config] + rest)
  }

  /**
   * Parsing succeeds iff every line has an entry; the result then has one configuration
   * per line, in line order, each one non-empty; the only error is "Invalid solution".
   */
  lemma {:induction false} SolutionOfShape(lines: seq<string>)
    ensures SolutionOf(lines).Success? <==> forall i :: 0 <= i < |lines| ==> LineEntries(lines[i]) != []
    ensures SolutionOf(lines).Success? ==>
      var s := SolutionOf(lines).value;
      |s| == |lines| && forall i :: 0 <= i < |lines| ==> s[i] == LineEntries(lines[i]) && s[i] != []
    ensures SolutionOf(lines).Failure? ==> SolutionOf(lines).error == InvalidSolution
  {
    if |lines| > 0 {
      SolutionOfShape(lines[1..]);
      assert forall i :: 1 <= i < |lines| ==> lines[1..][i - 1] == lines[i];
    }
  }

  /** The first `i` lines have been read into `solution`, one non-empty configuration each. */
  predicate ParsedUpTo(solution: Solution, lines: seq<string>, i: nat)
    requires i <= |lines|
  {
    && |solution| == i
    && forall j :: 0 <= j < i ==> solution[j] == LineEntries(lines[j]) && solution[j] != []
  }

  lemma ParsedUpToStep(solution: Solution, lines: seq<string>, i: nat, config: Config)
    requires i < |lines| && ParsedUpTo(solution, lines, i)
    requires config == LineEntries(lines[i]) && config != []
    ensures ParsedUpTo(solution + [config], lines, i + 1)
  {
    var longer := solution + [config];
    assert longer[i] == config;
    assert forall j :: 0 <= j < i ==> longer[j] == solution[j];
  }

  lemma ParsedAll(solution: Solution, lines: seq<string>)
    requires ParsedUpTo(solution, lines, |lines|)
    ensures SolutionOf(lines) == Success(solution)
  {
    SolutionOfShape(lines);
    assert SolutionOf(lines).Success?;
    assert SolutionOf(lines).value == solution;
  }

  /**
   * `parseSolution`: for each line of the trimmed text, collect the poses of the
   * entries `exec` finds on it; a line without an entry throws.
   */
  method ParseSolution(text: string) returns (r: Result<Solution, string>)
    ensures r == SolutionOf(Lines(text))
  {
    var lines := Split(Trim(text), '\n');
    var solution: Solution := [];
    for i := 0 to |lines|
      invariant ParsedUpTo(solution, lines, i)
    {
      var config := ParseLine(lines[i]);
      if |config| == 0 {
        SolutionOfShape(lines);
        return Failure(InvalidSolution);
      }
      ParsedUpToStep(solution, lines, i, config);
      solution := solution + [config];
    }
    ParsedAll(solution, lines);
    r := Success(solution);
  }

  /**
   * The inner loop of `parseSolution`: `exec` the entry pattern again and again from
   * the end of the previous match, pushing one pose per match, until it finds none.
   */
  method ParseLine(line: string) returns (config: Config)
    ensures config == LineEntries(line)
  {
    config := [];
    var lastIndex := 0;
    while true
      invariant lastIndex <= |line|
      invariant config + ScanEntries(line, lastIndex) == LineEntries(line)
      decreases |line| - lastIndex
    {
      var m := Exec(line, lastIndex);
      if m.None? {
        break;
      }
      var x := DigitsValue(m.value.captures.x);
      var y := DigitsValue(m.value.captures.y);
      var o := OrientationFromString(m.value.captures.orientation);
      config := config + [Pose(Coordinate(x, y), o)];
      lastIndex := m.value.End();
    }
  }

  /** Every parsed coordinate is non-negative, so the source's negativity checks never fire. */
  lemma SolutionOfNonNegative(lines: seq<string>, t: nat, a: nat)
    requires SolutionOf(lines).Success?
    requires t < |SolutionOf(lines).value| && a < |SolutionOf(lines).value[t]|
    ensures SolutionOf(lines).value[t][a].position.x >= 0
    ensures SolutionOf(lines).value[t][a].position.y >= 0
  {
    SolutionOfShape(lines);
    ScanEntriesNonNegative(lines[t], 0, a);
  }

  lemma {:induction false} ScanEntriesNonNegative(line: string, lastIndex: nat, a: nat)
    requires lastIndex <= |line|
    requires a < |ScanEntries(line, lastIndex)|
    ensures ScanEntries(line, lastIndex)[a].position.x >= 0
    ensures ScanEntries(line, lastIndex)[a].position.y >= 0
    decreases |line| - lastIndex
  {
    var m := Exec(line, lastIndex).value;
    if a > 0 {
      ScanEntriesNonNegative(line, m.End(), a - 1);
    }
  }

  /** Text before the first '(' of a line, such as a "0:" timestep label, is skipped. */
  lemma {:induction false} ScanEntriesSkipsLabel(prefix: string, rest: string)
    requires '(' !in prefix
    ensures ScanEntries(prefix + rest, 0) == ScanEntries(prefix + rest, |prefix|)
  {
    ExecSkips(prefix + rest, 0, |prefix|);
  }

  lemma {:induction false} ExecSkips(line: string, from: nat, to: nat)
    requires from <= to <= |line|
    requires forall k :: from <= k < to ==> line[k] != '('
    ensures Exec(line, from) == Exec(line, to)
    decreases |line| - from
  {
    if from < to {
      ExecSkips(line, from + 1, to);
    }
  }

  /** The text of a pose's entry; an oriented pose is written with the comma before its orientation. */
  function FormatPose(p: Pose): string
    requires p.position.x >= 0 && p.position.y >= 0
  {
    EntryText(NatToString(p.position.x), NatToString(p.position.y),
              OrientationCapture(p.orientation), p.orientation != NONE)
  }

  function OrientationCapture(o: Orientation): Option<string> {
    if o == NONE then None else Some(OrientationName(o))
  }

  predicate NonNegative(config: Config) {
    forall a :: 0 <= a < |config| ==> config[a].position.x >= 0 && config[a].position.y >= 0
  }

  /** A line listing the entries of a configuration one after another. */
  function FormatConfig(config: Config): string
    requires NonNegative(config)
  {
    if config == [] then "" else FormatPose(config[0]) + FormatConfig(config[1..])
  }

  /** The line of each configuration. */
  function FormattedLines(solution: Solution): (lines: seq<string>)
    requires forall t :: 0 <= t < |solution| ==> NonNegative(solution[t])
    ensures |lines| == |solution|
  {
    seq(|solution|, t requires 0 <= t < |solution| => FormatConfig(solution[t]))
  }

  /** A solution file: one line per configuration. */
  function FormatSolution(solution: Solution): string
    requires |solution| >= 1
    requires forall t :: 0 <= t < |solution| ==> NonNegative(solution[t])
  {
    Join(FormattedLines(solution), '\n')
  }

  /** Matching a formatted pose gives back the pose and consumes its whole entry. */
  lemma MatchFormattedPose(line: string, i: nat, p: Pose)
    requires p.position.x >= 0 && p.position.y >= 0
    requires At(line, i, FormatPose(p))
    ensures var c := MatchAt(line, i);
      c.Some? && c.value.length == |FormatPose(p)| && PoseOf(c.value) == p
  {
    var x, y := NatToString(p.position.x), NatToString(p.position.y);
    var o := OrientationCapture(p.orientation);
    assert WellFormed(Captures(x, y, o, 0));
    MatchAtComplete(line, i, x, y, o, p.orientation != NONE);
    PoseOfFormatted(p, |FormatPose(p)|);
  }

  /** The captures written for a pose read back as that pose. */
  lemma PoseOfFormatted(p: Pose, length: nat)
    requires p.position.x >= 0 && p.position.y >= 0
    ensures var c := Captures(NatToString(p.position.x), NatToString(p.position.y), OrientationCapture(p.orientation), length);
      WellFormed(c) && PoseOf(c) == p
  {
    DigitsValueOfNatToString(p.position.x);
    DigitsValueOfNatToString(p.position.y);
    OrientationCaptureRoundTrip(p.orientation);
  }

  /** The group written for a facing is a name the pattern accepts and reads back as that facing. */
  lemma OrientationCaptureRoundTrip(o: Orientation)
    ensures var g := OrientationCapture(o);
      OrientationFromString(g) == o && (g.Some? ==> IsOrientationText(g.value))
  {
    if o != NONE {
      OrientationFromStringIff(Some(OrientationName(o)), o);
    }
  }

  /**
   * The entries matched one after another from `lastIndex` on are `config`, and the
   * last one ends the line.
   */
  predicate MatchesFrom(line: string, lastIndex: nat, config: Config)
    requires lastIndex <= |line|
    decreases config
  {
    if config == [] then lastIndex == |line|
    else
      match MatchAt(line, lastIndex)
      case None => false
      case Some(c) => PoseOf(c) == config[0] && MatchesFrom(line, lastIndex + c.length, config[1..])
  }

  /** Back-to-back matches are what `exec` finds, one after another. */
  lemma {:induction false} ScanMatches(line: string, lastIndex: nat, config: Config)
    requires lastIndex <= |line| && MatchesFrom(line, lastIndex, config)
    ensures ScanEntries(line, lastIndex) == config
    decreases config
  {
    if config == [] {
      assert Scan(line, |line|, |line|, Open) == None;
    } else {
      var c := MatchAt(line, lastIndex).value;
      assert Exec(line, lastIndex) == Some(RegexMatch(lastIndex, c));
      ScanMatches(line, lastIndex + c.length, config[1..]);
    }
  }

  /** A formatted configuration, wherever it is appended, is matched entry by entry. */
  lemma {:induction false} FormattedMatches(line: string, prefix: string, config: Config)
    requires NonNegative(config) && line == prefix + FormatConfig(config)
    ensures MatchesFrom(line, |prefix|, config)
    decreases config, 1
  {
    if config == [] {
      assert |line| == |prefix| + |FormatConfig([])|;
    } else {
      FormattedMatchesCons(line, prefix, config);
    }
  }

  lemma {:induction false} FormattedMatchesCons(line: string, prefix: string, config: Config)
    requires config != [] && NonNegative(config) && line == prefix + FormatConfig(config)
    ensures MatchesFrom(line, |prefix|, config)
    decreases config, 0
  {
    FormatConfigCons(prefix, config);
    FormattedMatches(line, prefix + FormatPose(config[0]), config[1..]);
    FormattedPoseThenMatches(line, prefix, config, FormatConfig(config[1..]));
  }

  /** A formatted pose followed by matched entries is matched entry by entry. */
  lemma FormattedPoseThenMatches(line: string, prefix: string, config: Config, suffix: string)
    requires config != [] && config[0].position.x >= 0 && config[0].position.y >= 0
    requires line == prefix + FormatPose(config[0]) + suffix
    requires MatchesFrom(line, |prefix + FormatPose(config[0])|, config[1..])
    ensures MatchesFrom(line, |prefix|, config)
  {
    MatchFormattedPoseAfter(line, prefix, config[0], suffix);
    var next := |prefix + FormatPose(config[0])|;
    MatchesFromCons(line, |prefix|, config, MatchAt(line, |prefix|).value, next);
  }

  lemma FormatConfigCons(prefix: string, config: Config)
    requires config != [] && NonNegative(config)
    ensures NonNegative(config[1..])
    ensures prefix + FormatConfig(config) == prefix + FormatPose(config[0]) + FormatConfig(config[1..])
  {
    assert NonNegative(config[1..]);
  }

  /** A match of the first pose followed by matches of the rest is a match of them all. */
  lemma MatchesFromCons(line: string, lastIndex: nat, config: Config, c: Captures, next: nat)
    requires lastIndex <= |line| && config != []
    requires MatchAt(line, lastIndex) == Some(c) && PoseOf(c) == config[0]
    requires next == lastIndex + c.length && next <= |line| && MatchesFrom(line, next, config[1..])
    ensures MatchesFrom(line, lastIndex, config)
  {
  }

  /** A formatted pose written after `prefix` is matched there. */
  lemma MatchFormattedPoseAfter(line: string, prefix: string, p: Pose, suffix: string)
    requires p.position.x >= 0 && p.position.y >= 0
    requires line == prefix + FormatPose(p) + suffix
    ensures var c := MatchAt(line, |prefix|);
      c.Some? && c.value.length == |FormatPose(p)| && PoseOf(c.value) == p
  {
    AtMiddle(prefix, FormatPose(p), suffix);
    MatchFormattedPose(line, |prefix|, p);
  }

  /** A formatted pose is an entry: it starts with '(', ends with ',' and holds no line break. */
  lemma FormatPoseShape(p: Pose)
    requires p.position.x >= 0 && p.position.y >= 0
    ensures var f := FormatPose(p);
      |f| > 0 && f[0] == '(' && f[|f| - 1] == ',' && '\n' !in f
  {
    var x, y := NatToString(p.position.x), NatToString(p.position.y);
    var g := GroupText(OrientationCapture(p.orientation));
    var sep := Separator(p.orientation != NONE);
    assert '\n' !in x && '\n' !in y by {
      assert forall k :: 0 <= k < |x| ==> IsDigit(x[k]);
      assert forall k :: 0 <= k < |y| ==> IsDigit(y[k]);
    }
    assert '\n' !in g;
    assert FormatPose(p) == "(" + x + "," + y + sep + g + "),";
  }

  lemma {:induction false} FormatConfigShape(config: Config)
    requires NonNegative(config)
    ensures '\n' !in FormatConfig(config)
    ensures config != [] ==> FormatConfig(config)[0] == '(' && FormatConfig(config)[|FormatConfig(config)| - 1] == ','
  {
    if config != [] {
      FormatPoseShape(config[0]);
      FormatConfigShape(config[1..]);
    }
  }

  /** A formatted configuration, read back as a line, gives back its poses in order. */
  lemma FormattedLine(config: Config)
    requires NonNegative(config)
    ensures LineEntries(FormatConfig(config)) == config
  {
    var line := FormatConfig(config);
    assert line == [] + line;
    FormattedMatches(line, [], config);
    ScanMatches(line, 0, config);
  }

  /** The lines of a written solution are the formatted configurations, one per line. */
  lemma FormatSolutionLines(solution: Solution)
    requires |solution| >= 1
    requires forall t :: 0 <= t < |solution| ==> NonNegative(solution[t]) && solution[t] != []
    ensures var lines := FormattedLines(solution); Lines(Join(lines, '\n')) == lines
  {
    FormattedLinesJoinable(solution);
    LinesOfJoin(FormattedLines(solution));
  }

  lemma FormattedLinesJoinable(solution: Solution)
    requires |solution| >= 1
    requires forall t :: 0 <= t < |solution| ==> NonNegative(solution[t]) && solution[t] != []
    ensures Joinable(FormattedLines(solution))
  {
    FormattedLinesBreakFree(solution);
    FormattedLinesVisible(solution);
  }

  lemma FormattedLinesBreakFree(solution: Solution)
    requires forall t :: 0 <= t < |solution| ==> NonNegative(solution[t])
    ensures var lines := FormattedLines(solution); forall i :: 0 <= i < |lines| ==> '\n' !in lines[i]
  {
    forall t | 0 <= t < |solution|
      ensures '\n' !in FormattedLines(solution)[t]
    {
      FormatConfigShape(solution[t]);
    }
  }

  lemma FormattedLinesVisible(solution: Solution)
    requires |solution| >= 1
    requires forall t :: 0 <= t < |solution| ==> NonNegative(solution[t]) && solution[t] != []
    ensures var lines := FormattedLines(solution);
      && lines[0] != [] && !IsJsSpace(lines[0][0])
      && var last := lines[|lines| - 1]; last != [] && !IsJsSpace(last[|last| - 1])
  {
    var lines := FormattedLines(solution);
    FormattedLineVisible(solution, 0);
    FormattedLineVisible(solution, |lines| - 1);
  }

  lemma FormattedLineVisible(solution: Solution, t: nat)
    requires t < |solution|
    requires forall t :: 0 <= t < |solution| ==> NonNegative(solution[t]) && solution[t] != []
    ensures var f := FormattedLines(solution)[t]; f != [] && !IsJsSpace(f[0]) && !IsJsSpace(f[|f| - 1])
  {
    var f := FormatConfig(solution[t]);
    assert FormattedLines(solution)[t] == f;
    FormatConfigVisible(solution[t]);
  }

  /** The line of a configuration starts and ends with visible characters. */
  lemma FormatConfigVisible(config: Config)
    requires config != [] && NonNegative(config)
    ensures var f := FormatConfig(config); f != [] && !IsJsSpace(f[0]) && !IsJsSpace(f[|f| - 1])
  {
    FormatConfigShape(config);
  }

  /**
   * Reading back a written solution gives the same solution: each line parses to its
   * configuration, and no pose is lost, added or reordered.
   */
  lemma ParseFormattedSolution(solution: Solution)
    requires |solution| >= 1
    requires forall t :: 0 <= t < |solution| ==> NonNegative(solution[t]) && solution[t] != []
    ensures SolutionOf(Lines(FormatSolution(solution))) == Success(solution)
  {
    var lines := FormattedLines(solution);
    FormatSolutionLines(solution);
    forall t | 0 <= t < |lines|
      ensures LineEntries(lines[t]) == solution[t]
    {
      FormattedLine(solution[t]);
    }
    SolutionOfShape(lines);
    var parsed := SolutionOf(lines).value;
    assert forall t :: 0 <= t < |parsed| ==> parsed[t] == solution[t];
    assert parsed == solution;
  }
}
