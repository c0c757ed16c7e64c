/**
 * The map file reader of src/Graph.tsx: a four-line header (type, height, width, "map")
 * followed by one row of characters per grid line, where every character other than
 * '.' marks an obstacle. Obstacles are kept under the text key "(x, y)" of their cell.
 */
module Graph {
  import opened Wrappers
  import opened Text

  /** A grid cell; `ToString` is the key the obstacle map is indexed by. */
  datatype Coordinate = Coordinate(x: int, y: int) {
    function ToString(): string {
      KeyText(IntToString(x), IntToString(y))
    }
  }

  function KeyText(p: string, q: string): string {
    "(" + p + ", " + q + ")"
  }

  /** In a key whose first field has no comma, the first comma is the one after that field. */
  lemma KeyTextComma(p: string, q: string)
    requires ',' !in p
    ensures |KeyText(p, q)| == |p| + |q| + 4
    ensures KeyText(p, q)[1 + |p|] == ','
    ensures forall k :: 1 <= k < 1 + |p| ==> KeyText(p, q)[k] == p[k - 1] != ','
  {
  }

  lemma KeyTextFields(p1: string, q1: string, p2: string, q2: string)
    requires ',' !in p1 && ',' !in p2
    requires KeyText(p1, q1) == KeyText(p2, q2)
    ensures p1 == p2 && q1 == q2
  {
    var s := KeyText(p1, q1);
    KeyTextComma(p1, q1);
    KeyTextComma(p2, q2);
    assert |p1| == |p2|;
    assert p1 == s[1..1 + |p1|] == p2;
    assert q1 == s[3 + |p1|..|s| - 1] == q2;
  }

  /** Distinct cells have distinct keys, so the obstacle map identifies cells uniquely. */
  lemma ToStringInjective(a: Coordinate, b: Coordinate)
    requires a.ToString() == b.ToString()
    ensures a == b
  {
    KeyTextFields(IntToString(a.x), IntToString(a.y), IntToString(b.x), IntToString(b.y));
    IntToStringInjective(a.x, b.x);
    IntToStringInjective(a.y, b.y);
  }

  /** A JavaScript number as `Number()` produces it from a header field. */
  datatype JsNumber = NaN | Whole(n: nat)

  /**
   * `Number(field)`: an absent field (`undefined`) is NaN; otherwise the field is trimmed,
   * and the empty string reads as 0 and a run of decimal digits as its value.
   */
  function ToNumber(field: Option<string>): (r: JsNumber)
    ensures field.None? ==> r == NaN
    ensures field.Some? && AllDigits(Trim(field.value)) ==> r == Whole(DigitsValue(Trim(field.value)))
  {
    match field
    case None => NaN
    case Some(s) =>
      var t := Trim(s);
      if AllDigits(t) then Whole(DigitsValue(t)) else NaN
  }

  /** `line.split(" ")[index]`, which is `undefined` past the last piece. */
  function Field(line: string, index: nat): (r: Option<string>)
    ensures r.Some? ==> ' ' !in r.value
  {
    var parts := Split(line, ' ');
    if index < |parts| then Some(parts[index]) else None
  }

  /** The number in the second space-separated field of a header line. */
  function HeaderValue(line: string): JsNumber {
    ToNumber(Field(line, 1))
  }

  const InvalidMapFile := "Invalid map file"
  const CheckHeight := "Invalid map file, check height"
  const CheckWidth := "Invalid map file, check width"

  predicate RowFits(row: string, width: JsNumber) {
    width == Whole(|row|)
  }

  /** The number of leading rows whose length is the declared width. */
  function FitCount(rows: seq<string>, width: JsNumber): (r: nat)
    ensures r <= |rows|
    ensures forall z :: 0 <= z < r ==> RowFits(rows[z], width)
    ensures r == |rows| || !RowFits(rows[r], width)
  {
    if |rows| == 0 || !RowFits(rows[0], width) then 0 else 1 + FitCount(rows[1..], width)
  }

  /** The leading fitting rows run on past a row that fits right after them. */
  lemma {:induction false} FitCountGrows(rows: seq<string>, width: JsNumber, n: nat)
    requires n < |rows| && n <= FitCount(rows, width) && RowFits(rows[n], width)
    ensures n + 1 <= FitCount(rows, width)
  {
    if n > 0 {
      FitCountGrows(rows[1..], width, n - 1);
    }
  }

  /** Keys of the obstacles among the first `n` characters of row `y`. */
  function RowKeys(row: string, y: int, n: nat): set<string>
    requires n <= |row|
  {
    if n == 0 then {}
    else RowKeys(row, y, n - 1) + if row[n - 1] != '.' then {Coordinate(n - 1, y).ToString()} else {}
  }

  /** Keys of the obstacles in the first `n` rows. */
  function GridKeys(rows: seq<string>, n: nat): set<string>
    requires n <= |rows|
  {
    if n == 0 then {} else GridKeys(rows, n - 1) + RowKeys(rows[n - 1], n - 1, |rows[n - 1]|)
  }

  /** A successfully read map. */
  datatype GraphValue = GraphValue(width: JsNumber, height: nat, obstacles: set<string>)

  /** What `parseGraph` makes of the lines of a map file: the map, or the message it throws. */
  function GraphOf(lines: seq<string>): Result<GraphValue, string> {
    if |lines| < 4 then Failure(InvalidMapFile)
    else if HeaderValue(lines[1]) != Whole(|lines| - 4) then Failure(CheckHeight)
    else
      var width := HeaderValue(lines[2]);
      var rows := lines[4..];
      if FitCount(rows, width) < |rows| then Failure(CheckWidth)
      else Success(GraphValue(width, |rows|, GridKeys(rows, |rows|)))
  }

  /** Row `y` of the map file whose lines are `lines`. */
  function Row(lines: seq<string>, y: nat): string
    requires 4 + y < |lines|
  {
    lines[4 + y]
  }

  /** Cell (x, y) is an obstacle of the first `n` rows iff it lies in them and is not '.'. */
  lemma {:induction false} GridKeysIff(rows: seq<string>, n: nat, c: Coordinate)
    requires n <= |rows|
    ensures c.ToString() in GridKeys(rows, n) <==>
            0 <= c.y < n && 0 <= c.x < |rows[c.y]| && rows[c.y][c.x] != '.'
  {
    if n > 0 {
      GridKeysIff(rows, n - 1, c);
      RowKeysIff(rows[n - 1], n - 1, |rows[n - 1]|, c);
    }
  }

  lemma {:induction false} RowKeysIff(row: string, y: int, n: nat, c: Coordinate)
    requires n <= |row|
    ensures c.ToString() in RowKeys(row, y, n) <==> c.y == y && 0 <= c.x < n && row[c.x] != '.'
  {
    if n > 0 {
      RowKeysIff(row, y, n - 1, c);
      if c.ToString() == Coordinate(n - 1, y).ToString() {
        ToStringInjective(c, Coordinate(n - 1, y));
      }
    }
  }

  /** Every key in the obstacle set is the key of an in-bounds cell that is not '.'. */
  lemma {:induction false} GridKeysInBounds(rows: seq<string>, n: nat, key: string)
    requires n <= |rows|
    requires key in GridKeys(rows, n)
    ensures exists c: Coordinate :: key == c.ToString() &&
              0 <= c.y < n && 0 <= c.x < |rows[c.y]| && rows[c.y][c.x] != '.'
  {
    if key in GridKeys(rows, n - 1) {
      GridKeysInBounds(rows, n - 1, key);
    } else {
      RowKeysInBounds(rows[n - 1], n - 1, |rows[n - 1]|, key);
    }
  }

  lemma {:induction false} RowKeysInBounds(row: string, y: nat, n: nat, key: string)
    requires n <= |row|
    requires key in RowKeys(row, y, n)
    ensures exists x: nat :: x < n && key == Coordinate(x, y).ToString() && row[x] != '.'
  {
    if key in RowKeys(row, y, n - 1) {
      RowKeysInBounds(row, y, n - 1, key);
    } else {
      assert key == Coordinate(n - 1, y).ToString();
    }
  }

  /**
   * On success the height is the number of rows, every row is `width` long, and
   * cell (x, y) is an obstacle exactly when it lies in the grid and its character is not '.'.
   */
  lemma GraphOfObstacles(lines: seq<string>, c: Coordinate)
    requires GraphOf(lines).Success?
    ensures var g := GraphOf(lines).value;
      && g.height == |lines| - 4
      && (forall y :: 0 <= y < g.height ==> g.width == Whole(|Row(lines, y)|))
      && (c.ToString() in g.obstacles <==>
            0 <= c.y < g.height && 0 <= c.x < |Row(lines, c.y)| && Row(lines, c.y)[c.x] != '.')
  {
    var rows := lines[4..];
    GridKeysIff(rows, |rows|, c);
  }

  /** On success every obstacle key is the key of a cell inside the width-by-height grid. */
  lemma GraphOfObstaclesInBounds(lines: seq<string>, key: string)
    requires GraphOf(lines).Success?
    requires key in GraphOf(lines).value.obstacles
    ensures exists c: Coordinate :: key == c.ToString() &&
              0 <= c.y < GraphOf(lines).value.height &&
              GraphOf(lines).value.width == Whole(|Row(lines, c.y)|) &&
              0 <= c.x < |Row(lines, c.y)| && Row(lines, c.y)[c.x] != '.'
  {
    var rows := lines[4..];
    GridKeysInBounds(rows, |rows|, key);
  }

  /** The type line (index 0) and the "map" line (index 3) never affect the outcome. */
  lemma GraphOfIgnoresTypeAndMapLines(lines: seq<string>, other: seq<string>)
    requires |lines| == |other| >= 4
    requires lines[1] == other[1] && lines[2] == other[2] && lines[4..] == other[4..]
    ensures GraphOf(lines) == GraphOf(other)
  {
  }

  /** The three error conditions, in the order they are checked. */
  lemma GraphOfErrors(lines: seq<string>)
    ensures |lines| < 4 <==> GraphOf(lines) == Failure(InvalidMapFile)
    ensures GraphOf(lines) == Failure(CheckHeight) <==>
              |lines| >= 4 && HeaderValue(lines[1]) != Whole(|lines| - 4)
    ensures GraphOf(lines) == Failure(CheckWidth) <==>
              |lines| >= 4 && HeaderValue(lines[1]) == Whole(|lines| - 4) &&
              exists y :: 4 <= y < |lines| && !RowFits(lines[y], HeaderValue(lines[2]))
  {
    if |lines| >= 4 && HeaderValue(lines[1]) == Whole(|lines| - 4) {
      var rows, width := lines[4..], HeaderValue(lines[2]);
      if FitCount(rows, width) < |rows| {
        assert !RowFits(lines[4 + FitCount(rows, width)], width);
      }
    }
  }

  /** The map object of src/Graph.tsx, whose fields `parseGraph` fills in place. */
  class Graph {
    var width: JsNumber
    var height: nat
    /** The keys of the obstacle map; the source only ever stores `true` under them. */
    var obstacles: set<string>

    /** The field initialisers: a 0-by-0 map with no obstacles. */
    constructor Empty()
      ensures width == Whole(0) && height == 0 && obstacles == {}
    {
      width := Whole(0);
      height := 0;
      obstacles := {};
    }

    /**
     * `parseGraph`: on success the fields hold the map of `GraphOf`; on an error the
     * returned message is the one `GraphOf` gives, and the fields are as far as the
     * source had written them when it threw.
     */
    method ParseGraph(fileContent: string) returns (err: Option<string>)
      modifies this
      ensures var lines := Lines(fileContent);
        match GraphOf(lines)
        case Success(g) =>
          err == None && width == g.width && height == g.height &&
          obstacles == old(obstacles) + g.obstacles
        case Failure(e) =>
          err == Some(e) &&
          (e != CheckWidth ==> width == old(width) && height == old(height) && obstacles == old(obstacles)) &&
          (e == CheckWidth ==>
             height == |lines| - 4 && width == HeaderValue(lines[2]) &&
             obstacles == old(obstacles) + GridKeys(lines[4..], FitCount(lines[4..], width)))
    {
      var lines := Split(Trim(fileContent), '\n');
      if |lines| < 4 {
        assert GraphOf(lines) == Failure(InvalidMapFile);
        return Some(InvalidMapFile);
      }
      var h := ToNumber(Field(lines[1], 1));
      if h != Whole(|lines| - 4) {
        assert GraphOf(lines) == Failure(CheckHeight);
        return Some(CheckHeight);
      }
      height := |lines| - 4;
      var w := ToNumber(Field(lines[2], 1));
      width := w;
      var graph := lines[4..];
      var y := 0;
      while y < |graph|
        invariant y <= |graph|
        invariant y <= FitCount(graph, w)
        invariant width == w && height == |lines| - 4
        invariant obstacles == old(obstacles) + GridKeys(graph, y)
      {
        if w != Whole(|graph[y]|) {
          assert FitCount(graph, w) == y;
          return Some(CheckWidth);
        }
        FitCountGrows(graph, w, y);
        ReadRow(graph[y], y);
        y := y + 1;
      }
      assert FitCount(graph, w) == |graph|;
      err := None;
    }

    /** The inner loop of `parseGraph`: mark every character of row `y` other than '.' as an obstacle. */
    method ReadRow(row: string, y: nat)
      requires width == Whole(|row|)
      modifies this
      ensures width == old(width) && height == old(height)
      ensures obstacles == old(obstacles) + RowKeys(row, y, |row|)
    {
      var x := 0;
      while x < width.n
        invariant x <= |row| && width == old(width) && height == old(height)
        invariant obstacles == old(obstacles) + RowKeys(row, y, x)
      {
        if row[x] != '.' {
          obstacles := obstacles + {Coordinate(x, y).ToString()};
        }
        x := x + 1;
      }
    }
  }

  /** `new Graph(fileContent)`: a fresh map read from the file, or the message thrown. */
  method NewGraph(fileContent: string) returns (r: Result<Graph, string>)
    ensures var lines := Lines(fileContent);
      match GraphOf(lines)
      case Success(g) =>
        r.Success? && fresh(r.value) &&
        r.value.width == g.width && r.value.height == g.height && r.value.obstacles == g.obstacles
      case Failure(e) => r == Failure(e)
  {
    var graph := new Graph.Empty();
    var err := graph.ParseGraph(fileContent);
    if err.Some? {
      return Failure(err.value);
    }
    return Success(graph);
  }
}
