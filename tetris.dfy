/** The falling-block game: piece templates, collision, rotation, locking and line clearing. */
module Tetris {
  import opened Wrappers

  /** Board height and width, in cells. */
  const Rows: int := 20
  const Cols: int := 10

  datatype Kind = I | O | T | S | Z | J | L

  /** A board cell: empty (the source's 0) or holding a block of a locked piece. */
  datatype Cell = Empty | Block(kind: Kind)

  type Row = seq<Cell>
  type Board = seq<Row>

  /** A piece's occupancy matrix, indexed [row][column]. */
  type Shape = seq<seq<bool>>

  /** A board position; y grows downwards. */
  datatype Pos = Pos(x: int, y: int)

  /** Where every new piece appears. */
  const Spawn: Pos := Pos(4, 0)

  predicate IsBoard(b: Board) {
    |b| == Rows && forall r :: 0 <= r < |b| ==> |b[r]| == Cols
  }

  predicate Full(row: Row) {
    forall c :: 0 <= c < |row| ==> row[c] != Empty
  }

  predicate NoFullRow(b: Board) {
    forall r :: 0 <= r < |b| ==> !Full(b[r])
  }

  function EmptyRow(): (row: Row)
    ensures |row| == Cols && !Full(row)
    ensures forall c :: 0 <= c < |row| ==> row[c] == Empty
  {
    var row := seq(Cols, _ => Empty);
    assert row[0] == Empty;
    row
  }

  /** `n` empty rows. */
  function Blank(n: nat): (b: Board)
    ensures |b| == n
    ensures forall r :: 0 <= r < n ==> b[r] == EmptyRow()
  {
    seq(n, _ => EmptyRow())
  }

  function EmptyBoard(): (b: Board)
    ensures IsBoard(b) && NoFullRow(b)
  {
    Blank(Rows)
  }

  /** A non-empty matrix whose rows all have the same, non-zero, length. */
  predicate Rectangular(p: Shape) {
    |p| > 0 && |p[0]| > 0 && forall y :: 0 <= y < |p| ==> |p[y]| == |p[0]|
  }

  // ---------------------------------------------------------------------------
  // Templates

  /** The shape a piece of kind `k` spawns with: a rectangle of at most 2 rows and 4 columns. */
  function Template(k: Kind): (t: Shape)
    ensures Rectangular(t) && |t| <= 2 && |t[0]| <= 4
  {
    match k
    case I => [[true, true, true, true]]
    case O => [[true, true], [true, true]]
    case T => [[false, true, false], [true, true, true]]
    case S => [[false, true, true], [true, true, false]]
    case Z => [[true, true, false], [false, true, true]]
    case J => [[true, false, false], [true, true, true]]
    case L => [[false, false, true], [true, true, true]]
  }

  /** Number of occupied cells in one row of a shape. */
  function RowCount(row: seq<bool>): nat {
    if row == [] then 0 else Bit(row[0]) + RowCount(row[1..])
  }

  /** Number of occupied cells in a shape. */
  function CellCount(p: Shape): nat {
    if p == [] then 0 else RowCount(p[0]) + CellCount(p[1..])
  }

  function Bit(v: bool): nat { if v then 1 else 0 }

  lemma RowCount3(a: bool, b: bool, c: bool)
    ensures RowCount([a, b, c]) == Bit(a) + Bit(b) + Bit(c)
  {
    assert [a, b, c][1..] == [b, c];
    assert [b, c][1..] == [c];
    assert [c][1..] == [];
    assert RowCount([c]) == Bit(c);
    assert RowCount([b, c]) == Bit(b) + Bit(c);
  }

  lemma CellCount2(r0: seq<bool>, r1: seq<bool>)
    ensures CellCount([r0, r1]) == RowCount(r0) + RowCount(r1)
  {
    assert [r0, r1][1..] == [r1];
    assert [r1][1..] == [];
    assert CellCount([r1]) == RowCount(r1);
  }

  /** Every template holds four cells. */
  lemma TemplateShape(k: Kind)
    ensures CellCount(Template(k)) == 4
  {
    var p := Template(k);
    match k
    case I =>
      var row := [true, true, true, true];
      assert row[1..] == [true, true, true];
      RowCount3(true, true, true);
      assert p[1..] == [];
    case O =>
      var row := [true, true];
      assert row[1..] == [true] && [true][1..] == [];
      CellCount2(row, row);
    case _ =>
      CellCount2(p[0], p[1]);
      RowCount3(p[0][0], p[0][1], p[0][2]);
      RowCount3(p[1][0], p[1][1], p[1][2]);
  }

  // ---------------------------------------------------------------------------
  // Collision

  /** A piece cell at board row r, column c is illegal: below the floor, beside a wall, or on a block. Rows above the top are free. */
  predicate Blocked(b: Board, r: int, c: int)
    requires IsBoard(b)
  {
    r >= Rows || c < 0 || c >= Cols || (r >= 0 && b[r][c] != Empty)
  }

  /** Some occupied cell of `p`, placed with its top-left corner at `pos`, is illegal. */
  ghost predicate Collides(p: Shape, pos: Pos, b: Board)
    requires IsBoard(b)
  {
    exists y, x :: 0 <= y < |p| && 0 <= x < |p[y]| && p[y][x] && Blocked(b, pos.y + y, pos.x + x)
  }

  /** checkCollision: scan the shape row by row and stop at the first illegal cell. */
  method CheckCollision(p: Shape, pos: Pos, b: Board) returns (hit: bool)
    requires IsBoard(b)
    ensures hit <==> Collides(p, pos, b)
  {
    var y := 0;
    while y < |p|
      invariant 0 <= y <= |p|
      invariant forall y', x' :: 0 <= y' < y && 0 <= x' < |p[y']| && p[y'][x'] ==> !Blocked(b, pos.y + y', pos.x + x')
    {
      var x := 0;
      while x < |p[y]|
        invariant 0 <= x <= |p[y]|
        invariant forall y', x' :: 0 <= y' < y && 0 <= x' < |p[y']| && p[y'][x'] ==> !Blocked(b, pos.y + y', pos.x + x')
        invariant forall x' :: 0 <= x' < x && p[y][x'] ==> !Blocked(b, pos.y + y, pos.x + x')
      {
        if p[y][x] && Blocked(b, pos.y + y, pos.x + x) {
          return true;
        }
        x := x + 1;
      }
      y := y + 1;
    }
    return false;
  }

  /** A template fits at the spawn position of an empty board. */
  lemma SpawnFitsEmptyBoard(k: Kind)
    ensures !Collides(Template(k), Spawn, EmptyBoard())
  {
  }

  // ---------------------------------------------------------------------------
  // Rotation

  function Reverse<X>(s: seq<X>): (r: seq<X>)
    ensures |r| == |s|
    ensures forall k :: 0 <= k < |s| ==> r[k] == s[|s| - 1 - k]
  {
    if s == [] then [] else Reverse(s[1..]) + [s[0]]
  }

  /** Column `i` of a shape, top to bottom. */
  function Column(p: Shape, i: nat): (col: seq<bool>)
    requires forall y :: 0 <= y < |p| ==> i < |p[y]|
    ensures |col| == |p|
    ensures forall y :: 0 <= y < |p| ==> col[y] == p[y][i]
  {
    seq(|p|, y requires 0 <= y < |p| => p[y][i])
  }

  /** The quarter turn: row i of the result is column i of `p`, read bottom to top. */
  function Rotated(p: Shape): (r: Shape)
    requires Rectangular(p)
    ensures Rectangular(r)
    ensures |r| == |p[0]| && |r[0]| == |p|
    ensures forall i, j :: 0 <= i < |r| && 0 <= j < |r[i]| ==> r[i][j] == p[|p| - 1 - j][i]
  {
    TurnedColumns(p, |p[0]|)
  }

  /** The first `n` rows of the quarter turn of `p`. */
  function TurnedColumns(p: Shape, n: nat): (r: Shape)
    requires Rectangular(p) && n <= |p[0]|
    ensures |r| == n
    ensures forall i :: 0 <= i < n ==> |r[i]| == |p|
    ensures forall i, j :: 0 <= i < n && 0 <= j < |p| ==> r[i][j] == p[|p| - 1 - j][i]
  {
    if n == 0 then [] else TurnedColumns(p, n - 1) + [Reverse(Column(p, n - 1))]
  }

  /** The shape after `n` quarter turns. */
  function RotatedN(p: Shape, n: nat): (r: Shape)
    requires Rectangular(p)
    ensures Rectangular(r)
    ensures n % 2 == 0 ==> |r| == |p| && |r[0]| == |p[0]|
    ensures n % 2 == 1 ==> |r| == |p[0]| && |r[0]| == |p|
  {
    if n == 0 then p else Rotated(RotatedN(p, n - 1))
  }

  /** Two quarter turns give the half turn: the shape upside down and mirrored. */
  lemma HalfTurn(p: Shape)
    requires Rectangular(p)
    ensures |Rotated(Rotated(p))| == |p| && |Rotated(Rotated(p))[0]| == |p[0]|
    ensures forall i, j :: 0 <= i < |p| && 0 <= j < |p[0]| ==>
      Rotated(Rotated(p))[i][j] == p[|p| - 1 - i][|p[0]| - 1 - j]
  {
    var r1 := Rotated(p);
    var r2 := Rotated(r1);
    var h, w := |p|, |p[0]|;
    forall i, j | 0 <= i < h && 0 <= j < w
      ensures r2[i][j] == p[h - 1 - i][w - 1 - j]
    {
      assert r2[i][j] == r1[w - 1 - j][i];
      assert r1[w - 1 - j][i] == p[h - 1 - i][w - 1 - j];
    }
  }

  /** Shapes with the same rows of the same cells are equal. */
  lemma SameShape(a: Shape, b: Shape)
    requires |a| == |b| && forall i :: 0 <= i < |a| ==> |a[i]| == |b[i]|
    requires forall i, j :: 0 <= i < |a| && 0 <= j < |a[i]| ==> a[i][j] == b[i][j]
    ensures a == b
  {
    forall i | 0 <= i < |a|
      ensures a[i] == b[i]
    {
    }
  }

  lemma FullTurnAt(p: Shape, i: int, j: int)
    requires Rectangular(p) && 0 <= i < |p| && 0 <= j < |p[0]|
    ensures |Rotated(Rotated(Rotated(Rotated(p))))| == |p|
    ensures |Rotated(Rotated(Rotated(Rotated(p))))[i]| == |p[i]|
    ensures Rotated(Rotated(Rotated(Rotated(p))))[i][j] == p[i][j]
  {
    var r2 := Rotated(Rotated(p));
    HalfTurn(p);
    HalfTurn(r2);
    assert r2[|p| - 1 - i][|p[0]| - 1 - j] == p[i][j];
  }

  /** Four quarter turns give back the shape. */
  lemma {:induction false} FourTurns(p: Shape)
    requires Rectangular(p)
    ensures RotatedN(p, 4) == p
  {
    var r4 := Rotated(Rotated(Rotated(Rotated(p))));
    forall i, j | 0 <= i < |p| && 0 <= j < |p[0]|
      ensures r4[i][j] == p[i][j]
    {
      FullTurnAt(p, i, j);
    }
    FullTurnAt(p, 0, 0);
    SameShape(r4, p);
    FourSteps(p);
  }

  lemma FourSteps(p: Shape)
    requires Rectangular(p)
    ensures RotatedN(p, 4) == Rotated(Rotated(Rotated(Rotated(p))))
  {
    assert RotatedN(p, 1) == Rotated(p);
    assert RotatedN(p, 2) == Rotated(RotatedN(p, 1));
    assert RotatedN(p, 3) == Rotated(RotatedN(p, 2));
  }

  /** One more quarter turn, with the number of turns counted modulo 4. */
  lemma NextTurn(p: Shape, t: nat)
    requires Rectangular(p) && t < 4
    ensures Rotated(RotatedN(p, t)) == RotatedN(p, if t == 3 then 0 else t + 1)
  {
    if t == 3 {
      LastTurn(p);
    } else {
      OneTurn(p, t + 1);
    }
  }

  lemma OneTurn(p: Shape, n: nat)
    requires Rectangular(p) && n > 0
    ensures RotatedN(p, n) == Rotated(RotatedN(p, n - 1))
  {
  }

  lemma LastTurn(p: Shape)
    requires Rectangular(p)
    ensures Rotated(RotatedN(p, 3)) == p
  {
    FourTurns(p);
    OneTurn(p, 4);
  }

  // ---------------------------------------------------------------------------
  // Merging a piece into the board

  /** Board cell (r, c) lies under an occupied cell of `p` placed at `pos`. */
  predicate Covers(p: Shape, pos: Pos, r: int, c: int) {
    0 <= r - pos.y < |p| && 0 <= c - pos.x < |p[r - pos.y]| && p[r - pos.y][c - pos.x]
  }

  /** The board with the cells under the piece set to its kind. */
  function Place(b: Board, p: Shape, pos: Pos, k: Kind): (m: Board)
    requires IsBoard(b)
    ensures IsBoard(m)
  {
    seq(Rows, r requires 0 <= r < Rows =>
      seq(Cols, c requires 0 <= c < Cols => if Covers(p, pos, r, c) then Block(k) else b[r][c]))
  }

  /**
   * A piece that does not collide is wholly inside the board below its top,
   * covers only empty cells, and merging it keeps every block of the board.
   */
  lemma {:induction false} PlaceKeepsBlocks(b: Board, p: Shape, pos: Pos, k: Kind)
    requires IsBoard(b) && !Collides(p, pos, b)
    ensures forall y, x :: 0 <= y < |p| && 0 <= x < |p[y]| && p[y][x] && pos.y + y >= 0 ==>
      pos.y + y < Rows && 0 <= pos.x + x < Cols && b[pos.y + y][pos.x + x] == Empty
    ensures forall r, c :: 0 <= r < Rows && 0 <= c < Cols ==>
      (Covers(p, pos, r, c) ==> b[r][c] == Empty && Place(b, p, pos, k)[r][c] == Block(k))
    ensures forall r, c :: 0 <= r < Rows && 0 <= c < Cols ==>
      (!Covers(p, pos, r, c) ==> Place(b, p, pos, k)[r][c] == b[r][c])
  {
    forall r, c | 0 <= r < Rows && 0 <= c < Cols && Covers(p, pos, r, c)
      ensures b[r][c] == Empty
    {
      assert !Blocked(b, pos.y + (r - pos.y), pos.x + (c - pos.x));
    }
  }

  /** Cell (r, c) is covered by one of the piece cells the merge loops have visited before row y, column x. */
  predicate CoveredBefore(p: Shape, pos: Pos, r: int, c: int, y: int, x: int) {
    Covers(p, pos, r, c) && (r - pos.y < y || (r - pos.y == y && c - pos.x < x))
  }

  /** mergePiece's first step: copy the board and write the piece's kind into its cells. */
  method Merge(b: Board, p: Shape, pos: Pos, k: Kind) returns (m: Board)
    requires IsBoard(b) && !Collides(p, pos, b)
    ensures m == Place(b, p, pos, k)
  {
    PlaceKeepsBlocks(b, p, pos, k);
    m := b;
    var y := 0;
    while y < |p|
      invariant 0 <= y <= |p|
      invariant IsBoard(m)
      invariant forall r, c :: 0 <= r < Rows && 0 <= c < Cols ==>
        m[r][c] == if CoveredBefore(p, pos, r, c, y, 0) then Block(k) else b[r][c]
    {
      var x := 0;
      while x < |p[y]|
        invariant 0 <= x <= |p[y]|
        invariant IsBoard(m)
        invariant forall r, c :: 0 <= r < Rows && 0 <= c < Cols ==>
          m[r][c] == if CoveredBefore(p, pos, r, c, y, x) then Block(k) else b[r][c]
      {
        if p[y][x] && pos.y + y >= 0 {
          m := m[pos.y + y := m[pos.y + y][pos.x + x := Block(k)]];
        }
        x := x + 1;
      }
      y := y + 1;
    }
    assert forall r, c :: 0 <= r < Rows && 0 <= c < Cols ==> m[r][c] == Place(b, p, pos, k)[r][c];
    assert forall r | 0 <= r < Rows :: m[r] == Place(b, p, pos, k)[r];
  }

  // ---------------------------------------------------------------------------
  // Clearing full rows

  /** Number of full rows. */
  function CountFull(b: Board): (n: nat)
    ensures n <= |b|
  {
    if b == [] then 0 else CountFull(b[..|b| - 1]) + (if Full(b[|b| - 1]) then 1 else 0)
  }

  /** One more empty row on top of `n` empty rows. */
  lemma BlankGrows(n: nat)
    ensures [EmptyRow()] + Blank(n) == Blank(n + 1)
  {
  }

  /** The rows that are not full, in their order. */
  function KeepRows(b: Board): (kept: Board)
    ensures |kept| + CountFull(b) == |b|
    ensures NoFullRow(kept)
    ensures forall i :: 0 <= i < |kept| ==> kept[i] in b
  {
    if b == [] then []
    else KeepRows(b[..|b| - 1]) + (if Full(b[|b| - 1]) then [] else [b[|b| - 1]])
  }

  /** Keeping rows distributes over stacking two boards. */
  lemma {:induction false} KeepRowsAppend(a: Board, c: Board)
    ensures KeepRows(a + c) == KeepRows(a) + KeepRows(c)
    decreases |c|
  {
    if c == [] {
      assert a + c == a;
    } else {
      var front := c[..|c| - 1];
      assert (a + c)[..|a + c| - 1] == a + front;
      assert (a + c)[|a + c| - 1] == c[|c| - 1];
      KeepRowsAppend(a, front);
    }
  }

  /**
   * A row that is not full is kept: it moves to the index it had less the
   * number of full rows above it.
   */
  lemma KeptRow(b: Board, r: int)
    requires 0 <= r < |b| && !Full(b[r])
    ensures r - CountFull(b[..r]) < |KeepRows(b)| && KeepRows(b)[r - CountFull(b[..r])] == b[r]
  {
    var above, rest := b[..r + 1], b[r + 1..];
    assert b == above + rest;
    assert above[..r] == b[..r];
    assert KeepRows(above) == KeepRows(b[..r]) + [b[r]];
    KeepRowsAppend(above, rest);
  }

  /** Counting full rows distributes over stacking two boards. */
  lemma {:induction false} CountFullAppend(a: Board, c: Board)
    ensures CountFull(a + c) == CountFull(a) + CountFull(c)
    decreases |c|
  {
    if c == [] {
      assert a + c == a;
    } else {
      var front := c[..|c| - 1];
      assert (a + c)[..|a + c| - 1] == a + front;
      assert (a + c)[|a + c| - 1] == c[|c| - 1];
      CountFullAppend(a, front);
    }
  }

  /** The full rows of a board are those above a kept row plus those below it. */
  lemma FullAroundRow(m: Board, r: int)
    requires 0 <= r < |m| && !Full(m[r])
    ensures CountFull(m) == CountFull(m[..r]) + CountFull(m[r + 1..])
  {
    var above, rest := m[..r + 1], m[r + 1..];
    assert m == above + rest;
    assert above[..r] == m[..r];
    CountFullAppend(above, rest);
  }

  /**
   * Clearing moves a row that is not full down by the number of full rows
   * below it, unchanged.
   */
  lemma ClearedRow(m: Board, r: int)
    requires 0 <= r < |m| && !Full(m[r])
    ensures r + CountFull(m[r + 1..]) < CountFull(m) + |KeepRows(m)|
    ensures (Blank(CountFull(m)) + KeepRows(m))[r + CountFull(m[r + 1..])] == m[r]
  {
    KeptRow(m, r);
    FullAroundRow(m, r);
    ShiftPastBlank(Blank(CountFull(m)), KeepRows(m), r, CountFull(m[..r]), CountFull(m[r + 1..]), m[r]);
  }

  /**
   * On `p + q`, with `p` as long as the full rows above and below row `r`,
   * the row `q` holds at `r` less those above sits at `r` plus those below.
   */
  lemma ShiftPastBlank(p: Board, q: Board, r: int, up: nat, down: nat, row: Row)
    requires |p| == up + down && 0 <= r - up < |q| && q[r - up] == row
    ensures r + down < |p| + |q| && (p + q)[r + down] == row
  {
  }

  /**
   * mergePiece's second step: drop the full rows, counting them, and put as
   * many empty rows on top, so the board is again Rows rows of Cols cells.
   */
  method ClearRows(m: Board) returns (cleared: Board, lines: nat)
    requires IsBoard(m)
    ensures lines == CountFull(m)
    ensures cleared == Blank(lines) + KeepRows(m)
    ensures IsBoard(cleared) && NoFullRow(cleared)
  {
    var kept: Board := [];
    lines := 0;
    var i := 0;
    while i < |m|
      invariant 0 <= i <= |m|
      invariant kept == KeepRows(m[..i]) && lines == CountFull(m[..i])
    {
      assert m[..i + 1][..i] == m[..i];
      if Full(m[i]) {
        lines := lines + 1;
      } else {
        kept := kept + [m[i]];
      }
      i := i + 1;
    }
    assert m[..i] == m;
    assert |kept| + lines == Rows;
    cleared := kept;
    ghost var pad := 0;
    while |cleared| < Rows
      invariant |cleared| == pad + |kept| <= Rows
      invariant cleared == Blank(pad) + kept
    {
      BlankGrows(pad);
      cleared := [EmptyRow()] + cleared;
      pad := pad + 1;
    }
    assert pad == lines;
    ClearedBoard(m, lines);
  }

  /** Number of indices in [0, n) that also lie in [lo, hi). */
  function Overlap(n: int, lo: int, hi: int): nat {
    var a := if lo < 0 then 0 else lo;
    var z := if n < hi then n else hi;
    if z <= a then 0 else z - a
  }

  /** When full rows only occur in [lo, hi), there are at most as many as that range has rows. */
  lemma {:induction false} FullRowsWithin(b: Board, n: nat, lo: int, hi: int)
    requires n <= |b|
    requires forall r :: 0 <= r < n && Full(b[r]) ==> lo <= r < hi
    ensures CountFull(b[..n]) <= Overlap(n, lo, hi)
  {
    if n > 0 {
      FullRowsWithin(b, n - 1, lo, hi);
      assert b[..n][..n - 1] == b[..n - 1];
    }
  }

  /** Locking a piece of `h` rows into a board without full rows fills at most `h` rows. */
  lemma LinesPerLock(b: Board, p: Shape, pos: Pos, k: Kind)
    requires IsBoard(b) && NoFullRow(b) && !Collides(p, pos, b)
    ensures CountFull(Place(b, p, pos, k)) <= |p|
  {
    var m := Place(b, p, pos, k);
    PlaceKeepsBlocks(b, p, pos, k);
    forall r | 0 <= r < Rows && Full(m[r])
      ensures pos.y <= r < pos.y + |p|
    {
    }
    FullRowsWithin(m, Rows, pos.y, pos.y + |p|);
    assert m[..Rows] == m;
  }

  // ---------------------------------------------------------------------------
  // Score, lines and level

  /** Points per lock for 0 .. 4 cleared rows, before the level factor. */
  function LinePoints(n: nat): (pts: nat)
    requires n <= 4
    ensures (pts == 0) == (n == 0)
    ensures n > 0 ==> pts >= 100 * n
  {
    [0, 100, 300, 500, 800][n]
  }

  /** Clearing more rows at once earns strictly more. */
  lemma LinePointsIncrease(a: nat, b: nat)
    requires a < b <= 4
    ensures LinePoints(a) < LinePoints(b)
  {
  }

  /** Milliseconds between gravity steps at a level. */
  function DropInterval(level: int): (ms: int)
    ensures ms >= 100
    ensures level >= 1 ==> ms <= 800
  {
    Max(100, 800 - (level - 1) * 50)
  }

  /** Higher levels never fall more slowly. */
  lemma DropIntervalMonotone(a: int, b: int)
    requires a <= b
    ensures DropInterval(b) <= DropInterval(a)
  {
  }

  /** The level after clearing `n` rows; it rises by one when the total reaches ten per level. */
  function NextLevel(lines: int, level: int, n: nat): (r: int)
    ensures level <= r <= level + 1
    ensures r == level + 1 <==> n > 0 && lines + n >= level * 10
  {
    if n > 0 && lines + n >= level * 10 then level + 1 else level
  }

  /** As at most four rows clear per lock, the level stays tied to the total: one more per ten rows. */
  lemma {:induction false} LevelTracksLines(lines: nat, level: int, n: nat)
    requires level == lines / 10 + 1 && n <= 4
    ensures NextLevel(lines, level, n) == (lines + n) / 10 + 1
    ensures level <= NextLevel(lines, level, n) <= level + 1
  {
    var q := lines / 10;
    assert 10 * q <= lines < 10 * q + 10;
    if lines + n >= 10 * q + 10 {
      assert (lines + n) / 10 == q + 1;
    } else {
      assert (lines + n) / 10 == q;
    }
  }

  /** Board, score, total of cleared rows and level, as a lock leaves them. */
  datatype Progress = Progress(board: Board, score: int, lines: int, level: int)

  /**
   * Locking piece `p` of kind `k` at `at` into board `b` with score `s`, total
   * `ln` and level `lv`: the full rows of the merged board are gone, as many
   * empty rows are on top, and they are scored at the level in force before
   * the lock.
   */
  function Locking(b: Board, p: Shape, at: Pos, k: Kind, s: int, ln: int, lv: int): (r: Progress)
    requires IsBoard(b) && NoFullRow(b) && !Collides(p, at, b) && |p| <= 4
    ensures IsBoard(r.board) && NoFullRow(r.board)
    ensures ln <= r.lines <= ln + |p|
    ensures lv >= 0 ==> r.score >= s
  {
    var m := Place(b, p, at, k);
    LinesPerLock(b, p, at, k);
    var n := CountFull(m);
    ClearedBoard(m, n);
    var score := if n > 0 then s + LinePoints(n) * lv else s;
    Progress(Blank(n) + KeepRows(m), score, ln + n, NextLevel(ln, lv, n))
  }

  /** Full rows removed and as many empty rows on top: again a board, now without full rows. */
  lemma ClearedBoard(m: Board, n: nat)
    requires IsBoard(m) && n == CountFull(m)
    ensures IsBoard(Blank(n) + KeepRows(m)) && NoFullRow(Blank(n) + KeepRows(m))
  {
    var nb := Blank(n) + KeepRows(m);
    forall r | 0 <= r < |nb|
      ensures |nb[r]| == Cols && !Full(nb[r])
    {
      if r >= n {
        assert nb[r] == KeepRows(m)[r - n];
        assert nb[r] in m;
      }
    }
  }

  /** A lock keeps the level one more than the tens of cleared rows. */
  lemma LockingKeepsLevel(b: Board, p: Shape, at: Pos, k: Kind, s: int, ln: nat, lv: int)
    requires IsBoard(b) && NoFullRow(b) && !Collides(p, at, b) && |p| <= 4
    requires lv == ln / 10 + 1
    ensures var r := Locking(b, p, at, k, s, ln, lv); r.level == r.lines / 10 + 1
  {
    LinesPerLock(b, p, at, k);
    LevelTracksLines(ln, lv, CountFull(Place(b, p, at, k)));
  }

  /**
   * mergePiece up to setBoard: merge the piece, clear the full rows and update
   * score, total and level.
   */
  method Lock(b: Board, p: Shape, at: Pos, k: Kind, s: int, ln: int, lv: int)
    returns (nb: Board, ns: int, nl: int, nlv: int)
    requires IsBoard(b) && NoFullRow(b) && !Collides(p, at, b) && |p| <= 4
    ensures Progress(nb, ns, nl, nlv) == Locking(b, p, at, k, s, ln, lv)
  {
    LinesPerLock(b, p, at, k);
    var merged := Merge(b, p, at, k);
    var cleared, linesCleared := ClearRows(merged);
    nb, ns, nl, nlv := cleared, s, ln, lv;
    if linesCleared > 0 {
      var points := LinePoints(linesCleared) * lv;
      ns := s + points;
      var newLines := ln + linesCleared;
      if newLines >= lv * 10 {
        nlv := lv + 1;
      }
      nl := newLines;
    }
  }

  /**
   * The block game's state as its hooks hold it; `turns` counts the quarter
   * turns the active piece has had since it spawned, modulo 4.
   */
  datatype State = State(board: Board, piece: Shape, kind: Kind, pos: Pos, score: int, lines: int,
                         level: int, gameOver: bool, ended: bool, turns: nat)

  /**
   * The block game's invariant: a board of Rows by Cols cells without a full
   * row, the active piece is its kind's template after `turns` quarter turns,
   * the level is one more than the tens of cleared rows, the game is over
   * exactly when it has ended, and a live piece never overlaps a block or a wall.
   */
  ghost predicate Playable(st: State) {
    && IsBoard(st.board) && NoFullRow(st.board)
    && st.turns < 4 && st.piece == RotatedN(Template(st.kind), st.turns)
    && st.score >= 0 && st.lines >= 0 && st.level == st.lines / 10 + 1
    && st.gameOver == st.ended
    && (!st.ended ==> !Collides(st.piece, st.pos, st.board))
  }

  /** The state the game mounts or restarts with, its first piece being `first`. */
  function Initial(first: Kind): (st: State)
    ensures st.score == 0 && st.lines == 0 && st.level == 1 && !st.gameOver && !st.ended
    ensures st.piece == Template(first) && st.pos == Spawn && IsBoard(st.board) && NoFullRow(st.board)
  {
    State(EmptyBoard(), Template(first), first, Spawn, 0, 0, 1, false, false, 0)
  }

  lemma InitialPlayable(first: Kind)
    ensures Playable(Initial(first))
  {
    SpawnFitsEmptyBoard(first);
  }

  /**
   * mergePiece on a live game: lock the piece, then spawn `next` at the spawn
   * position or, if it does not fit there, end the game with the old piece
   * left in place.
   */
  ghost function Merged(st: State, next: Kind): (r: State)
    requires IsBoard(st.board) && NoFullRow(st.board) && !Collides(st.piece, st.pos, st.board) && |st.piece| <= 4
    ensures IsBoard(r.board) && NoFullRow(r.board)
    ensures r.ended <==> Collides(Template(next), Spawn, r.board)
    ensures !r.ended ==> r.piece == Template(next) && r.kind == next && r.pos == Spawn && r.turns == 0
    ensures r.ended ==> r.gameOver && r.piece == st.piece && r.kind == st.kind && r.pos == st.pos
  {
    var lock := Locking(st.board, st.piece, st.pos, st.kind, st.score, st.lines, st.level);
    var locked := st.(board := lock.board, score := lock.score, lines := lock.lines, level := lock.level);
    if Collides(Template(next), Spawn, lock.board) then locked.(gameOver := true, ended := true)
    else locked.(piece := Template(next), kind := next, pos := Spawn, turns := 0, gameOver := false, ended := false)
  }

  /**
   * The state mergePiece writes, field by field, given the lock's outcome and
   * whether `next` collides at the spawn position, is Merged and is playable.
   */
  lemma MergeStep(st: State, next: Kind, nb: Board, ns: int, nl: int, nlv: int, hit: bool, r: State)
    requires Playable(st) && !st.ended
    requires Progress(nb, ns, nl, nlv) == Locking(st.board, st.piece, st.pos, st.kind, st.score, st.lines, st.level)
    requires hit <==> Collides(Template(next), Spawn, nb)
    requires r == if hit then State(nb, st.piece, st.kind, st.pos, ns, nl, nlv, true, true, st.turns)
                  else State(nb, Template(next), next, Spawn, ns, nl, nlv, false, false, 0)
    ensures r == Merged(st, next) && Playable(r)
  {
    MergedPlayable(st, next);
  }

  /** Locking a live piece, and spawning or ending after it, keeps the game playable. */
  lemma MergedPlayable(st: State, next: Kind)
    requires Playable(st) && !st.ended
    ensures Playable(Merged(st, next))
  {
    LockingKeepsLevel(st.board, st.piece, st.pos, st.kind, st.score, st.lines, st.level);
  }

  /** The position one row lower. */
  function Below(at: Pos): Pos {
    Pos(at.x, at.y + 1)
  }

  /** moveDown once its interval has passed: fall one row, or lock if that row is taken. */
  ghost function Dropped(st: State, next: Kind): (r: State)
    requires IsBoard(st.board) && NoFullRow(st.board) && !Collides(st.piece, st.pos, st.board) && |st.piece| <= 4
    ensures !Collides(st.piece, Below(st.pos), st.board) ==> r == st.(pos := Below(st.pos))
    ensures Collides(st.piece, Below(st.pos), st.board) ==> r == Merged(st, next)
  {
    if Collides(st.piece, Below(st.pos), st.board) then Merged(st, next) else st.(pos := Below(st.pos))
  }

  /** A step down keeps the game playable. */
  lemma DroppedPlayable(st: State, next: Kind)
    requires Playable(st) && !st.ended
    ensures Playable(Dropped(st, next))
  {
    if Collides(st.piece, Below(st.pos), st.board) {
      MergedPlayable(st, next);
    }
  }

  /** The state after the piece turns a quarter turn, the turn counted modulo 4. */
  ghost function Turned(st: State): (r: State)
    requires Rectangular(st.piece) && st.turns < 4
    ensures r.piece == Rotated(st.piece) && r.turns < 4
  {
    st.(piece := Rotated(st.piece), turns := if st.turns == 3 then 0 else st.turns + 1)
  }

  /** A quarter turn to a place that does not collide keeps the game playable. */
  lemma TurnedPlayable(st: State)
    requires Playable(st) && !st.ended && !Collides(Rotated(st.piece), st.pos, st.board)
    ensures Playable(Turned(st))
  {
    NextTurn(Template(st.kind), st.turns);
  }
}

/** The block game component: its state hooks and refs, and the handlers that change them. */
module TetrisComponent {
  import opened Tetris
  import Host
  import Wrappers

  /**
   * The block game's state: its hooks `board`, `currentPiece`, `currentType`,
   * `currentPos`, `score`, `lines`, `gameOver`, `level` and the refs
   * `lastMoveTime` and `gameEndedRef`.
   */
  class TetrisGame {
    var board: Board
    var piece: Shape
    var kind: Kind
    var pos: Pos
    var score: int
    var lines: int
    var level: int
    var gameOver: bool
    var ended: bool
    var lastMoveTime: int
    /** How many quarter turns the active piece has had since it spawned, modulo 4. */
    ghost var turns: nat

    ghost function Snapshot(): State
      reads this
    {
      State(board, piece, kind, pos, score, lines, level, gameOver, ended, turns)
    }

    ghost predicate Valid()
      reads this
    {
      Playable(Snapshot())
    }

    lemma PieceSize()
      requires Valid()
      ensures Rectangular(piece) && |piece| <= 4 && |piece[0]| <= 4
    {
    }

    /** The state a game is mounted with, its first piece being `first`. */
    constructor (first: Kind, now: int)
      ensures Valid()
      ensures Snapshot() == Initial(first) && lastMoveTime == now
    {
      board := EmptyBoard();
      piece, kind, pos := Template(first), first, Spawn;
      score, lines, level := 0, 0, 1;
      gameOver, ended := false, false;
      lastMoveTime := now;
      turns := 0;
      new;
      InitialPlayable(first);
    }

    /** handleRestart: a fresh game with first piece `first`, its clock starting at `now`. */
    method Restart(first: Kind, now: int)
      modifies this
      ensures Valid()
      ensures Snapshot() == Initial(first) && lastMoveTime == now
    {
      SetBoard(EmptyBoard(), 0, 0, 1);
      SetPiece(Template(first), first, Spawn, 0);
      gameOver, ended := false, false;
      lastMoveTime := now;
      InitialPlayable(first);
    }

    /** setBoard, setScore, setLines and setLevel, applied together. */
    method SetBoard(b: Board, s: int, ln: int, lv: int)
      modifies this`board, this`score, this`lines, this`level
      ensures board == b && score == s && lines == ln && level == lv
    {
      board, score, lines, level := b, s, ln, lv;
    }

    /** setCurrentPiece, setCurrentType and setCurrentPos, applied together. */
    method SetPiece(p: Shape, k: Kind, at: Pos, ghost t: nat)
      modifies this`piece, this`kind, this`pos, this`turns
      ensures piece == p && kind == k && pos == at && turns == t
    {
      piece, kind, pos, turns := p, k, at, t;
    }

    /**
     * mergePiece: lock the active piece, clear full rows, score them at the
     * level in force before the lock, then spawn `next` or, if it does not fit,
     * end the game with the cleared board already in place.
     */
    method MergePiece(next: Kind)
      requires Valid()
      modifies this
      ensures Valid()
      ensures lastMoveTime == old(lastMoveTime)
      ensures old(ended) ==> unchanged(this)
      ensures !old(ended) ==> Snapshot() == Merged(old(Snapshot()), next)
    {
      if ended {
        return;
      }
      ghost var st := Snapshot();
      PieceSize();
      var nb, ns, nl, nlv := Lock(board, piece, pos, kind, score, lines, level);
      var hit := CheckCollision(Template(next), Spawn, nb);
      SetBoard(nb, ns, nl, nlv);
      if hit {
        if !ended {
          ended := true;
          gameOver := true;
        }
      } else {
        SetPiece(Template(next), next, Spawn, 0);
      }
      MergeStep(st, next, nb, ns, nl, nlv, hit, Snapshot());
    }

    /**
     * moveDown, polled by the game loop at time `now`: nothing happens until
     * the drop interval of the level has passed since the last step; then the
     * piece falls one row, or locks (drawing `next`) if it cannot.
     */
    method MoveDown(now: int, next: Kind)
      requires Valid()
      modifies this
      ensures Valid()
      ensures old(gameOver) || old(ended) || now - old(lastMoveTime) < DropInterval(old(level)) ==>
        unchanged(this)
      ensures !old(gameOver) && !old(ended) && now - old(lastMoveTime) >= DropInterval(old(level)) ==>
        lastMoveTime == now && Snapshot() == Dropped(old(Snapshot()), next)
    {
      if gameOver || ended {
        return;
      }
      if now - lastMoveTime < DropInterval(level) {
        return;
      }
      lastMoveTime := now;
      Fall(next);
    }

    /** The step moveDown takes once its interval has passed: fall one row, or lock. */
    method Fall(next: Kind)
      requires Valid() && !ended
      modifies this
      ensures Valid() && lastMoveTime == old(lastMoveTime)
      ensures Snapshot() == Dropped(old(Snapshot()), next)
    {
      ghost var st := Snapshot();
      DroppedPlayable(st, next);
      var below := Pos(pos.x, pos.y + 1);
      var hit := CheckCollision(piece, below, board);
      if hit {
        MergePiece(next);
      } else {
        pos := below;
      }
    }

    /** moveHorizontal: shift the piece by `dx` columns unless that collides. */
    method MoveHorizontal(dx: int)
      requires Valid()
      modifies this`pos
      ensures Valid()
      ensures old(gameOver) || old(ended) ==> pos == old(pos)
      ensures !old(gameOver) && !old(ended) ==>
        pos == if Collides(piece, Pos(old(pos).x + dx, old(pos).y), board) then old(pos)
               else Pos(old(pos).x + dx, old(pos).y)
    {
      if gameOver || ended {
        return;
      }
      var shifted := Pos(pos.x + dx, pos.y);
      var hit := CheckCollision(piece, shifted, board);
      if !hit {
        pos := shifted;
      }
    }

    /** rotate: turn the piece a quarter turn in place unless the turned shape collides; there is no wall kick. */
    method Rotate()
      requires Valid()
      modifies this`piece, this`turns
      ensures Valid()
      ensures old(gameOver) || old(ended) ==> unchanged(this)
      ensures !old(gameOver) && !old(ended) ==>
        Snapshot() == if Collides(Rotated(old(piece)), pos, board) then old(Snapshot()) else Turned(old(Snapshot()))
    {
      if gameOver || ended {
        return;
      }
      PieceSize();
      var turned := Rotated(piece);
      var hit := CheckCollision(turned, pos, board);
      if !hit {
        TurnedPlayable(Snapshot());
        piece := turned;
        turns := if turns == 3 then 0 else turns + 1;
      }
    }

    /**
     * The end-of-game effect, run after each render: it reports the score only
     * when gameOver is set and gameEndedRef is not, which mergePiece never leaves.
     */
    method EndEffect() returns (report: Wrappers.Option<int>)
      requires Valid()
      modifies this`ended
      ensures Valid() && ended == old(ended)
      ensures report == Wrappers.None
    {
      var r := Host.EndEffect(Host.Flags(gameOver, ended), score);
      ended := r.0.ended;
      report := r.1;
    }
  }
}
