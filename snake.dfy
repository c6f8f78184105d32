/** The grid-snake game: its one-tick move, food placement and steering rule. */
module Snake {
  import Host
  import Wrappers

  /** Side of the square field, in cells; valid coordinates are 0 .. GridSize - 1. */
  const GridSize: int := 15
  /** generateFood draws at most this many cells. */
  const MaxAttempts: nat := 100
  /** Points for eating one piece of food. */
  const FoodPoints: int := 50

  datatype Cell = Cell(x: int, y: int)

  datatype Direction = Up | Down | Left | Right

  /** The one-segment snake a game starts (and restarts) with. */
  const StartCell: Cell := Cell(10, 10)
  /** The food a game starts (and restarts) with; it lies outside the field. */
  const InitialFood: Cell := Cell(15, 15)

  predicate InBounds(c: Cell) {
    0 <= c.x < GridSize && 0 <= c.y < GridSize
  }

  predicate AllInBounds(body: seq<Cell>) {
    forall i :: 0 <= i < |body| ==> InBounds(body[i])
  }

  /** No two segments share a cell. */
  predicate Distinct(body: seq<Cell>) {
    forall i, j :: 0 <= i < j < |body| ==> body[i] != body[j]
  }

  function Opposite(d: Direction): (r: Direction)
    ensures r != d
  {
    match d
    case Up => Down
    case Down => Up
    case Left => Right
    case Right => Left
  }

  /** The cell next to `c` in direction `d`; y grows downwards. */
  function Step(c: Cell, d: Direction): Cell {
    match d
    case Up => Cell(c.x, c.y - 1)
    case Down => Cell(c.x, c.y + 1)
    case Left => Cell(c.x - 1, c.y)
    case Right => Cell(c.x + 1, c.y)
  }

  /** Stepping back undoes a step, so a reversal runs the head into the segment behind it. */
  lemma StepBack(c: Cell, d: Direction)
    ensures Step(Step(c, d), Opposite(d)) == c
    ensures Step(c, d) != c
  {
  }

  /**
   * The arrow-button rule: a requested direction replaces the buffered one
   * unless it is the reverse of the direction last applied by a tick.
   */
  function AcceptTurn(direction: Direction, next: Direction, requested: Direction): (r: Direction)
    ensures requested != Opposite(direction) ==> r == requested
    ensures requested == Opposite(direction) ==> r == next
    ensures next != Opposite(direction) ==> r != Opposite(direction)
  {
    if requested != Opposite(direction) then requested else next
  }

  // ---------------------------------------------------------------------------
  // Food placement

  /** One value of the random source, the exact fraction num / den. */
  datatype Fraction = Fraction(num: nat, den: nat)

  /** A fraction in [0, 1), which is what the random source yields. */
  type Unit = f: Fraction | f.num < f.den witness Fraction(0, 1)

  lemma ScaleBelow(u: Unit)
    ensures 0 <= u.num * GridSize / u.den < GridSize
  {
    var a, q := u.num * GridSize, u.num * GridSize / u.den;
    assert u.den * q + a % u.den == a;
    assert u.den * q < u.den * GridSize;
    assert u.den * (GridSize - q) > 0;
  }

  /** The cell coordinate floor(u * GridSize) that a random value selects. */
  function Scale(u: Unit): (r: int)
    ensures 0 <= r < GridSize
  {
    ScaleBelow(u);
    u.num * GridSize / u.den
  }

  /** The cell drawn by attempt `k` (from 0): the x draw, then the y draw. */
  function Sample(rnd: nat -> Unit, k: nat): (c: Cell)
    ensures InBounds(c)
  {
    Cell(Scale(rnd(2 * k)), Scale(rnd(2 * k + 1)))
  }

  /**
   * How many cells are drawn when the first `k` draws all hit the body: the
   * draws go on while a draw hits the body and fewer than MaxAttempts were made.
   */
  function Attempts(body: seq<Cell>, rnd: nat -> Unit, k: nat): (n: nat)
    requires k < MaxAttempts
    ensures k < n <= MaxAttempts
    ensures forall j :: k <= j < n - 1 ==> Sample(rnd, j) in body
    ensures n < MaxAttempts ==> Sample(rnd, n - 1) !in body
    decreases MaxAttempts - k
  {
    if k + 1 == MaxAttempts || Sample(rnd, k) !in body then k + 1
    else Attempts(body, rnd, k + 1)
  }

  /** The cell generateFood settles on: the last one drawn. */
  function FoodFor(body: seq<Cell>, rnd: nat -> Unit): (c: Cell)
    ensures InBounds(c)
    ensures Attempts(body, rnd, 0) < MaxAttempts ==> c !in body
  {
    Sample(rnd, Attempts(body, rnd, 0) - 1)
  }

  /**
   * generateFood: draw cells until one misses `body`, giving up after
   * MaxAttempts draws and then keeping the last one even if it hits.
   */
  method GenerateFood(body: seq<Cell>, rnd: nat -> Unit) returns (food: Cell)
    ensures food == FoodFor(body, rnd)
    ensures InBounds(food)
    ensures Attempts(body, rnd, 0) < MaxAttempts ==> food !in body
  {
    var attempts := 0;
    food := Sample(rnd, attempts);
    attempts := attempts + 1;
    while attempts < MaxAttempts && food in body
      invariant 1 <= attempts <= MaxAttempts
      invariant food == Sample(rnd, attempts - 1)
      invariant Attempts(body, rnd, 0) == Attempts(body, rnd, attempts - 1)
    {
      food := Sample(rnd, attempts);
      attempts := attempts + 1;
    }
  }

  /** Example: the new food avoids the old body only, so it can land on the new head. */
  lemma FoodCanLandOnNewHead()
    ensures var rnd := (i: nat) => if i % 2 == 0 then Fraction(11, 15) else Fraction(10, 15);
            FoodFor([StartCell], rnd) == Step(StartCell, Right)
  {
    var rnd := (i: nat) => if i % 2 == 0 then Fraction(11, 15) else Fraction(10, 15);
    assert Sample(rnd, 0) == Cell(11, 10);
    assert Attempts([StartCell], rnd, 0) == 1;
  }

  // ---------------------------------------------------------------------------
  // One tick

  /** The head a tick in direction `d` moves to. */
  function NewHead(body: seq<Cell>, d: Direction): Cell
    requires |body| > 0
  {
    Step(body[0], d)
  }

  /** A tick ends the game: the new head leaves the field or meets a segment, the tail included. */
  predicate Crashes(body: seq<Cell>, d: Direction)
    requires |body| > 0
  {
    !InBounds(NewHead(body, d)) || NewHead(body, d) in body
  }

  /** Adding a fresh head and dropping the tail keep a body on the field and free of repeats. */
  lemma {:induction false} MovedBodyValid(body: seq<Cell>, head: Cell)
    requires |body| > 0 && AllInBounds(body) && Distinct(body)
    requires InBounds(head) && head !in body
    ensures AllInBounds([head] + body) && Distinct([head] + body)
    ensures AllInBounds([head] + body[..|body| - 1]) && Distinct([head] + body[..|body| - 1])
  {
    var grown := [head] + body;
    forall i, j | 0 <= i < j < |grown| ensures grown[i] != grown[j] {
      if i == 0 {
        assert grown[j] == body[j - 1];
      } else {
        assert grown[i] == body[i - 1] && grown[j] == body[j - 1];
      }
    }
    var moved := [head] + body[..|body| - 1];
    assert moved == grown[..|grown| - 1];
  }

  /**
   * moveSnake: one tick of the snake in direction `dir`. A crash leaves body,
   * score and food as they were; otherwise the head is added, and the tail is
   * dropped unless the head lands on the food, which scores and places new
   * food away from the body as it was before the move.
   */
  method MoveSnake(body: seq<Cell>, food: Cell, score: int, dir: Direction, rnd: nat -> Unit)
    returns (newBody: seq<Cell>, newScore: int, newFood: Cell, crashed: bool)
    requires |body| > 0
    ensures crashed <==> Crashes(body, dir)
    ensures crashed ==> newBody == body && newScore == score && newFood == food
    ensures !crashed && NewHead(body, dir) == food ==>
      newBody == [food] + body && newScore == score + FoodPoints && newFood == FoodFor(body, rnd)
    ensures !crashed && NewHead(body, dir) != food ==>
      newBody == [NewHead(body, dir)] + body[..|body| - 1] && newScore == score && newFood == food
    ensures !crashed ==> |newBody| > 0 && newBody[0] == NewHead(body, dir) && InBounds(newBody[0])
    ensures !crashed ==> (|newBody| == |body| + 1 <==> NewHead(body, dir) == food)
    ensures !crashed ==> (|newBody| == |body| <==> NewHead(body, dir) != food)
    ensures AllInBounds(body) && Distinct(body) ==> AllInBounds(newBody) && Distinct(newBody)
  {
    var head := Step(body[0], dir);
    if !InBounds(head) {
      return body, score, food, true;
    }
    var i := 0;
    while i < |body|
      invariant 0 <= i <= |body|
      invariant head !in body[..i]
    {
      if body[i] == head {
        return body, score, food, true;
      }
      i := i + 1;
    }
    assert body[..i] == body;
    if AllInBounds(body) && Distinct(body) {
      MovedBodyValid(body, head);
    }
    newBody := [head] + body;
    if head == food {
      newScore := score + FoodPoints;
      newFood := GenerateFood(body, rnd);
    } else {
      newBody := newBody[..|newBody| - 1];
      assert newBody == [head] + body[..|body| - 1];
      newScore, newFood := score, food;
    }
    crashed := false;
  }

  /**
   * The first food drawn the way every later one is: on the field, and off the
   * starting snake unless all MaxAttempts draws hit it.
   */
  method FirstFood(rnd: nat -> Unit) returns (f: Cell)
    ensures InBounds(f) && f == FoodFor([StartCell], rnd)
    ensures Attempts([StartCell], rnd, 0) < MaxAttempts ==> f != StartCell
  {
    f := GenerateFood([StartCell], rnd);
  }

  /** No move that stays on the field reaches the initial food. */
  lemma InitialFoodUnreachable(body: seq<Cell>, d: Direction)
    requires |body| > 0
    ensures !Crashes(body, d) ==> NewHead(body, d) != InitialFood
  {
  }

  // ---------------------------------------------------------------------------
  // The game component

  /** The snake game's state: its hooks `snake`, `food`, `direction`, `nextDirection`, `gameOver`, `score` and the ref `gameEndedRef`. */
  class SnakeGame {
    var body: seq<Cell>
    var food: Cell
    var direction: Direction
    var nextDirection: Direction
    var gameOver: bool
    var score: int
    var ended: bool

    ghost predicate Valid()
      reads this
    {
      && |body| > 0
      && AllInBounds(body)
      && Distinct(body)
      && nextDirection != Opposite(direction)
      && gameOver == ended
      && score == FoodPoints * (|body| - 1)
      && (food == InitialFood || InBounds(food))
      && (food == InitialFood ==> |body| == 1)
    }

    /** The state a game is mounted with. */
    constructor ()
      ensures Valid()
      ensures body == [StartCell] && food == InitialFood
      ensures direction == Right && nextDirection == Right
      ensures !gameOver && !ended && score == 0
    {
      body := [StartCell];
      food := InitialFood;
      direction, nextDirection := Right, Right;
      gameOver, ended := false, false;
      score := 0;
    }

    /** A start whose first food is drawn on the field, away from the starting snake. */
    constructor Start(rnd: nat -> Unit)
      ensures Valid()
      ensures body == [StartCell] && food == FoodFor([StartCell], rnd) && InBounds(food)
      ensures Attempts([StartCell], rnd, 0) < MaxAttempts ==> food != StartCell
      ensures direction == Right && nextDirection == Right
      ensures !gameOver && !ended && score == 0
    {
      var first := FirstFood(rnd);
      body := [StartCell];
      food := first;
      direction, nextDirection := Right, Right;
      gameOver, ended := false, false;
      score := 0;
    }

    /** handleRestart: back to the mounted state. */
    method Restart()
      requires Valid()
      modifies this
      ensures Valid()
      ensures body == [StartCell] && food == InitialFood
      ensures direction == Right && nextDirection == Right
      ensures !gameOver && !ended && score == 0
    {
      body := [StartCell];
      food := InitialFood;
      direction, nextDirection := Right, Right;
      gameOver, ended := false, false;
      score := 0;
    }

    /** An arrow button: buffer `requested` unless it reverses the applied direction. */
    method Turn(requested: Direction)
      requires Valid()
      modifies this`nextDirection
      ensures Valid()
      ensures nextDirection == AcceptTurn(direction, old(nextDirection), requested)
      ensures nextDirection != Opposite(direction)
    {
      if direction != Opposite(requested) {
        nextDirection := requested;
      }
    }

    /**
     * One firing of the tick interval. A finished game does not tick; otherwise
     * the buffered direction is applied and the snake moves or crashes.
     */
    method Tick(rnd: nat -> Unit)
      requires Valid()
      modifies this
      ensures Valid()
      ensures old(gameOver) ==> unchanged(this)
      ensures !old(gameOver) ==> direction == old(nextDirection) && nextDirection == old(nextDirection)
      ensures !old(gameOver) && Crashes(old(body), old(nextDirection)) ==>
        gameOver && ended && body == old(body) && score == old(score) && food == old(food)
      ensures !old(gameOver) && !Crashes(old(body), old(nextDirection)) ==>
        var head := NewHead(old(body), old(nextDirection));
        && !gameOver && !ended
        && (head == old(food) ==>
              body == [head] + old(body) && score == old(score) + FoodPoints
              && food == FoodFor(old(body), rnd))
        && (head != old(food) ==>
              body == [head] + old(body)[..|old(body)| - 1] && score == old(score) && food == old(food))
      ensures old(food) == InitialFood ==> food == InitialFood && score == 0 && |body| == 1
    {
      if gameOver {
        return;
      }
      direction := nextDirection;
      var newBody, newScore, newFood, crashed := MoveSnake(body, food, score, nextDirection, rnd);
      if crashed {
        if !ended {
          ended := true;
          gameOver := true;
        }
      } else {
        body, score, food := newBody, newScore, newFood;
      }
    }

    /**
     * The end-of-game effect, run after each render: it reports the score only
     * when gameOver is set and gameEndedRef is not, which the tick never leaves.
     */
    method EndEffect() returns (report: Wrappers.Option<int>)
      requires Valid()
      modifies this`ended
      ensures Valid() && ended == old(ended)
      ensures report == Wrappers.None
    {
      var r := Host.EndEffect(Host.Flags(gameOver, ended), score);
      ended := r.0.ended;
      report := r.1;
    }
  }
}
