// Pure model of the snake game's state machine: the arena, the snake body,
// the directions, and the two transitions (a timer tick and a key event).
// The class in snake_game.dfy runs the same transitions in place and is
// proved to produce exactly the values computed here.

module SnakeModel {

  const Width: int := 60
  const Height: int := 30

  /** What the arena records for a cell. */
  datatype Cell = Road | Item

  /** A direction of movement; Up decreases y, Down increases it. */
  datatype Move = Up | Down | Right | Left

  /** A cell coordinate; one snake segment is one Point. */
  datatype Point = Point(x: int, y: int)

  /** Whether the process is still running the game. */
  datatype Status = Running | Terminated

  datatype Key = ArrowUp | ArrowDown | ArrowLeft | ArrowRight | Esc | OtherKey

  /** An event delivered by the terminal: a key press or anything else. */
  datatype Event = KeyEvent(key: Key) | OtherEvent

  /** How a tick ended. Only Advanced and Grew go on to redraw the screen. */
  datatype Outcome = Idle | GameOver | Rejected | Advanced | Grew

  /** The arena, indexed field[x][y] like the Go array [60][30]int. */
  type Field = seq<seq<Cell>>

  /** The whole game state: the arena, the snake (tail first, head last),
    * the committed and previous directions, and the run status. */
  datatype World = World(field: Field, snake: seq<Point>, move: Move, prevMove: Move, status: Status)

  datatype TickResult = TickResult(world: World, outcome: Outcome)

  predicate InGrid(p: Point) {
    0 <= p.x < Width && 0 <= p.y < Height
  }

  predicate FieldShaped(f: Field) {
    |f| == Width && forall x :: 0 <= x < Width ==> |f[x]| == Height
  }

  function CellAt(f: Field, p: Point): Cell
    requires FieldShaped(f) && InGrid(p)
  {
    f[p.x][p.y]
  }

  /** The arena with cell p set to v; every other cell keeps its value. */
  function SetCell(f: Field, p: Point, v: Cell): (r: Field)
    requires FieldShaped(f) && InGrid(p)
    ensures FieldShaped(r)
    ensures forall x, y :: 0 <= x < Width && 0 <= y < Height ==>
      r[x][y] == if x == p.x && y == p.y then v else f[x][y]
  {
    f[p.x := f[p.x][p.y := v]]
  }

  predicate AllInGrid(s: seq<Point>) {
    forall i :: 0 <= i < |s| ==> InGrid(s[i])
  }

  predicate Distinct(s: seq<Point>) {
    forall i, j :: 0 <= i < j < |s| ==> s[i] != s[j]
  }

  /** The state the game keeps: a 60 x 30 arena, a snake of distinct segments
    * inside it, and at least the two starting segments while the game runs. */
  predicate Inv(w: World) {
    FieldShaped(w.field) && AllInGrid(w.snake) && Distinct(w.snake)
    && (w.status == Running ==> |w.snake| >= 2)
  }

  /** The snake with its first segment equal to c taken out. */
  function Remove(s: seq<Point>, c: Point): (r: seq<Point>)
    ensures c in s ==> |r| == |s| - 1
    ensures c !in s ==> r == s
    ensures forall d :: d != c ==> (d in r <==> d in s)
  {
    if s == [] then []
    else
      assert s == [s[0]] + s[1..];
      if s[0] == c then s[1..]
      else [s[0]] + Remove(s[1..], c)
  }

  /** The cell one step from h in direction m: one of its four neighbours. */
  function Target(h: Point, m: Move): (t: Point)
    ensures || (t.x == h.x && (t.y == h.y - 1 || t.y == h.y + 1))
            || (t.y == h.y && (t.x == h.x - 1 || t.x == h.x + 1))
  {
    match m
    case Up => Point(h.x, h.y - 1)
    case Down => Point(h.x, h.y + 1)
    case Right => Point(h.x + 1, h.y)
    case Left => Point(h.x - 1, h.y)
  }

  /** The boundary test of the tick, one comparison per direction. For a head
    * inside the arena it fires exactly when the target lies outside it. */
  predicate OffGrid(h: Point, m: Move): (off: bool)
    ensures InGrid(h) ==> (off <==> !InGrid(Target(h, m)))
  {
    match m
    case Up => h.y - 1 < 0
    case Down => h.y + 1 >= Height
    case Right => h.x + 1 >= Width
    case Left => h.x - 1 < 0
  }

  /** One timer tick. The tail is removed and its cell cleared first; then
    * the boundary test ends the game, or the move is resolved by Resolve. */
  function TickStep(w: World, spawn: Point): (r: TickResult)
    requires Inv(w) && InGrid(spawn)
    // only a tick after the end is idle, and only the boundary test ends the game
    ensures r.outcome == Idle <==> w.status == Terminated
    ensures r.world.status == Terminated <==> (w.status == Terminated || r.outcome == GameOver)
    // the previous direction is kept; a rejected move restores it
    ensures r.world.prevMove == w.prevMove
    ensures r.world.move == if r.outcome == Rejected then w.prevMove else w.move
    // growth adds one segment, the boundary loses the tail, the rest keep the length
    ensures |r.world.snake| == |w.snake| + (if r.outcome == Grew then 1 else if r.outcome == GameOver then -1 else 0)
    // a moving snake's head is the target, a rejected one's is the old tail
    ensures r.outcome in {Advanced, Grew} ==>
      r.world.snake[|r.world.snake| - 1] == Target(w.snake[|w.snake| - 1], w.move)
    ensures r.outcome == Rejected ==> r.world.snake[|r.world.snake| - 1] == w.snake[0]
    // the cell the tail leaves is Road afterwards unless the new item lands on it
    ensures FieldShaped(r.world.field)
    ensures r.outcome != Idle && !(r.outcome == Grew && spawn == w.snake[0]) ==>
      CellAt(r.world.field, w.snake[0]) == Road
  {
    if w.status == Terminated then TickResult(w, Idle)
    else
      var head := w.snake[|w.snake| - 1];
      var tail := w.snake[0];
      var cleared := w.(field := SetCell(w.field, tail, Road), snake := Remove(w.snake, tail));
      if OffGrid(head, w.move) then
        TickResult(cleared.(status := Terminated), GameOver)
      else
        Resolve(cleared, tail, Target(head, w.move), spawn)
  }

  /** The rest of a tick, once the tail is gone and the target is known to be
    * inside the arena: the self-collision test re-appends the old tail at the
    * head end and restores the previous direction; otherwise the item test
    * spawns an item at `spawn` and re-appends the old tail at the head end;
    * finally the target is appended as the new head. */
  function Resolve(w: World, tail: Point, target: Point, spawn: Point): (r: TickResult)
    requires FieldShaped(w.field) && InGrid(target) && InGrid(spawn)
    ensures r.outcome in {Rejected, Grew, Advanced}
    ensures r.outcome == Rejected <==> target in w.snake
    ensures r.outcome == Grew <==> target !in w.snake && CellAt(w.field, target) == Item
    ensures r.world.status == w.status && r.world.prevMove == w.prevMove
    ensures r.world.move == if r.outcome == Rejected then w.prevMove else w.move
    // the shortened body stays in place and one or two segments follow it
    ensures |r.world.snake| == |w.snake| + (if r.outcome == Grew then 2 else 1)
    ensures r.world.snake[..|w.snake|] == w.snake
    ensures r.world.snake[|r.world.snake| - 1] == if r.outcome == Rejected then tail else target
    ensures r.outcome == Grew ==> r.world.snake[|w.snake|] == tail
    // only growth changes the arena, by the one spawned item
    ensures r.world.field == if r.outcome == Grew then SetCell(w.field, spawn, Item) else w.field
  {
    if target in w.snake then
      TickResult(w.(snake := w.snake + [tail], move := w.prevMove), Rejected)
    else if CellAt(w.field, target) == Item then
      TickResult(w.(field := SetCell(w.field, spawn, Item), snake := w.snake + [tail] + [target]), Grew)
    else
      TickResult(w.(snake := w.snake + [target]), Advanced)
  }

  /** One terminal event. Every key records the committed direction as the
    * previous one; arrows then commit their direction and Esc ends the game. */
  function KeyStep(w: World, ev: Event): (r: World)
    ensures r.field == w.field && r.snake == w.snake
    ensures w.status == Terminated ==> r == w
    ensures r.status == Terminated <==> (w.status == Terminated || ev == KeyEvent(Esc))
  {
    if w.status == Terminated then w
    else
      match ev
      case OtherEvent => w
      case KeyEvent(k) =>
        var w1 := w.(prevMove := w.move);
        match k
        case ArrowUp => w1.(move := Up)
        case ArrowDown => w1.(move := Down)
        case ArrowLeft => w1.(move := Left)
        case ArrowRight => w1.(move := Right)
        case Esc => w1.(status := Terminated)
        case OtherKey => w1
  }
}
