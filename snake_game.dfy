// The game as the program runs it: one object holding the arena array, the
// snake slice and the two directions, updated in place by the segment
// operations, the key handler and the tick. Every state-changing method is
// proved to leave the object in the state the pure model computes.

module SnakeGame {
  import opened SnakeModel
  import SnakeLaws

  class Game {
    var field: array2<Cell>
    var snake: seq<Point>
    var move: Move
    var prevMove: Move
    var status: Status
    /** The arena array read as a value of the model. */
    ghost var grid: Field

    ghost predicate Valid()
      reads this`field, this`grid, field
    {
      && field.Length0 == Width && field.Length1 == Height
      && FieldShaped(grid)
      && forall x, y :: 0 <= x < Width && 0 <= y < Height ==> grid[x][y] == field[x, y]
    }

    /** The whole object read as a value of the model. */
    ghost function State(): World
      reads this
    {
      World(grid, snake, move, prevMove, status)
    }

    /** Sets up the arena and the two-segment snake, then spawns the first
      * item at (spawnX, spawnY). */
    constructor (spawnX: int, spawnY: int)
      requires InGrid(Point(spawnX, spawnY))
      ensures Valid() && fresh(field)
      ensures snake == [Point(29, 15), Point(30, 15)]
      ensures move == Right && prevMove == Right && status == Running
      ensures forall x, y :: 0 <= x < Width && 0 <= y < Height ==>
        grid[x][y] == if x == spawnX && y == spawnY then Item else Road
      ensures Inv(State())
    {
      // The Go array starts out as all zeroes, which is Road.
      field := new Cell[Width, Height]((_, _) => Road);
      grid := seq(Width, _ => seq(Height, _ => Road));
      snake := [];
      move := Right;
      prevMove := Right;
      status := Running;
      new;
      for y := 0 to Height
        invariant Valid() && fresh(field)
        invariant forall i, j :: 0 <= i < Width && 0 <= j < Height ==> grid[i][j] == Road
        invariant snake == if y <= 15 then [] else [Point(29, 15), Point(30, 15)]
        invariant move == Right && prevMove == Right && status == Running
      {
        for x := 0 to Width
          invariant Valid() && fresh(field)
          invariant forall i, j :: 0 <= i < Width && 0 <= j < Height ==> grid[i][j] == Road
          invariant snake == if y < 15 || (y == 15 && x <= 29) then []
                             else if y == 15 && x == 30 then [Point(29, 15)]
                             else [Point(29, 15), Point(30, 15)]
          invariant move == Right && prevMove == Right && status == Running
        {
          if x == 29 && y == 15 {
            AppendSnake(x, y);
          } else if x == 30 && y == 15 {
            AppendSnake(x, y);
          } else {
            field[x, y] := Road;
            grid := SetCell(grid, Point(x, y), Road);
          }
        }
      }
      GenerateItem(spawnX, spawnY);
    }

    method GetHeadLocation() returns (x: int, y: int)
      requires |snake| >= 1
      ensures Point(x, y) == snake[|snake| - 1]
    {
      x, y := snake[|snake| - 1].x, snake[|snake| - 1].y;
    }

    method GetTailLocation() returns (x: int, y: int)
      requires |snake| >= 1
      ensures Point(x, y) == snake[0]
    {
      x, y := snake[0].x, snake[0].y;
    }

    /** Adds a segment at the head end. */
    method AppendSnake(x: int, y: int)
      modifies this`snake
      ensures snake == old(snake) + [Point(x, y)]
    {
      snake := snake + [Point(x, y)];
    }

    /** Takes the segment at (x, y) out of the snake and clears that cell. */
    method RemoveSnake(x: int, y: int)
      requires Valid() && InGrid(Point(x, y)) && Distinct(snake)
      modifies this`snake, this`grid, field
      ensures Valid()
      ensures snake == Remove(old(snake), Point(x, y))
      ensures grid == SetCell(old(grid), Point(x, y), Road)
    {
      var items := snake;
      var i := 0;
      while i < |items|
        invariant 0 <= i <= |items|
        invariant Point(x, y) !in items[..i] ==> snake == items
        invariant Point(x, y) in items[..i] ==> snake == Remove(items, Point(x, y))
        invariant Valid() && grid == old(grid)
      {
        if x == items[i].x && y == items[i].y {
          SnakeLaws.RemoveFirstAt(items, Point(x, y), i);
          snake := snake[..i] + snake[i + 1..];
        }
        assert items[..i + 1] == items[..i] + [items[i]];
        i := i + 1;
      }
      assert items[..i] == items;
      SetField(x, y, Road);
    }

    /** Whether some segment occupies (x, y). */
    method IsSnake(x: int, y: int) returns (found: bool)
      ensures found <==> Point(x, y) in snake
    {
      var i := 0;
      while i < |snake|
        invariant 0 <= i <= |snake|
        invariant Point(x, y) !in snake[..i]
      {
        if x == snake[i].x && y == snake[i].y {
          return true;
        }
        assert snake[..i + 1] == snake[..i] + [snake[i]];
        i := i + 1;
      }
      assert snake[..i] == snake;
      return false;
    }

    /** Marks (x, y) as holding an item, whatever was there (snake or item). */
    method GenerateItem(x: int, y: int)
      requires Valid() && InGrid(Point(x, y))
      modifies this`grid, field
      ensures Valid()
      ensures grid == SetCell(old(grid), Point(x, y), Item)
    {
      SetField(x, y, Item);
    }

    /** Writes one arena cell, keeping the value view in step. */
    method SetField(x: int, y: int, v: Cell)
      requires Valid() && InGrid(Point(x, y))
      modifies this`grid, field
      ensures Valid()
      ensures grid == SetCell(old(grid), Point(x, y), v)
    {
      field[x, y] := v;
      grid := SetCell(grid, Point(x, y), v);
    }

    /** Handles one terminal event. */
    method OnKeyPress(ev: Event)
      requires Valid()
      modifies this`move, this`prevMove, this`status
      ensures Valid()
      ensures State() == KeyStep(old(State()), ev)
      ensures Inv(old(State())) ==> Inv(State())
    {
      if Inv(State()) {
        SnakeLaws.KeyKeepsInv(State(), ev);
      }
      if status == Terminated {
        return;
      }
      if ev.KeyEvent? {
        prevMove := move;
        match ev.key {
        case ArrowUp => move := Up;
        case ArrowDown => move := Down;
        case ArrowLeft => move := Left;
        case ArrowRight => move := Right;
        case Esc => status := Terminated;
        case OtherKey =>
        }
      }
    }

    /** One timer tick; (spawnX, spawnY) is where a consumed item respawns. */
    method Tick(spawnX: int, spawnY: int) returns (outcome: Outcome)
      requires Valid() && Inv(State()) && InGrid(Point(spawnX, spawnY))
      modifies this`snake, this`move, this`status, this`grid, field
      ensures Valid()
      ensures TickResult(State(), outcome) == TickStep(old(State()), Point(spawnX, spawnY))
      ensures Inv(State())
    {
      SnakeLaws.TickKeepsInv(State(), Point(spawnX, spawnY));
      if status == Terminated {
        return Idle;
      }
      ghost var w := State();
      var headX, headY := GetHeadLocation();
      var tailX, tailY := GetTailLocation();
      ghost var head := Point(headX, headY);

      RemoveSnake(tailX, tailY);

      var off: bool;
      var targetX, targetY;
      match move {
      case Up =>
        off := headY - 1 < 0;
        targetX, targetY := headX, headY - 1;
      case Down =>
        off := headY + 1 >= Height;
        targetX, targetY := headX, headY + 1;
      case Left =>
        off := headX - 1 < 0;
        targetX, targetY := headX - 1, headY;
      case Right =>
        off := headX + 1 >= Width;
        targetX, targetY := headX + 1, headY;
      }
      assert off == OffGrid(head, w.move) && Point(targetX, targetY) == Target(head, w.move);
      if off {
        status := Terminated;
        return GameOver;
      }
      outcome := ResolveMove(tailX, tailY, targetX, targetY, spawnX, spawnY);
    }

    /** The part of a tick after the boundary test. */
    method ResolveMove(tailX: int, tailY: int, targetX: int, targetY: int, spawnX: int, spawnY: int)
      returns (outcome: Outcome)
      requires Valid() && InGrid(Point(targetX, targetY)) && InGrid(Point(spawnX, spawnY))
      modifies this`snake, this`move, this`grid, field
      ensures Valid()
      ensures TickResult(State(), outcome)
        == Resolve(old(State()), Point(tailX, tailY), Point(targetX, targetY), Point(spawnX, spawnY))
    {
      var hit := IsSnake(targetX, targetY);
      if hit {
        move := prevMove;
        AppendSnake(tailX, tailY);
        return Rejected;
      }

      outcome := Advanced;
      if field[targetX, targetY] == Item {
        GenerateItem(spawnX, spawnY);
        AppendSnake(tailX, tailY);
        outcome := Grew;
      }

      AppendSnake(targetX, targetY);
    }
  }
}
