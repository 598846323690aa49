// Properties of the snake model: what removing a segment does, what each
// kind of tick does to the snake, the arena and the directions, the
// invariant every tick keeps, the key-event rule, and worked scenarios.

module SnakeLaws {
  import opened SnakeModel

  // ---------------------------------------------------------------------
  // Segment removal

  /** Removing c where it first occurs at index i splices out index i. */
  lemma {:induction false} RemoveFirstAt(s: seq<Point>, c: Point, i: int)
    requires 0 <= i < |s| && s[i] == c && c !in s[..i]
    ensures Remove(s, c) == s[..i] + s[i + 1..]
  {
    if i > 0 {
      assert s[0] != c by { assert s[0] in s[..i]; }
      assert s[1..][..i - 1] == s[1..i];
      assert c !in s[1..][..i - 1] by {
        forall d | d in s[1..i] ensures d in s[..i] {
          var k :| 0 <= k < i - 1 && s[1..i][k] == d;
          assert s[..i][k + 1] == d;
        }
      }
      RemoveFirstAt(s[1..], c, i - 1);
      assert s[..i] == [s[0]] + s[1..][..i - 1];
      assert s[i + 1..] == s[1..][i - 1 + 1..];
    }
  }

  /** On a snake of distinct segments, removal takes out exactly c and
    * keeps the rest distinct (RemoveFirstAt gives their order). */
  lemma {:induction false} RemoveExact(s: seq<Point>, c: Point)
    requires Distinct(s)
    ensures Distinct(Remove(s, c))
    ensures forall d :: d in Remove(s, c) <==> d in s && d != c
  {
    if s != [] {
      assert s == [s[0]] + s[1..];
      if s[0] != c {
        RemoveExact(s[1..], c);
        var r := Remove(s[1..], c);
        assert s[0] !in r;
        assert Remove(s, c) == [s[0]] + r;
      } else {
        assert forall d :: d in s[1..] ==> d != c;
      }
    }
  }

  /** Removing the tail leaves the rest of the snake. */
  lemma RemoveTail(s: seq<Point>)
    requires |s| >= 1
    ensures Remove(s, s[0]) == s[1..]
  {
  }

  // ---------------------------------------------------------------------
  // The tick

  /** Appending a cell the snake does not cover keeps the segments distinct. */
  lemma AppendFresh(s: seq<Point>, c: Point)
    requires Distinct(s) && AllInGrid(s) && c !in s && InGrid(c)
    ensures Distinct(s + [c]) && AllInGrid(s + [c])
  {
    forall i, j | 0 <= i < j < |s + [c]|
      ensures (s + [c])[i] != (s + [c])[j]
    {
      if j == |s| {
        assert (s + [c])[i] == s[i];
      }
    }
  }

  /** Resolving the move keeps the invariant, provided the re-appended tail
    * is a cleared cell that the shortened snake (one segment or more while
    * running) no longer covers. */
  lemma ResolveKeepsInv(w: World, tail: Point, target: Point, spawn: Point)
    requires FieldShaped(w.field) && AllInGrid(w.snake) && Distinct(w.snake)
    requires w.status == Running ==> |w.snake| >= 1
    requires InGrid(tail) && tail !in w.snake && CellAt(w.field, tail) == Road
    requires InGrid(target) && InGrid(spawn)
    ensures Inv(Resolve(w, tail, target, spawn).world)
  {
    if target in w.snake {
      AppendFresh(w.snake, tail);
    } else if CellAt(w.field, target) == Item {
      AppendFresh(w.snake, tail);
      AppendFresh(w.snake + [tail], target);
    } else {
      AppendFresh(w.snake, target);
    }
  }

  /** Every tick keeps the arena shape, the bounds and the distinctness of
    * the segments; a tick that leaves the game running keeps a head. */
  lemma TickKeepsInv(w: World, spawn: Point)
    requires Inv(w) && InGrid(spawn)
    ensures Inv(TickStep(w, spawn).world)
  {
    if w.status == Running {
      var s := w.snake;
      var head := s[|s| - 1];
      RemoveTail(s);
      var cleared := w.(field := SetCell(w.field, s[0], Road), snake := s[1..]);
      assert s[0] !in s[1..];
      if !OffGrid(head, w.move) {
        ResolveKeepsInv(cleared, s[0], Target(head, w.move), spawn);
      }
    }
  }

  /** Which outcome a running tick has, in terms of the state before it.
    * The first two cases are decided before any arena lookup at the target;
    * growth needs an item at a cell that is not the vacated tail cell. */
  lemma TickOutcomeCases(w: World, spawn: Point)
    requires Inv(w) && InGrid(spawn) && w.status == Running
    ensures var s := w.snake; var head := s[|s| - 1]; var t := Target(head, w.move);
      var o := TickStep(w, spawn).outcome;
      && (o == GameOver <==> OffGrid(head, w.move))
      && (o == Rejected <==> !OffGrid(head, w.move) && t in s[1..])
      && (o == Grew <==> !OffGrid(head, w.move) && t !in s[1..] && t != s[0]
                         && InGrid(t) && CellAt(w.field, t) == Item)
      && (o == Advanced <==> !OffGrid(head, w.move) && t !in s[1..]
                             && (t == s[0] || (InGrid(t) && CellAt(w.field, t) == Road)))
      && o != Idle
  {
    var s := w.snake;
    var head := s[|s| - 1];
    RemoveTail(s);
  }

  /** A tick after the game has ended changes nothing. */
  lemma TerminatedIsAbsorbing(w: World, spawn: Point, ev: Event)
    requires Inv(w) && InGrid(spawn) && w.status == Terminated
    ensures TickStep(w, spawn) == TickResult(w, Idle)
    ensures KeyStep(w, ev) == w
  {
  }

  /** Leaving the arena ends the game; the tail has already been dropped
    * and its cell cleared, and nothing else changes. */
  lemma BoundaryEndsGame(w: World, spawn: Point)
    requires Inv(w) && InGrid(spawn) && w.status == Running
    requires OffGrid(w.snake[|w.snake| - 1], w.move)
    ensures var r := TickStep(w, spawn);
      && r.outcome == GameOver
      && r.world.status == Terminated
      && r.world.snake == w.snake[1..]
      && r.world.field == SetCell(w.field, w.snake[0], Road)
      && r.world.move == w.move && r.world.prevMove == w.prevMove
  {
    RemoveTail(w.snake);
  }

  /** Moving into a free cell without an item: the tail is dropped, the
    * target becomes the head, the length stays, no item is spawned. */
  lemma NormalAdvance(w: World, spawn: Point)
    requires Inv(w) && InGrid(spawn) && w.status == Running
    requires var head := w.snake[|w.snake| - 1]; var t := Target(head, w.move);
      && !OffGrid(head, w.move) && t !in w.snake[1..]
      && CellAt(SetCell(w.field, w.snake[0], Road), t) != Item
    ensures var t := Target(w.snake[|w.snake| - 1], w.move); var r := TickStep(w, spawn);
      && r.outcome == Advanced
      && r.world.snake == w.snake[1..] + [t]
      && |r.world.snake| == |w.snake|
      && r.world.field == SetCell(w.field, w.snake[0], Road)
      && r.world.move == w.move && r.world.prevMove == w.prevMove
      && r.world.status == Running
  {
    RemoveTail(w.snake);
  }

  /** Moving onto an item: the old tail is re-appended before the new head,
    * the snake grows by exactly one, and exactly one item is spawned. */
  lemma Growth(w: World, spawn: Point)
    requires Inv(w) && InGrid(spawn) && w.status == Running
    requires var head := w.snake[|w.snake| - 1]; var t := Target(head, w.move);
      && !OffGrid(head, w.move) && t !in w.snake[1..]
      && CellAt(SetCell(w.field, w.snake[0], Road), t) == Item
    ensures var t := Target(w.snake[|w.snake| - 1], w.move); var r := TickStep(w, spawn);
      && r.outcome == Grew
      && r.world.snake == w.snake[1..] + [w.snake[0], t]
      && |r.world.snake| == |w.snake| + 1
      && r.world.field == SetCell(SetCell(w.field, w.snake[0], Road), spawn, Item)
      && r.world.move == w.move && r.world.prevMove == w.prevMove
      && r.world.status == Running
  {
    RemoveTail(w.snake);
  }

  /** Moving into the body: the previous direction is restored and the old
    * tail is put back at the head end, so the snake covers the same cells
    * in rotated order and the old tail is the new head. */
  lemma Rejection(w: World, spawn: Point)
    requires Inv(w) && InGrid(spawn) && w.status == Running
    requires var head := w.snake[|w.snake| - 1];
      !OffGrid(head, w.move) && Target(head, w.move) in w.snake[1..]
    ensures var r := TickStep(w, spawn);
      && r.outcome == Rejected
      && r.world.move == w.prevMove && r.world.prevMove == w.prevMove
      && r.world.snake == w.snake[1..] + [w.snake[0]]
      && |r.world.snake| == |w.snake|
      && (forall p :: p in r.world.snake <==> p in w.snake)
      && r.world.snake[|r.world.snake| - 1] == w.snake[0]
      && r.world.field == SetCell(w.field, w.snake[0], Road)
      && r.world.status == Running
  {
    RemoveTail(w.snake);
    assert w.snake == [w.snake[0]] + w.snake[1..];
  }

  /** The cell the tail has just left counts as free and as Road, even if an
    * item had been spawned under the tail. */
  lemma VacatedTailIsFree(w: World, spawn: Point)
    requires Inv(w) && InGrid(spawn) && w.status == Running
    requires var head := w.snake[|w.snake| - 1];
      !OffGrid(head, w.move) && Target(head, w.move) == w.snake[0]
    ensures var r := TickStep(w, spawn);
      && r.outcome == Advanced
      && r.world.snake == w.snake[1..] + [w.snake[0]]
      && r.world.move == w.move
  {
    RemoveTail(w.snake);
    assert w.snake[0] !in w.snake[1..];
  }

  /** A tick that leaves the game running never shortens the snake. */
  lemma TickNeverShrinks(w: World, spawn: Point)
    requires Inv(w) && InGrid(spawn)
    ensures TickStep(w, spawn).world.status == Running ==>
      |TickStep(w, spawn).world.snake| >= |w.snake|
  {
    if w.status == Running {
      RemoveTail(w.snake);
    }
  }

  /** Turning straight back into the neck of a snake of three or more
    * segments is rejected; with two segments the neck is the vacated tail
    * and the snake turns around. */
  lemma ReversalIntoNeck(w: World, spawn: Point)
    requires Inv(w) && InGrid(spawn) && w.status == Running
    requires var head := w.snake[|w.snake| - 1];
      !OffGrid(head, w.move) && Target(head, w.move) == w.snake[|w.snake| - 2]
    ensures |w.snake| >= 3 ==> TickStep(w, spawn).outcome == Rejected
    ensures |w.snake| == 2 ==> TickStep(w, spawn).outcome == Advanced
  {
    RemoveTail(w.snake);
    if |w.snake| >= 3 {
      assert w.snake[1..][|w.snake| - 3] == w.snake[|w.snake| - 2];
    } else {
      VacatedTailIsFree(w, spawn);
    }
  }

  // ---------------------------------------------------------------------
  // Key events

  /** Every key first records the committed direction as the previous one;
    * arrows commit their direction, Esc ends the game, other keys and other
    * events leave the direction alone. The arena and snake never change. */
  lemma KeyEventRule(w: World, ev: Event)
    requires w.status == Running
    ensures var r := KeyStep(w, ev);
      && r.field == w.field && r.snake == w.snake
      && (ev.OtherEvent? ==> r == w)
      && (ev.KeyEvent? ==> r.prevMove == w.move)
      && (ev == KeyEvent(ArrowUp) ==> r.move == Up)
      && (ev == KeyEvent(ArrowDown) ==> r.move == Down)
      && (ev == KeyEvent(ArrowLeft) ==> r.move == Left)
      && (ev == KeyEvent(ArrowRight) ==> r.move == Right)
      && (ev == KeyEvent(Esc) || ev == KeyEvent(OtherKey) ==> r.move == w.move)
      && (r.status == Terminated <==> ev == KeyEvent(Esc))
  {
  }

  /** Of two arrow keys pressed between ticks the later one is committed,
    * and the earlier one becomes the previous direction, whatever direction
    * the snake was actually moving in. */
  lemma LatestArrowWins(w: World, first: Key, second: Key)
    requires w.status == Running
    requires first in {ArrowUp, ArrowDown, ArrowLeft, ArrowRight}
    requires second in {ArrowUp, ArrowDown, ArrowLeft, ArrowRight}
    ensures var r := KeyStep(KeyStep(w, KeyEvent(first)), KeyEvent(second));
      && r.move == KeyStep(w, KeyEvent(second)).move
      && r.prevMove == KeyStep(w, KeyEvent(first)).move
      && r.status == Running
  {
  }

  /** A key event keeps the state invariant. */
  lemma KeyKeepsInv(w: World, ev: Event)
    requires Inv(w)
    ensures Inv(KeyStep(w, ev))
  {
  }

  // ---------------------------------------------------------------------
  // Scenarios

  /** The starting snake moving right into a Road cell. */
  lemma ScenarioAdvance(f: Field, spawn: Point)
    requires FieldShaped(f) && InGrid(spawn) && CellAt(f, Point(31, 15)) == Road
    ensures var w := World(f, [Point(29, 15), Point(30, 15)], Right, Right, Running);
      var r := TickStep(w, spawn);
      r.outcome == Advanced && r.world.snake == [Point(30, 15), Point(31, 15)]
  {
  }

  /** The starting snake moving right onto an item: the old tail goes
    * between the old head and the new head, and the eaten item stays. */
  lemma ScenarioGrowth(f: Field, spawn: Point)
    requires FieldShaped(f) && InGrid(spawn) && CellAt(f, Point(31, 15)) == Item
    ensures var w := World(f, [Point(29, 15), Point(30, 15)], Right, Right, Running);
      var r := TickStep(w, spawn);
      && r.outcome == Grew
      && r.world.snake == [Point(30, 15), Point(29, 15), Point(31, 15)]
      && CellAt(r.world.field, spawn) == Item
      && CellAt(r.world.field, Point(31, 15)) == Item
  {
  }

  /** A head on the left edge moving left ends the game. */
  lemma ScenarioLeftEdge(f: Field, spawn: Point)
    requires FieldShaped(f) && InGrid(spawn)
    ensures var w := World(f, [Point(1, 15), Point(0, 15)], Left, Left, Running);
      TickStep(w, spawn).world.status == Terminated
  {
  }

  /** A three-segment snake moving right, then Left pressed: the tick is
    * rejected, the direction goes back to Right, and the old tail
    * (10, 15) becomes the head. */
  lemma ScenarioReversal(f: Field, spawn: Point)
    requires FieldShaped(f) && InGrid(spawn)
    ensures var w := World(f, [Point(10, 15), Point(11, 15), Point(12, 15)], Right, Right, Running);
      var r := TickStep(KeyStep(w, KeyEvent(ArrowLeft)), spawn);
      && r.outcome == Rejected
      && r.world.move == Right
      && r.world.snake == [Point(11, 15), Point(12, 15), Point(10, 15)]
  {
    var s := [Point(10, 15), Point(11, 15), Point(12, 15)];
    var w1 := KeyStep(World(f, s, Right, Right, Running), KeyEvent(ArrowLeft));
    assert w1 == World(f, s, Left, Right, Running);
    assert s[1..] == [Point(11, 15), Point(12, 15)];
    assert Target(s[2], Left) in s[1..];
    RemoveTail(s);
  }
}
