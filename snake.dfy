/**
 * The snake of src/snake.rs: a non-empty body of grid cells, head first,
 * and the direction it is heading in.
 */
module Snakes {

  /** Rust's `u16`, the type of both coordinates of a cell. */
  type U16 = x: int | 0 <= x < 0x1_0000

  const U16Max: int := 0xFFFF

  datatype Direction = Up | Down | Left | Right

  /** A grid cell `(x, y)`: terminal column and row. */
  datatype Pos = Pos(x: U16, y: U16)

  /**
   * The body after the head has moved to `newHead`: every trailing segment
   * takes the cell its predecessor held before the move, and when growing the
   * cell the old tail vacated is appended.
   */
  function Shifted(body: seq<Pos>, newHead: Pos, grow: bool): (r: seq<Pos>)
    requires |body| >= 1
    ensures |r| == |body| + (if grow then 1 else 0)
    ensures r[0] == newHead
    ensures forall i :: 1 <= i < |body| ==> r[i] == body[i - 1]
    ensures grow ==> r[|body|] == body[|body| - 1]
  {
    [newHead] + body[..|body| - 1] + (if grow then [body[|body| - 1]] else [])
  }

  /**
   * The cells a move occupies: the old cells and the new head, less the old
   * tail's cell unless the snake grows.
   */
  lemma ShiftedOccupancy(body: seq<Pos>, newHead: Pos, grow: bool)
    requires |body| >= 1
    ensures grow ==> multiset(Shifted(body, newHead, grow)) == multiset(body) + multiset{newHead}
    ensures !grow ==> multiset(Shifted(body, newHead, grow)) + multiset{body[|body| - 1]}
                      == multiset(body) + multiset{newHead}
  {
    var n := |body|;
    assert body == body[..n - 1] + [body[n - 1]];
    assert multiset(body) == multiset(body[..n - 1]) + multiset{body[n - 1]};
  }

  /** Whether a `u16` head can take one step in direction `d` without overflow. */
  predicate CanMove(head: Pos, d: Direction)
  {
    (d == Right ==> head.x < U16Max) && (d == Down ==> head.y < U16Max)
  }

  /**
   * The head position `move_snake` computes: one cell in direction `d`,
   * except that Left and Up stay put at coordinate 0 instead of underflowing.
   */
  function NextHead(head: Pos, d: Direction): (r: Pos)
    requires CanMove(head, d)
    ensures r == head || (r.x == head.x && (r.y - head.y == 1 || head.y - r.y == 1))
                      || (r.y == head.y && (r.x - head.x == 1 || head.x - r.x == 1))
    ensures r == head <==> (d == Left && head.x == 0) || (d == Up && head.y == 0)
  {
    match d
    case Right => Pos(head.x + 1, head.y)
    case Left => if head.x > 0 then Pos(head.x - 1, head.y) else head
    case Up => if head.y > 0 then Pos(head.x, head.y - 1) else head
    case Down => Pos(head.x, head.y + 1)
  }

  /** The unit vector of a direction (screen rows grow downwards). */
  function Delta(d: Direction): (int, int)
  {
    match d
    case Up => (0, -1)
    case Down => (0, 1)
    case Left => (-1, 0)
    case Right => (1, 0)
  }

  /**
   * Away from coordinate 0 a move is exactly one unit step; at 0, Left and Up
   * leave the head where it is.
   */
  lemma NextHeadIsUnitStep(head: Pos, d: Direction)
    requires CanMove(head, d)
    ensures (d == Left ==> head.x > 0) && (d == Up ==> head.y > 0) ==>
      NextHead(head, d).x == head.x + Delta(d).0 && NextHead(head, d).y == head.y + Delta(d).1
    ensures (d == Left && head.x == 0) || (d == Up && head.y == 0) ==> NextHead(head, d) == head
  {
  }

  class Snake {
    var body: seq<Pos>
    var direction: Direction

    /** The body is never empty: it always holds the head. */
    ghost predicate Valid()
      reads this
    {
      |body| >= 1
    }

    constructor (startX: U16, startY: U16, direction: Direction)
      ensures Valid()
      ensures body == [Pos(startX, startY)] && this.direction == direction
    {
      body := [Pos(startX, startY)];
      this.direction := direction;
    }

    /** A copy of the body; the snake is not changed. */
    method Body() returns (b: seq<Pos>)
      ensures b == body
    {
      b := body;
    }

    method CurrentDirection() returns (d: Direction)
      ensures d == direction
    {
      d := direction;
    }

    /**
     * Puts the head on `newHead` and shifts every trailing segment into its
     * predecessor's old cell, walking the body once; when `addSegment` holds
     * the cell the old tail left is appended.
     */
    method UpdateSnake(newHead: Pos, addSegment: bool)
      requires Valid()
      modifies this
      ensures Valid() && direction == old(direction)
      ensures |body| == |old(body)| + (if addSegment then 1 else 0)
      ensures body[0] == newHead
      ensures forall i :: 1 <= i < |old(body)| ==> body[i] == old(body)[i - 1]
      ensures addSegment ==> body[|old(body)|] == old(body)[|old(body)| - 1]
      ensures body == Shifted(old(body), newHead, addSegment)
    {
      var prevPos := body[0];
      body := body[0 := newHead];
      var i := 1;
      while i < |body|
        invariant 1 <= i <= |body| == |old(body)|
        invariant body[0] == newHead && direction == old(direction)
        invariant forall k :: 1 <= k < i ==> body[k] == old(body)[k - 1]
        invariant forall k :: i <= k < |body| ==> body[k] == old(body)[k]
        invariant prevPos == old(body)[i - 1]
      {
        var currentPos := body[i];
        body := body[i := prevPos];
        prevPos := currentPos;
        i := i + 1;
      }
      if addSegment {
        AddSegmentBody(prevPos);
      }
    }

    method UpdateDirection(direction: Direction)
      modifies this
      ensures this.direction == direction && body == old(body)
    {
      this.direction := direction;
    }

    method MoveRight(addSegment: bool)
      requires Valid() && body[0].x < U16Max
      modifies this
      ensures Valid() && direction == old(direction)
      ensures body == Shifted(old(body), Pos(old(body)[0].x + 1, old(body)[0].y), addSegment)
    {
      var head := body[0];
      UpdateSnake(Pos(head.x + 1, head.y), addSegment);
    }

    method MoveLeft(addSegment: bool)
      requires Valid()
      modifies this
      ensures Valid() && direction == old(direction)
      ensures old(body)[0].x > 0 ==>
        body == Shifted(old(body), Pos(old(body)[0].x - 1, old(body)[0].y), addSegment)
      ensures old(body)[0].x == 0 ==> body == Shifted(old(body), old(body)[0], addSegment)
    {
      var head := body[0];
      var newHead := if head.x > 0 then Pos(head.x - 1, head.y) else head;
      UpdateSnake(newHead, addSegment);
    }

    method MoveUp(addSegment: bool)
      requires Valid()
      modifies this
      ensures Valid() && direction == old(direction)
      ensures old(body)[0].y > 0 ==>
        body == Shifted(old(body), Pos(old(body)[0].x, old(body)[0].y - 1), addSegment)
      ensures old(body)[0].y == 0 ==> body == Shifted(old(body), old(body)[0], addSegment)
    {
      var head := body[0];
      var newHead := if head.y > 0 then Pos(head.x, head.y - 1) else head;
      UpdateSnake(newHead, addSegment);
    }

    method MoveDown(addSegment: bool)
      requires Valid() && body[0].y < U16Max
      modifies this
      ensures Valid() && direction == old(direction)
      ensures body == Shifted(old(body), Pos(old(body)[0].x, old(body)[0].y + 1), addSegment)
    {
      var head := body[0];
      UpdateSnake(Pos(head.x, head.y + 1), addSegment);
    }

    /** One move in the current direction; the direction itself is kept. */
    method MoveSnake(addSegment: bool)
      requires Valid() && CanMove(body[0], direction)
      modifies this
      ensures Valid() && direction == old(direction)
      ensures body == Shifted(old(body), NextHead(old(body)[0], old(direction)), addSegment)
    {
      match direction
      case Right => MoveRight(addSegment);
      case Left => MoveLeft(addSegment);
      case Up => MoveUp(addSegment);
      case Down => MoveDown(addSegment);
    }

    method AddSegmentBody(pos: Pos)
      requires Valid()
      modifies this
      ensures Valid() && direction == old(direction)
      ensures body == old(body) + [pos]
    {
      body := body + [pos];
    }
  }
}
