/**
 * The per-tick control of `main` in src/main.rs, apart from the terminal:
 * draining a batch of events, the collision that freezes the game until
 * Enter, turning, moving, and growth one tick after the food was eaten.
 *
 * `Step` states one tick as a function of the state, the events read during
 * the tick, the terminal size a restart would read, and whether the snake ate
 * food after its move; `Session.Tick` is the same tick written as the loop of
 * `main` over a `Snake` object, and is proved to agree with `Step`.
 */
module Game {
  import opened Wrappers
  import opened Snakes
  import opened Scenes

  /** The board is at most 150 columns by 40 rows, with a border 1 cell wide. */
  const MaxWidth: U16 := 150
  const MaxHeight: U16 := 40
  const BorderWidth: U16 := 1

  /** The key codes the loop tells apart; every other code is `OtherKey`. */
  datatype KeyCode = ArrowUp | ArrowDown | ArrowLeft | ArrowRight | Enter | Space | Esc | OtherKey

  /** A key press, or any other terminal event (mouse, resize, focus, paste), which is skipped. */
  datatype Event = Key(code: KeyCode) | NotKey

  /** Everything one tick reads and writes. */
  datatype World = World(body: seq<Pos>, heading: Direction, scene: Scene, endOfGame: bool, addSegment: bool)

  predicate Valid(w: World)
  {
    |w.body| >= 1 && BorderFits(w.scene)
  }

  function Min(a: U16, b: U16): U16
  {
    if a <= b then a else b
  }

  /** The reverse of each heading: the turn the loop refuses. */
  function Opposite(d: Direction): Direction
  {
    match d
    case Up => Down
    case Down => Up
    case Left => Right
    case Right => Left
  }

  /**
   * The state `main` starts from: the board is the terminal capped at
   * 150 x 40 with border 1, and a one-cell snake sits at its centre heading
   * Down; the game is not lost and no growth is pending.
   */
  function StartWorld(tw: U16, th: U16): (w: World)
    ensures w.scene.width <= MaxWidth && w.scene.width <= tw && (w.scene.width == MaxWidth || w.scene.width == tw)
    ensures w.scene.height <= MaxHeight && w.scene.height <= th && (w.scene.height == MaxHeight || w.scene.height == th)
    ensures w.scene.borderWidth == BorderWidth
    ensures w.body == [Pos(w.scene.width / 2, w.scene.height / 2)] && w.heading == Down
    ensures !w.endOfGame && !w.addSegment
    ensures tw >= 1 && th >= 1 ==> Valid(w)
  {
    var s := Scene(Min(MaxWidth, tw), Min(MaxHeight, th), BorderWidth);
    World([Pos(s.width / 2, s.height / 2)], Down, s, false, false)
  }

  /**
   * Restart re-runs `init_game` and clears `end_of_game`, but keeps the pending
   * growth flag, which the source does not reset.
   */
  function Restart(w: World, tw: U16, th: U16): (r: World)
    ensures r.body == [Pos(r.scene.width / 2, r.scene.height / 2)] && r.heading == Down
    ensures r.scene == StartWorld(tw, th).scene && !r.endOfGame
    ensures r.addSegment == w.addSegment
  {
    StartWorld(tw, th).(addSegment := w.addSegment)
  }

  /** The head is out of bounds or the body touches itself. */
  predicate Collides(w: World)
    requires Valid(w)
    ensures Collides(w) <==> !InInterior(w.scene, w.body[0]) || !Distinct(w.body)
  {
    IsSnakeOutOfBound(w.scene, w.body) || IsSnakeTouchHimself(w.body)
  }

  /** The direction an arrow key names. */
  function KeyDirection(code: KeyCode): Option<Direction>
  {
    match code
    case ArrowUp => Some(Up)
    case ArrowDown => Some(Down)
    case ArrowLeft => Some(Left)
    case ArrowRight => Some(Right)
    case _ => None
  }

  /** The direction an arrow key asks for, unless it is the reverse of `heading`. */
  function Accept(heading: Direction, code: KeyCode): (r: Option<Direction>)
    ensures r.Some? <==> KeyDirection(code).Some? && KeyDirection(code).value != Opposite(heading)
    ensures r.Some? ==> r == KeyDirection(code)
  {
    match code
    case ArrowUp => if heading != Down then Some(Up) else None
    case ArrowDown => if heading != Up then Some(Down) else None
    case ArrowLeft => if heading != Right then Some(Left) else None
    case ArrowRight => if heading != Left then Some(Right) else None
    case _ => None
  }

  function AcceptEvent(heading: Direction, e: Event): Option<Direction>
  {
    if e.Key? then Accept(heading, e.code) else None
  }

  /**
   * The drain in progress: the state, the direction kept so far, and whether a
   * pause is waiting for Space.
   */
  datatype Drain = Drain(world: World, latest: Option<Direction>, paused: bool)

  datatype Polled = Quit | Drained(drain: Drain)

  /**
   * One event of the drain. While paused every event but Space is swallowed;
   * otherwise an accepted arrow replaces the kept direction, Enter restarts a
   * lost game, Space pauses and Esc quits.
   */
  function HandleEvent(d: Drain, e: Event, tw: U16, th: U16): (r: Polled)
    ensures r.Quit? <==> !d.paused && e == Key(Esc)
    ensures r.Drained? && r.drain.world != d.world ==>
      !d.paused && e == Key(Enter) && d.world.endOfGame && r.drain.world == Restart(d.world, tw, th)
    ensures r.Drained? && r.drain.latest != d.latest ==>
      r.drain.latest.Some? && r.drain.latest.value != Opposite(d.world.heading)
  {
    if d.paused then Drained(d.(paused := e != Key(Space)))
    else match e
      case NotKey => Drained(d)
      case Key(code) =>
        match code
        case Enter => if d.world.endOfGame then Drained(d.(world := Restart(d.world, tw, th))) else Drained(d)
        case Space => Drained(d.(paused := true))
        case Esc => Quit
        case _ => Drained(d.(latest := OrElse(Accept(d.world.heading, code), d.latest)))
  }

  /**
   * The events of one tick, in order; Esc stops at once. The state is either
   * left as it was or, when the game was lost and Enter was read, restarted.
   */
  function DrainEvents(d: Drain, events: seq<Event>, tw: U16, th: U16): (r: Polled)
    requires Valid(d.world) && tw >= 1 && th >= 1
    ensures r.Drained? ==> Valid(r.drain.world)
    ensures r.Drained? ==> r.drain.world == d.world ||
                           (d.world.endOfGame && Key(Enter) in events && r.drain.world == Restart(d.world, tw, th))
    ensures r.Quit? ==> Key(Esc) in events
    decreases |events|
  {
    if events == [] then Drained(d)
    else
      assert events == [events[0]] + events[1..];
      match HandleEvent(d, events[0], tw, th)
      case Quit => Quit
      case Drained(d') => DrainEvents(d', events[1..], tw, th)
  }

  datatype Outcome = Exit | Continue(world: World)

  /**
   * One tick: drain the events; on a collision mark the game lost and leave
   * the snake alone; otherwise turn to the kept direction, move, growing if
   * the previous tick ate, and remember whether this move ate.
   */
  function Step(w: World, events: seq<Event>, tw: U16, th: U16, ateFood: bool): (r: Outcome)
    requires Valid(w) && tw >= 1 && th >= 1
    ensures r.Continue? ==> Valid(r.world)
    ensures r.Exit? ==> Key(Esc) in events
  {
    match DrainEvents(Drain(w, None, false), events, tw, th)
    case Quit => Exit
    case Drained(d) =>
      var v := d.world;
      if Collides(v) then Continue(v.(endOfGame := true))
      else
        var heading := if d.latest.Some? then d.latest.value else v.heading;
        Continue(World(Shifted(v.body, NextHead(v.body[0], heading), v.addSegment),
                       heading, v.scene, v.endOfGame, ateFood))
  }

  /** The direction kept from `events` judged against `heading`: the last one accepted. */
  function LastAccepted(heading: Direction, events: seq<Event>): Option<Direction>
    decreases |events|
  {
    if events == [] then None
    else OrElse(AcceptEvent(heading, events[|events| - 1]), LastAccepted(heading, events[..|events| - 1]))
  }

  lemma {:induction false} LastAcceptedCons(heading: Direction, e: Event, es: seq<Event>)
    ensures LastAccepted(heading, [e] + es) == OrElse(LastAccepted(heading, es), AcceptEvent(heading, e))
    decreases |es|
  {
    var all := [e] + es;
    if es == [] {
      assert all[..0] == [];
    } else {
      assert all[|all| - 1] == es[|es| - 1];
      assert all[..|all| - 1] == [e] + es[..|es| - 1];
      LastAcceptedCons(heading, e, es[..|es| - 1]);
    }
  }

  /** An arrow key equal to the reverse of the heading is never accepted. */
  lemma ReverseNeverAccepted(heading: Direction, code: KeyCode)
    ensures Accept(heading, code) != Some(Opposite(heading))
  {
  }

  /**
   * Unless a lost game meets Enter, a drain leaves the state alone, and the
   * direction it keeps is never the reverse of the heading it started with.
   */
  lemma {:induction false} DrainKeepsWorld(d: Drain, events: seq<Event>, tw: U16, th: U16)
    requires Valid(d.world) && tw >= 1 && th >= 1
    requires !d.world.endOfGame || Key(Enter) !in events
    requires d.latest != Some(Opposite(d.world.heading))
    ensures DrainEvents(d, events, tw, th).Drained? ==>
      DrainEvents(d, events, tw, th).drain.world == d.world &&
      DrainEvents(d, events, tw, th).drain.latest != Some(Opposite(d.world.heading))
    decreases |events|
  {
    if events != [] {
      assert events == [events[0]] + events[1..];
      match HandleEvent(d, events[0], tw, th)
      case Quit =>
      case Drained(d') =>
        ReverseNeverAccepted(d.world.heading, if events[0].Key? then events[0].code else OtherKey);
        assert d'.world == d.world;
        DrainKeepsWorld(d', events[1..], tw, th);
    }
  }

  /**
   * Last key wins: with no pause and no restart in the batch, the drain quits
   * iff Esc was pressed, and otherwise keeps the last accepted direction,
   * every key judged against the heading at the start of the tick.
   */
  lemma {:induction false} DrainKeepsLastAccepted(d: Drain, events: seq<Event>, tw: U16, th: U16)
    requires Valid(d.world) && tw >= 1 && th >= 1 && !d.paused
    requires Key(Space) !in events
    requires !d.world.endOfGame || Key(Enter) !in events
    ensures DrainEvents(d, events, tw, th) ==
      if Key(Esc) in events then Quit
      else Drained(d.(latest := OrElse(LastAccepted(d.world.heading, events), d.latest)))
    decreases |events|
  {
    if events != [] {
      var e, rest := events[0], events[1..];
      assert events == [e] + rest;
      if e != Key(Esc) {
        var d' := d.(latest := OrElse(AcceptEvent(d.world.heading, e), d.latest));
        assert HandleEvent(d, e, tw, th) == Drained(d');
        DrainKeepsLastAccepted(d', rest, tw, th);
        LastAcceptedCons(d.world.heading, e, rest);
      }
    }
  }

  /** A running game never turns the snake back onto itself in one tick. */
  lemma NoReversal(w: World, events: seq<Event>, tw: U16, th: U16, ateFood: bool)
    requires Valid(w) && tw >= 1 && th >= 1 && !w.endOfGame
    ensures Step(w, events, tw, th, ateFood).Continue? ==>
      Step(w, events, tw, th, ateFood).world.heading != Opposite(w.heading)
  {
    assert Opposite(w.heading) != w.heading;
    DrainKeepsWorld(Drain(w, None, false), events, tw, th);
  }

  /**
   * A collision marks the game lost and neither turns nor moves the snake;
   * a lost game stays exactly as it is until Enter.
   */
  lemma CollisionFreezes(w: World, events: seq<Event>, tw: U16, th: U16, ateFood: bool)
    requires Valid(w) && tw >= 1 && th >= 1 && Collides(w)
    requires !w.endOfGame || Key(Enter) !in events
    ensures Step(w, events, tw, th, ateFood) == Exit ||
            Step(w, events, tw, th, ateFood) == Continue(w.(endOfGame := true))
    ensures w.endOfGame ==> Step(w, events, tw, th, ateFood) in {Exit, Continue(w)}
  {
    assert Opposite(w.heading) != w.heading;
    DrainKeepsWorld(Drain(w, None, false), events, tw, th);
  }

  /**
   * Without a collision the snake moves one true unit step (the stall at
   * coordinate 0 cannot happen inside the border), grows by the flag of the
   * previous tick, and the flag becomes this tick's food result.
   */
  lemma MoveInPlay(w: World, events: seq<Event>, tw: U16, th: U16, ateFood: bool)
    requires Valid(w) && tw >= 1 && th >= 1 && !w.endOfGame && !Collides(w)
    ensures Step(w, events, tw, th, ateFood).Continue? ==>
      var w' := Step(w, events, tw, th, ateFood).world;
      && |w'.body| == |w.body| + (if w.addSegment then 1 else 0)
      && w'.body[0].x == w.body[0].x + Delta(w'.heading).0
      && w'.body[0].y == w.body[0].y + Delta(w'.heading).1
      && (forall i :: 1 <= i < |w.body| ==> w'.body[i] == w.body[i - 1])
      && w'.addSegment == ateFood && !w'.endOfGame && w'.scene == w.scene
  {
  }

  /**
   * The invariant every tick preserves, and so a property of every state the
   * loop reaches (not a description of exactly those states): a lost game is
   * one whose snake collides.
   */
  predicate Consistent(w: World)
  {
    Valid(w) && (w.endOfGame ==> Collides(w))
  }

  /** The start state satisfies `Consistent`, the invariant `StepKeepsConsistent` preserves. */
  lemma StartIsConsistent(tw: U16, th: U16)
    requires tw >= 1 && th >= 1
    ensures Consistent(StartWorld(tw, th))
  {
  }

  /** Every tick preserves `Consistent`: non-empty body, lost only when colliding. */
  lemma StepKeepsConsistent(w: World, events: seq<Event>, tw: U16, th: U16, ateFood: bool)
    requires Consistent(w) && tw >= 1 && th >= 1
    ensures Step(w, events, tw, th, ateFood).Continue? ==> Consistent(Step(w, events, tw, th, ateFood).world)
  {
  }

  /** A fresh game is not lost at once iff the terminal is at least 4 x 4. */
  lemma StartCollidesIff(tw: U16, th: U16)
    requires tw >= 1 && th >= 1
    ensures !Collides(StartWorld(tw, th)) <==> tw >= 4 && th >= 4
  {
  }

  /**
   * Enter on a lost game restarts it at the centre heading Down and the same
   * tick moves the new snake one cell down; the growth flag left from before
   * the loss still applies.
   */
  lemma EnterRestarts(w: World, tw: U16, th: U16, ateFood: bool)
    requires Valid(w) && w.endOfGame && tw >= 4 && th >= 4
    ensures
      var s := StartWorld(tw, th).scene;
      var spawn := Pos(s.width / 2, s.height / 2);
      Step(w, [Key(Enter)], tw, th, ateFood)
        == Continue(World([Pos(spawn.x, spawn.y + 1)] + (if w.addSegment then [spawn] else []),
                          Down, s, false, ateFood))
  {
  }

  /**
   * A direction accepted before Enter in the same batch survives the restart:
   * the pending direction is not reset, so the fresh snake, spawned heading
   * Down, turns Up and moves up in that very tick.
   */
  lemma DirectionSurvivesRestart(w: World, tw: U16, th: U16, ateFood: bool)
    requires Valid(w) && w.endOfGame && w.heading != Down && tw >= 4 && th >= 4
    ensures
      var s := StartWorld(tw, th).scene;
      var spawn := Pos(s.width / 2, s.height / 2);
      Step(w, [Key(ArrowUp), Key(Enter)], tw, th, ateFood)
        == Continue(World([Pos(spawn.x, spawn.y - 1)] + (if w.addSegment then [spawn] else []),
                          Up, s, false, ateFood))
  {
  }

  /** With no input a snake heading Down from (5, 5) on a 10 x 10 board is at (5, 8) after three ticks, still in play. */
  lemma ThreeTicksDown()
    ensures
      var w0 := World([Pos(5, 5)], Down, Scene(10, 10, 1), false, false);
      var w3 := World([Pos(5, 8)], Down, Scene(10, 10, 1), false, false);
      && Step(w0, [], 10, 10, false) == Continue(World([Pos(5, 6)], Down, Scene(10, 10, 1), false, false))
      && Step(Step(w0, [], 10, 10, false).world, [], 10, 10, false)
         == Continue(World([Pos(5, 7)], Down, Scene(10, 10, 1), false, false))
      && Step(Step(Step(w0, [], 10, 10, false).world, [], 10, 10, false).world, [], 10, 10, false) == Continue(w3)
      && !Collides(w3)
  {
  }

  /**
   * `init_game`: the terminal size capped at 150 x 40, border 1, and a
   * one-cell snake at the centre heading Down.
   */
  method InitGame(tw: U16, th: U16) returns (snake: Snake, scene: Scene)
    ensures fresh(snake) && snake.Valid()
    ensures World(snake.body, snake.direction, scene, false, false) == StartWorld(tw, th)
  {
    var width := Min(MaxWidth, tw);
    var height := Min(MaxHeight, th);
    snake := new Snake(width / 2, height / 2, Down);
    scene := Scene(width, height, BorderWidth);
  }

  /** The locals of `main` that outlive one pass of its loop. */
  class Session {
    var snake: Snake
    var scene: Scene
    var endOfGame: bool
    var addSegment: bool

    ghost predicate Valid()
      reads this, snake
    {
      snake.Valid() && BorderFits(scene)
    }

    ghost function State(): World
      reads this, snake
    {
      World(snake.body, snake.direction, scene, endOfGame, addSegment)
    }

    constructor (tw: U16, th: U16)
      requires tw >= 1 && th >= 1
      ensures Valid() && fresh(snake) && State() == StartWorld(tw, th)
    {
      var s, sc := InitGame(tw, th);
      snake, scene := s, sc;
      endOfGame, addSegment := false, false;
    }

    /**
     * One pass of the loop of `main`: drain the events, test for collision,
     * turn, move, and record the food result. Returns true on Esc.
     */
    method Tick(events: seq<Event>, tw: U16, th: U16, ateFood: bool) returns (quit: bool)
      requires Valid() && tw >= 1 && th >= 1
      modifies this, snake
      ensures Valid()
      ensures quit ==> Step(old(State()), events, tw, th, ateFood) == Exit
      ensures !quit ==> Step(old(State()), events, tw, th, ateFood) == Continue(State())
    {
      var latest: Option<Direction> := None;
      var paused := false;
      var i := 0;
      assert events[0..] == events;
      while i < |events|
        invariant 0 <= i <= |events|
        invariant Valid()
        invariant snake == old(snake) || fresh(snake)
        invariant DrainEvents(Drain(old(State()), None, false), events, tw, th)
               == DrainEvents(Drain(State(), latest, paused), events[i..], tw, th)
      {
        var e := events[i];
        assert events[i..][0] == e && events[i..][1..] == events[i + 1..];
        if paused {
          paused := e != Key(Space);
        } else if e.Key? {
          var current := snake.CurrentDirection();
          match e.code {
            case ArrowUp => if current != Down { latest := Some(Up); }
            case ArrowDown => if current != Up { latest := Some(Down); }
            case ArrowLeft => if current != Right { latest := Some(Left); }
            case ArrowRight => if current != Left { latest := Some(Right); }
            case Enter =>
              if endOfGame {
                snake, scene := InitGame(tw, th);
                endOfGame := false;
              }
            case Space => paused := true;
            case Esc => return true;
            case OtherKey =>
          }
        }
        i := i + 1;
      }
      assert events[i..] == [];
      var body := snake.Body();
      var duplicate := FindDuplicateTuples(body);
      if IsSnakeOutOfBound(scene, body) || duplicate.Some? {
        endOfGame := true;
        return false;
      }
      if latest.Some? {
        snake.UpdateDirection(latest.value);
      }
      snake.MoveSnake(addSegment);
      addSegment := ateFood;
      return false;
    }
  }
}
