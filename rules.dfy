/** The rules of the game as functions on a snapshot of its state: one
    animation tick, one paddle move, the end-of-game verdict and the row cap.
    The Game class in module BrickGame is proved to follow them. */
module Rules {
  import opened Geometry
  import opened Bricks

  const MAX_ROWS := 7
  const POINTS_PER_BRICK := 50
  const PADDLE_STEP := 15
  const BALL_START := Box(170, 225, 185, 240)
  const PADDLE_START := Box(165, 250, 235, 260)
  const START_VELX := -5
  const START_VELY := -7

  /** The status label: 'Ready to start', 'In progress', 'Victory!', 'Game Over!'. */
  datatype Status = Ready | InProgress | Victory | GameOver

  /** The key symbols the key handler tells apart. */
  datatype Key = Left | Right | OtherKey

  /** What a canvas item is; items are told apart by id in the game, here by kind. */
  datatype ItemKind = BrickItem | BallItem | PlayerItem
  datatype Item = Item(kind: ItemKind, box: Box)

  /** A snapshot of everything the rules read and write. */
  datatype World = World(
    rows: int,
    ball: Box,
    velx: int,
    vely: int,
    paddle: Box,
    bricks: seq<Box>,
    score: int,
    status: Status)

  /** The row count the game is created with: the size argument, capped at 7. */
  function CapRows(size: int): (rows: int)
    ensures rows <= MAX_ROWS && rows <= size
    ensures rows == size || rows == MAX_ROWS
  {
    if size < MAX_ROWS then size else MAX_ROWS
  }

  /** The state right after the layout part of start, before its first tick. */
  function Initial(rows: int): World
  {
    World(rows, BALL_START, START_VELX, START_VELY, PADDLE_START, Grid(rows), 0, InProgress)
  }

  /** The end-of-game verdict: Victory exactly when the score is 50 * 8 * rows. */
  function Verdict(score: int, rows: int): (s: Status)
    ensures s == Victory || s == GameOver
  {
    if score == POINTS_PER_BRICK * COLUMNS * rows then Victory else GameOver
  }

  /** The items the canvas reports overlapping the ball, in stacking order:
      the overlapping bricks, the ball itself, and the paddle if it overlaps. */
  function FindOverlapping(bricks: seq<Box>, ball: Box, paddle: Box): (r: seq<Item>)
    ensures Item(BallItem, ball) in r
    ensures Item(PlayerItem, paddle) in r <==> Overlaps(paddle, ball)
  {
    BrickItems(Hits(bricks, ball))
      + [Item(BallItem, ball)]
      + (if Overlaps(paddle, ball) then [Item(PlayerItem, paddle)] else [])
  }

  function BrickItems(h: seq<Box>): seq<Item>
  {
    seq(|h|, k requires 0 <= k < |h| => Item(BrickItem, h[k]))
  }

  /** The number of bricks among the items. */
  function BrickCount(items: seq<Item>): nat
  {
    if items == [] then 0
    else BrickCount(items[..|items| - 1]) + (if items[|items| - 1].kind == BrickItem then 1 else 0)
  }

  /** The boxes of the bricks among the items. */
  function BrickBoxesIn(items: seq<Item>): set<Box>
  {
    if items == [] then {}
    else
      var last := items[|items| - 1];
      BrickBoxesIn(items[..|items| - 1]) + (if last.kind == BrickItem then {last.box} else {})
  }

  /** The number of items the ball side-hits. */
  function SideHitCount(items: seq<Item>, ball: Box): nat
  {
    if items == [] then 0
    else SideHitCount(items[..|items| - 1], ball) + (if SideHit(ball, items[|items| - 1].box) then 1 else 0)
  }

  /** v negated n times. */
  function Flip(v: int, n: nat): int
  {
    if n % 2 == 0 then v else -v
  }

  /** One more negation flips the sign once more. */
  lemma FlipNext(v: int, n: nat)
    ensures Flip(v, n + 1) == -Flip(v, n)
  {
  }

  predicate WallHit(ball: Box, width: int)
  {
    ball.x0 < 0 || ball.x1 > width
  }

  /** The ball is entirely below the canvas or entirely above it. */
  predicate OffScreen(ball: Box, height: int)
  {
    ball.y0 > height || ball.y1 < 0
  }

  /** The collision phase of a tick, for a world whose ball has already
      moved: if anything besides the ball overlaps it, delete and score every
      overlapping brick, negate both velocity components once per side-hit
      item, and then negate the vertical one once more. */
  function Collision(w: World): (r: World)
    ensures r.rows == w.rows && r.ball == w.ball && r.paddle == w.paddle && r.status == w.status
    ensures r.score >= w.score
  {
    var overlap := FindOverlapping(w.bricks, w.ball, w.paddle);
    if |overlap| > 1 then
      var flips := SideHitCount(overlap, w.ball);
      w.(velx := Flip(w.velx, flips),
         vely := -Flip(w.vely, flips),
         bricks := FilterOut(w.bricks, BrickBoxesIn(overlap)),
         score := w.score + POINTS_PER_BRICK * BrickCount(overlap))
    else
      w
  }

  /** The end of a tick: bounce off the side walls, and end the game with
      its verdict when the ball has left the canvas vertically. */
  function Walls(w: World, width: int, height: int): (r: World)
    ensures r == w.(velx := r.velx, status := r.status)
    ensures r.velx == w.velx || r.velx == -w.velx
    ensures !OffScreen(w.ball, height) ==> r.status == w.status
  {
    w.(velx := if WallHit(w.ball, width) then -w.velx else w.velx,
       status := if OffScreen(w.ball, height) then Verdict(w.score, w.rows) else w.status)
  }

  /** One animation tick on a canvas of the given size: move the ball by the
      velocity, resolve collisions, then walls and the end test. */
  function Step(w: World, width: int, height: int): (r: World)
    ensures r.rows == w.rows && r.paddle == w.paddle && r.ball == Translate(w.ball, w.velx, w.vely)
    ensures r.score >= w.score
  {
    Walls(Collision(w.(ball := Translate(w.ball, w.velx, w.vely))), width, height)
  }

  /** One key press: Left moves the paddle 15 to the left when its left edge
      is right of 0, Right moves it 15 to the right when its right edge is
      left of `width`; the test is on the position before the move. */
  function MovePaddle(p: Box, key: Key, width: int): (q: Box)
    ensures q.y0 == p.y0 && q.y1 == p.y1 && q.x1 - q.x0 == p.x1 - p.x0
    ensures q.x0 == p.x0 || q.x0 == p.x0 - PADDLE_STEP || q.x0 == p.x0 + PADDLE_STEP
  {
    if key == Left && p.x0 > 0 then Translate(p, -PADDLE_STEP, 0)
    else if key == Right && p.x1 < width then Translate(p, PADDLE_STEP, 0)
    else p
  }

  /** Inputs the game receives: a timer tick (with the canvas size it reads)
      or a key press (with the canvas width recorded at the last tick). */
  datatype Event = Clock(width: int, height: int) | Press(key: Key, width: int)

  function Apply(w: World, e: Event): World
  {
    match e
    case Clock(width, height) => Step(w, width, height)
    case Press(key, width) => w.(paddle := MovePaddle(w.paddle, key, width))
  }

  function Run(w: World, events: seq<Event>): World
    decreases |events|
  {
    if events == [] then w else Run(Apply(w, events[0]), events[1..])
  }

  // ---------------------------------------------------------------------
  // Invariants

  /** The paddle keeps its start height and size, and its left edge stays on
      the 15-unit lattice it starts on, never left of 0. */
  ghost predicate PaddleInv(p: Box)
  {
    p.y0 == 250 && p.y1 == 260 && p.x1 == p.x0 + 70 && p.x0 >= 0 && p.x0 % PADDLE_STEP == 0
  }

  /** The ball stays 15 x 15 and each velocity component keeps its magnitude. */
  ghost predicate BallInv(ball: Box, velx: int, vely: int)
  {
    && (velx == 5 || velx == -5)
    && (vely == 7 || vely == -7)
    && ball.x1 == ball.x0 + 15 && ball.y1 == ball.y0 + 15
  }

  /** The live bricks are distinct grid bricks and the score is 50 for each
      grid brick no longer live; the grid holds 8 * rows bricks (GridSize). */
  ghost predicate FieldInv(rows: int, bricks: seq<Box>, score: int)
  {
    && (forall b :: b in bricks ==> b in Grid(rows))
    && NoDup(bricks)
    && |bricks| <= COLUMNS * Max0(rows)
    && score == POINTS_PER_BRICK * (COLUMNS * Max0(rows) - |bricks|)
  }

  /** What holds of every started game. */
  ghost predicate Inv(w: World)
  {
    && BallInv(w.ball, w.velx, w.vely)
    && PaddleInv(w.paddle)
    && FieldInv(w.rows, w.bricks, w.score)
    && w.status != Ready
  }

  // ---------------------------------------------------------------------
  // The overlap list

  lemma {:induction false} CountersAppend(a: seq<Item>, b: seq<Item>)
    ensures BrickCount(a + b) == BrickCount(a) + BrickCount(b)
    ensures BrickBoxesIn(a + b) == BrickBoxesIn(a) + BrickBoxesIn(b)
    decreases |b|
  {
    if b == [] {
      assert a + b == a;
    } else {
      var b' := b[..|b| - 1];
      assert (a + b)[..|a + b| - 1] == a + b';
      CountersAppend(a, b');
    }
  }

  lemma {:induction false} BrickItemsCounters(h: seq<Box>)
    ensures BrickCount(BrickItems(h)) == |h|
    ensures forall x :: x in BrickBoxesIn(BrickItems(h)) <==> x in h
    decreases |h|
  {
    if h != [] {
      var h' := h[..|h| - 1];
      assert BrickItems(h)[..|h| - 1] == BrickItems(h');
      BrickItemsCounters(h');
      assert h == h' + [h[|h| - 1]];
    }
  }

  /** The bricks among the overlapping items are exactly the live bricks
      that overlap the ball, each once. */
  lemma OverlapBricks(bricks: seq<Box>, ball: Box, paddle: Box)
    ensures BrickCount(FindOverlapping(bricks, ball, paddle)) == |Hits(bricks, ball)|
    ensures forall x :: x in BrickBoxesIn(FindOverlapping(bricks, ball, paddle))
                        <==> x in bricks && Overlaps(x, ball)
  {
    var h := Hits(bricks, ball);
    var self := [Item(BallItem, ball)];
    var pad := if Overlaps(paddle, ball) then [Item(PlayerItem, paddle)] else [];
    CountersAppend(BrickItems(h), self);
    CountersAppend(BrickItems(h) + self, pad);
    BrickItemsCounters(h);
    assert self[..0] == [];
    assert pad != [] ==> pad[..0] == [];
    forall x
      ensures x in BrickBoxesIn(FindOverlapping(bricks, ball, paddle)) <==> x in bricks && Overlaps(x, ball)
    {
      HitsMembers(bricks, ball, x);
    }
  }

  /** The list holds more than the ball itself exactly when some live brick
      or the paddle overlaps the ball. */
  lemma OverlapGuard(bricks: seq<Box>, ball: Box, paddle: Box)
    ensures |FindOverlapping(bricks, ball, paddle)| > 1
            <==> (exists b :: b in bricks && Overlaps(b, ball)) || Overlaps(paddle, ball)
  {
    HitsEmpty(bricks, ball);
  }

  // ---------------------------------------------------------------------
  // One tick

  /** A tick removes exactly the live bricks the moved ball overlaps, scores
      50 for each of them, and leaves the paddle and the row count alone; a
      brick that is gone stays gone. */
  lemma StepBricks(w: World, width: int, height: int)
    ensures var moved := Translate(w.ball, w.velx, w.vely);
            forall b :: b in Step(w, width, height).bricks <==> b in w.bricks && !Overlaps(b, moved)
    ensures Step(w, width, height).score
            == w.score + POINTS_PER_BRICK * (|w.bricks| - |Step(w, width, height).bricks|)
    ensures Step(w, width, height).paddle == w.paddle && Step(w, width, height).rows == w.rows
  {
    var moved := Translate(w.ball, w.velx, w.vely);
    var overlap := FindOverlapping(w.bricks, moved, w.paddle);
    OverlapBricks(w.bricks, moved, w.paddle);
    OverlapGuard(w.bricks, moved, w.paddle);
    HitsRemainingSplit(w.bricks, moved);
    HitsEmpty(w.bricks, moved);
    if |overlap| > 1 {
      FilterOutOverlapping(w.bricks, BrickBoxesIn(overlap), moved);
      forall b
        ensures b in Step(w, width, height).bricks <==> b in w.bricks && !Overlaps(b, moved)
      {
        FilterOutMembers(w.bricks, BrickBoxesIn(overlap), b);
      }
    }
  }

  /** The bounce rule. The vertical velocity ends up negated exactly when
      there was contact and an even number of items were side-hit, and is
      kept otherwise; the horizontal one is negated by an odd number of side
      hits, and again by a wall. */
  lemma StepVelocity(w: World, width: int, height: int)
    requires w.velx != 0 && w.vely != 0
    ensures var moved := Translate(w.ball, w.velx, w.vely);
            var contact := (exists b :: b in w.bricks && Overlaps(b, moved)) || Overlaps(w.paddle, moved);
            var odd := contact && SideHitCount(FindOverlapping(w.bricks, moved, w.paddle), moved) % 2 == 1;
            && (Step(w, width, height).vely == w.vely <==> !contact || odd)
            && (Step(w, width, height).vely == -w.vely <==> contact && !odd)
            && (Step(w, width, height).vely == w.vely || Step(w, width, height).vely == -w.vely)
            && (Step(w, width, height).velx == -w.velx <==> odd != WallHit(moved, width))
            && (Step(w, width, height).velx == w.velx || Step(w, width, height).velx == -w.velx)
  {
    var moved := Translate(w.ball, w.velx, w.vely);
    OverlapGuard(w.bricks, moved, w.paddle);
  }

  /** A tick of a game in progress ends it exactly when the moved ball is
      entirely above or below the canvas, and then with the verdict on the
      new score. */
  lemma StepEnds(w: World, width: int, height: int)
    requires w.status == InProgress
    ensures var moved := Translate(w.ball, w.velx, w.vely);
            && (Step(w, width, height).status == InProgress <==> !(moved.y0 > height || moved.y1 < 0))
            && (Step(w, width, height).status != InProgress
                ==> Step(w, width, height).status == Verdict(Step(w, width, height).score, w.rows))
  {
  }

  /** The laid-out grid satisfies the invariant. */
  lemma InitialInv(rows: int)
    ensures Inv(Initial(rows))
  {
    GridNoDup(rows);
    GridSize(rows);
  }

  /** A tick preserves the invariant: the ball stays 15 x 15, each velocity
      component keeps its magnitude, and the score stays 50 times the number
      of grid bricks no longer live. */
  lemma StepPreservesInv(w: World, width: int, height: int)
    requires Inv(w)
    ensures Inv(Step(w, width, height))
  {
    var w' := Step(w, width, height);
    StepBricks(w, width, height);
    var moved := Translate(w.ball, w.velx, w.vely);
    var overlap := FindOverlapping(w.bricks, moved, w.paddle);
    if |overlap| > 1 {
      FilterOutNoDup(w.bricks, BrickBoxesIn(overlap));
      FilterOutShorter(w.bricks, BrickBoxesIn(overlap));
    }
    assert w'.status != Ready;
  }

  /** A key press preserves the invariant; in particular the paddle never
      goes left of 0. */
  lemma MovePreservesInv(w: World, key: Key, width: int)
    requires Inv(w)
    ensures Inv(w.(paddle := MovePaddle(w.paddle, key, width)))
  {
    var p := w.paddle;
    if key == Left && p.x0 > 0 {
      assert p.x0 >= PADDLE_STEP;
    }
  }

  lemma ApplyPreservesInv(w: World, e: Event)
    requires Inv(w)
    ensures Inv(Apply(w, e))
  {
    match e
    case Clock(width, height) => StepPreservesInv(w, width, height);
    case Press(key, width) => MovePreservesInv(w, key, width);
  }

  /** Every sequence of ticks and key presses preserves the invariant. */
  lemma {:induction false} RunPreservesInv(w: World, events: seq<Event>)
    requires Inv(w)
    ensures Inv(Run(w, events))
    decreases |events|
  {
    if events != [] {
      ApplyPreservesInv(w, events[0]);
      RunPreservesInv(Apply(w, events[0]), events[1..]);
    }
  }

  // ---------------------------------------------------------------------
  // Score and verdict

  /** The score is 50 times the number of grid bricks destroyed, a
      non-negative multiple of 50 of at most 50 * 8 * rows. */
  lemma ScoreCountsDestroyed(w: World)
    requires Inv(w)
    ensures w.score == POINTS_PER_BRICK * |Destroyed(w.rows, w.bricks)|
    ensures w.score % POINTS_PER_BRICK == 0
    ensures 0 <= w.score <= POINTS_PER_BRICK * COLUMNS * Max0(w.rows)
  {
    DestroyedCount(w.rows, w.bricks);
    GridSize(w.rows);
  }

  /** With a non-negative row count the verdict is Victory exactly when no
      brick is left. */
  lemma VictoryIffCleared(w: World)
    requires Inv(w) && w.rows >= 0
    ensures Verdict(w.score, w.rows) == Victory <==> w.bricks == []
  {
    GridSize(w.rows);
  }

  /** With a negative row count there are no bricks and the verdict is
      always Game Over. */
  lemma NegativeRowsNeverWin(w: World)
    requires Inv(w) && w.rows < 0
    ensures w.bricks == [] && Verdict(w.score, w.rows) == GameOver
  {
    GridSize(w.rows);
  }

  // ---------------------------------------------------------------------
  // Start, reset and the paddle

  /** With at most 7 rows and a canvas at least 180 wide and 218 high, the
      first tick after the layout hits nothing: the ball moves to
      (165, 218, 180, 233), the whole grid stays, the score stays 0 and the
      velocity stays (-5, -7). */
  lemma FirstTick(rows: int, width: int, height: int)
    requires rows <= MAX_ROWS && width >= 180 && height >= 218
    ensures Step(Initial(rows), width, height)
            == Initial(rows).(ball := Box(165, 218, 180, 233))
  {
    var moved := Box(165, 218, 180, 233);
    forall b | b in Grid(rows)
      ensures !Overlaps(b, moved)
    {
      GridMembers(rows, b);
    }
    HitsEmpty(Grid(rows), moved);
    assert FindOverlapping(Grid(rows), moved, PADDLE_START) == [Item(BallItem, moved)];
  }

  /** A key press only ever shifts the paddle horizontally by 0 or 15: Left
      moves it exactly when its left edge is right of 0, Right exactly when
      its right edge is left of the width, any other key never. */
  lemma MovePaddleRule(p: Box, key: Key, width: int)
    ensures var q := MovePaddle(p, key, width);
            && q.y0 == p.y0 && q.y1 == p.y1 && q.x1 - q.x0 == p.x1 - p.x0
            && (q.x0 == p.x0 - PADDLE_STEP <==> key == Left && p.x0 > 0)
            && (q.x0 == p.x0 + PADDLE_STEP <==> key == Right && p.x1 < width)
            && (q == p <==> !(key == Left && p.x0 > 0) && !(key == Right && p.x1 < width))
  {
  }

  /** Because the guard is tested before the move, a Right press can carry
      the paddle up to 14 past the right edge; it stays inside only when the
      width lies on the paddle's lattice (as the canvas's requested 400 does). */
  lemma PaddleRightEdge(p: Box, key: Key, width: int)
    requires PaddleInv(p) && p.x1 <= width
    ensures MovePaddle(p, key, width).x1 < width + PADDLE_STEP
    ensures width % PADDLE_STEP == 10 ==> MovePaddle(p, key, width).x1 <= width
  {
    if key == Right && p.x1 < width && width % PADDLE_STEP == 10 {
      assert p.x1 % PADDLE_STEP == 10;
      assert width - p.x1 >= PADDLE_STEP;
    }
  }

  /** The paddle after a sequence of key presses at a fixed canvas width. */
  function Presses(p: Box, keys: seq<Key>, width: int): Box
    decreases |keys|
  {
    if keys == [] then p else Presses(MovePaddle(p, keys[0], width), keys[1..], width)
  }

  /** Over any sequence of presses the paddle stays on its lattice, never
      left of 0, and never more than 14 past the right edge; when the width
      is on the lattice, a paddle that starts inside stays inside. */
  lemma {:induction false} PressesRightEdge(p: Box, keys: seq<Key>, width: int)
    requires PaddleInv(p) && p.x1 < width + PADDLE_STEP
    ensures PaddleInv(Presses(p, keys, width))
    ensures Presses(p, keys, width).x1 < width + PADDLE_STEP
    ensures width % PADDLE_STEP == 10 && p.x1 <= width ==> Presses(p, keys, width).x1 <= width
    decreases |keys|
  {
    if keys != [] {
      if keys[0] == Left && p.x0 > 0 {
        assert p.x0 >= PADDLE_STEP;
      }
      if width % PADDLE_STEP == 10 && p.x1 <= width {
        PaddleRightEdge(p, keys[0], width);
      }
      PressesRightEdge(MovePaddle(p, keys[0], width), keys[1..], width);
    }
  }

  /** On a canvas 404 wide, a paddle whose right edge is at 400 moves to 415. */
  lemma PaddleOvershoots()
    ensures PaddleInv(Box(330, 250, 400, 260))
    ensures MovePaddle(Box(330, 250, 400, 260), Right, 404).x1 == 415
  {
  }
}
