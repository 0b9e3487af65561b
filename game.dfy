/** The game object: the fields the game updates in place, and its
    operations, each proved to follow the rules of module Rules. */
module BrickGame {
  import opened Geometry
  import opened Bricks
  import opened Rules

  class Game {
    const rows: int
    /** The ball's box, tracked alongside its canvas item. */
    var ball: Box
    var velx: int
    var vely: int
    var paddle: Box
    /** The live bricks on the canvas, in stacking order. */
    var bricks: seq<Box>
    var score: int
    var status: Status
    /** The canvas size read at the last tick; key presses use the width. */
    var canvWidth: int
    var canvHeight: int

    function State(): World
      reads this
    {
      World(rows, ball, velx, vely, paddle, bricks, score, status)
    }

    /** Before start the canvas is empty and score and velocity hold their
        initial values; once started the game keeps the rules' invariant. */
    ghost predicate Valid()
      reads this
    {
      if status == Ready then
        bricks == [] && score == 0 && velx == START_VELX && vely == START_VELY
      else
        Inv(State())
    }

    /** A new game with `rows` rows of bricks, not yet started. No ball or
        paddle exists before start: their fields get the start boxes, which
        nothing reads before the layout sets them again. */
    constructor (rows: int)
      ensures Valid() && status == Ready && this.rows == rows
      ensures bricks == [] && score == 0 && velx == START_VELX && vely == START_VELY
    {
      this.rows := rows;
      score := 0;
      velx, vely := START_VELX, START_VELY;
      bricks := [];
      status := Ready;
      ball, paddle := BALL_START, PADDLE_START;
      canvWidth, canvHeight := 0, 0;
    }

    /** The layout part of start, on a canvas without bricks: mark the game
        in progress, add the bricks column by column, then place the ball
        and the paddle. */
    method Layout()
      requires bricks == []
      modifies this
      ensures bricks == Grid(rows)
      ensures ball == BALL_START && paddle == PADDLE_START && status == InProgress
      ensures score == old(score) && velx == old(velx) && vely == old(vely)
      ensures canvWidth == old(canvWidth) && canvHeight == old(canvHeight)
    {
      status := InProgress;
      var i := 0;
      while i < COLUMNS
        invariant 0 <= i <= COLUMNS
        invariant bricks == GridUpTo(i, rows)
        modifies this`bricks
      {
        AddColumn(i);
        i := i + 1;
      }
      ball := BALL_START;
      paddle := PADDLE_START;
    }

    /** The inner loop of the layout: append the bricks of column i, top to bottom. */
    method AddColumn(i: int)
      modifies this`bricks
      ensures bricks == old(bricks) + Column(i, rows)
    {
      var j := 0;
      while j < rows
        invariant 0 <= j <= Max0(rows)
        invariant bricks == old(bricks) + Column(i, j)
      {
        bricks := bricks + [BrickBox(i, j)];
        j := j + 1;
      }
      assert Column(i, j) == Column(i, rows);
    }

    /** start: lay out the field and run the first tick at once. It is only
        reached on a fresh game, from the start button or from reset. */
    method Start(width: int, height: int) returns (continues: bool)
      requires bricks == [] && score == 0 && velx == START_VELX && vely == START_VELY
      modifies this
      ensures Valid()
      ensures State() == Step(Initial(rows), width, height)
      ensures canvWidth == width && canvHeight == height
      ensures continues == !OffScreen(ball, height)
    {
      Layout();
      assert State() == Initial(rows);
      InitialInv(rows);
      continues := Tick(width, height);
    }

    /** reset: clear the canvas, restore velocity and score, and start again,
        whatever the state was. */
    method Reset(width: int, height: int) returns (continues: bool)
      modifies this
      ensures Valid()
      ensures State() == Step(Initial(rows), width, height)
      ensures canvWidth == width && canvHeight == height
      ensures continues == !OffScreen(ball, height)
    {
      bricks := [];
      velx, vely := START_VELX, START_VELY;
      score := 0;
      continues := Start(width, height);
    }

    /** animate: one tick on a canvas of the given size. `continues` says
        whether the next tick is scheduled; when it is false, stop has set
        the verdict. */
    method Tick(width: int, height: int) returns (continues: bool)
      requires Valid() && status != Ready
      modifies this
      ensures Valid() && status != Ready
      ensures State() == Step(old(State()), width, height)
      ensures canvWidth == width && canvHeight == height
      ensures continues == !OffScreen(ball, height)
    {
      ghost var w := State();
      ball := Translate(ball, velx, vely);
      Bounce();
      continues := CheckWalls(width, height);
      StepPreservesInv(w, width, height);
    }

    /** The collision part of a tick, after the ball has moved: when
        anything besides the ball overlaps it, run the loop over the
        overlapping items and then negate vely. */
    method Bounce()
      modifies this`bricks, this`score, this`velx, this`vely
      ensures State() == Collision(old(State()))
    {
      var overlap := FindOverlapping(bricks, ball, paddle);
      if |overlap| > 1 {
        Collide(overlap);
        vely := -vely;
      }
    }

    /** The wall part of a tick: record the canvas size, bounce off the side
        walls, and stop the game once the ball is off screen. */
    method CheckWalls(width: int, height: int) returns (continues: bool)
      modifies this`canvWidth, this`canvHeight, this`velx, this`status
      ensures State() == Walls(old(State()), width, height)
      ensures canvWidth == width && canvHeight == height
      ensures continues == !OffScreen(ball, height)
    {
      canvHeight := height;
      canvWidth := width;
      if ball.x0 < 0 || ball.x1 > canvWidth {
        velx := -velx;
      }
      if ball.y0 > canvHeight || ball.y1 < 0 {
        Stop();
        continues := false;
      } else {
        continues := true;
      }
    }

    /** The loop over the overlapping items of one tick: delete and score
        each brick, and negate both velocity components for each item the
        ball side-hits. */
    method Collide(overlap: seq<Item>)
      modifies this`bricks, this`score, this`velx, this`vely
      ensures bricks == FilterOut(old(bricks), BrickBoxesIn(overlap))
      ensures score == old(score) + POINTS_PER_BRICK * BrickCount(overlap)
      ensures velx == Flip(old(velx), SideHitCount(overlap, ball))
      ensures vely == Flip(old(vely), SideHitCount(overlap, ball))
    {
      FilterOutNothing(bricks);
      var k := 0;
      while k < |overlap|
        invariant 0 <= k <= |overlap|
        invariant bricks == FilterOut(old(bricks), BrickBoxesIn(overlap[..k]))
        invariant score == old(score) + POINTS_PER_BRICK * BrickCount(overlap[..k])
        invariant velx == Flip(old(velx), SideHitCount(overlap[..k], ball))
        invariant vely == Flip(old(vely), SideHitCount(overlap[..k], ball))
      {
        var obj := overlap[k];
        assert overlap[..k + 1][..k] == overlap[..k];
        ghost var flips := SideHitCount(overlap[..k], ball);
        assert SideHitCount(overlap[..k + 1], ball) == flips + (if SideHit(ball, obj.box) then 1 else 0);
        assert BrickBoxesIn(overlap[..k + 1])
               == BrickBoxesIn(overlap[..k]) + (if obj.kind == BrickItem then {obj.box} else {});
        if obj.kind == BrickItem {
          FilterOutTwice(old(bricks), BrickBoxesIn(overlap[..k]), {obj.box});
          bricks := FilterOut(bricks, {obj.box});
          score := score + POINTS_PER_BRICK;
          assert bricks == FilterOut(old(bricks), BrickBoxesIn(overlap[..k]) + {obj.box});
        } else {
          assert BrickBoxesIn(overlap[..k + 1]) == BrickBoxesIn(overlap[..k]);
        }
        assert bricks == FilterOut(old(bricks), BrickBoxesIn(overlap[..k + 1]));
        if SideHit(ball, obj.box) {
          FlipNext(old(velx), flips);
          FlipNext(old(vely), flips);
          velx := -velx;
          vely := -vely;
        }
        k := k + 1;
      }
      assert overlap[..k] == overlap;
    }

    /** move_player: shift the paddle for a Left or Right key, testing the
        position before the move against the width read at the last tick. */
    method MovePlayer(key: Key)
      requires Valid() && status != Ready
      modifies this`paddle
      ensures Valid()
      ensures paddle == MovePaddle(old(paddle), key, canvWidth)
    {
      MovePreservesInv(State(), key, canvWidth);
      if key == Left && paddle.x0 > 0 {
        paddle := Translate(paddle, -PADDLE_STEP, 0);
      } else if key == Right && paddle.x1 < canvWidth {
        paddle := Translate(paddle, PADDLE_STEP, 0);
      }
    }

    /** stop: Victory if every point was scored, Game Over otherwise. */
    method Stop()
      modifies this`status
      ensures status == Verdict(score, rows)
    {
      if score == POINTS_PER_BRICK * COLUMNS * rows {
        status := Victory;
      } else {
        status := GameOver;
      }
    }
  }
}
