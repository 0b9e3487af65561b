# Brick breaker: a verified model of the game core

This project models the `Game` class of a Tkinter brick-breaker (`main.py`).
A paddle moves left and right, a ball bounces among the walls, the paddle and
a grid of bricks, every brick the ball touches is deleted for 50 points, and
the game ends when the ball leaves the canvas vertically: Victory if every
point was scored, Game Over otherwise.

Four modules:

- `Geometry` (geometry.dfy): canvas boxes `(x0, y0, x1, y1)`, translation,
  the closed-interval overlap test and the "side hit" test of the bounce rule.
- `Bricks` (bricks.dfy): the brick grid the layout builds (8 columns of
  `rows` bricks, brick (i, j) at `(50i, 25j, 50i+50, 25j+25)`), and the
  sequence operations used to delete bricks, with their lemmas.
- `Rules` (rules.dfy): a snapshot `World` of the game and pure functions for
  one animation tick (`Step`: move the ball, then the collision part
  `Collision`, then the wall part `Walls`), one key press (`MovePaddle`), the end-of-game
  verdict (`Verdict`) and the row cap (`CapRows`); the invariant `Inv` and
  the lemmas that ticks and key presses keep it.
- `BrickGame` (game.dfy): the class `Game` with the fields the game updates
  in place (ball box, velocity, paddle box, live bricks, score, status, the
  canvas size read at the last tick). `Layout` builds the grid with the
  source's nested loops, `Tick` runs the two parts of a tick (`Bounce`,
  `CheckWalls`), `Collide` is the loop over the overlapping items, and every
  method states its new state in terms of the `Rules` functions.

The live bricks are a sequence in canvas stacking order, replacing the Tk
canvas's item list. The canvas's overlap query is modelled by
`FindOverlapping`: the overlapping bricks in order, then the ball itself,
then the paddle if it overlaps, which is the stacking order the game creates
them in. The canvas width and height are inputs of each tick, as the game
reads them from the window at every tick.

Behaviour of the code that the model keeps as written:

- `start` runs the first tick at once, so after start or reset the ball has
  already moved one step, to (165, 218, 180, 233) on a normal-sized canvas
  (`Rules.FirstTick`).
- The game ends only when the moved ball is entirely below the canvas
  (`y0 > height`) or entirely above it (`y1 < 0`), not when its bottom edge
  first crosses the bottom.
- The paddle test is made on the position before the move, so a Right press
  can carry the paddle up to 14 units past the right edge of the canvas
  (`Rules.PaddleRightEdge`, `Rules.PaddleOvershoots`). The left edge never
  goes below 0 because the paddle starts on a 15-unit lattice.
- Key presses still move the paddle after the game has ended.
- The paddle key handler uses the canvas width read at the last tick.
- With a negative row count there are no bricks, yet the verdict can never
  be Victory, since it compares the score 0 with `400 * rows`
  (`Rules.NegativeRowsNeverWin`).
- The overlap list always holds the ball itself. The collision phase runs
  only when something else overlaps the ball too. The side test never fires
  for the ball against itself (`Geometry.BallAgainstItself`).

## Model

| member | source | states |
|---|---|---|
| Geometry.BallAgainstItself | main.py:169-184 | the ball always overlaps itself but never side-hits itself, so its own entry in the overlap list changes nothing |
| Bricks.GridMembers | main.py:109-117 | a box is in the laid-out grid iff it is (50i, 25j, 50i+50, 25j+25) for some 0 <= i < 8 and 0 <= j < rows |
| Bricks.GridSize | main.py:109-110 | the grid has 8 * rows bricks, none when rows is negative |
| Bricks.GridNoDup | main.py:109-117 | no brick of the grid appears twice |
| Bricks.FilterOutTwice | main.py:170-175 | deleting bricks item by item inside the loop deletes the union of their boxes |
| Bricks.FilterOutMembers | main.py:172-174 | after deletion a brick is live iff it was live and was not deleted |
| Bricks.DestroyedCount | main.py:172-175 | with distinct live grid bricks, the number of destroyed grid bricks is the grid size less the live count |
| Rules.CapRows | main.py:252 | the row count is the size argument capped at 7: at most 7, at most the size, and one of the two |
| Rules.OverlapBricks | main.py:163-175 | the bricks among the overlapping items are exactly the live bricks overlapping the moved ball, each counted once |
| Rules.OverlapGuard | main.py:163-169 | the overlap list is longer than one iff some live brick or the paddle overlaps the ball |
| Rules.StepBricks | main.py:156-177 | a tick removes exactly the live bricks the moved ball overlaps, adds 50 per removed brick, never removes the paddle, and a removed brick stays removed |
| Rules.FindOverlapping | main.py:163-166 | the canvas's overlap list always holds the ball itself, and holds the paddle iff the paddle overlaps the ball |
| Rules.Collision | main.py:168-187 | the collision part changes only velocity, bricks and score, and never lowers the score |
| Rules.Walls | main.py:189-203 | the wall part changes only velx (by at most a negation) and the status, and leaves the status alone while the ball is on screen |
| Rules.Step | main.py:156-203 | a tick moves the ball by the velocity, keeps the paddle and the row count, and never lowers the score |
| Rules.Verdict | main.py:227-237 | the verdict is Victory or Game Over |
| Rules.MovePaddle | main.py:210-224 | a key press keeps the paddle's y and size and shifts it by -15, 0 or +15 |
| Rules.StepVelocity | main.py:169-196 | vely ends negated iff there was contact and an even number of items were side-hit, and is kept otherwise; velx ends negated iff an odd number of side hits or a wall (x0 < 0 or x1 > width) but not both; each component changes only by negation |
| Rules.StepEnds | main.py:198-203 | a tick of a game in progress ends it iff the moved ball is entirely below or above the canvas, and then with the verdict on the new score |
| Rules.InitialInv | main.py:104-126 | the laid-out game satisfies the invariant: full grid, score 0, ball 15 x 15, velocity (-5, -7), paddle at (165, 250, 235, 260) |
| Rules.StepPreservesInv | main.py:150-203 | a tick keeps the ball 15 x 15, velx in {5, -5}, vely in {7, -7}, the live bricks distinct grid bricks, and score = 50 x (grid size - live bricks) |
| Rules.MovePreservesInv | main.py:210-224 | a key press keeps the invariant; the paddle keeps its height and width and never goes left of 0 |
| Rules.ApplyPreservesInv | main.py:150-224 | a tick or a key press keeps the invariant |
| Rules.RunPreservesInv | main.py:150-224 | every sequence of ticks and key presses keeps the invariant |
| Rules.ScoreCountsDestroyed | main.py:172-177 | the score is 50 times the number of destroyed grid bricks, a non-negative multiple of 50 of at most 50 x 8 x rows |
| Rules.VictoryIffCleared | main.py:227-237 | with rows >= 0 the verdict is Victory iff no brick is left |
| Rules.NegativeRowsNeverWin | main.py:233-237 | with a negative row count there are no bricks and the verdict is always Game Over |
| Rules.FirstTick | main.py:99-146 | with at most 7 rows on a canvas at least 180 x 218, the first tick of start hits nothing: full grid, score 0, velocity (-5, -7), ball at (165, 218, 180, 233) |
| Rules.MovePaddleRule | main.py:219-224 | Left moves the paddle by -15 iff its x0 > 0, Right by +15 iff its x1 < width, anything else is a no-op; y and size unchanged |
| Rules.PaddleRightEdge | main.py:222-224 | a Right press can leave the paddle's right edge at most 14 past the width, and not past it when the width is on the paddle's 15-unit lattice |
| Rules.PressesRightEdge | main.py:219-224 | over any sequence of presses at a fixed width the paddle stays on its lattice, never left of 0 and at most 14 past the right edge, and inside the width when the width is on the lattice and it starts inside |
| Rules.PaddleOvershoots | main.py:222-224 | on a canvas 404 wide a paddle whose right edge is at 400 moves to 415 |
| BrickGame.Game.constructor | main.py:40-74 | a new game is Ready with no bricks, score 0 and velocity (-5, -7) |
| BrickGame.Game.Layout | main.py:104-126 | on a canvas without bricks the nested loops lay out exactly the grid, column by column, and place ball and paddle; score and velocity unchanged |
| BrickGame.Game.AddColumn | main.py:110-117 | the inner loop appends the bricks of column i, rows 0 to rows-1 in order |
| BrickGame.Game.Start | main.py:99-146 | start leaves the game in the state of one tick from the fresh layout and keeps the invariant |
| BrickGame.Game.Reset | main.py:77-96 | from any state, reset leaves the game in the state of one tick from the fresh layout |
| BrickGame.Game.Tick | main.py:150-203 | the tick's new state is `Step` of the old one, the canvas size is recorded, and the next tick is scheduled iff the ball is not off screen |
| BrickGame.Game.Bounce | main.py:163-184 | the collision part of a tick takes the game to `Collision` of its state: loop and vely negation only when the overlap list holds more than the ball |
| BrickGame.Game.CheckWalls | main.py:186-203 | the wall part of a tick takes the game to `Walls` of its state, records the canvas size, and schedules the next tick iff the ball is not off screen |
| BrickGame.Game.Collide | main.py:169-184 | the loop deletes the overlapping bricks, adds 50 per brick, and negates both velocity components once per side-hit item |
| BrickGame.Game.MovePlayer | main.py:210-224 | the paddle becomes `MovePaddle` of the old paddle with the width read at the last tick, and the invariant holds |
| BrickGame.Game.Stop | main.py:227-237 | the status becomes Victory iff score == 50 x 8 x rows, Game Over otherwise |

## Left out

- Widgets, labels, buttons, colours, images, window title and grid layout (main.py:45-64, 104-106, 128-143): presentation only; the status label is modelled by the `status` field.
- Argument parsing in `main` (main.py:243-251): command-line input; only the row cap is modelled (`Rules.CapRows`).
- The 80 ms self-rescheduling timer chain: `Tick` returns whether the next tick would be scheduled. That reset does not cancel a running chain, so two chains can tick one game, is timer concurrency and is not modelled.
- The canvas's overlap query is modelled as closed-box intersection (`Rules.FindOverlapping`); Tk's test for ovals and outline widths is a library behaviour outside this model, as are the window-size queries, which are inputs.
- Canvas item ids: items are told apart by kind and box; the grid boxes are distinct (`Bricks.GridNoDup`), so deleting by box deletes one item.
- Key-event dispatch: keys are the commands Left, Right and any other key.
- BrickGame.Game.MovePlayer: requires a started game; the source raises AttributeError for a key pressed before start, which is not modelled.
- BrickGame.Game.Tick: requires a started game; the source only ever ticks after start.
- BrickGame.Game.Start: requires the fresh state (no bricks, score 0, velocity (-5, -7)) that both of its callers, the start button and reset, provide.
- BrickGame.Game.Layout: requires a canvas without bricks, which is what start finds after construction and after reset's delete-all.
- BrickGame.Game.constructor: before start there is no ball or paddle; the model gives their fields the start boxes, which nothing reads before the layout.
