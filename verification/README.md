# fight_kokaton in Dafny

A model of the game `fight_kokaton.py`: a bird (こうかとん) steered with the
arrow keys on a 1600 x 900 canvas, bombs that bounce off the canvas edges, a
beam the bird fires with the space key, and the explosions a destroyed bomb
leaves behind. The model covers the bounds check, the four sprite classes
and the body of the frame loop in `main`: the collision pass over the bomb
slots, firing, the updates, and the sweep over the explosion list.

Layout, one module per file:

- `geometry.dfy` (`Geometry`): the canvas size, the pygame rectangle with
  its centre setter, `check_bound`, and the overlap test used for
  `colliderect`.
- `bird.dfy` (`Birds`), `bomb.dfy` (`Bombs`), `beam.dfy` (`Beams`),
  `explosion.dfy` (`Explosions`): each sprite class is a Dafny `class` with
  the same fields, except the image surfaces (`img`, `exp_img_lst`). The
  bird's sprite table `img_dict` is the same for every bird, so it is the
  module function `ImgDict`. The methods of each class update its fields
  in place, and each method is proved equal to a pure step function on a state value (`BirdNext`,
  `BombNext`, `Fly`, the life decrement). The properties are proved as
  lemmas about those functions.
- `game_spec.dfy` (`GameSpec`): one frame of the loop on values
  (`FrameSpec`), a whole game (`PlaySpec`), and the properties of both.
- `game.dfy` (`Game`): the frame loop over the objects. It uses a bird, an
  array of bomb slots, a nullable beam and a list of explosions. It is
  proved to do to the objects exactly what `FrameSpec` and `PlaySpec` do to
  values.

The model follows the code as written, including three behaviours a reader
might not expect:

- A new beam replaces the current one in every frame in which space is held.
  The code never checks whether a beam already exists.
- A beam is never removed for leaving the canvas. Only a hit removes it.
- The explosion sweep deletes from the list it is walking. The entry that
  moves into the deleted index is therefore skipped in that frame: it is not
  updated, and if it has expired it is not removed.

`Sweep` defines that walk. `Expire` is the behaviour without skipping.
`SweepIsExpireWithoutSkips` and `SweepSkipsAfterDeletion` show where the
two agree and where they differ.

## Model

| member | source | states |
|---|---|---|
| Geometry.Rect.WithCenter | fight_kokaton.py:33-36 | setting the centre places the rectangle so that reading the centre back gives exactly that point; the size is kept |
| Geometry.CheckBound | fight_kokaton.py:14-25 | the horizontal flag is true iff left >= 0 and right <= WIDTH; the vertical flag is true iff top >= 0 and bottom <= HEIGHT |
| Geometry.InBoundsIffAllPointsOnCanvas | fight_kokaton.py:14-25 | both flags are true exactly when every point of the closed rectangle lies on the closed canvas |
| Geometry.OverlapsIffSharedCell | fight_kokaton.py:176-185 | the overlap test is symmetric; two rectangles that share a pixel overlap; two non-empty rectangles overlap only if they share a pixel |
| Birds.ImgKeysAreSteps | fight_kokaton.py:66-70 | the sprite table has exactly the nine keys (5i, 5j) with i, j in -1..1, so every facing the bird can take has an entry |
| Birds.KeySum | fight_kokaton.py:47-52 | the summed key displacement has each axis in {-5, 0, 5}; an axis is 0 iff both or neither of its keys are held; it is +5 iff only the positive key is held |
| Birds.DeltaSumIsKeySum | fight_kokaton.py:91-95 | accumulating the held entries of the movement table in table order gives the per-axis key sum |
| Birds.MoveOrRevert | fight_kokaton.py:96-98 | the bird takes the whole move or none of it; it takes it iff the moved rectangle passes the bounds check or the move is zero; a bird on the canvas stays on it; the size is kept |
| Birds.BirdNext | fight_kokaton.py:85-101 | the facing becomes the key sum when it is non-zero and is kept otherwise; it stays one of the eight directions and has a sprite; the sprite is the facing's; the rectangle is MoveOrRevert of the key sum, so it moves by the sum exactly when the moved rectangle passes the bounds check; a bird on the canvas stays on it |
| Birds.Bird.constructor | fight_kokaton.py:54-74 | a new bird is centred on the given point, faces right and shows the right-facing sprite |
| Birds.Bird.ChangeImg | fight_kokaton.py:76-83 | only the picture changes; the position and facing stay |
| Birds.Bird.Update | fight_kokaton.py:85-101 | the in-place update (table loop, move, revert, turn, sprite) leaves exactly the state BirdNext gives, and the facing stays a direction |
| Bombs.BombMoveDirectionIsEightWay | fight_kokaton.py:119 | the velocity list holds exactly the eight non-zero steps |
| Bombs.Bounce | fight_kokaton.py:133-137 | each velocity component is negated exactly when the bounds check fails on its own axis, before the move; the eight-direction set is kept |
| Bombs.BombNextKeepsDirection | fight_kokaton.py:128-138 | over any number of updates a bomb keeps a velocity in the eight directions and keeps its size |
| Bombs.LeftEdgeBombTurnsRight | fight_kokaton.py:125-138 | a bomb centred on the left edge and moving left turns right in its first update and moves 5 pixels right |
| Bombs.FlushBombOvershootsOneStep | fight_kokaton.py:133-138 | a bomb flush with the left edge passes the check, moves 5 pixels off the canvas, and only then turns |
| Bombs.EdgeBombAlternates | fight_kokaton.py:133-138 | a 60-wide bomb with left edge -30 moving left is, after an even number of updates, at -30 moving left and, after an odd number, at -25 moving right |
| Bombs.EdgeBombOscillates | fight_kokaton.py:125-138 | a radius-30 bomb centred on x = 0 moving left returns to the same left edge and velocity after two updates, and its left edge stays negative after any number of updates: it jitters and never gets fully on the canvas |
| Bombs.Bomb.constructor | fight_kokaton.py:110-126 | a bomb with radius 5..30, centre on the canvas and a velocity from the list is a 2rad square centred there, moving with that velocity in one of the eight directions |
| Bombs.Bomb.Update | fight_kokaton.py:128-138 | the in-place bounce and move leave exactly the state BombNext gives |
| Beams.SpawnBeam | fight_kokaton.py:29-36 | the beam's velocity is the bird's facing and its size is the image size; on each axis its centre is one bird size ahead of the bird's centre, level with it, or one bird size behind, for a facing component of +5, 0 or -5 |
| Beams.RightFacingBeam | fight_kokaton.py:29-36 | a bird facing right fires a beam moving right, centred one bird width right of the bird's centre and on its centre line |
| Beams.Fly | fight_kokaton.py:38-39 | n updates translate the beam by n times its velocity, with no bounds test; the velocity is kept |
| Beams.Beam.constructor | fight_kokaton.py:29-36 | a new beam is the one SpawnBeam gives for the bird's current state |
| Beams.Beam.Update | fight_kokaton.py:38-39 | one update is one step of Fly |
| Explosions.NewExplosion | fight_kokaton.py:142-149 | an explosion starts with life 10, centred on the bomb's centre, with the image size |
| Explosions.FrameIndex | fight_kokaton.py:151-153 | the image index is below the four images and congruent to the life modulo 4, also for negative lives |
| Explosions.FramesCycle | fight_kokaton.py:149-153 | over the ten updates from life 10 the images shown have the indices 1, 0, 3, 2, 1, 0, 3, 2, 1, 0 |
| Explosions.Explosion.constructor | fight_kokaton.py:142-149 | a new explosion is the one NewExplosion gives for the bomb |
| Explosions.Explosion.Update | fight_kokaton.py:151-153 | the life drops by one, nothing else changes, and the image drawn is the flip pair at FrameIndex of the new life |
| GameSpec.CollideFrom | fight_kokaton.py:173-189 | the collision pass never quits; it keeps the bird's position and facing and the number of slots |
| GameSpec.GameOverIffBirdTouches | fight_kokaton.py:173-181 | the pass ends the game iff some occupied slot holds a bomb the bird touches, including bombs after one the beam destroyed |
| GameSpec.PassWithoutBeamIsIdentity | fight_kokaton.py:182-189 | without a beam, a pass that does not end the game changes nothing |
| GameSpec.RunningPassDestroysAtMostOne | fight_kokaton.py:182-189 | a pass that goes on either changes nothing, when the beam touches no bomb, or destroys exactly the first bomb the beam touches and nothing else |
| GameSpec.SweepDeleteStep | fight_kokaton.py:200-202 | deleting an expired entry at index i and moving on to i + 1 keeps the walk equal to Sweep |
| GameSpec.SweepUpdateStep | fight_kokaton.py:203-204 | updating a live entry at index i keeps the walk equal to Sweep |
| GameSpec.SweepKeepsLives | fight_kokaton.py:200-204 | lives in 0..10 stay in 0..10 through a sweep |
| GameSpec.SweepLength | fight_kokaton.py:200-204 | the result is no longer than the input and at least as long as the number of live explosions; it is strictly shorter whenever an expired entry is present |
| GameSpec.SweepKeepsLiveEntries | fight_kokaton.py:200-204 | every live explosion is in the result, updated, or unchanged when it was skipped |
| GameSpec.SweepAddsNothing | fight_kokaton.py:200-204 | every entry of the result is an entry of the input, unchanged or, if it was live, with its life decremented |
| GameSpec.SweepIsExpireWithoutSkips | fight_kokaton.py:200-204 | when no expired entry stands before the last one, the sweep updates every live explosion and removes every expired one |
| GameSpec.SweepSkipsAfterDeletion | fight_kokaton.py:200-202 | after a deleted entry, the next one is neither updated nor removed, unlike in Expire |
| GameSpec.BombsNext | fight_kokaton.py:195-197 | the slot row keeps its length |
| GameSpec.FrameSpec | fight_kokaton.py:167-204 | a frame quits iff a quit event is queued; it keeps the number of slots and keeps the bird's facing one of the eight directions |
| GameSpec.CollideKeepsInv | fight_kokaton.py:173-189 | the collision pass keeps the invariant: directions for the bird, bombs and beam, and explosion lives in 0..10 |
| GameSpec.FrameKeepsInv | fight_kokaton.py:167-204 | a frame keeps the same invariant |
| GameSpec.BirdStaysOnCanvas | fight_kokaton.py:194 | a bird on the canvas is on it after the frame, whatever its outcome |
| GameSpec.GameOverIffCollision | fight_kokaton.py:167-181 | a frame ends the game iff no quit event is queued and the bird touches a bomb in some occupied slot |
| GameSpec.AtMostOneBombPerFrame | fight_kokaton.py:182-189 | in a frame that goes on, at most one slot is emptied, and it is the first slot whose bomb the beam touches |
| GameSpec.FireReplacesBeam | fight_kokaton.py:191-193 | holding space in a frame that goes on gives a new beam, spawned from the bird before it moves and moved once, whatever beam existed |
| GameSpec.BeamNeverLeavesForBounds | fight_kokaton.py:198-199 | a beam that hits nothing and is not replaced just moves one step, wherever it is |
| GameSpec.PlaySpec | fight_kokaton.py:166-206 | a game keeps the number of slots and the bird's facing one of the eight directions |
| GameSpec.PlayKeepsInv | fight_kokaton.py:166-206 | a whole game keeps the invariant, and a bird that starts on the canvas stays on it |
| GameSpec.InitialWorld | fight_kokaton.py:159-162 | the starting world meets the invariant and has one slot per bomb |
| Game.CollisionPass | fight_kokaton.py:173-189 | the in-place pass over the slot array gives the status and the objects' state that CollideFrom gives; slots are only emptied; no new beam appears; explosions are old or new objects and stay distinct |
| Game.UpdateBombs | fight_kokaton.py:195-197 | updating every occupied slot leaves the slot array in the state BombsNext gives |
| Game.DeletionKeepsHold | fight_kokaton.py:201-202 | deleting one entry from the object list and from its states keeps them in step and keeps the list distinct |
| Game.SweepExplosions | fight_kokaton.py:200-204 | the in-place walk over the explosion list, with deletion by index, leaves the list holding exactly Sweep of the states |
| Game.Advance | fight_kokaton.py:191-204 | firing, the bird, bomb and beam updates and the sweep leave the objects holding the world FrameSpec gives after a pass that goes on |
| Game.Frame | fight_kokaton.py:167-204 | one loop iteration on the objects gives the status and state that FrameSpec gives; slots are only emptied; the bird's facing stays a direction |
| Game.NewGame | fight_kokaton.py:159-162 | the objects created before the loop hold InitialWorld: a bird at (900, 400) facing right, one bomb per draw, no beam, no explosion |
| Game.Play | fight_kokaton.py:155-206 | running the loop over a sequence of inputs gives the status and final state PlaySpec gives |

## Left out

- Drawing is left out: the screen, the background, `blit`, `display.update` and the caption. A sprite is recorded by its table key or picture number, not by its pixels.
- Loading images and the image transforms (`rotozoom`, `flip`) are left out. The beam image's rotation by `atan2` only matters for its size. The sizes of the bird, beam and explosion images are therefore inputs: `Assets` and the bird size.
- Randomness: each bomb's radius, centre and velocity are parameters (`BombSeed`) restricted to the source's ranges. The bomb's colour only affects drawing and is left out.
- Events and keys: the quit event becomes `Input.quit` and the key snapshot becomes the set `Input.held`. The game's endless loop becomes a finite sequence of inputs, and `Play` returns when they run out.
- Time: the clock tick, the one-second sleep at game over and the frame counter `tmr` (which nothing reads) are left out.
- Geometry.Overlaps: models `colliderect` as strict overlap of the two rectangles. pygame's special rule that a rectangle of zero width or height collides with nothing is not modelled. Every rectangle in the game comes from an image or a bomb of radius at least 5.
- The beam's centre is computed with floating-point division (`width * vx / 5`). For velocity components of -5, 0 and 5 this is an exact integer, so it is modelled with integer arithmetic.
- pygame stores rectangle coordinates as C ints. Here they are unbounded, so a beam that flies forever never wraps around.
- The bomb list is modelled as a fixed-length array of nullable slots. The source list never changes length: it only sets entries to `None`.
- The game-over branch shows its picture for a second and then returns from `main`. The model returns the `GameOver` status instead. Shutting down pygame and exiting the process are left out.
