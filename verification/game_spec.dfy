/** One iteration of the game's frame loop, on values: the collision pass
    over the bomb slots, firing, the entity updates and the sweep over the
    explosions, with the properties the loop keeps. The imperative frame in
    module Game is proved against FrameSpec. */
module GameSpec {
  import opened Geometry
  import opened Birds
  import opened Bombs
  import opened Beams
  import opened Explosions

  const NUM_OF_BOMBS: nat := 3

  /** The picture the bird shows after its beam hit a bomb, and the one it
      shows at game over. */
  const HitPicture: int := 6
  const GameOverPicture: int := 8

  datatype Option<T> = None | Some(value: T)

  /** How a frame ends: the loop goes on, the bird touched a bomb, or the
      window was closed. */
  datatype Status = Running | GameOver | Quit

  /** Pixel sizes of images that the game loads: the beam image once turned
      to a facing (vx, vy), and the explosion image. */
  datatype Assets = Assets(beamSize: (int, int) -> (nat, nat), explosionSize: (nat, nat))

  /** What one frame reads from the input: the held keys and whether a quit
      event is queued. */
  datatype Input = Input(held: set<Key>, quit: bool)

  /** The state the frame loop owns: the bird, the fixed row of bomb slots
      (a destroyed bomb leaves an empty slot), at most one beam, and the
      explosions in order of creation. */
  datatype World = World(bird: BirdState, bombs: seq<Option<BombState>>, beam: Option<BeamState>,
                         explosions: seq<ExplosionState>)

  /** Slot k holds a bomb that the bird touches. */
  predicate BirdTouches(w: World, k: int)
  {
    0 <= k < |w.bombs| && w.bombs[k].Some? && Overlaps(w.bird.rct, w.bombs[k].value.rct)
  }

  /** Slot k holds a bomb that the beam touches. */
  predicate BeamHits(w: World, k: int)
  {
    0 <= k < |w.bombs| && w.bombs[k].Some? && w.beam.Some? && Overlaps(w.beam.value.rect, w.bombs[k].value.rct)
  }

  /** k is the first slot from i on that the beam touches. */
  predicate FirstBeamHit(w: World, i: int, k: int)
  {
    i <= k && BeamHits(w, k) && forall j :: i <= j < k ==> !BeamHits(w, j)
  }

  /** The beam destroys the bomb of slot k: an explosion is appended, the
      beam and the slot are emptied, and the bird shows its hit picture. */
  function Destroyed(w: World, k: int, expSize: (nat, nat)): World
    requires 0 <= k < |w.bombs| && w.bombs[k].Some?
  {
    w.(explosions := w.explosions + [NewExplosion(w.bombs[k].value, expSize)], beam := None,
       bombs := w.bombs[k := None], bird := w.bird.(img := Picture(HitPicture)))
  }

  /** The bird touched the bomb of slot k: the beam and the slot are emptied
      and the bird shows its game-over picture. */
  function Defeated(w: World, k: int): World
    requires 0 <= k < |w.bombs|
  {
    w.(beam := None, bombs := w.bombs[k := None], bird := w.bird.(img := Picture(GameOverPicture)))
  }

  /** The collision pass from slot i on. Each occupied slot is first tested
      against the bird, which ends the game, and then against the beam, if
      there still is one. */
  function CollideFrom(w: World, i: nat, expSize: (nat, nat)): (res: (Status, World))
    ensures res.0 != Quit
    ensures res.1.bird.rct == w.bird.rct && res.1.bird.dire == w.bird.dire
    ensures |res.1.bombs| == |w.bombs|
    decreases |w.bombs| - i
  {
    if i >= |w.bombs| then (Running, w)
    else match w.bombs[i]
      case None => CollideFrom(w, i + 1, expSize)
      case Some(b) =>
        if Overlaps(w.bird.rct, b.rct) then (GameOver, Defeated(w, i))
        else if w.beam.Some? && Overlaps(w.beam.value.rect, b.rct) then
          CollideFrom(Destroyed(w, i, expSize), i + 1, expSize)
        else CollideFrom(w, i + 1, expSize)
  }

  /** The pass ends the game exactly when some occupied slot from i on holds
      a bomb the bird touches; bombs the beam destroyed first do not matter. */
  lemma {:induction false} GameOverIffBirdTouches(w: World, i: nat, expSize: (nat, nat))
    ensures CollideFrom(w, i, expSize).0 == GameOver <==> exists k :: i <= k && BirdTouches(w, k)
    decreases |w.bombs| - i
  {
    if i < |w.bombs| {
      match w.bombs[i]
      case None =>
        GameOverIffBirdTouches(w, i + 1, expSize);
        assert !BirdTouches(w, i);
        assert (exists k :: i <= k && BirdTouches(w, k)) ==> exists k :: i + 1 <= k && BirdTouches(w, k);
      case Some(b) =>
        if Overlaps(w.bird.rct, b.rct) {
          assert BirdTouches(w, i);
        } else if w.beam.Some? && Overlaps(w.beam.value.rect, b.rct) {
          var w' := Destroyed(w, i, expSize);
          GameOverIffBirdTouches(w', i + 1, expSize);
          assert forall k :: i + 1 <= k ==> (BirdTouches(w', k) <==> BirdTouches(w, k));
          assert !BirdTouches(w, i);
          assert (exists k :: i <= k && BirdTouches(w, k)) ==> exists k :: i + 1 <= k && BirdTouches(w, k);
        } else {
          GameOverIffBirdTouches(w, i + 1, expSize);
          assert !BirdTouches(w, i);
          assert (exists k :: i <= k && BirdTouches(w, k)) ==> exists k :: i + 1 <= k && BirdTouches(w, k);
        }
    } else {
      assert forall k :: i <= k ==> !BirdTouches(w, k);
    }
  }

  /** Without a beam, a pass that does not end the game changes nothing. */
  lemma {:induction false} PassWithoutBeamIsIdentity(w: World, i: nat, expSize: (nat, nat))
    requires w.beam.None? && CollideFrom(w, i, expSize).0 == Running
    ensures CollideFrom(w, i, expSize).1 == w
    decreases |w.bombs| - i
  {
    if i < |w.bombs| {
      PassWithoutBeamIsIdentity(w, i + 1, expSize);
    }
  }

  /** A pass that does not end the game either changes nothing, when the
      beam touches no bomb, or destroys exactly the first bomb the beam
      touches and nothing else: at most one bomb per frame. */
  lemma {:induction false} RunningPassDestroysAtMostOne(w: World, i: nat, expSize: (nat, nat))
    requires CollideFrom(w, i, expSize).0 == Running
    ensures var r := CollideFrom(w, i, expSize).1;
            (r == w && forall k :: i <= k ==> !BeamHits(w, k)) ||
            (exists k :: FirstBeamHit(w, i, k) && r == Destroyed(w, k, expSize))
    decreases |w.bombs| - i
  {
    var r := CollideFrom(w, i, expSize).1;
    if i >= |w.bombs| {
      assert forall k :: i <= k ==> !BeamHits(w, k);
    } else if w.bombs[i].Some? && w.beam.Some? && Overlaps(w.beam.value.rect, w.bombs[i].value.rct) {
      var w' := Destroyed(w, i, expSize);
      PassWithoutBeamIsIdentity(w', i + 1, expSize);
      assert FirstBeamHit(w, i, i);
    } else {
      assert !BeamHits(w, i);
      RunningPassDestroysAtMostOne(w, i + 1, expSize);
      if r == w && forall k :: i + 1 <= k ==> !BeamHits(w, k) {
        assert forall k :: i <= k ==> !BeamHits(w, k);
      } else {
        var k :| FirstBeamHit(w, i + 1, k) && r == Destroyed(w, k, expSize);
        assert FirstBeamHit(w, i, k);
      }
    }
  }

  /** The explosion sweep as the game's loop performs it: it deletes an
      expired explosion (life <= 0) from the list it is walking, which makes
      the walk skip the entry after it; a live one is updated. */
  function Sweep(xs: seq<ExplosionState>): seq<ExplosionState>
  {
    if xs == [] then []
    else if xs[0].life <= 0 then (if |xs| == 1 then [] else [xs[1]] + Sweep(xs[2..]))
    else [xs[0].(life := xs[0].life - 1)] + Sweep(xs[1..])
  }

  /** The walk's step over an expired entry at index i: deleting it and
      moving to index i + 1 leaves the entry that took its place behind. */
  lemma SweepDeleteStep(xs: seq<ExplosionState>, cur: seq<ExplosionState>, i: nat)
    requires i < |cur| && cur[i].life <= 0
    requires Sweep(xs) == cur[..i] + Sweep(cur[i..])
    ensures var next := cur[..i] + cur[i + 1..];
            (i + 1 <= |next| ==> Sweep(xs) == next[..i + 1] + Sweep(next[i + 1..])) &&
            (i + 1 == |next| + 1 ==> Sweep(xs) == next)
  {
    var next := cur[..i] + cur[i + 1..];
    assert cur[i..][0] == cur[i];
    if i + 1 < |cur| {
      assert cur[i..][1] == cur[i + 1] && cur[i..][2..] == cur[i + 2..];
      assert next[..i + 1] == cur[..i] + [cur[i + 1]];
      assert next[i + 1..] == cur[i + 2..];
    } else {
      assert next == cur[..i];
    }
  }

  /** The walk's step over a live entry at index i: it is updated in place. */
  lemma SweepUpdateStep(xs: seq<ExplosionState>, cur: seq<ExplosionState>, i: nat)
    requires i < |cur| && cur[i].life > 0
    requires Sweep(xs) == cur[..i] + Sweep(cur[i..])
    ensures var next := cur[i := cur[i].(life := cur[i].life - 1)];
            Sweep(xs) == next[..i + 1] + Sweep(next[i + 1..])
  {
    var next := cur[i := cur[i].(life := cur[i].life - 1)];
    assert cur[i..][0] == cur[i];
    assert cur[i..][1..] == cur[i + 1..] == next[i + 1..];
    assert next[..i + 1] == cur[..i] + [next[i]];
  }

  /** Every live explosion updated and every expired one removed. */
  function Expire(xs: seq<ExplosionState>): seq<ExplosionState>
  {
    if xs == [] then []
    else if xs[0].life <= 0 then Expire(xs[1..])
    else [xs[0].(life := xs[0].life - 1)] + Expire(xs[1..])
  }

  /** Explosions whose lives lie in 0..10 keep them there through a sweep. */
  lemma {:induction false} SweepKeepsLives(xs: seq<ExplosionState>)
    requires forall k :: 0 <= k < |xs| ==> 0 <= xs[k].life <= InitialLife
    ensures forall k :: 0 <= k < |Sweep(xs)| ==> 0 <= Sweep(xs)[k].life <= InitialLife
  {
    if xs != [] {
      if xs[0].life <= 0 {
        if |xs| > 1 {
          SweepKeepsLives(xs[2..]);
        }
      } else {
        SweepKeepsLives(xs[1..]);
      }
    }
  }

  /** The number of live explosions. */
  function LiveCount(xs: seq<ExplosionState>): nat
  {
    if xs == [] then 0 else (if xs[0].life > 0 then 1 else 0) + LiveCount(xs[1..])
  }

  /** A sweep never removes a live explosion and never adds one, and it
      removes at least one entry whenever an expired one is present. */
  lemma {:induction false} SweepLength(xs: seq<ExplosionState>)
    ensures LiveCount(xs) <= |Sweep(xs)| <= |xs|
    ensures (exists k :: 0 <= k < |xs| && xs[k].life <= 0) ==> |Sweep(xs)| < |xs|
  {
    if xs != [] {
      if xs[0].life <= 0 {
        if |xs| > 1 {
          SweepLength(xs[2..]);
          assert xs[1..][1..] == xs[2..];
        }
      } else {
        SweepLength(xs[1..]);
        if exists k :: 0 <= k < |xs| && xs[k].life <= 0 {
          var k :| 0 <= k < |xs| && xs[k].life <= 0;
          assert xs[1..][k - 1].life <= 0;
        }
      }
    }
  }

  /** Every live explosion survives a sweep, updated or, when it was
      skipped, as it was. */
  lemma {:induction false} SweepKeepsLiveEntries(xs: seq<ExplosionState>)
    ensures forall k :: 0 <= k < |xs| && xs[k].life > 0 ==>
              xs[k] in Sweep(xs) || xs[k].(life := xs[k].life - 1) in Sweep(xs)
  {
    if xs != [] {
      if xs[0].life <= 0 {
        if |xs| > 1 {
          SweepKeepsLiveEntries(xs[2..]);
          forall k | 2 <= k < |xs| && xs[k].life > 0
            ensures xs[k] in Sweep(xs) || xs[k].(life := xs[k].life - 1) in Sweep(xs)
          {
            assert xs[2..][k - 2] == xs[k];
          }
        }
      } else {
        SweepKeepsLiveEntries(xs[1..]);
        forall k | 1 <= k < |xs| && xs[k].life > 0
          ensures xs[k] in Sweep(xs) || xs[k].(life := xs[k].life - 1) in Sweep(xs)
        {
          assert xs[1..][k - 1] == xs[k];
        }
      }
    }
  }

  /** e is an entry of xs, or a live entry of xs with its life decremented. */
  predicate SweptFrom(xs: seq<ExplosionState>, e: ExplosionState)
  {
    exists k :: 0 <= k < |xs| && (e == xs[k] || (xs[k].life > 0 && e == xs[k].(life := xs[k].life - 1)))
  }

  /** A sweep adds nothing: every entry of its result is an entry of the
      input, unchanged or, if it was live, updated. */
  lemma {:induction false} SweepAddsNothing(xs: seq<ExplosionState>)
    ensures forall e :: e in Sweep(xs) ==> SweptFrom(xs, e)
  {
    if xs != [] {
      if xs[0].life <= 0 {
        if |xs| > 1 {
          SweepAddsNothing(xs[2..]);
          forall e | e in Sweep(xs) ensures SweptFrom(xs, e)
          {
            if e == xs[1] {
              assert SweptFrom(xs, e);
            } else {
              assert e in Sweep(xs[2..]);
              var k :| 0 <= k < |xs[2..]| &&
                (e == xs[2..][k] || (xs[2..][k].life > 0 && e == xs[2..][k].(life := xs[2..][k].life - 1)));
              assert xs[2..][k] == xs[k + 2];
            }
          }
        }
      } else {
        SweepAddsNothing(xs[1..]);
        forall e | e in Sweep(xs) ensures SweptFrom(xs, e)
        {
          if e == xs[0].(life := xs[0].life - 1) {
            assert SweptFrom(xs, e);
          } else {
            assert e in Sweep(xs[1..]);
            var k :| 0 <= k < |xs[1..]| &&
              (e == xs[1..][k] || (xs[1..][k].life > 0 && e == xs[1..][k].(life := xs[1..][k].life - 1)));
            assert xs[1..][k] == xs[k + 1];
          }
        }
      }
    }
  }

  /** When no expired explosion stands before the last entry, the sweep
      updates every live one and removes every expired one. */
  lemma {:induction false} SweepIsExpireWithoutSkips(xs: seq<ExplosionState>)
    requires forall k :: 0 <= k < |xs| - 1 ==> xs[k].life > 0
    ensures Sweep(xs) == Expire(xs)
  {
    if |xs| > 1 {
      assert xs[0].life > 0;
      SweepIsExpireWithoutSkips(xs[1..]);
    }
  }

  /** The entry after a deleted one is skipped: an expired one stays in the
      list, and a live one is neither removed nor updated in that frame. */
  lemma SweepSkipsAfterDeletion(r: Rect, life: int)
    ensures Sweep([ExplosionState(r, 0), ExplosionState(r, life)]) == [ExplosionState(r, life)]
    ensures Expire([ExplosionState(r, 0), ExplosionState(r, life)]) != [ExplosionState(r, life)]
  {
    var xs := [ExplosionState(r, 0), ExplosionState(r, life)];
    assert xs[2..] == [] && xs[1..] == [ExplosionState(r, life)] && xs[1..][1..] == [];
    assert Expire(xs) == Expire(xs[1..]);
    assert Expire(xs[1..]) == if life > 0 then [ExplosionState(r, life - 1)] else [];
  }

  /** Every occupied slot updated by its bomb's step; empty slots stay empty. */
  function BombsNext(s: seq<Option<BombState>>): (s': seq<Option<BombState>>)
    ensures |s'| == |s|
  {
    seq(|s|, k requires 0 <= k < |s| => if s[k].Some? then Some(BombNext(s[k].value)) else None)
  }

  /** The beam of a frame: a new one whenever the fire key is held, from the
      bird's current place and facing, or else the one that survived the
      collision pass; then it moves. */
  function BeamNext(bird: BirdState, beam: Option<BeamState>, held: set<Key>, assets: Assets): Option<BeamState>
    requires IsDirection(bird.dire)
  {
    var fired := if Space in held then Some(SpawnBeam(bird, assets.beamSize(bird.dire.0, bird.dire.1))) else beam;
    if fired.Some? then Some(Fly(fired.value, 1)) else None
  }

  /** One frame: quit, or the collision pass, which may end the game; then
      fire, move the bird, the bombs and the beam, and sweep the explosions. */
  function FrameSpec(w: World, input: Input, assets: Assets): (r: (Status, World))
    requires IsDirection(w.bird.dire)
    ensures r.0 == Quit <==> input.quit
    ensures |r.1.bombs| == |w.bombs|
    ensures IsDirection(r.1.bird.dire)
  {
    if input.quit then (Quit, w)
    else
      var (status, w1) := CollideFrom(w, 0, assets.explosionSize);
      if status == GameOver then (GameOver, w1)
      else
        (Running, World(BirdNext(w1.bird, input.held), BombsNext(w1.bombs),
                        BeamNext(w1.bird, w1.beam, input.held, assets), Sweep(w1.explosions)))
  }

  /** What the loop keeps: the bird faces one of the eight directions, every
      bomb and the beam move in one of them, and every explosion's life lies
      in 0..10. */
  predicate WorldInv(w: World)
  {
    && IsDirection(w.bird.dire)
    && (forall k :: 0 <= k < |w.bombs| && w.bombs[k].Some? ==> IsDirection((w.bombs[k].value.vx, w.bombs[k].value.vy)))
    && (w.beam.Some? ==> IsDirection((w.beam.value.vx, w.beam.value.vy)))
    && (forall k :: 0 <= k < |w.explosions| ==> 0 <= w.explosions[k].life <= InitialLife)
  }

  /** The collision pass keeps the invariant: it only empties slots and the
      beam and appends fresh explosions. */
  lemma {:induction false} CollideKeepsInv(w: World, i: nat, expSize: (nat, nat))
    requires WorldInv(w)
    ensures WorldInv(CollideFrom(w, i, expSize).1)
    decreases |w.bombs| - i
  {
    if i < |w.bombs| && w.bombs[i].Some? && !Overlaps(w.bird.rct, w.bombs[i].value.rct) {
      if w.beam.Some? && Overlaps(w.beam.value.rect, w.bombs[i].value.rct) {
        var w' := Destroyed(w, i, expSize);
        assert WorldInv(w');
        CollideKeepsInv(w', i + 1, expSize);
      } else {
        CollideKeepsInv(w, i + 1, expSize);
      }
    } else if i < |w.bombs| && w.bombs[i].None? {
      CollideKeepsInv(w, i + 1, expSize);
    }
  }

  /** A frame keeps the invariant. */
  lemma FrameKeepsInv(w: World, input: Input, assets: Assets)
    requires WorldInv(w)
    ensures WorldInv(FrameSpec(w, input, assets).1)
  {
    if !input.quit {
      var w1 := CollideFrom(w, 0, assets.explosionSize).1;
      CollideKeepsInv(w, 0, assets.explosionSize);
      SweepKeepsLives(w1.explosions);
    }
  }

  /** A bird on the canvas stays on it, whatever the frame's outcome. */
  lemma BirdStaysOnCanvas(w: World, input: Input, assets: Assets)
    requires IsDirection(w.bird.dire) && InBounds(w.bird.rct)
    ensures InBounds(FrameSpec(w, input, assets).1.bird.rct)
  {
  }

  /** The game ends in a frame exactly when no quit event is queued and the
      bird touches a bomb in one of the occupied slots. */
  lemma GameOverIffCollision(w: World, input: Input, assets: Assets)
    requires IsDirection(w.bird.dire)
    ensures FrameSpec(w, input, assets).0 == GameOver <==>
            !input.quit && exists k :: 0 <= k && BirdTouches(w, k)
  {
    GameOverIffBirdTouches(w, 0, assets.explosionSize);
  }

  /** Slot k held a bomb before the frame and is empty after it. */
  predicate Cleared(w: World, w': World, k: int)
  {
    0 <= k < |w.bombs| && k < |w'.bombs| && w.bombs[k].Some? && w'.bombs[k].None?
  }

  /** In a frame that goes on, at most one slot is emptied, and only the
      first slot whose bomb the beam touches; the beam that did it is gone
      unless the fire key made a new one. */
  lemma AtMostOneBombPerFrame(w: World, input: Input, assets: Assets)
    requires IsDirection(w.bird.dire)
    requires FrameSpec(w, input, assets).0 == Running
    ensures forall j, k ::
              (Cleared(w, FrameSpec(w, input, assets).1, j) && Cleared(w, FrameSpec(w, input, assets).1, k)) ==> j == k
    ensures forall k :: Cleared(w, FrameSpec(w, input, assets).1, k) ==> FirstBeamHit(w, 0, k)
  {
    var w1 := CollideFrom(w, 0, assets.explosionSize).1;
    RunningPassDestroysAtMostOne(w, 0, assets.explosionSize);
    var w' := FrameSpec(w, input, assets).1;
    assert forall k :: 0 <= k < |w'.bombs| ==> (w'.bombs[k].None? <==> w1.bombs[k].None?);
  }

  /** Holding the fire key replaces the beam in every frame that goes on,
      whether or not a beam was flying: the new one starts from the bird's
      place and facing before the bird moves. */
  lemma FireReplacesBeam(w: World, input: Input, assets: Assets)
    requires IsDirection(w.bird.dire)
    requires FrameSpec(w, input, assets).0 == Running && Space in input.held
    ensures FrameSpec(w, input, assets).1.beam ==
            Some(Fly(SpawnBeam(w.bird, assets.beamSize(w.bird.dire.0, w.bird.dire.1)), 1))
  {
  }

  /** A beam that touches no bomb and is not replaced keeps flying, also
      once it has left the canvas: nothing removes it for that. */
  lemma BeamNeverLeavesForBounds(w: World, input: Input, assets: Assets)
    requires IsDirection(w.bird.dire) && w.beam.Some?
    requires FrameSpec(w, input, assets).0 == Running && Space !in input.held
    requires forall k :: 0 <= k ==> !BeamHits(w, k)
    ensures FrameSpec(w, input, assets).1.beam == Some(Fly(w.beam.value, 1))
  {
    RunningPassDestroysAtMostOne(w, 0, assets.explosionSize);
  }

  /** The frames of a game, in order, until one of them does not go on. */
  function PlaySpec(w: World, inputs: seq<Input>, assets: Assets): (r: (Status, World))
    requires IsDirection(w.bird.dire)
    ensures |r.1.bombs| == |w.bombs| && IsDirection(r.1.bird.dire)
    decreases |inputs|
  {
    if inputs == [] then (Running, w)
    else
      var (status, w') := FrameSpec(w, inputs[0], assets);
      if status != Running then (status, w') else PlaySpec(w', inputs[1..], assets)
  }

  /** Over a whole game the invariant holds, and a bird that starts on the
      canvas is on it after every frame. */
  lemma {:induction false} PlayKeepsInv(w: World, inputs: seq<Input>, assets: Assets)
    requires WorldInv(w)
    ensures WorldInv(PlaySpec(w, inputs, assets).1)
    ensures InBounds(w.bird.rct) ==> InBounds(PlaySpec(w, inputs, assets).1.bird.rct)
    decreases |inputs|
  {
    if inputs != [] {
      var w' := FrameSpec(w, inputs[0], assets).1;
      FrameKeepsInv(w, inputs[0], assets);
      if InBounds(w.bird.rct) {
        BirdStaysOnCanvas(w, inputs[0], assets);
      }
      PlayKeepsInv(w', inputs[1..], assets);
    }
  }

  /** The random draws for one bomb: radius, centre and velocity. */
  datatype BombSeed = BombSeed(rad: int, cx: int, cy: int, v: (int, int))

  /** The ranges the game draws from. */
  predicate ValidSeed(s: BombSeed)
  {
    5 <= s.rad <= 30 && 0 <= s.cx <= WIDTH && 0 <= s.cy <= HEIGHT && s.v in BombMoveDirection
  }

  function SeedBomb(s: BombSeed): BombState
    requires ValidSeed(s)
  {
    BombState(Rect(0, 0, 2 * s.rad, 2 * s.rad).WithCenter(s.cx, s.cy), s.v.0, s.v.1)
  }

  /** The state before the first frame: the bird of the given sprite size
      centred on (900, 400) facing right, one bomb per seed, no beam and no
      explosion. */
  function InitialWorld(birdSize: (nat, nat), seeds: seq<BombSeed>): (w: World)
    requires forall k :: 0 <= k < |seeds| ==> ValidSeed(seeds[k])
    ensures WorldInv(w) && |w.bombs| == |seeds|
  {
    var bombs := seq(|seeds|, k requires 0 <= k < |seeds| => Some(SeedBomb(seeds[k])));
    forall k | 0 <= k < |seeds|
      ensures IsDirection((bombs[k].value.vx, bombs[k].value.vy))
    {
      assert bombs[k] == Some(SeedBomb(seeds[k]));
      BombMoveDirectionIsEightWay(seeds[k].v);
    }
    World(BirdState(Rect(0, 0, birdSize.0, birdSize.1).WithCenter(900, 400), (5, 0), Facing((5, 0))),
          bombs, None, [])
  }
}
