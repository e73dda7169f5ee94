/** The frame loop over objects: the bird, an array of bomb slots in which a
    destroyed bomb becomes null, an optional beam, and the list of
    explosions. Each step is proved to do to the objects what module
    GameSpec says it does to values. */
module Game {
  import opened Geometry
  import opened Birds
  import opened Bombs
  import opened Beams
  import opened Explosions
  import opened GameSpec

  /** The array holds one slot per entry of s: null for an empty slot, else
      a bomb in the state s gives. */
  ghost predicate SlotsHold(bombs: array<Bomb?>, s: seq<Option<BombState>>)
    reads bombs, bombs[..]
  {
    bombs.Length == |s| &&
    forall k :: 0 <= k < |s| ==>
      (bombs[k] == null <==> s[k].None?) && (bombs[k] != null ==> bombs[k].State() == s[k].value)
  }

  /** No bomb object sits in two slots. */
  ghost predicate SlotsDistinct(bombs: array<Bomb?>)
    reads bombs
  {
    forall j, k :: 0 <= j < k < bombs.Length && bombs[j] != null ==> bombs[j] != bombs[k]
  }

  ghost predicate BeamHolds(beam: Beam?, b: Option<BeamState>)
    reads beam
  {
    (beam == null <==> b.None?) && (beam != null ==> beam.State() == b.value)
  }

  ghost predicate ExplosionsHold(explosions: seq<Explosion>, xs: seq<ExplosionState>)
    reads explosions
  {
    |explosions| == |xs| && forall k :: 0 <= k < |xs| ==> explosions[k].State() == xs[k]
  }

  /** No explosion object is listed twice. */
  ghost predicate Distinct(explosions: seq<Explosion>)
  {
    forall j, k :: 0 <= j < k < |explosions| ==> explosions[j] != explosions[k]
  }

  /** The objects hold the world w. */
  ghost predicate Holds(bird: Bird, bombs: array<Bomb?>, beam: Beam?, explosions: seq<Explosion>, w: World)
    reads bird, bombs, bombs[..], beam, explosions
  {
    bird.State() == w.bird && SlotsHold(bombs, w.bombs) && BeamHolds(beam, w.beam) &&
    ExplosionsHold(explosions, w.explosions)
  }

  /** The collision pass over the slots in order: a bomb the bird touches
      ends the game; otherwise a bomb the beam touches explodes, and the
      beam is gone for the rest of the pass. */
  method CollisionPass(bird: Bird, bombs: array<Bomb?>, beam: Beam?, explosions: seq<Explosion>,
                       expSize: (nat, nat), ghost w: World)
    returns (status: Status, beam': Beam?, explosions': seq<Explosion>)
    requires Holds(bird, bombs, beam, explosions, w) && Distinct(explosions)
    modifies bird, bombs
    ensures status == CollideFrom(w, 0, expSize).0
    ensures Holds(bird, bombs, beam', explosions', CollideFrom(w, 0, expSize).1)
    ensures forall k :: 0 <= k < bombs.Length ==> bombs[k] == null || bombs[k] == old(bombs[k])
    ensures beam' == null || beam' == beam
    ensures Distinct(explosions') && forall e :: e in explosions' ==> e in explosions || fresh(e)
  {
    ghost var cur := w;
    beam', explosions' := beam, explosions;
    var i := 0;
    while i < bombs.Length
      invariant 0 <= i <= bombs.Length
      invariant CollideFrom(cur, i, expSize) == CollideFrom(w, 0, expSize)
      invariant Holds(bird, bombs, beam', explosions', cur)
      invariant forall k :: 0 <= k < bombs.Length ==> bombs[k] == null || bombs[k] == old(bombs[k])
      invariant beam' == null || beam' == beam
      invariant Distinct(explosions') && forall e :: e in explosions' ==> e in explosions || fresh(e)
    {
      var bomb := bombs[i];
      if bomb != null {
        if Overlaps(bird.rct, bomb.rct) {
          beam' := null;
          bombs[i] := null;
          bird.ChangeImg(GameOverPicture);
          cur := Defeated(cur, i);
          return GameOver, beam', explosions';
        }
      }
      if beam' != null && bomb != null {
        if Overlaps(beam'.rect, bomb.rct) {
          var e := new Explosion(bomb, expSize);
          explosions' := explosions' + [e];
          beam' := null;
          bombs[i] := null;
          bird.ChangeImg(HitPicture);
          cur := Destroyed(cur, i, expSize);
        }
      }
      i := i + 1;
    }
    status := Running;
  }

  /** Updates the bomb of every occupied slot. */
  method UpdateBombs(bombs: array<Bomb?>, ghost s: seq<Option<BombState>>)
    requires SlotsHold(bombs, s) && SlotsDistinct(bombs)
    modifies bombs[..]
    ensures SlotsHold(bombs, BombsNext(s))
  {
    for i := 0 to bombs.Length
      invariant forall k :: 0 <= k < i && bombs[k] != null ==> bombs[k].State() == BombNext(s[k].value)
      invariant forall k :: i <= k < bombs.Length && bombs[k] != null ==> bombs[k].State() == s[k].value
    {
      if bombs[i] != null {
        bombs[i].Update();
      }
    }
  }

  /** Deleting entry i from a list of distinct explosions and from the states
      they hold keeps the two in step and the list distinct. */
  lemma DeletionKeepsHold(lst: seq<Explosion>, cur: seq<ExplosionState>, i: nat)
    requires i < |lst| && ExplosionsHold(lst, cur) && Distinct(lst)
    ensures ExplosionsHold(lst[..i] + lst[i + 1..], cur[..i] + cur[i + 1..])
    ensures Distinct(lst[..i] + lst[i + 1..])
    ensures forall e :: e in lst[..i] + lst[i + 1..] ==> e in lst
  {
    var lst', cur' := lst[..i] + lst[i + 1..], cur[..i] + cur[i + 1..];
    assert forall k :: 0 <= k < |lst'| ==> lst'[k] == lst[if k < i then k else k + 1];
    assert forall k :: 0 <= k < |cur'| ==> cur'[k] == cur[if k < i then k else k + 1];
  }

  /** Walks the explosion list by index, deleting an expired entry in place
      (so the walk skips the entry that moves into its index) and updating a
      live one. */
  method SweepExplosions(explosions: seq<Explosion>, ghost xs: seq<ExplosionState>)
    returns (lst: seq<Explosion>)
    requires ExplosionsHold(explosions, xs) && Distinct(explosions)
    modifies set e | e in explosions
    ensures ExplosionsHold(lst, Sweep(xs)) && Distinct(lst)
    ensures forall e :: e in lst ==> e in explosions
  {
    lst := explosions;
    ghost var cur := xs;
    var i := 0;
    while i < |lst|
      invariant 0 <= i <= |lst| + 1
      invariant ExplosionsHold(lst, cur) && Distinct(lst)
      invariant forall e :: e in lst ==> e in explosions
      invariant i <= |lst| ==> Sweep(xs) == cur[..i] + Sweep(cur[i..])
      invariant i == |lst| + 1 ==> Sweep(xs) == cur
    {
      if lst[i].life <= 0 {
        SweepDeleteStep(xs, cur, i);
        DeletionKeepsHold(lst, cur, i);
        lst := lst[..i] + lst[i + 1..];
        cur := cur[..i] + cur[i + 1..];
      } else {
        SweepUpdateStep(xs, cur, i);
        assert lst[i] in lst;
        var flip := lst[i].Update();
        cur := cur[i := cur[i].(life := cur[i].life - 1)];
      }
      i := i + 1;
    }
  }

  /** The part of a frame after a collision pass that did not end the game:
      fire when the fire key is held, move the bird, the bombs and the beam,
      and sweep the explosions. */
  method Advance(bird: Bird, bombs: array<Bomb?>, beam: Beam?, explosions: seq<Explosion>,
                 input: Input, assets: Assets, ghost w: World)
    returns (beam': Beam?, explosions': seq<Explosion>)
    requires bird.Valid() && Holds(bird, bombs, beam, explosions, w)
    requires SlotsDistinct(bombs) && Distinct(explosions)
    modifies bird, bombs[..], beam, set e | e in explosions
    ensures Holds(bird, bombs, beam', explosions',
                  World(BirdNext(w.bird, input.held), BombsNext(w.bombs),
                        BeamNext(w.bird, w.beam, input.held, assets), Sweep(w.explosions)))
    ensures bird.Valid() && Distinct(explosions')
    ensures beam' == null || beam' == beam || fresh(beam')
    ensures forall e :: e in explosions' ==> e in explosions
  {
    beam' := beam;
    if Space in input.held {
      beam' := new Beam(bird, assets.beamSize(bird.dire.0, bird.dire.1));
    }
    ghost var fired := if Space in input.held
      then Some(SpawnBeam(w.bird, assets.beamSize(w.bird.dire.0, w.bird.dire.1))) else w.beam;
    assert BeamHolds(beam', fired);
    bird.Update(input.held);
    assert BeamHolds(beam', fired);
    UpdateBombs(bombs, w.bombs);
    assert bird.State() == BirdNext(w.bird, input.held) && BeamHolds(beam', fired);
    if beam' != null {
      beam'.Update();
    }
    assert BeamHolds(beam', BeamNext(w.bird, w.beam, input.held, assets));
    explosions' := SweepExplosions(explosions, w.explosions);
  }

  /** One iteration of the frame loop. A queued quit event ends it at once.
      Otherwise the collision pass runs and may end the game; then a new
      beam replaces the old one whenever the fire key is held, the bird,
      the bombs and the beam move, and the explosions are swept. */
  method Frame(bird: Bird, bombs: array<Bomb?>, beam: Beam?, explosions: seq<Explosion>,
               input: Input, assets: Assets, ghost w: World)
    returns (status: Status, beam': Beam?, explosions': seq<Explosion>)
    requires bird.Valid() && Holds(bird, bombs, beam, explosions, w)
    requires SlotsDistinct(bombs) && Distinct(explosions)
    modifies bird, bombs, bombs[..], beam, set e | e in explosions
    ensures status == FrameSpec(w, input, assets).0
    ensures Holds(bird, bombs, beam', explosions', FrameSpec(w, input, assets).1)
    ensures bird.Valid() && SlotsDistinct(bombs) && Distinct(explosions')
    ensures forall k :: 0 <= k < bombs.Length ==> bombs[k] == null || bombs[k] == old(bombs[k])
    ensures beam' == null || beam' == beam || fresh(beam')
    ensures forall e :: e in explosions' ==> e in explosions || fresh(e)
  {
    if input.quit {
      return Quit, beam, explosions;
    }
    ghost var w1 := CollideFrom(w, 0, assets.explosionSize).1;
    status, beam', explosions' := CollisionPass(bird, bombs, beam, explosions, assets.explosionSize, w);
    if status == GameOver {
      return;
    }
    beam', explosions' := Advance(bird, bombs, beam', explosions', input, assets, w1);
  }

  /** The objects before the first frame: the bird of the given sprite size
      centred on (900, 400), one bomb per seed, no beam and no explosion. */
  method NewGame(birdSize: (nat, nat), seeds: seq<BombSeed>)
    returns (bird: Bird, bombs: array<Bomb?>, beam: Beam?, explosions: seq<Explosion>)
    requires |seeds| == NUM_OF_BOMBS && forall k :: 0 <= k < |seeds| ==> ValidSeed(seeds[k])
    ensures Holds(bird, bombs, beam, explosions, InitialWorld(birdSize, seeds))
    ensures bird.Valid() && SlotsDistinct(bombs) && Distinct(explosions)
    ensures fresh(bird) && fresh(bombs) && forall k :: 0 <= k < bombs.Length && bombs[k] != null ==> fresh(bombs[k])
    ensures beam == null && explosions == []
  {
    bombs := new Bomb?[|seeds|];
    for k := 0 to |seeds|
      invariant forall j :: 0 <= j < k ==> bombs[j] != null && fresh(bombs[j]) && bombs[j].State() == SeedBomb(seeds[j])
      invariant forall j, l :: 0 <= j < l < k ==> bombs[j] != bombs[l]
    {
      var s := seeds[k];
      bombs[k] := new Bomb(s.rad, s.cx, s.cy, s.v);
    }
    bird := new Bird((900, 400), birdSize.0, birdSize.1);
    beam, explosions := null, [];
  }

  /** The game: the objects of NewGame, then one frame per input until a
      frame quits or ends the game, or the inputs run out. */
  method Play(birdSize: (nat, nat), seeds: seq<BombSeed>, inputs: seq<Input>, assets: Assets)
    returns (status: Status, bird: Bird, bombs: array<Bomb?>, beam: Beam?, explosions: seq<Explosion>)
    requires |seeds| == NUM_OF_BOMBS && forall k :: 0 <= k < |seeds| ==> ValidSeed(seeds[k])
    ensures status == PlaySpec(InitialWorld(birdSize, seeds), inputs, assets).0
    ensures Holds(bird, bombs, beam, explosions, PlaySpec(InitialWorld(birdSize, seeds), inputs, assets).1)
  {
    bird, bombs, beam, explosions := NewGame(birdSize, seeds);
    ghost var w := InitialWorld(birdSize, seeds);
    status := Running;
    var i := 0;
    while i < |inputs|
      invariant 0 <= i <= |inputs| && status == Running
      invariant IsDirection(w.bird.dire)
      invariant PlaySpec(InitialWorld(birdSize, seeds), inputs, assets) == PlaySpec(w, inputs[i..], assets)
      invariant bird.Valid() && Holds(bird, bombs, beam, explosions, w)
      invariant SlotsDistinct(bombs) && Distinct(explosions)
      invariant fresh(bird) && fresh(bombs)
      invariant forall k :: 0 <= k < bombs.Length && bombs[k] != null ==> fresh(bombs[k])
      invariant beam == null || fresh(beam)
      invariant forall e :: e in explosions ==> fresh(e)
    {
      ghost var r := FrameSpec(w, inputs[i], assets);
      assert inputs[i..][0] == inputs[i] && inputs[i..][1..] == inputs[i + 1..];
      assert PlaySpec(w, inputs[i..], assets) ==
        if r.0 != Running then r else PlaySpec(r.1, inputs[i + 1..], assets);
      status, beam, explosions := Frame(bird, bombs, beam, explosions, inputs[i], assets, w);
      w := r.1;
      if status != Running {
        return;
      }
      i := i + 1;
    }
    assert inputs[i..] == [];
  }
}
