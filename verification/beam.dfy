/** The projectile: it takes the bird's facing as its velocity, starts one
    bird size ahead of the bird's centre in that direction, and then moves in
    a straight line. */
module Beams {
  import opened Geometry
  import opened Birds

  /** The observable state of a beam: its rectangle and its velocity. */
  datatype BeamState = BeamState(rect: Rect, vx: int, vy: int)

  /** The offset of the beam centre along one axis: one bird size forward,
      none, or one bird size back, for a velocity component of 5, 0 or -5. */
  function SpawnOffset(size: nat, v: int): int
  {
    size * v / 5
  }

  /** A beam fired by a bird facing in one of the eight directions, its
      image of the given size. */
  function SpawnBeam(bird: BirdState, size: (nat, nat)): (b: BeamState)
    requires IsDirection(bird.dire)
    ensures (b.vx, b.vy) == bird.dire
    ensures b.rect.width == size.0 && b.rect.height == size.1
    ensures var dx := b.rect.CenterX() - bird.rct.CenterX();
            (b.vx == 5 ==> dx == bird.rct.width) && (b.vx == 0 ==> dx == 0) &&
            (b.vx == -5 ==> dx + bird.rct.width == 0)
    ensures var dy := b.rect.CenterY() - bird.rct.CenterY();
            (b.vy == 5 ==> dy == bird.rct.height) && (b.vy == 0 ==> dy == 0) &&
            (b.vy == -5 ==> dy + bird.rct.height == 0)
  {
    var (vx, vy) := bird.dire;
    var cx := bird.rct.CenterX() + SpawnOffset(bird.rct.width, vx);
    var cy := bird.rct.CenterY() + SpawnOffset(bird.rct.height, vy);
    BeamState(Rect(0, 0, size.0, size.1).WithCenter(cx, cy), vx, vy)
  }

  /** A bird facing right fires a beam that moves right along the bird's
      centre line, centred one bird width right of the bird's centre. */
  lemma RightFacingBeam(bird: BirdState, size: (nat, nat))
    requires bird.dire == (5, 0)
    ensures SpawnBeam(bird, size).vx == 5 && SpawnBeam(bird, size).vy == 0
    ensures SpawnBeam(bird, size).rect.CenterX() == bird.rct.CenterX() + bird.rct.width
    ensures SpawnBeam(bird, size).rect.CenterY() == bird.rct.CenterY()
  {
  }

  /** n successive beam updates: a translation by n times the velocity. No
      update looks at the canvas, so a beam off the canvas keeps moving. */
  function Fly(b: BeamState, n: nat): (b': BeamState)
    ensures b'.vx == b.vx && b'.vy == b.vy
    ensures b'.rect == b.rect.Move(n * b.vx, n * b.vy)
  {
    if n == 0 then b
    else
      var p := Fly(b, n - 1);
      p.(rect := p.rect.Move(p.vx, p.vy))
  }

  class Beam {
    var vx: int
    var vy: int
    var rect: Rect

    function State(): BeamState
      reads this
    {
      BeamState(rect, vx, vy)
    }

    /** Fires from the bird's current centre and facing. */
    constructor (bird: Bird, size: (nat, nat))
      requires bird.Valid()
      ensures State() == SpawnBeam(bird.State(), size)
    {
      var (dx, dy) := bird.dire;
      vx, vy := dx, dy;
      rect := Rect(0, 0, size.0, size.1).WithCenter(
        bird.rct.CenterX() + bird.rct.width * dx / 5,
        bird.rct.CenterY() + bird.rct.height * dy / 5);
    }

    /** Moves by the velocity. */
    method Update()
      modifies this
      ensures State() == Fly(old(State()), 1)
    {
      rect := rect.Move(vx, vy);
    }
  }
}
