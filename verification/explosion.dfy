/** The explosion effect left by a bomb the beam destroyed: a fixed life
    counter that every update decrements, and an animation of four flipped
    images indexed by the life modulo 4. */
module Explosions {
  import opened Geometry
  import opened Bombs

  /** The life an explosion starts with. */
  const InitialLife: int := 10

  /** The four animation images as (horizontal, vertical) flips of the base
      image, in the order the game builds them. */
  const ExpImgFlips: seq<(bool, bool)> :=
    [(true, true), (true, false), (false, true), (false, false)]

  /** The observable state of an explosion. */
  datatype ExplosionState = ExplosionState(rect: Rect, life: int)

  /** The explosion of a bomb: an image of the given size centred on the
      bomb's centre, with the full life. */
  function NewExplosion(bomb: BombState, size: (nat, nat)): (e: ExplosionState)
    ensures e.life == InitialLife
    ensures e.rect.CenterX() == bomb.rct.CenterX() && e.rect.CenterY() == bomb.rct.CenterY()
    ensures e.rect.width == size.0 && e.rect.height == size.1
  {
    ExplosionState(Rect(0, 0, size.0, size.1).WithCenter(bomb.rct.CenterX(), bomb.rct.CenterY()), InitialLife)
  }

  /** The animation index for a life value: the residue of the life modulo
      the four images, for negative lives too. */
  function FrameIndex(life: int): (k: nat)
    ensures k < |ExpImgFlips| == 4
    ensures (life - k) % 4 == 0
  {
    life % |ExpImgFlips|
  }

  /** The animation indices an explosion shows over its life, from its first
      update to the tenth: 1, 0, 3, 2, 1, 0, 3, 2, 1, 0. */
  lemma {:induction false} FramesCycle(n: nat)
    requires 1 <= n <= InitialLife
    ensures FrameIndex(InitialLife - n) == [1, 0, 3, 2, 1, 0, 3, 2, 1, 0][n - 1]
  {
  }

  class Explosion {
    var rect: Rect
    var life: int

    function State(): ExplosionState
      reads this
    {
      ExplosionState(rect, life)
    }

    /** An explosion at the bomb's centre, with an image of the given size. */
    constructor (bomb: Bomb, size: (nat, nat))
      ensures State() == NewExplosion(bomb.State(), size)
    {
      rect := Rect(0, 0, size.0, size.1).WithCenter(bomb.rct.CenterX(), bomb.rct.CenterY());
      life := InitialLife;
    }

    /** Decrements the life and returns the flips of the image drawn. */
    method Update() returns (flip: (bool, bool))
      modifies this
      ensures State() == old(State()).(life := old(life) - 1)
      ensures flip == ExpImgFlips[FrameIndex(life)]
    {
      life := life - 1;
      flip := ExpImgFlips[life % |ExpImgFlips|];
    }
  }
}
