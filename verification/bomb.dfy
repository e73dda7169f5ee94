/** The bouncing hazard: a square of side twice its radius that flips a
    velocity component whenever the bounds check fails on that axis before
    it moves. */
module Bombs {
  import opened Geometry

  /** The velocities a bomb is drawn from: (i, j) for i and j in -5, 0, 5,
      except (0, 0), in the order the game lists them. */
  const BombMoveDirection: seq<(int, int)> :=
    [(-5, -5), (-5, 0), (-5, 5), (0, -5), (0, 5), (5, -5), (5, 0), (5, 5)]

  /** The drawable velocities are exactly the eight directions. */
  lemma BombMoveDirectionIsEightWay(v: (int, int))
    ensures v in BombMoveDirection <==> IsDirection(v)
  {
  }

  /** The observable state of a bomb: its rectangle and its velocity. */
  datatype BombState = BombState(rct: Rect, vx: int, vy: int)

  /** The velocity after the bounce test on the pre-move rectangle: each
      component is negated exactly when its own axis fails, independently of
      the other, so the speeds are kept. */
  function Bounce(r: Rect, vx: int, vy: int): (v: (int, int))
    ensures CheckBound(r).0 ==> v.0 == vx
    ensures !CheckBound(r).0 ==> v.0 == -vx
    ensures CheckBound(r).1 ==> v.1 == vy
    ensures !CheckBound(r).1 ==> v.1 == -vy
    ensures IsDirection((vx, vy)) ==> IsDirection(v)
  {
    var (yoko, tate) := CheckBound(r);
    var vx' := if !yoko then vx * -1 else vx;
    var vy' := if !tate then vy * -1 else vy;
    (vx', vy')
  }

  /** One bomb update on values: bounce, then move by the new velocity. */
  function BombNext(b: BombState): BombState
  {
    var v := Bounce(b.rct, b.vx, b.vy);
    BombState(b.rct.Move(v.0, v.1), v.0, v.1)
  }

  /** A bomb whose velocity is one of the eight directions keeps a velocity
      of that set, and its size, through any number of updates. */
  lemma {:induction false} BombNextKeepsDirection(b: BombState, n: nat)
    requires IsDirection((b.vx, b.vy))
    ensures IsDirection((Iterate(b, n).vx, Iterate(b, n).vy))
    ensures Iterate(b, n).rct.width == b.rct.width && Iterate(b, n).rct.height == b.rct.height
  {
    if n > 0 {
      BombNextKeepsDirection(b, n - 1);
    }
  }

  /** n successive bomb updates. */
  function Iterate(b: BombState, n: nat): BombState
  {
    if n == 0 then b else BombNext(Iterate(b, n - 1))
  }

  /** A bomb centred on the left edge (x = 0) moving left turns right at
      once: its rectangle already starts left of the canvas. */
  lemma LeftEdgeBombTurnsRight(rad: nat, cy: int)
    requires 5 <= rad <= 30
    ensures var b := BombState(Rect(0, 0, 2 * rad, 2 * rad).WithCenter(0, cy), -5, 5);
            BombNext(b).vx == 5 && BombNext(b).rct.left == b.rct.left + 5
  {
  }

  /** A bomb whose rectangle touches the left edge exactly is still inside:
      it moves one step off the canvas before it turns. */
  lemma FlushBombOvershootsOneStep(top: int, rad: nat)
    requires 5 <= rad <= 30 && 0 <= top && top + 2 * rad <= HEIGHT - 5
    ensures var b := BombState(Rect(0, top, 2 * rad, 2 * rad), -5, 5);
            BombNext(b).rct.left == -5 && BombNext(BombNext(b)).vx == 5
  {
  }

  /** A bomb of width 60 whose left edge is at -30 and which moves left
      alternates between that state and a left edge of -25 moving right. */
  lemma {:induction false} EdgeBombAlternates(b: BombState, n: nat)
    requires b.rct.left == -30 && b.rct.width == 60 && b.vx == -5
    ensures Iterate(b, n).rct.width == 60
    ensures n % 2 == 0 ==> Iterate(b, n).rct.left == -30 && Iterate(b, n).vx == -5
    ensures n % 2 == 1 ==> Iterate(b, n).rct.left == -25 && Iterate(b, n).vx == 5
  {
    if n > 0 {
      EdgeBombAlternates(b, n - 1);
    }
  }

  /** A bomb drawn at the very edge with a radius over 5 never gets back on
      the canvas: after the turn it is still off the canvas and turns back,
      so it alternates between two horizontal states and its left edge stays
      negative forever. */
  lemma EdgeBombOscillates(cy: int)
    ensures var b := BombState(Rect(0, 0, 60, 60).WithCenter(0, cy), -5, 5);
            Iterate(b, 2).rct.left == b.rct.left && Iterate(b, 2).vx == b.vx
    ensures var b := BombState(Rect(0, 0, 60, 60).WithCenter(0, cy), -5, 5);
            forall n: nat :: Iterate(b, n).rct.left < 0
  {
    var b := BombState(Rect(0, 0, 60, 60).WithCenter(0, cy), -5, 5);
    assert b.rct.left == -30;
    forall n: nat ensures Iterate(b, n).rct.left < 0 {
      EdgeBombAlternates(b, n);
    }
    EdgeBombAlternates(b, 2);
  }

  class Bomb {
    var rct: Rect
    var vx: int
    var vy: int

    function State(): BombState
      reads this
    {
      BombState(rct, vx, vy)
    }

    /** A bomb of radius rad centred on (cx, cy) with velocity v; the random
        draws of the game are the parameters, restricted to their ranges. */
    constructor (rad: int, cx: int, cy: int, v: (int, int))
      requires 5 <= rad <= 30
      requires 0 <= cx <= WIDTH && 0 <= cy <= HEIGHT
      requires v in BombMoveDirection
      ensures State() == BombState(Rect(0, 0, 2 * rad, 2 * rad).WithCenter(cx, cy), v.0, v.1)
      ensures IsDirection((vx, vy))
    {
      BombMoveDirectionIsEightWay(v);
      rct := Rect(0, 0, 2 * rad, 2 * rad).WithCenter(cx, cy);
      vx, vy := v.0, v.1;
    }

    /** Bounces on the pre-move rectangle, then moves. */
    method Update()
      modifies this
      ensures State() == BombNext(old(State()))
    {
      var (yoko, tate) := CheckBound(rct);
      if !yoko {
        vx := vx * -1;
      }
      if !tate {
        vy := vy * -1;
      }
      rct := rct.Move(vx, vy);
    }
  }
}
