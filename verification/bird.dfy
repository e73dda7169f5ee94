/** The player character: keyboard movement that is reverted as a whole when
    it would leave the canvas, an eight-way facing, and the sprite chosen by
    that facing. */
module Birds {
  import opened Geometry

  /** The keys the game reads from the snapshot of held keys. */
  datatype Key = Up | Down | Left | Right | Space

  /** The movement table, in its iteration order: a key and the displacement
      it contributes while held. */
  const Delta: seq<(Key, (int, int))> :=
    [(Up, (0, -5)), (Down, (0, 5)), (Left, (-5, 0)), (Right, (5, 0))]

  /** Which image the bird shows: the one pre-rendered for a facing, or a
      numbered picture loaded on demand (hit and game-over faces). */
  datatype Sprite = Facing(dire: (int, int)) | Picture(num: int)

  /** The observable state of a bird. */
  datatype BirdState = BirdState(rct: Rect, dire: (int, int), img: Sprite)

  /** The keys of the sprite table: (5i, 5j) for i and j in -1..1. */
  function ImgKeys(): set<(int, int)>
  {
    set i: int, j: int | -1 <= i < 2 && -1 <= j < 2 :: (i * 5, j * 5)
  }

  /** The sprite table, keyed by facing. The image transforms that build
      each entry are not modelled; the entry records its key. */
  function ImgDict(): map<(int, int), Sprite>
  {
    map d | d in ImgKeys() :: Facing(d)
  }

  /** The sprite table has an entry for exactly the nine steps. */
  lemma ImgKeysAreSteps(d: (int, int))
    ensures d in ImgKeys() <==> IsStep(d)
    ensures d in ImgKeys() ==> d in ImgDict() && ImgDict()[d] == Facing(d)
  {
    if IsStep(d) {
      var i, j := d.0 / 5, d.1 / 5;
      assert -1 <= i < 2 && -1 <= j < 2 && d == (i * 5, j * 5);
    }
  }

  /** One axis of the summed key displacement. */
  function AxisSum(neg: bool, pos: bool): int
  {
    (if pos then 5 else 0) - (if neg then 5 else 0)
  }

  /** The displacement of a set of held keys: each axis is -5, 0 or 5, and
      two opposite keys cancel. */
  function KeySum(held: set<Key>): (mv: (int, int))
    ensures IsStep(mv)
    ensures mv.0 == 0 <==> (Left in held <==> Right in held)
    ensures mv.1 == 0 <==> (Up in held <==> Down in held)
    ensures mv.0 == 5 <==> Right in held && Left !in held
    ensures mv.1 == 5 <==> Down in held && Up !in held
  {
    (AxisSum(Left in held, Right in held), AxisSum(Up in held, Down in held))
  }

  /** The sum of the displacements of the held keys among the entries of a
      movement table, accumulated in table order. */
  function HeldSum(held: set<Key>, table: seq<(Key, (int, int))>): (int, int)
  {
    if table == [] then (0, 0)
    else
      var s := HeldSum(held, table[..|table| - 1]);
      var entry := table[|table| - 1];
      if entry.0 in held then (s.0 + entry.1.0, s.1 + entry.1.1) else s
  }

  /** Accumulating the movement table gives the per-axis key sum. */
  lemma {:induction false} DeltaSumIsKeySum(held: set<Key>)
    ensures HeldSum(held, Delta) == KeySum(held)
  {
    var up := if Up in held then -5 else 0;
    var down := if Down in held then 5 else 0;
    var left := if Left in held then -5 else 0;
    var right := if Right in held then 5 else 0;
    var t1, t2, t3 := Delta[..1], Delta[..2], Delta[..3];
    assert t1[..0] == [] && t2[..1] == t1 && t3[..2] == t2 && Delta[..3] == t3;
    assert HeldSum(held, t1) == (0, up);
    assert HeldSum(held, t2) == (0, up + down);
    assert HeldSum(held, t3) == (left, up + down);
    assert HeldSum(held, Delta) == (left + right, up + down);
  }

  /** The move policy: take the whole displacement, or none of it when the
      moved rectangle fails the bounds check on either axis. */
  function MoveOrRevert(r: Rect, mv: (int, int)): (r': Rect)
    ensures r' == r || r' == r.Move(mv.0, mv.1)
    ensures r' == r.Move(mv.0, mv.1) <==> InBounds(r.Move(mv.0, mv.1)) || mv == (0, 0)
    ensures r'.width == r.width && r'.height == r.height
    ensures InBounds(r) ==> InBounds(r')
  {
    var moved := r.Move(mv.0, mv.1);
    if CheckBound(moved) != (true, true) then moved.Move(-mv.0, -mv.1) else moved
  }

  /** One bird update on values: move or revert, turn to the key sum when it
      is non-zero, and show the sprite of the facing. */
  function BirdNext(b: BirdState, held: set<Key>): (b': BirdState)
    requires IsDirection(b.dire)
    ensures IsDirection(b'.dire) && b'.dire in ImgDict()
    ensures KeySum(held) != (0, 0) ==> b'.dire == KeySum(held)
    ensures KeySum(held) == (0, 0) ==> b'.dire == b.dire
    ensures b'.img == Facing(b'.dire)
    ensures b'.rct == MoveOrRevert(b.rct, KeySum(held))
    ensures b'.rct == b.rct || b'.rct == b.rct.Move(KeySum(held).0, KeySum(held).1)
    ensures InBounds(b.rct) ==> InBounds(b'.rct)
  {
    var mv := KeySum(held);
    var dire := if mv != (0, 0) then mv else b.dire;
    ImgKeysAreSteps(dire);
    BirdState(MoveOrRevert(b.rct, mv), dire, ImgDict()[dire])
  }

  class Bird {
    var rct: Rect
    var dire: (int, int)
    var img: Sprite

    /** The facing is always one of the eight directions. */
    ghost predicate Valid()
      reads this
    {
      IsDirection(dire)
    }

    function State(): BirdState
      reads this
    {
      BirdState(rct, dire, img)
    }

    /** A bird of the given sprite size centred on xy, facing right. */
    constructor (xy: (int, int), width: nat, height: nat)
      ensures Valid()
      ensures State() == BirdState(Rect(0, 0, width, height).WithCenter(xy.0, xy.1), (5, 0), Facing((5, 0)))
    {
      ImgKeysAreSteps((5, 0));
      dire := (5, 0);
      img := ImgDict()[(5, 0)];
      rct := Rect(0, 0, width, height).WithCenter(xy.0, xy.1);
    }

    /** Switches to a numbered picture; position and facing stay. */
    method ChangeImg(num: int)
      modifies this
      ensures State() == old(State()).(img := Picture(num))
    {
      img := Picture(num);
    }

    /** Sums the held movement keys over the table, moves by the sum and
        reverts when off the canvas, turns, and selects the sprite. */
    method Update(held: set<Key>)
      requires Valid()
      modifies this
      ensures Valid()
      ensures State() == BirdNext(old(State()), held)
    {
      var sumMv := (0, 0);
      for i := 0 to |Delta|
        invariant sumMv == HeldSum(held, Delta[..i])
      {
        var entry := Delta[i];
        assert Delta[..i + 1][..i] == Delta[..i];
        if entry.0 in held {
          sumMv := (sumMv.0 + entry.1.0, sumMv.1 + entry.1.1);
        }
      }
      assert Delta[..|Delta|] == Delta;
      DeltaSumIsKeySum(held);
      rct := rct.Move(sumMv.0, sumMv.1);
      if CheckBound(rct) != (true, true) {
        rct := rct.Move(-sumMv.0, -sumMv.1);
      }
      if sumMv != (0, 0) {
        dire := sumMv;
      }
      ImgKeysAreSteps(dire);
      img := ImgDict()[dire];
    }
  }
}
