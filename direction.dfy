/** `Direction`: the six axis-aligned face directions of a voxel, each with
    its unit offset (dx, dy, dz), the index of the axis it runs along
    (0 = X, 1 = Y, 2 = Z) and whether it points toward that axis's negative end. */
module Directions {

  datatype Direction = North | South | West | East | Down | Up

  /** `Direction.values()`: the six constants in declaration order. */
  function Values(): (r: seq<Direction>)
    ensures |r| == 6
  {
    [North, South, West, East, Down, Up]
  }

  /** `values()` lists every constant exactly once. */
  lemma ValuesEnumerateAll()
    ensures forall d: Direction :: d in Values()
    ensures forall i, j :: 0 <= i < j < |Values()| ==> Values()[i] != Values()[j]
  {
    forall d: Direction ensures d in Values() {
      assert Values()[Ordinal(d)] == d;
    }
  }

  /** `ordinal()`: the position of a constant in `values()`. */
  function Ordinal(d: Direction): (i: nat)
    ensures i < 6
  {
    match d
    case North => 0
    case South => 1
    case West => 2
    case East => 3
    case Down => 4
    case Up => 5
  }

  /** The `dx`, `dy` and `dz` fields: the unit offset toward the face. */
  function Dx(d: Direction): int {
    match d
    case West => -1
    case East => 1
    case _ => 0
  }

  function Dy(d: Direction): int {
    match d
    case Down => -1
    case Up => 1
    case _ => 0
  }

  function Dz(d: Direction): int {
    match d
    case North => -1
    case South => 1
    case _ => 0
  }

  /** The `axis` field (0 = X, 1 = Y, 2 = Z): the axis a constant runs along. */
  function Axis(d: Direction): nat {
    match d
    case North | South => 2
    case West | East => 0
    case Down | Up => 1
  }

  /** The `negative` field: whether a constant points toward its axis's
      negative end. */
  function Negative(d: Direction): bool {
    d == North || d == West || d == Down
  }

  /** Component `i` (0 = x, 1 = y, 2 = z) of the offset (dx, dy, dz). */
  function Component(d: Direction, i: int): int
    requires 0 <= i < 3
  {
    if i == 0 then Dx(d) else if i == 1 then Dy(d) else Dz(d)
  }

  /** The constant along the same axis with the other sign; the source lists
      the constants as the pairs NORTH/SOUTH, WEST/EAST, DOWN/UP. */
  function Opposite(d: Direction): (o: Direction)
    ensures o != d
    ensures Axis(o) == Axis(d) && Negative(o) == !Negative(d)
    ensures Dx(o) == -Dx(d) && Dy(o) == -Dy(d) && Dz(o) == -Dz(d)
  {
    match d
    case North => South
    case South => North
    case West => East
    case East => West
    case Down => Up
    case Up => Down
  }

  // ---------------------------------------------------------------------
  // Properties

  /** `Ordinal` and `Values` are inverse: each constant sits at its ordinal,
      and declaration order is NORTH, SOUTH, WEST, EAST, DOWN, UP. */
  lemma OrdinalIsPosition(d: Direction, i: int)
    requires 0 <= i < 6
    ensures Values()[Ordinal(d)] == d
    ensures Ordinal(Values()[i]) == i
    ensures Ordinal(North) < Ordinal(South) < Ordinal(West) < Ordinal(East) < Ordinal(Down) < Ordinal(Up)
  {
  }

  /** Each offset is a unit vector along its own axis: the one nonzero
      component sits at index `axis` and is -1 exactly when `negative` holds. */
  lemma UnitAlongAxis(d: Direction, i: int)
    requires 0 <= i < 3
    ensures Axis(d) < 3
    ensures Component(d, i) == if i != Axis(d) then 0 else if Negative(d) then -1 else 1
  {
  }

  /** The constants are declared in pairs, one pair per axis: NORTH/SOUTH on
      Z, then WEST/EAST on X, then DOWN/UP on Y; within each pair the first
      constant points toward the negative end. */
  lemma AxisAndSignFromOrder(d: Direction)
    ensures Axis(d) < 3
    ensures Ordinal(d) / 2 == (Axis(d) + 1) % 3
    ensures Negative(d) <==> Ordinal(d) % 2 == 0
  {
  }

  /** No two constants share an offset. */
  lemma OffsetsDistinct(d: Direction, e: Direction)
    requires Dx(d) == Dx(e) && Dy(d) == Dy(e) && Dz(d) == Dz(e)
    ensures d == e
  {
  }

  /** `Opposite` pairs the constants up: it is its own inverse. */
  lemma OppositeIsInvolution(d: Direction)
    ensures Opposite(Opposite(d)) == d
  {
  }

  /** The constants that run along axis `a`. */
  function AlongAxis(a: int): set<Direction> {
    set d | d in Values() && Axis(d) == a
  }

  /** Every axis carries exactly two constants, one pointing each way. */
  lemma TwoPerAxis(a: int)
    requires 0 <= a < 3
    ensures |AlongAxis(a)| == 2
    ensures |set d | d in AlongAxis(a) && Negative(d)| == 1
    ensures |set d | d in AlongAxis(a) && !Negative(d)| == 1
  {
    var neg, pos := if a == 0 then West else if a == 1 then Down else North, Opposite(if a == 0 then West else if a == 1 then Down else North);
    assert AlongAxis(a) == {neg, pos};
    assert (set d | d in AlongAxis(a) && Negative(d)) == {neg};
    assert (set d | d in AlongAxis(a) && !Negative(d)) == {pos};
  }
}
