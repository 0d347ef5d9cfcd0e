/** Coordinates, moves and move pairs on a 4x4 sub-board (shobu/move.py). */
module Geometry {

  /** The coordinate values a sub-board accepts on each axis (`Cord._BOUNDS`). */
  const Bounds: seq<int> := [0, 1, 2, 3]

  function Min(a: int, b: int): int { if b < a then b else a }

  function Abs(n: int): nat { if n < 0 then -n else n }

  function Sign(n: int): int { if n < 0 then -1 else if n == 0 then 0 else 1 }

  /** An integer vector; a square of a sub-board when `Valid`. */
  datatype Cord = Cord(x: int, y: int) {

    /** Both components lie in `Bounds`. */
    predicate Valid()
    {
      0 <= x <= 3 && 0 <= y <= 3
    }

    function Add(other: Cord): Cord { Cord(x + other.x, y + other.y) }

    function Sub(other: Cord): Cord { Cord(x - other.x, y - other.y) }

    function Scale(k: int): Cord { Cord(x * k, y * k) }
  }

  lemma ValidIsWithinBounds(c: Cord)
    ensures c.Valid() <==> c.x in Bounds && c.y in Bounds
  {
  }

  /** A square that lies on the sub-board. */
  type Square = c: Cord | c.Valid() witness Cord(0, 0)

  lemma AddSubRoundTrip(a: Cord, b: Cord)
    ensures a.Add(b).Sub(b) == a
    ensures a.Sub(b).Add(b) == a
  {
  }

  lemma ScaleDistributes(a: Cord, j: int, k: int)
    ensures a.Scale(j).Add(a.Scale(k)) == a.Scale(j + k)
    ensures a.Scale(j).Scale(k) == a.Scale(j * k)
  {
    assert a.x * j + a.x * k == a.x * (j + k);
    assert a.y * j + a.y * k == a.y * (j + k);
    assert (a.x * j) * k == a.x * (j * k);
    assert (a.y * j) * k == a.y * (j * k);
  }

  /** A slide from `start` to `end`; nothing here says it is legal. */
  datatype Move = Move(start: Cord, end: Cord) {

    predicate Valid()
      ensures Valid() <==> start.Valid() && end.Valid()
    {
      start.Valid() && end.Valid()
    }

    function Difference(): (d: Cord)
      ensures start.Add(d) == end
      ensures d == end.Sub(start)
    {
      Cord(end.x - start.x, end.y - start.y)
    }

    /** Componentwise `min(d, 1)` of the difference: a unit step for
        non-negative components, but a negative component is kept as is. */
    function NormalizedDifference(): Cord
    {
      Cord(Min(Difference().x, 1), Min(Difference().y, 1))
    }

    /** 2 when some component of the difference is exactly +2, otherwise 1. */
    function Magnitude(): int
    {
      if Difference().x == 2 || Difference().y == 2 then 2 else 1
    }

    function Add(other: Move): Move { Move(start.Add(other.start), end.Add(other.end)) }

    function Sub(other: Move): Move { Move(start.Sub(other.start), end.Sub(other.end)) }

    function Scale(k: int): Move { Move(start.Scale(k), end.Scale(k)) }
  }

  /** The straight-line step from one square toward another (`Sign` per axis). */
  function Unit(d: Cord): Cord { Cord(Sign(d.x), Sign(d.y)) }

  /** The Shobu notion of distance: the larger absolute component. */
  function Reach(d: Cord): nat { if Abs(d.x) < Abs(d.y) then Abs(d.y) else Abs(d.x) }

  /** A Shobu slide vector: one or two squares along one of the eight directions. */
  predicate IsSlide(d: Cord)
  {
    && d != Cord(0, 0)
    && ((-1 <= d.x <= 1 && -1 <= d.y <= 1) || (d.x in {-2, 0, 2} && d.y in {-2, 0, 2}))
  }

  lemma NormalizedDifferenceForward(m: Move)
    requires 0 <= m.Difference().x <= 2 && 0 <= m.Difference().y <= 2
    ensures m.NormalizedDifference() == Unit(m.Difference())
  {
  }

  lemma NormalizedDifferenceKeepsNegative(m: Move)
    ensures m.Difference().x <= 1 ==> m.NormalizedDifference().x == m.Difference().x
    ensures m.Difference().y <= 1 ==> m.NormalizedDifference().y == m.Difference().y
    ensures m.Difference().x >= 1 ==> m.NormalizedDifference().x == 1
    ensures m.Difference().y >= 1 ==> m.NormalizedDifference().y == 1
  {
  }

  /** The magnitude agrees with the Shobu distance of a slide exactly when the
      slide is a unit step or has a +2 component. */
  lemma MagnitudeVersusReach(m: Move)
    requires IsSlide(m.Difference())
    ensures m.Magnitude() == Reach(m.Difference()) <==>
              Reach(m.Difference()) == 1 || m.Difference().x == 2 || m.Difference().y == 2
    ensures m.Magnitude() == 2 ==> Reach(m.Difference()) == 2
  {
  }

  lemma MagnitudeOfBackwardSlide(m: Move)
    requires m.Difference() == Cord(-2, 0)
    ensures m.Magnitude() == 1 && Reach(m.Difference()) == 2
  {
  }

  lemma MoveArithmeticOnDifferences(m: Move, o: Move, k: int)
    ensures m.Add(o).Difference() == m.Difference().Add(o.Difference())
    ensures m.Sub(o).Difference() == m.Difference().Sub(o.Difference())
    ensures m.Scale(k).Difference() == m.Difference().Scale(k)
  {
    assert m.end.x * k - m.start.x * k == (m.end.x - m.start.x) * k;
    assert m.end.y * k - m.start.y * k == (m.end.y - m.start.y) * k;
  }

  /** The four sub-boards, named by owner colour and side. */
  datatype SubBoard = BlackLeft | BlackRight | WhiteLeft | WhiteRight {
    predicate IsBlack() { this == BlackLeft || this == BlackRight }
    predicate IsLeft() { this == BlackLeft || this == WhiteLeft }
  }

  /** The sub-board with the given owner colour and side. */
  function Named(black: bool, left: bool): (r: SubBoard)
    ensures r.IsBlack() == black && r.IsLeft() == left
  {
    if black then (if left then BlackLeft else BlackRight)
    else (if left then WhiteLeft else WhiteRight)
  }

  /** One full turn: a passive move with its sub-board and an aggressive move with its sub-board. */
  datatype MovePair = MovePair(passive: Move, aggressive: Move, passiveBoard: SubBoard, aggressiveBoard: SubBoard)

  /** The eight directions, in the engine's scanning order. */
  const Directions: seq<Cord> := [
    Cord(-1, 1), Cord(0, 1), Cord(1, 1),
    Cord(-1, 0),             Cord(1, 0),
    Cord(-1, -1), Cord(0, -1), Cord(1, -1)
  ]

  const Magnitudes: seq<int> := [1, 2]

  /** A direction together with a magnitude of one or two squares. */
  datatype Offset = Offset(dir: Cord, mag: int)

  type Step = o: Offset | -1 <= o.dir.x <= 1 && -1 <= o.dir.y <= 1 && 1 <= o.mag <= 2
    witness Offset(Cord(0, 1), 1)

  /** The vector a step moves by. */
  function Displacement(s: Offset): Cord { s.dir.Scale(s.mag) }

  lemma DisplacementOfStep(s: Step)
    ensures Displacement(s) == (if s.mag == 1 then s.dir else Cord(2 * s.dir.x, 2 * s.dir.y))
  {
    if s.mag == 2 {
      assert s.dir.x * s.mag == 2 * s.dir.x;
      assert s.dir.y * s.mag == 2 * s.dir.y;
    }
  }

  /** Every direction with magnitude 1 then 2: the order of the nested
      `for direction ... for magnitude ...` loops. */
  const Steps: seq<Step> := [
    Offset(Cord(-1, 1), 1), Offset(Cord(-1, 1), 2),
    Offset(Cord(0, 1), 1), Offset(Cord(0, 1), 2),
    Offset(Cord(1, 1), 1), Offset(Cord(1, 1), 2),
    Offset(Cord(-1, 0), 1), Offset(Cord(-1, 0), 2),
    Offset(Cord(1, 0), 1), Offset(Cord(1, 0), 2),
    Offset(Cord(-1, -1), 1), Offset(Cord(-1, -1), 2),
    Offset(Cord(0, -1), 1), Offset(Cord(0, -1), 2),
    Offset(Cord(1, -1), 1), Offset(Cord(1, -1), 2)
  ]

  /** The squares in the order of `for x in range(4): for y in range(4)`. */
  const Cells: seq<Square> := [
    Cord(0, 0), Cord(0, 1), Cord(0, 2), Cord(0, 3),
    Cord(1, 0), Cord(1, 1), Cord(1, 2), Cord(1, 3),
    Cord(2, 0), Cord(2, 1), Cord(2, 2), Cord(2, 3),
    Cord(3, 0), Cord(3, 1), Cord(3, 2), Cord(3, 3)
  ]

  lemma CellsComplete(p: Cord)
    ensures p in Cells <==> p.Valid()
  {
  }

  /** The step list holds exactly the slides of the game, each once per vector. */
  lemma StepsAreSlides(s: Offset)
    ensures s in Steps <==> s.dir in Directions && s.mag in Magnitudes
    ensures s in Steps ==> IsSlide(Displacement(s)) && Unit(Displacement(s)) == s.dir
                           && Reach(Displacement(s)) == s.mag
  {
  }

  lemma SlideHasStep(d: Cord)
    requires IsSlide(d)
    ensures Offset(Unit(d), Reach(d)) in Steps
    ensures Displacement(Offset(Unit(d), Reach(d))) == d
  {
  }
}
