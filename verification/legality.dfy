/** Legal-move generation (`Board.get_legal_moves`, shobu/board.py): passive
    slides on the mover's own sub-boards, then aggressive moves with the same
    displacement on the two adjacent sub-boards, with the push rules. */
module Legality {
  import opened Geometry
  import opened Rules
  import opened Seqs

  /** An entry of the passive-move list: a slide and the sub-board it is on. */
  datatype Passive = Passive(move: Move, board: SubBoard)

  /** The passive move (if any) from `p` by step `s` on grid `g`: the end must
      be on the sub-board and empty, and at magnitude 2 the square in between
      must be empty too. */
  function PassiveStep(g: Grid, bd: SubBoard, p: Square, s: Step): seq<Passive>
  {
    DisplacementOfStep(s);
    var end := p.Add(Displacement(s));
    if !end.Valid() then []
    else if s.mag == 1 then
      (if Get(g, end) == Empty then [Passive(Move(p, end), bd)] else [])
    else
      var middle := p.Add(s.dir);
      assert middle.Valid() by {
        assert end == Cord(p.x + 2 * s.dir.x, p.y + 2 * s.dir.y);
        assert 0 <= p.x <= 3 && 0 <= p.y <= 3 && 0 <= end.x <= 3 && 0 <= end.y <= 3;
      }
      if Get(g, end) == Empty && Get(g, middle) == Empty then [Passive(Move(p, end), bd)] else []
  }

  /** The passive moves from the pieces of colour `c` on grid `g`. */
  function PassivesOn(g: Grid, bd: SubBoard, c: Color): seq<Passive>
  {
    FlatMap(Cells, (p: Square) =>
      if Get(g, p) == c then FlatMap(Steps, (s: Step) => PassiveStep(g, bd, p, s)) else [])
  }

  /** First phase: every passive move of `c`, left sub-board first. */
  function Passives(b: Board, c: Color): seq<Passive>
  {
    FlatMap(OwnBoards(c), (bd: SubBoard) => PassivesOn(b.Sub(bd), bd, c))
  }

  /** Whether the aggressive move `start -> end` on `g`, repeating the
      displacement of `passive`, is allowed for `c`. A move counts as a unit
      step when some component of the displacement has absolute value 1;
      otherwise the "middle" and "after the end" squares are found with the
      normalized difference, which is the true step only for non-negative
      directions. */
  function Admissible(g: Grid, c: Color, start: Cord, end: Cord, passive: Move): bool
    requires start.Valid() && end.Valid()
    requires end == start.Add(passive.Difference())
  {
    var d := passive.Difference();
    if Abs(d.x) == 1 || Abs(d.y) == 1 then
      if Get(g, end) == Empty then true
      else if Get(g, end) == Opposite(c) then
        var behind := end.Add(d);
        !behind.Valid() || Get(g, behind) == Empty
      else false
    else
      var nd := passive.NormalizedDifference();
      var afterEnd := end.Add(nd);
      var destination := Get(g, end);
      var middle := Get(g, Cord(start.x + nd.x, start.y + nd.y));
      if destination == Empty && middle == Empty then true
      else if middle == c || destination == c then false
      else if (middle == Opposite(c)) != (destination == Opposite(c)) then
        !afterEnd.Valid() || Get(g, afterEnd) == Empty
      else false
  }

  /** The move pair (if any) whose aggressive move starts at `p` on `bd`. */
  function AggressiveAt(b: Board, c: Color, pa: Passive, bd: SubBoard, p: Square): seq<MovePair>
  {
    var g := b.Sub(bd);
    if Get(g, p) != c then []
    else
      var end := p.Add(pa.move.Difference());
      if !end.Valid() then []
      else if Admissible(g, c, p, end, pa.move) then [MovePair(pa.move, Move(p, end), pa.board, bd)]
      else []
  }

  function AdjacentList(id: SubBoard): seq<SubBoard>
  {
    [Adjacent(id).0, Adjacent(id).1]
  }

  /** `get_legal_moves(c)`: for each passive move, each adjacent sub-board and
      each square in scanning order, the admissible aggressive moves. */
  function LegalMoves(b: Board, c: Color): seq<MovePair>
  {
    FlatMap(Passives(b, c), (pa: Passive) =>
      FlatMap(AdjacentList(pa.board), (bd: SubBoard) =>
        FlatMap(Cells, (p: Square) => AggressiveAt(b, c, pa, bd, p))))
  }

  // ---------------------------------------------------------------------------
  // The rules the generator is meant to implement, stated independently.

  /** A passive move of `c` on `bd`: an unobstructed slide of one or two
      squares from one of `c`'s pieces, on one of `c`'s own sub-boards. */
  ghost predicate IsPassiveMove(b: Board, c: Color, m: Move, bd: SubBoard)
  {
    bd in OwnBoards(c) && OpenSlide(b.Sub(bd), c, m)
  }

  /** A legal turn: a passive move, and an aggressive move of one of `c`'s
      pieces on a sub-board adjacent to the passive one, with the same
      displacement, ending on the sub-board and admissible. */
  ghost predicate IsLegalPair(b: Board, c: Color, mp: MovePair)
  {
    && IsPassiveMove(b, c, mp.passive, mp.passiveBoard)
    && mp.aggressiveBoard in AdjacentList(mp.passiveBoard)
    && mp.aggressive.Valid()
    && mp.aggressive.Difference() == mp.passive.Difference()
    && Get(b.Sub(mp.aggressiveBoard), mp.aggressive.start) == c
    && Admissible(b.Sub(mp.aggressiveBoard), c, mp.aggressive.start, mp.aggressive.end, mp.passive)
  }

  /** The step from `p` by `s` yields a passive move exactly when its end is
      on the sub-board and empty and, at magnitude 2, the middle is empty. */
  predicate StepOpen(g: Grid, p: Square, s: Step)
  {
    DisplacementOfStep(s);
    && p.Add(Displacement(s)).Valid()
    && Get(g, p.Add(Displacement(s))) == Empty
    && (s.mag == 2 ==> Get(g, p.Add(s.dir)) == Empty)
  }

  lemma PassiveStepExact(g: Grid, bd: SubBoard, p: Square, s: Step)
    ensures PassiveStep(g, bd, p, s) ==
              if StepOpen(g, p, s) then [Passive(Move(p, p.Add(Displacement(s))), bd)] else []
  {
    DisplacementOfStep(s);
  }

  /** An unobstructed slide of one or two squares of a piece of `c` on `g`. */
  ghost predicate OpenSlide(g: Grid, c: Color, m: Move)
  {
    && m.Valid()
    && IsSlide(m.Difference())
    && Get(g, m.start) == c
    && Get(g, m.end) == Empty
    && (Reach(m.Difference()) == 2 ==> Get(g, m.start.Add(Unit(m.Difference()))) == Empty)
  }

  lemma StepSound(g: Grid, c: Color, p: Square, s: Step)
    requires s in Steps && Get(g, p) == c && StepOpen(g, p, s)
    ensures OpenSlide(g, c, Move(p, p.Add(Displacement(s))))
  {
    StepsAreSlides(s);
    DisplacementOfStep(s);
  }

  lemma StepComplete(g: Grid, c: Color, m: Move)
    requires OpenSlide(g, c, m)
    ensures Offset(Unit(m.Difference()), Reach(m.Difference())) in Steps
    ensures StepOpen(g, m.start, Offset(Unit(m.Difference()), Reach(m.Difference())))
    ensures m.start.Add(Displacement(Offset(Unit(m.Difference()), Reach(m.Difference())))) == m.end
  {
    SlideHasStep(m.Difference());
  }

  lemma PassivesOnSound(g: Grid, bd: SubBoard, c: Color, pa: Passive)
    requires pa in PassivesOn(g, bd, c)
    ensures pa.board == bd && OpenSlide(g, c, pa.move)
  {
    var fCells := (p: Square) =>
      if Get(g, p) == c then FlatMap(Steps, (s: Step) => PassiveStep(g, bd, p, s)) else [];
    InFlatMap(Cells, fCells, pa);
    var p: Square :| p in Cells && pa in fCells(p);
    var fSteps := (s: Step) => PassiveStep(g, bd, p, s);
    InFlatMap(Steps, fSteps, pa);
    var s: Step :| s in Steps && pa in fSteps(s);
    PassiveStepExact(g, bd, p, s);
    StepSound(g, c, p, s);
  }

  lemma PassivesOnComplete(g: Grid, bd: SubBoard, c: Color, pa: Passive)
    requires pa.board == bd && OpenSlide(g, c, pa.move)
    ensures pa in PassivesOn(g, bd, c)
  {
    var d := pa.move.Difference();
    StepComplete(g, c, pa.move);
    var s: Step := Offset(Unit(d), Reach(d));
    var p: Square := pa.move.start;
    CellsComplete(p);
    PassiveStepExact(g, bd, p, s);
    var fSteps := (s: Step) => PassiveStep(g, bd, p, s);
    InFlatMap(Steps, fSteps, pa);
    var fCells := (p: Square) =>
      if Get(g, p) == c then FlatMap(Steps, (s: Step) => PassiveStep(g, bd, p, s)) else [];
    assert pa in fCells(p);
    InFlatMap(Cells, fCells, pa);
  }

  /** The passive moves found on one sub-board are the open slides of its pieces of `c`. */
  lemma PassivesOnExact(g: Grid, bd: SubBoard, c: Color, pa: Passive)
    ensures pa in PassivesOn(g, bd, c) <==> pa.board == bd && OpenSlide(g, c, pa.move)
  {
    if pa in PassivesOn(g, bd, c) {
      PassivesOnSound(g, bd, c, pa);
    }
    if pa.board == bd && OpenSlide(g, c, pa.move) {
      PassivesOnComplete(g, bd, c, pa);
    }
  }

  lemma PassivesExact(b: Board, c: Color, pa: Passive)
    ensures pa in Passives(b, c) <==> IsPassiveMove(b, c, pa.move, pa.board)
  {
    var fBoards := (bd: SubBoard) => PassivesOn(b.Sub(bd), bd, c);
    InFlatMap(OwnBoards(c), fBoards, pa);
    PassivesOnExact(b.Sub(pa.board), pa.board, c, pa);
    if pa in Passives(b, c) {
      var bd :| bd in OwnBoards(c) && pa in fBoards(bd);
      PassivesOnExact(b.Sub(bd), bd, c, pa);
    }
  }

  lemma AggressiveAtExact(b: Board, c: Color, pa: Passive, bd: SubBoard, p: Square, mp: MovePair)
    ensures mp in AggressiveAt(b, c, pa, bd, p) <==>
              && mp.passive == pa.move && mp.passiveBoard == pa.board
              && mp.aggressiveBoard == bd && mp.aggressive.start == p
              && mp.aggressive.end.Valid()
              && mp.aggressive.Difference() == pa.move.Difference()
              && Get(b.Sub(bd), p) == c
              && Admissible(b.Sub(bd), c, p, mp.aggressive.end, pa.move)
  {
  }

  lemma LegalMovesSound(b: Board, c: Color, mp: MovePair)
    requires mp in LegalMoves(b, c)
    ensures IsLegalPair(b, c, mp)
  {
    var fPass := (pa: Passive) =>
      FlatMap(AdjacentList(pa.board), (bd: SubBoard) =>
        FlatMap(Cells, (p: Square) => AggressiveAt(b, c, pa, bd, p)));
    InFlatMap(Passives(b, c), fPass, mp);
    var pa :| pa in Passives(b, c) && mp in fPass(pa);
    var fAdj := (bd: SubBoard) => FlatMap(Cells, (p: Square) => AggressiveAt(b, c, pa, bd, p));
    InFlatMap(AdjacentList(pa.board), fAdj, mp);
    var bd :| bd in AdjacentList(pa.board) && mp in fAdj(bd);
    var fCells := (p: Square) => AggressiveAt(b, c, pa, bd, p);
    InFlatMap(Cells, fCells, mp);
    var p: Square :| p in Cells && mp in fCells(p);
    AggressiveAtExact(b, c, pa, bd, p, mp);
    PassivesExact(b, c, pa);
  }

  lemma LegalMovesComplete(b: Board, c: Color, mp: MovePair)
    requires IsLegalPair(b, c, mp)
    ensures mp in LegalMoves(b, c)
  {
    var fPass := (pa: Passive) =>
      FlatMap(AdjacentList(pa.board), (bd: SubBoard) =>
        FlatMap(Cells, (p: Square) => AggressiveAt(b, c, pa, bd, p)));
    var pa := Passive(mp.passive, mp.passiveBoard);
    PassivesExact(b, c, pa);
    var bd := mp.aggressiveBoard;
    var p: Square := mp.aggressive.start;
    CellsComplete(p);
    AggressiveAtExact(b, c, pa, bd, p, mp);
    var fCells := (p: Square) => AggressiveAt(b, c, pa, bd, p);
    InFlatMap(Cells, fCells, mp);
    var fAdj := (bd: SubBoard) => FlatMap(Cells, (p: Square) => AggressiveAt(b, c, pa, bd, p));
    InFlatMap(AdjacentList(pa.board), fAdj, mp);
    assert mp in fPass(pa);
    InFlatMap(Passives(b, c), fPass, mp);
  }

  /** The generated list holds exactly the legal turns. */
  lemma LegalMovesExact(b: Board, c: Color, mp: MovePair)
    ensures mp in LegalMoves(b, c) <==> IsLegalPair(b, c, mp)
  {
    if mp in LegalMoves(b, c) {
      LegalMovesSound(b, c, mp);
    }
    if IsLegalPair(b, c, mp) {
      LegalMovesComplete(b, c, mp);
    }
  }

}

/** The push rules the admissibility check encodes, by kind of displacement. */
module PushRules {
  import opened Geometry
  import opened Rules
  import opened Legality

  /** An aggressive move never lands on one of the mover's own pieces. */
  lemma OwnPieceNeverAdmitted(g: Grid, c: Color, start: Cord, end: Cord, passive: Move)
    requires start.Valid() && end.Valid() && end == start.Add(passive.Difference())
    requires Get(g, end) == c
    ensures !Admissible(g, c, start, end, passive)
  {
  }

  /** A one-square move may go to an empty square, or push an opposing piece
      one square further onto an empty square or off the sub-board. */
  lemma UnitStepRule(g: Grid, c: Color, start: Cord, end: Cord, passive: Move)
    requires start.Valid() && end.Valid() && end == start.Add(passive.Difference())
    requires IsSlide(passive.Difference()) && Reach(passive.Difference()) == 1
    ensures Admissible(g, c, start, end, passive) <==>
              || Get(g, end) == Empty
              || (&& Get(g, end) == Opposite(c)
                  && (!end.Add(passive.Difference()).Valid() || Get(g, end.Add(passive.Difference())) == Empty))
  {
  }

  /** The Shobu rule for a two-square move whose path is `middle`, `end` and
      then `after`: both path squares empty, or exactly one opposing piece in
      the path and room (or the edge) behind the end. */
  predicate TwoStepAllowed(middle: Cell, atEnd: Cell, afterFree: bool, c: Color)
  {
    || (middle == Empty && atEnd == Empty)
    || (&& ((middle == Opposite(c) && atEnd == Empty) || (middle == Empty && atEnd == Opposite(c)))
        && afterFree)
  }

  /** In the two-square branch the check is the Shobu rule applied to the
      squares the normalized difference picks as "middle" and "after the end". */
  lemma TwoStepBranch(g: Grid, c: Color, start: Cord, end: Cord, passive: Move)
    requires start.Valid() && end.Valid() && end == start.Add(passive.Difference())
    requires !(Abs(passive.Difference().x) == 1 || Abs(passive.Difference().y) == 1)
    ensures Cord(start.x + passive.NormalizedDifference().x, start.y + passive.NormalizedDifference().y).Valid()
    ensures Admissible(g, c, start, end, passive) ==
              TwoStepAllowed(Get(g, Cord(start.x + passive.NormalizedDifference().x,
                                         start.y + passive.NormalizedDifference().y)),
                             Get(g, end),
                             !end.Add(passive.NormalizedDifference()).Valid()
                               || Get(g, end.Add(passive.NormalizedDifference())) == Empty, c)
  {
  }

  /** A two-square move in a non-negative direction may slide over two empty
      squares, or push the single opposing piece in its path onto an empty
      square or off the sub-board. */
  lemma ForwardTwoStepRule(g: Grid, c: Color, start: Cord, end: Cord, passive: Move)
    requires start.Valid() && end.Valid() && end == start.Add(passive.Difference())
    requires passive.Difference().x in {0, 2} && passive.Difference().y in {0, 2}
    requires passive.Difference() != Cord(0, 0)
    ensures start.Add(Unit(passive.Difference())).Valid()
    ensures Admissible(g, c, start, end, passive) <==>
              TwoStepAllowed(Get(g, start.Add(Unit(passive.Difference()))), Get(g, end),
                             var after := end.Add(Unit(passive.Difference()));
                             !after.Valid() || Get(g, after) == Empty, c)
  {
    var d := passive.Difference();
    NormalizedDifferenceForward(passive);
    TwoStepBranch(g, c, start, end, passive);
    assert Cord(start.x + passive.NormalizedDifference().x, start.y + passive.NormalizedDifference().y)
        == start.Add(Unit(d));
  }

  /** A two-square move straight toward lower coordinates only looks at its
      end square: the square it passes over is never examined, and an
      opposing piece on the end square is never pushed. */
  lemma BackwardTwoStepIgnoresMiddle(g: Grid, c: Color, start: Cord, end: Cord, passive: Move)
    requires start.Valid() && end.Valid() && end == start.Add(passive.Difference())
    requires passive.Difference() in {Cord(-2, 0), Cord(0, -2), Cord(-2, -2)}
    ensures Admissible(g, c, start, end, passive) <==> Get(g, end) == Empty
  {
    var d := passive.Difference();
    NormalizedDifferenceKeepsNegative(passive);
    var nd := passive.NormalizedDifference();
    assert nd == d;
    assert !(Abs(d.x) == 1 || Abs(d.y) == 1);
    assert Cord(start.x + nd.x, start.y + nd.y) == end;
    TwoStepBranch(g, c, start, end, passive);
  }

  /** The square a mixed two-square diagonal, (2, -2) or (-2, 2), examines as
      its "middle": the start plus the normalized difference, which lies beside
      the end square and off the path, while the square actually passed over
      is never looked at. No square past the end exists, so only this square
      and the end square decide admissibility. */
  function MixedDiagonalProbe(start: Cord, d: Cord): Cord
  {
    Cord(start.x + (if d.x < 1 then d.x else 1), start.y + (if d.y < 1 then d.y else 1))
  }

  lemma MixedDiagonalExaminesOffPathSquare(g: Grid, c: Color, start: Cord, end: Cord, passive: Move)
    requires start.Valid() && end.Valid() && end == start.Add(passive.Difference())
    requires passive.Difference() in {Cord(2, -2), Cord(-2, 2)}
    ensures var probe := MixedDiagonalProbe(start, passive.Difference());
            var passed := start.Add(Unit(passive.Difference()));
            && probe.Valid()
            && probe != start && probe != passed && probe != end
            && (passive.Difference() == Cord(2, -2) ==> probe == Cord(passed.x, end.y))
            && (passive.Difference() == Cord(-2, 2) ==> probe == Cord(end.x, passed.y))
            && (Admissible(g, c, start, end, passive) <==> TwoStepAllowed(Get(g, probe), Get(g, end), true, c))
  {
    var d := passive.Difference();
    var nd := passive.NormalizedDifference();
    if d == Cord(2, -2) {
      assert nd == Cord(1, -2);
    } else {
      assert nd == Cord(-2, 1);
    }
    assert Cord(start.x + nd.x, start.y + nd.y) == MixedDiagonalProbe(start, d);
    assert !end.Add(nd).Valid();
    TwoStepBranch(g, c, start, end, passive);
  }
}
