/** Move application (`Board.make_move`, shobu/board.py): the passive slide,
    the aggressive slide and the pushes, applied to a position value. */
module Apply {
  import opened Geometry
  import opened Rules
  import opened Legality
  import opened PushRules

  /** The aggressive sub-board after its move: the moving piece leaves `start`
      and lands on `end`; what happens to a piece in the way depends on the
      move's magnitude (2 only when some component is +2) and on squares found
      with the normalized difference. */
  function AggressiveResult(ag: Grid, am: Move): Grid
    requires am.Valid()
  {
    var aggressivePiece := Get(ag, am.start);
    var afterEnd := am.end.Add(am.NormalizedDifference());
    var pieceOnEnd := Get(ag, am.end);
    var moved := Put(Put(ag, am.start, Empty), am.end, aggressivePiece);
    if am.Magnitude() == 2 then
      if pieceOnEnd != Empty && afterEnd.Valid() then Put(moved, afterEnd, pieceOnEnd)
      else
        var middle := am.start.Add(am.NormalizedDifference());
        var pieceOnMiddle := Get(moved, middle);
        var withPush := if pieceOnMiddle != Empty && afterEnd.Valid() then Put(moved, afterEnd, pieceOnEnd) else moved;
        Put(withPush, middle, Empty)
    else
      // magnitude 1
      if pieceOnEnd != Empty && afterEnd.Valid() then Put(moved, afterEnd, pieceOnEnd) else moved
  }

  /** `make_move`: applies the passive move, then the aggressive move. */
  function MakeMove(b: Board, mp: MovePair): (r: Board)
    requires mp.passive.Valid() && mp.aggressive.Valid()
    ensures forall id :: id != mp.passiveBoard && id != mp.aggressiveBoard ==> r.Sub(id) == b.Sub(id)
  {
    var pg := b.Sub(mp.passiveBoard);
    var passivePiece := Get(pg, mp.passive.start);
    var b1 := b.With(mp.passiveBoard, Put(Put(pg, mp.passive.start, Empty), mp.passive.end, passivePiece));
    b1.With(mp.aggressiveBoard, AggressiveResult(b1.Sub(mp.aggressiveBoard), mp.aggressive))
  }

  /** What a legal turn guarantees about its parts. */
  lemma LegalPairShape(b: Board, c: Color, mp: MovePair)
    requires IsLegalPair(b, c, mp)
    ensures mp.passive.Valid() && mp.aggressive.Valid()
    ensures mp.passiveBoard != mp.aggressiveBoard
    ensures IsSlide(mp.aggressive.Difference()) && mp.aggressive.Difference() == mp.passive.Difference()
    ensures Get(b.Sub(mp.passiveBoard), mp.passive.start) == c
    ensures Get(b.Sub(mp.passiveBoard), mp.passive.end) == Empty
    ensures Get(b.Sub(mp.aggressiveBoard), mp.aggressive.start) == c
    ensures Admissible(b.Sub(mp.aggressiveBoard), c, mp.aggressive.start, mp.aggressive.end, mp.passive)
  {
    AdjacentProperties(mp.passiveBoard);
  }

  /** On the passive sub-board of a legal turn the mover's piece goes from
      start to end and nothing else changes. */
  lemma MakeMovePassive(b: Board, c: Color, mp: MovePair)
    requires IsLegalPair(b, c, mp)
    ensures mp.passive.Valid() && mp.aggressive.Valid()
    ensures var g := b.Sub(mp.passiveBoard);
            var r := MakeMove(b, mp).Sub(mp.passiveBoard);
            && Get(r, mp.passive.start) == Empty
            && Get(r, mp.passive.end) == c
            && forall q: Cord :: q.Valid() && q != mp.passive.start && q != mp.passive.end ==> Get(r, q) == Get(g, q)
  {
    LegalPairShape(b, c, mp);
    assert mp.passive.start != mp.passive.end;
  }

  /** The aggressive sub-board of a legal turn, read before the move. */
  lemma AggressiveBoardBefore(b: Board, c: Color, mp: MovePair)
    requires IsLegalPair(b, c, mp)
    ensures mp.passive.Valid() && mp.aggressive.Valid()
    ensures MakeMove(b, mp).Sub(mp.aggressiveBoard) == AggressiveResult(b.Sub(mp.aggressiveBoard), mp.aggressive)
  {
    LegalPairShape(b, c, mp);
  }

  /** The aggressive grid after a one-square move, for any contents. */
  lemma UnitStepResult(ag: Grid, am: Move)
    requires am.Valid() && am.start != am.end
    requires -1 <= am.Difference().x <= 1 && -1 <= am.Difference().y <= 1
    ensures var r := AggressiveResult(ag, am);
            var after := am.end.Add(am.Difference());
            && Get(r, am.start) == Empty
            && Get(r, am.end) == Get(ag, am.start)
            && (after.Valid() ==> Get(r, after) == (if Get(ag, am.end) != Empty then Get(ag, am.end) else Get(ag, after)))
            && forall q: Cord :: q.Valid() && q != am.start && q != am.end && q != after ==> Get(r, q) == Get(ag, q)
  {
    NormalizedDifferenceKeepsNegative(am);
    assert am.NormalizedDifference() == am.Difference();
    assert am.Magnitude() == 1;
    var after := am.end.Add(am.Difference());
    assert after != am.start && after != am.end;
  }

  /** A one-square aggressive move: the mover's piece moves; an opposing
      piece on the end square is pushed one square on, or off the sub-board
      when there is no square there; nothing else changes. */
  lemma MakeMoveUnitStep(b: Board, c: Color, mp: MovePair)
    requires IsLegalPair(b, c, mp)
    requires Reach(mp.passive.Difference()) == 1
    ensures mp.passive.Valid() && mp.aggressive.Valid()
    ensures var g := b.Sub(mp.aggressiveBoard);
            var r := MakeMove(b, mp).Sub(mp.aggressiveBoard);
            var am := mp.aggressive;
            var after := am.end.Add(am.Difference());
            && Get(r, am.start) == Empty
            && Get(r, am.end) == c
            && (after.Valid() ==> Get(r, after) == (if Get(g, am.end) == Opposite(c) then Opposite(c) else Get(g, after)))
            && forall q: Cord :: q.Valid() && q != am.start && q != am.end && q != after ==> Get(r, q) == Get(g, q)
  {
    LegalPairShape(b, c, mp);
    AggressiveBoardBefore(b, c, mp);
    var g := b.Sub(mp.aggressiveBoard);
    var am := mp.aggressive;
    UnitStepResult(g, am);
    if Get(g, am.end) == c {
      OwnPieceNeverAdmitted(g, c, am.start, am.end, mp.passive);
    }
  }

  /** The aggressive grid after a two-square move in a non-negative
      direction, for any contents: a piece on the end square is pushed on
      when there is room, and a piece in the middle square is cleared and
      only the (then empty) end contents are written past the end. */
  lemma ForwardTwoStepResult(ag: Grid, am: Move)
    requires am.Valid()
    requires am.Difference().x in {0, 2} && am.Difference().y in {0, 2} && am.Difference() != Cord(0, 0)
    ensures am.start.Add(Unit(am.Difference())).Valid()
    ensures var r := AggressiveResult(ag, am);
            var mid := am.start.Add(Unit(am.Difference()));
            var after := am.end.Add(Unit(am.Difference()));
            && Get(r, am.start) == Empty
            && Get(r, am.end) == Get(ag, am.start)
            && (Get(ag, am.end) == Empty || !after.Valid() ==> Get(r, mid) == Empty)
            && (Get(ag, am.end) != Empty && after.Valid() ==> Get(r, mid) == Get(ag, mid))
            && (after.Valid() ==>
                  Get(r, after) == if Get(ag, am.end) != Empty || Get(ag, mid) != Empty then Get(ag, am.end) else Get(ag, after))
            && forall q: Cord :: q.Valid() && q != am.start && q != mid && q != am.end && q != after ==>
                 Get(r, q) == Get(ag, q)
  {
    NormalizedDifferenceForward(am);
    assert am.Magnitude() == 2;
    var d := am.Difference();
    var mid := am.start.Add(Unit(d));
    var after := am.end.Add(Unit(d));
    assert mid != am.start && mid != am.end && after != am.start && after != mid && after != am.end;
  }

  /** A legal two-square aggressive move in a non-negative direction: the
      mover's piece lands on the end square and the two squares behind it are
      empty. An opposing piece on the end square is pushed one square on (or
      off the sub-board); an opposing piece in the middle square is removed,
      not moved past the end. */
  lemma MakeMoveForwardTwoStep(b: Board, c: Color, mp: MovePair)
    requires IsLegalPair(b, c, mp)
    requires mp.passive.Difference().x >= 0 && mp.passive.Difference().y >= 0
    requires Reach(mp.passive.Difference()) == 2
    ensures mp.passive.Valid() && mp.aggressive.Valid()
    ensures mp.aggressive.start.Add(Unit(mp.aggressive.Difference())).Valid()
    ensures var g := b.Sub(mp.aggressiveBoard);
            var r := MakeMove(b, mp).Sub(mp.aggressiveBoard);
            var am := mp.aggressive;
            var mid := am.start.Add(Unit(am.Difference()));
            var after := am.end.Add(Unit(am.Difference()));
            && Get(r, am.start) == Empty
            && Get(r, mid) == Empty
            && Get(r, am.end) == c
            && (after.Valid() ==> Get(r, after) == (if Get(g, am.end) == Opposite(c) then Opposite(c) else Get(g, after)))
            && forall q: Cord :: q.Valid() && q != am.start && q != mid && q != am.end && q != after ==>
                 Get(r, q) == Get(g, q)
  {
    LegalPairShape(b, c, mp);
    AggressiveBoardBefore(b, c, mp);
    var g := b.Sub(mp.aggressiveBoard);
    var am := mp.aggressive;
    ForwardTwoStepResult(g, am);
    ForwardTwoStepRule(g, c, am.start, am.end, mp.passive);
  }

  /** A legal two-square aggressive move straight toward lower coordinates
      (magnitude 1 by the engine's reckoning) just relocates the mover's
      piece: whatever it passes over stays where it is. */
  lemma MakeMoveBackwardTwoStep(b: Board, c: Color, mp: MovePair)
    requires IsLegalPair(b, c, mp)
    requires mp.passive.Difference() in {Cord(-2, 0), Cord(0, -2), Cord(-2, -2)}
    ensures mp.passive.Valid() && mp.aggressive.Valid()
    ensures var g := b.Sub(mp.aggressiveBoard);
            var r := MakeMove(b, mp).Sub(mp.aggressiveBoard);
            var am := mp.aggressive;
            && Get(r, am.start) == Empty
            && Get(r, am.end) == c
            && forall q: Cord :: q.Valid() && q != am.start && q != am.end ==> Get(r, q) == Get(g, q)
  {
    LegalPairShape(b, c, mp);
    AggressiveBoardBefore(b, c, mp);
    var am := mp.aggressive;
    NormalizedDifferenceKeepsNegative(am);
    assert am.NormalizedDifference() == am.Difference();
    assert am.Magnitude() == 1;
    assert !am.end.Add(am.Difference()).Valid();
  }

  /** Counting after the mover's piece leaves `start` and takes `end`, where
      an opposing piece stood, and a `cleared` square (possibly `start`) is emptied. */
  lemma CountAfterCapture(g: Grid, r: Grid, c: Color, start: Cord, cleared: Cord, end: Cord, victim: Cord)
    requires start.Valid() && cleared.Valid() && end.Valid() && victim.Valid()
    requires start != end && cleared != end && (victim == end || victim == cleared)
    requires Get(g, start) == c && Get(g, victim) == Opposite(c)
    requires victim == end ==> Get(g, cleared) == Empty || cleared == start
    requires victim == cleared ==> Get(g, end) == Empty
    requires forall q: Cord :: q.Valid() ==>
               Get(r, q) == if q == start || q == cleared then Empty else if q == end then c else Get(g, q)
    ensures Count(r, Opposite(c)) == Count(g, Opposite(c)) - 1
    ensures Count(r, c) == Count(g, c)
  {
    var g1 := Put(g, start, Empty);
    var g2 := Put(g1, cleared, Empty);
    var g3 := Put(g2, end, c);
    GridExtensional(r, g3);
    CountPut(g, start, Empty, c);
    CountPut(g, start, Empty, Opposite(c));
    CountPut(g1, cleared, Empty, c);
    CountPut(g1, cleared, Empty, Opposite(c));
    CountPut(g2, end, c, c);
    CountPut(g2, end, c, Opposite(c));
  }

  /** Pushing an opposing piece off the edge with a one-square move removes
      exactly that piece. */
  lemma PushOffRemovesOnePiece(b: Board, c: Color, mp: MovePair)
    requires IsLegalPair(b, c, mp)
    requires Reach(mp.passive.Difference()) == 1
    requires mp.aggressive.Valid()
    requires Get(b.Sub(mp.aggressiveBoard), mp.aggressive.end) == Opposite(c)
    requires !mp.aggressive.end.Add(mp.aggressive.Difference()).Valid()
    ensures mp.passive.Valid()
    ensures Count(MakeMove(b, mp).Sub(mp.aggressiveBoard), Opposite(c)) == Count(b.Sub(mp.aggressiveBoard), Opposite(c)) - 1
    ensures Count(MakeMove(b, mp).Sub(mp.aggressiveBoard), c) == Count(b.Sub(mp.aggressiveBoard), c)
  {
    MakeMoveUnitStep(b, c, mp);
    LegalPairShape(b, c, mp);
    var am := mp.aggressive;
    CountAfterCapture(b.Sub(mp.aggressiveBoard), MakeMove(b, mp).Sub(mp.aggressiveBoard), c,
                      am.start, am.start, am.end, am.end);
  }

  /** A legal two-square move in a non-negative direction that runs into an
      opposing piece on its middle square removes that piece from the game
      even when the square past the end is free to receive it. */
  lemma MiddlePushLosesPiece(b: Board, c: Color, mp: MovePair)
    requires IsLegalPair(b, c, mp)
    requires mp.passive.Difference().x >= 0 && mp.passive.Difference().y >= 0
    requires Reach(mp.passive.Difference()) == 2
    requires mp.aggressive.Valid()
    requires mp.aggressive.start.Add(Unit(mp.aggressive.Difference())).Valid()
    requires Get(b.Sub(mp.aggressiveBoard), mp.aggressive.start.Add(Unit(mp.aggressive.Difference()))) == Opposite(c)
    requires mp.aggressive.end.Add(Unit(mp.aggressive.Difference())).Valid()
    ensures mp.passive.Valid()
    ensures Count(MakeMove(b, mp).Sub(mp.aggressiveBoard), Opposite(c)) == Count(b.Sub(mp.aggressiveBoard), Opposite(c)) - 1
    ensures Count(MakeMove(b, mp).Sub(mp.aggressiveBoard), c) == Count(b.Sub(mp.aggressiveBoard), c)
  {
    MakeMoveForwardTwoStep(b, c, mp);
    LegalPairShape(b, c, mp);
    var g := b.Sub(mp.aggressiveBoard);
    var am := mp.aggressive;
    var mid := am.start.Add(Unit(am.Difference()));
    var after := am.end.Add(Unit(am.Difference()));
    ForwardTwoStepRule(g, c, am.start, am.end, mp.passive);
    assert Get(g, am.end) == Empty && Get(g, after) == Empty;
    CountAfterCapture(g, MakeMove(b, mp).Sub(mp.aggressiveBoard), c, am.start, mid, am.end, mid);
  }

  /** A legal mixed two-square diagonal, (2, -2) or (-2, 2): the mover's
      piece lands on the end square and the off-path square the engine takes
      for the middle is emptied, so an opposing piece standing there is
      removed although the move never crosses it; the square actually passed
      over keeps its contents, and an opposing piece on the end square is
      captured rather than pushed. */
  lemma MakeMoveMixedDiagonal(b: Board, c: Color, mp: MovePair)
    requires IsLegalPair(b, c, mp)
    requires mp.passive.Difference() in {Cord(2, -2), Cord(-2, 2)}
    ensures mp.passive.Valid() && mp.aggressive.Valid()
    ensures MixedDiagonalProbe(mp.aggressive.start, mp.aggressive.Difference()).Valid()
    ensures var g := b.Sub(mp.aggressiveBoard);
            var r := MakeMove(b, mp).Sub(mp.aggressiveBoard);
            var am := mp.aggressive;
            var probe := MixedDiagonalProbe(am.start, am.Difference());
            && Get(r, am.start) == Empty
            && Get(r, probe) == Empty
            && Get(r, am.end) == c
            && forall q: Cord :: q.Valid() && q != am.start && q != probe && q != am.end ==> Get(r, q) == Get(g, q)
    ensures var g := b.Sub(mp.aggressiveBoard);
            var r := MakeMove(b, mp).Sub(mp.aggressiveBoard);
            var probe := MixedDiagonalProbe(mp.aggressive.start, mp.aggressive.Difference());
            Get(g, probe) == Opposite(c) || Get(g, mp.aggressive.end) == Opposite(c) ==>
              && Count(r, Opposite(c)) == Count(g, Opposite(c)) - 1
              && Count(r, c) == Count(g, c)
  {
    LegalPairShape(b, c, mp);
    AggressiveBoardBefore(b, c, mp);
    var g := b.Sub(mp.aggressiveBoard);
    var r := MakeMove(b, mp).Sub(mp.aggressiveBoard);
    var am := mp.aggressive;
    var probe := MixedDiagonalProbe(am.start, am.Difference());
    MixedDiagonalExaminesOffPathSquare(g, c, am.start, am.end, mp.passive);
    assert am.start.Add(am.NormalizedDifference()) == probe;
    assert am.Magnitude() == 2 && !am.end.Add(am.NormalizedDifference()).Valid();
    if Get(g, probe) == Opposite(c) {
      CountAfterCapture(g, r, c, am.start, probe, am.end, probe);
    } else if Get(g, am.end) == Opposite(c) {
      CountAfterCapture(g, r, c, am.start, probe, am.end, am.end);
    }
  }
}
