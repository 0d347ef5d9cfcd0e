/** The position evaluator (app/engine/analyze.py): the decided-position
    short-circuit, the per-sub-board tallies of material, mobility, support
    and aggression, and their signed combination. The four response curves
    (logarithm and square-root shapes over floats) are parameters. */
module Evaluator {
  import opened Wrappers
  import opened Geometry
  import opened Rules
  import opened Scores
  import opened Seqs

  /** The four concept weights. */
  datatype Weights = Weights(material: real, support: real, mobility: real, aggression: real)

  /** The configuration keys, in the order they are read. */
  const WeightKeys: seq<string> := ["Material", "Support", "Mobility", "Aggression"]

  /** The weights as the engine's dictionary. */
  function ConceptWeights(w: Weights): (m: map<string, real>)
    ensures m.Keys == {"Material", "Support", "Mobility", "Aggression"}
  {
    map["Material" := w.material, "Support" := w.support, "Mobility" := w.mobility, "Aggression" := w.aggression]
  }

  /** `set_concept_weights`: keeps the four concept weights of `config` and
      nothing else; a missing key fails (Python's `KeyError`) on the first
      key read. */
  function SetConceptWeights(config: map<string, real>): (r: Result<Weights, string>)
    ensures r.Success? <==> forall k :: k in WeightKeys ==> k in config
    ensures r.Success? ==> forall k :: k in WeightKeys ==> ConceptWeights(r.value)[k] == config[k]
    ensures r.Failure? ==> exists i :: 0 <= i < |WeightKeys| && WeightKeys[i] == r.error && r.error !in config
                              && forall j :: 0 <= j < i ==> WeightKeys[j] in config
  {
    if "Material" !in config then assert WeightKeys[0] == "Material"; Failure("Material")
    else if "Support" !in config then assert WeightKeys[1] == "Support"; Failure("Support")
    else if "Mobility" !in config then
      assert WeightKeys[2] == "Mobility" && WeightKeys[0] in config && WeightKeys[1] in config;
      Failure("Mobility")
    else if "Aggression" !in config then
      assert WeightKeys[3] == "Aggression" && WeightKeys[0] in config && WeightKeys[1] in config && WeightKeys[2] in config;
      Failure("Aggression")
    else Success(Weights(config["Material"], config["Support"], config["Mobility"], config["Aggression"]))
  }

  lemma SetConceptWeightsRoundTrip(w: Weights)
    ensures SetConceptWeights(ConceptWeights(w)) == Success(w)
  {
  }

  /** The four response curves before weighting, as functions of a tally. */
  datatype Curves = Curves(material: real -> real, support: real -> real, mobility: real -> real, aggression: real -> real)

  function MaterialEquation(w: Weights, cv: Curves, n: real): real { cv.material(n) * w.material }
  function SupportEquation(w: Weights, cv: Curves, n: real): real { cv.support(n) * w.support }
  function MobilityEquation(w: Weights, cv: Curves, n: real): real { cv.mobility(n) * w.mobility }
  function AggressionEquation(w: Weights, cv: Curves, n: real): real { cv.aggression(n) * w.aggression }

  /** `_on_board`: both coordinates in `range(0, 4)`. */
  function OnBoard(x: int, y: int): (r: bool)
    ensures r <==> Cord(x, y).Valid()
  {
    0 <= x < 4 && 0 <= y < 4
  }

  /** The three kinds of tally kept per colour; mobility is kept per direction. */
  datatype Tally = Mobility(dir: Cord) | Support | Aggression

  /** What the square at distance `s` from the piece of colour `c` on `p`
      adds to tally `t`: nothing off the sub-board; for an empty square 0.5
      (distance 1) or 1.0 (distance 2) of mobility in that direction; for a
      same-colour square 1 or 0.25 of support; for an opposing square 1 or
      0.35 of aggression. The square in between is never looked at. */
  function Increment(g: Grid, p: Square, c: Color, s: Step, t: Tally): (r: real)
    ensures r >= 0.0
  {
    var target := p.Add(Displacement(s));
    if !OnBoard(target.x, target.y) then 0.0
    else
      var q := Get(g, target);
      match t
      case Mobility(d) => if q == Empty && s.dir == d then (if s.mag == 1 then 0.5 else 1.0) else 0.0
      case Support => if q == c then (if s.mag == 1 then 1.0 else 0.25) else 0.0
      case Aggression => if q == Opposite(c) then (if s.mag == 1 then 1.0 else 0.35) else 0.0
  }

  /** The contribution of one piece, over the 16 direction/distance offsets. */
  function PieceTally(g: Grid, p: Square, c: Color, t: Tally): real
  {
    Sum(Steps, (s: Step) => Increment(g, p, c, s, t))
  }

  /** Tally `t` of colour `c` on `g`: the sum over the pieces of colour `c`,
      in scanning order. (The engine fills all tallies in one pass; the sums
      are the same.) */
  function TallyOf(g: Grid, c: Color, t: Tally): real
  {
    Sum(Cells, (p: Square) => if Get(g, p) == c then PieceTally(g, p, c, t) else 0.0)
  }

  /** The mobility concept: black's weighted curve minus white's, summed
      over the eight directions. */
  function MobilityTerm(w: Weights, cv: Curves, g: Grid): real
  {
    Sum(Directions, (d: Cord) =>
      MobilityEquation(w, cv, TallyOf(g, Black, Mobility(d))) - MobilityEquation(w, cv, TallyOf(g, White, Mobility(d))))
  }

  /** The contribution of one undecided sub-board: for each concept the
      weighted curve of black's tally minus that of white's. */
  function SubBoardScore(w: Weights, cv: Curves, g: Grid): real
  {
    var material := MaterialEquation(w, cv, Count(g, Black) as real) - MaterialEquation(w, cv, Count(g, White) as real);
    var mobility := MobilityTerm(w, cv, g);
    var aggression := AggressionEquation(w, cv, TallyOf(g, Black, Aggression)) - AggressionEquation(w, cv, TallyOf(g, White, Aggression));
    var support := SupportEquation(w, cv, TallyOf(g, Black, Support)) - SupportEquation(w, cv, TallyOf(g, White, Support));
    material + mobility + aggression + support
  }

  /** `SubBoardScore` as a value, so that the loop below can be stated for
      any per-sub-board contribution. */
  function Contribution(w: Weights, cv: Curves): Grid -> real
  {
    (g: Grid) => SubBoardScore(w, cv, g)
  }

  /** The loop over sub-boards in `ids` with running total `total`: the first
      sub-board without black scores minus infinity, the first without white
      plus infinity, and the totals gathered so far are dropped. */
  function AnalyzeFrom(score: Grid -> real, b: Board, ids: seq<SubBoard>, total: real): (r: Score)
    ensures r.Fin? <==> WinnerIn(b, ids).None?
    ensures r == NegInf <==> WinnerIn(b, ids) == Some(White)
    ensures r == PosInf <==> WinnerIn(b, ids) == Some(Black)
    ensures r.Fin? ==> r.v == total + Sum(ids, (id: SubBoard) => score(b.Sub(id)))
  {
    if |ids| == 0 then Fin(total)
    else
      var g := b.Sub(ids[0]);
      var blacks := Count(g, Black);
      var whites := Count(g, White);
      CountZeroIffAbsent(g, Black);
      CountZeroIffAbsent(g, White);
      if blacks == 0 || whites == 0 then (if blacks == 0 then NegInf else PosInf)
      else AnalyzeFrom(score, b, ids[1..], total + score(g))
  }

  /** The loop over all four sub-boards, in `SubBoards` order, for any
      per-sub-board contribution `score`. */
  function AnalyzeWith(score: Grid -> real, b: Board): (r: Score)
    ensures r.Fin? <==> Winner(b).None?
    ensures r == NegInf <==> Winner(b) == Some(White)
    ensures r == PosInf <==> Winner(b) == Some(Black)
    ensures r.Fin? ==> r.v == Sum(SubBoards, (id: SubBoard) => score(b.Sub(id)))
  {
    AnalyzeFrom(score, b, SubBoards, 0.0)
  }

  /** `analyze`: plus or minus infinity exactly when the position has a
      winner (with the winner `is_winner` reports), otherwise the sum of the
      four sub-boards' contributions. */
  function Analyze(w: Weights, cv: Curves, b: Board): (r: Score)
    ensures r.Fin? <==> Winner(b).None?
    ensures r == NegInf <==> Winner(b) == Some(White)
    ensures r == PosInf <==> Winner(b) == Some(Black)
    ensures r.Fin? ==> r.v == Sum(SubBoards, (id: SubBoard) => Contribution(w, cv)(b.Sub(id)))
  {
    AnalyzeWith(Contribution(w, cv), b)
  }

  lemma ContributionApplies(w: Weights, cv: Curves, g: Grid)
    ensures Contribution(w, cv)(g) == SubBoardScore(w, cv, g)
  {
  }

  /** The loop's total with `Contribution` is the sum of the sub-board scores. */
  lemma ContributionSum(w: Weights, cv: Curves, b: Board)
    ensures Sum(SubBoards, (id: SubBoard) => Contribution(w, cv)(b.Sub(id)))
         == Sum(SubBoards, (id: SubBoard) => SubBoardScore(w, cv, b.Sub(id)))
  {
    forall id: SubBoard | id in SubBoards
      ensures Contribution(w, cv)(b.Sub(id)) == SubBoardScore(w, cv, b.Sub(id))
    {
      ContributionApplies(w, cv, b.Sub(id));
    }
    SumCongruent(SubBoards, (id: SubBoard) => Contribution(w, cv)(b.Sub(id)), (id: SubBoard) => SubBoardScore(w, cv, b.Sub(id)));
  }

  /** An undecided position evaluates to the sum over its four sub-boards of
      the signed, weighted concept terms. */
  lemma AnalyzeIsSubBoardSum(w: Weights, cv: Curves, b: Board)
    requires Winner(b).None?
    ensures Analyze(w, cv, b) == Fin(Sum(SubBoards, (id: SubBoard) => SubBoardScore(w, cv, b.Sub(id))))
  {
    ContributionSum(w, cv, b);
  }

  /** An empty square two away counts fully for mobility whatever stands on
      the square in between. */
  lemma DistanceTwoIgnoresMiddle(g: Grid, p: Square, c: Color, s: Step, middle: Cell)
    requires s.mag == 2 && s.dir != Cord(0, 0)
    requires p.Add(Displacement(s)).Valid() && Get(g, p.Add(Displacement(s))) == Empty
    ensures p.Add(s.dir).Valid()
    ensures Increment(Put(g, p.Add(s.dir), middle), p, c, s, Mobility(s.dir)) == 1.0
  {
    DisplacementOfStep(s);
    var target := p.Add(Displacement(s));
    assert target != p.Add(s.dir);
    assert Get(Put(g, p.Add(s.dir), middle), target) == Empty;
  }

  /** The increment table for an on-board target, kind by kind: what the
      target square holds decides which tally it feeds, and the distance
      decides how much. */
  lemma IncrementTable(g: Grid, p: Square, c: Color, s: Step, d: Cord)
    requires p.Add(Displacement(s)).Valid()
    ensures var q := Get(g, p.Add(Displacement(s)));
            Increment(g, p, c, s, Mobility(s.dir)) == if q == Empty then (if s.mag == 1 then 0.5 else 1.0) else 0.0
    ensures d != s.dir ==> Increment(g, p, c, s, Mobility(d)) == 0.0
    ensures var q := Get(g, p.Add(Displacement(s)));
            Increment(g, p, c, s, Support) == if q == c then (if s.mag == 1 then 1.0 else 0.25) else 0.0
    ensures var q := Get(g, p.Add(Displacement(s)));
            Increment(g, p, c, s, Aggression) == if q == Opposite(c) then (if s.mag == 1 then 1.0 else 0.35) else 0.0
  {
  }

  /** Off-board targets add nothing to any tally. */
  lemma OffBoardSkipped(g: Grid, p: Square, c: Color, s: Step, t: Tally)
    requires !p.Add(Displacement(s)).Valid()
    ensures Increment(g, p, c, s, t) == 0.0
  {
  }

  lemma IncrementSwap(g: Grid, p: Square, c: Color, s: Step, t: Tally)
    ensures Increment(SwapGrid(g), p, Opposite(c), s, t) == Increment(g, p, c, s, t)
  {
  }

  lemma PieceTallySwap(g: Grid, p: Square, c: Color, t: Tally)
    ensures PieceTally(SwapGrid(g), p, Opposite(c), t) == PieceTally(g, p, c, t)
  {
    forall s: Step | s in Steps
      ensures Increment(SwapGrid(g), p, Opposite(c), s, t) == Increment(g, p, c, s, t)
    {
      IncrementSwap(g, p, c, s, t);
    }
    SumCongruent(Steps, (s: Step) => Increment(SwapGrid(g), p, Opposite(c), s, t), (s: Step) => Increment(g, p, c, s, t));
  }

  /** Exchanging the colours of all pieces exchanges the two colours' tallies. */
  lemma TallySwap(g: Grid, c: Color, t: Tally)
    ensures TallyOf(SwapGrid(g), Opposite(c), t) == TallyOf(g, c, t)
  {
    var h := SwapGrid(g);
    forall p: Square | p in Cells
      ensures (if Get(h, p) == Opposite(c) then PieceTally(h, p, Opposite(c), t) else 0.0)
           == (if Get(g, p) == c then PieceTally(g, p, c, t) else 0.0)
    {
      PieceTallySwap(g, p, c, t);
    }
    SumCongruent(Cells, (p: Square) => if Get(h, p) == Opposite(c) then PieceTally(h, p, Opposite(c), t) else 0.0,
                        (p: Square) => if Get(g, p) == c then PieceTally(g, p, c, t) else 0.0);
  }

  lemma TallyNonNegative(g: Grid, c: Color, t: Tally)
    ensures TallyOf(g, c, t) >= 0.0
  {
    forall p: Square | p in Cells
      ensures PieceTally(g, p, c, t) >= 0.0
    {
      SumNonNegative(Steps, (s: Step) => Increment(g, p, c, s, t));
    }
    SumNonNegative(Cells, (p: Square) => if Get(g, p) == c then PieceTally(g, p, c, t) else 0.0);
  }

  /** Exchanging colours negates a sub-board's contribution, whatever the curves. */
  lemma SubBoardScoreSwap(w: Weights, cv: Curves, g: Grid)
    ensures SubBoardScore(w, cv, SwapGrid(g)) == -SubBoardScore(w, cv, g)
  {
    var h := SwapGrid(g);
    CountSwap(g, Black);
    CountSwap(g, White);
    TallySwap(g, Black, Aggression);
    TallySwap(g, White, Aggression);
    TallySwap(g, Black, Support);
    TallySwap(g, White, Support);
    forall d: Cord | d in Directions
      ensures MobilityEquation(w, cv, TallyOf(h, Black, Mobility(d))) - MobilityEquation(w, cv, TallyOf(h, White, Mobility(d)))
           == -(MobilityEquation(w, cv, TallyOf(g, Black, Mobility(d))) - MobilityEquation(w, cv, TallyOf(g, White, Mobility(d))))
    {
      TallySwap(g, Black, Mobility(d));
      TallySwap(g, White, Mobility(d));
    }
    SumNegated(Directions,
      (d: Cord) => MobilityEquation(w, cv, TallyOf(g, Black, Mobility(d))) - MobilityEquation(w, cv, TallyOf(g, White, Mobility(d))),
      (d: Cord) => MobilityEquation(w, cv, TallyOf(h, Black, Mobility(d))) - MobilityEquation(w, cv, TallyOf(h, White, Mobility(d))));
  }

  lemma {:induction false} WinnerInSwapNone(b: Board, ids: seq<SubBoard>)
    requires WinnerIn(b, ids).None?
    ensures WinnerIn(SwapColours(b), ids).None?
  {
    if |ids| > 0 {
      HasSwap(b.Sub(ids[0]), Black);
      HasSwap(b.Sub(ids[0]), White);
      WinnerInSwapNone(b, ids[1..]);
    }
  }

  /** A contribution that changes sign when the colours are exchanged. */
  ghost predicate Antisymmetric(score: Grid -> real)
  {
    forall g: Grid :: score(SwapGrid(g)) == -score(g)
  }

  /** The engine's contribution is antisymmetric, whatever the curves and weights. */
  lemma ContributionAntisymmetric(w: Weights, cv: Curves)
    ensures Antisymmetric(Contribution(w, cv))
  {
    forall g: Grid
      ensures Contribution(w, cv)(SwapGrid(g)) == -Contribution(w, cv)(g)
    {
      SubBoardScoreSwap(w, cv, g);
    }
  }

  lemma {:induction false} AnalyzeFromSwap(score: Grid -> real, b: Board, ids: seq<SubBoard>, total: real)
    requires Antisymmetric(score)
    requires WinnerIn(b, ids).None?
    ensures AnalyzeFrom(score, SwapColours(b), ids, -total) == Neg(AnalyzeFrom(score, b, ids, total))
  {
    if |ids| > 0 {
      var g := b.Sub(ids[0]);
      HasSwap(g, Black);
      HasSwap(g, White);
      CountZeroIffAbsent(g, Black);
      CountZeroIffAbsent(g, White);
      CountSwap(g, Black);
      CountSwap(g, White);
      AnalyzeFromSwap(score, b, ids[1..], total + score(g));
    }
  }

  /** Exchanging the colours of every piece negates the evaluation of an
      undecided position, for every antisymmetric contribution; with
      `ContributionAntisymmetric` this covers `Analyze` for all curves and
      weights. */
  lemma AnalyzeSwapNegates(score: Grid -> real, b: Board)
    requires Antisymmetric(score)
    requires Winner(b).None?
    ensures AnalyzeWith(score, SwapColours(b)) == Neg(AnalyzeWith(score, b))
  {
    AnalyzeFromSwap(score, b, SubBoards, 0.0);
  }

  /** `analyze` with the engine's own curves and weights: swapping every
      piece's colour negates the evaluation of an undecided position. */
  lemma AnalyzeColourSwap(w: Weights, cv: Curves, b: Board)
    requires Winner(b).None?
    ensures Analyze(w, cv, SwapColours(b)) == Neg(Analyze(w, cv, b))
  {
    ContributionAntisymmetric(w, cv);
    AnalyzeSwapNegates(Contribution(w, cv), b);
  }
}
