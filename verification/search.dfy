/** The engine's depth-limited alpha-beta search (`Engine._minimax`) over an
    abstract game: the positions, their legal moves, the successor function,
    the winner test, the side to move and the (cached) evaluation are
    parameters. Black maximises and white minimises. */
module Search {
  import opened Scores

  datatype Game<!P, !M> = Game(
    moves: P -> seq<M>,
    apply: (P, M) -> P,
    hasWinner: P -> bool,
    blackToMove: P -> bool,
    eval: P -> Score)

  /** The second component the search returns: the position itself at a
      leaf, the selected move at an inner node, or nothing when no child
      improved on the initial infinity. */
  datatype Found<P, M> = AtLeaf(position: P) | Chose(move: M) | NoMove

  /** A search either returns a score, or overflows the interpreter's call
      stack (`RecursionError`); `fuel` is the number of nested calls left. */
  datatype Outcome<P, M> = Done(score: Score, found: Found<P, M>) | RecursionLimit

  function Minimax<P, M>(G: Game<P, M>, p: P, depth: int, alpha: Score, beta: Score, fuel: nat): (r: Outcome<P, M>)
    decreases fuel, 1
  {
    if G.hasWinner(p) || depth == 0 then Done(G.eval(p), AtLeaf(p))
    else if G.blackToMove(p) then MaxLoop(G, p, G.moves(p), depth, alpha, beta, NegInf, NoMove, fuel)
    else MinLoop(G, p, G.moves(p), depth, alpha, beta, PosInf, NoMove, fuel)
  }

  /** The maximiser's loop over the moves `ms` still to try. It keeps the
      first child with the strictly greatest score, raises alpha, and stops
      as soon as alpha is at most beta. */
  function MaxLoop<P, M>(G: Game<P, M>, p: P, ms: seq<M>, depth: int, alpha: Score, beta: Score,
                         best: Score, chosen: Found<P, M>, fuel: nat): (r: Outcome<P, M>)
    decreases fuel, 0, |ms|
  {
    if |ms| == 0 then Done(best, chosen)
    else if fuel == 0 then RecursionLimit
    else
      match Minimax(G, G.apply(p, ms[0]), depth - 1, alpha, beta, fuel - 1)
      case RecursionLimit => RecursionLimit
      case Done(c, _) =>
        var best' := if Below(best, c) then c else best;
        var chosen' := if Below(best, c) then Chose(ms[0]) else chosen;
        var alpha' := Max(alpha, c);
        if AtMost(alpha', beta) then Done(best', chosen')
        else MaxLoop(G, p, ms[1..], depth, alpha', beta, best', chosen', fuel)
  }

  /** The minimiser's loop: keeps the first child with the strictly least
      score, lowers beta, and stops as soon as beta is at most alpha. */
  function MinLoop<P, M>(G: Game<P, M>, p: P, ms: seq<M>, depth: int, alpha: Score, beta: Score,
                         best: Score, chosen: Found<P, M>, fuel: nat): (r: Outcome<P, M>)
    decreases fuel, 0, |ms|
  {
    if |ms| == 0 then Done(best, chosen)
    else if fuel == 0 then RecursionLimit
    else
      match Minimax(G, G.apply(p, ms[0]), depth - 1, alpha, beta, fuel - 1)
      case RecursionLimit => RecursionLimit
      case Done(c, _) =>
        var best' := if Below(c, best) then c else best;
        var chosen' := if Below(c, best) then Chose(ms[0]) else chosen;
        var beta' := Min(beta, c);
        if AtMost(beta', alpha) then Done(best', chosen')
        else MinLoop(G, p, ms[1..], depth, alpha, beta', best', chosen', fuel)
  }

  /** What a maximiser's loop can return: a move it was given, with a score
      above minus infinity, or no move and minus infinity. */
  lemma {:induction false} MaxLoopShape<P, M>(G: Game<P, M>, p: P, all: seq<M>, ms: seq<M>, depth: int, alpha: Score, beta: Score,
                                              best: Score, chosen: Found<P, M>, fuel: nat)
    requires forall m :: m in ms ==> m in all
    requires !chosen.AtLeaf?
    requires chosen.NoMove? ==> best == NegInf
    requires chosen.Chose? ==> chosen.move in all && Below(NegInf, best)
    ensures var r := MaxLoop(G, p, ms, depth, alpha, beta, best, chosen, fuel);
            r.Done? ==> !r.found.AtLeaf?
                        && (r.found.NoMove? ==> r.score == NegInf)
                        && (r.found.Chose? ==> r.found.move in all && Below(NegInf, r.score))
    decreases |ms|
  {
    if |ms| > 0 && fuel > 0 {
      assert ms[0] in ms;
      match Minimax(G, G.apply(p, ms[0]), depth - 1, alpha, beta, fuel - 1)
      case RecursionLimit =>
      case Done(c, _) =>
        var best' := if Below(best, c) then c else best;
        var chosen' := if Below(best, c) then Chose(ms[0]) else chosen;
        MaxLoopShape(G, p, all, ms[1..], depth, Max(alpha, c), beta, best', chosen', fuel);
    }
  }

  /** The minimiser's counterpart of `MaxLoopShape`. */
  lemma {:induction false} MinLoopShape<P, M>(G: Game<P, M>, p: P, all: seq<M>, ms: seq<M>, depth: int, alpha: Score, beta: Score,
                                              best: Score, chosen: Found<P, M>, fuel: nat)
    requires forall m :: m in ms ==> m in all
    requires !chosen.AtLeaf?
    requires chosen.NoMove? ==> best == PosInf
    requires chosen.Chose? ==> chosen.move in all && Below(best, PosInf)
    ensures var r := MinLoop(G, p, ms, depth, alpha, beta, best, chosen, fuel);
            r.Done? ==> !r.found.AtLeaf?
                        && (r.found.NoMove? ==> r.score == PosInf)
                        && (r.found.Chose? ==> r.found.move in all && Below(r.score, PosInf))
    decreases |ms|
  {
    if |ms| > 0 && fuel > 0 {
      assert ms[0] in ms;
      match Minimax(G, G.apply(p, ms[0]), depth - 1, alpha, beta, fuel - 1)
      case RecursionLimit =>
      case Done(c, _) =>
        var best' := if Below(c, best) then c else best;
        var chosen' := if Below(c, best) then Chose(ms[0]) else chosen;
        MinLoopShape(G, p, all, ms[1..], depth, alpha, Min(beta, c), best', chosen', fuel);
    }
  }

  // ---------------------------------------------------------------------------
  // What the two loops compute, for any window and any depth.

  /** The alpha a maximiser's loop holds after seeing the child scores `cs`. */
  function RunningMax(alpha: Score, cs: seq<Score>): Score
    decreases |cs|
  {
    if |cs| == 0 then alpha else RunningMax(Max(alpha, cs[0]), cs[1..])
  }

  /** The beta a minimiser's loop holds after seeing the child scores `cs`. */
  function RunningMin(beta: Score, cs: seq<Score>): Score
    decreases |cs|
  {
    if |cs| == 0 then beta else RunningMin(Min(beta, cs[0]), cs[1..])
  }

  /** Child `i` of `ms` is searched one level deeper with alpha raised by
      the scores before it, and scores `cs[i]`. */
  ghost predicate MaxChildren<P, M>(G: Game<P, M>, p: P, ms: seq<M>, depth: int, alpha: Score, beta: Score,
                                    fuel: nat, cs: seq<Score>)
    requires |cs| <= |ms|
  {
    forall i :: 0 <= i < |cs| ==>
      && fuel > 0
      && var child := Minimax(G, G.apply(p, ms[i]), depth - 1, RunningMax(alpha, cs[..i]), beta, fuel - 1);
         child.Done? && child.score == cs[i]
  }

  /** The maximiser goes on past every child but the last explored, and
      stops after `n` children or at a child after which alpha is at most beta. */
  predicate MaxStops(alpha: Score, beta: Score, cs: seq<Score>, n: nat)
  {
    && (forall i :: 0 < i < |cs| ==> !AtMost(RunningMax(alpha, cs[..i]), beta))
    && (|cs| == n || (|cs| > 0 && AtMost(RunningMax(alpha, cs), beta)))
  }

  /** `cs` are the scores of the children a maximiser's loop over `ms`
      explores, in order. */
  ghost predicate MaxExplored<P, M>(G: Game<P, M>, p: P, ms: seq<M>, depth: int, alpha: Score, beta: Score,
                                    fuel: nat, cs: seq<Score>)
  {
    && |cs| <= |ms|
    && MaxChildren(G, p, ms, depth, alpha, beta, fuel, cs)
    && MaxStops(alpha, beta, cs, |ms|)
  }

  /** The minimiser's counterpart of `MaxChildren`: beta is lowered by the
      scores before each child. */
  ghost predicate MinChildren<P, M>(G: Game<P, M>, p: P, ms: seq<M>, depth: int, alpha: Score, beta: Score,
                                    fuel: nat, cs: seq<Score>)
    requires |cs| <= |ms|
  {
    forall i :: 0 <= i < |cs| ==>
      && fuel > 0
      && var child := Minimax(G, G.apply(p, ms[i]), depth - 1, alpha, RunningMin(beta, cs[..i]), fuel - 1);
         child.Done? && child.score == cs[i]
  }

  /** The minimiser stops after `n` children or at a child after which beta
      is at most alpha. */
  predicate MinStops(alpha: Score, beta: Score, cs: seq<Score>, n: nat)
  {
    && (forall i :: 0 < i < |cs| ==> !AtMost(RunningMin(beta, cs[..i]), alpha))
    && (|cs| == n || (|cs| > 0 && AtMost(RunningMin(beta, cs), alpha)))
  }

  /** `cs` are the scores of the children a minimiser's loop over `ms`
      explores, in order. */
  ghost predicate MinExplored<P, M>(G: Game<P, M>, p: P, ms: seq<M>, depth: int, alpha: Score, beta: Score,
                                    fuel: nat, cs: seq<Score>)
  {
    && |cs| <= |ms|
    && MinChildren(G, p, ms, depth, alpha, beta, fuel, cs)
    && MinStops(alpha, beta, cs, |ms|)
  }

  /** The selection over explored child scores `cs`: when no child is
      strictly better than `best`, the loop's initial score and move stay;
      otherwise the result is the first child attaining the best score. */
  ghost predicate FirstBest<P, M>(maximizing: bool, ms: seq<M>, cs: seq<Score>, best: Score, chosen: Found<P, M>,
                                  r: Outcome<P, M>)
    requires |cs| <= |ms|
  {
    && r.Done?
    && if forall i :: 0 <= i < |cs| ==> !Better(maximizing, cs[i], best) then
         r.score == best && r.found == chosen
       else
         exists j :: 0 <= j < |cs| && r.score == cs[j] && r.found == Chose(ms[j])
           && Better(maximizing, cs[j], best)
           && (forall i :: 0 <= i < j ==> Better(maximizing, cs[j], cs[i]))
           && (forall i :: 0 <= i < |cs| ==> !Better(maximizing, cs[i], cs[j]))
  }

  /** Prepending one child score to a run is one step of the running bound. */
  lemma RunningPrefix(maximizing: bool, bound: Score, c: Score, cs: seq<Score>, i: nat)
    requires i <= |cs|
    ensures maximizing ==> RunningMax(bound, ([c] + cs)[..i + 1]) == RunningMax(Max(bound, c), cs[..i])
    ensures !maximizing ==> RunningMin(bound, ([c] + cs)[..i + 1]) == RunningMin(Min(bound, c), cs[..i])
  {
    assert ([c] + cs)[..i + 1][1..] == cs[..i];
  }

  /** Taking one more child on top of a selection over the rest. */
  lemma FirstBestStep<P, M>(maximizing: bool, m: M, ms: seq<M>, c: Score, cs: seq<Score>, best: Score,
                            chosen: Found<P, M>, r: Outcome<P, M>)
    requires |cs| <= |ms|
    requires var best' := if Better(maximizing, c, best) then c else best;
             var chosen' := if Better(maximizing, c, best) then Chose(m) else chosen;
             FirstBest(maximizing, ms, cs, best', chosen', r)
    ensures FirstBest(maximizing, [m] + ms, [c] + cs, best, chosen, r)
  {
    var best' := if Better(maximizing, c, best) then c else best;
    if forall i :: 0 <= i < |cs| ==> !Better(maximizing, cs[i], best') {
      FirstBestHead(maximizing, m, ms, c, cs, best, chosen, r);
    } else {
      FirstBestTail(maximizing, m, ms, c, cs, best, chosen, r);
    }
  }

  /** No later child beats the running best: the first child decides. */
  lemma FirstBestHead<P, M>(maximizing: bool, m: M, ms: seq<M>, c: Score, cs: seq<Score>, best: Score,
                            chosen: Found<P, M>, r: Outcome<P, M>)
    requires |cs| <= |ms|
    requires var best' := if Better(maximizing, c, best) then c else best;
             forall i :: 0 <= i < |cs| ==> !Better(maximizing, cs[i], best')
    requires var best' := if Better(maximizing, c, best) then c else best;
             var chosen' := if Better(maximizing, c, best) then Chose(m) else chosen;
             r.Done? && r.score == best' && r.found == chosen'
    ensures FirstBest(maximizing, [m] + ms, [c] + cs, best, chosen, r)
  {
    var ms1, cs1 := [m] + ms, [c] + cs;
    assert forall i :: 0 < i < |cs1| ==> cs1[i] == cs[i - 1];
    if Better(maximizing, c, best) {
      assert !Better(maximizing, cs1[0], best) ==> false;
      forall i | 0 <= i < |cs1|
        ensures !Better(maximizing, cs1[i], cs1[0])
      {
        BelowIsStrictTotalOrder(c, c, c);
      }
    } else {
      forall i | 0 < i < |cs1|
        ensures !Better(maximizing, cs1[i], best)
      {
      }
    }
  }

  /** A later child beats the running best: it is the first to attain the
      best score over all the children. */
  lemma FirstBestTail<P, M>(maximizing: bool, m: M, ms: seq<M>, c: Score, cs: seq<Score>, best: Score,
                            chosen: Found<P, M>, r: Outcome<P, M>)
    requires |cs| <= |ms|
    requires var best' := if Better(maximizing, c, best) then c else best;
             exists j :: 0 <= j < |cs| && r.Done? && r.score == cs[j] && r.found == Chose(ms[j])
               && Better(maximizing, cs[j], best')
               && (forall i :: 0 <= i < j ==> Better(maximizing, cs[j], cs[i]))
               && (forall i :: 0 <= i < |cs| ==> !Better(maximizing, cs[i], cs[j]))
    ensures FirstBest(maximizing, [m] + ms, [c] + cs, best, chosen, r)
  {
    var ms1, cs1 := [m] + ms, [c] + cs;
    var best' := if Better(maximizing, c, best) then c else best;
    var j :| 0 <= j < |cs| && r.Done? && r.score == cs[j] && r.found == Chose(ms[j])
              && Better(maximizing, cs[j], best')
              && (forall i :: 0 <= i < j ==> Better(maximizing, cs[j], cs[i]))
              && (forall i :: 0 <= i < |cs| ==> !Better(maximizing, cs[i], cs[j]));
    var k := j + 1;
    assert cs1[k] == cs[j] && ms1[k] == ms[j];
    assert Better(maximizing, cs1[k], best) && Better(maximizing, cs1[k], cs1[0]) by {
      BelowIsStrictTotalOrder(best, c, cs[j]);
      BelowIsStrictTotalOrder(cs[j], c, best);
    }
    forall i | 0 <= i < k
      ensures Better(maximizing, cs1[k], cs1[i])
    {
      if i > 0 {
        assert cs1[i] == cs[i - 1];
      }
    }
    forall i | 0 <= i < |cs1|
      ensures !Better(maximizing, cs1[i], cs1[k])
    {
      if i > 0 {
        assert cs1[i] == cs[i - 1];
      } else {
        BelowIsStrictTotalOrder(c, cs[j], c);
      }
    }
    assert !(forall i :: 0 <= i < |cs1| ==> !Better(maximizing, cs1[i], best));
  }

  lemma MaxChildrenCons<P, M>(G: Game<P, M>, p: P, ms: seq<M>, depth: int, alpha: Score, beta: Score,
                                fuel: nat, c: Score, cs: seq<Score>)
    requires |ms| > 0 && fuel > 0 && |cs| < |ms|
    requires Minimax(G, G.apply(p, ms[0]), depth - 1, alpha, beta, fuel - 1).Done?
    requires Minimax(G, G.apply(p, ms[0]), depth - 1, alpha, beta, fuel - 1).score == c
    requires MaxChildren(G, p, ms[1..], depth, Max(alpha, c), beta, fuel, cs)
    ensures MaxChildren(G, p, ms, depth, alpha, beta, fuel, [c] + cs)
  {
    var cs1 := [c] + cs;
    forall i | 0 <= i < |cs1|
      ensures var child := Minimax(G, G.apply(p, ms[i]), depth - 1, RunningMax(alpha, cs1[..i]), beta, fuel - 1);
              child.Done? && child.score == cs1[i]
    {
      if i == 0 {
        assert cs1[..0] == [];
      } else {
        RunningPrefix(true, alpha, c, cs, i - 1);
        assert cs1[..i] == cs1[..(i - 1) + 1] && cs1[i] == cs[i - 1] && ms[i] == ms[1..][i - 1];
      }
    }
  }

  lemma MaxStopsCons(alpha: Score, beta: Score, c: Score, cs: seq<Score>, n: nat)
    requires !AtMost(Max(alpha, c), beta)
    requires MaxStops(Max(alpha, c), beta, cs, n)
    ensures MaxStops(alpha, beta, [c] + cs, n + 1)
  {
    var cs1 := [c] + cs;
    forall i | 0 < i < |cs1|
      ensures !AtMost(RunningMax(alpha, cs1[..i]), beta)
    {
      RunningPrefix(true, alpha, c, cs, i - 1);
      assert cs1[..i] == cs1[..(i - 1) + 1];
      if i == 1 {
        assert cs[..0] == [];
      }
    }
    RunningPrefix(true, alpha, c, cs, |cs|);
    assert cs1 == cs1[..|cs| + 1] && cs == cs[..|cs|];
  }

  /** A maximiser's exploration that goes on past its first child is that
      child followed by an exploration of the rest with alpha raised. */
  lemma MaxExploredCons<P, M>(G: Game<P, M>, p: P, ms: seq<M>, depth: int, alpha: Score, beta: Score,
                              fuel: nat, c: Score, cs: seq<Score>)
    requires |ms| > 0 && fuel > 0
    requires Minimax(G, G.apply(p, ms[0]), depth - 1, alpha, beta, fuel - 1).Done?
    requires Minimax(G, G.apply(p, ms[0]), depth - 1, alpha, beta, fuel - 1).score == c
    requires !AtMost(Max(alpha, c), beta)
    requires MaxExplored(G, p, ms[1..], depth, Max(alpha, c), beta, fuel, cs)
    ensures MaxExplored(G, p, ms, depth, alpha, beta, fuel, [c] + cs)
  {
    MaxChildrenCons(G, p, ms, depth, alpha, beta, fuel, c, cs);
    MaxStopsCons(alpha, beta, c, cs, |ms| - 1);
  }

  lemma MinChildrenCons<P, M>(G: Game<P, M>, p: P, ms: seq<M>, depth: int, alpha: Score, beta: Score,
                                fuel: nat, c: Score, cs: seq<Score>)
    requires |ms| > 0 && fuel > 0 && |cs| < |ms|
    requires Minimax(G, G.apply(p, ms[0]), depth - 1, alpha, beta, fuel - 1).Done?
    requires Minimax(G, G.apply(p, ms[0]), depth - 1, alpha, beta, fuel - 1).score == c
    requires MinChildren(G, p, ms[1..], depth, alpha, Min(beta, c), fuel, cs)
    ensures MinChildren(G, p, ms, depth, alpha, beta, fuel, [c] + cs)
  {
    var cs1 := [c] + cs;
    forall i | 0 <= i < |cs1|
      ensures var child := Minimax(G, G.apply(p, ms[i]), depth - 1, alpha, RunningMin(beta, cs1[..i]), fuel - 1);
              child.Done? && child.score == cs1[i]
    {
      if i == 0 {
        assert cs1[..0] == [];
      } else {
        RunningPrefix(false, beta, c, cs, i - 1);
        assert cs1[..i] == cs1[..(i - 1) + 1] && cs1[i] == cs[i - 1] && ms[i] == ms[1..][i - 1];
      }
    }
  }

  lemma MinStopsCons(alpha: Score, beta: Score, c: Score, cs: seq<Score>, n: nat)
    requires !AtMost(Min(beta, c), alpha)
    requires MinStops(alpha, Min(beta, c), cs, n)
    ensures MinStops(alpha, beta, [c] + cs, n + 1)
  {
    var cs1 := [c] + cs;
    forall i | 0 < i < |cs1|
      ensures !AtMost(RunningMin(beta, cs1[..i]), alpha)
    {
      RunningPrefix(false, beta, c, cs, i - 1);
      assert cs1[..i] == cs1[..(i - 1) + 1];
      if i == 1 {
        assert cs[..0] == [];
      }
    }
    RunningPrefix(false, beta, c, cs, |cs|);
    assert cs1 == cs1[..|cs| + 1] && cs == cs[..|cs|];
  }

  /** The minimiser's counterpart of `MaxExploredCons`. */
  lemma MinExploredCons<P, M>(G: Game<P, M>, p: P, ms: seq<M>, depth: int, alpha: Score, beta: Score,
                              fuel: nat, c: Score, cs: seq<Score>)
    requires |ms| > 0 && fuel > 0
    requires Minimax(G, G.apply(p, ms[0]), depth - 1, alpha, beta, fuel - 1).Done?
    requires Minimax(G, G.apply(p, ms[0]), depth - 1, alpha, beta, fuel - 1).score == c
    requires !AtMost(Min(beta, c), alpha)
    requires MinExplored(G, p, ms[1..], depth, alpha, Min(beta, c), fuel, cs)
    ensures MinExplored(G, p, ms, depth, alpha, beta, fuel, [c] + cs)
  {
    MinChildrenCons(G, p, ms, depth, alpha, beta, fuel, c, cs);
    MinStopsCons(alpha, beta, c, cs, |ms| - 1);
  }

  /** The maximiser's loop stopping right after its first child. */
  lemma MaxExploresCutoff<P, M>(G: Game<P, M>, p: P, ms: seq<M>, depth: int, alpha: Score, beta: Score,
                                 best: Score, chosen: Found<P, M>, fuel: nat, c: Score, r: Outcome<P, M>)
    requires |ms| > 0 && fuel > 0
    requires Minimax(G, G.apply(p, ms[0]), depth - 1, alpha, beta, fuel - 1).Done?
    requires Minimax(G, G.apply(p, ms[0]), depth - 1, alpha, beta, fuel - 1).score == c
    requires AtMost(Max(alpha, c), beta)
    requires r == Done(if Below(best, c) then c else best, if Below(best, c) then Chose(ms[0]) else chosen)
    ensures exists cs :: MaxExplored(G, p, ms, depth, alpha, beta, fuel, cs) && FirstBest(true, ms, cs, best, chosen, r)
  {
    assert [c][..0] == [] && [c][1..] == [];
    assert MaxExplored(G, p, ms, depth, alpha, beta, fuel, [c]);
    assert ms == [ms[0]] + ms[1..];
    FirstBestStep(true, ms[0], ms[1..], c, [], best, chosen, r);
  }

  /** The maximiser's loop going on past its first child. */
  lemma MaxExploresStep<P, M>(G: Game<P, M>, p: P, ms: seq<M>, depth: int, alpha: Score, beta: Score,
                               best: Score, chosen: Found<P, M>, fuel: nat, c: Score, r: Outcome<P, M>)
    requires |ms| > 0 && fuel > 0
    requires Minimax(G, G.apply(p, ms[0]), depth - 1, alpha, beta, fuel - 1).Done?
    requires Minimax(G, G.apply(p, ms[0]), depth - 1, alpha, beta, fuel - 1).score == c
    requires !AtMost(Max(alpha, c), beta)
    requires exists cs :: MaxExplored(G, p, ms[1..], depth, Max(alpha, c), beta, fuel, cs)
                          && FirstBest(true, ms[1..], cs, if Below(best, c) then c else best,
                                       if Below(best, c) then Chose(ms[0]) else chosen, r)
    ensures exists cs :: MaxExplored(G, p, ms, depth, alpha, beta, fuel, cs) && FirstBest(true, ms, cs, best, chosen, r)
  {
    var cs :| MaxExplored(G, p, ms[1..], depth, Max(alpha, c), beta, fuel, cs)
              && FirstBest(true, ms[1..], cs, if Below(best, c) then c else best,
                           if Below(best, c) then Chose(ms[0]) else chosen, r);
    MaxExploredCons(G, p, ms, depth, alpha, beta, fuel, c, cs);
    assert ms == [ms[0]] + ms[1..];
    FirstBestStep(true, ms[0], ms[1..], c, cs, best, chosen, r);
  }

  /** The maximiser's loop keeps the first child with the greatest score
      (when it beats the initial one), and explores exactly the children up
      to and including the first after which alpha is at most beta. */
  lemma {:induction false} MaxLoopExplores<P, M>(G: Game<P, M>, p: P, ms: seq<M>, depth: int, alpha: Score, beta: Score,
                                                 best: Score, chosen: Found<P, M>, fuel: nat)
    ensures var r := MaxLoop(G, p, ms, depth, alpha, beta, best, chosen, fuel);
            r.Done? ==> exists cs :: MaxExplored(G, p, ms, depth, alpha, beta, fuel, cs)
                                   && FirstBest(true, ms, cs, best, chosen, r)
    decreases |ms|
  {
    var r := MaxLoop(G, p, ms, depth, alpha, beta, best, chosen, fuel);
    if |ms| == 0 {
      assert MaxExplored(G, p, ms, depth, alpha, beta, fuel, []);
    } else if fuel > 0 {
      match Minimax(G, G.apply(p, ms[0]), depth - 1, alpha, beta, fuel - 1)
      case RecursionLimit =>
      case Done(c, _) =>
        if AtMost(Max(alpha, c), beta) {
          MaxExploresCutoff(G, p, ms, depth, alpha, beta, best, chosen, fuel, c, r);
        } else if r.Done? {
          MaxLoopExplores(G, p, ms[1..], depth, Max(alpha, c), beta, if Below(best, c) then c else best,
                     if Below(best, c) then Chose(ms[0]) else chosen, fuel);
          MaxExploresStep(G, p, ms, depth, alpha, beta, best, chosen, fuel, c, r);
        }
    }
  }

  /** The minimiser's loop stopping right after its first child. */
  lemma MinExploresCutoff<P, M>(G: Game<P, M>, p: P, ms: seq<M>, depth: int, alpha: Score, beta: Score,
                                 best: Score, chosen: Found<P, M>, fuel: nat, c: Score, r: Outcome<P, M>)
    requires |ms| > 0 && fuel > 0
    requires Minimax(G, G.apply(p, ms[0]), depth - 1, alpha, beta, fuel - 1).Done?
    requires Minimax(G, G.apply(p, ms[0]), depth - 1, alpha, beta, fuel - 1).score == c
    requires AtMost(Min(beta, c), alpha)
    requires r == Done(if Below(c, best) then c else best, if Below(c, best) then Chose(ms[0]) else chosen)
    ensures exists cs :: MinExplored(G, p, ms, depth, alpha, beta, fuel, cs) && FirstBest(false, ms, cs, best, chosen, r)
  {
    assert [c][..0] == [] && [c][1..] == [];
    assert MinExplored(G, p, ms, depth, alpha, beta, fuel, [c]);
    assert ms == [ms[0]] + ms[1..];
    FirstBestStep(false, ms[0], ms[1..], c, [], best, chosen, r);
  }

  /** The minimiser's loop going on past its first child. */
  lemma MinExploresStep<P, M>(G: Game<P, M>, p: P, ms: seq<M>, depth: int, alpha: Score, beta: Score,
                               best: Score, chosen: Found<P, M>, fuel: nat, c: Score, r: Outcome<P, M>)
    requires |ms| > 0 && fuel > 0
    requires Minimax(G, G.apply(p, ms[0]), depth - 1, alpha, beta, fuel - 1).Done?
    requires Minimax(G, G.apply(p, ms[0]), depth - 1, alpha, beta, fuel - 1).score == c
    requires !AtMost(Min(beta, c), alpha)
    requires exists cs :: MinExplored(G, p, ms[1..], depth, alpha, Min(beta, c), fuel, cs)
                          && FirstBest(false, ms[1..], cs, if Below(c, best) then c else best,
                                       if Below(c, best) then Chose(ms[0]) else chosen, r)
    ensures exists cs :: MinExplored(G, p, ms, depth, alpha, beta, fuel, cs) && FirstBest(false, ms, cs, best, chosen, r)
  {
    var cs :| MinExplored(G, p, ms[1..], depth, alpha, Min(beta, c), fuel, cs)
              && FirstBest(false, ms[1..], cs, if Below(c, best) then c else best,
                           if Below(c, best) then Chose(ms[0]) else chosen, r);
    MinExploredCons(G, p, ms, depth, alpha, beta, fuel, c, cs);
    assert ms == [ms[0]] + ms[1..];
    FirstBestStep(false, ms[0], ms[1..], c, cs, best, chosen, r);
  }

  /** The minimiser's counterpart of `MaxLoopExplores`: the first child with
      the least score, and the children up to the first after which beta is
      at most alpha. */
  lemma {:induction false} MinLoopExplores<P, M>(G: Game<P, M>, p: P, ms: seq<M>, depth: int, alpha: Score, beta: Score,
                                                 best: Score, chosen: Found<P, M>, fuel: nat)
    ensures var r := MinLoop(G, p, ms, depth, alpha, beta, best, chosen, fuel);
            r.Done? ==> exists cs :: MinExplored(G, p, ms, depth, alpha, beta, fuel, cs)
                                   && FirstBest(false, ms, cs, best, chosen, r)
    decreases |ms|
  {
    var r := MinLoop(G, p, ms, depth, alpha, beta, best, chosen, fuel);
    if |ms| == 0 {
      assert MinExplored(G, p, ms, depth, alpha, beta, fuel, []);
    } else if fuel > 0 {
      match Minimax(G, G.apply(p, ms[0]), depth - 1, alpha, beta, fuel - 1)
      case RecursionLimit =>
      case Done(c, _) =>
        if AtMost(Min(beta, c), alpha) {
          MinExploresCutoff(G, p, ms, depth, alpha, beta, best, chosen, fuel, c, r);
        } else if r.Done? {
          MinLoopExplores(G, p, ms[1..], depth, alpha, Min(beta, c), if Below(c, best) then c else best,
                     if Below(c, best) then Chose(ms[0]) else chosen, fuel);
          MinExploresStep(G, p, ms, depth, alpha, beta, best, chosen, fuel, c, r);
        }
    }
  }

  /** At an inner node, `_minimax` returns the first legal move with the best
      child score among the children it explores (or no move and the mover's
      worst score), and it explores the children up to the first cutoff. */
  lemma MinimaxExplores<P, M>(G: Game<P, M>, p: P, depth: int, alpha: Score, beta: Score, fuel: nat)
    requires !G.hasWinner(p) && depth != 0
    ensures var r := Minimax(G, p, depth, alpha, beta, fuel);
            r.Done? ==>
              if G.blackToMove(p) then
                exists cs :: MaxExplored(G, p, G.moves(p), depth, alpha, beta, fuel, cs)
                             && FirstBest(true, G.moves(p), cs, NegInf, NoMove, r)
              else
                exists cs :: MinExplored(G, p, G.moves(p), depth, alpha, beta, fuel, cs)
                             && FirstBest(false, G.moves(p), cs, PosInf, NoMove, r)
  {
    if G.blackToMove(p) {
      MaxLoopExplores(G, p, G.moves(p), depth, alpha, beta, NegInf, NoMove, fuel);
    } else {
      MinLoopExplores(G, p, G.moves(p), depth, alpha, beta, PosInf, NoMove, fuel);
    }
  }

  /** `_minimax` answers a decided or depth-0 position with its own
      evaluation and the position itself; otherwise with a legal move whose
      score is finite on the mover's side, or with no move and the mover's
      worst score. */
  lemma MinimaxShape<P, M>(G: Game<P, M>, p: P, depth: int, alpha: Score, beta: Score, fuel: nat)
    ensures var r := Minimax(G, p, depth, alpha, beta, fuel);
            && ((G.hasWinner(p) || depth == 0) ==> r == Done(G.eval(p), AtLeaf(p)))
            && (!(G.hasWinner(p) || depth == 0) && |G.moves(p)| == 0 ==>
                  r == Done(if G.blackToMove(p) then NegInf else PosInf, NoMove))
            && (r.Done? && r.found.AtLeaf? ==> G.hasWinner(p) || depth == 0)
            && (r.Done? && r.found.Chose? ==> r.found.move in G.moves(p))
            && (r.Done? && r.found.NoMove? ==> r.score == if G.blackToMove(p) then NegInf else PosInf)
  {
    if !(G.hasWinner(p) || depth == 0) {
      if G.blackToMove(p) {
        MaxLoopShape(G, p, G.moves(p), G.moves(p), depth, alpha, beta, NegInf, NoMove, fuel);
      } else {
        MinLoopShape(G, p, G.moves(p), G.moves(p), depth, alpha, beta, PosInf, NoMove, fuel);
      }
    }
  }

  /** With at least as many nested calls allowed as the depth, a search of
      non-negative depth never overflows the stack. */
  lemma {:induction false} MinimaxTerminates<P, M>(G: Game<P, M>, p: P, depth: int, alpha: Score, beta: Score, fuel: nat)
    requires 0 <= depth <= fuel
    ensures Minimax(G, p, depth, alpha, beta, fuel).Done?
    decreases fuel, 1
  {
    if !(G.hasWinner(p) || depth == 0) {
      if G.blackToMove(p) {
        MaxLoopTerminates(G, p, G.moves(p), depth, alpha, beta, NegInf, NoMove, fuel);
      } else {
        MinLoopTerminates(G, p, G.moves(p), depth, alpha, beta, PosInf, NoMove, fuel);
      }
    }
  }

  lemma {:induction false} MaxLoopTerminates<P, M>(G: Game<P, M>, p: P, ms: seq<M>, depth: int, alpha: Score, beta: Score,
                                                   best: Score, chosen: Found<P, M>, fuel: nat)
    requires 1 <= depth <= fuel
    ensures MaxLoop(G, p, ms, depth, alpha, beta, best, chosen, fuel).Done?
    decreases fuel, 0, |ms|
  {
    if |ms| > 0 {
      MinimaxTerminates(G, G.apply(p, ms[0]), depth - 1, alpha, beta, fuel - 1);
      var c := Minimax(G, G.apply(p, ms[0]), depth - 1, alpha, beta, fuel - 1).score;
      var best' := if Below(best, c) then c else best;
      var chosen' := if Below(best, c) then Chose(ms[0]) else chosen;
      MaxLoopTerminates(G, p, ms[1..], depth, Max(alpha, c), beta, best', chosen', fuel);
    }
  }

  lemma {:induction false} MinLoopTerminates<P, M>(G: Game<P, M>, p: P, ms: seq<M>, depth: int, alpha: Score, beta: Score,
                                                   best: Score, chosen: Found<P, M>, fuel: nat)
    requires 1 <= depth <= fuel
    ensures MinLoop(G, p, ms, depth, alpha, beta, best, chosen, fuel).Done?
    decreases fuel, 0, |ms|
  {
    if |ms| > 0 {
      MinimaxTerminates(G, G.apply(p, ms[0]), depth - 1, alpha, beta, fuel - 1);
      var c := Minimax(G, G.apply(p, ms[0]), depth - 1, alpha, beta, fuel - 1).score;
      var best' := if Below(c, best) then c else best;
      var chosen' := if Below(c, best) then Chose(ms[0]) else chosen;
      MinLoopTerminates(G, p, ms[1..], depth, alpha, Min(beta, c), best', chosen', fuel);
    }
  }

  /** A negative depth never reaches the `depth == 0` leaf test: in a game
      where no position is decided and every position has a move, the search
      always overflows the stack, however deep the stack. */
  lemma {:induction false} NegativeDepthExhausts<P, M>(G: Game<P, M>, p: P, depth: int, alpha: Score, beta: Score, fuel: nat)
    requires depth < 0
    requires forall q: P :: !G.hasWinner(q) && |G.moves(q)| > 0
    ensures Minimax(G, p, depth, alpha, beta, fuel) == RecursionLimit
    decreases fuel
  {
    if fuel > 0 {
      var m := G.moves(p)[0];
      NegativeDepthExhausts(G, G.apply(p, m), depth - 1, alpha, beta, fuel - 1);
    }
  }

  /** With beta at plus infinity (as every root task starts), a maximising
      node stops after its first move: its score is its first child's. */
  lemma MaximizerStopsAfterFirstChild<P, M>(G: Game<P, M>, p: P, depth: int, alpha: Score, fuel: nat)
    requires !G.hasWinner(p) && depth != 0 && G.blackToMove(p)
    requires |G.moves(p)| > 0 && fuel > 0
    ensures var child := Minimax(G, G.apply(p, G.moves(p)[0]), depth - 1, alpha, PosInf, fuel - 1);
            var r := Minimax(G, p, depth, alpha, PosInf, fuel);
            (r.Done? <==> child.Done?) && (child.Done? ==> r.score == child.score)
  {
  }

  /** Minimax without pruning and without a stack bound, as a reference. */
  function PlainValue<P, M>(G: Game<P, M>, p: P, depth: nat): (r: Score)
    decreases depth, 1
  {
    if G.hasWinner(p) || depth == 0 then G.eval(p)
    else if G.blackToMove(p) then PlainMax(G, p, G.moves(p), depth)
    else PlainMin(G, p, G.moves(p), depth)
  }

  function PlainMax<P, M>(G: Game<P, M>, p: P, ms: seq<M>, depth: nat): (r: Score)
    requires depth > 0
    ensures forall m :: m in ms ==> AtMost(PlainValue(G, G.apply(p, m), depth - 1), r)
    ensures r == NegInf || exists m :: m in ms && r == PlainValue(G, G.apply(p, m), depth - 1)
    decreases depth, 0, |ms|
  {
    if |ms| == 0 then NegInf
    else Max(PlainValue(G, G.apply(p, ms[0]), depth - 1), PlainMax(G, p, ms[1..], depth))
  }

  function PlainMin<P, M>(G: Game<P, M>, p: P, ms: seq<M>, depth: nat): (r: Score)
    requires depth > 0
    ensures forall m :: m in ms ==> AtMost(r, PlainValue(G, G.apply(p, m), depth - 1))
    ensures r == PosInf || exists m :: m in ms && r == PlainValue(G, G.apply(p, m), depth - 1)
    decreases depth, 0, |ms|
  {
    if |ms| == 0 then PosInf
    else Min(PlainValue(G, G.apply(p, ms[0]), depth - 1), PlainMin(G, p, ms[1..], depth))
  }

  lemma {:induction false} MinLoopOverLeaves<P, M>(G: Game<P, M>, p: P, ms: seq<M>, beta: Score,
                                                   best: Score, chosen: Found<P, M>, fuel: nat)
    requires fuel > 0 && Below(NegInf, beta)
    ensures var r := MinLoop(G, p, ms, 1, NegInf, beta, best, chosen, fuel);
            r.Done? && r.score == Min(best, PlainMin(G, p, ms, 1))
    decreases |ms|
  {
    if |ms| > 0 {
      var c := G.eval(G.apply(p, ms[0]));
      assert Minimax(G, G.apply(p, ms[0]), 0, NegInf, beta, fuel - 1) == Done(c, AtLeaf(G.apply(p, ms[0])));
      assert PlainValue(G, G.apply(p, ms[0]), 0) == c;
      var best' := if Below(c, best) then c else best;
      var chosen' := if Below(c, best) then Chose(ms[0]) else chosen;
      if c != NegInf {
        MinLoopOverLeaves(G, p, ms[1..], Min(beta, c), best', chosen', fuel);
        MinAssociative(best, c, PlainMin(G, p, ms[1..], 1));
      }
    }
  }

  /** A minimising node whose children are all leaves, searched with alpha at
      minus infinity and any beta above it, gets the exact minimum: the
      minimiser's cutoff loses nothing there. */
  lemma MinimizerOverLeavesIsExact<P, M>(G: Game<P, M>, p: P, beta: Score, fuel: nat)
    requires !G.hasWinner(p) && !G.blackToMove(p)
    requires fuel > 0 && Below(NegInf, beta)
    ensures var r := Minimax(G, p, 1, NegInf, beta, fuel);
            r.Done? && r.score == PlainValue(G, p, 1)
  {
    MinLoopOverLeaves(G, p, G.moves(p), beta, PosInf, NoMove, fuel);
  }

  /** A two-move game: black to move at 0, the moves lead to positions 1
      and 2, evaluated 0 and 1. */
  function TwoLeafGame(): (G: Game<int, int>)
    ensures G.moves(0) == [1, 2] && G.blackToMove(0) && !G.hasWinner(0)
    ensures G.eval(G.apply(0, 1)) == Fin(0.0) && G.eval(G.apply(0, 2)) == Fin(1.0)
  {
    Game((p: int) => if p == 0 then [1, 2] else [],
         (p: int, m: int) => m,
         (p: int) => false,
         (p: int) => p == 0,
         (p: int) => if p == 2 then Fin(1.0) else Fin(0.0))
  }

  /** Because the maximiser stops once alpha is at most beta, a depth-1 search
      from the root window picks the first move, worth 0, although the
      second is worth 1. */
  lemma MaximizerMissesBetterMove()
    ensures Minimax(TwoLeafGame(), 0, 1, NegInf, PosInf, 1) == Done(Fin(0.0), Chose(1))
    ensures PlainValue(TwoLeafGame(), 0, 1) == Fin(1.0)
  {
    var G := TwoLeafGame();
    assert Minimax(G, 1, 0, NegInf, PosInf, 0) == Done(Fin(0.0), AtLeaf(1));
    assert PlainMax(G, 0, [2], 1) == Fin(1.0) by {
      assert PlainValue(G, 2, 0) == Fin(1.0);
      assert [2][1..] == [];
    }
    assert [1, 2][1..] == [2];
  }
}
