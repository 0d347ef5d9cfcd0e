/** The root of the search (`Engine.get_best_move`): the legal moves are
    sorted by the evaluation of the position they lead to, one search task
    per move is run on a thread pool, and the results are folded in the
    order the tasks complete. That order is a parameter: any permutation of
    the submitted moves. */
module Root {
  import opened Wrappers
  import opened Scores
  import opened Search

  lemma BetterIsStrictTotalOrder(maximizing: bool, a: Score, b: Score, c: Score)
    ensures !Better(maximizing, a, a)
    ensures Better(maximizing, a, b) && Better(maximizing, b, c) ==> Better(maximizing, a, c)
    ensures a == b || Better(maximizing, a, b) || Better(maximizing, b, a)
  {
    BelowIsStrictTotalOrder(a, b, c);
    BelowIsStrictTotalOrder(c, b, a);
  }

  /** `ms` is ordered by `key`, best first for the side that sorts
      descending (`reverse=True` for black). */
  ghost predicate SortedBy<M>(ms: seq<M>, key: M -> Score, descending: bool)
  {
    forall i, j :: 0 <= i < j < |ms| ==> !Better(descending, key(ms[j]), key(ms[i]))
  }

  /** Puts `m` before the first element it is not strictly behind; equal keys
      keep `m` in front, as a stable sort keeps the earlier element first. */
  function Insert<M(==)>(m: M, sorted: seq<M>, key: M -> Score, descending: bool): (r: seq<M>)
    ensures multiset(r) == multiset(sorted) + multiset{m}
  {
    if |sorted| == 0 then [m]
    else if Better(descending, key(sorted[0]), key(m)) then
      assert sorted == [sorted[0]] + sorted[1..];
      [sorted[0]] + Insert(m, sorted[1..], key, descending)
    else [m] + sorted
  }

  lemma {:induction false} InsertSorted<M>(m: M, sorted: seq<M>, key: M -> Score, descending: bool)
    requires SortedBy(sorted, key, descending)
    ensures SortedBy(Insert(m, sorted, key, descending), key, descending)
  {
    if |sorted| > 0 {
      if Better(descending, key(sorted[0]), key(m)) {
        InsertSorted(m, sorted[1..], key, descending);
        InsertBehindHead(m, sorted, key, descending);
      } else {
        InsertAtFront(m, sorted, key, descending);
      }
    }
  }

  lemma InsertBehindHead<M>(m: M, sorted: seq<M>, key: M -> Score, descending: bool)
    requires |sorted| > 0 && Better(descending, key(sorted[0]), key(m))
    requires SortedBy(sorted, key, descending)
    requires SortedBy(Insert(m, sorted[1..], key, descending), key, descending)
    ensures SortedBy([sorted[0]] + Insert(m, sorted[1..], key, descending), key, descending)
  {
    var rest := Insert(m, sorted[1..], key, descending);
    forall j | 0 <= j < |rest|
      ensures !Better(descending, key(rest[j]), key(sorted[0]))
    {
      assert rest[j] in multiset(rest);
      if rest[j] != m {
        assert rest[j] in multiset(sorted[1..]);
        var k :| 0 <= k < |sorted[1..]| && sorted[1..][k] == rest[j];
        assert sorted[k + 1] == rest[j];
      } else {
        BetterIsStrictTotalOrder(descending, key(m), key(sorted[0]), key(m));
      }
    }
    var r := [sorted[0]] + rest;
    forall i, j | 0 <= i < j < |r|
      ensures !Better(descending, key(r[j]), key(r[i]))
    {
      assert r[j] == rest[j - 1];
      if i > 0 {
        assert r[i] == rest[i - 1];
      }
    }
  }

  lemma InsertAtFront<M>(m: M, sorted: seq<M>, key: M -> Score, descending: bool)
    requires |sorted| > 0 && !Better(descending, key(sorted[0]), key(m))
    requires SortedBy(sorted, key, descending)
    ensures SortedBy([m] + sorted, key, descending)
  {
    var r := [m] + sorted;
    forall i, j | 0 <= i < j < |r|
      ensures !Better(descending, key(r[j]), key(r[i]))
    {
      assert r[j] == sorted[j - 1];
      if i > 0 {
        assert r[i] == sorted[i - 1];
      } else {
        BetterIsStrictTotalOrder(descending, key(sorted[j - 1]), key(sorted[0]), key(m));
        BetterIsStrictTotalOrder(descending, key(sorted[0]), key(m), key(sorted[j - 1]));
      }
    }
  }

  /** `list.sort(key=…, reverse=descending)`: a permutation of `ms` in key
      order. */
  function SortByKey<M(==)>(ms: seq<M>, key: M -> Score, descending: bool): (r: seq<M>)
    ensures multiset(r) == multiset(ms)
    ensures SortedBy(r, key, descending)
  {
    if |ms| == 0 then []
    else
      assert ms == [ms[0]] + ms[1..];
      var rest := SortByKey(ms[1..], key, descending);
      InsertSorted(ms[0], rest, key, descending);
      Insert(ms[0], rest, key, descending)
  }

  /** The fold over completed tasks: a result replaces the current best only
      when strictly better for the side to move. The answer is the best
      score among the results and the initial one, with the first result in
      this order that attains it; the initial pair survives exactly when no
      result is strictly better than it. */
  function Reduce<M>(maximizing: bool, results: seq<(Score, M)>, best: Score, bestMove: Option<M>): (r: (Score, Option<M>))
    ensures !Better(maximizing, best, r.0)
    ensures forall i :: 0 <= i < |results| ==> !Better(maximizing, results[i].0, r.0)
    ensures r == (best, bestMove) <==> forall i :: 0 <= i < |results| ==> !Better(maximizing, results[i].0, best)
    ensures r != (best, bestMove) ==>
              exists i :: 0 <= i < |results| && r == (results[i].0, Some(results[i].1))
                && Better(maximizing, r.0, best)
                && forall j :: 0 <= j < i ==> Better(maximizing, r.0, results[j].0)
  {
    if |results| == 0 then (best, bestMove)
    else
      var (s, m) := results[0];
      var (best', bestMove') := if Better(maximizing, s, best) then (s, Some(m)) else (best, bestMove);
      var r := Reduce(maximizing, results[1..], best', bestMove');
      assert ReduceInvariant(maximizing, results, best, bestMove, r) by {
        ReduceStep(maximizing, results, best, bestMove, r);
      }
      r
  }

  /** The contract of `Reduce`, for one step of its recursion. */
  ghost predicate ReduceInvariant<M>(maximizing: bool, results: seq<(Score, M)>, best: Score, bestMove: Option<M>, r: (Score, Option<M>))
  {
    && !Better(maximizing, best, r.0)
    && (forall i :: 0 <= i < |results| ==> !Better(maximizing, results[i].0, r.0))
    && (r == (best, bestMove) <==> forall i :: 0 <= i < |results| ==> !Better(maximizing, results[i].0, best))
    && (r != (best, bestMove) ==>
          exists i :: 0 <= i < |results| && r == (results[i].0, Some(results[i].1))
            && Better(maximizing, r.0, best)
            && forall j :: 0 <= j < i ==> Better(maximizing, r.0, results[j].0))
  }

  lemma ReduceStep<M>(maximizing: bool, results: seq<(Score, M)>, best: Score, bestMove: Option<M>, r: (Score, Option<M>))
    requires |results| > 0
    requires var (s, m) := results[0];
             var (best', bestMove') := if Better(maximizing, s, best) then (s, Some(m)) else (best, bestMove);
             ReduceInvariant(maximizing, results[1..], best', bestMove', r)
    ensures ReduceInvariant(maximizing, results, best, bestMove, r)
  {
    var (s, m) := results[0];
    var (best', bestMove') := if Better(maximizing, s, best) then (s, Some(m)) else (best, bestMove);
    assert forall i :: 1 <= i < |results| ==> results[i] == results[1..][i - 1];
    BetterIsStrictTotalOrder(maximizing, best, best', r.0);
    BetterIsStrictTotalOrder(maximizing, s, best', r.0);
    BetterIsStrictTotalOrder(maximizing, r.0, best', best);
    BetterIsStrictTotalOrder(maximizing, r.0, best', s);
    BetterIsStrictTotalOrder(maximizing, r.0, s, best);
    if r != (best', bestMove') {
      var i :| 0 <= i < |results[1..]| && r == (results[1..][i].0, Some(results[1..][i].1))
               && Better(maximizing, r.0, best')
               && forall j :: 0 <= j < i ==> Better(maximizing, r.0, results[1..][j].0);
      assert results[i + 1] == results[1..][i];
      assert forall j :: 1 <= j < i + 1 ==> Better(maximizing, r.0, results[j].0);
    }
  }

  /** The best score does not depend on the order of the results, only on
      which results there are. */
  lemma ReduceScoreIndependent<M>(maximizing: bool, r1: seq<(Score, M)>, r2: seq<(Score, M)>, best: Score, m1: Option<M>, m2: Option<M>)
    requires forall x :: x in r1 <==> x in r2
    ensures Reduce(maximizing, r1, best, m1).0 == Reduce(maximizing, r2, best, m2).0
  {
    var a := Reduce(maximizing, r1, best, m1);
    var b := Reduce(maximizing, r2, best, m2);
    if a != (best, m1) {
      var i :| 0 <= i < |r1| && a == (r1[i].0, Some(r1[i].1));
      assert r1[i] in r2;
    }
    if b != (best, m2) {
      var i :| 0 <= i < |r2| && b == (r2[i].0, Some(r2[i].1));
      assert r2[i] in r1;
    }
    BetterIsStrictTotalOrder(maximizing, a.0, b.0, a.0);
  }

  /** Two results with equal scores: the move chosen is whichever completes
      first. */
  lemma ReduceMoveDependsOnOrder()
    ensures Reduce(true, [(Fin(1.0), 1), (Fin(1.0), 2)], NegInf, None) == (Fin(1.0), Some(1))
    ensures Reduce(true, [(Fin(1.0), 2), (Fin(1.0), 1)], NegInf, None) == (Fin(1.0), Some(2))
  {
    assert [(Fin(1.0), 1), (Fin(1.0), 2)][1..] == [(Fin(1.0), 2)];
    assert [(Fin(1.0), 2), (Fin(1.0), 1)][1..] == [(Fin(1.0), 1)];
  }

  /** One root task: the search from the position after `m`, one ply
      shallower, with the full window. */
  function RootTask<P, M>(G: Game<P, M>, p: P, depth: int, fuel: nat, m: M): Outcome<P, M>
  {
    Minimax(G, G.apply(p, m), depth - 1, NegInf, PosInf, fuel)
  }

  /** The legal moves, sorted by the evaluation after each, best first for
      the side to move. */
  function SortedMoves<P, M(==)>(G: Game<P, M>, p: P): (r: seq<M>)
    ensures multiset(r) == multiset(G.moves(p))
    ensures SortedBy(r, (m: M) => G.eval(G.apply(p, m)), G.blackToMove(p))
  {
    SortByKey(G.moves(p), (m: M) => G.eval(G.apply(p, m)), G.blackToMove(p))
  }

  function Initial(maximizing: bool): Score
  {
    if maximizing then NegInf else PosInf
  }

  /** `get_best_move`: `None` models the `RecursionError` a task raises;
      otherwise the selected move and its score. `order` is the order in
      which the tasks complete. */
  function GetBestMove<P, M(==)>(G: Game<P, M>, p: P, depth: int, order: seq<M>, fuel: nat): (r: Option<(Option<M>, Score)>)
    requires multiset(order) == multiset(SortedMoves(G, p))
    ensures r.None? <==> exists m :: m in G.moves(p) && RootTask(G, p, depth, fuel, m).RecursionLimit?
    ensures r.Some? ==> forall m :: m in G.moves(p) ==> !Better(G.blackToMove(p), RootTask(G, p, depth, fuel, m).score, r.value.1)
    ensures r.Some? && r.value.0.None? ==>
              r.value.1 == Initial(G.blackToMove(p))
              && forall m :: m in G.moves(p) ==> !Better(G.blackToMove(p), RootTask(G, p, depth, fuel, m).score, r.value.1)
    ensures r.Some? && r.value.0.Some? ==>
              r.value.0.value in G.moves(p) && RootTask(G, p, depth, fuel, r.value.0.value).score == r.value.1
              && Better(G.blackToMove(p), r.value.1, Initial(G.blackToMove(p)))
  {
    SameElements(order, G.moves(p));
    if exists k :: 0 <= k < |order| && RootTask(G, p, depth, fuel, order[k]).RecursionLimit? then None
    else
      var maximizing := G.blackToMove(p);
      var results := Results(G, p, depth, fuel, order);
      var (score, move) := Reduce(maximizing, results, Initial(maximizing), None);
      Some((move, score))
  }

  lemma SameElements<M>(xs: seq<M>, ys: seq<M>)
    requires multiset(xs) == multiset(ys)
    ensures forall m :: m in xs ==> m in ys
    ensures forall m :: m in ys ==> m in xs
  {
    forall m | m in xs ensures m in ys {
      assert m in multiset(xs);
    }
    forall m | m in ys ensures m in xs {
      assert m in multiset(ys);
    }
  }

  /** Two completion orders of the same tasks give the same results, up to order. */
  lemma ResultsSameElements<P, M>(G: Game<P, M>, p: P, depth: int, fuel: nat, o1: seq<M>, o2: seq<M>)
    requires forall m :: m in o1 ==> m in o2
    requires forall k :: 0 <= k < |o1| ==> RootTask(G, p, depth, fuel, o1[k]).Done?
    requires forall k :: 0 <= k < |o2| ==> RootTask(G, p, depth, fuel, o2[k]).Done?
    ensures forall x :: x in Results(G, p, depth, fuel, o1) ==> x in Results(G, p, depth, fuel, o2)
  {
    var r1 := Results(G, p, depth, fuel, o1);
    var r2 := Results(G, p, depth, fuel, o2);
    forall x | x in r1
      ensures x in r2
    {
      var k :| 0 <= k < |r1| && r1[k] == x;
      assert o1[k] in o1;
      var l :| 0 <= l < |o2| && o2[l] == o1[k];
      assert r2[l] == x;
    }
  }

  /** The completed tasks' (score, move) pairs in completion order. */
  function Results<P, M>(G: Game<P, M>, p: P, depth: int, fuel: nat, order: seq<M>): (r: seq<(Score, M)>)
    requires forall k :: 0 <= k < |order| ==> RootTask(G, p, depth, fuel, order[k]).Done?
    ensures |r| == |order|
    ensures forall k :: 0 <= k < |order| ==> r[k] == (RootTask(G, p, depth, fuel, order[k]).score, order[k])
  {
    seq(|order|, k requires 0 <= k < |order| => (RootTask(G, p, depth, fuel, order[k]).score, order[k]))
  }

  /** Whatever order the tasks complete in, `get_best_move` fails or succeeds
      alike and reports the same score (the move may differ, see
      `ReduceMoveDependsOnOrder`). */
  lemma GetBestMoveScoreIndependent<P, M>(G: Game<P, M>, p: P, depth: int, o1: seq<M>, o2: seq<M>, fuel: nat)
    requires multiset(o1) == multiset(SortedMoves(G, p))
    requires multiset(o2) == multiset(SortedMoves(G, p))
    ensures GetBestMove(G, p, depth, o1, fuel).None? <==> GetBestMove(G, p, depth, o2, fuel).None?
    ensures GetBestMove(G, p, depth, o1, fuel).Some? ==>
              GetBestMove(G, p, depth, o1, fuel).value.1 == GetBestMove(G, p, depth, o2, fuel).value.1
  {
    if GetBestMove(G, p, depth, o1, fuel).Some? {
      SameElements(o1, G.moves(p));
      SameElements(o2, G.moves(p));
      ResultsSameElements(G, p, depth, fuel, o1, o2);
      ResultsSameElements(G, p, depth, fuel, o2, o1);
      var maximizing := G.blackToMove(p);
      ReduceScoreIndependent(maximizing, Results(G, p, depth, fuel, o1), Results(G, p, depth, fuel, o2), Initial(maximizing), None, None);
    }
  }

  /** Allowing at least depth - 1 nested calls, `get_best_move` with a
      positive depth always returns. */
  lemma GetBestMoveReturns<P, M>(G: Game<P, M>, p: P, depth: int, order: seq<M>, fuel: nat)
    requires multiset(order) == multiset(SortedMoves(G, p))
    requires 1 <= depth <= fuel + 1
    ensures GetBestMove(G, p, depth, order, fuel).Some?
  {
    forall m | m in G.moves(p)
      ensures RootTask(G, p, depth, fuel, m).Done?
    {
      MinimaxTerminates(G, G.apply(p, m), depth - 1, NegInf, PosInf, fuel);
    }
  }

  /** `get_best_move` at depth 0 starts every task at depth -1, which never
      reaches the depth-0 leaf: in a game that never ends and where every
      position has a move, it always overflows the stack. */
  lemma GetBestMoveAtDepthZeroFails<P, M>(G: Game<P, M>, p: P, order: seq<M>, fuel: nat)
    requires multiset(order) == multiset(SortedMoves(G, p))
    requires forall q: P :: !G.hasWinner(q) && |G.moves(q)| > 0
    ensures GetBestMove(G, p, 0, order, fuel).None?
  {
    var m := G.moves(p)[0];
    NegativeDepthExhausts(G, G.apply(p, m), -1, NegInf, PosInf, fuel);
    assert RootTask(G, p, 0, fuel, m).RecursionLimit?;
  }
}
