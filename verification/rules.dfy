/** The Shobu position: four 4x4 sub-boards, the start position, board
    adjacency, piece counts and win detection (shobu/board.py). */
module Rules {
  import opened Wrappers
  import opened Geometry

  /** What a square holds. */
  datatype Cell = Empty | Black | White

  /** A player; as in the engine, a player is named by the piece it owns. */
  type Color = c: Cell | c != Empty witness Black

  function Opposite(c: Color): (r: Color)
    ensures r != c
  {
    if c == Black then White else Black
  }

  lemma OppositeInvolution(c: Color)
    ensures Opposite(Opposite(c)) == c
  {
  }

  /** One 4x4 sub-board, indexed `[x][y]`. */
  type Grid = g: seq<seq<Cell>> | |g| == 4 && forall x :: 0 <= x < 4 ==> |g[x]| == 4
    witness [[Empty, Empty, Empty, Empty], [Empty, Empty, Empty, Empty],
             [Empty, Empty, Empty, Empty], [Empty, Empty, Empty, Empty]]

  function Get(g: Grid, p: Cord): Cell
    requires p.Valid()
  {
    g[p.x][p.y]
  }

  /** `g` with square `p` set to `v`. */
  function Put(g: Grid, p: Cord, v: Cell): (r: Grid)
    requires p.Valid()
    ensures Get(r, p) == v
    ensures forall q: Cord :: q.Valid() && q != p ==> Get(r, q) == Get(g, q)
  {
    g[p.x := g[p.x][p.y := v]]
  }

  lemma GridExtensional(g: Grid, h: Grid)
    requires forall q: Cord :: q.Valid() ==> Get(g, q) == Get(h, q)
    ensures g == h
  {
    forall x | 0 <= x < 4
      ensures g[x] == h[x]
    {
      forall y | 0 <= y < 4
        ensures g[x][y] == h[x][y]
      {
        assert Get(g, Cord(x, y)) == Get(h, Cord(x, y));
      }
    }
  }

  /** The whole position, one grid per sub-board. */
  datatype Board = Board(blackLeft: Grid, blackRight: Grid, whiteLeft: Grid, whiteRight: Grid) {

    function Sub(id: SubBoard): Grid
    {
      match id
      case BlackLeft => blackLeft
      case BlackRight => blackRight
      case WhiteLeft => whiteLeft
      case WhiteRight => whiteRight
    }

    /** This position with sub-board `id` replaced by `g`. */
    function With(id: SubBoard, g: Grid): (r: Board)
      ensures r.Sub(id) == g
      ensures forall other :: other != id ==> r.Sub(other) == Sub(other)
    {
      match id
      case BlackLeft => this.(blackLeft := g)
      case BlackRight => this.(blackRight := g)
      case WhiteLeft => this.(whiteLeft := g)
      case WhiteRight => this.(whiteRight := g)
    }
  }

  /** The engine's fixed iteration order over sub-boards. */
  const SubBoards: seq<SubBoard> := [BlackLeft, BlackRight, WhiteLeft, WhiteRight]

  lemma SubBoardsComplete(id: SubBoard)
    ensures id in SubBoards
  {
  }

  /** Each column `x` of a fresh sub-board: black at `y = 0`, white at `y = 3`. */
  const StartColumn: seq<Cell> := [Black, Empty, Empty, White]

  const StartGrid: Grid := [StartColumn, StartColumn, StartColumn, StartColumn]

  /** The start position. */
  function Reset(): (b: Board)
    ensures forall id: SubBoard, p: Cord :: p.Valid() ==>
              && (Get(b.Sub(id), p) == Black <==> p.y == 0)
              && (Get(b.Sub(id), p) == White <==> p.y == 3)
              && (Get(b.Sub(id), p) == Empty <==> p.y == 1 || p.y == 2)
  {
    Board(StartGrid, StartGrid, StartGrid, StartGrid)
  }

  /** The two sub-boards an aggressive move may use after a passive move on
      `id`: the same colour's other side, and the other colour's same side. */
  function Adjacent(id: SubBoard): (r: (SubBoard, SubBoard))
    ensures r.0.IsBlack() == id.IsBlack() && r.0.IsLeft() != id.IsLeft()
    ensures r.1.IsBlack() != id.IsBlack() && r.1.IsLeft() == id.IsLeft()
  {
    var isBlack := id.IsBlack();
    var isLeft := id.IsLeft();
    (Named(isBlack, !isLeft), Named(!isBlack, isLeft))
  }

  lemma AdjacentProperties(id: SubBoard)
    ensures Adjacent(id).0 != id && Adjacent(id).1 != id && Adjacent(id).0 != Adjacent(id).1
    ensures Adjacent(Adjacent(id).0).0 == id
    ensures Adjacent(Adjacent(id).1).1 == id
  {
  }

  /** The two sub-boards owned by player `c`, left first. */
  function OwnBoards(c: Color): (r: seq<SubBoard>)
    ensures |r| == 2 && r[0] != r[1]
    ensures forall id :: id in r <==> id.IsBlack() == (c == Black)
  {
    [Named(c == Black, true), Named(c == Black, false)]
  }

  /** Whether some square of `g` holds `c`. */
  predicate Has(g: Grid, c: Cell)
  {
    exists x, y :: 0 <= x < 4 && 0 <= y < 4 && g[x][y] == c
  }

  /** A sub-board that lacks one colour decides the game. */
  predicate Decided(g: Grid)
  {
    !Has(g, Black) || !Has(g, White)
  }

  /** The winner the scan of `ids` (in order) reports: the first sub-board
      without black makes white the winner, else the first one without white
      makes black the winner. */
  function WinnerIn(b: Board, ids: seq<SubBoard>): Option<Color>
  {
    if |ids| == 0 then None
    else if !Has(b.Sub(ids[0]), Black) then Some(White)
    else if !Has(b.Sub(ids[0]), White) then Some(Black)
    else WinnerIn(b, ids[1..])
  }

  function Winner(b: Board): Option<Color>
  {
    WinnerIn(b, SubBoards)
  }

  /** The winner is decided by the first decided sub-board in iteration order. */
  lemma {:induction false} WinnerIsFirstDecided(b: Board, ids: seq<SubBoard>)
    ensures WinnerIn(b, ids).Some? <==> exists i :: 0 <= i < |ids| && Decided(b.Sub(ids[i]))
    ensures WinnerIn(b, ids).Some? ==>
              exists i :: 0 <= i < |ids| && Decided(b.Sub(ids[i]))
                && (forall j :: 0 <= j < i ==> !Decided(b.Sub(ids[j])))
                && WinnerIn(b, ids).value == (if Has(b.Sub(ids[i]), Black) then Black else White)
  {
    if |ids| > 0 {
      WinnerIsFirstDecided(b, ids[1..]);
      if !Decided(b.Sub(ids[0])) {
        if WinnerIn(b, ids).Some? {
          var i :| 0 <= i < |ids[1..]| && Decided(b.Sub(ids[1..][i]))
                && (forall j :: 0 <= j < i ==> !Decided(b.Sub(ids[1..][j])))
                && WinnerIn(b, ids[1..]).value == (if Has(b.Sub(ids[1..][i]), Black) then Black else White);
          assert forall j :: 0 <= j < i + 1 ==> !Decided(b.Sub(ids[j])) by {
            forall j | 0 <= j < i + 1 ensures !Decided(b.Sub(ids[j])) {
              if j > 0 { assert ids[j] == ids[1..][j - 1]; }
            }
          }
          assert ids[i + 1] == ids[1..][i];
        }
        forall i | 0 <= i < |ids| && Decided(b.Sub(ids[i]))
          ensures exists k :: 0 <= k < |ids[1..]| && Decided(b.Sub(ids[1..][k]))
        {
          assert ids[1..][i - 1] == ids[i];
        }
      }
    }
  }

  /** The inner two loops of `is_winner`: which colours appear on `g`. */
  method Scan(g: Grid) returns (blackFound: bool, whiteFound: bool)
    ensures blackFound == Has(g, Black) && whiteFound == Has(g, White)
  {
    blackFound, whiteFound := false, false;
    var x := 0;
    while x < 4
      invariant 0 <= x <= 4
      invariant blackFound <==> exists i, j :: 0 <= i < x && 0 <= j < 4 && g[i][j] == Black
      invariant whiteFound <==> exists i, j :: 0 <= i < x && 0 <= j < 4 && g[i][j] == White
    {
      var y := 0;
      while y < 4
        invariant 0 <= y <= 4
        invariant blackFound <==> (exists i, j :: 0 <= i < x && 0 <= j < 4 && g[i][j] == Black)
                                   || (exists j :: 0 <= j < y && g[x][j] == Black)
        invariant whiteFound <==> (exists i, j :: 0 <= i < x && 0 <= j < 4 && g[i][j] == White)
                                   || (exists j :: 0 <= j < y && g[x][j] == White)
      {
        if g[x][y] == Black {
          blackFound := true;
        } else if g[x][y] == White {
          whiteFound := true;
        }
        y := y + 1;
      }
      x := x + 1;
    }
  }

  /** `is_winner`: scans the sub-boards in order with the engine's nested
      loops and reports whether the game is over and who won. */
  method IsWinner(b: Board) returns (won: bool, winner: Option<Color>)
    ensures won <==> exists i :: 0 <= i < 4 && Decided(b.Sub(SubBoards[i]))
    ensures won ==> winner.Some? && winner == Winner(b)
    ensures !won ==> winner == None
  {
    winner := None;
    var k := 0;
    while k < 4
      invariant 0 <= k <= 4
      invariant forall j :: 0 <= j < k ==> !Decided(b.Sub(SubBoards[j]))
      invariant Winner(b) == WinnerIn(b, SubBoards[k..])
      invariant winner == None
    {
      var g := b.Sub(SubBoards[k]);
      var blackFound, whiteFound := Scan(g);
      if !blackFound {
        won, winner := true, Some(White);
        return;
      } else if !whiteFound {
        won, winner := true, Some(Black);
        return;
      } else {
        winner := None;
      }
      assert SubBoards[k..][1..] == SubBoards[k + 1..];
      k := k + 1;
    }
    won := false;
  }

  /** The number of squares of `row` holding `c`. */
  function CountRow(row: seq<Cell>, c: Cell): nat
  {
    if |row| == 0 then 0 else (if row[0] == c then 1 else 0) + CountRow(row[1..], c)
  }

  /** The number of squares of `g` holding `c` (`np.sum(sub_board == c)`). */
  function Count(g: Grid, c: Cell): nat
  {
    CountRow(g[0], c) + CountRow(g[1], c) + CountRow(g[2], c) + CountRow(g[3], c)
  }

  lemma {:induction false} CountRowPositive(row: seq<Cell>, c: Cell)
    ensures CountRow(row, c) > 0 <==> exists j :: 0 <= j < |row| && row[j] == c
  {
    if |row| > 0 {
      CountRowPositive(row[1..], c);
      if row[0] != c {
        forall j | 0 <= j < |row| && row[j] == c
          ensures exists k :: 0 <= k < |row[1..]| && row[1..][k] == c
        {
          assert row[1..][j - 1] == row[j];
        }
      }
    }
  }

  /** A colour is missing from a sub-board exactly when its count is zero. */
  lemma CountZeroIffAbsent(g: Grid, c: Cell)
    ensures Count(g, c) == 0 <==> !Has(g, c)
  {
    CountRowPositive(g[0], c);
    CountRowPositive(g[1], c);
    CountRowPositive(g[2], c);
    CountRowPositive(g[3], c);
    if Has(g, c) {
      var x, y :| 0 <= x < 4 && 0 <= y < 4 && g[x][y] == c;
      assert x == 0 || x == 1 || x == 2 || x == 3;
    }
  }

  /** The start position holds four pieces of each colour per sub-board, so
      nobody has won. */
  lemma ResetCounts(id: SubBoard)
    ensures Count(Reset().Sub(id), Black) == 4 && Count(Reset().Sub(id), White) == 4
    ensures Winner(Reset()) == None
  {
    assert CountRow(StartColumn, Black) == 1 by {
      assert StartColumn[1..] == [Empty, Empty, White];
      assert StartColumn[1..][1..] == [Empty, White];
      assert StartColumn[1..][1..][1..] == [White];
    }
    assert CountRow(StartColumn, White) == 1 by {
      assert StartColumn[1..] == [Empty, Empty, White];
      assert StartColumn[1..][1..] == [Empty, White];
      assert StartColumn[1..][1..][1..] == [White];
    }
    assert !Decided(StartGrid) by {
      assert StartGrid[0][0] == Black && StartGrid[0][3] == White;
    }
    assert SubBoards[1..][1..][1..][1..] == [];
  }

  /** Every piece with its colour exchanged. */
  function SwapCell(v: Cell): Cell
  {
    match v
    case Empty => Empty
    case Black => White
    case White => Black
  }

  function SwapGrid(g: Grid): (r: Grid)
    ensures forall p: Cord :: p.Valid() ==> Get(r, p) == SwapCell(Get(g, p))
  {
    seq(4, x requires 0 <= x < 4 => seq(4, y requires 0 <= y < 4 => SwapCell(g[x][y])))
  }

  function SwapColours(b: Board): (r: Board)
    ensures forall id :: r.Sub(id) == SwapGrid(b.Sub(id))
  {
    Board(SwapGrid(b.blackLeft), SwapGrid(b.blackRight), SwapGrid(b.whiteLeft), SwapGrid(b.whiteRight))
  }

  lemma {:induction false} CountRowSwap(row: seq<Cell>, c: Color)
    ensures CountRow(seq(|row|, j requires 0 <= j < |row| => SwapCell(row[j])), Opposite(c)) == CountRow(row, c)
  {
    var s := seq(|row|, j requires 0 <= j < |row| => SwapCell(row[j]));
    if |row| > 0 {
      CountRowSwap(row[1..], c);
      assert s[1..] == seq(|row[1..]|, j requires 0 <= j < |row[1..]| => SwapCell(row[1..][j]));
    }
  }

  lemma CountSwap(g: Grid, c: Color)
    ensures Count(SwapGrid(g), Opposite(c)) == Count(g, c)
  {
    var r := SwapGrid(g);
    forall x | 0 <= x < 4
      ensures CountRow(r[x], Opposite(c)) == CountRow(g[x], c)
    {
      assert r[x] == seq(|g[x]|, j requires 0 <= j < |g[x]| => SwapCell(g[x][j]));
      CountRowSwap(g[x], c);
    }
  }

  lemma HasSwap(g: Grid, c: Color)
    ensures Has(SwapGrid(g), Opposite(c)) == Has(g, c)
  {
    CountSwap(g, c);
    CountZeroIffAbsent(g, c);
    CountZeroIffAbsent(SwapGrid(g), Opposite(c));
  }

  lemma {:induction false} CountRowUpdate(row: seq<Cell>, j: nat, v: Cell, c: Cell)
    requires j < |row|
    ensures CountRow(row[j := v], c) + (if row[j] == c then 1 else 0) == CountRow(row, c) + (if v == c then 1 else 0)
  {
    if j > 0 {
      CountRowUpdate(row[1..], j - 1, v, c);
      assert row[j := v][1..] == row[1..][j - 1 := v];
    } else {
      assert row[j := v][1..] == row[1..];
    }
  }

  /** Setting one square changes each colour's count by what left and what arrived. */
  lemma CountPut(g: Grid, p: Cord, v: Cell, c: Cell)
    requires p.Valid()
    ensures Count(Put(g, p, v), c) + (if Get(g, p) == c then 1 else 0) == Count(g, c) + (if v == c then 1 else 0)
  {
    CountRowUpdate(g[p.x], p.y, v, c);
    var r := Put(g, p, v);
    assert forall x :: 0 <= x < 4 && x != p.x ==> r[x] == g[x];
  }
}
