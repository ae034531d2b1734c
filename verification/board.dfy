/** The 3x3 Tic Tac Toe board: players, cells, the fixed table of winning
    lines, and counting the marks on a board. */
module Grid {

  /** The two players; "X" always moves first. */
  datatype Player = X | O {
    /** The player who moves after this one. */
    function Other(): Player {
      if this == X then O else X
    }
  }

  /** A square is empty (null in the component) or carries a player's mark. */
  datatype Cell = Empty | Mark(player: Player)

  /** A square's position, row * 3 + col for row and col in 0..2. */
  type Index = i: nat | i < 9

  /** The nine squares in row-major order. */
  type Board = b: seq<Cell> | |b| == 9 witness [Empty, Empty, Empty, Empty, Empty, Empty, Empty, Empty, Empty]

  const EmptyBoard: Board := [Empty, Empty, Empty, Empty, Empty, Empty, Empty, Empty, Empty]

  /** An index triple that ends the game when its three squares agree. */
  datatype Line = Line(first: Index, second: Index, third: Index)

  /** The win-line table, scanned in this order: rows, columns, diagonals. */
  const WinLines: seq<Line> := [
    Line(0, 1, 2), Line(3, 4, 5), Line(6, 7, 8),
    Line(0, 3, 6), Line(1, 4, 7), Line(2, 5, 8),
    Line(0, 4, 8), Line(2, 4, 6)
  ]

  /** The three squares of `l` are marked, all by the same player. */
  predicate Complete(b: Board, l: Line) {
    b[l.first] != Empty && b[l.first] == b[l.second] && b[l.first] == b[l.third]
  }

  /** Every square holds a mark: no square is `Empty`. */
  predicate Full(b: Board) {
    forall i :: 0 <= i < |b| ==> b[i] != Empty
  }

  /** The number of squares of `s` that hold `c`. */
  function Count(s: seq<Cell>, c: Cell): (n: nat)
    ensures n <= |s|
    ensures n == 0 <==> forall i :: 0 <= i < |s| ==> s[i] != c
  {
    if |s| == 0 then 0 else (if s[0] == c then 1 else 0) + Count(s[1..], c)
  }

  /** Writing `v` at position `i` moves at most one square into or out of
      the count of `c`. */
  lemma {:induction false} CountUpdate(s: seq<Cell>, i: nat, v: Cell, c: Cell)
    requires i < |s|
    ensures Count(s[i := v], c)
            == Count(s, c) - (if s[i] == c then 1 else 0) + (if v == c then 1 else 0)
    decreases |s|
  {
    if i == 0 {
      assert s[i := v][1..] == s[1..];
    } else {
      assert s[i := v][1..] == s[1..][i - 1 := v];
      CountUpdate(s[1..], i - 1, v, c);
    }
  }
}
