/** The status evaluator: decides from a board alone whether the game is
    won (and by whom, along which line), drawn, or still going on. */
module Status {
  import opened Grid

  datatype Option<+T> = None | Some(value: T)

  /** A decided game. `None` of an `Option<Outcome>` is a game still going on. */
  datatype Outcome = Win(winner: Player, line: Line) | Draw

  /** Entry `k` of the table is the first complete line on `b`. */
  ghost predicate FirstComplete(b: Board, k: int) {
    && 0 <= k < |WinLines|
    && Complete(b, WinLines[k])
    && forall j :: 0 <= j < k ==> !Complete(b, WinLines[j])
  }

  /** No line of the table is complete on `b`. */
  ghost predicate NoneComplete(b: Board) {
    forall k :: 0 <= k < |WinLines| ==> !Complete(b, WinLines[k])
  }

  /** What the status of `b` means, independently of how it is computed:
      the first complete line in table order decides the winner; without
      one, a full board is a draw and any other board is still in play. */
  ghost predicate Describes(b: Board, r: Option<Outcome>) {
    match r
    case None => NoneComplete(b) && !Full(b)
    case Some(Draw) => NoneComplete(b) && Full(b)
    case Some(Win(p, l)) =>
      exists k :: FirstComplete(b, k) && l == WinLines[k] && b[l.first] == Mark(p)
  }

  /** The table scan from entry `k` on: the position of the first complete
      line at or after `k`, if there is one. */
  function FirstCompleteFrom(b: Board, k: nat): (r: Option<nat>)
    requires k <= |WinLines|
    ensures r.Some? ==>
              && k <= r.value < |WinLines|
              && Complete(b, WinLines[r.value])
              && forall j :: k <= j < r.value ==> !Complete(b, WinLines[j])
    ensures r.None? <==> forall j :: k <= j < |WinLines| ==> !Complete(b, WinLines[j])
    decreases |WinLines| - k
  {
    if k == |WinLines| then None
    else if Complete(b, WinLines[k]) then Some(k)
    else FirstCompleteFrom(b, k + 1)
  }

  /** The status of a board: a win along the first complete line, else a
      draw on a full board, else `None` (the game goes on). */
  function ComputeGameStatus(b: Board): (r: Option<Outcome>)
    ensures Describes(b, r)
  {
    match FirstCompleteFrom(b, 0)
    case Some(k) => Some(Win(b[WinLines[k].first].player, WinLines[k]))
    case None => if Full(b) then Some(Draw) else None
  }

  /** The evaluator's result is the one and only status that `Describes`
      the board. */
  lemma DescribesUnique(b: Board, r: Option<Outcome>)
    ensures Describes(b, r) <==> r == ComputeGameStatus(b)
  {
  }

  /** The empty starting board is still in play. */
  lemma EmptyBoardIsOngoing()
    ensures ComputeGameStatus(EmptyBoard) == None
  {
  }

  /** Three X marks across the top row win along the first row. */
  lemma TopRowWins()
    ensures ComputeGameStatus([Mark(X), Mark(X), Mark(X), Empty, Empty, Empty, Empty, Empty, Empty])
            == Some(Win(X, Line(0, 1, 2)))
  {
  }

  /** A full board on which no line is complete is a draw. */
  lemma FullBoardDraws()
    ensures ComputeGameStatus([Mark(X), Mark(O), Mark(X), Mark(O), Mark(X), Mark(O), Mark(O), Mark(X), Mark(O)])
            == Some(Draw)
  {
  }
}
