/** The game component's state machine: the initial state, a click on a
    square, and a restart, together with the invariant every reachable
    state keeps. */
module Game {
  import opened Grid
  import opened Status

  /** The component's game state: the squares, whose turn it is, and the
      stored outcome (`None` while the game goes on). */
  datatype GameState = GameState(board: Board, xIsNext: bool, status: Option<Outcome>)

  /** The player whose mark the next accepted click writes. */
  function Mover(s: GameState): Player {
    if s.xIsNext then X else O
  }

  /** A click on `idx` is accepted: the game is undecided and the square is free. */
  predicate Accepts(s: GameState, idx: Index) {
    s.status.None? && s.board[idx] == Empty
  }

  /** The state the component starts in, and the one restart returns to. */
  function Initial(): (s: GameState)
    ensures forall i :: 0 <= i < 9 ==> s.board[i] == Empty
    ensures Mover(s) == X
    ensures s.status == ComputeGameStatus(s.board)
  {
    EmptyBoardIsOngoing();
    GameState(EmptyBoard, true, None)
  }

  /** A click on square `idx`: ignored once the game is decided or when the
      square is taken; otherwise the mover's mark goes into that square
      alone, the turn passes, and the status is re-evaluated. */
  function HandleClick(s: GameState, idx: Index): (r: GameState)
    ensures !Accepts(s, idx) ==> r == s
    ensures Accepts(s, idx) ==>
              && r.board[idx] == Mark(Mover(s))
              && (forall i :: 0 <= i < 9 && i != idx ==> r.board[i] == s.board[i])
              && Mover(r) == Mover(s).Other()
              && r.status == ComputeGameStatus(r.board)
    ensures forall i :: 0 <= i < 9 && s.board[i] != Empty ==> r.board[i] == s.board[i]
  {
    if s.status.Some? || s.board[idx] != Empty then s
    else
      var next := s.board[idx := Mark(Mover(s))];
      GameState(next, !s.xIsNext, ComputeGameStatus(next))
  }

  /** Restart: back to the initial state, whatever came before. */
  function HandleRestart(s: GameState): (r: GameState)
    ensures r == Initial()
  {
    GameState(EmptyBoard, true, None)
  }

  /** Every complete line carries the mark of the player who moved last. */
  ghost predicate OnlyLastMoverCompletes(s: GameState) {
    forall k :: 0 <= k < |WinLines| && Complete(s.board, WinLines[k]) ==>
      s.board[WinLines[k].first] == Mark(Mover(s).Other())
  }

  /** X has as many marks as O or one more, and it is X's turn exactly when
      the counts are equal. */
  ghost predicate Alternates(s: GameState) {
    var nx := Count(s.board, Mark(X));
    var no := Count(s.board, Mark(O));
    && (nx == no || nx == no + 1)
    && (s.xIsNext <==> nx == no)
  }

  /** The invariant of reachable states: the marks alternate, the stored
      status is the evaluator's verdict on the board, and only the player
      who moved last can have a complete line. */
  ghost predicate Inv(s: GameState) {
    && Alternates(s)
    && s.status == ComputeGameStatus(s.board)
    && OnlyLastMoverCompletes(s)
  }

  lemma InitialSatisfiesInv()
    ensures Inv(Initial())
  {
  }

  lemma RestartSatisfiesInv(s: GameState)
    ensures Inv(HandleRestart(s))
  {
  }

  /** An accepted click adds one mark for the mover and none for the other
      player. */
  lemma ClickCountsOneMark(s: GameState, idx: Index)
    requires Accepts(s, idx)
    ensures Count(HandleClick(s, idx).board, Mark(Mover(s)))
            == Count(s.board, Mark(Mover(s))) + 1
    ensures Count(HandleClick(s, idx).board, Mark(Mover(s).Other()))
            == Count(s.board, Mark(Mover(s).Other()))
  {
    var p := Mover(s);
    assert HandleClick(s, idx).board == s.board[idx := Mark(p)];
    CountUpdate(s.board, idx, Mark(p), Mark(p));
    CountUpdate(s.board, idx, Mark(p), Mark(p.Other()));
  }

  /** On a board without a complete line, an accepted click can complete
      only lines through the clicked square, all of them the mover's. */
  lemma ClickCompletesOnlyMoversLines(s: GameState, idx: Index)
    requires Accepts(s, idx)
    requires NoneComplete(s.board)
    ensures forall k :: 0 <= k < |WinLines| && Complete(HandleClick(s, idx).board, WinLines[k]) ==>
              idx == WinLines[k].first || idx == WinLines[k].second || idx == WinLines[k].third
    ensures OnlyLastMoverCompletes(HandleClick(s, idx))
  {
  }

  /** A click keeps the invariant: a rejected one changes nothing, an
      accepted one is made on an undecided board, so no line was complete
      before it. */
  lemma ClickPreservesInv(s: GameState, idx: Index)
    requires Inv(s)
    ensures Inv(HandleClick(s, idx))
  {
    if Accepts(s, idx) {
      ClickCountsOneMark(s, idx);
      ClickCompletesOnlyMoversLines(s, idx);
    }
  }

  /** A user action: a click on a square, or the restart button. */
  datatype Action = Click(idx: Index) | Restart

  function Step(s: GameState, a: Action): GameState {
    match a
    case Click(idx) => HandleClick(s, idx)
    case Restart => HandleRestart(s)
  }

  /** The state after performing `acts` in order from `s`. */
  function Run(s: GameState, acts: seq<Action>): GameState
    decreases |acts|
  {
    if |acts| == 0 then s else Run(Step(s, acts[0]), acts[1..])
  }

  lemma {:induction false} RunPreservesInv(s: GameState, acts: seq<Action>)
    requires Inv(s)
    ensures Inv(Run(s, acts))
    decreases |acts|
  {
    if |acts| > 0 {
      match acts[0] {
        case Click(idx) => ClickPreservesInv(s, idx);
        case Restart => RestartSatisfiesInv(s);
      }
      RunPreservesInv(Step(s, acts[0]), acts[1..]);
    }
  }

  /** Every state reachable from the initial one keeps the invariant. */
  lemma ReachableInv(acts: seq<Action>)
    ensures Inv(Run(Initial(), acts))
  {
    InitialSatisfiesInv();
    RunPreservesInv(Initial(), acts);
  }

  /** In a reachable state a win belongs to the player who moved last, and
      every complete line on the board is that player's. */
  lemma WinnerIsLastMover(s: GameState, p: Player, l: Line)
    requires Inv(s)
    requires s.status == Some(Win(p, l))
    ensures p == Mover(s).Other()
    ensures forall k :: 0 <= k < |WinLines| && Complete(s.board, WinLines[k]) ==>
              s.board[WinLines[k].first] == Mark(p)
  {
  }

  /** Turns alternate: it is X's turn exactly when an even number of marks
      has been placed since the last (re)start. Every reachable state
      satisfies `Alternates`, as part of `Inv`. */
  lemma TurnParity(s: GameState)
    requires Alternates(s)
    ensures Mover(s) == X <==> (Count(s.board, Mark(X)) + Count(s.board, Mark(O))) % 2 == 0
  {
  }

  /** Once the game is decided, clicks change nothing until a restart. */
  lemma {:induction false} DecidedIsFinal(s: GameState, acts: seq<Action>)
    requires s.status.Some?
    requires forall i :: 0 <= i < |acts| ==> acts[i].Click?
    ensures Run(s, acts) == s
    decreases |acts|
  {
    if |acts| > 0 {
      DecidedIsFinal(Step(s, acts[0]), acts[1..]);
    }
  }
}
