/** The rules of tic-tac-toe: the board, whose turn it is, the legal moves,
    applying a move, the winner, the end of the game and its score. */
module TicTacToe {

  datatype Option<T> = None | Some(value: T)

  /** What applying a move yields: the new board, or the "Invalid action" error. */
  datatype Outcome<T> = Ok(value: T) | InvalidAction

  datatype Mark = X | O

  datatype Cell = Empty | Marked(mark: Mark)

  /** A move (i, j): row i, column j. Any integers, so that off-board moves can be rejected. */
  datatype Action = Action(i: int, j: int)

  /** A 3x3 grid of cells, row by row. */
  type Board = b: seq<seq<Cell>> | |b| == 3 && forall r | 0 <= r < 3 :: |b[r]| == 3
    witness [[Empty, Empty, Empty], [Empty, Empty, Empty], [Empty, Empty, Empty]]

  predicate InBounds(a: Action) {
    0 <= a.i < 3 && 0 <= a.j < 3
  }

  /** A move is legal when it is on the board and its cell is empty. */
  predicate Legal(b: Board, a: Action) {
    InBounds(a) && b[a.i][a.j] == Empty
  }

  /** The place of a move when the board is read row by row. */
  function Index(a: Action): int {
    3 * a.i + a.j
  }

  // ---------------------------------------------------------------- counting marks

  /** How many cells of a row hold c. */
  function RowCount(row: seq<Cell>, c: Cell): (n: nat)
    ensures n <= |row|
  {
    if row == [] then 0
    else RowCount(row[..|row| - 1], c) + (if row[|row| - 1] == c then 1 else 0)
  }

  /** How many cells of the first r rows hold c. */
  function RowsCount(b: Board, c: Cell, r: nat): nat
    requires r <= 3
  {
    if r == 0 then 0 else RowsCount(b, c, r - 1) + RowCount(b[r - 1], c)
  }

  /** How many cells of the board hold c: the sum of the counts of its rows. */
  function Count(b: Board, c: Cell): nat {
    RowsCount(b, c, |b|)
  }

  /** Overwriting one cell of a row moves one unit of count from what was
      there to what is written. */
  lemma {:induction false} RowCountUpdate(row: seq<Cell>, j: nat, x: Cell, c: Cell)
    requires j < |row|
    ensures RowCount(row[j := x], c) + (if row[j] == c then 1 else 0)
         == RowCount(row, c) + (if x == c then 1 else 0)
  {
    var last := |row| - 1;
    if j < last {
      assert row[j := x][..last] == row[..last][j := x];
      RowCountUpdate(row[..last], j, x, c);
    } else {
      assert row[j := x][..last] == row[..last];
    }
  }

  /** The count of a board is the sum of the counts of its three rows. */
  lemma CountByRows(b: Board, c: Cell)
    ensures Count(b, c) == RowCount(b[0], c) + RowCount(b[1], c) + RowCount(b[2], c)
  {
    assert RowsCount(b, c, 1) == RowCount(b[0], c);
    assert RowsCount(b, c, 2) == RowCount(b[0], c) + RowCount(b[1], c);
  }

  /** A row with no marks. */
  lemma {:induction false} EmptyRowCount(row: seq<Cell>, c: Cell)
    requires forall j | 0 <= j < |row| :: row[j] == Empty
    ensures RowCount(row, c) == if c == Empty then |row| else 0
  {
    if row != [] {
      EmptyRowCount(row[..|row| - 1], c);
    }
  }

  /** The boards that legal play from the empty board can produce have as many
      X marks as O marks, or one more. */
  predicate Balanced(b: Board) {
    Count(b, Marked(O)) <= Count(b, Marked(X)) <= Count(b, Marked(O)) + 1
  }

  // ---------------------------------------------------------------- initial_state

  function InitialState(): (b: Board)
    ensures forall i, j | 0 <= i < 3 && 0 <= j < 3 :: b[i][j] == Empty
  {
    seq(3, i => seq(3, j => Empty))
  }

  /** The game starts on a board with no marks, X to move, and every move on
      the board legal, so all nine moves are available. */
  lemma EmptyBoardFacts(b: Board)
    requires forall i, j | 0 <= i < 3 && 0 <= j < 3 :: b[i][j] == Empty
    ensures Count(b, Empty) == 9 && Count(b, Marked(X)) == 0 && Count(b, Marked(O)) == 0
    ensures Player(b) == X
    ensures forall a :: Legal(b, a) <==> InBounds(a)
    ensures |ActionList(b)| == 9
  {
    EmptyBoardLegal(b);
    EmptyBoardCounts(b);
    ActionListIsLegalMoves(b);
  }

  /** On a board with no marks every move on the board is legal. */
  lemma EmptyBoardLegal(b: Board)
    requires forall i, j | 0 <= i < 3 && 0 <= j < 3 :: b[i][j] == Empty
    ensures forall a :: Legal(b, a) <==> InBounds(a)
  {
  }

  /** On a board with no marks all nine cells are empty. */
  lemma EmptyBoardCounts(b: Board)
    requires forall i, j | 0 <= i < 3 && 0 <= j < 3 :: b[i][j] == Empty
    ensures Count(b, Empty) == 9 && Count(b, Marked(X)) == 0 && Count(b, Marked(O)) == 0
  {
    forall i, c | 0 <= i < 3
      ensures RowCount(b[i], c) == if c == Empty then 3 else 0
    {
      EmptyRowCount(b[i], c);
    }
    CountByRows(b, Empty);
    CountByRows(b, Marked(X));
    CountByRows(b, Marked(O));
  }

  // ---------------------------------------------------------------- player

  /** O moves when X has placed more marks than O; otherwise X moves. */
  function Player(b: Board): (p: Mark)
    ensures p == O <==> Count(b, Marked(X)) > Count(b, Marked(O))
    ensures Balanced(b) ==> (p == X <==> Count(b, Marked(X)) == Count(b, Marked(O)))
    ensures Balanced(b) ==> (p == O <==> Count(b, Marked(X)) == Count(b, Marked(O)) + 1)
  {
    if Count(b, Marked(X)) > Count(b, Marked(O)) then O else X
  }

  // ---------------------------------------------------------------- actions

  /** Every move of acts is legal and on a cell whose row-major index is
      below n. */
  ghost predicate MovesSound(b: Board, n: int, acts: seq<Action>) {
    forall p | 0 <= p < |acts| :: Legal(b, acts[p]) && Index(acts[p]) < n
  }

  /** Every legal move on a cell whose row-major index is below n is in acts. */
  ghost predicate MovesComplete(b: Board, n: int, acts: seq<Action>) {
    forall a | Legal(b, a) && Index(a) < n :: a in acts
  }

  /** The moves acts are the legal moves on the cells read before (i, j) in
      row-major order, all of them. */
  ghost predicate MovesInOrder(b: Board, i: int, j: int, acts: seq<Action>) {
    MovesSound(b, 3 * i + j, acts) && MovesComplete(b, 3 * i + j, acts)
  }

  /** Two cells of the board with the same row-major index are the same cell. */
  lemma IndexInjective(a: Action, c: Action)
    requires InBounds(a) && InBounds(c) && Index(a) == Index(c)
    ensures a == c
  {
  }

  /** Reading the legal cell c, whose index is n, extends sound moves. */
  lemma SoundStep(b: Board, n: int, prev: seq<Action>, c: Action)
    requires MovesSound(b, n, prev) && Legal(b, c) && Index(c) == n
    ensures MovesSound(b, n + 1, prev + [c])
  {
    assert forall p | 0 <= p < |prev + [c]| :: p < |prev| || (prev + [c])[p] == c;
  }

  /** Reading the cell c, whose index is n, keeps the moves complete. */
  lemma CompleteStep(b: Board, n: int, prev: seq<Action>, c: Action)
    requires MovesComplete(b, n, prev) && InBounds(c) && Index(c) == n
    ensures MovesComplete(b, n + 1, if b[c.i][c.j] == Empty then prev + [c] else prev)
  {
    var acts := if b[c.i][c.j] == Empty then prev + [c] else prev;
    forall a | Legal(b, a) && Index(a) < n + 1
      ensures a in acts
    {
      if Index(a) == n {
        IndexInjective(a, c);
      }
    }
  }

  /** Moves listed in strictly increasing row-major order. */
  ghost predicate Sorted(acts: seq<Action>) {
    forall p, q | 0 <= p < q < |acts| :: Index(acts[p]) < Index(acts[q])
  }

  /** Reading cell (i, j - 1) extends the moves read before it by that cell
      when it is empty. */
  lemma {:induction false} MovesStep(b: Board, i: int, j: int, prev: seq<Action>)
    requires 0 <= i < 3 && 0 < j <= 3 && MovesInOrder(b, i, j - 1, prev)
    ensures MovesInOrder(b, i, j, if b[i][j - 1] == Empty then prev + [Action(i, j - 1)] else prev)
  {
    var c := Action(i, j - 1);
    if b[i][j - 1] == Empty {
      SoundStep(b, 3 * i + j - 1, prev, c);
    }
    CompleteStep(b, 3 * i + j - 1, prev, c);
  }

  /** The moves are read in row-major order. */
  lemma {:induction false} MovesBeforeSorted(b: Board, i: nat, j: nat)
    requires i <= 3 && j <= 3 && (i == 3 ==> j == 0)
    ensures Sorted(MovesBefore(b, i, j))
    decreases i, j
  {
    if j == 0 {
      if i > 0 {
        MovesBeforeSorted(b, i - 1, |b[i - 1]|);
      }
    } else {
      var prev := MovesBefore(b, i, j - 1);
      MovesBeforeSorted(b, i, j - 1);
      MovesBeforeLegal(b, i, j - 1);
      if b[i][j - 1] == Empty {
        var acts := prev + [Action(i, j - 1)];
        assert forall p | 0 <= p < |acts| :: p < |prev| || acts[p] == Action(i, j - 1);
        assert forall p | 0 <= p < |prev| :: Index(prev[p]) < 3 * i + j - 1;
      }
    }
  }

  /** The end of row i - 1 is the start of row i. */
  lemma NextRow(b: Board, i: int, acts: seq<Action>)
    requires 0 < i <= 3 && MovesInOrder(b, i - 1, |b[i - 1]|, acts)
    ensures MovesInOrder(b, i, 0, acts)
  {
  }

  /** The empty cells among those that come before (i, j) in row-major order
      (all rows above row i, then the first j cells of row i), as moves, in
      that order. */
  function MovesBefore(b: Board, i: nat, j: nat): (acts: seq<Action>)
    requires i <= 3 && j <= 3 && (i == 3 ==> j == 0)
    decreases i, j
  {
    if j == 0 then
      if i == 0 then [] else MovesBefore(b, i - 1, |b[i - 1]|)
    else
      var prev := MovesBefore(b, i, j - 1);
      if b[i][j - 1] == Empty then prev + [Action(i, j - 1)] else prev
  }

  /** The moves read before (i, j) are the legal moves there, all of them. */
  lemma {:induction false} MovesBeforeLegal(b: Board, i: nat, j: nat)
    requires i <= 3 && j <= 3 && (i == 3 ==> j == 0)
    ensures MovesInOrder(b, i, j, MovesBefore(b, i, j))
    decreases i, j
  {
    if j == 0 {
      if i > 0 {
        MovesBeforeLegal(b, i - 1, |b[i - 1]|);
        NextRow(b, i, MovesBefore(b, i - 1, |b[i - 1]|));
      }
    } else {
      MovesBeforeLegal(b, i, j - 1);
      MovesStep(b, i, j, MovesBefore(b, i, j - 1));
    }
  }

  /** There is one move for each empty cell read. */
  lemma {:induction false} MovesBeforeCount(b: Board, i: nat, j: nat)
    requires i <= 3 && j <= 3 && (i == 3 ==> j == 0)
    ensures |MovesBefore(b, i, j)| == RowsCount(b, Empty, i) + (if i < 3 then RowCount(b[i][..j], Empty) else 0)
    decreases i, j
  {
    if j == 0 {
      if i > 0 {
        MovesBeforeCount(b, i - 1, |b[i - 1]|);
        assert b[i - 1][..|b[i - 1]|] == b[i - 1];
      }
    } else {
      MovesBeforeCount(b, i, j - 1);
      assert b[i][..j][..j - 1] == b[i][..j - 1];
    }
  }

  /** Every legal move of b, each once, in row-major order. */
  function ActionList(b: Board): (acts: seq<Action>)
    ensures forall p | 0 <= p < |acts| :: Legal(b, acts[p])
  {
    MovesBeforeLegal(b, |b|, 0);
    MovesBefore(b, |b|, 0)
  }

  /** The list of moves holds exactly the legal moves, one per empty cell. */
  lemma ActionListIsLegalMoves(b: Board)
    ensures forall a :: a in ActionList(b) <==> Legal(b, a)
    ensures |ActionList(b)| == Count(b, Empty)
  {
    MovesBeforeCount(b, |b|, 0);
    MovesBeforeLegal(b, |b|, 0);
  }

  /** The list of moves is in row-major order, so it lists each move once. */
  lemma ActionListSorted(b: Board)
    ensures Sorted(ActionList(b))
    ensures forall p, q | 0 <= p < q < |ActionList(b)| :: ActionList(b)[p] != ActionList(b)[q]
  {
    MovesBeforeSorted(b, |b|, 0);
    var acts := ActionList(b);
    forall p, q | 0 <= p < q < |acts|
      ensures acts[p] != acts[q]
    {
      assert Index(acts[p]) < Index(acts[q]);
    }
  }

  /** The moves are collected by a double loop over rows and columns, which
      reads the cells in row-major order. */
  method Actions(b: Board) returns (acts: seq<Action>)
    ensures acts == ActionList(b)
  {
    acts := [];
    for i := 0 to 3
      invariant acts == MovesBefore(b, i, 0)
    {
      for j := 0 to 3
        invariant acts == MovesBefore(b, i, j)
      {
        if b[i][j] == Empty {
          acts := acts + [Action(i, j)];
        }
      }
    }
  }

  // ---------------------------------------------------------------- result

  /** b with the cell of a replaced by c. */
  function Place(b: Board, a: Action, c: Cell): Board
    requires InBounds(a)
  {
    b[a.i := b[a.i][a.j := c]]
  }

  /** Overwriting one cell of the board moves one unit of count from what was
      there to what is written. */
  lemma {:induction false} PlaceCount(b: Board, a: Action, x: Cell, c: Cell, r: nat)
    requires InBounds(a) && r <= 3
    ensures RowsCount(Place(b, a, x), c, r) + (if a.i < r && b[a.i][a.j] == c then 1 else 0)
         == RowsCount(b, c, r) + (if a.i < r && x == c then 1 else 0)
  {
    if r > 0 {
      PlaceCount(b, a, x, c, r - 1);
      if a.i == r - 1 {
        RowCountUpdate(b[a.i], a.j, x, c);
      }
    }
  }

  /** Marking an empty cell with m takes one from the empty cells, adds one to
      m and leaves the other mark alone. */
  lemma PlaceCounts(b: Board, a: Action, m: Mark)
    requires Legal(b, a)
    ensures Count(Place(b, a, Marked(m)), Empty) == Count(b, Empty) - 1
    ensures Count(Place(b, a, Marked(m)), Marked(m)) == Count(b, Marked(m)) + 1
    ensures forall m' | m' != m :: Count(Place(b, a, Marked(m)), Marked(m')) == Count(b, Marked(m'))
  {
    PlaceCount(b, a, Marked(m), Empty, 3);
    PlaceCount(b, a, Marked(m), Marked(X), 3);
    PlaceCount(b, a, Marked(m), Marked(O), 3);
  }

  /** Applying a move fails exactly when the move is off the board or its cell
      is taken. */
  function Result(b: Board, a: Action): (r: Outcome<Board>)
    ensures r.InvalidAction? <==> !Legal(b, a)
  {
    if a.i < 0 || a.i >= 3 || a.j < 0 || a.j >= 3 || b[a.i][a.j] != Empty then
      InvalidAction
    else
      Ok(Place(b, a, Marked(Player(b))))
  }

  /** A legal move fills its cell with the mark of the player to move and
      leaves every other cell as it was: one empty cell fewer, one more mark
      of the mover, as many of the other mark. */
  lemma ResultPlacesMark(b: Board, a: Action)
    requires Legal(b, a)
    ensures Result(b, a).Ok?
    ensures Result(b, a).value[a.i][a.j] == Marked(Player(b))
    ensures forall i, j | 0 <= i < 3 && 0 <= j < 3 && (i != a.i || j != a.j) ::
              Result(b, a).value[i][j] == b[i][j]
    ensures Count(Result(b, a).value, Empty) == Count(b, Empty) - 1
    ensures Count(Result(b, a).value, Marked(Player(b))) == Count(b, Marked(Player(b))) + 1
    ensures forall m | m != Player(b) :: Count(Result(b, a).value, Marked(m)) == Count(b, Marked(m))
  {
    PlaceCounts(b, a, Player(b));
  }

  /** On a balanced board a legal move keeps the board balanced and hands the
      turn to the other player. */
  lemma PlayerAlternates(b: Board, a: Action)
    requires Balanced(b) && Legal(b, a)
    ensures Result(b, a).Ok?
    ensures Balanced(Result(b, a).value)
    ensures Player(Result(b, a).value) != Player(b)
  {
    ResultPlacesMark(b, a);
    var nb := Result(b, a).value;
    if Player(b) == X {
      assert Count(nb, Marked(X)) == Count(b, Marked(X)) + 1;
      assert Count(nb, Marked(O)) == Count(b, Marked(O));
    } else {
      assert Count(nb, Marked(O)) == Count(b, Marked(O)) + 1;
      assert Count(nb, Marked(X)) == Count(b, Marked(X));
    }
  }

  // ---------------------------------------------------------------- winner

  /** A cell of the board, named by its row and column. */
  type Pos = a: Action | InBounds(a) witness Action(0, 0)

  /** The eight lines: the rows top to bottom, the columns left to right, the
      main diagonal, the anti-diagonal. */
  const Lines: seq<(Pos, Pos, Pos)> :=
    [(Action(0, 0), Action(0, 1), Action(0, 2)),
     (Action(1, 0), Action(1, 1), Action(1, 2)),
     (Action(2, 0), Action(2, 1), Action(2, 2)),
     (Action(0, 0), Action(1, 0), Action(2, 0)),
     (Action(0, 1), Action(1, 1), Action(2, 1)),
     (Action(0, 2), Action(1, 2), Action(2, 2)),
     (Action(0, 0), Action(1, 1), Action(2, 2)),
     (Action(0, 2), Action(1, 1), Action(2, 0))]

  function CellAt(b: Board, p: Pos): Cell {
    b[p.i][p.j]
  }

  /** Three cells holding the same mark. */
  predicate Three(x: Cell, y: Cell, z: Cell) {
    x == y && y == z && x != Empty
  }

  predicate Complete(b: Board, line: (Pos, Pos, Pos)) {
    Three(CellAt(b, line.0), CellAt(b, line.1), CellAt(b, line.2))
  }

  /** The mark of the first complete line from line k on, if there is one. */
  function ScanLines(b: Board, k: nat): Option<Mark>
    requires k <= |Lines|
    decreases |Lines| - k
  {
    if k == |Lines| then None
    else if Complete(b, Lines[k]) then Some(CellAt(b, Lines[k].0).mark)
    else ScanLines(b, k + 1)
  }

  /** The lines are checked in order: the rows, then the columns, then the
      main diagonal and the anti-diagonal; the mark of the first complete one
      wins. */
  function Winner(b: Board): Option<Mark> {
    ScanLines(b, 0)
  }

  /** The scan from line k finds nothing exactly when no line from k on is
      complete, and otherwise finds the mark of the first complete line. */
  lemma {:induction false} ScanLinesFindsFirst(b: Board, k: nat)
    requires k <= |Lines|
    ensures ScanLines(b, k).None? <==> forall q {:trigger Complete(b, Lines[q])} | k <= q < |Lines| ::
                                        !Complete(b, Lines[q])
    ensures ScanLines(b, k).Some? ==> exists q {:trigger Complete(b, Lines[q])} | k <= q < |Lines| ::
              && Complete(b, Lines[q])
              && CellAt(b, Lines[q].0) == Marked(ScanLines(b, k).value)
              && forall q' {:trigger Complete(b, Lines[q'])} | k <= q' < q :: !Complete(b, Lines[q'])
    decreases |Lines| - k
  {
    if k < |Lines| {
      ScanLinesFindsFirst(b, k + 1);
      assert forall q {:trigger Lines[q]} | k <= q < |Lines| :: k < q || Lines[q] == Lines[k];
    }
  }

  /** There is no winner exactly when no line is complete; otherwise the
      winner holds the first complete line of Lines. */
  lemma WinnerIsFirstCompleteLine(b: Board)
    ensures Winner(b).None? <==> forall q {:trigger Complete(b, Lines[q])} | 0 <= q < |Lines| ::
                                   !Complete(b, Lines[q])
    ensures Winner(b).Some? ==> exists q {:trigger Complete(b, Lines[q])} | 0 <= q < |Lines| ::
              && Complete(b, Lines[q])
              && CellAt(b, Lines[q].0) == Marked(Winner(b).value)
              && forall q' {:trigger Complete(b, Lines[q'])} | 0 <= q' < q :: !Complete(b, Lines[q'])
  {
    ScanLinesFindsFirst(b, 0);
  }

  // ---------------------------------------------------------------- terminal, utility

  predicate Full(b: Board) {
    forall i, j | 0 <= i < 3 && 0 <= j < 3 :: b[i][j] != Empty
  }

  /** No move is left exactly when every cell is taken. */
  lemma NoActionsIffFull(b: Board)
    ensures ActionList(b) == [] <==> Full(b)
  {
    ActionListIsLegalMoves(b);
    if !Full(b) {
      var i, j :| 0 <= i < 3 && 0 <= j < 3 && b[i][j] == Empty;
      assert Legal(b, Action(i, j));
      assert Action(i, j) in ActionList(b);
    }
    if ActionList(b) != [] {
      var a := ActionList(b)[0];
      assert Legal(b, a);
      assert b[a.i][a.j] == Empty;
    }
  }

  /** The game is over when someone has won or no move is left. */
  function Terminal(b: Board): bool {
    Winner(b).Some? || ActionList(b) == []
  }

  /** The game is over exactly when someone has won or every cell is taken. */
  lemma TerminalIffWinOrFull(b: Board)
    ensures Terminal(b) <==> Winner(b).Some? || Full(b)
  {
    NoActionsIffFull(b);
  }

  /** The score of a finished game from X's side. */
  function Utility(b: Board): (u: int)
    ensures -1 <= u <= 1
    ensures u == 1 <==> Winner(b) == Some(X)
    ensures u == -1 <==> Winner(b) == Some(O)
    ensures u == 0 <==> Winner(b).None?
  {
    match Winner(b)
    case Some(X) => 1
    case Some(O) => -1
    case None => 0
  }

  /** A full board without a complete line is a finished draw. */
  lemma FullWithoutLineIsDraw(b: Board)
    requires Full(b)
    requires forall q | 0 <= q < |Lines| :: !Complete(b, Lines[q])
    ensures Winner(b).None? && Terminal(b) && Utility(b) == 0
  {
    WinnerIsFirstCompleteLine(b);
    TerminalIffWinOrFull(b);
  }
}
