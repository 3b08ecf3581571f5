/** The rules of tic-tac-toe on a 3 x 3 board: whose turn it is, the moves
    available, the board a move leads to, the winner, the end of the game
    and its score. A board is a list of three rows of three cells, a cell is
    empty or holds a player's mark. */
module TicTacToe {
  import opened Wrappers

  /** The content of a cell: nothing yet, or a player's mark. */
  datatype Cell = Empty | X | O

  /** A player, named by its mark. */
  type Mark = c: Cell | c != Empty witness X

  /** A move `(row, column)`, as any pair of integers the caller may pass. */
  type Pos = (int, int)

  type Board = b: seq<seq<Cell>> | |b| == 3 && forall i | 0 <= i < 3 :: |b[i]| == 3
    witness [[Empty, Empty, Empty], [Empty, Empty, Empty], [Empty, Empty, Empty]]

  /** Why a move cannot be made: the row or column index does not address a
      cell, or the cell is taken. */
  datatype MoveError = IndexOutOfRange | CellTaken

  predicate OnBoard(p: Pos) {
    0 <= p.0 < 3 && 0 <= p.1 < 3
  }

  function At(b: Board, p: Pos): Cell
    requires OnBoard(p)
  {
    b[p.0][p.1]
  }

  /** The empty cells, as positions. */
  ghost function EmptyCells(b: Board): set<Pos> {
    set i, j | 0 <= i < 3 && 0 <= j < 3 && b[i][j] == Empty :: (i, j)
  }

  /** The three positions of a row, a column or a diagonal. */
  datatype Line = Line(p: Pos, q: Pos, r: Pos)

  /** The eight lines, in the order the winner is looked for: rows, columns,
      the main diagonal, the anti-diagonal from the bottom-left corner. */
  const Lines: seq<Line> := [
    Line((0, 0), (0, 1), (0, 2)), Line((1, 0), (1, 1), (1, 2)), Line((2, 0), (2, 1), (2, 2)),
    Line((0, 0), (1, 0), (2, 0)), Line((0, 1), (1, 1), (2, 1)), Line((0, 2), (1, 2), (2, 2)),
    Line((0, 0), (1, 1), (2, 2)), Line((2, 0), (1, 1), (0, 2))]

  /** `m` fills the three cells of `l`. */
  ghost predicate Owns(b: Board, l: Line, m: Mark) {
    && OnBoard(l.p) && OnBoard(l.q) && OnBoard(l.r)
    && At(b, l.p) == m && At(b, l.q) == m && At(b, l.r) == m
  }

  /** Line `k` is the first of `Lines` that anybody completed, and `m`
      completed it. */
  ghost predicate FirstCompleted(b: Board, k: int, m: Mark) {
    && 0 <= k < |Lines| && Owns(b, Lines[k], m)
    && forall j | 0 <= j < k :: !Owns(b, Lines[j], X) && !Owns(b, Lines[j], O)
  }

  /** `m` holds three in a row somewhere on `b`. */
  ghost predicate HasLine(b: Board, m: Mark) {
    exists k | 0 <= k < |Lines| :: Owns(b, Lines[k], m)
  }

  /** The number of cells equal to `c`, counted row by row. */
  function Count(b: Board, c: Cell): (r: nat)
    ensures r <= 9
  {
    Marks(b)[c]
  }

  /** No cell holds `c` exactly when `c` is counted zero times, and the
      three counts together cover the nine cells. */
  lemma CountZero(b: Board, c: Cell)
    ensures Count(b, c) == 0 <==> forall i, j | 0 <= i < 3 && 0 <= j < 3 :: b[i][j] != c
    ensures Count(b, Empty) + Count(b, X) + Count(b, O) == 9
  {
    RowCount(b[0], c);
    RowCount(b[1], c);
    RowCount(b[2], c);
    forall d ensures multiset(b[0])[d] + multiset(b[1])[d] + multiset(b[2])[d] == Marks(b)[d] {
    }
    RowTotal(b[0]);
    RowTotal(b[1]);
    RowTotal(b[2]);
  }

  /** Every cell of the board, as a multiset: nine cells, each of them in it. */
  function Marks(b: Board): (r: multiset<Cell>)
    ensures |r| == 9
  {
    RowCount(b[0], Empty);
    RowCount(b[1], Empty);
    RowCount(b[2], Empty);
    multiset(b[0]) + multiset(b[1]) + multiset(b[2])
  }

  /** The cells of a row of three are each empty, X or O. */
  lemma RowTotal(row: seq<Cell>)
    requires |row| == 3
    ensures multiset(row)[Empty] + multiset(row)[X] + multiset(row)[O] == 3
  {
    RowCount(row, Empty);
    RowCount(row, X);
    RowCount(row, O);
  }

  /** A row of three as a multiset: three cells, `c` counted once per cell
      that holds it. */
  lemma RowCount(row: seq<Cell>, c: Cell)
    requires |row| == 3
    ensures |multiset(row)| == 3
    ensures multiset(row)[c] == (if row[0] == c then 1 else 0) + (if row[1] == c then 1 else 0) + (if row[2] == c then 1 else 0)
    ensures forall d | d in multiset(row) :: d == row[0] || d == row[1] || d == row[2]
  {
    assert row == [row[0]] + [row[1]] + [row[2]];
  }

  /** The empty board. */
  function InitialState(): (r: Board)
    ensures forall p | OnBoard(p) :: At(r, p) == Empty
    ensures EmptyCells(r) == set i, j | 0 <= i < 3 && 0 <= j < 3 :: (i, j)
    ensures Count(r, Empty) == 9 && Count(r, X) == 0 && Count(r, O) == 0
  {
    [[Empty, Empty, Empty], [Empty, Empty, Empty], [Empty, Empty, Empty]]
  }

  /** The player to move has never placed more marks than the other one,
      and X moves when the counts are level. */
  function Player(b: Board): (r: Mark)
    ensures r == X ==> Count(b, X) <= Count(b, O)
    ensures r == O ==> Count(b, O) < Count(b, X)
  {
    if Count(b, X) > Count(b, O) then O else X
  }

  /** The boards of a game X opened and the players took turns on: X has
      as many marks as O, or one more. */
  ghost predicate Balanced(b: Board) {
    Count(b, X) == Count(b, O) || Count(b, X) == Count(b, O) + 1
  }

  /** On the boards of a real game X moves after an even number of moves
      and O after an odd one. */
  lemma PlayerOfBalanced(b: Board)
    requires Balanced(b)
    ensures Player(b) == X <==> Count(b, X) == Count(b, O)
    ensures Player(b) == O <==> Count(b, X) == Count(b, O) + 1
  {
  }

  /** The mark of a row that is full of it, X checked first; rows are
      judged by counting marks. */
  function RowOwner(row: seq<Cell>): (r: Cell)
    requires |row| == 3
    ensures r == X <==> row[0] == X && row[1] == X && row[2] == X
    ensures r == O <==> row[0] == O && row[1] == O && row[2] == O
  {
    RowCount(row, X);
    RowCount(row, O);
    if multiset(row)[X] == 3 then X
    else if multiset(row)[O] == 3 then O
    else Empty
  }

  /** The mark of three equal cells, if they are not empty; columns and
      diagonals are judged by comparing cells. */
  function TripleOwner(c1: Cell, c2: Cell, c3: Cell): (r: Cell)
    ensures r == X <==> c1 == X && c2 == X && c3 == X
    ensures r == O <==> c1 == O && c2 == O && c3 == O
  {
    if c1 == c2 && c2 == c3 then c1 else Empty
  }

  /** The first owner in the list, `Empty` if there is none. */
  function FirstOwner(owners: seq<Cell>): (r: Cell)
    ensures r != Empty ==> exists k | 0 <= k < |owners| :: owners[k] == r && forall j | 0 <= j < k :: owners[j] == Empty
    ensures r == Empty <==> forall k | 0 <= k < |owners| :: owners[k] == Empty
  {
    if |owners| == 0 then Empty
    else if owners[0] != Empty then owners[0]
    else
      assert owners == [owners[0]] + owners[1..];
      var r := FirstOwner(owners[1..]);
      assert r != Empty ==> exists k | 0 <= k < |owners| :: owners[k] == r && forall j | 0 <= j < k :: owners[j] == Empty by {
        if r != Empty {
          var k :| 0 <= k < |owners[1..]| && owners[1..][k] == r && forall j | 0 <= j < k :: owners[1..][j] == Empty;
          assert owners[k + 1] == r && forall j | 0 <= j < k + 1 :: owners[j] == Empty;
        }
      }
      r
  }

  /** The owner of each of the eight lines, in the order of `Lines`: the
      mark that fills it, `Empty` if none does. */
  function OwnerList(b: Board): (r: seq<Cell>)
    ensures |r| == |Lines|
    ensures forall k | 0 <= k < |r| :: (r[k] == X <==> Owns(b, Lines[k], X)) && (r[k] == O <==> Owns(b, Lines[k], O))
  {
    var r := [RowOwner(b[0]), RowOwner(b[1]), RowOwner(b[2]),
      TripleOwner(b[0][0], b[1][0], b[2][0]),
      TripleOwner(b[0][1], b[1][1], b[2][1]),
      TripleOwner(b[0][2], b[1][2], b[2][2]),
      TripleOwner(b[0][0], b[1][1], b[2][2]),
      TripleOwner(b[2][0], b[1][1], b[0][2])];
    assert forall k | 0 <= k < |r| :: (r[k] == X <==> Owns(b, Lines[k], X)) && (r[k] == O <==> Owns(b, Lines[k], O)) by {
      forall k | 0 <= k < |r| ensures (r[k] == X <==> Owns(b, Lines[k], X)) && (r[k] == O <==> Owns(b, Lines[k], O)) {
        assert k in {0, 1, 2, 3, 4, 5, 6, 7};
      }
    }
    r
  }

  /** The winner: the owner of the first completed line, rows before
      columns before diagonals, or `Empty` when nobody has won. */
  function Winner(b: Board): (r: Cell)
    ensures r != Empty ==> HasLine(b, r)
    ensures r == Empty <==> !HasLine(b, X) && !HasLine(b, O)
  {
    var owners := OwnerList(b);
    FirstCompletedLine(b, owners);
    NoCompletedLine(b, owners);
    FirstOwner(owners)
  }

  /** The winner completed the first completed line, rows checked before
      columns and columns before the two diagonals; so when both players
      have a line, the one found first wins. */
  lemma WinnerTakesFirstLine(b: Board)
    ensures Winner(b) != Empty ==> exists k :: FirstCompleted(b, k, Winner(b))
  {
    FirstCompletedLine(b, OwnerList(b));
  }

  /** Whether `m` owns each of the eight lines, in the order of `Lines`. */
  ghost function Owned(b: Board, m: Mark): (r: seq<bool>)
    ensures |r| == |Lines| && forall k | 0 <= k < |Lines| :: r[k] == Owns(b, Lines[k], m)
  {
    seq(|Lines|, k requires 0 <= k < |Lines| => Owns(b, Lines[k], m))
  }

  /** `owners` lists the owner of each line of `b`, in the order of `Lines`. */
  ghost predicate LineOwners(b: Board, owners: seq<Cell>) {
    && |owners| == |Lines|
    && forall k | 0 <= k < |owners| ::
         (owners[k] == X <==> Owned(b, X)[k]) && (owners[k] == O <==> Owned(b, O)[k])
  }

  /** The first owner in a list of line owners completed the first
      completed line. */
  lemma FirstCompletedLine(b: Board, owners: seq<Cell>)
    requires LineOwners(b, owners)
    ensures var r := FirstOwner(owners);
      r != Empty ==> exists k :: FirstCompleted(b, k, r)
  {
    var xs, os := Owned(b, X), Owned(b, O);
    FirstOwnerIndex(owners, xs, os);
    var r := FirstOwner(owners);
    if r != Empty {
      var k :| 0 <= k < |owners| && (if r == X then xs[k] else os[k]) && forall j | 0 <= j < k :: !xs[j] && !os[j];
      assert FirstCompleted(b, k, r);
    }
  }

  /** A list of line owners has no owner exactly when no line is complete. */
  lemma NoCompletedLine(b: Board, owners: seq<Cell>)
    requires LineOwners(b, owners)
    ensures FirstOwner(owners) == Empty <==> !HasLine(b, X) && !HasLine(b, O)
  {
    var xs, os := Owned(b, X), Owned(b, O);
    FirstOwnerIndex(owners, xs, os);
    if FirstOwner(owners) == Empty {
      forall k | 0 <= k < |Lines| ensures !Owns(b, Lines[k], X) && !Owns(b, Lines[k], O) {
        assert !xs[k] && !os[k];
      }
    } else {
      var k :| 0 <= k < |owners| && (xs[k] || os[k]);
      assert Owns(b, Lines[k], X) || Owns(b, Lines[k], O);
    }
  }

  /** Given, for each position of `owners`, whether X and whether O owns it,
      the first owner found owns its position and no earlier position has
      an owner, and none is found exactly when no position has one. */
  lemma FirstOwnerIndex(owners: seq<Cell>, xs: seq<bool>, os: seq<bool>)
    requires |xs| == |owners| && |os| == |owners|
    requires forall k | 0 <= k < |owners| :: (owners[k] == X <==> xs[k]) && (owners[k] == O <==> os[k])
    ensures var r := FirstOwner(owners);
      && (r != Empty ==> exists k | 0 <= k < |owners| ::
            && (if r == X then xs[k] else os[k])
            && forall j | 0 <= j < k :: !xs[j] && !os[j])
      && (r == Empty <==> forall k | 0 <= k < |owners| :: !xs[k] && !os[k])
  {
    var r := FirstOwner(owners);
    if r != Empty {
      var k :| 0 <= k < |owners| && owners[k] == r && forall j | 0 <= j < k :: owners[j] == Empty;
      assert if r == X then xs[k] else os[k];
    }
  }

  /** The game ends once a player has won or the board is full. */
  function Terminal(b: Board): (r: bool)
    ensures r <==> HasLine(b, X) || HasLine(b, O) || EmptyCells(b) == {}
  {
    assert EmptyCells(b) == {} <==> Count(b, Empty) == 0 by {
      CountZero(b, Empty);
      if EmptyCells(b) == {} {
        forall i, j | 0 <= i < 3 && 0 <= j < 3 ensures b[i][j] != Empty {
          assert (i, j) !in EmptyCells(b);
        }
      }
    }
    if Winner(b) != Empty then true else Count(b, Empty) == 0
  }

  /** The score of a board: 1 if X has won, -1 if O has, 0 otherwise. */
  function Utility(b: Board): (r: int)
    ensures -1 <= r <= 1
    ensures r == 1 ==> HasLine(b, X)
    ensures r == -1 ==> HasLine(b, O)
    ensures r == 0 <==> !HasLine(b, X) && !HasLine(b, O)
  {
    if Winner(b) == X then 1
    else if Winner(b) == O then -1
    else 0
  }

  /** The moves available: nothing once the game is over, otherwise every
      empty cell, collected row by row. */
  method Actions(b: Board) returns (r: Option<set<Pos>>)
    ensures r.None? <==> Terminal(b)
    ensures r.Some? ==> r.value == EmptyCells(b) && r.value != {}
    ensures r.Some? ==> forall p :: p in r.value <==> OnBoard(p) && At(b, p) == Empty
  {
    if Terminal(b) {
      return None;
    }
    var a: set<Pos> := {};
    var i := 0;
    while i < 3
      invariant 0 <= i <= 3
      invariant forall p :: p in a <==> 0 <= p.0 < i && 0 <= p.1 < 3 && b[p.0][p.1] == Empty
    {
      var row := EmptiesInRow(b, i);
      a := a + row;
      i := i + 1;
    }
    return Some(a);
  }

  /** The empty cells of row `i`, collected column by column. */
  method EmptiesInRow(b: Board, i: nat) returns (r: set<Pos>)
    requires i < 3
    ensures forall p :: p in r <==> p.0 == i && 0 <= p.1 < 3 && b[i][p.1] == Empty
  {
    r := {};
    var j := 0;
    while j < 3
      invariant 0 <= j <= 3
      invariant forall p :: p in r <==> p.0 == i && 0 <= p.1 < j && b[i][p.1] == Empty
    {
      if b[i][j] == Empty {
        r := r + {(i, j)};
      }
      j := j + 1;
    }
  }

  /** `b` with mark `m` written into row `i`, column `j`. */
  function Place(b: Board, i: nat, j: nat, m: Mark): (r: Board)
    requires i < 3 && j < 3
    ensures At(r, (i, j)) == m
    ensures forall p | OnBoard(p) && p != (i, j) :: At(r, p) == At(b, p)
    ensures Marks(r) == Marks(b) - multiset{b[i][j]} + multiset{m}
  {
    RowUpdateCounts(b[i], j, m);
    b[i := b[i][j := m]]
  }

  /** Writing `m` over one cell of a row trades that cell's old mark for `m`
      in the row's multiset of cells. */
  lemma RowUpdateCounts(row: seq<Cell>, j: nat, m: Cell)
    requires j < |row|
    ensures multiset(row[j := m]) == multiset(row) - multiset{row[j]} + multiset{m}
  {
    assert row == row[..j] + [row[j]] + row[j + 1..];
    assert row[j := m] == row[..j] + [m] + row[j + 1..];
  }

  /** A row or column index as Python reads it on a list of three: 0 to 2
      address from the front, -3 to -1 from the back, anything else fails. */
  function Index(k: int): (r: Option<nat>)
    ensures r.Some? <==> -3 <= k < 3
    ensures r.Some? ==> r.value < 3 && (r.value - k) % 3 == 0
  {
    if 0 <= k < 3 then Some(k)
    else if -3 <= k < 0 then Some(k + 3)
    else None
  }

  /** The board after the player to move plays `p`; a move that does not
      address a cell, or addresses a taken one, is an error. */
  function Result(b: Board, p: Pos): (r: Wrappers.Result<Board, MoveError>)
    ensures r == Failure(IndexOutOfRange) <==> !(-3 <= p.0 < 3 && -3 <= p.1 < 3)
    ensures Index(p.0).Some? && Index(p.1).Some? ==>
      (r.Success? <==> b[Index(p.0).value][Index(p.1).value] == Empty)
    ensures r.Success? ==>
      && Index(p.0).Some? && Index(p.1).Some?
      && var q := (Index(p.0).value, Index(p.1).value);
      && OnBoard(q) && At(b, q) == Empty
      && At(r.value, q) == Player(b)
      && (forall s | OnBoard(s) && s != q :: At(r.value, s) == At(b, s))
      && Count(r.value, Empty) == Count(b, Empty) - 1
  {
    match (Index(p.0), Index(p.1))
    case (Some(i), Some(j)) =>
      if b[i][j] != Empty then Failure(CellTaken) else Success(Place(b, i, j, Player(b)))
    case _ => Failure(IndexOutOfRange)
  }

  /** X opens the game, and the empty board has not ended. */
  lemma InitialStateFacts()
    ensures Balanced(InitialState()) && Player(InitialState()) == X
    ensures !Terminal(InitialState())
  {
    var b := InitialState();
    assert (0, 0) in EmptyCells(b);
  }

  /** A move keeps the players' mark counts balanced and hands the turn to
      the other player. */
  lemma PlayerAlternates(b: Board, p: Pos)
    requires Balanced(b) && Result(b, p).Success?
    ensures Balanced(Result(b, p).value)
    ensures Player(Result(b, p).value) != Player(b)
  {
  }

  /** A move never completes a line for the player who did not move, so a
      game that stops at its first line never has two winners. */
  lemma OnlyMoverCompletesLine(b: Board, p: Pos, m: Mark)
    requires Result(b, p).Success? && m != Player(b) && !HasLine(b, m)
    ensures !HasLine(Result(b, p).value, m)
  {
    var r := Result(b, p).value;
    forall k | 0 <= k < |Lines| ensures !Owns(r, Lines[k], m) {
      assert !Owns(b, Lines[k], m);
    }
  }
}
