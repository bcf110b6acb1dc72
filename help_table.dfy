/** The help table of game.js (class HelpTable): an (N+1) x (N+1) grid whose
    header row is 'Moves' followed by the moves, and whose row i+1 is moves[i]
    followed by the label of moves[i] played against each move in turn. */
module HelpTable {
  import opened MoveRules

  /** determineResult: 'Draw' for equal moves, checked first; otherwise 'Win'
      when determineWinner says 'player' on a freshly built rules table, and
      'Lose' in every other case. */
  function DetermineResult(moves: seq<string>, move1: string, move2: string): (cell: string)
    requires move1 == move2 || move1 in moves
    ensures cell == "Draw" <==> move1 == move2
    ensures cell == "Win" <==> DetermineWinner(Rules(moves), move1, move2) == Player
    ensures cell == "Lose" <==> DetermineWinner(Rules(moves), move1, move2) == Computer
  {
    if move1 == move2 then "Draw"
    else if DetermineWinner(Rules(moves), move1, move2) == Player then "Win"
    else "Lose"
  }

  /** Row i+1 as the inner loop has built it after n iterations: moves[i],
      then its labels against the first n moves. */
  function RowUpTo(moves: seq<string>, i: nat, n: nat): (row: seq<string>)
    requires i < |moves| && n <= |moves|
    ensures |row| == n + 1 && row[0] == moves[i]
  {
    if n == 0 then [moves[i]] else RowUpTo(moves, i, n - 1) + [DetermineResult(moves, moves[i], moves[n - 1])]
  }

  /** The table as the outer loop has built it after n iterations: the header
      row, then the complete rows of the first n moves. */
  function TableUpTo(moves: seq<string>, n: nat): (table: seq<seq<string>>)
    requires n <= |moves|
    ensures |table| == n + 1 && table[0] == ["Moves"] + moves
    ensures forall r :: 0 <= r < |table| ==> |table[r]| == |moves| + 1
  {
    if n == 0 then [["Moves"] + moves] else TableUpTo(moves, n - 1) + [RowUpTo(moves, n - 1, |moves|)]
  }

  /** The whole table that generateTable returns. */
  function Table(moves: seq<string>): (table: seq<seq<string>>)
    ensures |table| == |moves| + 1
    ensures forall r :: 0 <= r < |table| ==> |table[r]| == |moves| + 1
  {
    TableUpTo(moves, |moves|)
  }

  /** generateTable: the header row, then one row per move built cell by cell
      in nested loops. */
  method GenerateTable(moves: seq<string>) returns (table: seq<seq<string>>)
    ensures table == Table(moves)
  {
    table := [["Moves"] + moves];
    var i := 0;
    while i < |moves|
      invariant i <= |moves|
      invariant table == TableUpTo(moves, i)
    {
      var row := [moves[i]];
      var j := 0;
      while j < |moves|
        invariant j <= |moves|
        invariant row == RowUpTo(moves, i, j)
      {
        var result := DetermineResult(moves, moves[i], moves[j]);
        row := row + [result];
        j := j + 1;
      }
      table := table + [row];
      i := i + 1;
    }
  }

  /** Entry k+1 of a partial row is the label of moves[i] against moves[k],
      after the move itself at entry 0. */
  lemma {:induction false} RowUpToAt(moves: seq<string>, i: nat, n: nat, k: nat)
    requires i < |moves| && k < n <= |moves|
    ensures RowUpTo(moves, i, n)[k + 1] == DetermineResult(moves, moves[i], moves[k])
  {
    if k < n - 1 {
      RowUpToAt(moves, i, n - 1, k);
    } else if n > 1 {
      RowUpToAt(moves, i, n - 1, 0);
    }
  }

  /** Entry k+1 of a partial table is the complete row of moves[k], after the
      header at entry 0. */
  lemma {:induction false} TableUpToAt(moves: seq<string>, n: nat, k: nat)
    requires k < n <= |moves|
    ensures TableUpTo(moves, n)[k + 1] == RowUpTo(moves, k, |moves|)
  {
    if k < n - 1 {
      TableUpToAt(moves, n - 1, k);
    } else if n > 1 {
      TableUpToAt(moves, n - 1, 0);
    }
  }

  /** The layout of the table: N+1 rows of N+1 entries, the header row, the
      move heading each row, and the cell of row i+1, column j+1 being the
      label of moves[i] against moves[j]. */
  lemma TableLayout(moves: seq<string>, i: nat, j: nat)
    requires i < |moves| && j < |moves|
    ensures |Table(moves)| == |moves| + 1
    ensures |Table(moves)[0]| == |moves| + 1 && Table(moves)[0][0] == "Moves"
    ensures Table(moves)[0][j + 1] == moves[j]
    ensures |Table(moves)[i + 1]| == |moves| + 1 && Table(moves)[i + 1][0] == moves[i]
    ensures Table(moves)[i + 1][j + 1] == DetermineResult(moves, moves[i], moves[j])
  {
    TableUpToAt(moves, |moves|, i);
    RowUpToAt(moves, i, |moves|, j);
  }

  /** Every cell by index, for distinct names: 'Draw' on the diagonal, 'Win'
      when i < j <= i + N/2, and 'Lose' everywhere else. */
  lemma TableCell(moves: seq<string>, i: nat, j: nat)
    requires Distinct(moves) && i < |moves| && j < |moves|
    ensures Table(moves)[i + 1][j + 1]
         == if i == j then "Draw" else if i < j <= i + |moves| / 2 then "Win" else "Lose"
  {
    TableLayout(moves, i, j);
    WinnerByIndex(moves, i, j);
  }

  /** A 'Win' cell has a 'Lose' cell across the diagonal. */
  lemma WinMirrorsLose(moves: seq<string>, i: nat, j: nat)
    requires Distinct(moves) && i < |moves| && j < |moves|
    requires Table(moves)[i + 1][j + 1] == "Win"
    ensures Table(moves)[j + 1][i + 1] == "Lose"
  {
    TableCell(moves, i, j);
    TableCell(moves, j, i);
  }

  /** The converse fails: for N >= 3 the cell of the first move against the
      last and the cell of the last against the first are both 'Lose', so the
      table is not antisymmetric across the diagonal. */
  lemma CornerCellsBothLose(moves: seq<string>)
    requires Distinct(moves) && |moves| >= 3
    ensures Table(moves)[1][|moves|] == "Lose"
    ensures Table(moves)[|moves|][1] == "Lose"
  {
    TableCell(moves, 0, |moves| - 1);
    TableCell(moves, |moves| - 1, 0);
  }
}
