/** The matchup grid shown by the `?` command (class HelpTable in game.js):
    a header row, then one row per move giving that move's result against
    every move. */
module Help {
  import opened Moves
  import opened GameRules

  /** The cell for row move moves[k] against column move moves[j]: the
      literal "Draw" on equal names, otherwise the name of the result. The
      shortcut agrees with determineWinner, which never says "Invalid" for
      two catalog moves. */
  function Cell(moves: seq<string>, k: nat, j: nat): (r: string)
    requires k < |moves| && j < |moves|
    ensures r == Name(Winner(moves[k], moves[j], moves))
    ensures r in {"Win", "Lose", "Draw"}
  {
    if moves[k] == moves[j] then "Draw" else Name(Winner(moves[k], moves[j], moves))
  }

  /** rows is the (n+1) x (n+1) grid for moves: row 0 is "" followed by the
      moves, row k+1 starts with moves[k] and then holds Cell(moves, k, j)
      in column j+1. */
  ghost predicate IsMatchupTable(moves: seq<string>, rows: seq<seq<string>>) {
    |rows| == |moves| + 1 &&
    rows[0] == [""] + moves &&
    forall k | 1 <= k <= |moves| ::
      |rows[k]| == |moves| + 1 && rows[k][0] == moves[k - 1] &&
      forall j | 1 <= j <= |moves| :: rows[k][j] == Cell(moves, k - 1, j - 1)
  }

  /** No cell of the grid is "Invalid", and the diagonal is "Draw". */
  lemma TableNeverInvalid(moves: seq<string>, rows: seq<seq<string>>)
    requires IsMatchupTable(moves, rows)
    ensures forall k, j | 1 <= k <= |moves| && 1 <= j <= |moves| ::
      rows[k][j] in {"Win", "Lose", "Draw"}
    ensures forall k | 1 <= k <= |moves| :: rows[k][k] == "Draw"
  {
    forall k, j | 1 <= k <= |moves| && 1 <= j <= |moves|
      ensures rows[k][j] in {"Win", "Lose", "Draw"}
    {
      assert rows[k][j] == Cell(moves, k - 1, j - 1);
    }
  }

  /** For an odd catalog without duplicates, every off-diagonal cell is
      "Win" or "Lose", and the cell for (a, b) is "Win" exactly when the cell
      for (b, a) is "Lose". */
  lemma TableAntisymmetric(moves: seq<string>, rows: seq<seq<string>>)
    requires IsMatchupTable(moves, rows) && Distinct(moves) && |moves| % 2 == 1
    ensures forall k, j | 1 <= k <= |moves| && 1 <= j <= |moves| && k != j ::
      rows[k][j] in {"Win", "Lose"} && (rows[k][j] == "Win" <==> rows[j][k] == "Lose")
  {
    forall k, j | 1 <= k <= |moves| && 1 <= j <= |moves| && k != j
      ensures rows[k][j] in {"Win", "Lose"} && (rows[k][j] == "Win" <==> rows[j][k] == "Lose")
    {
      assert rows[k][j] == Cell(moves, k - 1, j - 1);
      assert rows[j][k] == Cell(moves, j - 1, k - 1);
      WinnerAntisymmetric(moves, moves[k - 1], moves[j - 1]);
    }
  }

  class HelpTable {
    var moves: seq<string>
    var table: seq<seq<string>>

    constructor (moves: seq<string>)
      ensures this.moves == moves
      ensures IsMatchupTable(moves, table)
    {
      this.moves := moves;
      new;
      table := GenerateTable();
    }

    /** Builds the grid row by row with two nested loops; off the diagonal
        each cell comes from DetermineWinner. */
    method GenerateTable() returns (rows: seq<seq<string>>)
      ensures IsMatchupTable(moves, rows)
    {
      var n := |moves|;
      rows := [[""] + moves];
      for k := 0 to n
        invariant |rows| == k + 1
        invariant rows[0] == [""] + moves
        invariant forall r | 1 <= r <= k ::
          |rows[r]| == n + 1 && rows[r][0] == moves[r - 1] &&
          forall j | 1 <= j <= n :: rows[r][j] == Cell(moves, r - 1, j - 1)
      {
        var move := moves[k];
        var row := [move];
        for j := 0 to n
          invariant |row| == j + 1
          invariant row[0] == move
          invariant forall c | 1 <= c <= j :: row[c] == Cell(moves, k, c - 1)
        {
          var opponentMove := moves[j];
          if move == opponentMove {
            assert Cell(moves, k, j) == "Draw";
            row := row + ["Draw"];
          } else {
            var result := DetermineWinner(move, opponentMove, moves);
            assert Cell(moves, k, j) == Name(result);
            row := row + [Name(result)];
          }
        }
        rows := rows + [row];
      }
    }
  }
}
