/** The decisions Main.main takes around the rule engine: whether the
    command-line catalog is accepted, how a line of input selects a move or
    a meta-command, and what one played round records. */
module Session {
  import opened Moves
  import opened GameRules
  import opened Scores

  datatype Option<T> = None | Some(value: T)

  /** The guard at the start of Main.main: at least three arguments, and a
      set built from them as large as the list. */
  function AcceptsCatalog(args: seq<string>): (ok: bool)
    ensures ok <==> |args| >= 3 && Distinct(args)
  {
    DistinctIffNamesCount(args);
    |args| >= 3 && |Names(args)| == |args|
  }

  /** The same guard with the odd-length requirement the fairness of the
      game rests on: every catalog it accepts is one the original guard
      accepts, and in it every pair of distinct moves has one winner. */
  function AcceptsFairCatalog(args: seq<string>): (ok: bool)
    ensures ok <==> |args| >= 3 && Distinct(args) && |args| % 2 == 1
    ensures ok ==> AcceptsCatalog(args)
    ensures ok ==> forall a, b | a in args && b in args && a != b ::
      (Winner(a, b, args) == Win <==> Winner(b, a, args) == Lose)
  {
    if AcceptsCatalog(args) && |args| % 2 == 1 then
      AllPairsAntisymmetric(args);
      true
    else
      false
  }

  /** The guard accepts a four-move catalog, over which "Rock" and
      "Scissors" each win against the other. */
  lemma EvenCatalogAccepted()
    ensures var moves := ["Rock", "Paper", "Scissors", "Lizard"];
      AcceptsCatalog(moves) && !AcceptsFairCatalog(moves) &&
      Winner("Rock", "Scissors", moves) == Win &&
      Winner("Scissors", "Rock", moves) == Win
  {
    EvenCatalogNotAntisymmetric();
  }

  /** Every catalog the odd-length guard accepts gives a fair game: two
      distinct moves never draw and have one winner, and every move wins
      against floor(n/2) moves and loses against as many. */
  lemma FairCatalogIsFair(moves: seq<string>, a: string, b: string)
    requires AcceptsFairCatalog(moves) && a in moves && b in moves
    ensures a != b ==> Winner(a, b, moves) in {Win, Lose}
    ensures a != b ==> (Winner(a, b, moves) == Win <==> Winner(b, a, moves) == Lose)
    ensures |WinsAgainst(moves, a)| == |LosesAgainst(moves, a)| == |moves| / 2
  {
    if a != b {
      WinnerAntisymmetric(moves, a, b);
    }
    BalancedWhenOdd(moves, a);
  }

  /** The move a parsed 1-based selection picks: moves[index - 1] when index
      lies in 1..n, nothing when it does not or the input did not parse. */
  function SelectMove(moves: seq<string>, parsed: Option<int>): (r: Option<string>)
    ensures r.Some? <==> parsed.Some? && 1 <= parsed.value <= |moves|
    ensures r.Some? ==> r.value in moves && r.value == moves[parsed.value - 1]
  {
    if parsed.None? || parsed.value < 1 || parsed.value > |moves| then None
    else Some(moves[parsed.value - 1])
  }

  /** Selection is a one-to-one numbering of a catalog without duplicates:
      index k picks moves[k - 1], and no two indices pick the same move. */
  lemma SelectionNumbersCatalog(moves: seq<string>, p: int, q: int)
    requires Distinct(moves)
    ensures forall k | 1 <= k <= |moves| :: SelectMove(moves, Some(k)) == Some(moves[k - 1])
    ensures SelectMove(moves, Some(p)).Some? && SelectMove(moves, Some(p)) == SelectMove(moves, Some(q)) ==> p == q
  {
    if SelectMove(moves, Some(p)).Some? && SelectMove(moves, Some(p)) == SelectMove(moves, Some(q)) {
      assert moves[p - 1] == moves[q - 1];
    }
  }

  /** What one line of input asks for. */
  datatype Command = Exit | ShowHelp | ShowHistory | Play(move: string) | Retry

  /** The branches of the input loop: "0", "?" and "!" are meta-commands
      tested before parsing; anything else plays the selected move or, when
      the selection is rejected, asks again. parsed is the input as parsed
      to an integer (None for NaN). */
  function Classify(input: string, parsed: Option<int>, moves: seq<string>): (c: Command)
    ensures c == Exit <==> input == "0"
    ensures c == ShowHelp <==> input == "?"
    ensures c == ShowHistory <==> input == "!"
    ensures input !in {"0", "?", "!"} ==>
      (c == Retry <==> SelectMove(moves, parsed).None?) &&
      (c.Play? <==> SelectMove(moves, parsed).Some?)
    ensures c.Play? ==> Some(c.move) == SelectMove(moves, parsed) && c.move in moves
  {
    if input == "0" then Exit
    else if input == "?" then ShowHelp
    else if input == "!" then ShowHistory
    else match SelectMove(moves, parsed)
      case Some(m) => Play(m)
      case None => Retry
  }

  /** One pass of the input loop of Main.main, given the computer's move by
      its index: a played move is resolved against the computer's move and
      counted; no other command touches the score. A played round is never
      Invalid, so it adds to exactly one counter. */
  method PlayRound(stats: Statistics, moves: seq<string>, computerIndex: nat,
                   input: string, parsed: Option<int>)
    returns (command: Command, result: Option<Outcome>)
    requires computerIndex < |moves|
    modifies stats
    ensures command == Classify(input, parsed, moves)
    ensures command.Play? ==> result == Some(Winner(command.move, moves[computerIndex], moves))
    ensures command.Play? ==> result.value in {Win, Lose, Draw}
    ensures !command.Play? ==> result == None
    ensures stats.wins == old(stats.wins) + (if result == Some(Win) then 1 else 0)
    ensures stats.losses == old(stats.losses) + (if result == Some(Lose) then 1 else 0)
    ensures stats.draws == old(stats.draws) + (if result == Some(Draw) then 1 else 0)
    ensures stats.Total() == old(stats.Total()) + (if command.Play? then 1 else 0)
  {
    command := Classify(input, parsed, moves);
    result := None;
    if command.Play? {
      var computerMove := moves[computerIndex];
      var outcome := DetermineWinner(command.move, computerMove, moves);
      stats.UpdateStatistics(Name(outcome));
      result := Some(outcome);
    }
  }
}
