/** The running score of a session (class Statistics in game.js). */
module Scores {

  /** Counters of won, lost and drawn rounds. They start at zero and only
      ever go up. */
  class Statistics {
    var wins: nat
    var losses: nat
    var draws: nat

    /** Rounds counted so far. */
    function Total(): nat
      reads this
    {
      wins + losses + draws
    }

    constructor ()
      ensures wins == 0 && losses == 0 && draws == 0
      ensures Total() == 0
    {
      wins, losses, draws := 0, 0, 0;
    }

    /** Records one result string: "Win", "Lose" and "Draw" each add one to
        their own counter; any other string, "Invalid" among them, changes
        nothing. */
    method UpdateStatistics(result: string)
      modifies this
      ensures wins == old(wins) + (if result == "Win" then 1 else 0)
      ensures losses == old(losses) + (if result == "Lose" then 1 else 0)
      ensures draws == old(draws) + (if result == "Draw" then 1 else 0)
      ensures Total() == old(Total()) + (if result in {"Win", "Lose", "Draw"} then 1 else 0)
    {
      if result == "Win" {
        wins := wins + 1;
      } else if result == "Lose" {
        losses := losses + 1;
      } else if result == "Draw" {
        draws := draws + 1;
      }
    }
  }
}
