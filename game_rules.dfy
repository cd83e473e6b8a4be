/** The rule engine of the generalised rock-paper-scissors game: the
    outcome of a user move against a computer move over an ordered list of
    move names (GameRules.determineWinner in game.js). */
module GameRules {
  import opened Moves

  /** The four results determineWinner returns. */
  datatype Outcome = Win | Lose | Draw | Invalid

  /** The string the source uses for each result. */
  function Name(o: Outcome): string {
    match o
    case Win => "Win"
    case Lose => "Lose"
    case Draw => "Draw"
    case Invalid => "Invalid"
  }

  /** The names at offsets lo, lo+1, ..., hi-1 after index i, going round
      the list. */
  function Arc(moves: seq<string>, i: nat, lo: nat, hi: nat): seq<string>
    requires i < |moves| && lo <= hi
  {
    seq(hi - lo, t requires 0 <= t < hi - lo => moves[(i + lo + t) % |moves|])
  }

  /** The `nextMoves` list the source stores for the move at index i: the
      floor(n/2) moves that follow it, wrapping round. The user wins
      exactly against these. */
  function NextMoves(moves: seq<string>, i: nat): (r: seq<string>)
    requires i < |moves|
    ensures |r| == |moves| / 2
    ensures forall m | m in r :: m in moves
  {
    Arc(moves, i, 1, |moves| / 2 + 1)
  }

  /** The remaining moves after index i: those the user loses against. */
  function PrecedingMoves(moves: seq<string>, i: nat): seq<string>
    requires i < |moves|
  {
    Arc(moves, i, |moves| / 2 + 1, |moves|)
  }

  /** The outcome as game.js computes it. A name that occurs twice finds
      the entry written last in the `winningMoves` dictionary, which is the
      one for its last index. */
  function Winner(user: string, computer: string, moves: seq<string>): (r: Outcome)
    ensures r == Invalid <==> user !in moves || computer !in moves
    ensures r == Draw <==> user in moves && computer in moves && user == computer
  {
    if user !in moves || computer !in moves then Invalid
    else if user == computer then Draw
    else if computer in NextMoves(moves, LastIndexOf(moves, user)) then Win
    else Lose
  }

  /** The relation by index arithmetic: the move at index i beats the move
      at index k when (k - i) mod n lies in 1..floor(n/2). */
  predicate Beats(n: nat, i: nat, k: nat)
    requires i < n && k < n
  {
    1 <= (k - i) % n <= n / 2
  }

  lemma ModOfSmall(x: int, n: nat)
    requires 0 <= x < n
    ensures x % n == x
  {
  }

  lemma ModOfLarge(x: int, n: nat)
    requires n <= x < 2 * n
    ensures x % n == x - n
  {
  }

  lemma ModOfNegative(x: int, n: nat)
    requires -(n as int) <= x < 0
    ensures x % n == x + n
  {
  }

  /** Stepping t places round a circle of n from i lands at offset t. */
  lemma OffsetOfStep(n: nat, i: nat, t: nat)
    requires i < n && t < n
    ensures ((i + t) % n - i) % n == t
  {
    if i + t < n {
      ModOfSmall(i + t, n);
      ModOfSmall(t, n);
    } else {
      ModOfLarge(i + t, n);
      ModOfNegative(t - n, n);
    }
  }

  /** Stepping the offset of k from i places round from i lands on k. */
  lemma StepOfOffset(n: nat, i: nat, k: nat)
    requires i < n && k < n
    ensures (i + (k - i) % n) % n == k
  {
    if k >= i {
      ModOfSmall(k - i, n);
      ModOfSmall(k, n);
    } else {
      ModOfNegative(k - i, n);
      ModOfLarge(k + n, n);
    }
  }

  /** In a list without duplicates, moves[k] is in the arc [lo, hi) after
      index i exactly when the offset of k from i lies in [lo, hi). */
  lemma ArcMembership(moves: seq<string>, i: nat, lo: nat, hi: nat, k: nat)
    requires Distinct(moves) && i < |moves| && k < |moves| && lo <= hi <= |moves|
    ensures moves[k] in Arc(moves, i, lo, hi) <==> lo <= (k - i) % |moves| < hi
  {
    if moves[k] in Arc(moves, i, lo, hi) {
      ArcMemberOffset(moves, i, lo, hi, k);
    }
    if lo <= (k - i) % |moves| < hi {
      OffsetInArc(moves, i, lo, hi, k);
    }
  }

  lemma ArcMemberOffset(moves: seq<string>, i: nat, lo: nat, hi: nat, k: nat)
    requires Distinct(moves) && i < |moves| && k < |moves| && lo <= hi <= |moves|
    requires moves[k] in Arc(moves, i, lo, hi)
    ensures lo <= (k - i) % |moves| < hi
  {
    var n := |moves|;
    var a := Arc(moves, i, lo, hi);
    var t := MemberIndex(a, moves[k]);
    var idx := (i + lo + t) % n;
    SameNameSameIndex(moves, idx, k);
    OffsetOfStep(n, i, lo + t);
  }

  /** In a list without duplicates, equal names sit at equal indices. */
  lemma SameNameSameIndex(s: seq<string>, a: nat, b: nat)
    requires Distinct(s) && a < |s| && b < |s| && s[a] == s[b]
    ensures a == b
  {
  }

  lemma OffsetInArc(moves: seq<string>, i: nat, lo: nat, hi: nat, k: nat)
    requires i < |moves| && k < |moves| && lo <= hi <= |moves|
    requires lo <= (k - i) % |moves| < hi
    ensures moves[k] in Arc(moves, i, lo, hi)
  {
    var n := |moves|;
    var a := Arc(moves, i, lo, hi);
    var t := (k - i) % n - lo;
    StepOfOffset(n, i, k);
    assert i + lo + t == i + (k - i) % n;
    assert a[t] == moves[k];
  }

  /** An arc of a list without duplicates has no duplicates either. */
  lemma ArcDistinct(moves: seq<string>, i: nat, lo: nat, hi: nat)
    requires Distinct(moves) && i < |moves| && lo <= hi <= |moves|
    ensures Distinct(Arc(moves, i, lo, hi))
  {
    var n := |moves|;
    var a := Arc(moves, i, lo, hi);
    forall s, t | 0 <= s < t < |a| ensures a[s] != a[t] {
      OffsetOfStep(n, i, lo + s);
      OffsetOfStep(n, i, lo + t);
    }
  }

  /** The dictionary-built relation equals the index arithmetic: for a list
      without duplicates, the outcome of moves[i] against moves[k] is Draw
      when i == k, Win when Beats(n, i, k), and Lose otherwise. */
  lemma WinnerByIndex(moves: seq<string>, i: nat, k: nat)
    requires Distinct(moves) && i < |moves| && k < |moves|
    ensures Winner(moves[i], moves[k], moves) ==
      if i == k then Draw else if Beats(|moves|, i, k) then Win else Lose
  {
    DistinctLastIndex(moves, i);
    if i != k {
      ArcMembership(moves, i, 1, |moves| / 2 + 1, k);
      if (k - i) % |moves| == 0 {
        StepOfOffset(|moves|, i, k);
      }
    }
  }

  /** For an odd number of moves, of two distinct indices exactly one beats
      the other. */
  lemma BeatsAntisymmetric(n: nat, i: nat, k: nat)
    requires n % 2 == 1 && i < n && k < n && i != k
    ensures Beats(n, i, k) <==> !Beats(n, k, i)
  {
    var h := n / 2;
    assert n == 2 * h + 1;
    OffsetsSum(n, i, k);
  }

  /** The offsets of k from i and of i from k add up to n. */
  lemma OffsetsSum(n: nat, i: nat, k: nat)
    requires i < n && k < n && i != k
    ensures (k - i) % n + (i - k) % n == n
  {
    if k > i {
      ModOfSmall(k - i, n);
      ModOfNegative(i - k, n);
    } else {
      ModOfSmall(i - k, n);
      ModOfNegative(k - i, n);
    }
  }

  /** Antisymmetry of the outcome for an odd catalog without duplicates:
      two distinct moves never draw, and a beats b exactly when b loses to
      a. */
  lemma WinnerAntisymmetric(moves: seq<string>, a: string, b: string)
    requires Distinct(moves) && |moves| % 2 == 1
    requires a in moves && b in moves && a != b
    ensures Winner(a, b, moves) in {Win, Lose}
    ensures Winner(a, b, moves) == Win <==> Winner(b, a, moves) == Lose
    ensures Winner(a, b, moves) == Lose <==> Winner(b, a, moves) == Win
  {
    var i := MemberIndex(moves, a);
    var k := MemberIndex(moves, b);
    WinnerByIndex(moves, i, k);
    WinnerByIndex(moves, k, i);
    BeatsAntisymmetric(|moves|, i, k);
  }

  /** Antisymmetry over every pair of distinct moves of an odd catalog
      without duplicates. */
  lemma AllPairsAntisymmetric(moves: seq<string>)
    requires Distinct(moves) && |moves| % 2 == 1
    ensures forall a, b | a in moves && b in moves && a != b ::
      (Winner(a, b, moves) == Win <==> Winner(b, a, moves) == Lose)
  {
    forall a, b | a in moves && b in moves && a != b
      ensures Winner(a, b, moves) == Win <==> Winner(b, a, moves) == Lose
    {
      WinnerAntisymmetric(moves, a, b);
    }
  }

  /** With an even number of moves antisymmetry fails: over four moves the
      first and the third each win against the other. */
  lemma EvenCatalogNotAntisymmetric()
    ensures var moves := ["Rock", "Paper", "Scissors", "Lizard"];
      Distinct(moves) &&
      Winner("Rock", "Scissors", moves) == Win &&
      Winner("Scissors", "Rock", moves) == Win
  {
    var moves := ["Rock", "Paper", "Scissors", "Lizard"];
    WinnerByIndex(moves, 0, 2);
    WinnerByIndex(moves, 2, 0);
  }

  /** The classic order Rock, Paper, Scissors: each move wins against the
      one listed after it, so Rock wins against Paper and loses against
      Scissors. */
  lemma ThreeMoveCatalog()
    ensures var moves := ["Rock", "Paper", "Scissors"];
      Winner("Rock", "Paper", moves) == Win &&
      Winner("Rock", "Scissors", moves) == Lose &&
      Winner("Rock", "Rock", moves) == Draw &&
      Winner("Rock", "Well", moves) == Invalid
  {
    var moves := ["Rock", "Paper", "Scissors"];
    WinnerByIndex(moves, 0, 1);
    WinnerByIndex(moves, 0, 2);
  }

  /** With five moves the first wins against the second and third and loses
      against the fourth and fifth. */
  lemma FiveMoveCatalog()
    ensures var moves := ["Rock", "Paper", "Scissors", "Lizard", "Spock"];
      Winner("Rock", "Paper", moves) == Win &&
      Winner("Rock", "Scissors", moves) == Win &&
      Winner("Rock", "Lizard", moves) == Lose &&
      Winner("Rock", "Spock", moves) == Lose
  {
    var moves := ["Rock", "Paper", "Scissors", "Lizard", "Spock"];
    WinnerByIndex(moves, 0, 1);
    WinnerByIndex(moves, 0, 2);
    WinnerByIndex(moves, 0, 3);
    WinnerByIndex(moves, 0, 4);
  }

  /** The moves the user move u wins against. */
  function WinsAgainst(moves: seq<string>, u: string): set<string> {
    set m | m in moves && Winner(u, m, moves) == Win
  }

  /** The moves the user move u loses against. */
  function LosesAgainst(moves: seq<string>, u: string): set<string> {
    set m | m in moves && Winner(u, m, moves) == Lose
  }

  /** For a catalog without duplicates, a move wins against exactly the
      floor(n/2) moves that follow it and loses against the other
      n - 1 - floor(n/2); together they are every move but itself. */
  lemma Balance(moves: seq<string>, u: string)
    requires Distinct(moves) && u in moves
    ensures WinsAgainst(moves, u) !! LosesAgainst(moves, u)
    ensures WinsAgainst(moves, u) + LosesAgainst(moves, u) == Names(moves) - {u}
    ensures |WinsAgainst(moves, u)| == |moves| / 2
    ensures |LosesAgainst(moves, u)| == |moves| - 1 - |moves| / 2
  {
    var i := MemberIndex(moves, u);
    assert |WinsAgainst(moves, u)| == |moves| / 2 by {
      WinsAreNextMoves(moves, i);
      ArcCount(moves, i, 1, |moves| / 2 + 1);
    }
    assert |LosesAgainst(moves, u)| == |moves| - 1 - |moves| / 2 by {
      LosesArePrecedingMoves(moves, i);
      ArcCount(moves, i, |moves| / 2 + 1, |moves|);
    }
    OutcomesCoverOthers(moves, i);
  }

  /** An arc of a list without duplicates holds hi - lo names. */
  lemma ArcCount(moves: seq<string>, i: nat, lo: nat, hi: nat)
    requires Distinct(moves) && i < |moves| && lo <= hi <= |moves|
    ensures |Names(Arc(moves, i, lo, hi))| == hi - lo
  {
    ArcDistinct(moves, i, lo, hi);
    DistinctNamesCount(Arc(moves, i, lo, hi));
  }

  /** The win set of moves[i] is the set of its nextMoves. */
  lemma WinsAreNextMoves(moves: seq<string>, i: nat)
    requires Distinct(moves) && i < |moves|
    ensures WinsAgainst(moves, moves[i]) == Names(NextMoves(moves, i))
  {
    forall m | m in moves
      ensures m in WinsAgainst(moves, moves[i]) <==> m in NextMoves(moves, i)
    {
      var k := MemberIndex(moves, m);
      OutcomeByArc(moves, i, k);
    }
  }

  /** The lose set of moves[i] is the set of the moves after its nextMoves. */
  lemma LosesArePrecedingMoves(moves: seq<string>, i: nat)
    requires Distinct(moves) && i < |moves|
    ensures LosesAgainst(moves, moves[i]) == Names(PrecedingMoves(moves, i))
  {
    forall m | m in moves
      ensures m in LosesAgainst(moves, moves[i]) <==> m in PrecedingMoves(moves, i)
    {
      var k := MemberIndex(moves, m);
      OutcomeByArc(moves, i, k);
    }
  }

  /** Against every other move, moves[i] either wins or loses. */
  lemma OutcomesCoverOthers(moves: seq<string>, i: nat)
    requires Distinct(moves) && i < |moves|
    ensures WinsAgainst(moves, moves[i]) + LosesAgainst(moves, moves[i]) == Names(moves) - {moves[i]}
  {
    forall m | m in moves && m != moves[i]
      ensures Winner(moves[i], m, moves) in {Win, Lose}
    {
    }
  }

  /** For a list without duplicates, moves[i] wins against the moves that
      follow it within floor(n/2) places and loses against the rest. */
  lemma OutcomeByArc(moves: seq<string>, i: nat, k: nat)
    requires Distinct(moves) && i < |moves| && k < |moves|
    ensures Winner(moves[i], moves[k], moves) == Win <==> moves[k] in NextMoves(moves, i)
    ensures Winner(moves[i], moves[k], moves) == Lose <==> moves[k] in PrecedingMoves(moves, i)
  {
    var n := |moves|;
    var h := n / 2;
    var d := (k - i) % n;
    WinnerByIndex(moves, i, k);
    ArcMembership(moves, i, 1, h + 1, k);
    ArcMembership(moves, i, h + 1, n, k);
    if i == k {
      ModOfSmall(0, n);
      assert d == 0;
    } else {
      assert d != 0 by {
        StepOfOffset(n, i, k);
        ModOfSmall(i, n);
      }
      assert Beats(n, i, k) <==> 1 <= d < h + 1;
    }
  }

  /** For an odd catalog the split is even: floor(n/2) wins and floor(n/2)
      losses for every move. */
  lemma BalancedWhenOdd(moves: seq<string>, u: string)
    requires Distinct(moves) && |moves| % 2 == 1 && u in moves
    ensures |WinsAgainst(moves, u)| == |LosesAgainst(moves, u)| == |moves| / 2
  {
    Balance(moves, u);
  }

  /** The `winningMoves` dictionary, filled by the source's two nested
      loops: each name maps to the nextMoves list of its last index. */
  method WinningMoves(moves: seq<string>) returns (w: map<string, seq<string>>)
    requires |moves| > 0
    ensures w.Keys == Names(moves)
    ensures forall m | m in w :: w[m] == NextMoves(moves, LastIndexOf(moves, m))
  {
    var n := |moves|;
    var halfMoves := n / 2;
    w := map[];
    for i := 0 to n
      invariant w.Keys == Names(moves[..i])
      invariant forall m | m in w :: w[m] == NextMoves(moves, LastIndexOf(moves[..i], m))
    {
      var nextMoves := [];
      for j := 1 to halfMoves + 1
        invariant |nextMoves| == j - 1
        invariant forall t :: 0 <= t < j - 1 ==> nextMoves[t] == moves[(i + 1 + t) % n]
      {
        nextMoves := nextMoves + [moves[(i + j) % n]];
      }
      assert nextMoves == NextMoves(moves, i);
      assert moves[..i + 1] == moves[..i] + [moves[i]];
      forall m | m in moves[..i] && m != moves[i]
        ensures LastIndexOf(moves[..i + 1], m) == LastIndexOf(moves[..i], m)
      {
        assert moves[..i + 1][..i] == moves[..i];
      }
      w := w[moves[i] := nextMoves];
    }
    assert moves[..n] == moves;
  }

  /** GameRules.determineWinner: Invalid unless both moves are in the list,
      Draw on equal moves, otherwise Win or Lose as the dictionary says. */
  method DetermineWinner(user: string, computer: string, moves: seq<string>) returns (r: Outcome)
    ensures r == Winner(user, computer, moves)
    ensures r == Invalid <==> user !in moves || computer !in moves
    ensures r == Draw <==> user in moves && user == computer
    ensures Distinct(moves) ==>
      forall i, k | 0 <= i < |moves| && 0 <= k < |moves| && moves[i] == user && moves[k] == computer ::
        r == if i == k then Draw else if Beats(|moves|, i, k) then Win else Lose
  {
    if user !in moves || computer !in moves {
      return Invalid;
    }
    if user == computer {
      return Draw;
    }
    var winningMoves := WinningMoves(moves);
    if user in winningMoves && computer in winningMoves[user] {
      r := Win;
    } else {
      r := Lose;
    }
    if Distinct(moves) {
      forall i, k | 0 <= i < |moves| && 0 <= k < |moves| && moves[i] == user && moves[k] == computer
        ensures r == if i == k then Draw else if Beats(|moves|, i, k) then Win else Lose
      {
        WinnerByIndex(moves, i, k);
      }
    }
  }
}
