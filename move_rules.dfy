/** The move relation of game.js (class MoveRules): a rules table keyed by move
    name, built by slicing the move list, and the winner of one comparison.

    The relation the code computes is NOT the cyclic relation in which each
    move beats the (N-1)/2 moves after it, wrapping around past the end of the
    list: Array.prototype.slice clips at the end of the list instead of
    wrapping around, so the move at index i beats exactly the moves at
    indices i+1 .. i+N/2 that exist, and the last move beats nothing. */
module MoveRules {

  /** What determineWinner returns: 'draw', 'player' or 'computer'. */
  datatype Winner = Draw | Player | Computer

  /** One entry of the rules table: the moves this move beats ('wins') and the
      moves it is said to lose to ('loses'). */
  datatype Rule = Rule(wins: seq<string>, loses: seq<string>)

  /** The move names are pairwise distinct. */
  predicate Distinct(moves: seq<string>) {
    forall i, j :: 0 <= i < j < |moves| ==> moves[i] != moves[j]
  }

  function Min(a: int, b: int): (m: int) {
    if a <= b then a else b
  }

  /** How Array.prototype.slice resolves an integer argument against a list of
      length len: a negative argument counts from the end, and the result is
      clipped to [0, len]. */
  function SliceIndex(k: int, len: nat): (r: nat)
    ensures r <= len
  {
    if k < 0 then (if len + k < 0 then 0 else len + k)
    else if k > len then len
    else k
  }

  /** Array.prototype.slice(start, end) on integer arguments. */
  function Slice<T>(s: seq<T>, start: int, end: int): (slice: seq<T>) {
    var from, to := SliceIndex(start, |s|), SliceIndex(end, |s|);
    if from < to then s[from..to] else []
  }

  /** The rule generateRules stores for the move at index i. JavaScript
      computes the end i + 1 + numMoves / 2 as a float and slice truncates it,
      which for these non-negative values is integer division; the start of
      the 'loses' slice uses Math.floor(numMoves / 2), the same quotient. */
  function RuleAt(moves: seq<string>, i: nat): (rule: Rule)
    requires i < |moves|
  {
    var n := |moves|;
    Rule(Slice(moves, i + 1, i + 1 + n / 2), Slice(moves, i - n / 2, i))
  }

  /** The index of the last occurrence of m among the first n moves. */
  function LastIndex(moves: seq<string>, m: string, n: nat): (k: nat)
    requires n <= |moves| && m in moves[..n]
    ensures k < n && moves[k] == m
    ensures forall j :: k < j < n ==> moves[j] != m
  {
    assert moves[..n] == moves[..n - 1] + [moves[n - 1]];
    if moves[n - 1] == m then n - 1 else LastIndex(moves, m, n - 1)
  }

  /** The table after the first n iterations of generateRules' loop; each
      iteration assigns rules[currentMove], overwriting an earlier entry of the
      same name. */
  function RulesUpTo(moves: seq<string>, n: nat): (rules: map<string, Rule>)
    requires n <= |moves|
  {
    if n == 0 then map[] else RulesUpTo(moves, n - 1)[moves[n - 1] := RuleAt(moves, n - 1)]
  }

  /** After n iterations the table has an entry for exactly the names among
      the first n moves. */
  lemma {:induction false} RulesUpToKeys(moves: seq<string>, n: nat)
    requires n <= |moves|
    ensures forall m :: m in RulesUpTo(moves, n) <==> m in moves[..n]
  {
    if n > 0 {
      RulesUpToKeys(moves, n - 1);
      assert moves[..n] == moves[..n - 1] + [moves[n - 1]];
      forall m
        ensures m in RulesUpTo(moves, n) <==> m in moves[..n]
      {
        assert m in moves[..n] <==> m in moves[..n - 1] || m == moves[n - 1];
      }
    }
  }

  /** After n iterations the entry of a name is the rule built at its last
      occurrence among the first n moves. */
  lemma {:induction false} RulesUpToEntry(moves: seq<string>, n: nat, m: string)
    requires n <= |moves| && m in moves[..n]
    ensures m in RulesUpTo(moves, n)
    ensures RulesUpTo(moves, n)[m] == RuleAt(moves, LastIndex(moves, m, n))
  {
    if moves[n - 1] != m {
      assert moves[..n] == moves[..n - 1] + [moves[n - 1]];
      RulesUpToEntry(moves, n - 1, m);
    }
  }

  /** The table generateRules returns for the whole move list. */
  function Rules(moves: seq<string>): (rules: map<string, Rule>)
    ensures forall m :: m in rules <==> m in moves
  {
    RulesUpToKeys(moves, |moves|);
    assert moves[..|moves|] == moves;
    RulesUpTo(moves, |moves|)
  }

  /** generateRules: fills the table in one pass over the move list. */
  method GenerateRules(moves: seq<string>) returns (rules: map<string, Rule>)
    ensures rules == Rules(moves)
  {
    rules := map[];
    var i := 0;
    while i < |moves|
      invariant i <= |moves|
      invariant rules == RulesUpTo(moves, i)
    {
      rules := rules[moves[i] := RuleAt(moves, i)];
      i := i + 1;
    }
  }

  /** determineWinner: equal moves draw before any lookup; otherwise the player
      wins exactly when the computer's move is on the player's 'wins' list.
      The source fails on a player move missing from the table, so callers
      must pass a move of the list. */
  function DetermineWinner(rules: map<string, Rule>, playerMove: string, computerMove: string): (w: Winner)
    requires playerMove == computerMove || playerMove in rules
    ensures w == Draw <==> playerMove == computerMove
  {
    if playerMove == computerMove then Draw
    else if computerMove in rules[playerMove].wins then Player
    else Computer
  }

  /** The slices of the rule built at index i: 'wins' is the at most N/2
      moves that follow moves[i], clipped at the end of the list, so the last
      move's list is empty; 'loses' is the N/2 moves before it when there are
      that many, and empty otherwise. */
  lemma RuleAtSlices(moves: seq<string>, i: nat)
    requires i < |moves|
    ensures RuleAt(moves, i).wins == moves[i + 1 .. Min(|moves|, i + 1 + |moves| / 2)]
    ensures |RuleAt(moves, i).wins| == Min(|moves| / 2, |moves| - 1 - i)
    ensures RuleAt(moves, i).loses == if i >= |moves| / 2 then moves[i - |moves| / 2 .. i] else []
  {
  }

  /** With distinct names, the entry of moves[i] is the rule built at index i. */
  lemma RuleOfMove(moves: seq<string>, i: nat)
    requires Distinct(moves) && i < |moves|
    ensures moves[i] in Rules(moves)
    ensures Rules(moves)[moves[i]] == RuleAt(moves, i)
  {
    assert moves[..|moves|] == moves;
    RulesUpToEntry(moves, |moves|, moves[i]);
    assert LastIndex(moves, moves[i], |moves|) == i;
  }

  /** The relation by index: for distinct names, moves[i] against moves[j] is a
      draw when i = j, a player win when i < j <= i + N/2, and a computer win
      otherwise, with no wrap-around past the end of the list. For an odd N,
      N/2 is (N-1)/2. */
  lemma WinnerByIndex(moves: seq<string>, i: nat, j: nat)
    requires Distinct(moves) && i < |moves| && j < |moves|
    ensures moves[i] in Rules(moves)
    ensures DetermineWinner(Rules(moves), moves[i], moves[j])
         == if i == j then Draw else if i < j <= i + |moves| / 2 then Player else Computer
  {
    RuleOfMove(moves, i);
    RuleAtSlices(moves, i);
    var rules := Rules(moves);
    var wins := rules[moves[i]].wins;
    WinsContains(moves, i, j, wins);
    if i == j {
    } else if i < j <= i + |moves| / 2 {
      assert moves[j] in wins;
      assert DetermineWinner(rules, moves[i], moves[j]) == Player;
    } else {
      assert moves[j] !in wins;
      assert DetermineWinner(rules, moves[i], moves[j]) == Computer;
    }
  }

  /** Membership in a 'wins' list by index, for distinct names. */
  lemma WinsContains(moves: seq<string>, i: nat, j: nat, wins: seq<string>)
    requires Distinct(moves) && i < |moves| && j < |moves|
    requires wins == moves[i + 1 .. Min(|moves|, i + 1 + |moves| / 2)]
    ensures moves[j] in wins <==> i < j <= i + |moves| / 2
  {
    if i < j <= i + |moves| / 2 {
      assert wins[j - (i + 1)] == moves[j];
    }
  }

  /** A player win is one-sided: if moves[i] beats moves[j], then moves[j]
      against moves[i] is a computer win. */
  lemma PlayerWinIsOneSided(moves: seq<string>, i: nat, j: nat)
    requires Distinct(moves) && i < |moves| && j < |moves|
    requires DetermineWinner(Rules(moves), moves[i], moves[j]) == Player
    ensures DetermineWinner(Rules(moves), moves[j], moves[i]) == Computer
  {
    WinnerByIndex(moves, i, j);
    WinnerByIndex(moves, j, i);
  }

  /** The converse fails: for N >= 3 the first and the last move each lose to
      the other, so the relation is not a tournament. */
  lemma FirstAndLastBothLose(moves: seq<string>)
    requires Distinct(moves) && |moves| >= 3
    ensures moves[0] in Rules(moves) && moves[|moves| - 1] in Rules(moves)
    ensures DetermineWinner(Rules(moves), moves[0], moves[|moves| - 1]) == Computer
    ensures DetermineWinner(Rules(moves), moves[|moves| - 1], moves[0]) == Computer
  {
    WinnerByIndex(moves, 0, |moves| - 1);
    WinnerByIndex(moves, |moves| - 1, 0);
  }

  /** The classic three moves in the order rock, paper, scissors: each move
      beats the one after it, and rock against scissors is a computer win
      whichever side plays rock. */
  lemma RockPaperScissors()
    ensures var moves := ["rock", "paper", "scissors"];
      && DetermineWinner(Rules(moves), "rock", "paper") == Player
      && DetermineWinner(Rules(moves), "paper", "scissors") == Player
      && DetermineWinner(Rules(moves), "paper", "rock") == Computer
      && DetermineWinner(Rules(moves), "rock", "scissors") == Computer
      && DetermineWinner(Rules(moves), "scissors", "rock") == Computer
      && DetermineWinner(Rules(moves), "paper", "paper") == Draw
  {
    var moves := ["rock", "paper", "scissors"];
    assert Distinct(moves);
    WinnerByIndex(moves, 0, 1);
    WinnerByIndex(moves, 1, 2);
    WinnerByIndex(moves, 1, 0);
    WinnerByIndex(moves, 0, 2);
    WinnerByIndex(moves, 2, 0);
  }
}
