/** The play session of game.js (class Game). The computer's move and the
    secret key are fixed when the game is built; play publishes the HMAC of the
    computer's move, shows the menu, then answers one input line after another
    until the line "0".

    Input lines are abstract tokens and the console is a trace of events. The
    random choice of the computer's move, the random key and the HMAC
    primitive are parameters of the constructor. */
module GameSession {
  import opened MoveRules
  import opened HelpTable

  /** One line typed by the player: exactly "0", exactly "?", a line that
      JavaScript reads as the integer k (other than the line "0" itself, for
      instance "00"), or anything else. */
  datatype Token = Exit | Help | Num(k: int) | Other

  /** What the session writes to the console. */
  datatype Event =
    | Commitment(digest: string)     // HMAC: <digest>
    | Menu(moves: seq<string>)       // displayMoves: the numbered moves, 0 - exit, ? - help
    | HelpShown(table: seq<seq<string>>)  // Help Table: and its rows
    | InvalidInput                   // Invalid input. Please try again.
    | Round(playerMove: string, computerMove: string, winner: Winner, key: string)  // showResult
    | Goodbye                        // Goodbye!

  /** The numeric check of play: a number from 1 to N picks a move. */
  predicate ValidChoice(moves: seq<string>, t: Token) {
    t.Num? && 1 <= t.k <= |moves|
  }

  /** The events one token other than "0" produces, in the order of play's
      if/else chain. */
  function Respond(moves: seq<string>, computerMove: string, key: string, t: Token): (events: seq<Event>)
    requires t != Exit
  {
    if t.Help? then [HelpShown(Table(moves))]
    else if !ValidChoice(moves, t) then [InvalidInput, Menu(moves)]
    else
      var playerMove := moves[t.k - 1];
      [Round(playerMove, computerMove, DetermineWinner(Rules(moves), playerMove, computerMove), key)]
  }

  /** The events of play's loop over the input: each token is answered until
      the first "0", which ends the loop with Goodbye. Input that runs out
      before a "0" leaves the loop waiting, with no Goodbye. */
  function Run(moves: seq<string>, computerMove: string, key: string, input: seq<Token>): (trace: seq<Event>)
    decreases |input|
  {
    if input == [] then []
    else if input[0] == Exit then [Goodbye]
    else Respond(moves, computerMove, key, input[0]) + Run(moves, computerMove, key, input[1..])
  }

  /** How many input lines the loop reads: up to and including the first "0",
      or all of them when there is none. */
  function TokensRead(input: seq<Token>): (count: nat)
    decreases |input|
  {
    if input == [] then 0
    else if input[0] == Exit then 1
    else 1 + TokensRead(input[1..])
  }

  /** The Round events of a trace, in order. */
  function Rounds(events: seq<Event>): (rounds: seq<Event>)
    decreases |events|
  {
    if events == [] then []
    else (if events[0].Round? then [events[0]] else []) + Rounds(events[1..])
  }

  class Game {
    const moves: seq<string>
    const key: string
    const computerMove: string
    /** The keyed digest createHmac('sha256', key).update(move).digest('hex'). */
    const hmac: (string, string) -> string
    /** Everything written to the console so far. */
    var output: seq<Event>

    /** The constructor: key and computer move are chosen here and never
        reassigned. computerIndex stands for Math.floor(Math.random() * N),
        which lies in [0, N). */
    constructor(moves: seq<string>, key: string, computerIndex: nat, hmac: (string, string) -> string)
      requires computerIndex < |moves|
      ensures this.moves == moves && this.key == key && this.hmac == hmac
      ensures computerMove == moves[computerIndex] && computerMove in moves
      ensures output == []
    {
      this.moves := moves;
      this.key := key;
      this.computerMove := moves[computerIndex];
      this.hmac := hmac;
      output := [];
    }

    /** computeHMAC: the digest of a move under this game's key. */
    function ComputeHMAC(move: string): (digest: string) {
      hmac(key, move)
    }

    /** displayMoves. */
    method DisplayMoves()
      modifies this
      ensures output == old(output) + [Menu(moves)]
    {
      output := output + [Menu(moves)];
    }

    /** showResult: the player's move, the computer's move, the winner on a
        freshly built rules table, and the key that opens the commitment. */
    method ShowResult(playerMove: string)
      requires playerMove == computerMove || playerMove in moves
      modifies this
      ensures output == old(output)
        + [Round(playerMove, computerMove, DetermineWinner(Rules(moves), playerMove, computerMove), key)]
    {
      var rules := GenerateRules(moves);
      var winner := DetermineWinner(rules, playerMove, computerMove);
      output := output + [Round(playerMove, computerMove, winner, key)];
    }

    /** The body of play's loop for a token other than "0": the help table,
        the invalid-input message with the menu, or one round. */
    method Answer(userMove: Token)
      requires userMove != Exit
      modifies this
      ensures output == old(output) + Respond(moves, computerMove, key, userMove)
    {
      if userMove == Help {
        var table := GenerateTable(moves);
        output := output + [HelpShown(table)];
      } else if !ValidChoice(moves, userMove) {
        output := output + [InvalidInput];
        DisplayMoves();
      } else {
        var playerMove := moves[userMove.k - 1];
        ShowResult(playerMove);
      }
    }

    /** play: the commitment and the menu, then play's while loop: read the
        next token, stop at "0" with Goodbye, otherwise answer it. Returns how
        many tokens were read. Every round written opens the commitment: the
        HMAC of its revealed key and computer move is the published digest. */
    method Play(input: seq<Token>) returns (consumed: nat)
      modifies this
      ensures consumed == TokensRead(input)
      ensures output == old(output) + [Commitment(ComputeHMAC(computerMove)), Menu(moves)]
        + Run(moves, computerMove, key, input)
      ensures forall e :: e in output[|old(output)| + 2..] && e.Round? ==>
        output[|old(output)|] == Commitment(hmac(e.key, e.computerMove))
    {
      output := output + [Commitment(ComputeHMAC(computerMove))];
      DisplayMoves();
      ghost var start := output;
      var pending := input;
      consumed := 0;
      var exited := false;
      while pending != []
        invariant Continue(moves, computerMove, key, output, pending) == Continue(moves, computerMove, key, start, input)
        invariant TokensRead(input) == consumed + TokensRead(pending)
        invariant !exited
      {
        var userMove := pending[0];
        pending := pending[1..];
        consumed := consumed + 1;
        if userMove == Exit {
          exited := true;
          break;
        }
        Answer(userMove);
      }
      if exited {
        output := output + [Goodbye];
      }
      ContinueAppends(moves, computerMove, key, start, input);
      assert start == old(output) + [Commitment(ComputeHMAC(computerMove)), Menu(moves)];
      RoundsUseTheCommitment(moves, computerMove, key, input);
      assert output[|old(output)| + 2..] == Run(moves, computerMove, key, input);
    }
  }

  /** The trace after `written` once the loop has answered `pending`. */
  ghost function Continue(moves: seq<string>, computerMove: string, key: string,
                          written: seq<Event>, pending: seq<Token>): (trace: seq<Event>)
    decreases |pending|
  {
    if pending == [] then written
    else if pending[0] == Exit then written + [Goodbye]
    else Continue(moves, computerMove, key, written + Respond(moves, computerMove, key, pending[0]), pending[1..])
  }

  /** Continuing after `written` appends the trace of the pending tokens. */
  lemma {:induction false} ContinueAppends(moves: seq<string>, computerMove: string, key: string,
                                           written: seq<Event>, pending: seq<Token>)
    ensures Continue(moves, computerMove, key, written, pending) == written + Run(moves, computerMove, key, pending)
    decreases |pending|
  {
    if pending != [] && pending[0] != Exit {
      var answer := Respond(moves, computerMove, key, pending[0]);
      ContinueAppends(moves, computerMove, key, written + answer, pending[1..]);
      assert written + answer + Run(moves, computerMove, key, pending[1..])
          == written + (answer + Run(moves, computerMove, key, pending[1..]));
    }
  }

  /** Rounds distributes over concatenation. */
  lemma {:induction false} RoundsAppend(x: seq<Event>, y: seq<Event>)
    ensures Rounds(x + y) == Rounds(x) + Rounds(y)
    decreases |x|
  {
    if x == [] {
      assert x + y == y;
    } else {
      assert (x + y)[0] == x[0] && (x + y)[1..] == x[1..] + y;
      RoundsAppend(x[1..], y);
    }
  }

  /** A trace without Round events has no rounds. */
  lemma {:induction false} NoRoundsIn(events: seq<Event>)
    requires forall i :: 0 <= i < |events| ==> !events[i].Round?
    ensures Rounds(events) == []
    decreases |events|
  {
    if events != [] {
      NoRoundsIn(events[1..]);
    }
  }

  /** The first "0" ends the session: the trace is the answers to the tokens
      before it followed by Goodbye, whatever comes after it is never read,
      and Goodbye appears nowhere else. */
  lemma {:induction false} ExitEndsSession(moves: seq<string>, computerMove: string, key: string,
                                           before: seq<Token>, after: seq<Token>)
    requires Exit !in before
    ensures Run(moves, computerMove, key, before + [Exit] + after)
         == Run(moves, computerMove, key, before) + [Goodbye]
    ensures TokensRead(before + [Exit] + after) == |before| + 1
    ensures Goodbye !in Run(moves, computerMove, key, before)
    decreases |before|
  {
    if before != [] {
      assert (before + [Exit] + after)[1..] == before[1..] + [Exit] + after;
      ExitEndsSession(moves, computerMove, key, before[1..], after);
    }
  }

  /** Without a "0" every token is read and no Goodbye is written. */
  lemma {:induction false} NoExitReadsAll(moves: seq<string>, computerMove: string, key: string, input: seq<Token>)
    requires Exit !in input
    ensures TokensRead(input) == |input|
    ensures Goodbye !in Run(moves, computerMove, key, input)
    decreases |input|
  {
    if input != [] {
      NoExitReadsAll(moves, computerMove, key, input[1..]);
    }
  }

  /** Every round of a session is played against the one computer move fixed
      at construction and reveals the one key. */
  lemma {:induction false} RoundsUseTheCommitment(moves: seq<string>, computerMove: string, key: string,
                                                  input: seq<Token>)
    ensures forall e :: e in Run(moves, computerMove, key, input) && e.Round? ==>
      e.computerMove == computerMove && e.key == key
    decreases |input|
  {
    if input != [] && input[0] != Exit {
      RoundsUseTheCommitment(moves, computerMove, key, input[1..]);
    }
  }

  /** A help request or an invalid token changes no round: removing it from
      the input leaves the sequence of rounds unchanged. */
  lemma {:induction false} NonMoveTokenChangesNoRound(moves: seq<string>, computerMove: string, key: string,
                                                      before: seq<Token>, t: Token, after: seq<Token>)
    requires t != Exit && !ValidChoice(moves, t)
    ensures Rounds(Run(moves, computerMove, key, before + [t] + after))
         == Rounds(Run(moves, computerMove, key, before + after))
    decreases |before|
  {
    if before == [] {
      assert before + [t] + after == [t] + after && before + after == after;
      assert ([t] + after)[1..] == after;
      var answer := Respond(moves, computerMove, key, t);
      NoRoundsIn(answer);
      RoundsAppend(answer, Run(moves, computerMove, key, after));
    } else if before[0] != Exit {
      assert (before + [t] + after)[1..] == before[1..] + [t] + after;
      assert (before + after)[1..] == before[1..] + after;
      NonMoveTokenChangesNoRound(moves, computerMove, key, before[1..], t, after);
      RoundsAppend(Respond(moves, computerMove, key, before[0]), Run(moves, computerMove, key, before[1..] + [t] + after));
      RoundsAppend(Respond(moves, computerMove, key, before[0]), Run(moves, computerMove, key, before[1..] + after));
    }
  }

  /** The outcome of choosing number k against the computer's move at index c,
      for distinct names: a draw when k - 1 = c, a player win when
      k - 1 < c <= k - 1 + N/2, and a computer win otherwise. */
  lemma RoundByIndex(moves: seq<string>, c: nat, key: string, k: int)
    requires Distinct(moves) && c < |moves| && 1 <= k <= |moves|
    ensures Respond(moves, moves[c], key, Num(k)) == [Round(moves[k - 1], moves[c],
      if k - 1 == c then Draw else if k - 1 < c <= k - 1 + |moves| / 2 then Player else Computer, key)]
  {
    WinnerByIndex(moves, k - 1, c);
    var winner := DetermineWinner(Rules(moves), moves[k - 1], moves[c]);
    assert ValidChoice(moves, Num(k));
    assert Respond(moves, moves[c], key, Num(k)) == [Round(moves[k - 1], moves[c], winner, key)];
  }
}
