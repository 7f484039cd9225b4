/** How a round ends once both sides have submitted (app.js, `endRound`):
    the outcome is chosen from the two histories in a fixed order of
    precedence. */
module Outcome {
  import opened Words
  import opened Scoring

  /** The reasons `endGame` is called with. */
  datatype Reason = BothWon | PlayerWin | OpponentWin | Collision | Draw

  /** What `endRound` schedules: the end of the game, or the next round. */
  datatype Resolution = GameOver(reason: Reason) | AnotherRound

  /** The last verdict of a history is all-correct (no verdict yet: no win). */
  predicate LastWon(boards: seq<seq<Tag>>)
  {
    |boards| > 0 && AllCorrect(Last(boards))
  }

  /** Both histories end with the same word, and that word is not empty. */
  predicate SameLastGuess(playerGuesses: seq<string>, opponentGuesses: seq<string>)
  {
    && |playerGuesses| > 0 && |opponentGuesses| > 0
    && Last(playerGuesses) != ""
    && Last(playerGuesses) == Last(opponentGuesses)
  }

  /** The outcome check of `endRound`: wins first (both, then the player,
      then the opponent), then a collision on the same word, then the draw
      after `maxRounds` player guesses, else the next round. */
  function ResolveRound(playerGuesses: seq<string>, playerBoards: seq<seq<Tag>>,
                        opponentGuesses: seq<string>, opponentBoards: seq<seq<Tag>>,
                        maxRounds: int): (r: Resolution)
    ensures r == GameOver(BothWon) <==> LastWon(playerBoards) && LastWon(opponentBoards)
    ensures r == GameOver(PlayerWin) <==> LastWon(playerBoards) && !LastWon(opponentBoards)
    ensures r == GameOver(OpponentWin) <==> !LastWon(playerBoards) && LastWon(opponentBoards)
    ensures r == GameOver(Collision) <==>
              && !LastWon(playerBoards) && !LastWon(opponentBoards)
              && SameLastGuess(playerGuesses, opponentGuesses)
    ensures r == GameOver(Draw) <==>
              && !LastWon(playerBoards) && !LastWon(opponentBoards)
              && !SameLastGuess(playerGuesses, opponentGuesses)
              && |playerGuesses| >= maxRounds
    ensures r.AnotherRound? <==>
              && !LastWon(playerBoards) && !LastWon(opponentBoards)
              && !SameLastGuess(playerGuesses, opponentGuesses)
              && |playerGuesses| < maxRounds
  {
    var playerWon := LastWon(playerBoards);
    var opponentWon := LastWon(opponentBoards);
    if playerWon && opponentWon then GameOver(BothWon)
    else if playerWon then GameOver(PlayerWin)
    else if opponentWon then GameOver(OpponentWin)
    else if SameLastGuess(playerGuesses, opponentGuesses) then GameOver(Collision)
    else if |playerGuesses| >= maxRounds then GameOver(Draw)
    else AnotherRound
  }

  /** The outcome seen from the other side. */
  function Mirror(r: Resolution): Resolution
  {
    match r
    case GameOver(PlayerWin) => GameOver(OpponentWin)
    case GameOver(OpponentWin) => GameOver(PlayerWin)
    case _ => r
  }

  /** With as many guesses on both sides, swapping the sides swaps the
      winner and changes nothing else. */
  lemma ResolveIsSymmetric(playerGuesses: seq<string>, playerBoards: seq<seq<Tag>>,
                           opponentGuesses: seq<string>, opponentBoards: seq<seq<Tag>>, maxRounds: int)
    requires |playerGuesses| == |opponentGuesses|
    ensures ResolveRound(opponentGuesses, opponentBoards, playerGuesses, playerBoards, maxRounds)
            == Mirror(ResolveRound(playerGuesses, playerBoards, opponentGuesses, opponentBoards, maxRounds))
  {
  }

  /** Both sides guessing one secret, the outcome follows from the words:
      the secret on both sides is a shared win even though the words are
      identical; the secret on one side only is that side's win; the same
      wrong word on both sides is a collision. */
  lemma SameSecretOutcomes(secret: string,
                           playerGuesses: seq<string>, playerBoards: seq<seq<Tag>>,
                           opponentGuesses: seq<string>, opponentBoards: seq<seq<Tag>>, maxRounds: int)
    requires |secret| == WordLength
    requires |playerGuesses| > 0 && |Last(playerGuesses)| == WordLength
    requires |opponentGuesses| > 0 && |Last(opponentGuesses)| == WordLength
    requires |playerBoards| > 0 && Last(playerBoards) == Score(secret, Last(playerGuesses))
    requires |opponentBoards| > 0 && Last(opponentBoards) == Score(secret, Last(opponentGuesses))
    ensures var r := ResolveRound(playerGuesses, playerBoards, opponentGuesses, opponentBoards, maxRounds);
            && (Last(playerGuesses) == secret && Last(opponentGuesses) == secret ==> r == GameOver(BothWon))
            && (Last(playerGuesses) == secret && Last(opponentGuesses) != secret ==> r == GameOver(PlayerWin))
            && (Last(playerGuesses) != secret && Last(opponentGuesses) == secret ==> r == GameOver(OpponentWin))
            && ((Last(playerGuesses) != secret && Last(playerGuesses) == Last(opponentGuesses))
                ==> r == GameOver(Collision))
  {
    WinIffSecret(secret, Last(playerGuesses));
    WinIffSecret(secret, Last(opponentGuesses));
  }
}
