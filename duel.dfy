/** The match controller (app.js, `WordleDuelApp`): both sides submit one
    guess per round, in either order; the round ends when the second of
    the two submission flags becomes true, and only then. Timers become
    recorded pending actions that the environment fires later. */
module Duel {
  import opened Words
  import opened Scoring
  import opened Keyboard
  import opened Game
  import opened AI
  import opened Outcome

  /** `gameMode`: 'ai' or 'multiplayer'. */
  datatype Mode = AgainstAI | Multiplayer

  /** The 2-second timer `endRound` starts: nothing pending, or the
      resolution it will carry out when it fires. */
  datatype Pending = Idle | Scheduled(action: Resolution)

  /** What a local submission does: refused with the alert's text, or sent. */
  datatype LocalSubmit = Refused(message: string) | Sent

  /** One notification of the opponent's record from the shared store. */
  datatype OpponentSnapshot = OpponentSnapshot(
    name: string, guesses: seq<string>, boards: seq<seq<Tag>>, state: string, isTyping: bool)

  /** Everything the controller keeps that a submission could change. */
  datatype AppState = AppState(
    playerSubmitted: bool, opponentSubmitted: bool, aiTimers: nat,
    pendingAction: Pending, finalReason: Option<Reason>, endRoundCalls: nat,
    currentRound: int, playerScore: int, opponentScore: int, roundResults: seq<Reason>,
    opponentName: string,
    playerGuesses: seq<string>, playerBoards: seq<seq<Tag>>, playerKeyboard: map<char, Tag>,
    opponentGuesses: seq<string>, opponentBoards: seq<seq<Tag>>)

  class WordleDuelApp {
    const gameMode: Mode
    const maxRounds: int
    const playerGame: WordleGame
    /** Against the AI, the opponent's own game on the same secret; in
        multiplayer, the mirror of the opponent's guesses and boards. */
    const opponentGame: WordleGame
    const aiOpponent: WordleAI?
    var opponentName: string
    var currentRound: int
    /** `aiGuessTimeout`: how many scheduled AI guesses have neither fired
        nor been cancelled. */
    var aiTimers: nat
    var playerSubmitted: bool
    var opponentSubmitted: bool
    var roundResults: seq<Reason>
    var playerScore: int
    var opponentScore: int
    var pendingAction: Pending
    /** The reason `endGame` showed, once the match is over. */
    var finalReason: Option<Reason>
    /** How many times `endRound` has run in the current round. */
    ghost var endRoundCalls: nat

    /** The objects are wired up: against the AI there is an AI opponent and
        its game shares the player's secret. */
    ghost predicate WellFormed()
      reads this, playerGame, opponentGame, aiOpponent
    {
      && maxRounds == MaxGuesses
      && playerGame != opponentGame
      && playerGame.Valid()
      && (gameMode == AgainstAI <==> aiOpponent != null)
      && (gameMode == AgainstAI ==>
            aiOpponent.Valid() && opponentGame.Valid() && opponentGame.targetWord == playerGame.targetWord)
    }

    /** The round counter, the scores and the round results keep the values
        `startGame` gives them: nothing in the controller advances them. */
    ghost predicate ScoreboardAtStart()
      reads this
    {
      currentRound == 1 && playerScore == 0 && opponentScore == 0 && roundResults == []
    }

    /** The round invariant: `endRound` has run exactly when both flags are
        set (so at most once per round), and then its timer is pending or the
        match is over; exactly one AI guess is pending while the AI has not
        submitted this round, and none otherwise. */
    ghost predicate Valid()
      reads this, playerGame, opponentGame, aiOpponent
    {
      && WellFormed()
      && ScoreboardAtStart()
      && endRoundCalls == (if playerSubmitted && opponentSubmitted then 1 else 0)
      && ((playerSubmitted && opponentSubmitted) <==> (pendingAction.Scheduled? || finalReason.Some?))
      && (pendingAction.Scheduled? ==> finalReason.None?)
      && (gameMode == AgainstAI ==> aiTimers == (if opponentSubmitted then 0 else 1))
      && (gameMode == Multiplayer ==> aiTimers == 0)
    }

    ghost function State(): AppState
      reads this, playerGame, opponentGame
    {
      AppState(playerSubmitted, opponentSubmitted, aiTimers, pendingAction, finalReason, endRoundCalls,
               currentRound, playerScore, opponentScore, roundResults, opponentName,
               playerGame.guesses, playerGame.boards, playerGame.keyboardState,
               opponentGame.guesses, opponentGame.boards)
    }

    /** The resolution `endRound` computes from the current histories. */
    ghost function CurrentResolution(): Resolution
      reads this, playerGame, opponentGame
    {
      ResolveRound(playerGame.guesses, playerGame.boards, opponentGame.guesses, opponentGame.boards, maxRounds)
    }

    /** The round number shown on screen. */
    function DisplayedRound(): (r: int)
      reads playerGame
      ensures r >= 1
    {
      |playerGame.guesses| + 1
    }

    /** `playAI`: both sides get the same secret, drawn from the answer
        list; then `startGame`. */
    constructor PlayAI(targetWord: string, answerWords: seq<string>, validWords: seq<string>)
      requires targetWord in answerWords && AllWordLength(answerWords) && AllWordLength(validWords)
      ensures Valid()
      ensures gameMode == AgainstAI && fresh(playerGame) && fresh(opponentGame)
      ensures playerGame.targetWord == Upper(targetWord) && playerGame.guesses == []
      ensures opponentGame.targetWord == Upper(targetWord) && opponentGame.guesses == []
      ensures aiOpponent != null && fresh(aiOpponent) && aiOpponent.possibleWords == answerWords
      ensures currentRound == 1 && playerScore == 0 && opponentScore == 0 && roundResults == []
      ensures !playerSubmitted && !opponentSubmitted && aiTimers == 1 && pendingAction == Idle
    {
      gameMode := AgainstAI;
      maxRounds := MaxGuesses;
      opponentName := "AI";
      playerGame := new WordleGame(targetWord, validWords);
      opponentGame := new WordleGame(targetWord, validWords);
      aiOpponent := new WordleAI("medium", answerWords);
      currentRound := 1;
      aiTimers := 0;
      playerSubmitted := false;
      opponentSubmitted := false;
      roundResults := [];
      playerScore := 0;
      opponentScore := 0;
      pendingAction := Idle;
      finalReason := None;
      endRoundCalls := 0;
      new;
      StartGame();
    }

    /** `joinMultiplayer`: this side draws its own secret; the opponent's
        record starts empty; then `startGame`. */
    constructor JoinMultiplayer(target: string, answerWords: seq<string>, validWords: seq<string>)
      requires target in answerWords && AllWordLength(answerWords) && AllWordLength(validWords)
      ensures Valid()
      ensures gameMode == Multiplayer && fresh(playerGame) && fresh(opponentGame) && aiOpponent == null
      ensures playerGame.targetWord == Upper(target) && playerGame.guesses == []
      ensures opponentGame.guesses == [] && opponentGame.boards == []
      ensures currentRound == 1 && playerScore == 0 && opponentScore == 0 && roundResults == []
      ensures !playerSubmitted && !opponentSubmitted && aiTimers == 0 && pendingAction == Idle
    {
      gameMode := Multiplayer;
      maxRounds := MaxGuesses;
      opponentName := "Opponent";
      playerGame := new WordleGame(target, validWords);
      opponentGame := new WordleGame(target, validWords);
      aiOpponent := null;
      currentRound := 1;
      aiTimers := 0;
      playerSubmitted := false;
      opponentSubmitted := false;
      roundResults := [];
      playerScore := 0;
      opponentScore := 0;
      pendingAction := Idle;
      finalReason := None;
      endRoundCalls := 0;
      new;
      StartGame();
    }

    /** `startGame`: resets the round counter, both scores and the round
        results, and opens the first round. */
    method StartGame()
      requires WellFormed() && pendingAction == Idle && finalReason == None
      requires gameMode == Multiplayer ==> aiTimers == 0
      modifies this
      ensures Valid()
      ensures currentRound == 1 && playerScore == 0 && opponentScore == 0 && roundResults == []
      ensures !playerSubmitted && !opponentSubmitted && endRoundCalls == 0 && pendingAction == Idle
      ensures aiTimers == (if gameMode == AgainstAI then 1 else 0)
      ensures opponentName == old(opponentName) && finalReason == None
    {
      currentRound := 1;
      playerScore := 0;
      opponentScore := 0;
      roundResults := [];
      StartRound();
    }

    /** `startRound`: clears both submission flags and, against the AI,
        schedules the AI's guess. */
    method StartRound()
      requires WellFormed() && ScoreboardAtStart() && pendingAction == Idle && finalReason == None
      requires gameMode == Multiplayer ==> aiTimers == 0
      modifies this
      ensures Valid()
      ensures !playerSubmitted && !opponentSubmitted && endRoundCalls == 0
      ensures aiTimers == (if gameMode == AgainstAI then 1 else 0)
      ensures pendingAction == Idle && finalReason == None
      ensures currentRound == old(currentRound) && playerScore == old(playerScore)
      ensures opponentScore == old(opponentScore) && roundResults == old(roundResults)
      ensures opponentName == old(opponentName)
    {
      playerSubmitted := false;
      opponentSubmitted := false;
      endRoundCalls := 0;
      if gameMode == AgainstAI {
        ScheduleAIGuess();
      }
    }

    /** `scheduleAIGuess`: cancels the pending AI guess, if any, before
        scheduling the new one, so exactly one is pending afterwards. */
    method ScheduleAIGuess()
      modifies this
      ensures aiTimers == 1
      ensures State() == old(State()).(aiTimers := 1)
    {
      if aiTimers > 0 {
        aiTimers := 0;
      }
      aiTimers := aiTimers + 1;
    }

    /** `submitGuess` (local): refused, with nothing changed, when this side
        has already submitted this round, when the trimmed input is not five
        characters long, or when the game rejects the word. Otherwise the
        guess is recorded, the player's flag is set, and the round ends here
        exactly when the opponent had already submitted. */
    method SubmitGuess(input: string) returns (status: LocalSubmit)
      requires Valid()
      modifies this, playerGame
      ensures Valid()
      ensures old(playerSubmitted) ==> status == Refused("Already submitted this round")
      ensures !old(playerSubmitted) && |Trim(input)| != WordLength ==> status == Refused("Enter 5-letter word")
      ensures !old(playerSubmitted) && |Trim(input)| == WordLength && !old(playerGame.IsValidWord(Trim(input))) ==>
                status == Refused("Not in word list")
      ensures status.Refused? ==> State() == old(State())
      ensures status == Sent <==>
                !old(playerSubmitted) && |Trim(input)| == WordLength && old(playerGame.IsValidWord(Trim(input)))
      ensures status == Sent ==>
                var g := Upper(Trim(input));
                var verdict := Score(playerGame.targetWord, g);
                && playerSubmitted
                && opponentSubmitted == old(opponentSubmitted)
                && playerGame.guesses == old(playerGame.guesses) + [g]
                && playerGame.boards == old(playerGame.boards) + [verdict]
                && playerGame.keyboardState == Recorded(old(playerGame.keyboardState), g, verdict, WordLength)
                && DisplayedRound() == old(DisplayedRound()) + 1
                && opponentGame.guesses == old(opponentGame.guesses)
                && opponentGame.boards == old(opponentGame.boards)
                && opponentName == old(opponentName) && finalReason == old(finalReason)
                && endRoundCalls == old(endRoundCalls) + (if old(opponentSubmitted) then 1 else 0)
                && (old(opponentSubmitted) ==> pendingAction == Scheduled(CurrentResolution()) && aiTimers == 0)
                && (!old(opponentSubmitted) ==> pendingAction == old(pendingAction) && aiTimers == old(aiTimers))
    {
      if playerSubmitted {
        return Refused("Already submitted this round");
      }

      var guess := Trim(input);

      if |guess| != WordLength {
        return Refused("Enter 5-letter word");
      }

      status := SendGuess(guess);
    }

    /** A five-letter guess on a round this side has not yet submitted: the
        game rejects it with nothing changed, or it is recorded, the
        player's flag is set, and the round ends here exactly when the
        opponent had already submitted. */
    method SendGuess(guess: string) returns (status: LocalSubmit)
      requires Valid() && !playerSubmitted && |guess| == WordLength
      modifies this, playerGame
      ensures Valid()
      ensures status == Sent <==> old(playerGame.IsValidWord(guess))
      ensures status.Refused? ==> status == Refused("Not in word list") && State() == old(State())
      ensures status == Sent ==>
                var g := Upper(guess);
                var verdict := Score(playerGame.targetWord, g);
                && playerSubmitted
                && opponentSubmitted == old(opponentSubmitted)
                && playerGame.guesses == old(playerGame.guesses) + [g]
                && playerGame.boards == old(playerGame.boards) + [verdict]
                && playerGame.keyboardState == Recorded(old(playerGame.keyboardState), g, verdict, WordLength)
                && DisplayedRound() == old(DisplayedRound()) + 1
                && opponentGame.guesses == old(opponentGame.guesses)
                && opponentGame.boards == old(opponentGame.boards)
                && opponentName == old(opponentName) && finalReason == old(finalReason)
                && endRoundCalls == old(endRoundCalls) + (if old(opponentSubmitted) then 1 else 0)
                && (old(opponentSubmitted) ==> pendingAction == Scheduled(CurrentResolution()) && aiTimers == 0)
                && (!old(opponentSubmitted) ==> pendingAction == old(pendingAction) && aiTimers == old(aiTimers))
    {
      var result := RecordPlayerGuess(guess);

      if !result.Accepted? {
        return Refused(result.message);
      }

      status := Sent;
      MarkPlayerSubmitted();
    }

    /** The end of an accepted local submission: the player's flag is set,
        and `endRound` runs exactly when the opponent had already submitted. */
    method MarkPlayerSubmitted()
      requires Valid() && !playerSubmitted
      modifies this
      ensures Valid()
      ensures playerSubmitted && opponentSubmitted == old(opponentSubmitted)
      ensures opponentName == old(opponentName) && finalReason == old(finalReason)
      ensures endRoundCalls == old(endRoundCalls) + (if old(opponentSubmitted) then 1 else 0)
      ensures old(opponentSubmitted) ==> pendingAction == Scheduled(CurrentResolution()) && aiTimers == 0
      ensures !old(opponentSubmitted) ==> pendingAction == old(pendingAction) && aiTimers == old(aiTimers)
    {
      playerSubmitted := true;

      if gameMode == AgainstAI && opponentSubmitted {
        EndRound();
      } else if gameMode == Multiplayer && opponentSubmitted {
        EndRound();
      }
    }

    /** The player's game takes the guess: rejected with nothing changed, or
        recorded with its verdict and keyboard colours. */
    method RecordPlayerGuess(guess: string) returns (result: SubmitResult)
      requires WellFormed()
      modifies playerGame
      ensures WellFormed()
      ensures result.Accepted? <==> old(playerGame.IsValidWord(guess))
      ensures !result.Accepted? ==>
                result == Rejected("Not in word list")
                && playerGame.guesses == old(playerGame.guesses) && playerGame.boards == old(playerGame.boards)
                && playerGame.keyboardState == old(playerGame.keyboardState)
      ensures result.Accepted? ==>
                var g := Upper(guess);
                var verdict := Score(playerGame.targetWord, g);
                && playerGame.guesses == old(playerGame.guesses) + [g]
                && playerGame.boards == old(playerGame.boards) + [verdict]
                && playerGame.keyboardState == Recorded(old(playerGame.keyboardState), g, verdict, WordLength)
      ensures playerGame.currentGuess == old(playerGame.currentGuess)
    {
      result := playerGame.SubmitGuess(guess);
    }

    /** `makeAIGuess`, run when the scheduled AI guess fires: the AI plays a
        candidate, its game records it when the word list accepts it, the
        opponent's flag is set either way, and the round ends here exactly
        when the player had already submitted. */
    method MakeAIGuess()
      requires Valid() && gameMode == AgainstAI && aiTimers > 0
      modifies this, opponentGame, aiOpponent
      ensures Valid()
      ensures opponentSubmitted && aiTimers == 0
      ensures playerSubmitted == old(playerSubmitted)
      ensures opponentName == old(opponentName) && finalReason == old(finalReason)
      ensures var narrowed := if |old(opponentGame.guesses)| > 0
                              then Filtered(old(aiOpponent.possibleWords),
                                            Last(old(opponentGame.guesses)), Last(old(opponentGame.boards)))
                              else old(aiOpponent.possibleWords);
              aiOpponent.possibleWords == if narrowed == [] then aiOpponent.answers else narrowed
      ensures exists w :: w in aiOpponent.possibleWords
                          && opponentGame.guesses == old(opponentGame.guesses)
                               + (if old(opponentGame.IsValidWord(w)) then [Upper(w)] else [])
      ensures endRoundCalls == old(endRoundCalls) + (if old(playerSubmitted) then 1 else 0)
      ensures old(playerSubmitted) ==> pendingAction == Scheduled(CurrentResolution())
      ensures !old(playerSubmitted) ==> pendingAction == old(pendingAction)
    {
      aiTimers := aiTimers - 1;
      PlayAIMove();
      opponentSubmitted := true;

      if playerSubmitted {
        EndRound();
      }
    }

    /** The move itself: the AI narrows its candidates with its game's last
        guess and verdict, picks one, and the game submits its upper-cased
        form, which the word list accepts exactly when it holds the
        candidate itself. */
    method PlayAIMove()
      requires WellFormed() && gameMode == AgainstAI
      modifies opponentGame, aiOpponent
      ensures WellFormed()
      ensures var narrowed := if |old(opponentGame.guesses)| > 0
                              then Filtered(old(aiOpponent.possibleWords),
                                            Last(old(opponentGame.guesses)), Last(old(opponentGame.boards)))
                              else old(aiOpponent.possibleWords);
              aiOpponent.possibleWords == if narrowed == [] then aiOpponent.answers else narrowed
      ensures exists w :: w in aiOpponent.possibleWords
                          && opponentGame.guesses == old(opponentGame.guesses)
                               + (if old(opponentGame.IsValidWord(w)) then [Upper(w)] else [])
    {
      var guess := aiOpponent.MakeGuess(opponentGame.guesses, opponentGame.boards);
      ghost var w :| w in aiOpponent.possibleWords && guess == Upper(w);
      UpperIdempotent(w);
      ValidityIgnoresUpperCase(opponentGame, w);
      ghost var accepted := opponentGame.IsValidWord(guess);

      var result := opponentGame.SubmitGuess(guess);
      assert opponentGame.guesses == old(opponentGame.guesses) + (if accepted then [Upper(w)] else []);
    }

    /** The opponent-state callback: the opponent's guesses and boards are
        replaced by the snapshot's; the opponent's flag is set only when the
        snapshot says 'submitted', it has as many guesses as this side and
        the flag was still clear; the round ends here only if this side has
        submitted too. Nothing else changes: a late snapshot does not touch
        a finished match. */
    method OnOpponentStateChange(snapshot: OpponentSnapshot)
      requires Valid() && gameMode == Multiplayer
      modifies this, opponentGame
      ensures Valid()
      ensures opponentName == snapshot.name
      ensures opponentGame.guesses == snapshot.guesses && opponentGame.boards == snapshot.boards
      ensures playerSubmitted == old(playerSubmitted) && finalReason == old(finalReason)
      ensures var marks := !old(opponentSubmitted) && snapshot.state == "submitted"
                           && |snapshot.guesses| == |playerGame.guesses|;
              && opponentSubmitted == (old(opponentSubmitted) || marks)
              && endRoundCalls == old(endRoundCalls) + (if marks && old(playerSubmitted) then 1 else 0)
              && (marks && old(playerSubmitted) ==> pendingAction == Scheduled(CurrentResolution()))
              && (!(marks && old(playerSubmitted)) ==> pendingAction == old(pendingAction))
    {
      opponentName := snapshot.name;

      opponentGame.guesses := snapshot.guesses;
      opponentGame.boards := snapshot.boards;

      var opponentRoundCount := |snapshot.guesses|;
      var myRoundCount := |playerGame.guesses|;

      if opponentRoundCount >= myRoundCount && snapshot.state == "submitted" {
        if opponentRoundCount == myRoundCount && !opponentSubmitted {
          opponentSubmitted := true;
          if playerSubmitted {
            EndRound();
          }
        }
      }
    }

    /** `endRound`: cancels a pending AI guess and schedules what the
        outcome check decides. */
    method EndRound()
      requires WellFormed() && ScoreboardAtStart() && playerSubmitted && opponentSubmitted
      requires endRoundCalls == 0 && pendingAction == Idle && finalReason == None
      modifies this
      ensures Valid()
      ensures aiTimers == 0 && endRoundCalls == 1 && pendingAction == Scheduled(CurrentResolution())
      ensures playerSubmitted && opponentSubmitted && finalReason == None && opponentName == old(opponentName)
    {
      aiTimers := 0;
      endRoundCalls := endRoundCalls + 1;

      var playerLastGuess := if |playerGame.guesses| > 0 then Some(Last(playerGame.guesses)) else None;
      var opponentLastGuess := if |opponentGame.guesses| > 0 then Some(Last(opponentGame.guesses)) else None;
      var playerWon := LastWon(playerGame.boards);
      var opponentWon := LastWon(opponentGame.boards);

      if playerWon && opponentWon {
        pendingAction := Scheduled(GameOver(BothWon));
      } else if playerWon {
        pendingAction := Scheduled(GameOver(PlayerWin));
      } else if opponentWon {
        pendingAction := Scheduled(GameOver(OpponentWin));
      } else if playerLastGuess.Some? && playerLastGuess.value != "" && opponentLastGuess.Some?
                && playerLastGuess == opponentLastGuess {
        pendingAction := Scheduled(GameOver(Collision));
      } else if |playerGame.guesses| >= maxRounds {
        pendingAction := Scheduled(GameOver(Draw));
      } else {
        pendingAction := Scheduled(AnotherRound);
      }
    }

    /** The 2-second timer of `endRound` fires: either the next round opens
        or the game ends with the scheduled reason. */
    method FirePendingAction()
      requires Valid() && pendingAction.Scheduled?
      modifies this
      ensures Valid()
      ensures pendingAction == Idle
      ensures opponentName == old(opponentName)
      ensures old(pendingAction.action) == AnotherRound ==>
                !playerSubmitted && !opponentSubmitted && endRoundCalls == 0
                && aiTimers == (if gameMode == AgainstAI then 1 else 0) && finalReason == None
      ensures old(pendingAction.action).GameOver? ==>
                State() == old(State()).(pendingAction := Idle, finalReason := Some(old(pendingAction.action.reason)))
    {
      var action := pendingAction.action;
      pendingAction := Idle;
      match action
      case AnotherRound => NextRound();
      case GameOver(reason) => EndGame(reason);
    }

    /** `nextRound`: the guesses persist; a new round opens. */
    method NextRound()
      requires WellFormed() && ScoreboardAtStart() && pendingAction == Idle && finalReason == None
      requires gameMode == Multiplayer ==> aiTimers == 0
      modifies this
      ensures Valid()
      ensures !playerSubmitted && !opponentSubmitted && endRoundCalls == 0
      ensures aiTimers == (if gameMode == AgainstAI then 1 else 0) && pendingAction == Idle && finalReason == None
      ensures opponentName == old(opponentName)
    {
      StartRound();
    }

    /** `endGame`: the result screen shows `reason`; nothing else changes. */
    method EndGame(reason: Reason)
      modifies this
      ensures finalReason == Some(reason)
      ensures State() == old(State()).(finalReason := Some(reason))
    {
      finalReason := Some(reason);
    }
  }
}
