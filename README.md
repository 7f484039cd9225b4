# Wordle Duel — a verified model of its game logic

Wordle Duel is a browser game in which two sides guess one five-letter word
each, round by round. The opponent is either a computer player or a remote
human. This project models its three pieces of logic in Dafny and proves
properties about them:

- **The per-player game record** (`WordleGame`, game.js), in `game.dfy`.
  - The two-pass scoring of a guess against the secret works on arrays. It is
    proved equal to a closed-form verdict `Scoring.Score`, which is stated
    position by position in `scoring.dfy`.
  - Submission appends the guess and its verdict, and upgrades the keyboard
    colouring. The colouring's rule lives in `keyboard.dfy`.
- **The computer opponent** (`WordleAI`, ai.js), in `ai.dfy`. It keeps the
  candidate answers that agree with the verdict on its own last guess. It
  falls back to the whole answer list when none is left, and plays some
  candidate.
- **The match controller** (`WordleDuelApp`, app.js), in `duel.dfy`. Its
  outcome check is the pure function in `outcome.dfy`.
  - Each side sets one submission flag per round, in either order.
  - The round ends when the second flag is set, and only then. The ghost
    counter `endRoundCalls` and the class invariant `Valid` show that
    `endRound` runs at most once per round.
  - The 2-second timer that `endRound` starts becomes the `pendingAction`
    field. `FirePendingAction` is that timer firing.
  - The AI's delayed guess becomes `aiTimers`, the number of live AI
    timers. `MakeAIGuess` is such a timer firing. The invariant keeps at
    most one alive.

`words.dfy` holds the shared vocabulary: the tags, ASCII case mapping,
trimming, and counting helpers.

## Model

| member | source | states |
|---|---|---|
| Scoring.Score | game.js:11-38 | the verdict has exactly five tags, one per position |
| Scoring.CorrectIffSameLetter | game.js:18-24 | a position is tagged correct exactly when guess and secret hold the same letter there; the second pass never produces correct |
| Scoring.DuplicateLetterRule | game.js:17-35 | for every letter, the number of non-absent tags on it equals the smaller of its counts (`Words.Count`) in the guess and in the secret |
| Scoring.PresentMeansElsewhere | game.js:27-34 | a present tag sits on a letter that differs from the secret's letter there and that the secret holds at another position |
| Scoring.WinIffSecret | game.js:59 | the verdict is all correct exactly when the guess is the secret, so the secret scores all correct against itself |
| Scoring.AlloyLlama | game.js:17-35 | against ALLOY, LLAMA scores present, correct, present, absent, absent: both L's count, only one A does |
| Scoring.CountSplit | game.js:18-24 | the copies of a letter in a word split into the exact matches and the unmatched copies; exact matches are symmetric |
| Scoring.MaskedCount | game.js:17-24 | the working copy left by the first pass holds exactly the unmatched copies of each letter |
| Scoring.NonAbsentPrefix | game.js:26-35 | per letter, the non-absent tags in a prefix of the guess are the exact matches plus the copies the prefix could claim |
| Scoring.UnmatchedWitness | game.js:28-29 | an unmatched copy of a letter exists at some position that is not an exact match |
| Scoring.UnmatchedFromWitness | game.js:28-29 | a position holding the letter that is not an exact match makes the unmatched count positive |
| Words.IndexOf | game.js:29 | `indexOf`: -1 when the value is absent; otherwise the position of its first occurrence |
| Words.CountPositive | game.js:29-30 | a value occurs in a sequence exactly when its count is positive |
| Words.CountUpdate | game.js:32 | blanking one entry of the working copy lowers that letter's count by one and changes no other letter's count |
| Words.Trim | app.js:300 | the trimmed input is no longer than the input and neither starts nor ends with white space |
| Words.TrimKeepsTheMiddle | app.js:300 | the trimmed input is one contiguous piece of the input, and everything cut off before and after it is white space |
| Words.Upper | game.js:4 | upper-casing keeps the length, leaves no lower-case ASCII letter, and keeps every character that is not one |
| Words.Lower | game.js:64 | lower-casing keeps the length, leaves no upper-case ASCII letter, and keeps every character that is not one |
| Words.LowerOfUpper | game.js:64 | a word and its upper-cased form lower-case to the same word |
| Words.UpperIdempotent | ai.js:20 | upper-casing a word that is already upper-cased changes nothing |
| Game.UnclaimedAtStart | game.js:17-24 | after the first pass, every unmatched copy of the secret is still unclaimed |
| Game.ClaimStep | game.js:28-33 | an unmatched guess letter finds a copy exactly when its tag is present; claiming the copy keeps the unclaimed counts in step |
| Game.SkipStep | game.js:28 | an exactly matched position is tagged correct and claims nothing |
| Game.MarkCorrect | game.js:17-24 | the first pass tags exact matches correct and blanks them in both working copies, leaving every other tag absent |
| Game.WordleGame.UpdateKeyboard | game.js:49-57 | the keyboard loop leaves exactly the colouring `Recorded` defines and touches no guess or verdict |
| Game.ValidityIgnoresUpperCase | game.js:63-65 | the word list accepts a word's upper-cased form exactly when it accepts the word, so the AI's upper-cased move (ai.js:20) is accepted exactly when its answer word is in the list |
| Game.MarkPresent | game.js:26-35 | the second pass turns the tags into the verdict `Score` defines |
| Game.WordleGame.constructor | game.js:3-9 | the secret is stored upper-cased; guesses, verdicts, current guess and keyboard start empty |
| Game.WordleGame.IsValidWord | game.js:63-65 | only a word whose lower-cased form is in the word list is accepted, and such a word has five letters |
| Game.WordleGame.EvaluateGuess | game.js:11-38 | the two passes over the working arrays produce exactly `Score(secret, upper-cased guess)` |
| Game.WordleGame.SubmitGuess | game.js:40-61 | a rejected word answers "Not in word list" and changes nothing; an accepted word appends its upper-cased form and verdict, records the verdict on the keyboard, and answers `isWin` (all correct, i.e. the secret) and `isDone` (a win or six guesses) |
| Keyboard.Recorded | game.js:50-57 | the keyboard rule applied letter by letter over a guess; no letter already on the keyboard is lost, and the last letter recorded is on the keyboard |
| Keyboard.NeverDowngrades | game.js:50-57 | a letter already on the keyboard stays there and its colour never ranks lower |
| Keyboard.CorrectStaysCorrect | game.js:52-55 | a letter coloured correct stays correct |
| Keyboard.RecordsEveryTag | game.js:50-57 | every guessed letter is on the keyboard, ranked at least as high as each tag it received |
| Keyboard.OnlyRecordedColours | game.js:50-57 | the keyboard's letters are the old ones plus the guessed ones, and each colour is the old colour or a tag that letter received |
| AI.Agrees | ai.js:37-56 | the reading of a verdict the opponent filters with; after an all-correct verdict exactly one word agrees, the guess itself |
| AI.WordleAI.MatchesConstraints | ai.js:32-59 | the two early-return scans accept a word exactly when it agrees with every correct, absent and present tag |
| AI.AgreesIffScoreWithoutRepeats | ai.js:32-59 | for a guess with no repeated letter, a word passes exactly when, taken as the secret, it would have produced the same verdict |
| AI.SecretFilteredOut | ai.js:41-43 | the absent test can reject the secret itself: with ALOFT as the secret, the verdict on LLAMA tags the first L absent and ALOFT fails the test |
| AI.SecretSurvivesWithoutRepeats | ai.js:23-30 | with a guess that repeats no letter, the secret survives filtering on the verdict it produced |
| AI.Filtered | ai.js:27-29 | filtering never lengthens the candidate list |
| AI.FilteredIsSubsequence | ai.js:27-29 | the survivors keep their relative order: an order-preserving subsequence of the candidates |
| AI.FilteredMembers | ai.js:27-29 | a word survives exactly when it was a candidate and its upper-cased form passes the test |
| AI.WordleAI.constructor | ai.js:3-6 | the candidates start as the whole answer list |
| AI.WordleAI.UpdatePossibleWords | ai.js:23-30 | the candidates become those that agree with the last guess and last verdict only |
| AI.WordleAI.MakeGuess | ai.js:8-21 | the candidates are filtered only when there is a previous guess and reset to the answer list when none is left; the move is the upper-cased form of some remaining candidate |
| Outcome.ResolveRound | app.js:422-473 | each outcome holds exactly when its step of the precedence is the first to apply: both won when both last verdicts are all correct; a side's win when only its last verdict is; a collision when neither won and the last guesses are the same non-empty word; a draw when none of those and the player has made `maxRounds` guesses; else the next round |
| Outcome.ResolveIsSymmetric | app.js:430-473 | with as many guesses on both sides, swapping the sides swaps the two wins and changes no other outcome |
| Outcome.SameSecretOutcomes | app.js:422-459 | on a shared secret: both guessing it is both_won, one guessing it is that side's win, and the same wrong word is a collision |
| Duel.WordleDuelApp.PlayAI | app.js:78-91 | both games get the same upper-cased secret and the AI starts from the answer list; the first round is open and the AI guess is scheduled |
| Duel.WordleDuelApp.JoinMultiplayer | app.js:136-147 | this side's game gets its own secret, the opponent's record starts empty, and the first round is open |
| Duel.WordleDuelApp.StartGame | app.js:241-248 | the round counter is 1, both scores 0 and the round results empty; both flags are clear |
| Duel.WordleDuelApp.StartRound | app.js:251-283 | both flags are clear and, against the AI, exactly one AI timer is live; in multiplayer none is |
| Duel.WordleDuelApp.ScheduleAIGuess | app.js:351-358 | the live AI timer, if any, is cancelled before the new one starts, so exactly one is live afterwards; nothing else changes |
| Duel.WordleDuelApp.SubmitGuess | app.js:294-341 | refused with its alert text and nothing changed when already submitted, when the trimmed input is not five characters, or when the game rejects the word; otherwise the upper-cased guess, its verdict and the keyboard colouring are recorded, the displayed round advances, the player's flag is set, the opponent's record, name and the match result stay, and `endRound` runs exactly when the opponent had submitted |
| Duel.WordleDuelApp.SendGuess | app.js:307-340 | a five-letter guess on an open round: refused with "Not in word list" and nothing changed when the game rejects it; otherwise recorded with its verdict and keyboard colouring, the displayed round advances, the player's flag is set, and `endRound` runs exactly when the opponent had submitted |
| Duel.WordleDuelApp.MarkPlayerSubmitted | app.js:314-340 | the player's flag is set, the opponent's flag, name and the match result stay, and `endRound` runs exactly when the opponent had submitted |
| Duel.WordleDuelApp.RecordPlayerGuess | app.js:307-312 | the player's game rejects the word with nothing changed, or records its upper-cased form, its verdict and the keyboard colouring, as its word list says |
| Duel.WordleDuelApp.MakeAIGuess | app.js:361-374 | the firing timer is no longer live; the AI narrows its candidates as `makeGuess` does and its move is recorded when its game accepts the candidate; the opponent's flag is set either way, the name and match result stay, and `endRound` runs exactly when the player had submitted |
| Duel.WordleDuelApp.PlayAIMove | app.js:362-367 | the AI's candidates are narrowed by its game's last guess and verdict and reset when empty; the opponent's game grows by the upper-cased candidate picked, or not at all if the word list rejects that candidate |
| Duel.WordleDuelApp.DisplayedRound | app.js:261-262 | the round shown counts from 1; `SubmitGuess` and `SendGuess` state that it advances by one with each accepted guess |
| Duel.WordleDuelApp.OnOpponentStateChange | app.js:175-235 | the opponent's guesses and verdicts are replaced by the snapshot's; the flag is set only on 'submitted' with equal guess counts and the flag clear; `endRound` runs only if the player has submitted too; the match result never changes |
| Duel.WordleDuelApp.EndRound | app.js:413-474 | every AI timer is cancelled and the outcome `ResolveRound` computes is scheduled; it runs once in the round, and the flags, name and scoreboard stay |
| Duel.WordleDuelApp.FirePendingAction | app.js:433-473 | the scheduled timer fires: the next round opens with both flags clear, or the game ends with the scheduled reason and nothing else changes; the opponent's name stays either way |
| Duel.WordleDuelApp.NextRound | app.js:497-510 | guesses persist and a new round opens with both flags clear; the opponent's name stays |
| Duel.WordleDuelApp.EndGame | app.js:513-536 | the match is over with the given reason; nothing else changes |

## Left out

- Network synchronisation is not modelled: the shared database, rooms, player ids and listeners (firebase-sync.js). Its notifications are the inputs of `OnOpponentStateChange`. The snapshot's `state` is a free input because the store's write drops the 'submitted'/'playing' argument. The writes the app makes (`syncGameState`, the typing indicator, `leaveRoom`) are not modelled.
- DOM and rendering are not modelled: boards, keyboard, screens, status texts, input enabling, `revealGuesses`, the result text of `endGame`, `createRoom`/`joinRoom`/`init`, and the multiplayer roster listener with `waitingForOpponent`.
- Random choices become nondeterminism: the secret is any answer word (a constructor parameter constrained to the list), and the AI's pick is any candidate. `getDelay` and real time are not modelled; the timers are the pending fields.
- The word lists are constructor parameters: the answer list of the AI and the game's dictionary. Their contents and loading are not part of this model.
- Case mapping covers ASCII letters only. `Words.Trim` strips only space, tab, line feed and carriage return, not every Unicode white-space character `trim` strips.
- In multiplayer the opponent's record is a plain `{guesses, boards}` object. It is modelled as a `WordleGame` whose secret, dictionary and keyboard are never read, and its verdicts are not required to be scores.
- `opponentData.guesses || []` is modelled by snapshots that always carry sequences.
- `currentRound`, `playerScore`, `opponentScore` and `roundResults` are reset by `startGame` and never advanced, as in the code; the class invariant (`ScoreboardAtStart`) keeps them at their start values. The displayed round is `DisplayedRound`, derived from the player's guess count.
- `aiGuessTimeout` is modelled as `aiTimers`, the count of live AI timers: scheduling cancels the live one and starts one, firing ends one, and `endRound` cancels it. The handle itself, which stays set after its timer fires, is not modelled.
- Calling `playAI` or `joinMultiplayer` again on the same controller is not modelled: each is a constructor of a fresh controller.
- Both word lists are assumed to hold only five-letter words. The requires of `Game.WordleGame.constructor`, `Duel.WordleDuelApp.PlayAI` and `Duel.WordleDuelApp.JoinMultiplayer` impose it. The code never checks it, because the lists are loaded outside the modelled code. The five-letter ensures of `Game.WordleGame.IsValidWord`, and with it the guarantee that only five-letter words reach `EvaluateGuess`, rest on this assumption.
- Game.WordleGame.EvaluateGuess: requires a five-letter guess, which every caller guarantees (only dictionary words reach it); other lengths are not modelled.
- AI.WordleAI.MatchesConstraints: requires five-letter word, guess and verdict, as every candidate, recorded guess and verdict are.
- Duel.WordleDuelApp.DisplayedRound: its own contract states only that the round shown is at least 1. The step by one per accepted guess is stated by `SubmitGuess` and `SendGuess`. The `/maxRounds` part of the label is rendering.
- Keyboard.Recorded: its own contract states only that no letter is lost and that the last letter recorded is on the keyboard. The ranks, every added letter and the exact set of letters are stated by `NeverDowngrades`, `RecordsEveryTag` and `OnlyRecordedColours`.
- `createBoard` and `createKeyboard` (game.js:69-130) are rendering and are not modelled.

## Design notes where the code departs from the intent

- The AI's absent test rejects every word that contains the letter (ai.js:41-43). The scoring tags a repeated letter absent even when the secret holds it once (the copy is used elsewhere). So the AI can discard the true secret: `AI.SecretFilteredOut` exhibits it with ALOFT and LLAMA. The model follows the code. `AI.SecretSurvivesWithoutRepeats` shows the secret survives whenever the guess repeats no letter.
- A game that reaches six guesses is not stopped by the game record itself. Only the controller's draw check (the player's guess count against `maxRounds`) ends the match.
- The draw check looks only at the player's guess count, not the opponent's (app.js:463).
