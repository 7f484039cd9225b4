/** One participant's game record: the secret, the guesses made so far with
    their verdicts, and the keyboard colouring (game.js, `WordleGame`). */
module Game {
  import opened Words
  import opened Scoring
  import opened Keyboard

  /** What `submitGuess` answers. */
  datatype SubmitResult =
    | Rejected(message: string)
    | Accepted(result: seq<Tag>, isWin: bool, isDone: bool)

  /** Number of guesses after which a game is over. */
  const MaxGuesses := 6

  /** The working copy of the secret during the second pass, before
      position `i` of the guess: for every letter, the unmatched copies of
      the secret not yet claimed by an earlier unmatched guess letter. */
  ghost predicate Unclaimed(s: seq<Option<char>>, t: string, g: string, i: nat)
    requires |t| == WordLength && |g| == WordLength && i <= WordLength
  {
    forall c :: Count(s, Some(c))
                == Unmatched(t, g, c, WordLength) - Min(Unmatched(g, t, c, i), Unmatched(t, g, c, WordLength))
  }

  lemma UnclaimedAtStart(t: string, g: string)
    requires |t| == WordLength && |g| == WordLength
    ensures Unclaimed(Masked(t, g), t, g, 0)
  {
    forall c ensures Count(Masked(t, g), Some(c)) == Unmatched(t, g, c, WordLength) {
      MaskedCount(t, g, c, WordLength);
      assert Masked(t, g)[..WordLength] == Masked(t, g);
    }
  }

  /** An unmatched guess letter finds a copy to claim exactly when the
      verdict there is `Present`; claiming it keeps the working copy in step. */
  lemma ClaimStep(s: seq<Option<char>>, t: string, g: string, i: nat)
    requires |t| == WordLength && |g| == WordLength && i < WordLength
    requires g[i] != t[i]
    requires Unclaimed(s, t, g, i)
    ensures var k := IndexOf(s, Some(g[i]));
            && (k != -1 <==> Score(t, g)[i] == Present)
            && (k == -1 ==> Score(t, g)[i] == Absent && Unclaimed(s, t, g, i + 1))
            && (k != -1 ==> Unclaimed(s[k := None], t, g, i + 1))
  {
    var k := IndexOf(s, Some(g[i]));
    CountPositive(s, Some(g[i]));
    if k != -1 {
      forall c ensures Count(s[k := None], Some(c))
                       == Unmatched(t, g, c, WordLength) - Min(Unmatched(g, t, c, i + 1), Unmatched(t, g, c, WordLength))
      {
        CountUpdate(s, k, None, Some(c));
      }
    }
  }

  /** An exactly matched position claims nothing. */
  lemma SkipStep(s: seq<Option<char>>, t: string, g: string, i: nat)
    requires |t| == WordLength && |g| == WordLength && i < WordLength
    requires g[i] == t[i]
    requires Unclaimed(s, t, g, i)
    ensures Score(t, g)[i] == Correct
    ensures Unclaimed(s, t, g, i + 1)
  {
  }

  /** First pass of the scoring: exact matches are tagged `Correct` and
      blanked out of both working copies. */
  method MarkCorrect(res: array<Tag>, targetLetters: array<Option<char>>, guessLetters: array<Option<char>>,
                     t: string, g: string)
    requires |t| == WordLength && |g| == WordLength
    requires res.Length == WordLength && targetLetters.Length == WordLength && guessLetters.Length == WordLength
    requires targetLetters != guessLetters
    requires forall j :: 0 <= j < WordLength ==>
               res[j] == Absent && targetLetters[j] == Some(t[j]) && guessLetters[j] == Some(g[j])
    modifies res, targetLetters, guessLetters
    ensures forall j :: 0 <= j < WordLength ==> res[j] == (if g[j] == t[j] then Correct else Absent)
    ensures targetLetters[..] == Masked(t, g) && guessLetters[..] == Masked(g, t)
  {
    for i := 0 to WordLength
      invariant forall j :: 0 <= j < i ==>
        res[j] == (if g[j] == t[j] then Correct else Absent)
        && targetLetters[j] == Masked(t, g)[j] && guessLetters[j] == Masked(g, t)[j]
      invariant forall j :: i <= j < WordLength ==>
        res[j] == Absent && targetLetters[j] == Some(t[j]) && guessLetters[j] == Some(g[j])
    {
      if guessLetters[i] == targetLetters[i] {
        res[i] := Correct;
        targetLetters[i] := None;
        guessLetters[i] := None;
      }
    }
  }

  /** Second pass of the scoring: each letter not matched exactly claims
      the first unclaimed copy of itself in the secret and is tagged
      `Present`, or stays `Absent` when no copy is left. */
  method MarkPresent(res: array<Tag>, targetLetters: array<Option<char>>, guessLetters: array<Option<char>>,
                     t: string, g: string)
    requires |t| == WordLength && |g| == WordLength
    requires res.Length == WordLength && targetLetters.Length == WordLength && guessLetters.Length == WordLength
    requires forall j :: 0 <= j < WordLength ==> res[j] == (if g[j] == t[j] then Correct else Absent)
    requires targetLetters != guessLetters
    requires targetLetters[..] == Masked(t, g) && guessLetters[..] == Masked(g, t)
    modifies res, targetLetters
    ensures res[..] == Score(t, g)
  {
    ghost var verdict := Score(t, g);
    UnclaimedAtStart(t, g);
    for i := 0 to WordLength
      invariant res[..i] == verdict[..i]
      invariant forall j :: i <= j < WordLength ==> res[j] == (if g[j] == t[j] then Correct else Absent)
      invariant Unclaimed(targetLetters[..], t, g, i)
    {
      ghost var r0 := res[..];
      assert guessLetters[i] == Masked(g, t)[i];
      if guessLetters[i] != None {
        var letter := guessLetters[i].value;
        assert letter == g[i] && g[i] != t[i];
        var idx := IndexOf(targetLetters[..], Some(letter));
        ClaimStep(targetLetters[..], t, g, i);
        if idx != -1 {
          res[i] := Present;
          targetLetters[idx] := None;
        }
      } else {
        assert g[i] == t[i];
        SkipStep(targetLetters[..], t, g, i);
      }
      assert res[..] == r0[i := verdict[i]];
    }
    assert res[..] == res[..WordLength];
  }

  class WordleGame {
    /** The secret, upper-cased. */
    const targetWord: string
    /** The accepted-guess word list (lower-case). */
    const dictionary: seq<string>
    var guesses: seq<string>
    var boards: seq<seq<Tag>>
    var currentGuess: string
    var keyboardState: map<char, Tag>

    /** Every recorded board is the verdict on the recorded guess at the same
        index, and every dictionary word has the word length. */
    ghost predicate Valid()
      reads this
    {
      && |targetWord| == WordLength
      && (forall w :: w in dictionary ==> |w| == WordLength)
      && |guesses| == |boards|
      && (forall i :: 0 <= i < |guesses| ==>
            |guesses[i]| == WordLength && boards[i] == Score(targetWord, guesses[i]))
    }

    constructor (targetWord: string, dictionary: seq<string>)
      requires |targetWord| == WordLength
      requires forall w :: w in dictionary ==> |w| == WordLength
      ensures Valid()
      ensures this.targetWord == Upper(targetWord) && this.dictionary == dictionary
      ensures guesses == [] && boards == [] && currentGuess == "" && keyboardState == map[]
    {
      this.targetWord := Upper(targetWord);
      this.dictionary := dictionary;
      guesses := [];
      boards := [];
      currentGuess := "";
      keyboardState := map[];
    }

    /** Dictionary membership of the lower-cased word; only words of the
        right length can be accepted. */
    predicate IsValidWord(word: string)
      requires Valid()
      reads this
      ensures IsValidWord(word) ==> |word| == WordLength
    {
      Lower(word) in dictionary
    }

    /** The two-pass scoring: exact matches first, blanking both letters;
        then each remaining guess letter claims the first remaining copy in
        the secret, if any. The answer is the verdict `Score` defines. */
    method EvaluateGuess(guess: string) returns (result: seq<Tag>)
      requires Valid()
      requires |guess| == WordLength
      ensures result == Score(targetWord, Upper(guess))
    {
      var t := targetWord;
      var g := Upper(guess);
      var res := new Tag[WordLength](_ => Absent);
      var targetLetters := new Option<char>[WordLength](i requires 0 <= i < WordLength => Some(t[i]));
      var guessLetters := new Option<char>[WordLength](i requires 0 <= i < WordLength => Some(g[i]));

      MarkCorrect(res, targetLetters, guessLetters, t, g);
      MarkPresent(res, targetLetters, guessLetters, t, g);
      result := res[..];
    }

    /** The keyboard step of `submitGuess`: letter by letter, an unseen
        letter takes its tag, a correct tag always wins, and a present tag
        replaces an absent colour; the record of guesses is untouched. */
    method UpdateKeyboard(g: string, verdict: seq<Tag>)
      requires |g| == |verdict| == WordLength
      modifies this
      ensures keyboardState == Recorded(old(keyboardState), g, verdict, WordLength)
      ensures guesses == old(guesses) && boards == old(boards) && currentGuess == old(currentGuess)
    {
      for i := 0 to WordLength
        invariant keyboardState == Recorded(old(keyboardState), g, verdict, i)
        invariant guesses == old(guesses) && boards == old(boards) && currentGuess == old(currentGuess)
      {
        var letter := g[i];
        var state := verdict[i];
        ghost var next := Record(keyboardState, letter, state);
        assert Recorded(old(keyboardState), g, verdict, i + 1) == next;
        if letter !in keyboardState
           || state == Correct
           || (state == Present && keyboardState[letter] == Absent)
        {
          keyboardState := keyboardState[letter := state];
        }
      }
    }

    /** `submitGuess`: a word outside the dictionary is rejected and nothing
        changes; an accepted word is appended upper-cased with its verdict,
        and the keyboard records the verdict letter by letter. */
    method SubmitGuess(guess: string) returns (r: SubmitResult)
      requires Valid()
      modifies this
      ensures Valid()
      ensures !IsValidWord(guess) ==>
                r == Rejected("Not in word list")
                && guesses == old(guesses) && boards == old(boards)
                && keyboardState == old(keyboardState)
      ensures IsValidWord(guess) ==>
                var g := Upper(guess);
                var verdict := Score(targetWord, g);
                && guesses == old(guesses) + [g]
                && boards == old(boards) + [verdict]
                && keyboardState == Recorded(old(keyboardState), g, verdict, WordLength)
                && r == Accepted(verdict, AllCorrect(verdict), AllCorrect(verdict) || |guesses| >= MaxGuesses)
      ensures r.Accepted? ==> (r.isWin <==> Upper(guess) == targetWord)
      ensures currentGuess == old(currentGuess)
    {
      if !IsValidWord(guess) {
        return Rejected("Not in word list");
      }

      var result := EvaluateGuess(guess);
      var g := Upper(guess);
      guesses := guesses + [g];
      boards := boards + [result];

      UpdateKeyboard(g, result);

      var isWin := AllCorrect(result);
      WinIffSecret(targetWord, g);
      r := Accepted(result, isWin, isWin || |guesses| >= MaxGuesses);
    }
  }

  /** The word list sees a word and its upper-cased form alike, so the
      opponent's upper-cased move is accepted exactly when the answer word
      it came from is in the list. */
  lemma ValidityIgnoresUpperCase(game: WordleGame, word: string)
    requires game.Valid()
    ensures game.IsValidWord(Upper(word)) <==> game.IsValidWord(word)
  {
    LowerOfUpper(word);
  }
}
