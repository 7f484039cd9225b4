/** The computer opponent (ai.js, `WordleAI`): it keeps the answer words
    that agree with the verdict on its own last guess and plays one of
    them. */
module AI {
  import opened Words
  import opened Scoring

  // ---------------------------------------------------------------------------
  // The agreement test

  /** The opponent's reading of a verdict: a `Correct` tag demands the
      same letter in the word, an `Absent` tag forbids the letter anywhere
      in the word, and a `Present` tag demands the letter somewhere in the
      word but not at that position. */
  predicate Agrees(word: string, guess: string, board: seq<Tag>): (ok: bool)
    requires |word| == WordLength && |guess| == WordLength && |board| == WordLength
    ensures AllCorrect(board) ==> (ok <==> word == guess)
  {
    forall i :: 0 <= i < WordLength ==>
      && (board[i] == Correct ==> word[i] == guess[i])
      && (board[i] == Absent ==> guess[i] !in word)
      && (board[i] == Present ==> guess[i] in word && word[i] != guess[i])
  }

  /** A guess in which no letter occurs twice. */
  predicate NoRepeatedLetter(guess: string)
  {
    forall i, j :: 0 <= i < j < |guess| ==> guess[i] != guess[j]
  }

  /** For a guess without a repeated letter the agreement test is exactly
      the scoring rule: a word passes iff, taken as the secret, it would
      have produced the very same verdict. */
  lemma AgreesIffScoreWithoutRepeats(word: string, guess: string, board: seq<Tag>)
    requires |word| == WordLength && |guess| == WordLength && |board| == WordLength
    requires NoRepeatedLetter(guess)
    ensures Agrees(word, guess, board) <==> board == Score(word, guess)
  {
    var verdict := Score(word, guess);
    if Agrees(word, guess, board) {
      forall i | 0 <= i < WordLength ensures board[i] == verdict[i] {
        NoEarlierCopy(guess, word, i);
        var c := guess[i];
        if board[i] == Absent {
          if Unmatched(word, guess, c, WordLength) > 0 {
            UnmatchedWitness(word, guess, c, WordLength);
            assert false;
          }
        } else if board[i] == Present {
          var j :| 0 <= j < WordLength && word[j] == c;
          assert guess[j] != word[j];
          UnmatchedFromWitness(word, guess, c, WordLength, j);
        }
      }
    }
    if board == verdict {
      forall i | 0 <= i < WordLength && board[i] == Absent ensures guess[i] !in word {
        NoEarlierCopy(guess, word, i);
        if guess[i] in word {
          var j :| 0 <= j < WordLength && word[j] == guess[i];
          if word[j] != guess[j] {
            UnmatchedFromWitness(word, guess, guess[i], WordLength, j);
          }
        }
      }
      forall i | 0 <= i < WordLength && board[i] == Present ensures guess[i] in word && word[i] != guess[i] {
        PresentMeansElsewhere(word, guess, i);
      }
    }
  }

  lemma NoEarlierCopy(guess: string, word: string, i: nat)
    requires |word| == WordLength && |guess| == WordLength && i < WordLength
    requires NoRepeatedLetter(guess)
    ensures Unmatched(guess, word, guess[i], i) == 0
  {
    if Unmatched(guess, word, guess[i], i) > 0 {
      UnmatchedWitness(guess, word, guess[i], i);
    }
  }

  /** The absent test is stricter than the scoring rule once a guess repeats
      a letter: with ALOFT as the secret, the verdict on LLAMA tags the first
      L absent (the only L of ALOFT is matched exactly), and the test then
      throws the secret itself away because it contains an L. */
  lemma SecretFilteredOut()
    ensures Score("ALOFT", "LLAMA") == [Absent, Correct, Present, Absent, Absent]
    ensures !Agrees("ALOFT", "LLAMA", Score("ALOFT", "LLAMA"))
  {
    var t, g := "ALOFT", "LLAMA";
    assert Unmatched(t, g, 'L', WordLength) == 0;
    assert Unmatched(t, g, 'A', WordLength) == 1;
    assert Unmatched(t, g, 'M', WordLength) == 0;
    assert Unmatched(g, t, 'A', 2) == 0;
    assert Unmatched(g, t, 'A', 4) == 1;
    var s := Score(t, g);
    assert s[0] == Absent && s[1] == Correct && s[2] == Present && s[3] == Absent && s[4] == Absent;
    assert g[0] in t;
  }

  // ---------------------------------------------------------------------------
  // Narrowing the candidates

  /** Every word has the word length. */
  predicate AllWordLength(words: seq<string>)
  {
    forall w :: w in words ==> |w| == WordLength
  }

  /** `possibleWords.filter(...)`: the words whose upper-cased form passes
      the agreement test, in their original order. */
  function Filtered(words: seq<string>, guess: string, board: seq<Tag>): (r: seq<string>)
    requires AllWordLength(words) && |guess| == WordLength && |board| == WordLength
    ensures |r| <= |words|
  {
    if words == [] then []
    else
      var rest := Filtered(words[1..], guess, board);
      if Agrees(Upper(words[0]), guess, board) then [words[0]] + rest else rest
  }

  /** `a` is `b` with some elements dropped and the rest kept in order. */
  predicate IsSubsequence<T(==)>(a: seq<T>, b: seq<T>)
    decreases |b|
  {
    if a == [] then true
    else if b == [] then false
    else (a[0] == b[0] && IsSubsequence(a[1..], b[1..])) || IsSubsequence(a, b[1..])
  }

  /** Filtering keeps the relative order of the words it keeps. */
  lemma {:induction false} FilteredIsSubsequence(words: seq<string>, guess: string, board: seq<Tag>)
    requires AllWordLength(words) && |guess| == WordLength && |board| == WordLength
    ensures IsSubsequence(Filtered(words, guess, board), words)
  {
    if words != [] {
      FilteredIsSubsequence(words[1..], guess, board);
      var rest := Filtered(words[1..], guess, board);
      if !Agrees(Upper(words[0]), guess, board) && rest != [] {
        assert IsSubsequence(rest, words[1..]);
      }
    }
  }

  /** A word survives filtering iff it was a candidate and passes the test
      against the last guess and verdict. */
  lemma {:induction false} FilteredMembers(words: seq<string>, guess: string, board: seq<Tag>)
    requires AllWordLength(words) && |guess| == WordLength && |board| == WordLength
    ensures forall w :: w in Filtered(words, guess, board) <==>
                          w in words && Agrees(Upper(w), guess, board)
  {
    if words != [] {
      FilteredMembers(words[1..], guess, board);
      assert words == [words[0]] + words[1..];
    }
  }

  /** With a guess that repeats no letter, a candidate that is the secret
      survives the filter on the verdict the secret produced. */
  lemma SecretSurvivesWithoutRepeats(words: seq<string>, secret: string, guess: string)
    requires AllWordLength(words) && |guess| == WordLength
    requires secret in words
    requires NoRepeatedLetter(guess)
    ensures secret in Filtered(words, guess, Score(Upper(secret), guess))
  {
    AgreesIffScoreWithoutRepeats(Upper(secret), guess, Score(Upper(secret), guess));
    FilteredMembers(words, guess, Score(Upper(secret), guess));
  }

  // ---------------------------------------------------------------------------
  // The opponent

  class WordleAI {
    const difficulty: string
    /** The answer word list the opponent starts from and falls back to. */
    const answers: seq<string>
    var possibleWords: seq<string>

    /** The answer list is non-empty, every answer has the word length, and
        the candidates are drawn from it. */
    ghost predicate Valid()
      reads this
    {
      && |answers| > 0
      && AllWordLength(answers)
      && forall w :: w in possibleWords ==> w in answers
    }

    constructor (difficulty: string, answers: seq<string>)
      requires |answers| > 0 && AllWordLength(answers)
      ensures Valid()
      ensures this.difficulty == difficulty && this.answers == answers
      ensures possibleWords == answers
    {
      this.difficulty := difficulty;
      this.answers := answers;
      possibleWords := answers;
    }

    /** `matchesConstraints`: a first scan rejects a word on a `Correct` or
        `Absent` tag it contradicts, a second scan on a `Present` tag it
        contradicts; a word that survives both agrees with the verdict. */
    method MatchesConstraints(word: string, guess: string, board: seq<Tag>) returns (ok: bool)
      requires |word| == WordLength && |guess| == WordLength && |board| == WordLength
      ensures ok == Agrees(word, guess, board)
    {
      for i := 0 to WordLength
        invariant forall j :: 0 <= j < i ==>
                    (board[j] == Correct ==> word[j] == guess[j]) && (board[j] == Absent ==> guess[j] !in word)
      {
        if board[i] == Correct && word[i] != guess[i] {
          return false;
        }
        if board[i] == Absent && guess[i] in word {
          return false;
        }
      }

      for i := 0 to WordLength
        invariant forall j :: 0 <= j < i && board[j] == Present ==> guess[j] in word && word[j] != guess[j]
      {
        if board[i] == Present {
          if guess[i] !in word {
            return false;
          }
          if word[i] == guess[i] {
            return false;
          }
        }
      }

      return true;
    }

    /** `updatePossibleWords`: narrows the candidates with the last guess
        and its verdict only. */
    method UpdatePossibleWords(guesses: seq<string>, boards: seq<seq<Tag>>)
      requires Valid()
      requires |guesses| > 0 && |boards| > 0
      requires |Last(guesses)| == WordLength && |Last(boards)| == WordLength
      modifies this
      ensures Valid()
      ensures possibleWords == Filtered(old(possibleWords), Last(guesses), Last(boards))
    {
      var lastGuess := guesses[|guesses| - 1];
      var lastBoard := boards[|boards| - 1];
      FilteredMembers(possibleWords, lastGuess, lastBoard);
      possibleWords := Filtered(possibleWords, lastGuess, lastBoard);
    }

    /** `makeGuess`: narrows the candidates when there is a previous guess,
        falls back to the whole answer list when none is left, and plays
        the upper-cased form of some candidate (the random pick). */
    method MakeGuess(previousGuesses: seq<string>, previousBoards: seq<seq<Tag>>) returns (guess: string)
      requires Valid()
      requires |previousGuesses| > 0 ==>
                 |previousBoards| > 0
                 && |Last(previousGuesses)| == WordLength && |Last(previousBoards)| == WordLength
      modifies this
      ensures Valid()
      ensures var narrowed := if |previousGuesses| > 0
                              then Filtered(old(possibleWords), Last(previousGuesses), Last(previousBoards))
                              else old(possibleWords);
              possibleWords == if narrowed == [] then answers else narrowed
      ensures exists w :: w in possibleWords && guess == Upper(w)
      ensures |guess| == WordLength
    {
      if |previousGuesses| > 0 {
        UpdatePossibleWords(previousGuesses, previousBoards);
      }

      if |possibleWords| == 0 {
        possibleWords := answers;
      }

      var idx :| 0 <= idx < |possibleWords|;
      guess := Upper(possibleWords[idx]);
    }
  }
}
