/** The scoring rule of a guess against a secret, stated position by
    position without the working copies the game mutates: an exact match
    is `Correct`; any other position is `Present` while the secret still
    has an unmatched copy of the letter that an earlier unmatched
    position of the guess has not already claimed, and `Absent` after. */
module Scoring {
  import opened Words

  /** Number of positions `j < k` where both words hold `c`. */
  function Matched(a: string, b: string, c: char, k: nat): nat
    requires k <= |a| == |b|
  {
    if k == 0 then 0
    else Matched(a, b, c, k - 1) + (if a[k - 1] == c && b[k - 1] == c then 1 else 0)
  }

  /** Number of positions `j < k` where `a` holds `c` and `b` differs there:
      the copies of `c` in `a` that no exact match uses up. */
  function Unmatched(a: string, b: string, c: char, k: nat): nat
    requires k <= |a| == |b|
  {
    if k == 0 then 0
    else Unmatched(a, b, c, k - 1) + (if a[k - 1] == c && a[k - 1] != b[k - 1] then 1 else 0)
  }

  /** The working copy of `a` left after the exact matches with `b` are
      blanked out. */
  function Masked(a: string, b: string): (r: seq<Option<char>>)
    requires |a| == |b|
    ensures |r| == |a|
  {
    seq(|a|, j requires 0 <= j < |a| => if a[j] == b[j] then None else Some(a[j]))
  }

  /** The verdict on `guess` when the secret is `target`. */
  function Score(target: string, guess: string): (r: seq<Tag>)
    requires |target| == WordLength && |guess| == WordLength
    ensures |r| == WordLength
  {
    seq(WordLength, i requires 0 <= i < WordLength =>
      if guess[i] == target[i] then Correct
      else if Unmatched(guess, target, guess[i], i) < Unmatched(target, guess, guess[i], WordLength) then Present
      else Absent)
  }

  /** Number of positions `j < k` where `g` holds `c` and the tag is not `Absent`. */
  function NonAbsent(g: string, r: seq<Tag>, c: char, k: nat): nat
    requires k <= |g| == |r|
  {
    if k == 0 then 0
    else NonAbsent(g, r, c, k - 1) + (if g[k - 1] == c && r[k - 1] != Absent then 1 else 0)
  }

  // ---------------------------------------------------------------------------
  // Counting facts

  lemma {:induction false} MaskedCount(a: string, b: string, c: char, k: nat)
    requires k <= |a| == |b|
    ensures Count(Masked(a, b)[..k], Some(c)) == Unmatched(a, b, c, k)
  {
    if k > 0 {
      MaskedCount(a, b, c, k - 1);
      assert Masked(a, b)[..k][..k - 1] == Masked(a, b)[..k - 1];
    }
  }

  /** Every copy of `c` in `a` is either matched exactly or unmatched. */
  lemma {:induction false} CountSplit(a: string, b: string, c: char, k: nat)
    requires k <= |a| == |b|
    ensures Count(a[..k], c) == Matched(a, b, c, k) + Unmatched(a, b, c, k)
    ensures Matched(a, b, c, k) == Matched(b, a, c, k)
  {
    if k > 0 {
      CountSplit(a, b, c, k - 1);
      assert a[..k][..k - 1] == a[..k - 1];
    }
  }

  /** An unmatched copy of `c` in `a` is, in particular, a copy of `c` in `a`. */
  lemma {:induction false} UnmatchedWitness(a: string, b: string, c: char, k: nat)
    requires k <= |a| == |b|
    requires Unmatched(a, b, c, k) > 0
    ensures exists j :: 0 <= j < k && a[j] == c && a[j] != b[j]
  {
    if a[k - 1] != c || a[k - 1] == b[k - 1] {
      UnmatchedWitness(a, b, c, k - 1);
    }
  }

  /** Conversely, one unmatched copy makes the count positive. */
  lemma {:induction false} UnmatchedFromWitness(a: string, b: string, c: char, k: nat, j: nat)
    requires k <= |a| == |b|
    requires j < k && a[j] == c && a[j] != b[j]
    ensures Unmatched(a, b, c, k) > 0
  {
    if j < k - 1 {
      UnmatchedFromWitness(a, b, c, k - 1, j);
    }
  }

  /** The present tags on `c` among the first `k` positions are as many as
      the unmatched guess copies seen so far, capped by the unmatched
      copies in the target. */
  lemma {:induction false} NonAbsentPrefix(target: string, guess: string, c: char, k: nat)
    requires |target| == WordLength && |guess| == WordLength && k <= WordLength
    ensures NonAbsent(guess, Score(target, guess), c, k)
            == Matched(guess, target, c, k)
               + Min(Unmatched(guess, target, c, k), Unmatched(target, guess, c, WordLength))
  {
    if k > 0 {
      NonAbsentPrefix(target, guess, c, k - 1);
    }
  }

  // ---------------------------------------------------------------------------
  // Properties of the verdict

  /** A position is `Correct` exactly when guess and secret agree there. */
  lemma CorrectIffSameLetter(target: string, guess: string, i: nat)
    requires |target| == WordLength && |guess| == WordLength && i < WordLength
    ensures Score(target, guess)[i] == Correct <==> guess[i] == target[i]
  {
  }

  /** The duplicate-letter rule: for every letter, the tags on it that are
      not `Absent` are as many as the smaller of its counts in the guess
      and in the secret. */
  lemma DuplicateLetterRule(target: string, guess: string, c: char)
    requires |target| == WordLength && |guess| == WordLength
    ensures NonAbsent(guess, Score(target, guess), c, WordLength)
            == Min(Count(guess, c), Count(target, c))
  {
    NonAbsentPrefix(target, guess, c, WordLength);
    CountSplit(guess, target, c, WordLength);
    CountSplit(target, guess, c, WordLength);
    assert guess[..WordLength] == guess && target[..WordLength] == target;
  }

  /** A `Present` tag sits on a letter the secret has elsewhere. */
  lemma PresentMeansElsewhere(target: string, guess: string, i: nat)
    requires |target| == WordLength && |guess| == WordLength && i < WordLength
    requires Score(target, guess)[i] == Present
    ensures guess[i] != target[i]
    ensures exists j :: 0 <= j < WordLength && j != i && target[j] == guess[i]
  {
    UnmatchedWitness(target, guess, guess[i], WordLength);
    var j :| 0 <= j < WordLength && target[j] == guess[i] && target[j] != guess[j];
    assert j != i;
  }

  /** A word is scored all-correct against a secret exactly when it is the
      secret; in particular the secret scores all-correct against itself. */
  lemma WinIffSecret(target: string, guess: string)
    requires |target| == WordLength && |guess| == WordLength
    ensures AllCorrect(Score(target, guess)) <==> guess == target
  {
    if AllCorrect(Score(target, guess)) {
      forall i | 0 <= i < WordLength ensures guess[i] == target[i] {
        assert Score(target, guess)[i] == Correct;
      }
    }
  }

  /** The example of a repeated letter: against ALLOY the two L's of LLAMA
      are both scored (one exact, one present) and only one A is. */
  lemma AlloyLlama()
    ensures Score("ALLOY", "LLAMA") == [Present, Correct, Present, Absent, Absent]
  {
    var t, g := "ALLOY", "LLAMA";
    assert Unmatched(t, g, 'L', WordLength) == 1;
    assert Unmatched(t, g, 'A', WordLength) == 1;
    assert Unmatched(t, g, 'M', WordLength) == 0;
    assert Unmatched(g, t, 'A', 2) == 0;
    assert Unmatched(g, t, 'A', 4) == 1;
    var s := Score(t, g);
    assert s[0] == Present && s[1] == Correct && s[2] == Present && s[3] == Absent && s[4] == Absent;
  }
}
