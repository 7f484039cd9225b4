/** The on-screen keyboard colouring: per letter, the best verdict any own
    guess has earned so far. A letter is only ever upgraded
    (unseen, then absent, then present, then correct). */
module Keyboard {
  import opened Words

  /** The order in which keyboard colours upgrade. */
  function Rank(t: Tag): nat
  {
    match t
    case Absent => 0
    case Present => 1
    case Correct => 2
  }

  /** The better of two tags. */
  function Best(a: Tag, b: Tag): Tag
  {
    if Rank(a) >= Rank(b) then a else b
  }

  /** Records the tag `t` seen on letter `c`. */
  function Record(ks: map<char, Tag>, c: char, t: Tag): map<char, Tag>
  {
    ks[c := if c in ks then Best(ks[c], t) else t]
  }

  /** The keyboard after the tags of the first `k` letters of `guess` are
      recorded in order. */
  function Recorded(ks: map<char, Tag>, guess: string, board: seq<Tag>, k: nat): (r: map<char, Tag>)
    requires k <= |guess| == |board|
    ensures ks.Keys <= r.Keys
    ensures k > 0 ==> guess[k - 1] in r
  {
    if k == 0 then ks else Record(Recorded(ks, guess, board, k - 1), guess[k - 1], board[k - 1])
  }

  /** No letter already on the keyboard loses its colour or is downgraded. */
  lemma {:induction false} NeverDowngrades(ks: map<char, Tag>, guess: string, board: seq<Tag>, k: nat)
    requires k <= |guess| == |board|
    ensures forall c :: c in ks ==>
              c in Recorded(ks, guess, board, k) && Rank(ks[c]) <= Rank(Recorded(ks, guess, board, k)[c])
  {
    if k > 0 {
      NeverDowngrades(ks, guess, board, k - 1);
    }
  }

  /** A letter marked correct stays correct. */
  lemma CorrectStaysCorrect(ks: map<char, Tag>, guess: string, board: seq<Tag>, c: char)
    requires |guess| == |board|
    requires c in ks && ks[c] == Correct
    ensures c in Recorded(ks, guess, board, |guess|)
    ensures Recorded(ks, guess, board, |guess|)[c] == Correct
  {
    NeverDowngrades(ks, guess, board, |guess|);
  }

  /** Every recorded letter is on the keyboard, at least as good as the tag
      it was recorded with. */
  lemma {:induction false} RecordsEveryTag(ks: map<char, Tag>, guess: string, board: seq<Tag>, k: nat)
    requires k <= |guess| == |board|
    ensures forall i :: 0 <= i < k ==>
              guess[i] in Recorded(ks, guess, board, k)
              && Rank(board[i]) <= Rank(Recorded(ks, guess, board, k)[guess[i]])
  {
    if k > 0 {
      RecordsEveryTag(ks, guess, board, k - 1);
    }
  }

  /** The keyboard invents nothing: its letters are the old ones and the
      guessed ones, and each colour is either the old colour of that
      letter or a tag that letter received in this guess. */
  lemma {:induction false} OnlyRecordedColours(ks: map<char, Tag>, guess: string, board: seq<Tag>, k: nat)
    requires k <= |guess| == |board|
    ensures Recorded(ks, guess, board, k).Keys == ks.Keys + set i | 0 <= i < k :: guess[i]
    ensures forall c :: c in Recorded(ks, guess, board, k) ==>
              (c in ks && Recorded(ks, guess, board, k)[c] == ks[c])
              || (exists i :: 0 <= i < k && guess[i] == c && board[i] == Recorded(ks, guess, board, k)[c])
  {
    if k > 0 {
      OnlyRecordedColours(ks, guess, board, k - 1);
      var before := Recorded(ks, guess, board, k - 1);
      var after := Recorded(ks, guess, board, k);
      assert (set i | 0 <= i < k :: guess[i]) == (set i | 0 <= i < k - 1 :: guess[i]) + {guess[k - 1]};
      forall c | c in after
        ensures (c in ks && after[c] == ks[c])
                || (exists i :: 0 <= i < k && guess[i] == c && board[i] == after[c])
      {
        if c == guess[k - 1] && after[c] == board[k - 1] {
        } else if c == guess[k - 1] {
          assert after[c] == before[c];
        } else {
          assert after[c] == before[c];
        }
      }
    }
  }
}
