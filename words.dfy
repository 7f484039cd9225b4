/** Shared vocabulary of the duel game: the per-letter verdict tags, the
    case mapping the game applies to words, and the counting helpers the
    scoring rule is stated with. */
module Words {

  /** Every guess and every secret has this many letters. */
  const WordLength := 5

  /** The verdict on one letter of a guess. */
  datatype Tag = Correct | Present | Absent

  datatype Option<T> = None | Some(value: T)

  /** A board is all-correct when every tag on it is `Correct`
      (an empty board counts, as `[].every(...)` does). */
  predicate AllCorrect(board: seq<Tag>)
  {
    forall i :: 0 <= i < |board| ==> board[i] == Correct
  }

  function UpperChar(c: char): char
  {
    if 'a' <= c <= 'z' then (c as int - 32) as char else c
  }

  function LowerChar(c: char): char
  {
    if 'A' <= c <= 'Z' then (c as int + 32) as char else c
  }

  /** `toUpperCase` on ASCII letters; every other character is kept. */
  function Upper(s: string): (r: string)
    ensures |r| == |s|
    ensures forall i :: 0 <= i < |s| ==> r[i] == UpperChar(s[i])
    ensures forall i :: 0 <= i < |r| ==> !('a' <= r[i] <= 'z')
    ensures forall i :: 0 <= i < |s| && !('a' <= s[i] <= 'z') ==> r[i] == s[i]
  {
    seq(|s|, i requires 0 <= i < |s| => UpperChar(s[i]))
  }

  /** Upper-casing twice is upper-casing once. */
  lemma UpperIdempotent(s: string)
    ensures Upper(Upper(s)) == Upper(s)
  {
    forall i | 0 <= i < |s| ensures Upper(Upper(s))[i] == Upper(s)[i] {
      assert Upper(s)[i] == UpperChar(s[i]);
    }
  }

  /** `toLowerCase` on ASCII letters; every other character is kept. */
  function Lower(s: string): (r: string)
    ensures |r| == |s|
    ensures forall i :: 0 <= i < |s| ==> r[i] == LowerChar(s[i])
    ensures forall i :: 0 <= i < |r| ==> !('A' <= r[i] <= 'Z')
    ensures forall i :: 0 <= i < |s| && !('A' <= s[i] <= 'Z') ==> r[i] == s[i]
  {
    seq(|s|, i requires 0 <= i < |s| => LowerChar(s[i]))
  }

  /** Lower-casing forgets an earlier upper-casing: a word and its
      upper-cased form have the same lower-cased form. */
  lemma LowerOfUpper(s: string)
    ensures Lower(Upper(s)) == Lower(s)
  {
    forall i | 0 <= i < |s| ensures Lower(Upper(s))[i] == Lower(s)[i] {
      assert Upper(s)[i] == UpperChar(s[i]);
    }
  }

  predicate IsSpace(c: char)
  {
    c == ' ' || c == '\t' || c == '\n' || c == '\r'
  }

  /** `trim`: drops leading and trailing white space. */
  function Trim(s: string): (r: string)
    ensures |r| <= |s|
    ensures |r| > 0 ==> !IsSpace(r[0]) && !IsSpace(r[|r| - 1])
    decreases |s|
  {
    if |s| > 0 && IsSpace(s[0]) then Trim(s[1..])
    else if |s| > 0 && IsSpace(s[|s| - 1]) then Trim(s[..|s| - 1])
    else s
  }

  /** Everything of `s` outside `s[i..j]` is white space. */
  predicate SpaceOutside(s: string, i: int, j: int)
  {
    0 <= i <= j <= |s|
    && (forall k :: 0 <= k < i ==> IsSpace(s[k]))
    && (forall k :: j <= k < |s| ==> IsSpace(s[k]))
  }

  /** `Trim(s)` is `s` less some white space at its two ends. */
  ghost predicate TrimmedFrom(s: string)
  {
    exists i, j :: SpaceOutside(s, i, j) && Trim(s) == s[i..j]
  }

  /** Dropping a leading space keeps the property. */
  lemma TrimFrontStep(s: string)
    requires |s| > 0 && IsSpace(s[0]) && TrimmedFrom(s[1..])
    ensures TrimmedFrom(s)
  {
    var p := s[1..];
    var i, j :| SpaceOutside(p, i, j) && Trim(p) == p[i..j];
    forall k | 0 < k < i + 1 || j + 1 <= k < |s| ensures IsSpace(s[k]) {
      assert s[k] == p[k - 1];
    }
    assert p[i..j] == s[i + 1..j + 1];
    assert SpaceOutside(s, i + 1, j + 1) && Trim(s) == s[i + 1..j + 1];
  }

  /** Dropping a trailing space keeps the property. */
  lemma TrimBackStep(s: string)
    requires |s| > 0 && !IsSpace(s[0]) && IsSpace(s[|s| - 1]) && TrimmedFrom(s[..|s| - 1])
    ensures TrimmedFrom(s)
  {
    var p := s[..|s| - 1];
    var i, j :| SpaceOutside(p, i, j) && Trim(p) == p[i..j];
    forall k | 0 <= k < i || j <= k < |s| - 1 ensures IsSpace(s[k]) {
      assert s[k] == p[k];
    }
    assert p[i..j] == s[i..j];
    assert SpaceOutside(s, i, j) && Trim(s) == s[i..j];
  }

  /** What `Trim` removes is white space at the two ends, and nothing else. */
  lemma {:induction false} TrimKeepsTheMiddle(s: string)
    ensures TrimmedFrom(s)
    decreases |s|
  {
    if |s| > 0 && IsSpace(s[0]) {
      TrimKeepsTheMiddle(s[1..]);
      TrimFrontStep(s);
    } else if |s| > 0 && IsSpace(s[|s| - 1]) {
      TrimKeepsTheMiddle(s[..|s| - 1]);
      TrimBackStep(s);
    } else {
      assert SpaceOutside(s, 0, |s|) && Trim(s) == s[0..|s|];
    }
  }

  function Min(a: int, b: int): int
  {
    if a <= b then a else b
  }

  function Last<T>(s: seq<T>): T
    requires |s| > 0
  {
    s[|s| - 1]
  }

  /** Number of occurrences of `x` in `s`. */
  function Count<T(==)>(s: seq<T>, x: T): nat
  {
    if |s| == 0 then 0 else Count(s[..|s| - 1], x) + (if s[|s| - 1] == x then 1 else 0)
  }

  /** `indexOf`: the first index holding `x`, or -1 when there is none. */
  function IndexOf<T(==)>(s: seq<T>, x: T): (r: int)
    ensures -1 <= r < |s|
    ensures r == -1 ==> x !in s
    ensures 0 <= r ==> s[r] == x && x !in s[..r]
  {
    if |s| == 0 then -1
    else if s[0] == x then 0
    else
      var k := IndexOf(s[1..], x);
      if k == -1 then -1
      else
        assert s[..k + 1] == [s[0]] + s[1..][..k];
        k + 1
  }

  lemma {:induction false} CountPositive<T>(s: seq<T>, x: T)
    ensures Count(s, x) > 0 <==> x in s
  {
    if |s| > 0 {
      CountPositive(s[..|s| - 1], x);
      assert s == s[..|s| - 1] + [s[|s| - 1]];
    }
  }

  /** Overwriting one slot changes the count of `x` only by what left and
      what arrived at that slot. */
  lemma {:induction false} CountUpdate<T>(s: seq<T>, k: nat, y: T, x: T)
    requires k < |s|
    ensures Count(s[k := y], x)
            == Count(s, x) - (if s[k] == x then 1 else 0) + (if y == x then 1 else 0)
  {
    var n := |s| - 1;
    if k == n {
      assert s[k := y][..n] == s[..n];
    } else {
      CountUpdate(s[..n], k, y, x);
      assert s[k := y][..n] == s[..n][k := y];
    }
  }
}
