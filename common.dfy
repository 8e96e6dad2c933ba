/** Shared vocabulary of the solver: an Option type, the 26-letter lower-case
    alphabet (Python's `ascii_lowercase`) and occurrence counting (`str.count`
    for a single character), and the set of the elements of a list (`set(...)`). */
module Common {

  datatype Option<T> = None | Some(value: T)

  /** Number of letters in `ascii_lowercase`. */
  const AlphabetSize: nat := 26

  predicate IsLower(c: char) {
    'a' <= c <= 'z'
  }

  predicate AllLower(s: string) {
    forall i :: 0 <= i < |s| ==> IsLower(s[i])
  }

  /** The distinct elements of a list. */
  function Elements<T>(xs: seq<T>): set<T> {
    set x | x in xs
  }

  /** The i-th letter of `ascii_lowercase`. */
  function Letter(i: nat): (c: char)
    requires i < AlphabetSize
    ensures IsLower(c)
  {
    ('a' as int + i) as char
  }

  /** Position of a lower-case letter in `ascii_lowercase`; the inverse of Letter. */
  function Index(c: char): (i: nat)
    requires IsLower(c)
    ensures i < AlphabetSize && Letter(i) == c
  {
    c as int - 'a' as int
  }

  lemma IndexOfLetter(i: nat)
    requires i < AlphabetSize
    ensures Index(Letter(i)) == i
  {
  }

  /** `s.count(c)`: how many times c occurs in s. */
  function Count(s: string, c: char): (n: nat)
    ensures n <= |s|
    ensures n == 0 <==> forall i :: 0 <= i < |s| ==> s[i] != c
  {
    if s == [] then 0 else (if s[0] == c then 1 else 0) + Count(s[1..], c)
  }

  lemma {:induction false} CountAppend(s: string, t: string, c: char)
    ensures Count(s + t, c) == Count(s, c) + Count(t, c)
  {
    if s == [] {
      assert s + t == t;
    } else {
      assert (s + t)[1..] == s[1..] + t;
      CountAppend(s[1..], t, c);
    }
  }

  /** Sum of the counts of the letters Letter(0) .. Letter(n-1) in s. */
  function LetterCounts(s: string, n: nat): int
    requires n <= AlphabetSize
  {
    if n == 0 then 0 else LetterCounts(s, n - 1) + Count(s, Letter(n - 1))
  }

  /** In a lower-case string every position holds exactly one of the 26
      letters, so the 26 counts add up to the length. */
  lemma {:induction false} LetterCountsOfLower(s: string)
    requires AllLower(s)
    ensures LetterCounts(s, AlphabetSize) == |s|
  {
    if s == [] {
      LetterCountsEmpty(AlphabetSize);
    } else {
      assert s == [s[0]] + s[1..];
      LetterCountsSplit([s[0]], s[1..], AlphabetSize);
      LetterCountsOfLower(s[1..]);
      LetterCountsSingle(s[0], AlphabetSize);
    }
  }

  lemma {:induction false} LetterCountsEmpty(n: nat)
    requires n <= AlphabetSize
    ensures LetterCounts([], n) == 0
  {
    if n > 0 { LetterCountsEmpty(n - 1); }
  }

  lemma {:induction false} LetterCountsSplit(s: string, t: string, n: nat)
    requires n <= AlphabetSize
    ensures LetterCounts(s + t, n) == LetterCounts(s, n) + LetterCounts(t, n)
  {
    if n > 0 {
      LetterCountsSplit(s, t, n - 1);
      CountAppend(s, t, Letter(n - 1));
    }
  }

  lemma {:induction false} LetterCountsSingle(c: char, n: nat)
    requires IsLower(c) && n <= AlphabetSize
    ensures LetterCounts([c], n) == if Index(c) < n then 1 else 0
  {
    if n > 0 {
      LetterCountsSingle(c, n - 1);
      assert Count([c], Letter(n - 1)) == if Letter(n - 1) == c then 1 else 0 by {
        assert [c][1..] == [];
      }
    }
  }
}
