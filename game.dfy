/** The driver of the solver (`main.py`): the feedback a guess gets against
    the answer (`compare_to_ans`), the validation and decoding of a typed
    feedback line (`parse_response`), and the bounded round loop of one game
    (`guess_word`). */
module Game {
  import opened Common
  import opened Letters
  import opened TrieSpec
  import opened Trie
  import opened Engine

  // ---------------------------------------------------------------------
  // compare_to_ans

  /** The answer's letters at the positions the guess did not match, in
      order (the `text` of `compare_to_ans`): at most one per position, and
      each taken from the answer. */
  function Unmatched(guess: string, word: string, n: nat): (text: string)
    requires n <= |guess| == |word|
    ensures |text| <= n && forall c | c in text :: c in word
  {
    if n == 0 then []
    else Unmatched(guess, word, n - 1) + (if word[n - 1] != guess[n - 1] then [word[n - 1]] else [])
  }

  /** Letter c sits at some position of the answer that the guess does not
      match. */
  ghost predicate UnmatchedHas(guess: string, word: string, c: char, n: nat)
    requires n <= |guess| == |word|
  {
    exists j :: 0 <= j < n && word[j] == c && word[j] != guess[j]
  }

  lemma {:induction false} UnmatchedLetters(guess: string, word: string, c: char, n: nat)
    requires n <= |guess| == |word|
    ensures Count(Unmatched(guess, word, n), c) > 0 <==> UnmatchedHas(guess, word, c, n)
  {
    if n > 0 {
      UnmatchedLetters(guess, word, c, n - 1);
      var tail := if word[n - 1] != guess[n - 1] then [word[n - 1]] else [];
      CountAppend(Unmatched(guess, word, n - 1), tail, c);
      UnmatchedHasStep(guess, word, c, n);
    }
  }

  /** The letters unmatched in the first n positions are those of the first
      n - 1 and the one at position n - 1 if it is unmatched. */
  lemma UnmatchedHasStep(guess: string, word: string, c: char, n: nat)
    requires 0 < n <= |guess| == |word|
    ensures UnmatchedHas(guess, word, c, n) <==>
      UnmatchedHas(guess, word, c, n - 1) || (word[n - 1] == c && word[n - 1] != guess[n - 1])
  {
    if UnmatchedHas(guess, word, c, n) && !UnmatchedHas(guess, word, c, n - 1) {
      var j :| 0 <= j < n && word[j] == c && word[j] != guess[j];
      assert j == n - 1;
    }
    if word[n - 1] == c && word[n - 1] != guess[n - 1] {
      assert UnmatchedHas(guess, word, c, n);
    }
  }

  /** The verdict `compare_to_ans` gives position i: GREEN exactly when the
      letters match; otherwise YELLOW exactly when the guess letter occurs at
      a position of the answer that the guess does not match, and BLACK
      else. Repeated letters are not rationed as in standard Wordle. */
  ghost predicate IsVerdict(guess: string, word: string, i: nat, v: Verdict)
    requires i < |guess| == |word|
  {
    (v == Green <==> guess[i] == word[i]) &&
    (guess[i] != word[i] ==> (v == Yellow <==> UnmatchedHas(guess, word, guess[i], |word|)))
  }

  /** The feedback a guess gets against the answer: at each position the
      guess letter and its verdict. */
  ghost function Feedback(guess: string, word: string): (resp: seq<(char, Verdict)>)
    requires |guess| == |word|
    ensures |resp| == |guess|
    ensures forall i | 0 <= i < |guess| :: resp[i].0 == guess[i] && IsVerdict(guess, word, i, resp[i].1)
    ensures AllLower(guess) ==> LowerLetters(resp)
  {
    seq(|guess|, i requires 0 <= i < |guess| =>
      (guess[i], if guess[i] == word[i] then Green
                 else if UnmatchedHas(guess, word, guess[i], |word|) then Yellow
                 else Black))
  }

  /** The verdict of a position is determined: two verdicts that both fit
      are the same. */
  lemma VerdictUnique(guess: string, word: string, i: nat, v: Verdict, v': Verdict)
    requires i < |guess| == |word| && IsVerdict(guess, word, i, v) && IsVerdict(guess, word, i, v')
    ensures v == v'
  {
  }

  /** So a response that spells the guess with fitting verdicts is the
      feedback. */
  lemma FeedbackUnique(guess: string, word: string, resp: seq<(char, Verdict)>)
    requires |guess| == |word| == |resp|
    requires forall i | 0 <= i < |guess| :: resp[i].0 == guess[i] && IsVerdict(guess, word, i, resp[i].1)
    ensures resp == Feedback(guess, word)
  {
    var f := Feedback(guess, word);
    forall i | 0 <= i < |guess| ensures resp[i] == f[i] {
      VerdictUnique(guess, word, i, resp[i].1, f[i].1);
    }
  }

  /** `compare_to_ans(guess, word)` (the source asserts equal lengths). */
  method CompareToAns(guess: string, word: string) returns (resp: seq<(char, Verdict)>)
    requires |guess| == |word|
    ensures |resp| == |guess|
    ensures forall i | 0 <= i < |guess| :: resp[i].0 == guess[i] && IsVerdict(guess, word, i, resp[i].1)
    ensures resp == Feedback(guess, word)
  {
    resp := [];
    var idx := 0;
    while idx < |guess|
      invariant idx <= |guess| && |resp| == idx
      invariant forall i | 0 <= i < idx :: resp[i].0 == guess[i] && IsVerdict(guess, word, i, resp[i].1)
    {
      var c := guess[idx];
      var v := Green;
      if Count(word, c) == 0 {
        v := Black;
      } else if word[idx] != c {
        var text := Unmatched(guess, word, |word|);
        UnmatchedLetters(guess, word, c, |word|);
        if Count(text, c) > 0 {
          v := Yellow;
        } else {
          v := Black;
        }
      }
      AbsentIsBlack(guess, word, idx);
      resp := resp + [(c, v)];
      idx := idx + 1;
    }
    FeedbackUnique(guess, word, resp);
  }

  /** A letter the answer does not contain at all is BLACK. */
  lemma AbsentIsBlack(guess: string, word: string, i: nat)
    requires i < |guess| == |word|
    ensures Count(word, guess[i]) == 0 ==> guess[i] != word[i] && !UnmatchedHas(guess, word, guess[i], |word|)
  {
  }

  /** With the verdicts of `compare_to_ans`, a letter absent from the answer
      is always BLACK. */
  lemma AbsentLetterBlack(guess: string, word: string, i: nat, v: Verdict)
    requires i < |guess| == |word| && IsVerdict(guess, word, i, v)
    requires forall j | 0 <= j < |word| :: word[j] != guess[i]
    ensures v == Black
  {
  }

  // ---------------------------------------------------------------------
  // parse_response

  /** `s[k::3]`: the characters at positions k, k+3, k+6, ... */
  function Stride(s: string, k: nat): (r: string)
    decreases |s| - k
  {
    if k >= |s| then [] else [s[k]] + Stride(s, k + 3)
  }

  lemma {:induction false} StrideIndex(s: string, k: nat)
    ensures |Stride(s, k)| == if k >= |s| then 0 else (|s| - k + 2) / 3
    ensures forall j | 0 <= j < |Stride(s, k)| :: k + 3 * j < |s| && Stride(s, k)[j] == s[k + 3 * j]
    decreases |s| - k
  {
    if k < |s| {
      StrideIndex(s, k + 3);
      var r := Stride(s, k);
      forall j | 0 <= j < |r| ensures k + 3 * j < |s| && r[j] == s[k + 3 * j] {
        if j > 0 {
          assert r[j] == Stride(s, k + 3)[j - 1];
        }
      }
    }
  }

  /** `get_rep`: 'b' is BLACK, 'g' is GREEN, anything else YELLOW. */
  function Rep(x: char): (v: Verdict)
    ensures v == Black <==> x == 'b'
    ensures v == Green <==> x == 'g'
  {
    if x == 'b' then Black else if x == 'g' then Green else Yellow
  }

  /** The validation of `parse_response` for a guess of length wordLen
      (`WORD_LEN`, 5 in the source). */
  predicate WellFormedLine(raw: string, guess: string, wordLen: nat) {
    |raw| == 3 * wordLen - 1 &&
    Elements(Stride(raw, 0)) <= {'b', 'y', 'g'} &&
    Stride(raw, 1) == guess &&
    Elements(Stride(raw, 2)) == {','}
  }

  /** One validation pass and the decoding of `parse_response`; None where
      the source asks for the line again. An accepted line has one group per
      letter, at least two of them, and decodes to one pair per letter,
      spelling the guess, with b, g and y read as BLACK, GREEN and YELLOW. */
  function ParseResponse(raw: string, guess: string, wordLen: nat): (r: Option<seq<(char, Verdict)>>)
    ensures r.Some? ==> |raw| == 3 * wordLen - 1 && |r.value| == wordLen == |guess| >= 2
    ensures r.Some? ==> forall j | 0 <= j < wordLen ::
      r.value[j].0 == guess[j] &&
      (raw[3 * j] == 'b' ==> r.value[j].1 == Black) &&
      (raw[3 * j] == 'g' ==> r.value[j].1 == Green) &&
      (raw[3 * j] == 'y' ==> r.value[j].1 == Yellow)
  {
    if !WellFormedLine(raw, guess, wordLen) then None
    else
      WellFormedLineShape(raw, guess, wordLen);
      Some(Decode(raw, wordLen))
  }

  /** The pairs read off a line of the stated format: group j holds the
      verdict code at 3j and the letter at 3j + 1. */
  function Decode(raw: string, wordLen: nat): (pairs: seq<(char, Verdict)>)
    requires |raw| == 3 * wordLen - 1
    ensures |pairs| == wordLen
  {
    seq(wordLen, j requires 0 <= j < wordLen => (raw[3 * j + 1], Rep(raw[3 * j])))
  }

  /** Index form of the line format: verdict codes at 0, 3, 6, ..., the
      guess letters at 1, 4, 7, ..., commas at 2, 5, 8, ... */
  ghost predicate LineShape(raw: string, guess: string, wordLen: nat) {
    |raw| == 3 * wordLen - 1 && |guess| == wordLen &&
    (forall j | 0 <= j < wordLen :: raw[3 * j] in {'b', 'y', 'g'} && raw[3 * j + 1] == guess[j]) &&
    (forall j | 0 <= j < wordLen - 1 :: raw[3 * j + 2] == ',')
  }

  /** A line passes exactly when it has the format and at least one comma,
      that is, at least two letters. */
  lemma WellFormedLineShape(raw: string, guess: string, wordLen: nat)
    ensures WellFormedLine(raw, guess, wordLen) <==> LineShape(raw, guess, wordLen) && wordLen >= 2
  {
    if |raw| == 3 * wordLen - 1 && wordLen >= 1 {
      StrideIndex(raw, 0);
      StrideIndex(raw, 1);
      StrideIndex(raw, 2);
      assert |Stride(raw, 0)| == wordLen && |Stride(raw, 1)| == wordLen && |Stride(raw, 2)| == wordLen - 1;
      if WellFormedLine(raw, guess, wordLen) {
        forall j | 0 <= j < wordLen ensures raw[3 * j] in {'b', 'y', 'g'} {
          assert Stride(raw, 0)[j] in Elements(Stride(raw, 0));
        }
        forall j | 0 <= j < wordLen - 1 ensures raw[3 * j + 2] == ',' {
          assert Stride(raw, 2)[j] in Elements(Stride(raw, 2));
        }
        assert ',' in Elements(Stride(raw, 2));
      }
      if LineShape(raw, guess, wordLen) && wordLen >= 2 {
        assert Stride(raw, 1) == guess;
        assert Stride(raw, 2)[0] == ',';
        assert Elements(Stride(raw, 2)) == {','};
      }
    } else if wordLen == 0 {
      assert |raw| != 3 * wordLen - 1;
    } else {
      assert !WellFormedLine(raw, guess, wordLen);
    }
  }



  /** The letter a verdict is typed as. */
  function Code(v: Verdict): char {
    match v
    case Black => 'b'
    case Yellow => 'y'
    case Green => 'g'
  }

  /** The line of the stated format for a list of pairs:
      `<code><letter>` groups joined by commas. */
  function Encode(pairs: seq<(char, Verdict)>): (line: string)
    requires |pairs| >= 1
    ensures |line| == 3 * |pairs| - 1
  {
    seq(3 * |pairs| - 1, i requires 0 <= i < 3 * |pairs| - 1 =>
      if i % 3 == 0 then Code(pairs[i / 3].1) else if i % 3 == 1 then pairs[i / 3].0 else ',')
  }

  /** The letters of a list of pairs. */
  function Spelled(pairs: seq<(char, Verdict)>): (s: string)
    ensures |s| == |pairs| && forall j | 0 <= j < |pairs| :: s[j] == pairs[j].0
  {
    seq(|pairs|, j requires 0 <= j < |pairs| => pairs[j].0)
  }

  /** Group j of an encoded line: its code, its letter, then a comma unless
      it is the last group. */
  lemma EncodeAt(pairs: seq<(char, Verdict)>, j: nat)
    requires j < |pairs|
    ensures Encode(pairs)[3 * j] == Code(pairs[j].1) && Encode(pairs)[3 * j + 1] == pairs[j].0
    ensures j < |pairs| - 1 ==> Encode(pairs)[3 * j + 2] == ','
  {
    assert (3 * j) / 3 == j && (3 * j) % 3 == 0;
    assert (3 * j + 1) / 3 == j && (3 * j + 1) % 3 == 1;
    assert (3 * j + 2) % 3 == 2;
  }

  lemma EncodeShape(pairs: seq<(char, Verdict)>)
    requires |pairs| >= 1
    ensures LineShape(Encode(pairs), Spelled(pairs), |pairs|)
  {
    forall j | 0 <= j < |pairs| ensures Encode(pairs)[3 * j] in {'b', 'y', 'g'} && Encode(pairs)[3 * j + 1] == Spelled(pairs)[j] {
      EncodeAt(pairs, j);
    }
    forall j | 0 <= j < |pairs| - 1 ensures Encode(pairs)[3 * j + 2] == ',' {
      EncodeAt(pairs, j);
    }
  }

  /** Round trip: the line written for two or more pairs is accepted for the
      guess those pairs spell and decodes back to the same pairs. */
  lemma ParseEncode(pairs: seq<(char, Verdict)>)
    requires |pairs| >= 2
    ensures ParseResponse(Encode(pairs), Spelled(pairs), |pairs|) == Some(pairs)
  {
    EncodeShape(pairs);
    WellFormedLineShape(Encode(pairs), Spelled(pairs), |pairs|);
    DecodeEncode(pairs);
  }

  /** The other half of the round trip: an accepted line is exactly the line
      its pairs join back to. */
  lemma EncodeParse(raw: string, guess: string, wordLen: nat)
    requires ParseResponse(raw, guess, wordLen).Some?
    ensures Encode(ParseResponse(raw, guess, wordLen).value) == raw
  {
    WellFormedLineShape(raw, guess, wordLen);
    var pairs := ParseResponse(raw, guess, wordLen).value;
    var line := Encode(pairs);
    forall i | 0 <= i < |raw| ensures line[i] == raw[i] {
      var j := i / 3;
      EncodeAt(pairs, j);
      assert i == 3 * j + i % 3;
    }
  }

  /** Decoding undoes encoding, group by group. */
  lemma DecodeEncode(pairs: seq<(char, Verdict)>)
    requires |pairs| >= 1
    ensures Decode(Encode(pairs), |pairs|) == pairs
  {
    var line := Encode(pairs);
    var r := Decode(line, |pairs|);
    forall j | 0 <= j < |pairs| ensures r[j] == pairs[j] {
      EncodeAt(pairs, j);
      RepCode(pairs[j].1);
      assert r[j] == (line[3 * j + 1], Rep(line[3 * j]));
    }
    assert r == pairs;
  }

  /** Reading a typed verdict code gives the verdict back. */
  lemma RepCode(v: Verdict)
    ensures Rep(Code(v)) == v
  {
  }

  // ---------------------------------------------------------------------
  // guess_word

  /** What a missed guess does to the session: its feedback against the
      answer updates the tracker states cs to cs', and the trie root is
      purged under cs' into root'. */
  ghost predicate Missed(root: Tree, cs: seq<Constraint>, guess: string, word: string, wordLen: nat,
                         root': Tree, cs': seq<Constraint>) {
    |guess| == |word| == wordLen && AllLower(guess) && |cs| == AlphabetSize && WellFormed(root) &&
    cs' == RespondUpTo(cs, Feedback(guess, word), wordLen, wordLen) &&
    root' == Purge(root, cs')
  }

  /** The part of a session the rounds depend on: a well-formed trie below a
      letterless root, holding only words of the vocabulary, and 26 tracker
      states. */
  ghost predicate Session(root: Tree, cs: seq<Constraint>, vocabulary: set<string>, wordLen: nat) {
    WellFormed(root) && root.ctrl.None? && |cs| == AlphabetSize &&
    Vocabulary(vocabulary, wordLen) && Words(root) <= vocabulary
  }

  /** What a game from round k of n on reports, with gs the words it
      guessed: every guess is a word of the vocabulary; a win comes at the
      first guess equal to the answer, within the rounds left; a loss uses
      up all of them, each guess missing; a walk that finds nothing ends it
      early, every guess before it missing. */
  ghost predicate Reported(r: Option<(bool, nat)>, gs: seq<string>, vocabulary: set<string>, word: string,
                           k: nat, n: nat) {
    (forall j | 0 <= j < |gs| :: gs[j] in vocabulary) &&
    (r.Some? && r.value.0 ==>
      k < r.value.1 <= n && |gs| == r.value.1 - k && gs[|gs| - 1] == word &&
      forall j | 0 <= j < |gs| - 1 :: gs[j] != word) &&
    (r.Some? && !r.value.0 ==>
      r.value.1 == n && |gs| == n - k && forall j | 0 <= j < |gs| :: gs[j] != word) &&
    (r.None? ==> k + |gs| < n && forall j | 0 <= j < |gs| :: gs[j] != word)
  }

  /** A missed guess of the vocabulary before a game from round k + 1 on
      makes a game from round k on. */
  lemma ReportedCons(game: (Option<(bool, nat)>, seq<string>), rest: (Option<(bool, nat)>, seq<string>),
                     g: string, vocabulary: set<string>, word: string, k: nat, n: nat)
    requires Reported(rest.0, rest.1, vocabulary, word, k + 1, n) && g in vocabulary && g != word
    requires game == Later([g], rest)
    ensures Reported(game.0, game.1, vocabulary, word, k, n)
  {
    var gs := game.1;
    assert forall j | 1 <= j < |gs| :: gs[j] == rest.1[j - 1];
  }

  /** A game whose earlier rounds guessed `before`. */
  function Later(before: seq<string>, rest: (Option<(bool, nat)>, seq<string>)): (Option<(bool, nat)>, seq<string>) {
    (rest.0, before + rest.1)
  }

  /** Later stacks: no earlier rounds change nothing, and earlier rounds
      add up in order. */
  lemma LaterStacks(a: seq<string>, b: seq<string>, rest: (Option<(bool, nat)>, seq<string>))
    ensures Later([], rest) == rest
    ensures Later(a, Later(b, rest)) == Later(a + b, rest)
    ensures Later(a, (rest.0, [])) == (rest.0, a)
  {
    assert [] + rest.1 == rest.1;
    assert a + (b + rest.1) == (a + b) + rest.1;
    assert a + [] == a;
  }

  /** The round loop of `guess_word`, from round k of n on, for a round
      function `play` that maps the state a round starts from to its guess
      and the state after a miss (None: the walk found no word). The result
      is what `guess_word` returns, and the words guessed from round k on. */
  ghost function Rounds<S>(play: S -> Option<(string, S)>, s: S, word: string, k: nat, n: nat)
    : (res: (Option<(bool, nat)>, seq<string>))
    requires k <= n
    ensures |res.1| <= n - k
    decreases n - k
  {
    if k >= n then (Some((false, n)), [])
    else match play(s)
      case None => (None, [])
      case Some((g, s')) =>
        if g == word then (Some((true, k + 1)), [g])
        else Later([g], Rounds(play, s', word, k + 1, n))
  }

  /** A game reports as Reported whenever every guess of its round function
      is a word of the vocabulary. */
  lemma {:induction false} RoundsReported<S>(play: S -> Option<(string, S)>, s: S, word: string,
                                           vocabulary: set<string>, k: nat, n: nat)
    requires k <= n
    requires forall t :: play(t).Some? ==> play(t).value.0 in vocabulary
    ensures Reported(Rounds(play, s, word, k, n).0, Rounds(play, s, word, k, n).1, vocabulary, word, k, n)
    decreases n - k
  {
    if k < n && play(s).Some? && play(s).value.0 != word {
      var (g, s') := play(s).value;
      RoundsReported(play, s', word, vocabulary, k + 1, n);
      ReportedCons(Rounds(play, s, word, k, n), Rounds(play, s', word, k + 1, n), g, vocabulary, word, k, n);
    }
  }

  /** How one round of the game goes: out of rounds, no word found, the
      answer guessed, or a missed guess followed by the game from the next
      round on. */
  lemma RoundsStep<S>(play: S -> Option<(string, S)>, s: S, word: string, k: nat, n: nat)
    requires k <= n
    ensures k == n ==> Rounds(play, s, word, k, n) == (Some((false, n)), [])
    ensures k < n && play(s).None? ==> Rounds(play, s, word, k, n) == (None, [])
    ensures k < n && play(s).Some? && play(s).value.0 == word ==>
      Rounds(play, s, word, k, n) == (Some((true, k + 1)), [word])
    ensures k < n && play(s).Some? && play(s).value.0 != word ==>
      Rounds(play, s, word, k, n) == Later([play(s).value.0], Rounds(play, play(s).value.1, word, k + 1, n))
  { }

  /** The state a round of `guess_word` starts from: the trie, the 26
      tracker states, and the index of the round's first random draw. */
  datatype Turn = Turn(root: Tree, cs: seq<Constraint>, draw: nat)

  /** One round of `guess_word` over the word list `vocabulary` of words of
      length wordLen: the walk of the trie picks the guess; a miss feeds its
      feedback against the answer to the trackers, purges the trie under
      them and moves the draws 2 * wordLen on. A state that is not a
      session of the list plays no round. */
  ghost function Play(vocabulary: set<string>, word: string, wordLen: nat, rand: (nat, int, int) -> int, t: Turn)
    : (r: Option<(string, Turn)>)
    ensures r.Some? ==> r.value.0 in vocabulary
  {
    if !(Session(t.root, t.cs, vocabulary, wordLen) && IsRandInt(rand) && |word| == wordLen) then None
    else match Select(t.root, rand, t.draw)
      case None => None
      case Some(g) =>
        GuessStep(t.root, t.cs, vocabulary, word, wordLen, rand, t.draw, g);
        var cs' := RespondUpTo(t.cs, Feedback(g, word), wordLen, wordLen);
        Some((g, Turn(Purge(t.root, cs'), cs', t.draw + 2 * wordLen)))
  }

  /** Play as a round function. */
  ghost function Player(vocabulary: set<string>, word: string, wordLen: nat, rand: (nat, int, int) -> int)
    : Turn -> Option<(string, Turn)>
  {
    t => Play(vocabulary, word, wordLen, rand, t)
  }

  /** Every guess of Player is a word of the list. */
  lemma PlayerGuesses(vocabulary: set<string>, word: string, wordLen: nat, rand: (nat, int, int) -> int)
    ensures var play := Player(vocabulary, word, wordLen, rand);
      forall t :: play(t).Some? ==> play(t).value.0 in vocabulary
  { }

  /** A guess of a session is a lower-case word of its vocabulary, and
      missing with it leaves a session over the same vocabulary. */
  lemma GuessStep(root: Tree, cs: seq<Constraint>, vocabulary: set<string>, word: string, wordLen: nat,
                  rand: (nat, int, int) -> int, d: nat, g: string)
    requires Session(root, cs, vocabulary, wordLen) && IsRandInt(rand) && |word| == wordLen
    requires Select(root, rand, d) == Some(g)
    ensures g in vocabulary && |g| == wordLen && AllLower(g) && LowerLetters(Feedback(g, word))
    ensures var cs' := RespondUpTo(cs, Feedback(g, word), wordLen, wordLen);
      Session(Purge(root, cs'), cs', vocabulary, wordLen)
  {
    PurgeWordsSubset(root, RespondUpTo(cs, Feedback(g, word), wordLen, wordLen));
  }

  /** `guess_word(word, n_guesses)` over the word list `wordlist` of words of
      length wordLen, its first round drawing from `draw` on: the game of
      Player from the trie of the whole list and fresh trackers. The result
      is (solved, rounds), or None when a walk finds no word (the source
      raises there); `guesses` are the words guessed, in order, and the
      game reports as Reported. */
  method GuessWord(wordlist: seq<string>, wordLen: nat, word: string, nGuesses: nat,
                   rand: (nat, int, int) -> int, draw: nat)
    returns (r: Option<(bool, nat)>, ghost guesses: seq<string>)
    requires Vocabulary(Elements(wordlist), wordLen) && |word| == wordLen && IsRandInt(rand)
    ensures (r, guesses) == Rounds(Player(Elements(wordlist), word, wordLen, rand),
                                 Turn(Build(None, -1, [], Elements(wordlist), wordLen), InitialStates(wordLen), draw),
                                 word, 0, nGuesses)
    ensures Reported(r, guesses, Elements(wordlist), word, 0, nGuesses)
    ensures r.Some? && r.value.0 ==> word in Elements(wordlist)
  {
    var wt := new WordTree(wordLen, wordlist);
    r, guesses := PlayRounds(wt, word, nGuesses, rand, draw);
    PlayerGuesses(Elements(wordlist), word, wordLen, rand);
    RoundsReported(Player(Elements(wordlist), word, wordLen, rand),
                 Turn(Build(None, -1, [], Elements(wordlist), wordLen), InitialStates(wordLen), draw),
                 word, Elements(wordlist), 0, nGuesses);
  }

  /** The round loop of `guess_word` on a session wt: it plays the game of
      Player from the session's trie and tracker states. */
  method PlayRounds(wt: WordTree, word: string, nGuesses: nat, rand: (nat, int, int) -> int, draw: nat)
    returns (r: Option<(bool, nat)>, ghost guesses: seq<string>)
    requires wt.Valid() && |word| == wt.wordLen && IsRandInt(rand)
    modifies wt, wt.reg[..]
    ensures wt.Valid()
    ensures (r, guesses) == Rounds(Player(wt.vocabulary, word, wt.wordLen, rand),
                                   Turn(old(wt.root), old(States(wt.reg)), draw), word, 0, nGuesses)
  {
    ghost var play := Player(wt.vocabulary, word, wt.wordLen, rand);
    ghost var turn := Turn(wt.root, States(wt.reg), draw);
    ghost var game := Rounds(play, turn, word, 0, nGuesses);
    guesses := [];
    var i: nat, d: nat := 0, draw;
    LaterStacks([], [], game);
    while i < nGuesses
      invariant i <= nGuesses && wt.Valid() && |word| == wt.wordLen
      invariant turn.root == wt.root && turn.cs == States(wt.reg) && turn.draw == d
      invariant game == Later(guesses, Rounds(play, turn, word, i, nGuesses))
    {
      var guess := PlayRound(wt, word, rand, d, turn);
      RoundsStep(play, turn, word, i, nGuesses);
      if guess.None? {
        LaterStacks(guesses, [], (None, []));
        return None, guesses;
      }
      if guess.value == word {
        return Some((true, i + 1)), guesses + [word];
      }
      LaterStacks(guesses, [guess.value], Rounds(play, play(turn).value.1, word, i + 1, nGuesses));
      guesses, turn := guesses + [guess.value], play(turn).value.1;
      i, d := i + 1, d + 2 * |word|;
    }
    RoundsStep(play, turn, word, i, nGuesses);
    LaterStacks(guesses, [], (Some((false, nGuesses)), []));
    return Some((false, nGuesses)), guesses;
  }

  /** One round of `guess_word` from the state t of the session wt: the
      next guess, the walk of the current trie with the draws from `draw`
      on, and, unless the guess is the answer, its feedback fed back to the
      engine. The round is Play from t; a round that finds no word or the
      answer leaves the session as it was. */
  method PlayRound(wt: WordTree, word: string, rand: (nat, int, int) -> int, draw: nat, ghost t: Turn)
    returns (guess: Option<string>)
    requires wt.Valid() && |word| == wt.wordLen && IsRandInt(rand)
    requires t.root == wt.root && t.cs == States(wt.reg) && t.draw == draw
    modifies wt, wt.reg[..]
    ensures wt.Valid()
    ensures var next := Play(wt.vocabulary, word, wt.wordLen, rand, t);
      (guess.None? <==> next.None?) && (guess.Some? ==> guess.value == next.value.0) &&
      (guess.Some? && guess.value != word ==>
         next.value.1.root == wt.root && next.value.1.cs == States(wt.reg) && next.value.1.draw == draw + 2 * wt.wordLen)
    ensures guess.None? || guess.value == word ==>
      wt.root == old(wt.root) && States(wt.reg) == old(States(wt.reg))
  {
    PlayGuess(wt.vocabulary, word, wt.wordLen, rand, t);
    guess := wt.GetNextWord(rand, draw);
    if guess.Some? && guess.value != word {
      Answer(wt, guess.value, word);
      PlayMissed(wt.vocabulary, word, wt.wordLen, rand, t, guess.value, wt.root, States(wt.reg));
    }
  }

  /** The guess of Play is the word the walk of the trie selects. */
  lemma PlayGuess(vocabulary: set<string>, word: string, wordLen: nat, rand: (nat, int, int) -> int, t: Turn)
    requires Session(t.root, t.cs, vocabulary, wordLen) && IsRandInt(rand) && |word| == wordLen
    ensures var p := Play(vocabulary, word, wordLen, rand, t);
      (p.None? <==> Select(t.root, rand, t.draw).None?) && (p.Some? ==> p.value.0 == Select(t.root, rand, t.draw).value)
  { }

  /** Play walks the trie as Select does, and a missed guess leads to the
      state Missed describes. */
  lemma PlayMissed(vocabulary: set<string>, word: string, wordLen: nat, rand: (nat, int, int) -> int, t: Turn,
                   g: string, root': Tree, cs': seq<Constraint>)
    requires Session(t.root, t.cs, vocabulary, wordLen) && IsRandInt(rand) && |word| == wordLen
    requires Select(t.root, rand, t.draw) == Some(g)
    requires Missed(t.root, t.cs, g, word, wordLen, root', cs')
    ensures var p := Play(vocabulary, word, wordLen, rand, t);
      p.Some? && p.value.0 == g &&
      p.value.1.root == root' && p.value.1.cs == cs' && p.value.1.draw == t.draw + 2 * wordLen
  { }

  /** A missed guess: its feedback against the answer, fed to the engine. */
  method Answer(wt: WordTree, guess: string, word: string)
    requires wt.Valid() && guess in wt.vocabulary && |word| == wt.wordLen
    modifies wt, wt.reg[..]
    ensures wt.Valid()
    ensures Missed(old(wt.root), old(States(wt.reg)), guess, word, wt.wordLen, wt.root, States(wt.reg))
  {
    var resp := CompareToAns(guess, word);
    assert unchanged(wt, wt.reg) && unchanged(wt.reg[..]);
    Feed(wt, resp);
  }

  /** `wt.process_response(resp)`, seen from the round loop: the trackers
      take the whole response and the trie is purged under them. */
  method Feed(wt: WordTree, resp: seq<(char, Verdict)>)
    requires wt.Valid() && LowerLetters(resp) && |resp| <= wt.wordLen
    modifies wt, wt.reg[..]
    ensures wt.Valid()
    ensures States(wt.reg) == RespondUpTo(old(States(wt.reg)), resp, wt.wordLen, |resp|)
    ensures wt.root == Purge(old(wt.root), States(wt.reg))
  {
    wt.ProcessResponse(resp);
  }
}
