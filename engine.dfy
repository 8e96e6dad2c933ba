/** The session engine (`WordTree` in WordTree.py): it owns the registry of
    the 26 letter trackers, the candidate trie and the letter-frequency
    table, and turns each round's feedback into tracker updates followed by
    a purge of the trie.

    What one feedback entry does to the trackers is first stated on values
    (`Respond`, over the sequence of the 26 tracker states), with its
    properties; the methods that update the trackers in place are proved to
    follow it. */
module Engine {
  import opened Common
  import opened Letters
  import opened TrieSpec
  import opened Trie

  /** The three verdicts of a feedback entry (`WordTree.BLACK`, `YELLOW`,
      `GREEN`, the integers 0, 1 and 2 in the source). */
  datatype Verdict = Black | Yellow | Green

  // ---------------------------------------------------------------------
  // What feedback does to the tracker states

  /** `mark_illegal_position` applied to the tracker of Letter(k). */
  function ExcludeAt(cs: seq<Constraint>, k: nat, position: nat, implied: bool): (r: seq<Constraint>)
    requires |cs| == AlphabetSize && k < AlphabetSize
    ensures |r| == AlphabetSize
  {
    cs[k := MarkIllegal(cs[k], position, implied)]
  }

  /** A BLACK entry on one tracker: the letter excluded at positions
      0 .. n-1 in turn. Every one of those positions that is not confirmed
      joins the excluded set; nothing else about the tracker's positions
      changes. */
  function ExcludeRun(c: Constraint, n: nat): (r: Constraint)
    ensures r.letter == c.letter && r.wordLen == c.wordLen
    ensures r.truePositions == c.truePositions
    ensures forall p: nat :: p in r.falsePositions <==> p in c.falsePositions || (p < n && p !in c.truePositions)
  {
    if n == 0 then c else MarkIllegal(ExcludeRun(c, n - 1), n - 1, false)
  }

  /** The rest of a GREEN entry: the letters Letter(0) .. Letter(n-1) other
      than Letter(k) each excluded at `position`, unless confirmed there;
      the tracker of Letter(k) and those after Letter(n-1) are untouched. */
  function ExcludeOthers(cs: seq<Constraint>, k: nat, position: nat, n: nat): (r: seq<Constraint>)
    requires |cs| == AlphabetSize
    ensures |r| == AlphabetSize
    ensures forall j | 0 <= j < AlphabetSize ::
      r[j].letter == cs[j].letter && r[j].wordLen == cs[j].wordLen && r[j].truePositions == cs[j].truePositions
    ensures forall j | 0 <= j < AlphabetSize && (n <= j || j == k) :: r[j] == cs[j]
    ensures forall j | 0 <= j < n && j < AlphabetSize && j != k && position !in cs[j].truePositions ::
      r[j].falsePositions == cs[j].falsePositions + {position}
  {
    seq(AlphabetSize, j requires 0 <= j < AlphabetSize =>
      if j < n && j != k then MarkIllegal(cs[j], position, false) else cs[j])
  }

  /** One entry `(letter, verdict)` of a response, at index `idx`, for words
      of length `wordLen`; `RespondEffect` states what it does. */
  function Respond(cs: seq<Constraint>, idx: nat, letter: char, v: Verdict, wordLen: nat): (r: seq<Constraint>)
    requires |cs| == AlphabetSize && IsLower(letter)
    ensures |r| == AlphabetSize
  {
    var k := Index(letter);
    match v
    case Black => cs[k := ExcludeRun(cs[k], wordLen)]
    case Yellow => ExcludeAt(cs, k, idx, true)
    case Green => ExcludeOthers(cs[k := MarkLegal(cs[k], idx)], k, idx, AlphabetSize)
  }

  /** A response is a list of (letter, verdict) pairs over lower-case letters. */
  predicate LowerLetters(response: seq<(char, Verdict)>) {
    forall i :: 0 <= i < |response| ==> IsLower(response[i].0)
  }

  /** The tracker states after the first n entries of a response; every
      tracker keeps its letter and word length. */
  function RespondUpTo(cs: seq<Constraint>, response: seq<(char, Verdict)>, wordLen: nat, n: nat): (r: seq<Constraint>)
    requires |cs| == AlphabetSize && n <= |response| && LowerLetters(response)
    ensures |r| == AlphabetSize
    ensures forall j | 0 <= j < AlphabetSize :: r[j].letter == cs[j].letter && r[j].wordLen == cs[j].wordLen
  {
    if n == 0 then cs
    else
      var prev := RespondUpTo(cs, response, wordLen, n - 1);
      RespondEffect(prev, n - 1, response[n - 1].0, response[n - 1].1, wordLen);
      Respond(prev, n - 1, response[n - 1].0, response[n - 1].1, wordLen)
  }

  /** What one entry does to the trackers. Every tracker keeps its letter
      and word length; no confirmed position is lost, and an excluded
      position stays excluded unless it becomes confirmed. BLACK and YELLOW
      touch only the letter's own tracker: BLACK excludes it at every
      position of the word where it is not confirmed, YELLOW at idx. GREEN
      confirms it at idx. */
  lemma RespondEffect(cs: seq<Constraint>, idx: nat, letter: char, v: Verdict, wordLen: nat)
    requires |cs| == AlphabetSize && IsLower(letter)
    ensures var r := Respond(cs, idx, letter, v, wordLen);
      (forall j | 0 <= j < AlphabetSize :: r[j].letter == cs[j].letter && r[j].wordLen == cs[j].wordLen) &&
      (forall j | 0 <= j < AlphabetSize ::
        cs[j].truePositions <= r[j].truePositions && cs[j].falsePositions <= r[j].falsePositions + r[j].truePositions) &&
      (v != Green ==> forall j | 0 <= j < AlphabetSize && j != Index(letter) :: r[j] == cs[j]) &&
      (v == Black ==> forall p: nat | p < wordLen && p !in cs[Index(letter)].truePositions ::
        p in r[Index(letter)].falsePositions) &&
      (v == Yellow && idx !in cs[Index(letter)].truePositions ==> idx in r[Index(letter)].falsePositions) &&
      (v == Green ==> idx in r[Index(letter)].truePositions)
  {
  }

  /** Feedback only tightens the trackers: after any number of entries every
      confirmed position stays confirmed, and every excluded position stays
      excluded or has become confirmed. */
  lemma {:induction false} RespondUpToTightens(cs: seq<Constraint>, response: seq<(char, Verdict)>, wordLen: nat, n: nat)
    requires |cs| == AlphabetSize && n <= |response| && LowerLetters(response)
    ensures var r := RespondUpTo(cs, response, wordLen, n);
      forall j | 0 <= j < AlphabetSize ::
        cs[j].truePositions <= r[j].truePositions && cs[j].falsePositions <= r[j].falsePositions + r[j].truePositions
  {
    if n > 0 {
      RespondUpToTightens(cs, response, wordLen, n - 1);
      RespondEffect(RespondUpTo(cs, response, wordLen, n - 1), n - 1, response[n - 1].0, response[n - 1].1, wordLen);
    }
  }

  /** All 26 trackers are consistent and speak of words of length `wordLen`. */
  ghost predicate AllConsistent(cs: seq<Constraint>, wordLen: nat) {
    |cs| == AlphabetSize &&
    forall i :: 0 <= i < AlphabetSize ==> cs[i].letter == Letter(i) && cs[i].wordLen == wordLen && Consistent(cs[i])
  }

  /** The positions 0 .. n-1. */
  function Positions(n: nat): (r: set<nat>)
    ensures forall p: nat :: p in r <==> p < n
    ensures |r| == n
  {
    if n == 0 then {} else Positions(n - 1) + {n - 1}
  }

  /** Excluding one letter at a position within the word keeps all 26
      trackers consistent. */
  lemma ExcludeAtConsistent(cs: seq<Constraint>, wordLen: nat, k: nat, position: nat, implied: bool)
    requires AllConsistent(cs, wordLen) && k < AlphabetSize && position < wordLen
    ensures AllConsistent(ExcludeAt(cs, k, position, implied), wordLen)
  {
    var r := ExcludeAt(cs, k, position, implied);
    assert r[k] == MarkIllegal(cs[k], position, implied);
  }

  /** A BLACK entry on one tracker excludes the letter at every position
      0 .. n-1 where it is not confirmed and keeps the tracker consistent. */
  lemma {:induction false} ExcludeRunEffect(c: Constraint, n: nat)
    requires Consistent(c) && n <= c.wordLen
    ensures var r := ExcludeRun(c, n);
      Consistent(r) && r.letter == c.letter && r.wordLen == c.wordLen &&
      r.truePositions == c.truePositions &&
      r.falsePositions == c.falsePositions + (Positions(n) - c.truePositions)
  {
    if n > 0 {
      ExcludeRunEffect(c, n - 1);
    }
    ExcludeRunPositions(c, n);
  }

  /** The positions a run excludes, as a set. */
  lemma ExcludeRunPositions(c: Constraint, n: nat)
    ensures ExcludeRun(c, n).falsePositions == c.falsePositions + (Positions(n) - c.truePositions)
  {
  }


  /** Any feedback entry at an index within the word keeps the trackers
      consistent. */
  lemma RespondConsistent(cs: seq<Constraint>, wordLen: nat, idx: nat, letter: char, v: Verdict)
    requires AllConsistent(cs, wordLen) && IsLower(letter) && idx < wordLen
    ensures AllConsistent(Respond(cs, idx, letter, v, wordLen), wordLen)
  {
    var k := Index(letter);
    match v
    case Black => ExcludeRunEffect(cs[k], wordLen);
    case Yellow => ExcludeAtConsistent(cs, wordLen, k, idx, true);
    case Green => GreenConsistent(cs, wordLen, k, idx);
  }

  lemma GreenConsistent(cs: seq<Constraint>, wordLen: nat, k: nat, idx: nat)
    requires AllConsistent(cs, wordLen) && k < AlphabetSize && idx < wordLen
    ensures AllConsistent(ExcludeOthers(cs[k := MarkLegal(cs[k], idx)], k, idx, AlphabetSize), wordLen)
  {
    MarkLegalConsistent(cs[k], idx);
    var cs' := cs[k := MarkLegal(cs[k], idx)];
    assert AllConsistent(cs', wordLen);
    var r := ExcludeOthers(cs', k, idx, AlphabetSize);
    assert forall j | 0 <= j < AlphabetSize && j != k :: r[j] == MarkIllegal(cs'[j], idx, false);
  }

  /** A GREEN entry confirms its letter at idx and leaves every other letter
      excluded there, unless that letter was already confirmed there: no
      other letter can be placed at idx any more. */
  lemma GreenRulesOutOthers(cs: seq<Constraint>, wordLen: nat, idx: nat, letter: char)
    requires AllConsistent(cs, wordLen) && IsLower(letter) && idx < wordLen
    ensures var r := Respond(cs, idx, letter, Green, wordLen);
      idx in r[Index(letter)].truePositions &&
      forall j, prefix | 0 <= j < AlphabetSize && j != Index(letter) && idx !in cs[j].truePositions ::
        idx in r[j].falsePositions && !Feasible(r, j, idx, prefix)
  {
    var k := Index(letter);
    MarkLegalConsistent(cs[k], idx);
    var cs' := cs[k := MarkLegal(cs[k], idx)];
    var r := ExcludeOthers(cs', k, idx, AlphabetSize);
    assert forall j | 0 <= j < AlphabetSize && j != k :: r[j] == MarkIllegal(cs'[j], idx, false);
  }

  /** A BLACK entry for a letter with no confirmed position rules the letter
      out everywhere: its maximum drops to 0, so no placement of it is
      feasible, and no other tracker changes. */
  lemma BlackRulesOutLetter(cs: seq<Constraint>, wordLen: nat, idx: nat, letter: char)
    requires AllConsistent(cs, wordLen) && IsLower(letter) && cs[Index(letter)].truePositions == {}
    ensures var r := Respond(cs, idx, letter, Black, wordLen);
      r[Index(letter)].maxCount == 0 &&
      (forall position, prefix :: !Feasible(r, Index(letter), position, prefix)) &&
      forall j | 0 <= j < AlphabetSize && j != Index(letter) :: r[j] == cs[j]
  {
    var k := Index(letter);
    ExcludeRunEffect(cs[k], wordLen);
    var r := ExcludeRun(cs[k], wordLen);
    assert r.falsePositions == Positions(wordLen);
  }

  // ---------------------------------------------------------------------
  // Updating the trackers in place

  /** The registry's trackers are 26 distinct objects. */
  lemma RegistryDistinct(reg: array<LetterControl>, k: nat)
    requires IsRegistry(reg) && k < AlphabetSize
    ensures forall j | 0 <= j < AlphabetSize && j != k :: reg[j] != reg[k]
  {
    forall j | 0 <= j < AlphabetSize && j != k ensures reg[j] != reg[k] {
      IndexOfLetter(j);
      IndexOfLetter(k);
    }
  }

  /** The registry holds trackers for words of length `wordLen` that are all
      consistent: the same as `AllConsistent` of its states. */
  lemma RegistryStates(reg: array<LetterControl>, wordLen: nat)
    requires reg.Length == AlphabetSize
    ensures IsRegistry(reg) && reg[0].wordLen == wordLen <==> AllConsistent(States(reg), wordLen)
  {
  }

  /** The BLACK branch of `process_response`: the letter's tracker excludes
      every position of the word in turn. */
  method ExcludeEverywhere(reg: array<LetterControl>, k: nat, wordLen: nat)
    requires IsRegistry(reg) && reg[0].wordLen == wordLen && k < AlphabetSize
    modifies reg[k]
    ensures IsRegistry(reg)
    ensures States(reg) == old(States(reg))[k := ExcludeRun(old(States(reg))[k], wordLen)]
  {
    ghost var cs := States(reg);
    RegistryDistinct(reg, k);
    var block := reg[k];
    var i := 0;
    while i < wordLen
      invariant i <= wordLen
      invariant block.State() == ExcludeRun(cs[k], i)
    {
      block.MarkIllegalPosition(i, false);
      i := i + 1;
    }
    ExcludeRunEffect(cs[k], wordLen);
    assert States(reg) == cs[k := ExcludeRun(cs[k], wordLen)];
  }

  /** The rest of the GREEN branch: every other letter's tracker excludes
      `position`, in alphabet order. */
  method ExcludeOthersAt(reg: array<LetterControl>, k: nat, position: nat)
    requires IsRegistry(reg) && k < AlphabetSize && position < reg[0].wordLen
    modifies reg[..]
    ensures IsRegistry(reg)
    ensures States(reg) == ExcludeOthers(old(States(reg)), k, position, AlphabetSize)
  {
    ghost var cs := States(reg);
    var i := 0;
    while i < AlphabetSize
      invariant i <= AlphabetSize && IsRegistry(reg) && position < reg[0].wordLen
      invariant States(reg) == ExcludeOthers(cs, k, position, i)
    {
      ExcludeOtherStep(reg, k, position, cs, i);
      i := i + 1;
    }
  }

  /** One turn of the loop of `ExcludeOthersAt`, for Letter(i). */
  method ExcludeOtherStep(reg: array<LetterControl>, k: nat, position: nat, ghost cs: seq<Constraint>, i: nat)
    requires IsRegistry(reg) && k < AlphabetSize && i < AlphabetSize && position < reg[0].wordLen
    requires |cs| == AlphabetSize && States(reg) == ExcludeOthers(cs, k, position, i)
    modifies reg[i]
    ensures IsRegistry(reg) && States(reg) == ExcludeOthers(cs, k, position, i + 1)
  {
    ExcludeOthersNext(cs, k, position, i);
    if i != k {
      ExcludeOne(reg, i, position, false);
    }
  }

  lemma ExcludeOthersNext(cs: seq<Constraint>, k: nat, position: nat, i: nat)
    requires |cs| == AlphabetSize && i < AlphabetSize
    ensures ExcludeOthers(cs, k, position, i + 1) ==
      if i != k then ExcludeAt(ExcludeOthers(cs, k, position, i), i, position, false)
      else ExcludeOthers(cs, k, position, i)
  {
  }

  /** `mark_illegal_position` on the tracker of Letter(k), through the
      registry. */
  method ExcludeOne(reg: array<LetterControl>, k: nat, position: nat, implied: bool)
    requires IsRegistry(reg) && k < AlphabetSize && position < reg[0].wordLen
    modifies reg[k]
    ensures IsRegistry(reg)
    ensures States(reg) == ExcludeAt(old(States(reg)), k, position, implied)
  {
    RegistryDistinct(reg, k);
    reg[k].MarkIllegalPosition(position, implied);
  }

  /** `mark_legal_position` on the tracker of Letter(k), through the
      registry. */
  method ConfirmOne(reg: array<LetterControl>, k: nat, position: nat)
    requires IsRegistry(reg) && k < AlphabetSize && position < reg[0].wordLen
    modifies reg[k]
    ensures IsRegistry(reg)
    ensures States(reg) == old(States(reg))[k := MarkLegal(old(States(reg))[k], position)]
  {
    RegistryDistinct(reg, k);
    MarkLegalConsistent(reg[k].State(), position);
    reg[k].MarkLegalPosition(position);
  }

  /** One entry of `process_response`, at index idx. */
  method RespondEntry(reg: array<LetterControl>, wordLen: nat, idx: nat, letter: char, v: Verdict)
    requires IsRegistry(reg) && reg[0].wordLen == wordLen && IsLower(letter) && idx < wordLen
    modifies reg[..]
    ensures IsRegistry(reg)
    ensures States(reg) == Respond(old(States(reg)), idx, letter, v, wordLen)
  {
    var k := Index(letter);
    match v {
      case Black =>
        ExcludeEverywhere(reg, k, wordLen);
      case Yellow =>
        ExcludeOne(reg, k, idx, true);
      case Green =>
        ConfirmOne(reg, k, idx);
        ExcludeOthersAt(reg, k, idx);
    }
  }

  /** The 26 tracker states read off the registry, for the purge. */
  method Snapshot(reg: array<LetterControl>) returns (cs: seq<Constraint>)
    requires reg.Length == AlphabetSize
    ensures cs == States(reg)
  {
    cs := [];
    var i := 0;
    while i < AlphabetSize
      invariant i <= AlphabetSize && cs == States(reg)[..i]
    {
      cs := cs + [reg[i].State()];
      i := i + 1;
    }
  }

  // ---------------------------------------------------------------------
  // Lemmas about the engine's trie

  /** `''.join(wordlist)`. */
  function Concat(ws: seq<string>): string {
    if ws == [] then [] else ws[0] + Concat(ws[1..])
  }

  /** The table `{c: 0 for c in ascii_lowercase}`. */
  function Zeros(): (f: map<char, int>)
    ensures FullTable(f)
  {
    map c | IsLower(c) :: 0
  }

  /** Once rebuilt from zeros by a purge, each letter's entry of the
      frequency table is that letter's gain: the weights its surviving
      active nodes end with. */
  lemma PurgeFreqIsGain(t: Tree, cs: seq<Constraint>, c: char)
    requires |cs| == AlphabetSize && WellFormed(t) && IsLower(c)
    ensures c in PurgeFreq(t, cs, Zeros()) && PurgeFreq(t, cs, Zeros())[c] == Gain(t, cs, c)
  {
    PurgeFreqAdds(t, cs, Zeros(), c);
  }

  /** A purge only removes words. */
  lemma PurgeWordsSubset(t: Tree, cs: seq<Constraint>)
    requires |cs| == AlphabetSize && WellFormed(t) && Active(t, cs)
    ensures Words(Purge(t, cs)) <= Words(t)
  {
    forall w | w in Words(Purge(t, cs)) ensures w in Words(t) {
      PurgeKeepsLiveWords(t, cs, w);
    }
  }

  /** The secret word survives every purge under trackers it satisfies. */
  lemma SatisfyingWordSurvives(root: Tree, cs: seq<Constraint>, w: string)
    requires |cs| == AlphabetSize && WellFormed(root) && root.ctrl.None? && root.prefix == []
    requires w in Words(root) && Satisfies(w, cs)
    ensures w in Words(Purge(root, cs))
  {
    assert ChildPrefix(root) + w == w;
    SatisfyingWordIsLive(root, cs, w);
    PurgeKeepsLiveWords(root, cs, w);
  }

  /** A trie built from a non-empty vocabulary has no dead end. */
  lemma {:induction false} BuildGrounded(ctrl: Option<char>, idx: int, prefix: string, sufs: set<string>, n: nat)
    requires Vocabulary(sufs, n) && sufs != {}
    ensures Grounded(Build(ctrl, idx, prefix, sufs, n))
    decreases n
  {
    var t := Build(ctrl, idx, prefix, sufs, n);
    var s :| s in sufs;
    assert s[0] in Firsts(sufs);
    assert s[0] in t.children;
    forall c | c in t.children ensures Grounded(t.children[c]) {
      if n > 1 {
        var v :| v in sufs && |v| > 0 && v[0] == c;
        assert v[1..] in Tails(sufs, c);
        TailsVocabulary(sufs, n, c);
        BuildGrounded(Some(c), idx + 1, prefix + Str(ctrl), Tails(sufs, c), n - 1);
      }
    }
  }

  /** Striking a word off the trie of a session leaves the trie of a
      session, one word smaller. */
  lemma StrikeKeepsRoot(root: Tree, w: string, wordLen: nat, vocabulary: set<string>)
    requires WellFormed(root) && Sized(root) && !root.isLeaf && (root.size > 0 ==> Grounded(root))
    requires Vocabulary(vocabulary, wordLen) && Words(root) <= vocabulary
    requires Strike(root, w).Some?
    ensures var t := Strike(root, w).value.0;
      WellFormed(t) && Sized(t) && !t.isLeaf && (t.size > 0 ==> Grounded(t)) &&
      t.ctrl == root.ctrl && t.idx == root.idx && t.prefix == root.prefix &&
      |w| >= wordLen && Words(t) == Words(root) - {w[..wordLen]} && t.size == root.size - 1
  {
    StrikeReadsWordLength(root, w, wordLen);
    StrikeKeepsShape(root, w[..wordLen]);
    StrikeRemovesWord(root, w[..wordLen]);
    if root.size > 0 {
      StrikeKeepsGrounded(root, w[..wordLen]);
    }
  }

  /** In a trie whose words all have length n, a strike that succeeds reads
      exactly n letters: the word struck is the first n letters of w, one of
      the trie's words, and the letters after them are never looked at. */
  lemma StrikeReadsWordLength(t: Tree, w: string, n: nat)
    requires WellFormed(t) && forall v | v in Words(t) :: |v| == n
    requires Strike(t, w).Some?
    ensures |w| >= n && w[..n] in Words(t) && Strike(t, w) == Strike(t, w[..n])
  {
    LeafPathReadsWord(t, w, n);
    StrikeIgnoresRest(t, w, n);
  }

  /** A walk that reaches a leaf, in a trie whose words all have length n,
      reads a word of the trie: the first n letters of w. */
  lemma {:induction false} LeafPathReadsWord(t: Tree, w: string, n: nat)
    requires WellFormed(t) && forall v | v in Words(t) :: |v| == n
    requires LeafOnPath(t, w)
    ensures |w| >= n && w[..n] in Words(t) && LeafOnPath(t, w[..n])
    decreases |w|
  {
    if t.isLeaf {
      InWords(t, []);
    } else {
      var child := t.children[w[0]];
      ChildWordsShorter(t, w[0], n);
      if n == 0 {
        // a word of the child would be shorter than no letter at all
        LeafPathReadsWord(child, w[1..], 0);
        assert false;
      } else {
        LeafPathReadsWord(child, w[1..], n - 1);
        PrefixSplit(w, n);
        InWords(t, w[..n]);
      }
    }
  }

  /** A strike looks no further than the leaf it reaches. */
  lemma {:induction false} StrikeIgnoresRest(t: Tree, w: string, k: nat)
    requires k <= |w| && LeafOnPath(t, w[..k])
    ensures Strike(t, w) == Strike(t, w[..k])
    decreases k
  {
    if !t.isLeaf {
      PrefixSplit(w, k);
      StrikeIgnoresRest(t.children[w[0]], w[1..], k - 1);
      StrikeSameHead(t, w, w[..k]);
    }
  }

  /** A strike below an inner node depends only on the first letter and on
      the strike of the rest in that child. */
  lemma StrikeSameHead(t: Tree, w: string, w': string)
    requires !t.isLeaf && w != [] && w' != [] && w[0] == w'[0] && w[0] in t.children
    requires Strike(t.children[w[0]], w[1..]) == Strike(t.children[w[0]], w'[1..])
    ensures Strike(t, w) == Strike(t, w')
  {
  }

  /** Below the root, the words of a child are one letter shorter. */
  lemma ChildWordsShorter(t: Tree, c: char, n: nat)
    requires WellFormed(t) && c in t.children && forall v | v in Words(t) :: |v| == n
    ensures forall v | v in Words(t.children[c]) :: |v| + 1 == n
  {
    forall v | v in Words(t.children[c]) ensures |v| + 1 == n {
      InWords(t, [c] + v);
      assert ([c] + v)[1..] == v;
    }
  }

  lemma PrefixSplit(w: string, k: nat)
    requires 0 < k <= |w|
    ensures w[..k] == [w[0]] + w[1..][..k - 1] && w[..k][0] == w[0] && w[..k][1..] == w[1..][..k - 1]
  {
  }

  /** The 26 trackers of a new session, Letter(i) in slot i, each in its
      initial state. */
  method NewTrackers(wordLen: nat) returns (blocks: seq<LetterControl>)
    ensures |blocks| == AlphabetSize
    ensures forall i | 0 <= i < AlphabetSize ::
      fresh(blocks[i]) && blocks[i].letter == Letter(i) && blocks[i].wordLen == wordLen &&
      blocks[i].State() == Initial(Letter(i), wordLen)
  {
    blocks := [];
    var i := 0;
    while i < AlphabetSize
      invariant i <= AlphabetSize && |blocks| == i
      invariant forall j | 0 <= j < i ::
        fresh(blocks[j]) && blocks[j].letter == Letter(j) && blocks[j].wordLen == wordLen &&
        blocks[j].State() == Initial(Letter(j), wordLen)
    {
      var block := new LetterControl(Letter(i), wordLen);
      blocks := blocks + [block];
      i := i + 1;
    }
  }

  /** The states of 26 fresh trackers, one per letter of the alphabet. */
  function InitialStates(wordLen: nat): (cs: seq<Constraint>)
    ensures |cs| == AlphabetSize
    ensures forall i | 0 <= i < AlphabetSize :: cs[i] == Initial(Letter(i), wordLen)
  {
    seq(AlphabetSize, i requires 0 <= i < AlphabetSize => Initial(Letter(i), wordLen))
  }

  /** A registry of 26 fresh trackers in their initial states. */
  method NewRegistry(wordLen: nat) returns (reg: array<LetterControl>)
    ensures fresh(reg) && IsRegistry(reg) && reg[0].wordLen == wordLen
    ensures forall i | 0 <= i < AlphabetSize :: fresh(reg[i])
    ensures forall i | 0 <= i < AlphabetSize :: States(reg)[i] == Initial(Letter(i), wordLen)
    ensures States(reg) == InitialStates(wordLen)
  {
    var blocks := NewTrackers(wordLen);
    reg := new LetterControl[AlphabetSize](i requires 0 <= i < AlphabetSize => blocks[i]);
    forall i | 0 <= i < AlphabetSize ensures Consistent(Initial(Letter(i), wordLen)) {
      InitialConsistent(Letter(i), wordLen);
    }
  }

  /** The trie of a word list below a dummy root (`TreeNode(position=-1)`
      followed by `add_children`): it holds exactly the distinct words, has
      consistent sizes, and has no dead end when the list is not empty. */
  method GrowRoot(wordlist: seq<string>, wordLen: nat) returns (root: Tree)
    requires Vocabulary(Elements(wordlist), wordLen)
    ensures root == Build(None, -1, [], Elements(wordlist), wordLen)
    ensures WellFormed(root) && Sized(root) && !root.isLeaf
    ensures root.ctrl.None? && root.idx == -1 && root.prefix == []
    ensures Words(root) == Elements(wordlist) && root.size == |Elements(wordlist)|
    ensures Elements(wordlist) != {} ==> Grounded(root)
    ensures root.size > 0 ==> Grounded(root)
  {
    root := AddChildren(Fresh(None, -1, []), wordlist, wordLen);
    BuildHoldsVocabulary(None, -1, [], Elements(wordlist), wordLen);
    if Elements(wordlist) != {} {
      BuildGrounded(None, -1, [], Elements(wordlist), wordLen);
    }
  }

  /** The loop of `process_response` over the entries of a response: the
      registry passes through the given run of states, one per entry. */
  method RespondAll(reg: array<LetterControl>, wordLen: nat, response: seq<(char, Verdict)>,
                    ghost states: seq<seq<Constraint>>)
    requires IsRegistry(reg) && reg[0].wordLen == wordLen && |response| <= wordLen
    requires IsRun(states, response, wordLen) && States(reg) == states[0]
    modifies reg[..]
    ensures IsRegistry(reg) && reg[0].wordLen == wordLen && States(reg) == states[|response|]
  {
    var idx := 0;
    while idx < |response|
      invariant idx <= |response| && IsRegistry(reg) && reg[0].wordLen == wordLen
      invariant States(reg) == states[idx]
    {
      RespondNext(reg, wordLen, response, states, idx);
      idx := idx + 1;
    }
  }

  /** A run of tracker states for a response: entry n takes states[n] to
      states[n + 1]. */
  ghost predicate IsRun(states: seq<seq<Constraint>>, response: seq<(char, Verdict)>, wordLen: nat) {
    |states| == |response| + 1 && LowerLetters(response) &&
    (forall n | 0 <= n <= |response| :: |states[n]| == AlphabetSize) &&
    forall n {:trigger Respond(states[n], n, response[n].0, response[n].1, wordLen)} | 0 <= n < |response| ::
      states[n + 1] == Respond(states[n], n, response[n].0, response[n].1, wordLen)
  }

  /** The run of a response from cs0; its last state is `RespondUpTo` of all
      the entries. */
  lemma RunOf(cs0: seq<Constraint>, response: seq<(char, Verdict)>, wordLen: nat)
    returns (states: seq<seq<Constraint>>)
    requires |cs0| == AlphabetSize && LowerLetters(response)
    ensures IsRun(states, response, wordLen) && states[0] == cs0
    ensures states[|response|] == RespondUpTo(cs0, response, wordLen, |response|)
  {
    states := seq(|response| + 1, n requires 0 <= n <= |response| => RespondUpTo(cs0, response, wordLen, n));
  }

  /** The loop of `process_response`, followed by a reading of the 26
      tracker states the purge then consults. */
  method RespondAndRead(reg: array<LetterControl>, wordLen: nat, response: seq<(char, Verdict)>)
    returns (cs: seq<Constraint>)
    requires IsRegistry(reg) && reg[0].wordLen == wordLen && LowerLetters(response) && |response| <= wordLen
    modifies reg[..]
    ensures IsRegistry(reg) && reg[0].wordLen == wordLen && cs == States(reg)
    ensures cs == RespondUpTo(old(States(reg)), response, wordLen, |response|)
  {
    ghost var states := RunOf(States(reg), response, wordLen);
    RespondAll(reg, wordLen, response, states);
    cs := Snapshot(reg);
  }

  /** One turn of the loop of `process_response`, at index idx: the entry
      `response[idx]` takes the registry from states[idx] to states[idx + 1]
      of the run. */
  method RespondNext(reg: array<LetterControl>, wordLen: nat, response: seq<(char, Verdict)>,
                     ghost states: seq<seq<Constraint>>, idx: nat)
    requires IsRegistry(reg) && reg[0].wordLen == wordLen && IsRun(states, response, wordLen)
    requires idx < |response| <= wordLen && States(reg) == states[idx]
    modifies reg[..]
    ensures IsRegistry(reg) && reg[0].wordLen == wordLen
    ensures States(reg) == states[idx + 1]
  {
    ghost var cur := states[idx];
    assert states[idx + 1] == Respond(cur, idx, response[idx].0, response[idx].1, wordLen);
    RegistryStates(reg, wordLen);
    RespondConsistent(cur, wordLen, idx, response[idx].0, response[idx].1);
    RespondEntry(reg, wordLen, idx, response[idx].0, response[idx].1);
    RegistryStates(reg, wordLen);
  }

  /** `root.purge_inactive()` from a zeroed table: the root is always active,
      so the purged trie has consistent sizes, keeps only words it had, and
      has no dead end while it holds a word. */
  method PurgeRoot(root: Tree, cs: seq<Constraint>, zeros: map<char, int>) returns (purged: Tree, freq: map<char, int>)
    requires |cs| == AlphabetSize && WellFormed(root) && root.ctrl.None? && FullTable(zeros)
    ensures purged == Purge(root, cs) && freq == PurgeFreq(root, cs, zeros)
    ensures Sized(purged) && Words(purged) <= Words(root) && FullTable(freq)
    ensures purged.size > 0 ==> Grounded(purged)
  {
    purged, freq := PurgeInactive(root, cs, zeros);
    PurgeWordsSubset(root, cs);
    if purged.size > 0 {
      PurgeGrounded(root, cs);
    }
  }

  // ---------------------------------------------------------------------
  // The engine

  /** `WordTree`: the registry of trackers, the candidate trie (its root
      stands at position -1 and has no letter) and the frequency table. The
      ghost `vocabulary` is the word list the session started from. */
  class WordTree {
    const wordLen: nat
    const reg: array<LetterControl>
    ghost const vocabulary: set<string>
    var root: Tree
    var freq: map<char, int>

    /** The invariant of a session: a registry of consistent trackers for
        words of length `wordLen`; a well-formed trie with consistent sizes
        below a letterless inner root, holding only words of the vocabulary;
        a frequency entry for every letter. */
    ghost predicate Valid()
      reads this, reg, reg[..]
    {
      IsRegistry(reg) && reg[0].wordLen == wordLen &&
      Vocabulary(vocabulary, wordLen) &&
      WellFormed(root) && Sized(root) && !root.isLeaf &&
      (root.size > 0 ==> Grounded(root)) &&
      root.ctrl.None? && root.idx == -1 && root.prefix == [] &&
      Words(root) <= vocabulary &&
      FullTable(freq)
    }

    /** `WordTree(word_len, wordlist)`: letter counts of the whole list, 26
        fresh trackers, and the trie of the list grown below a dummy root. */
    constructor (wordLen: nat, wordlist: seq<string>)
      requires Vocabulary(Elements(wordlist), wordLen)
      ensures Valid() && fresh(reg) && forall i | 0 <= i < reg.Length :: fresh(reg[i])
      ensures this.wordLen == wordLen && vocabulary == Elements(wordlist)
      ensures States(reg) == InitialStates(wordLen)
      ensures root == Build(None, -1, [], Elements(wordlist), wordLen)
      ensures Words(root) == Elements(wordlist) && root.size == |Elements(wordlist)|
      ensures Elements(wordlist) != {} ==> Grounded(root)
      ensures freq == map c | IsLower(c) :: Count(Concat(wordlist), c)
    {
      freq := map c | IsLower(c) :: Count(Concat(wordlist), c);
      this.wordLen := wordLen;
      vocabulary := Elements(wordlist);
      var trackers := NewRegistry(wordLen);
      var grown := GrowRoot(wordlist, wordLen);
      reg, root := trackers, grown;
    }

    /** `get_next_word`: the weighted walk from the root, with the draws
        `draw`, `draw + 1`, ... of the random source. The word is one of the
        remaining candidates, and a walk through a trie without dead ends
        always finds one. */
    function GetNextWord(rand: (nat, int, int) -> int, draw: nat): (r: Option<string>)
      reads this, reg, reg[..]
      requires Valid() && IsRandInt(rand)
      ensures r.Some? ==> r.value in Words(root) && r.value in vocabulary && |r.value| == wordLen
      ensures Grounded(root) ==> r.Some?
      ensures root.size > 0 ==> r.Some?
    {
      Select(root, rand, draw)
    }

    /** `strike_word(w)`: remove a word from the trie. When the walk fails
        (a missing child, or w too short) the source raises before changing
        anything; the model reports false and keeps the trie. */
    method StrikeWord(w: string) returns (struck: bool)
      requires Valid()
      modifies this
      ensures Valid() && freq == old(freq)
      ensures struck == Strike(old(root), w).Some?
      ensures struck ==> root == Strike(old(root), w).value.0
      ensures struck ==> |w| >= wordLen && Words(root) == old(Words(root)) - {w[..wordLen]} && root.size == old(root.size) - 1
      ensures !struck ==> root == old(root)
    {
      match Strike(root, w)
      case None =>
        struck := false;
      case Some((t, _)) =>
        StrikeKeepsRoot(root, w, wordLen, vocabulary);
        root := t;
        struck := true;
    }

    /** `process_response`: every entry updates the trackers in order, then
        the frequency table restarts from zeros and the trie is purged under
        the new trackers, which rebuilds the table. The response must not be
        longer than the word. */
    method ProcessResponse(response: seq<(char, Verdict)>)
      requires Valid() && LowerLetters(response) && |response| <= wordLen
      modifies this, reg[..]
      ensures Valid()
      ensures States(reg) == RespondUpTo(old(States(reg)), response, wordLen, |response|)
      ensures root == Purge(old(root), States(reg))
      ensures freq == PurgeFreq(old(root), States(reg), Zeros())
      ensures root.size > 0 ==> Grounded(root)
    {
      var cs := UpdateTrackers(response);
      Refresh(cs);
    }

    /** The loop of `process_response` over the entries of the response; the
        trie and the table are untouched. */
    method UpdateTrackers(response: seq<(char, Verdict)>) returns (cs: seq<Constraint>)
      requires Valid() && LowerLetters(response) && |response| <= wordLen
      modifies reg[..]
      ensures Valid() && root == old(root) && freq == old(freq)
      ensures cs == States(reg) && cs == RespondUpTo(old(States(reg)), response, wordLen, |response|)
    {
      cs := RespondAndRead(reg, wordLen, response);
    }

    /** The end of `process_response`: the frequency table restarts from
        zeros and the trie is purged under the tracker states cs. */
    method Refresh(cs: seq<Constraint>)
      requires Valid() && cs == States(reg)
      modifies this
      ensures Valid() && States(reg) == cs
      ensures root == Purge(old(root), cs) && freq == PurgeFreq(old(root), cs, Zeros())
      ensures root.size > 0 ==> Grounded(root)
    {
      var purged, counts := PurgeRoot(root, cs, Zeros());
      root, freq := purged, counts;
    }
  }
}
