/** The per-letter constraint tracker (`LetterControl` in WordTree.py) and the
    registry of all 26 trackers of a session.

    A tracker's state is described by the value type `Constraint`; the pure
    functions `MarkIllegal`, `MarkLegal` and `Feasible` say what the three
    operations of the tracker do to (or compute from) that state, and the
    class `LetterControl` holds the state in mutable fields and is proved to
    follow those functions. The registry `_control_blocks` is an explicit
    26-slot array of trackers, slot i holding the tracker of Letter(i). */
module Letters {
  import opened Common

  /** The state of one tracker. */
  datatype Constraint = Constraint(
    letter: char,
    falsePositions: set<nat>,  // positions where the letter is known not to occur
    truePositions: set<nat>,   // positions where the letter is confirmed
    minCount: int,
    maxCount: int,
    atLarge: bool,             // an occurrence is known but not yet pinned to a position
    wordLen: nat)

  function Initial(letter: char, wordLen: nat): Constraint {
    Constraint(letter, {}, {}, 0, wordLen, false, wordLen)
  }

  /** The invariant every tracker keeps: the two position sets are disjoint
      and inside the word, every excluded position has taken one unit off the
      maximum, and the minimum counts the confirmed positions plus one
      unpinned occurrence when the at-large flag is set. */
  ghost predicate Consistent(k: Constraint) {
    k.falsePositions !! k.truePositions &&
    (forall p :: p in k.falsePositions ==> p < k.wordLen) &&
    (forall p :: p in k.truePositions ==> p < k.wordLen) &&
    k.maxCount + |k.falsePositions| == k.wordLen &&
    k.minCount == |k.truePositions| + (if k.atLarge then 1 else 0)
  }

  lemma InitialConsistent(letter: char, wordLen: nat)
    ensures Consistent(Initial(letter, wordLen))
  {
  }

  /** `mark_illegal_position`: the letter cannot occur at `position`. */
  function MarkIllegal(k: Constraint, position: nat, otherImplied: bool): (r: Constraint)
    ensures Consistent(k) && position < k.wordLen ==> Consistent(r)
    ensures r.letter == k.letter && r.wordLen == k.wordLen
    ensures r.truePositions == k.truePositions
    ensures position !in k.truePositions ==> r.falsePositions == k.falsePositions + {position}
    ensures position in k.falsePositions + k.truePositions ==> r == k
    ensures r.maxCount + (if position in k.falsePositions + k.truePositions then 0 else 1) == k.maxCount
    ensures k.minCount <= r.minCount <= k.minCount + 1
    ensures r.minCount == k.minCount + 1 <==> position !in k.falsePositions + k.truePositions && otherImplied && !k.atLarge
  {
    if position in k.truePositions || position in k.falsePositions then k
    else
      var k' := k.(falsePositions := k.falsePositions + {position}, maxCount := k.maxCount - 1);
      if otherImplied && !k.atLarge then k'.(atLarge := true, minCount := k.minCount + 1) else k'
  }

  /** `mark_legal_position`: the letter is confirmed at `position`. An
      earlier exclusion there is withdrawn and gives its unit of the maximum
      back; a fresh confirmation pins the at-large occurrence if there is one,
      and otherwise raises the minimum. */
  function MarkLegal(k: Constraint, position: nat): (r: Constraint)
    ensures r.letter == k.letter && r.wordLen == k.wordLen
    ensures r.truePositions == k.truePositions + {position}
    ensures position in k.truePositions ==> r == k
    ensures r.falsePositions == k.falsePositions - {position} || position in k.truePositions
    ensures r.maxCount == k.maxCount + (if position in k.falsePositions - k.truePositions then 1 else 0)
    ensures k.minCount <= r.minCount
    ensures r.minCount == k.minCount + 1 <==> position !in k.truePositions && !k.atLarge
  {
    if position in k.truePositions then k
    else
      var k' := if position in k.falsePositions
                then k.(falsePositions := k.falsePositions - {position}, maxCount := k.maxCount + 1)
                else k;
      var k'' := k'.(truePositions := k'.truePositions + {position});
      if k''.atLarge then k''.(atLarge := false) else k''.(minCount := k''.minCount + 1)
  }

  /** A confirmation within the word keeps a tracker consistent: a withdrawn
      exclusion gives back the unit it took off the maximum, and the
      confirmed position is counted by the minimum, directly or through the
      at-large occurrence it pins. */
  lemma MarkLegalConsistent(k: Constraint, position: nat)
    requires Consistent(k) && position < k.wordLen
    ensures Consistent(MarkLegal(k, position))
  {
    if position !in k.truePositions {
      if position in k.falsePositions {
        assert |k.falsePositions - {position}| == |k.falsePositions| - 1;
      }
      assert |k.truePositions + {position}| == |k.truePositions| + 1;
    }
  }

  /** One feedback-driven update of a tracker. */
  datatype Mark = Exclude(position: nat, otherImplied: bool) | Confirm(position: nat)

  function Apply(k: Constraint, m: Mark): Constraint {
    match m
    case Exclude(p, implied) => MarkIllegal(k, p, implied)
    case Confirm(p) => MarkLegal(k, p)
  }

  function Replay(k: Constraint, marks: seq<Mark>): Constraint
    decreases |marks|
  {
    if marks == [] then k else Replay(Apply(k, marks[0]), marks[1..])
  }

  function Restorations(k: Constraint, marks: seq<Mark>): nat
    decreases |marks|
  {
    if marks == [] then 0
    else
      (match marks[0]
       case Confirm(p) => if p in k.falsePositions - k.truePositions then 1 else 0
       case Exclude(_, _) => 0)
      + Restorations(Apply(k, marks[0]), marks[1..])
  }

  /** Constraints only tighten: over any sequence of updates within the word,
      the tracker stays consistent, confirmed positions are never lost, the
      minimum never falls, and the maximum never rises except by the units
      that confirmations of previously excluded positions give back. */
  lemma {:induction false} ReplayTightens(k: Constraint, marks: seq<Mark>)
    requires Consistent(k)
    requires forall i :: 0 <= i < |marks| ==> marks[i].position < k.wordLen
    ensures var r := Replay(k, marks);
      Consistent(r) && r.letter == k.letter && r.wordLen == k.wordLen &&
      k.truePositions <= r.truePositions &&
      k.minCount <= r.minCount &&
      r.maxCount <= k.maxCount + Restorations(k, marks)
    decreases |marks|
  {
    if marks != [] {
      if marks[0].Confirm? {
        MarkLegalConsistent(k, marks[0].position);
      }
      ReplayTightens(Apply(k, marks[0]), marks[1..]);
    }
  }

  /** Repeated "present but misplaced" reports at any positions raise the
      minimum at most once. */
  lemma {:induction false} MisplacedRaisesMinOnce(k: Constraint, positions: seq<nat>)
    ensures var marks := seq(|positions|, i requires 0 <= i < |positions| => Exclude(positions[i], true));
      Replay(k, marks).minCount <= k.minCount + (if k.atLarge then 0 else 1)
    ensures var marks := seq(|positions|, i requires 0 <= i < |positions| => Exclude(positions[i], true));
      k.atLarge ==> Replay(k, marks).minCount == k.minCount
    decreases |positions|
  {
    var marks := seq(|positions|, i requires 0 <= i < |positions| => Exclude(positions[i], true));
    if positions != [] {
      var tail := seq(|positions[1..]|, i requires 0 <= i < |positions[1..]| => Exclude(positions[1..][i], true));
      assert marks[1..] == tail;
      MisplacedRaisesMinOnce(MarkIllegal(k, positions[0], true), positions[1..]);
    }
  }

  // ---------------------------------------------------------------------
  // The feasibility test `is_legal`

  function Max0(x: int): nat {
    if x > 0 then x else 0
  }

  /** Sum over the letters Letter(0) .. Letter(n-1) of the occurrences each
      still needs beyond those already in `prefix`. */
  function Required(cs: seq<Constraint>, prefix: string, n: nat): int
    requires n <= |cs| && n <= AlphabetSize
  {
    if n == 0 then 0 else Required(cs, prefix, n - 1) + Max0(cs[n - 1].minCount - Count(prefix, Letter(n - 1)))
  }

  /** Whether letter k still needs an occurrence beyond those in `prefix`. */
  predicate Owes(cs: seq<Constraint>, k: nat, prefix: string)
    requires k < |cs| && k < AlphabetSize
  {
    cs[k].minCount - Count(prefix, Letter(k)) > 0
  }

  /** The occurrences still required in the positions after this one, when
      the placed letter itself settles one owed occurrence of letter k. */
  function Demand(cs: seq<Constraint>, k: nat, prefix: string): (d: int)
    requires |cs| == AlphabetSize && k < AlphabetSize
    ensures d >= 0
  {
    DemandCoversOwed(cs, k, prefix, AlphabetSize);
    Required(cs, prefix, AlphabetSize) - (if Owes(cs, k, prefix) then 1 else 0)
  }

  lemma {:induction false} DemandCoversOwed(cs: seq<Constraint>, k: nat, prefix: string, n: nat)
    requires |cs| == AlphabetSize && k < AlphabetSize && n <= AlphabetSize
    ensures Required(cs, prefix, n) >= if k < n && Owes(cs, k, prefix) then 1 else 0
  {
    if n > 0 { DemandCoversOwed(cs, k, prefix, n - 1); }
  }

  /** `is_legal`: may Letter(k) be placed at `position` after `prefix`, given
      the trackers `cs` of all 26 letters? It may not at an excluded position,
      nor when the prefix already holds the maximum number of copies, nor when
      the occurrences still owed by all letters do not fit in the positions
      after this one. A placement is therefore never feasible past the end of
      the word. */
  predicate Feasible(cs: seq<Constraint>, k: nat, position: nat, prefix: string)
    requires |cs| == AlphabetSize && k < AlphabetSize
    ensures Feasible(cs, k, position, prefix) ==> position < cs[k].wordLen
  {
    position !in cs[k].falsePositions &&
    Count(prefix, Letter(k)) < cs[k].maxCount &&
    Demand(cs, k, prefix) < cs[k].wordLen - position
  }

  /** A word satisfies the trackers when it has their length, is lower-case,
      holds every letter between its minimum and maximum number of times, and
      has each letter at its confirmed positions and not at its excluded ones. */
  ghost predicate Satisfies(w: string, cs: seq<Constraint>) {
    |cs| == AlphabetSize && AllLower(w) &&
    forall i :: 0 <= i < AlphabetSize ==>
      cs[i].wordLen == |w| &&
      cs[i].minCount <= Count(w, Letter(i)) <= cs[i].maxCount &&
      (forall p :: p in cs[i].falsePositions ==> p < |w| && w[p] != Letter(i)) &&
      (forall p :: p in cs[i].truePositions ==> p < |w| && w[p] == Letter(i))
  }

  /** Pruning is sound: every letter of a word that satisfies all trackers is
      feasible at its position after the letters before it. */
  lemma FeasibleAlongSatisfyingWord(w: string, cs: seq<Constraint>, p: nat)
    requires Satisfies(w, cs) && p < |w|
    ensures Feasible(cs, Index(w[p]), p, w[..p])
  {
    var k := Index(w[p]);
    var s, rest := w[..p], w[p..];
    assert w == s + rest;
    forall i | 0 <= i < AlphabetSize
      ensures cs[i].minCount <= Count(s, Letter(i)) + Count(rest, Letter(i))
    {
      CountAppend(s, rest, Letter(i));
    }
    assert rest == [w[p]] + rest[1..];
    CountAppend([w[p]], rest[1..], w[p]);
    assert Count([w[p]], w[p]) == 1;
    RequiredWithinRest(cs, k, s, rest, AlphabetSize);
    assert AllLower(rest);
    LetterCountsOfLower(rest);
    CountAppend(s, rest, w[p]);
  }

  lemma {:induction false} RequiredWithinRest(cs: seq<Constraint>, k: nat, s: string, rest: string, n: nat)
    requires |cs| == AlphabetSize && k < AlphabetSize && n <= AlphabetSize
    requires forall i :: 0 <= i < AlphabetSize ==> cs[i].minCount <= Count(s, Letter(i)) + Count(rest, Letter(i))
    requires Count(rest, Letter(k)) >= 1
    ensures Required(cs, s, n) - (if k < n && Owes(cs, k, s) then 1 else 0)
            <= LetterCounts(rest, n) - (if k < n then 1 else 0)
  {
    if n > 0 {
      RequiredWithinRest(cs, k, s, rest, n - 1);
    }
  }

  // ---------------------------------------------------------------------
  // The mutable tracker and the registry

  class LetterControl {
    const letter: char
    const wordLen: nat
    var falsePositions: set<nat>
    var truePositions: set<nat>
    var minCount: int
    var atLarge: bool
    var maxCount: int

    function State(): Constraint
      reads this
    {
      Constraint(letter, falsePositions, truePositions, minCount, maxCount, atLarge, wordLen)
    }

    constructor (letter: char, wordLen: nat)
      requires IsLower(letter)
      ensures State() == Initial(letter, wordLen)
    {
      this.letter := letter;
      this.wordLen := wordLen;
      falsePositions, truePositions := {}, {};
      minCount, maxCount := 0, wordLen;
      atLarge := false;
    }

    method MarkIllegalPosition(position: nat, otherImplied: bool)
      modifies this
      ensures State() == MarkIllegal(old(State()), position, otherImplied)
    {
      if position in truePositions || position in falsePositions {
        return;
      }
      falsePositions := falsePositions + {position};
      maxCount := maxCount - 1;
      if otherImplied && !atLarge {
        atLarge := true;
        minCount := minCount + 1;
      }
    }

    method MarkLegalPosition(position: nat)
      modifies this
      ensures State() == MarkLegal(old(State()), position)
    {
      if position in truePositions {
        return;
      }
      if position in falsePositions {
        falsePositions := falsePositions - {position};
        maxCount := maxCount + 1;
      }
      truePositions := truePositions + {position};
      if atLarge {
        atLarge := false;
      } else {
        minCount := minCount + 1;
      }
    }

    /** `is_legal`, reading the other trackers through the registry. */
    method IsLegal(reg: array<LetterControl>, position: nat, prefix: string) returns (legal: bool)
      requires IsRegistry(reg) && IsLower(letter) && reg[Index(letter)] == this
      ensures legal == Feasible(States(reg), Index(letter), position, prefix)
      ensures IsRegistry(reg) && States(reg) == old(States(reg))
    {
      ghost var cs := States(reg);
      ghost var k := Index(letter);
      var reqCount := 0;
      var i := 0;
      while i < AlphabetSize
        invariant 0 <= i <= AlphabetSize
        invariant reqCount == Required(cs, prefix, i) - (if k < i && Owes(cs, k, prefix) then 1 else 0)
      {
        var c := Letter(i);
        var need := reg[i].minCount - Count(prefix, c);
        reqCount := reqCount + Max0(need);
        if c == letter && need > 0 {
          reqCount := reqCount - 1;
        }
        i := i + 1;
      }
      legal := position !in falsePositions && Count(prefix, letter) < maxCount && reqCount < wordLen - position;
    }
  }

  /** The registry: 26 trackers, slot i for Letter(i), all for one word length. */
  ghost predicate IsRegistry(reg: array<LetterControl>)
    reads reg, reg[..]
  {
    reg.Length == AlphabetSize &&
    forall i :: 0 <= i < AlphabetSize ==>
      reg[i].letter == Letter(i) && reg[i].wordLen == reg[0].wordLen && Consistent(reg[i].State())
  }

  ghost function States(reg: array<LetterControl>): (cs: seq<Constraint>)
    reads reg, reg[..]
    ensures |cs| == reg.Length
    ensures forall i :: 0 <= i < reg.Length ==> cs[i] == reg[i].State()
  {
    seq(reg.Length, i reads reg, reg[..] requires 0 <= i < reg.Length => reg[i].State())
  }
}
