/** The loops of `TreeNode` in WordTree.py, run over trie values: growing a
    fresh node's subtree from a list of suffixes (`add_children`), asking a
    node's tracker whether it is still possible (`is_active`) and pruning a
    subtree (`purge_inactive`). Each method is proved to produce exactly the
    `TrieSpec` value (Build, Purge, PurgeFreq), whose properties are proved
    there. */
module Trie {
  import opened Common
  import opened Letters
  import opened TrieSpec

  /** A node as the `TreeNode` constructor leaves it: no children, size 0,
      not a leaf. */
  function Fresh(ctrl: Option<char>, position: int, prefix: string): Tree {
    Tree(ctrl, position, prefix, map[], 0, false)
  }

  /** `list(s)` for a set of suffixes, in some order. */
  method ListOf(s: set<string>) returns (xs: seq<string>)
    ensures Elements(xs) == s
  {
    xs := [];
    var rest := s;
    while rest != {}
      invariant Elements(xs) + rest == s
      decreases rest
    {
      var x :| x in rest;
      xs := xs + [x];
      rest := rest - {x};
    }
  }

  /** `add_children(suffix_list)` on a fresh node: the first pass creates a
      child for every first letter and collects each letter's suffixes in
      `suffix_dict`; the second pass, in alphabet order, grows the children
      that have suffixes and marks the others as leaves, summing the sizes.
      For suffixes of one common length the result is the trie `Build`
      describes, which holds exactly the given suffixes. */
  method AddChildren(node: Tree, suffixList: seq<string>, ghost n: nat) returns (grown: Tree)
    requires node.children == map[] && node.size == 0 && !node.isLeaf
    requires Vocabulary(Elements(suffixList), n)
    ensures grown == Build(node.ctrl, node.idx, node.prefix, Elements(suffixList), n)
    decreases n, 2
  {
    ghost var sufs := Elements(suffixList);
    var kids, suffixDict := Collect(node, suffixList, n);
    var size := 0;
    var j := 0;
    while j < AlphabetSize
      invariant j <= AlphabetSize
      invariant Grown(node, sufs, n, j, kids, size)
    {
      kids, size := GrowChild(node, sufs, n, suffixDict, j, kids, size);
      j := j + 1;
    }
    GrownEnd(node, sufs, n, kids, size);
    grown := node.(children := kids, size := size);
  }

  /** What the first pass of `add_children` has built from the suffixes
      `sufs`: a fresh child (at position `idx`, after `prefix`) for every
      first letter, and for every letter the set of its tails. */
  ghost predicate Collected(idx: int, prefix: string, sufs: set<string>,
                            kids: map<char, Tree>, suffixDict: map<char, set<string>>)
  {
    kids.Keys == Firsts(sufs) &&
    (forall c | c in kids :: kids[c] == Fresh(Some(c), idx, prefix)) &&
    (forall c :: c in suffixDict <==> IsLower(c)) &&
    (forall c | c in suffixDict :: suffixDict[c] == Tails(sufs, c))
  }

  /** The first pass of `add_children`: a fresh child for every first letter,
      and the set of tails of every letter. */
  method Collect(node: Tree, suffixList: seq<string>, ghost n: nat)
    returns (kids: map<char, Tree>, suffixDict: map<char, set<string>>)
    requires Vocabulary(Elements(suffixList), n)
    ensures Collected(node.idx + 1, node.prefix + Str(node.ctrl), Elements(suffixList), kids, suffixDict)
  {
    var childPrefix := node.prefix + Str(node.ctrl);
    kids := map[];
    suffixDict := map c | IsLower(c) :: {};
    var i := 0;
    while i < |suffixList|
      invariant i <= |suffixList|
      invariant Collected(node.idx + 1, childPrefix, Elements(suffixList[..i]), kids, suffixDict)
    {
      kids, suffixDict := CollectOne(node.idx + 1, childPrefix, suffixList, n, i, kids, suffixDict);
      i := i + 1;
    }
    assert suffixList[..i] == suffixList;
  }

  /** One suffix of the first pass: a child for its first letter unless there
      is one, and its tail added to that letter's set. */
  method CollectOne(idx: int, childPrefix: string, suffixList: seq<string>, ghost n: nat, i: nat,
                    kids: map<char, Tree>, suffixDict: map<char, set<string>>)
    returns (kids': map<char, Tree>, suffixDict': map<char, set<string>>)
    requires i < |suffixList| && Vocabulary(Elements(suffixList), n)
    requires Collected(idx, childPrefix, Elements(suffixList[..i]), kids, suffixDict)
    ensures Collected(idx, childPrefix, Elements(suffixList[..i + 1]), kids', suffixDict')
  {
    var suf := suffixList[i];
    CollectStep(suffixList, n, i);
    kids', suffixDict' := kids, suffixDict;
    if suf[0] !in kids {
      kids' := kids[suf[0] := Fresh(Some(suf[0]), idx, childPrefix)];
    }
    assert kids'.Keys == kids.Keys + {suf[0]};
    if |suf| > 1 {
      suffixDict' := suffixDict[suf[0] := suffixDict[suf[0]] + {suf[1..]}];
    }
  }

  /** Taking one more suffix from the list adds its first letter and, to
      that letter's tails, the rest of it. */
  lemma CollectStep(suffixList: seq<string>, n: nat, i: nat)
    requires i < |suffixList| && Vocabulary(Elements(suffixList), n)
    ensures |suffixList[i]| > 0
    ensures Firsts(Elements(suffixList[..i + 1])) == Firsts(Elements(suffixList[..i])) + {suffixList[i][0]}
    ensures forall c ::
      Tails(Elements(suffixList[..i + 1]), c) ==
      Tails(Elements(suffixList[..i]), c) + (if |suffixList[i]| > 1 && suffixList[i][0] == c then {suffixList[i][1..]} else {})
  {
    var suf := suffixList[i];
    assert suffixList[..i + 1] == suffixList[..i] + [suf];
    assert Elements(suffixList[..i + 1]) == Elements(suffixList[..i]) + {suf};
    assert suf in Elements(suffixList);
    FirstsAdd(Elements(suffixList[..i]), suf);
    forall c ensures Tails(Elements(suffixList[..i + 1]), c) == Tails(Elements(suffixList[..i]), c) +
      (if |suf| > 1 && suf[0] == c then {suf[1..]} else {})
    {
      TailsAdd(Elements(suffixList[..i]), suf, c);
    }
  }

  lemma FirstsAdd(sufs: set<string>, suf: string)
    requires |suf| > 0
    ensures Firsts(sufs + {suf}) == Firsts(sufs) + {suf[0]}
  {
  }

  lemma TailsAdd(sufs: set<string>, suf: string, c: char)
    ensures Tails(sufs + {suf}, c) == Tails(sufs, c) + (if |suf| > 1 && suf[0] == c then {suf[1..]} else {})
  {
  }

  /** Where the second pass of `add_children` stands before Letter(j): the
      children of the letters before it are grown as `Build` grows them, the
      others are still fresh, and `size` sums the finished ones. */
  ghost predicate Grown(node: Tree, sufs: set<string>, n: nat, j: nat, kids: map<char, Tree>, size: int)
  {
    Vocabulary(sufs, n) && j <= AlphabetSize &&
    var built := Build(node.ctrl, node.idx, node.prefix, sufs, n);
    kids.Keys == built.children.Keys &&
    (forall c | c in kids ::
      IsLower(c) &&
      (Index(c) < j ==> kids[c] == built.children[c]) &&
      (Index(c) >= j ==> kids[c] == Fresh(Some(c), node.idx + 1, node.prefix + Str(node.ctrl)))) &&
    size == SumWeights(built.children, j)
  }

  /** One turn of the second pass of `add_children`, at Letter(j). */
  method GrowChild(node: Tree, ghost sufs: set<string>, ghost n: nat, suffixDict: map<char, set<string>>,
                   j: nat, kids: map<char, Tree>, size: int)
    returns (kids': map<char, Tree>, size': int)
    requires j < AlphabetSize && Grown(node, sufs, n, j, kids, size)
    requires forall c :: c in suffixDict <==> IsLower(c)
    requires forall c | c in suffixDict :: suffixDict[c] == Tails(sufs, c)
    ensures Grown(node, sufs, n, j + 1, kids', size')
    decreases n, 1
  {
    var c := Letter(j);
    IndexOfLetter(j);
    if |suffixDict[c]| > 0 {
      kids', size' := GrowDeep(node, sufs, n, suffixDict[c], j, kids, size);
    } else if c in kids {
      GrownLeaf(node, sufs, n, j, kids, size);
      kids' := kids[c := kids[c].(isLeaf := true)];
      size' := size + 1;
    } else {
      GrownNone(node, sufs, n, j, kids, size);
      kids', size' := kids, size;
    }
  }

  /** The turn of a letter that has suffixes: its child grows the subtree of
      those suffixes, and its size joins the running sum. */
  method GrowDeep(node: Tree, ghost sufs: set<string>, ghost n: nat, tails: set<string>,
                  j: nat, kids: map<char, Tree>, size: int)
    returns (kids': map<char, Tree>, size': int)
    requires j < AlphabetSize && Grown(node, sufs, n, j, kids, size)
    requires tails == Tails(sufs, Letter(j)) && |tails| > 0
    ensures Grown(node, sufs, n, j + 1, kids', size')
    decreases n, 0
  {
    var c := Letter(j);
    GrownDeeper(node, sufs, n, j, kids, size);
    var list := ListOf(tails);
    var child := AddChildren(kids[c], list, n - 1);
    GrownDeep(node, sufs, n, j, kids, size, child);
    kids' := kids[c := child];
    size' := size + child.size;
  }

  lemma GrownDeeper(node: Tree, sufs: set<string>, n: nat, j: nat, kids: map<char, Tree>, size: int)
    requires j < AlphabetSize && Grown(node, sufs, n, j, kids, size) && Tails(sufs, Letter(j)) != {}
    ensures n >= 2 && Vocabulary(Tails(sufs, Letter(j)), n - 1) && Letter(j) in kids
    ensures kids[Letter(j)] == Fresh(Some(Letter(j)), node.idx + 1, node.prefix + Str(node.ctrl))
  {
    var c := Letter(j);
    var t :| t in Tails(sufs, c);
    TailsVocabulary(sufs, n, c);
    var s :| s in sufs && |s| > 1 && s[0] == c && t == s[1..];
    assert c in Firsts(sufs);
    IndexOfLetter(j);
    forall d | d in kids && d != c ensures Index(d) != j {
    }
  }

  lemma GrownDeep(node: Tree, sufs: set<string>, n: nat, j: nat, kids: map<char, Tree>, size: int, child: Tree)
    requires j < AlphabetSize && Grown(node, sufs, n, j, kids, size) && n >= 2 && Tails(sufs, Letter(j)) != {}
    requires child == Build(Some(Letter(j)), node.idx + 1, node.prefix + Str(node.ctrl), Tails(sufs, Letter(j)), n - 1)
    ensures Grown(node, sufs, n, j + 1, kids[Letter(j) := child], size + child.size)
  {
    var c := Letter(j);
    var t :| t in Tails(sufs, c);
    var s :| s in sufs && |s| > 1 && s[0] == c && t == s[1..];
    assert c in Firsts(sufs);
    IndexOfLetter(j);
    forall d | d in kids && d != c ensures Index(d) != j {
    }
  }

  lemma GrownLeaf(node: Tree, sufs: set<string>, n: nat, j: nat, kids: map<char, Tree>, size: int)
    requires j < AlphabetSize && Grown(node, sufs, n, j, kids, size)
    requires Tails(sufs, Letter(j)) == {} && Letter(j) in kids
    ensures Grown(node, sufs, n, j + 1, kids[Letter(j) := kids[Letter(j)].(isLeaf := true)], size + 1)
  {
    var c := Letter(j);
    IndexOfLetter(j);
    assert n == 1 by {
      var s :| s in sufs && |s| > 0 && s[0] == c;
      assert |s| == n;
      assert forall v | v in sufs && |v| > 1 && v[0] == c :: v[1..] in Tails(sufs, c);
    }
    forall d | d in kids && d != c ensures Index(d) != j {
    }
  }

  lemma GrownNone(node: Tree, sufs: set<string>, n: nat, j: nat, kids: map<char, Tree>, size: int)
    requires j < AlphabetSize && Grown(node, sufs, n, j, kids, size) && Letter(j) !in kids
    ensures Grown(node, sufs, n, j + 1, kids, size)
  {
    IndexOfLetter(j);
  }

  lemma GrownEnd(node: Tree, sufs: set<string>, n: nat, kids: map<char, Tree>, size: int)
    requires Grown(node, sufs, n, AlphabetSize, kids, size) && node.children == map[] && node.size == 0 && !node.isLeaf
    ensures node.(children := kids, size := size) == Build(node.ctrl, node.idx, node.prefix, sufs, n)
  {
  }

  /** `is_active`: the root always; another node when its letter's tracker
      finds the letter feasible at the node's position after its prefix. The
      trackers are read from `cs`, the states of the 26 trackers, which no
      step of a purge changes. */
  method IsActive(node: Tree, cs: seq<Constraint>) returns (active: bool)
    requires |cs| == AlphabetSize && WellFormed(node)
    ensures active == Active(node, cs)
  {
    if node.ctrl.None? {
      return true;
    }
    active := Feasible(cs, Index(node.ctrl.value), node.idx, node.prefix);
  }

  /** Every child of t, purged. */
  ghost function PurgedKids(t: Tree, cs: seq<Constraint>): (m: map<char, Tree>)
    requires |cs| == AlphabetSize && WellFormed(t)
    ensures m.Keys == t.children.Keys
  {
    map c | c in t.children :: Purge(t.children[c], cs)
  }

  /** The letters whose purged child stays attached. */
  ghost function KeptKids(t: Tree, cs: seq<Constraint>): set<char>
    requires |cs| == AlphabetSize && WellFormed(t)
  {
    set c | c in t.children && Kept(Purge(t.children[c], cs), cs)
  }

  /** The purged children whose letters are kept. */
  function Survivors(purged: map<char, Tree>, keep: set<char>): map<char, Tree> {
    map c | c in purged && c in keep :: purged[c]
  }

  /** The children `Purge` leaves an active node are its kept purged
      children, and its size is their total weight. */
  lemma PurgeIsSurvivors(t: Tree, cs: seq<Constraint>)
    requires |cs| == AlphabetSize && WellFormed(t) && Active(t, cs)
    ensures Purge(t, cs).children == Survivors(PurgedKids(t, cs), KeptKids(t, cs))
    ensures Purge(t, cs).size == SumWeights(Survivors(PurgedKids(t, cs), KeptKids(t, cs)), AlphabetSize)
  {
    var s := Survivors(PurgedKids(t, cs), KeptKids(t, cs));
    assert Purge(t, cs).children == s;
  }

  /** The facts the loop of `purge_inactive` needs at Letter(i) about the
      child it has just purged. */
  lemma SweepTurn(t: Tree, cs: seq<Constraint>, i: nat, child: Tree)
    requires |cs| == AlphabetSize && WellFormed(t) && i < AlphabetSize
    requires Letter(i) in t.children && child == Purge(t.children[Letter(i)], cs)
    ensures WellFormed(child)
    ensures Letter(i) in PurgedKids(t, cs) && PurgedKids(t, cs)[Letter(i)] == child
    ensures Letter(i) in KeptKids(t, cs) <==> Kept(child, cs)
  {
  }

  /** The turn at Letter(i): an absent child changes nothing, a kept one
      replaces the original child, another one is deleted. */
  function NextKids(purged: map<char, Tree>, keep: set<char>, kids: map<char, Tree>, i: nat): map<char, Tree>
    requires i < AlphabetSize
  {
    var c := Letter(i);
    if c !in purged then kids
    else if c in keep then kids[c := purged[c]]
    else kids - {c}
  }

  /** The children once the loop of `purge_inactive` has handled Letter(0)
      .. Letter(n-1), starting from `orig`. */
  function KidsUpTo(purged: map<char, Tree>, keep: set<char>, orig: map<char, Tree>, n: nat): map<char, Tree>
    requires n <= AlphabetSize
  {
    if n == 0 then orig else NextKids(purged, keep, KidsUpTo(purged, keep, orig, n - 1), n - 1)
  }

  /** What the turn at Letter(i) adds to the running size: the weight of a
      kept child. */
  function NextWeight(purged: map<char, Tree>, keep: set<char>, i: nat): int
    requires i < AlphabetSize
  {
    var c := Letter(i);
    if c in purged && c in keep then Weight(purged[c]) else 0
  }

  /** The running size once Letter(0) .. Letter(n-1) are handled. */
  function SizeUpTo(purged: map<char, Tree>, keep: set<char>, n: nat): int
    requires n <= AlphabetSize
  {
    if n == 0 then 0 else SizeUpTo(purged, keep, n - 1) + NextWeight(purged, keep, n - 1)
  }

  /** One more turn of the loop, as the specification's walk takes it. */
  lemma UpToStep(node: Tree, cs: seq<Constraint>, freq: map<char, int>, p: map<char, Tree>, k: set<char>, i: nat)
    requires |cs| == AlphabetSize && WellFormed(node) && FullTable(freq) && i < AlphabetSize
    ensures KidsUpTo(p, k, node.children, i + 1) == NextKids(p, k, KidsUpTo(p, k, node.children, i), i)
    ensures SizeUpTo(p, k, i + 1) == SizeUpTo(p, k, i) + NextWeight(p, k, i)
    ensures Letter(i) in node.children ==>
      FreqUpTo(node, cs, freq, i + 1) == PurgeFreq(node.children[Letter(i)], cs, FreqUpTo(node, cs, freq, i))
    ensures Letter(i) !in node.children ==> FreqUpTo(node, cs, freq, i + 1) == FreqUpTo(node, cs, freq, i)
  {
  }

  /** Midway, the letters already handled hold their survivors and the
      others their original children. */
  lemma {:induction false} KidsUpToMidway(purged: map<char, Tree>, keep: set<char>, orig: map<char, Tree>, n: nat)
    requires n <= AlphabetSize && orig.Keys == purged.Keys
    requires forall c | c in orig :: IsLower(c)
    ensures forall c | c in KidsUpTo(purged, keep, orig, n) :: c in orig
    ensures forall c | c in orig && Index(c) >= n :: c in KidsUpTo(purged, keep, orig, n) && KidsUpTo(purged, keep, orig, n)[c] == orig[c]
    ensures forall c | c in orig && Index(c) < n ::
      (c in KidsUpTo(purged, keep, orig, n) <==> c in keep) &&
      (c in keep ==> KidsUpTo(purged, keep, orig, n)[c] == purged[c])
  {
    if n > 0 {
      KidsUpToMidway(purged, keep, orig, n - 1);
      var before := KidsUpTo(purged, keep, orig, n - 1);
      var after := KidsUpTo(purged, keep, orig, n);
      IndexOfLetter(n - 1);
      forall c | c in orig && c != Letter(n - 1)
        ensures (c in after <==> c in before) && (c in after ==> after[c] == before[c])
      {
      }
    }
  }

  /** The loop over, the children are exactly the survivors. */
  lemma KidsUpToEnd(purged: map<char, Tree>, keep: set<char>, orig: map<char, Tree>)
    requires orig.Keys == purged.Keys
    requires forall c | c in orig :: IsLower(c)
    ensures KidsUpTo(purged, keep, orig, AlphabetSize) == Survivors(purged, keep)
  {
    KidsUpToMidway(purged, keep, orig, AlphabetSize);
    var r := KidsUpTo(purged, keep, orig, AlphabetSize);
    assert forall c | c in orig :: Index(c) < AlphabetSize;
    assert r == Survivors(purged, keep);
  }

  /** The running size is the survivors' weight so far. */
  lemma {:induction false} SizeUpToSums(purged: map<char, Tree>, keep: set<char>, n: nat)
    requires n <= AlphabetSize
    ensures SizeUpTo(purged, keep, n) == SumWeights(Survivors(purged, keep), n)
  {
    if n > 0 {
      SizeUpToSums(purged, keep, n - 1);
    }
  }

  /** `purge_inactive`: an inactive node only has its size reset; an active
      node purges its children in alphabet order, drops those left without
      leaves that are not active leaves, sums the weights of the rest and
      adds its final weight to its letter's entry of the frequency table. */
  method PurgeInactive(node: Tree, cs: seq<Constraint>, freq: map<char, int>)
    returns (purged: Tree, freq': map<char, int>)
    requires |cs| == AlphabetSize && WellFormed(node) && FullTable(freq)
    ensures purged == Purge(node, cs)
    ensures freq' == PurgeFreq(node, cs, freq)
    decreases node, 2
  {
    var active := IsActive(node, cs);
    if !active {
      return node.(size := 0), freq;
    }
    var kids, size;
    kids, size, freq' := PurgeKids(node, cs, PurgedKids(node, cs), KeptKids(node, cs), freq);
    PurgeDone(node, cs, kids, size);
    purged := node.(children := kids, size := size);
    if node.ctrl.Some? {
      var letter := node.ctrl.value;
      IndexOfLetter(Index(letter));
      freq' := freq'[letter := freq'[letter] + size + (if node.isLeaf then 1 else 0)];
    }
  }

  /** The loop of `purge_inactive` over the children of an active node. */
  method PurgeKids(node: Tree, cs: seq<Constraint>, ghost p: map<char, Tree>, ghost k: set<char>, freq: map<char, int>)
    returns (kids: map<char, Tree>, size: int, freq': map<char, int>)
    requires |cs| == AlphabetSize && WellFormed(node) && FullTable(freq)
    requires p == PurgedKids(node, cs) && k == KeptKids(node, cs)
    ensures kids == KidsUpTo(p, k, node.children, AlphabetSize)
    ensures size == SizeUpTo(p, k, AlphabetSize)
    ensures freq' == FreqUpTo(node, cs, freq, AlphabetSize)
    decreases node, 1
  {
    kids := node.children;
    size := 0;
    freq' := freq;
    var i := 0;
    while i < AlphabetSize
      invariant i <= AlphabetSize
      invariant kids == KidsUpTo(p, k, node.children, i)
      invariant size == SizeUpTo(p, k, i)
      invariant freq' == FreqUpTo(node, cs, freq, i)
    {
      kids, size, freq' := PurgeChild(node, cs, p, k, freq, i, kids, size, freq');
      i := i + 1;
    }
  }

  /** One turn of the loop of `purge_inactive`, at Letter(i): a child there
      is purged, then kept (adding its weight to the running size) or
      deleted. */
  method PurgeChild(node: Tree, cs: seq<Constraint>, ghost p: map<char, Tree>, ghost k: set<char>,
                    ghost freq0: map<char, int>, i: nat, kids: map<char, Tree>, size: int, freq: map<char, int>)
    returns (kids': map<char, Tree>, size': int, freq': map<char, int>)
    requires |cs| == AlphabetSize && WellFormed(node) && FullTable(freq0) && i < AlphabetSize
    requires p == PurgedKids(node, cs) && k == KeptKids(node, cs)
    requires kids == KidsUpTo(p, k, node.children, i)
    requires size == SizeUpTo(p, k, i)
    requires freq == FreqUpTo(node, cs, freq0, i)
    ensures kids' == KidsUpTo(p, k, node.children, i + 1)
    ensures size' == SizeUpTo(p, k, i + 1)
    ensures freq' == FreqUpTo(node, cs, freq0, i + 1)
    decreases node, 0
  {
    UpToStep(node, cs, freq0, p, k, i);
    var c := Letter(i);
    kids', size', freq' := kids, size, freq;
    if c in node.children {
      var child;
      child, freq' := PurgeInactive(node.children[c], cs, freq);
      SweepTurn(node, cs, i, child);
      var keep := KeepsChild(child, cs);
      if keep {
        kids' := kids[c := child];
        size' := size + Weight(child);
      } else {
        kids' := kids - {c};
      }
    }
  }

  /** The loop of `purge_inactive` over, the node is completed as `Purge`
      completes it. */
  lemma PurgeDone(node: Tree, cs: seq<Constraint>, kids: map<char, Tree>, size: int)
    requires |cs| == AlphabetSize && WellFormed(node) && Active(node, cs)
    requires kids == KidsUpTo(PurgedKids(node, cs), KeptKids(node, cs), node.children, AlphabetSize)
    requires size == SizeUpTo(PurgedKids(node, cs), KeptKids(node, cs), AlphabetSize)
    ensures node.(children := kids, size := size) == Purge(node, cs)
  {
    var p := PurgedKids(node, cs);
    var k := KeptKids(node, cs);
    PurgeIsSurvivors(node, cs);
    KidsUpToEnd(p, k, node.children);
    SizeUpToSums(p, k, AlphabetSize);
  }

  /** The test `purge_inactive` applies to a purged child before deleting it. */
  method KeepsChild(child: Tree, cs: seq<Constraint>) returns (keep: bool)
    requires |cs| == AlphabetSize && WellFormed(child)
    ensures keep == Kept(child, cs)
  {
    keep := child.size != 0;
    if !keep && child.isLeaf {
      keep := IsActive(child, cs);
    }
  }
}
