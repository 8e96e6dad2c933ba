/** The candidate trie as a value: the shape that the mutable `TreeNode`
    objects of WordTree.py describe at any moment, and what each trie
    operation does to that shape.

    Conventions of the source kept here: the root has no letter and stands
    at position -1; a node's `prefix` holds the letters strictly above it;
    `size` (`subtree_size`) counts the leaves strictly below a node, so a
    leaf has size 0 and its parent adds one for it. */
module TrieSpec {
  import opened Common
  import opened Letters

  datatype Tree = Tree(
    ctrl: Option<char>,          // handle of this node's letter tracker; None at the root
    idx: int,                    // position of the node's letter in the word
    prefix: string,              // letters on the path above this node
    children: map<char, Tree>,
    size: int,
    isLeaf: bool)

  function Str(ctrl: Option<char>): string {
    if ctrl.Some? then [ctrl.value] else []
  }

  /** The prefix handed to a node's children: this node's prefix and letter. */
  function ChildPrefix(t: Tree): string {
    t.prefix + Str(t.ctrl)
  }

  /** What a child adds to its parent's size: its own size, plus one if it
      is a leaf. */
  function Weight(t: Tree): int {
    t.size + (if t.isLeaf then 1 else 0)
  }

  /** Sum of the weights of the children Letter(0) .. Letter(n-1). */
  function SumWeights(kids: map<char, Tree>, n: nat): int
    requires n <= AlphabetSize
  {
    if n == 0 then 0
    else SumWeights(kids, n - 1) + (if Letter(n - 1) in kids then Weight(kids[Letter(n - 1)]) else 0)
  }

  lemma {:induction false} SumWeightsNone(kids: map<char, Tree>, n: nat)
    requires n <= AlphabetSize
    requires forall i :: 0 <= i < n ==> Letter(i) !in kids
    ensures SumWeights(kids, n) == 0
  {
    if n > 0 { SumWeightsNone(kids, n - 1); }
  }

  /** The links between a node and its children that construction sets up
      and that no later operation breaks: lower-case edge letters, each child
      carrying its own letter, standing one position further down and
      inheriting this node's prefix extended by this node's letter; leaves
      have no children. */
  ghost predicate WellFormed(t: Tree)
    decreases t
  {
    (t.ctrl.Some? ==> IsLower(t.ctrl.value) && t.idx >= 0) &&
    |ChildPrefix(t)| == t.idx + 1 &&
    (t.isLeaf ==> t.children == map[]) &&
    forall c | c in t.children ::
      IsLower(c) && t.children[c].ctrl == Some(c) && t.children[c].idx == t.idx + 1 &&
      t.children[c].prefix == ChildPrefix(t) && WellFormed(t.children[c])
  }

  /** Every node's size is the sum of its children's weights. */
  ghost predicate Sized(t: Tree)
    decreases t
  {
    t.size == SumWeights(t.children, AlphabetSize) &&
    forall c | c in t.children :: Sized(t.children[c])
  }

  // ---------------------------------------------------------------------
  // The words a trie holds

  function Prepend(c: char, ws: set<string>): set<string> {
    set w | w in ws :: [c] + w
  }

  /** The words below a node, read from the node's children downwards; a
      leaf contributes the empty continuation. */
  function Words(t: Tree): set<string>
    decreases t, AlphabetSize + 1
  {
    (if t.isLeaf then {[]} else {}) + Branches(t, AlphabetSize)
  }

  /** The words that leave `t` through the children Letter(0) .. Letter(n-1). */
  function Branches(t: Tree, n: nat): set<string>
    requires n <= AlphabetSize
    decreases t, n
  {
    if n == 0 then {}
    else Branches(t, n - 1) + (if Letter(n - 1) in t.children then Prepend(Letter(n - 1), Words(t.children[Letter(n - 1)])) else {})
  }

  lemma {:induction false} InBranches(t: Tree, n: nat, w: string)
    requires n <= AlphabetSize
    ensures w in Branches(t, n) <==>
      w != [] && IsLower(w[0]) && Index(w[0]) < n && w[0] in t.children && w[1..] in Words(t.children[w[0]])
  {
    if n > 0 {
      InBranches(t, n - 1, w);
      var c := Letter(n - 1);
      if c in t.children && w in Prepend(c, Words(t.children[c])) {
        var v :| v in Words(t.children[c]) && w == [c] + v;
        assert w[1..] == v;
      }
      if w != [] && IsLower(w[0]) && Index(w[0]) == n - 1 && w[0] in t.children && w[1..] in Words(t.children[w[0]]) {
        assert w == [c] + w[1..];
      }
    }
  }

  /** A word is below a node when it is the empty continuation of a leaf or
      leaves through the child of its first letter. */
  lemma InWords(t: Tree, w: string)
    requires forall c | c in t.children :: IsLower(c)
    ensures w in Words(t) <==>
      (w == [] && t.isLeaf) || (w != [] && w[0] in t.children && w[1..] in Words(t.children[w[0]]))
  {
    InBranches(t, AlphabetSize, w);
  }

  lemma {:induction false} PrependCard(c: char, ws: set<string>)
    ensures |Prepend(c, ws)| == |ws|
    decreases |ws|
  {
    if ws != {} {
      var v :| v in ws;
      PrependCard(c, ws - {v});
      assert [c] + v !in Prepend(c, ws - {v}) by {
        forall u | u in ws - {v} ensures [c] + u != [c] + v {
          assert ([c] + u)[1..] == u && ([c] + v)[1..] == v;
        }
      }
      assert Prepend(c, ws) == Prepend(c, ws - {v}) + {[c] + v};
    }
  }

  lemma {:induction false} BranchesCard(t: Tree, n: nat)
    requires n <= AlphabetSize
    requires forall c | c in t.children :: |Words(t.children[c])| == Weight(t.children[c])
    ensures |Branches(t, n)| == SumWeights(t.children, n)
  {
    if n > 0 {
      BranchesCard(t, n - 1);
      BranchesCardStep(t, n);
    }
  }

  /** One more child letter: its words, all new, add the child's weight. */
  lemma BranchesCardStep(t: Tree, n: nat)
    requires 0 < n <= AlphabetSize
    requires |Branches(t, n - 1)| == SumWeights(t.children, n - 1)
    requires Letter(n - 1) in t.children ==> |Words(t.children[Letter(n - 1)])| == Weight(t.children[Letter(n - 1)])
    ensures |Branches(t, n)| == SumWeights(t.children, n)
  {
    var c := Letter(n - 1);
    if c in t.children {
      PrependCard(c, Words(t.children[c]));
      BranchesApart(t, n - 1, c, Words(t.children[c]));
    }
  }

  lemma BranchesApart(t: Tree, n: nat, c: char, ws: set<string>)
    requires n < AlphabetSize && c == Letter(n)
    ensures |Branches(t, n) + Prepend(c, ws)| == |Branches(t, n)| + |Prepend(c, ws)|
  {
    var a, b := Branches(t, n), Prepend(c, ws);
    forall w | w in a ensures w !in b {
      InBranches(t, n, w);
    }
    assert a * b == {};
  }

  /** In a well-formed trie with consistent sizes, a node's weight is the
      number of words at or below it; in particular the root's size is the
      number of words the trie holds. */
  lemma {:induction false} WordsCount(t: Tree)
    requires WellFormed(t) && Sized(t)
    ensures |Words(t)| == Weight(t)
    decreases t
  {
    forall c | c in t.children ensures |Words(t.children[c])| == Weight(t.children[c]) {
      WordsCount(t.children[c]);
    }
    BranchesCard(t, AlphabetSize);
    InBranches(t, AlphabetSize, []);
  }

  // ---------------------------------------------------------------------
  // Construction (`add_children`)

  function Firsts(sufs: set<string>): set<char> {
    set s | s in sufs && |s| > 0 :: s[0]
  }

  /** The suffixes collected for the child of letter c (`suffix_dict[c]`):
      the words starting with c and longer than one letter, without c. */
  function Tails(sufs: set<string>, c: char): set<string> {
    set s | s in sufs && |s| > 1 && s[0] == c :: s[1..]
  }

  ghost predicate Vocabulary(sufs: set<string>, n: nat) {
    n >= 1 && forall s | s in sufs :: |s| == n && AllLower(s)
  }

  /** The leaf created for the last letter of a word: no children, size 0. */
  function LeafNode(c: char, idx: int, prefix: string): Tree {
    Tree(Some(c), idx, prefix, map[], 0, true)
  }

  /** The subtree that `add_children(sufs)` grows below a fresh node, for
      suffixes of common length n. */
  function Build(ctrl: Option<char>, idx: int, prefix: string, sufs: set<string>, n: nat): Tree
    requires Vocabulary(sufs, n)
    decreases n
  {
    var kids := map c | c in Firsts(sufs) ::
      if n == 1 then LeafNode(c, idx + 1, prefix + Str(ctrl))
      else Build(Some(c), idx + 1, prefix + Str(ctrl), Tails(sufs, c), n - 1);
    Tree(ctrl, idx, prefix, kids, SumWeights(kids, AlphabetSize), false)
  }

  lemma TailsVocabulary(sufs: set<string>, n: nat, c: char)
    requires Vocabulary(sufs, n) && n >= 2
    ensures Vocabulary(Tails(sufs, c), n - 1)
  {
    forall s | s in Tails(sufs, c) ensures |s| == n - 1 && AllLower(s) {
      var v :| v in sufs && |v| > 1 && v[0] == c && s == v[1..];
    }
  }

  lemma FirstsLower(sufs: set<string>, n: nat, c: char)
    requires Vocabulary(sufs, n) && c in Firsts(sufs)
    ensures IsLower(c)
  {
    var s :| s in sufs && |s| > 0 && s[0] == c;
  }

  lemma {:induction false} BuildShape(ctrl: Option<char>, idx: int, prefix: string, sufs: set<string>, n: nat)
    requires Vocabulary(sufs, n)
    requires ctrl.Some? ==> IsLower(ctrl.value) && idx >= 0
    requires |prefix + Str(ctrl)| == idx + 1
    ensures WellFormed(Build(ctrl, idx, prefix, sufs, n)) && Sized(Build(ctrl, idx, prefix, sufs, n))
    decreases n
  {
    var t := Build(ctrl, idx, prefix, sufs, n);
    forall c | c in t.children
      ensures IsLower(c) && WellFormed(t.children[c]) && Sized(t.children[c])
    {
      FirstsLower(sufs, n, c);
      if n == 1 {
        SumWeightsNone(map[], AlphabetSize);
      } else {
        TailsVocabulary(sufs, n, c);
        BuildShape(Some(c), idx + 1, prefix + Str(ctrl), Tails(sufs, c), n - 1);
      }
    }
  }

  lemma {:induction false} BuildWords(ctrl: Option<char>, idx: int, prefix: string, sufs: set<string>, n: nat)
    requires Vocabulary(sufs, n)
    ensures Words(Build(ctrl, idx, prefix, sufs, n)) == sufs
    decreases n
  {
    var t := Build(ctrl, idx, prefix, sufs, n);
    forall c | c in t.children
      ensures IsLower(c) && Words(t.children[c]) == if n == 1 then {[]} else Tails(sufs, c)
    {
      FirstsLower(sufs, n, c);
      if n == 1 {
        forall w ensures w in Words(t.children[c]) <==> w == [] {
          InWords(t.children[c], w);
        }
      } else {
        TailsVocabulary(sufs, n, c);
        BuildWords(Some(c), idx + 1, prefix + Str(ctrl), Tails(sufs, c), n - 1);
      }
    }
    ChildrenWords(t, sufs, n);
  }

  /** A non-leaf node whose children are the first letters of `sufs`, each
      holding the tails of `sufs` below it, holds exactly `sufs`. */
  lemma ChildrenWords(t: Tree, sufs: set<string>, n: nat)
    requires Vocabulary(sufs, n) && !t.isLeaf && t.children.Keys == Firsts(sufs)
    requires forall c | c in t.children ::
      IsLower(c) && Words(t.children[c]) == if n == 1 then {[]} else Tails(sufs, c)
    ensures Words(t) == sufs
  {
    forall w ensures w in Words(t) <==> w in sufs {
      InWords(t, w);
      if w in sufs {
        assert w[0] in Firsts(sufs);
        if n > 1 {
          assert w[1..] in Tails(sufs, w[0]);
        }
      }
      if w != [] && w[0] in t.children && w[1..] in Words(t.children[w[0]]) {
        if n == 1 {
          var s :| s in sufs && |s| > 0 && s[0] == w[0];
          assert w == [w[0]] == s;
        } else {
          var s :| s in sufs && |s| > 1 && s[0] == w[0] && w[1..] == s[1..];
          assert w == [w[0]] + w[1..] == s;
        }
      }
    }
  }

  /** Construction is faithful: the trie built from a vocabulary of
      equal-length lower-case words holds exactly those words, is well formed
      and has consistent sizes, so its size is the number of distinct words. */
  lemma BuildHoldsVocabulary(ctrl: Option<char>, idx: int, prefix: string, sufs: set<string>, n: nat)
    requires Vocabulary(sufs, n)
    requires ctrl.Some? ==> IsLower(ctrl.value) && idx >= 0
    requires |prefix + Str(ctrl)| == idx + 1
    ensures var t := Build(ctrl, idx, prefix, sufs, n);
      Words(t) == sufs && WellFormed(t) && Sized(t) && t.size == |sufs| && !t.isLeaf
  {
    BuildShape(ctrl, idx, prefix, sufs, n);
    BuildWords(ctrl, idx, prefix, sufs, n);
    WordsCount(Build(ctrl, idx, prefix, sufs, n));
  }

  // ---------------------------------------------------------------------
  // Pruning (`purge_inactive`)

  /** `is_active`: the root is always active; another node is active when
      its letter is still feasible at its position after its prefix. */
  predicate Active(t: Tree, cs: seq<Constraint>)
    requires |cs| == AlphabetSize
    requires t.ctrl.Some? ==> IsLower(t.ctrl.value) && t.idx >= 0
  {
    t.ctrl.None? || Feasible(cs, Index(t.ctrl.value), t.idx, t.prefix)
  }

  /** An active node with a letter lies inside the word, and a node whose
      letter is excluded at its position is not active. */
  lemma ActiveInsideWord(t: Tree, cs: seq<Constraint>)
    requires |cs| == AlphabetSize
    requires t.ctrl.Some? ==> IsLower(t.ctrl.value) && t.idx >= 0
    ensures Active(t, cs) && t.ctrl.Some? ==> t.idx < cs[Index(t.ctrl.value)].wordLen
    ensures t.ctrl.Some? && t.idx in cs[Index(t.ctrl.value)].falsePositions ==> !Active(t, cs)
  {
  }

  /** Whether a purged child stays attached to its parent: it still has
      leaves below it, or it is itself an active leaf. */
  predicate Kept(u: Tree, cs: seq<Constraint>)
    requires |cs| == AlphabetSize
    requires u.ctrl.Some? ==> IsLower(u.ctrl.value) && u.idx >= 0
  {
    u.size != 0 || (u.isLeaf && Active(u, cs))
  }

  /** The trie after `purge_inactive` under the trackers `cs`. An inactive
      node only has its size reset (its subtree is not visited); an active
      node purges every child, drops those that are not kept and sums the
      weights of the rest. Every survivor is active and either has leaves
      below it or is a leaf, and the sizes of an active node's result are
      consistent again. */
  function Purge(t: Tree, cs: seq<Constraint>): (r: Tree)
    requires |cs| == AlphabetSize && WellFormed(t)
    ensures WellFormed(r) && r.size >= 0
    ensures r.ctrl == t.ctrl && r.idx == t.idx && r.prefix == t.prefix && r.isLeaf == t.isLeaf
    ensures r.children.Keys <= t.children.Keys
    ensures Active(t, cs) ==> Sized(r)
    ensures Active(t, cs) ==> forall c | c in r.children ::
      Active(r.children[c], cs) && (r.children[c].size > 0 || r.children[c].isLeaf)
    decreases t
  {
    if !Active(t, cs) then t.(size := 0)
    else
      var kids := map c | c in t.children && Kept(Purge(t.children[c], cs), cs) :: Purge(t.children[c], cs);
      SumWeightsNonNegative(kids, AlphabetSize);
      t.(children := kids, size := SumWeights(kids, AlphabetSize))
  }

  lemma {:induction false} SumWeightsNonNegative(kids: map<char, Tree>, n: nat)
    requires n <= AlphabetSize
    requires forall c | c in kids :: kids[c].size >= 0
    ensures SumWeights(kids, n) >= 0
  {
    if n > 0 { SumWeightsNonNegative(kids, n - 1); }
  }

  /** The path of w below t runs through active nodes only. */
  predicate PathActive(t: Tree, w: string, cs: seq<Constraint>)
    requires |cs| == AlphabetSize && WellFormed(t)
    decreases |w|
  {
    Active(t, cs) && (w == [] || (w[0] in t.children && PathActive(t.children[w[0]], w[1..], cs)))
  }

  /** Pruning keeps exactly the live words: those whose whole path is active. */
  lemma {:induction false} PurgeKeepsLiveWords(t: Tree, cs: seq<Constraint>, w: string)
    requires |cs| == AlphabetSize && WellFormed(t) && Active(t, cs)
    ensures w in Words(Purge(t, cs)) <==> w in Words(t) && PathActive(t, w, cs)
    decreases |w|
  {
    var r := Purge(t, cs);
    InWords(t, w);
    InWords(r, w);
    if w != [] && w[0] in t.children {
      var child := t.children[w[0]];
      var u := Purge(child, cs);
      if Active(child, cs) {
        PurgeKeepsLiveWords(child, cs, w[1..]);
        if w[1..] in Words(u) {
          WordsCount(u);
          assert Kept(u, cs);
        }
      }
    }
  }

  /** After pruning, the size of an active node is the number of live words
      below it (for the root: the number of live candidate words). */
  lemma PurgeSizeCountsLiveWords(t: Tree, cs: seq<Constraint>)
    requires |cs| == AlphabetSize && WellFormed(t) && Active(t, cs) && !t.isLeaf
    ensures Purge(t, cs).size == |set w | w in Words(t) && PathActive(t, w, cs)|
  {
    var r := Purge(t, cs);
    WordsCount(r);
    forall w ensures w in Words(r) <==> w in Words(t) && PathActive(t, w, cs) {
      PurgeKeepsLiveWords(t, cs, w);
    }
    assert Words(r) == set w | w in Words(t) && PathActive(t, w, cs);
  }

  /** Pruning is sound: a word that satisfies every tracker, read after the
      prefix of an active node, has an active path below that node and so
      survives the purge. In particular the secret word is never pruned
      while the trackers describe it correctly. */
  lemma {:induction false} SatisfyingWordIsLive(t: Tree, cs: seq<Constraint>, w: string)
    requires |cs| == AlphabetSize && WellFormed(t) && Active(t, cs)
    requires w in Words(t) && Satisfies(ChildPrefix(t) + w, cs)
    ensures PathActive(t, w, cs)
    decreases |w|
  {
    InWords(t, w);
    if w != [] {
      var child := t.children[w[0]];
      ChildOnSatisfyingWord(t, cs, w);
      SatisfyingWordIsLive(child, cs, w[1..]);
    }
  }

  lemma ChildOnSatisfyingWord(t: Tree, cs: seq<Constraint>, w: string)
    requires |cs| == AlphabetSize && WellFormed(t)
    requires w != [] && w[0] in t.children && Satisfies(ChildPrefix(t) + w, cs)
    ensures WellFormed(t.children[w[0]]) && Active(t.children[w[0]], cs)
    ensures Satisfies(ChildPrefix(t.children[w[0]]) + w[1..], cs)
  {
    var c := w[0];
    var child := t.children[c];
    var p := ChildPrefix(t);
    SplitFirst(p, w);
    assert child.idx == |p| && child.prefix == p && child.ctrl == Some(c);
    FeasibleAlongSatisfyingWord(p + w, cs, |p|);
    assert ChildPrefix(child) == p + [c];
  }

  lemma SplitFirst(p: string, w: string)
    requires w != []
    ensures (p + [w[0]]) + w[1..] == p + w
    ensures (p + w)[|p|] == w[0] && (p + w)[..|p|] == p
  {
    assert w == [w[0]] + w[1..];
  }

  /** Pruning twice under the same trackers changes nothing more. */
  lemma {:induction false} PurgeIdempotent(t: Tree, cs: seq<Constraint>)
    requires |cs| == AlphabetSize && WellFormed(t)
    ensures Purge(Purge(t, cs), cs) == Purge(t, cs)
    decreases t
  {
    var r := Purge(t, cs);
    if Active(t, cs) {
      forall c | c in t.children ensures Purge(Purge(t.children[c], cs), cs) == Purge(t.children[c], cs) {
        PurgeIdempotent(t.children[c], cs);
      }
      var r2 := Purge(r, cs);
      assert r2.children == r.children;
    }
  }

  // ---------------------------------------------------------------------
  // The letter-frequency table rebuilt by a purge

  /** A frequency table with an entry for every letter. */
  ghost predicate FullTable(f: map<char, int>) {
    forall i :: 0 <= i < AlphabetSize ==> Letter(i) in f
  }

  /** `freq_dict[letter] += n`. */
  function Bump(f: map<char, int>, c: char, n: int): (g: map<char, int>)
    requires c in f
    ensures g.Keys == f.Keys && g[c] == f[c] + n
    ensures forall d | d in f && d != c :: g[d] == f[d]
  {
    f[c := f[c] + n]
  }

  /** The frequency table after purging t, starting from table f: nothing
      changes at or below an inactive node (it is not visited); an active
      node first lets its children, in alphabet order, update the table,
      then adds its own final weight to its letter's entry. */
  function PurgeFreq(t: Tree, cs: seq<Constraint>, f: map<char, int>): (g: map<char, int>)
    requires |cs| == AlphabetSize && WellFormed(t) && FullTable(f)
    ensures FullTable(g)
    decreases t, AlphabetSize + 1
  {
    if !Active(t, cs) then f
    else
      var g := FreqUpTo(t, cs, f, AlphabetSize);
      if t.ctrl.Some? then Bump(g, t.ctrl.value, Weight(Purge(t, cs))) else g
  }

  /** The table once the children Letter(0) .. Letter(n-1) of t are purged. */
  function FreqUpTo(t: Tree, cs: seq<Constraint>, f: map<char, int>, n: nat): (g: map<char, int>)
    requires |cs| == AlphabetSize && WellFormed(t) && FullTable(f) && n <= AlphabetSize
    ensures FullTable(g)
    decreases t, n
  {
    if n == 0 then f
    else
      var g := FreqUpTo(t, cs, f, n - 1);
      if Letter(n - 1) in t.children then PurgeFreq(t.children[Letter(n - 1)], cs, g) else g
  }

  /** What purging t adds to the entry of letter c, whatever the order of
      the additions: its children's gains and, if t is active and c is its
      own letter, its final weight. */
  function Gain(t: Tree, cs: seq<Constraint>, c: char): (n: int)
    requires |cs| == AlphabetSize && WellFormed(t)
    ensures n >= 0
    decreases t, AlphabetSize + 1
  {
    if !Active(t, cs) then 0
    else (if t.ctrl == Some(c) then Weight(Purge(t, cs)) else 0) + KidsGain(t, cs, c, AlphabetSize)
  }

  /** What the children Letter(0) .. Letter(n-1) of t add to the entry of c. */
  function KidsGain(t: Tree, cs: seq<Constraint>, c: char, n: nat): (g: int)
    requires |cs| == AlphabetSize && WellFormed(t) && n <= AlphabetSize
    ensures g >= 0
    decreases t, n
  {
    if n == 0 then 0
    else KidsGain(t, cs, c, n - 1) + (if Letter(n - 1) in t.children then Gain(t.children[Letter(n - 1)], cs, c) else 0)
  }

  /** The table a purge leaves is the starting table plus each letter's
      gain: the order in which nodes add to it does not matter, and only the
      entries of letters with a gain move. */
  lemma {:induction false} PurgeFreqAdds(t: Tree, cs: seq<Constraint>, f: map<char, int>, c: char)
    requires |cs| == AlphabetSize && WellFormed(t) && FullTable(f)
    ensures PurgeFreq(t, cs, f).Keys == f.Keys
    ensures c in f ==> PurgeFreq(t, cs, f)[c] == f[c] + Gain(t, cs, c)
    decreases t, AlphabetSize + 1
  {
    if Active(t, cs) {
      FreqUpToAdds(t, cs, f, AlphabetSize, c);
    }
  }

  lemma {:induction false} FreqUpToAdds(t: Tree, cs: seq<Constraint>, f: map<char, int>, n: nat, c: char)
    requires |cs| == AlphabetSize && WellFormed(t) && FullTable(f) && n <= AlphabetSize
    ensures FreqUpTo(t, cs, f, n).Keys == f.Keys
    ensures c in f ==> FreqUpTo(t, cs, f, n)[c] == f[c] + KidsGain(t, cs, c, n)
    decreases t, n
  {
    if n > 0 {
      FreqUpToAdds(t, cs, f, n - 1, c);
      if Letter(n - 1) in t.children {
        PurgeFreqAdds(t.children[Letter(n - 1)], cs, FreqUpTo(t, cs, f, n - 1), c);
      }
    }
  }

  // ---------------------------------------------------------------------
  // Removing one word (`strike_leaf_on_path`)

  /** Whether walking down t along w reaches a leaf before running out of
      letters or meeting a missing child. */
  predicate LeafOnPath(t: Tree, w: string)
    decreases |w|
  {
    t.isLeaf || (w != [] && w[0] in t.children && LeafOnPath(t.children[w[0]], w[1..]))
  }

  /** The trie after `strike_leaf_on_path(w)`, with the returned flag; None
      when the walk hits a missing child or runs out of letters, which the
      source reports as a failed dictionary or index lookup (before anything
      is changed). A leaf answers true untouched; an inner node drops the
      child on the path when that child answers true, keeps the updated child
      otherwise, and in both cases decrements its size by one and answers
      whether it reached zero. */
  function Strike(t: Tree, w: string): (r: Option<(Tree, bool)>)
    ensures r.Some? <==> LeafOnPath(t, w)
    ensures r.Some? ==> var t' := r.value.0;
      t'.ctrl == t.ctrl && t'.idx == t.idx && t'.prefix == t.prefix && t'.isLeaf == t.isLeaf
    ensures r.Some? && !t.isLeaf ==>
      var (t', gone) := r.value;
      t'.size == t.size - 1 && gone == (t'.size == 0) &&
      t'.children.Keys <= t.children.Keys &&
      forall c | c in t.children && c != w[0] :: c in t'.children && t'.children[c] == t.children[c]
    decreases |w|
  {
    if t.isLeaf then Some((t, true))
    else if w == [] || w[0] !in t.children then None
    else
      match Strike(t.children[w[0]], w[1..])
      case None => None
      case Some((u, gone)) =>
        var kids := if gone then t.children - {w[0]} else t.children[w[0] := u];
        Some((t.(children := kids, size := t.size - 1), t.size - 1 == 0))
  }

  lemma {:induction false} SumWeightsChange(kids: map<char, Tree>, c: char, u: Option<Tree>, n: nat)
    requires n <= AlphabetSize && c in kids && IsLower(c)
    ensures var kids' := if u.Some? then kids[c := u.value] else kids - {c};
      var delta := (if u.Some? then Weight(u.value) else 0) - Weight(kids[c]);
      SumWeights(kids', n) == SumWeights(kids, n) + (if Index(c) < n then delta else 0)
  {
    if n > 0 { SumWeightsChange(kids, c, u, n - 1); }
  }

  lemma WordOnLeafPath(t: Tree, w: string)
    requires WellFormed(t) && w in Words(t)
    ensures LeafOnPath(t, w)
    decreases |w|
  {
    InWords(t, w);
    if !t.isLeaf {
      WordOnLeafPath(t.children[w[0]], w[1..]);
    }
  }

  /** Replacing the child of letter c by a well-formed, sized node standing
      in the same place, or dropping it, keeps a node well formed and sized
      once the node's size follows the child's change in weight. */
  lemma SwapChildShape(t: Tree, c: char, u: Option<Tree>, size: int)
    requires WellFormed(t) && Sized(t) && c in t.children
    requires u.Some? ==> (WellFormed(u.value) && Sized(u.value) && u.value.ctrl == t.children[c].ctrl &&
                          u.value.idx == t.children[c].idx && u.value.prefix == t.children[c].prefix)
    requires size == t.size + (if u.Some? then Weight(u.value) else 0) - Weight(t.children[c])
    ensures var kids := if u.Some? then t.children[c := u.value] else t.children - {c};
      WellFormed(t.(children := kids, size := size)) && Sized(t.(children := kids, size := size))
  {
    SumWeightsChange(t.children, c, u, AlphabetSize);
  }

  /** Striking keeps a trie well formed with consistent sizes and lowers
      the size of every inner node on the path by exactly one. */
  lemma {:induction false} StrikeKeepsShape(t: Tree, w: string)
    requires WellFormed(t) && Sized(t) && !t.isLeaf && w in Words(t)
    ensures LeafOnPath(t, w)
    ensures var t' := Strike(t, w).value.0;
      WellFormed(t') && Sized(t') && t'.size == t.size - 1
    decreases |w|
  {
    WordOnLeafPath(t, w);
    InWords(t, w);
    var c := w[0];
    var child := t.children[c];
    if child.isLeaf {
      SumWeightsNone(map[], AlphabetSize);
      SwapChildShape(t, c, None, t.size - 1);
    } else {
      StrikeKeepsShape(child, w[1..]);
      var (u, ugone) := Strike(child, w[1..]).value;
      if ugone {
        SwapChildShape(t, c, None, t.size - 1);
      } else {
        SwapChildShape(t, c, Some(u), t.size - 1);
      }
    }
  }

  /** Replacing the child of letter c by a node without dead ends, or
      dropping it, keeps a node without dead ends while children are left. */
  lemma SwapChildGrounded(t: Tree, c: char, u: Option<Tree>, size: int)
    requires Grounded(t) && c in t.children && !t.isLeaf
    requires u.Some? ==> Grounded(u.value)
    requires (if u.Some? then t.children[c := u.value] else t.children - {c}) != map[]
    ensures var kids := if u.Some? then t.children[c := u.value] else t.children - {c};
      Grounded(t.(children := kids, size := size))
  {
  }

  /** Striking a word keeps a trie without dead ends as long as words are
      left below it: the child on the path is dropped once it is empty, and
      every other child is untouched. */
  lemma {:induction false} StrikeKeepsGrounded(t: Tree, w: string)
    requires WellFormed(t) && Sized(t) && Grounded(t) && !t.isLeaf && w in Words(t)
    ensures LeafOnPath(t, w)
    ensures Strike(t, w).value.0.size != 0 ==> Grounded(Strike(t, w).value.0)
    decreases |w|
  {
    StrikeKeepsShape(t, w);
    StrikeStep(t, w);
    var t' := Strike(t, w).value.0;
    if t'.size != 0 {
      SizedNonEmpty(t');
      var c := w[0];
      var r := Strike(t.children[c], w[1..]);
      if r.value.1 {
        SwapChildGrounded(t, c, None, t.size - 1);
      } else {
        InWords(t, w);
        StrikeKeepsGrounded(t.children[c], w[1..]);
        SwapChildGrounded(t, c, Some(r.value.0), t.size - 1);
      }
    }
  }

  /** One step of the walk of Strike, below a node that is not a leaf. */
  lemma StrikeStep(t: Tree, w: string)
    requires !t.isLeaf && LeafOnPath(t, w)
    ensures w != [] && w[0] in t.children
    ensures var r := Strike(t.children[w[0]], w[1..]);
      r.Some? && (t.children[w[0]].isLeaf ==> r.value.1) && (!t.children[w[0]].isLeaf ==> (r.value.1 <==> r.value.0.size == 0)) &&
      Strike(t, w).value.0 == t.(children := if r.value.1 then t.children - {w[0]} else t.children[w[0] := r.value.0],
                                 size := t.size - 1)
  { }

  /** A node whose count is not zero has a child. */
  lemma SizedNonEmpty(t: Tree)
    requires Sized(t) && t.size != 0
    ensures t.children != map[]
  {
    if t.children == map[] {
      SumWeightsNone(t.children, AlphabetSize);
    }
  }

  /** Replacing the child on the path of w by one that lacks the rest of w
      (or dropping it when nothing else is left below it) removes w. */
  lemma ReplaceChildOnPath(t: Tree, t': Tree, w: string, rest: set<string>)
    requires forall d | d in t.children :: IsLower(d)
    requires forall d | d in t'.children :: IsLower(d)
    requires w != [] && w[0] in t.children && t'.isLeaf == t.isLeaf
    requires t'.children.Keys <= t.children.Keys
    requires forall d | d in t.children && d != w[0] :: d in t'.children && t'.children[d] == t.children[d]
    requires rest == Words(t.children[w[0]]) - {w[1..]}
    requires w[0] in t'.children ==> Words(t'.children[w[0]]) == rest
    requires w[0] !in t'.children ==> rest == {}
    ensures Words(t') == Words(t) - {w}
  {
    var c := w[0];
    forall v ensures v in Words(t') <==> v in Words(t) - {w} {
      InWords(t', v);
      InWords(t, v);
      if v != [] && v[0] == c {
        assert v == [c] + v[1..];
        assert w == [c] + w[1..];
      }
    }
  }

  /** Striking a word removes exactly that word, and a child is dropped
      exactly when no word is left below it. */
  lemma {:induction false} StrikeRemovesWord(t: Tree, w: string)
    requires WellFormed(t) && Sized(t) && !t.isLeaf && w in Words(t)
    ensures Strike(t, w).Some?
    ensures var (t', gone) := Strike(t, w).value;
      Words(t') == Words(t) - {w} && (gone <==> Words(t') == {})
    decreases |w|
  {
    StrikeKeepsShape(t, w);
    InWords(t, w);
    var child := t.children[w[0]];
    var (t', gone) := Strike(t, w).value;
    if child.isLeaf {
      InWords(child, w[1..]);
      forall v ensures v in Words(child) <==> v == [] {
        InWords(child, v);
      }
      ReplaceChildOnPath(t, t', w, {});
    } else {
      StrikeRemovesWord(child, w[1..]);
      StrikeKeepsShape(child, w[1..]);
      var (u, ugone) := Strike(child, w[1..]).value;
      WordsCount(u);
      ReplaceChildOnPath(t, t', w, Words(u));
    }
    WordsCount(t');
  }

  /** In a trie whose words all have the length of w, only a word of the
      trie can be struck: any other word fails at a lookup. */
  lemma {:induction false} StrikeOnlyWords(t: Tree, w: string)
    requires WellFormed(t) && forall v | v in Words(t) :: |v| == |w|
    requires Strike(t, w).Some?
    ensures w in Words(t)
    decreases |w|
  {
    InWords(t, w);
    if t.isLeaf {
      InWords(t, []);
    } else {
      var child := t.children[w[0]];
      forall v | v in Words(child) ensures |v| == |w[1..]| {
        InWords(t, [w[0]] + v);
        assert ([w[0]] + v)[1..] == v;
      }
      StrikeOnlyWords(child, w[1..]);
    }
  }

  // ---------------------------------------------------------------------
  // The weighted walk (`select_with_tree_priority`)

  function Pow2(k: nat): (p: nat)
    ensures p >= 1
  {
    if k == 0 then 1 else 2 * Pow2(k - 1)
  }

  /** `floor(log2(d))`, computed on integers. */
  function FloorLog2(d: nat): nat
    requires d >= 1
  {
    if d == 1 then 0 else 1 + FloorLog2(d / 2)
  }

  lemma {:induction false} FloorLog2Bounds(d: nat)
    requires d >= 1
    ensures Pow2(FloorLog2(d)) <= d < Pow2(FloorLog2(d) + 1)
  {
    if d > 1 { FloorLog2Bounds(d / 2); }
  }

  lemma {:induction false} FloorLog2Unique(d: nat, m: nat)
    requires Pow2(m) <= d < Pow2(m + 1)
    ensures FloorLog2(d) == m
  {
    if m > 0 {
      FloorLog2Unique(d / 2, m - 1);
    }
  }

  /** The index drawn among k candidates: `(k-1) - floor(log2(d))`. */
  function LogIndex(k: nat, d: nat): int
    requires d >= 1
  {
    (k - 1) - FloorLog2(d)
  }

  lemma Pow2Monotone(a: nat, b: nat)
    requires a <= b
    ensures Pow2(a) <= Pow2(b)
    decreases b
  {
    if a < b { Pow2Monotone(a, b - 1); }
  }

  /** Every draw d in [1, 2^k - 1] gives an index among the k candidates. */
  lemma LogIndexInRange(k: nat, d: nat)
    requires 1 <= d <= Pow2(k) - 1
    ensures 0 <= LogIndex(k, d) < k
  {
    FloorLog2Bounds(d);
    if FloorLog2(d) >= k {
      Pow2Monotone(k, FloorLog2(d));
    }
  }

  /** The integers a .. b-1. */
  function Interval(a: int, b: int): (r: set<int>)
    ensures forall d :: d in r <==> a <= d < b
    ensures |r| == if a <= b then b - a else 0
    decreases b - a
  {
    if b <= a then {} else Interval(a, b - 1) + {b - 1}
  }

  /** The draw favours the front of the list: of the 2^k - 1 equally likely
      draws d in [1, 2^k - 1], exactly 2^(k-1-j) select index j. */
  lemma LogIndexHits(k: nat, j: nat)
    requires j < k
    ensures |set d | d in Interval(1, Pow2(k)) && LogIndex(k, d) == j| == Pow2(k - 1 - j)
  {
    var m := k - 1 - j;
    var hits := set d | d in Interval(1, Pow2(k)) && LogIndex(k, d) == j;
    var range := Interval(Pow2(m), Pow2(m + 1));
    forall d | d in hits ensures d in range {
      FloorLog2Bounds(d);
    }
    forall d | d in range ensures d in hits {
      Pow2Monotone(m + 1, k);
      FloorLog2Unique(d, m);
    }
    assert hits == range;
  }

  /** The children's letters in alphabet order, from Letter(i) on. */
  function KeysFrom(kids: set<char>, i: nat): (r: seq<char>)
    requires i <= AlphabetSize
    ensures forall x :: x in r <==> x in kids && IsLower(x) && Index(x) >= i
    decreases AlphabetSize - i
  {
    if i == AlphabetSize then []
    else (if Letter(i) in kids then [Letter(i)] else []) + KeysFrom(kids, i + 1)
  }

  /** The candidates whose letter does not occur in `fix`. */
  function Unseen(act: seq<char>, fix: string): (r: seq<char>)
    ensures forall x :: x in r <==> x in act && Count(fix, x) == 0
  {
    if act == [] then []
    else (if Count(fix, act[0]) == 0 then [act[0]] else []) + Unseen(act[1..], fix)
  }

  /** The diversity filter: keep the candidates that are new to the word so
      far, unless that would leave none. It never empties a non-empty list. */
  function Diversify(act: seq<char>, fix: string): (r: seq<char>)
    ensures |act| > 0 ==> |r| > 0
    ensures forall x :: x in r ==> x in act
    ensures (exists x :: x in act && Count(fix, x) == 0) ==> forall x :: x in r <==> x in act && Count(fix, x) == 0
  {
    var tmp := Unseen(act, fix);
    if |tmp| > 0 then tmp else act
  }

  /** The subtree size of each child (`self.children[x].subtree_size`). */
  function Sizes(kids: map<char, Tree>): (r: map<char, int>)
    ensures r.Keys == kids.Keys && forall x | x in kids :: r[x] == kids[x].size
  {
    map x | x in kids :: kids[x].size
  }

  function SizeOf(sizes: map<char, int>, x: char): int {
    if x in sizes then sizes[x] else 0
  }

  /** Each candidate's subtree is at least as large as the next one's. */
  ghost predicate Descending(s: seq<char>, sizes: map<char, int>) {
    forall i :: 0 < i < |s| ==> SizeOf(sizes, s[i - 1]) >= SizeOf(sizes, s[i])
  }

  /** Insert x after every element at least as large (keeps the order of
      equal sizes, as Python's stable sort does). */
  function InsertBySize(x: char, s: seq<char>, sizes: map<char, int>): seq<char> {
    if s == [] then [x]
    else if SizeOf(sizes, s[0]) >= SizeOf(sizes, x) then [s[0]] + InsertBySize(x, s[1..], sizes)
    else [x] + s
  }

  lemma {:induction false} InsertBySizeSorts(x: char, s: seq<char>, sizes: map<char, int>)
    requires Descending(s, sizes)
    ensures Descending(InsertBySize(x, s, sizes), sizes)
  {
    if s != [] && SizeOf(sizes, s[0]) >= SizeOf(sizes, x) {
      InsertBySizeSorts(x, s[1..], sizes);
      InsertBySizeFront(x, s[1..], sizes);
      ConsDescending(s[0], InsertBySize(x, s[1..], sizes), sizes);
    } else {
      ConsDescending(x, s, sizes);
    }
  }

  /** An element at least as large as the head of a descending list extends it. */
  lemma ConsDescending(a: char, s: seq<char>, sizes: map<char, int>)
    requires Descending(s, sizes) && (s != [] ==> SizeOf(sizes, a) >= SizeOf(sizes, s[0]))
    ensures Descending([a] + s, sizes)
  {
    var r := [a] + s;
    forall i | 1 < i < |r| ensures SizeOf(sizes, r[i - 1]) >= SizeOf(sizes, r[i]) {
      assert r[i - 1] == s[i - 2] && r[i] == s[i - 1];
    }
  }

  lemma {:induction false} InsertBySizeKeeps(x: char, s: seq<char>, sizes: map<char, int>)
    ensures multiset(InsertBySize(x, s, sizes)) == multiset(s) + multiset{x}
  {
    if s != [] && SizeOf(sizes, s[0]) >= SizeOf(sizes, x) {
      InsertBySizeKeeps(x, s[1..], sizes);
      assert s == [s[0]] + s[1..];
    }
  }

  lemma InsertBySizeFront(x: char, s: seq<char>, sizes: map<char, int>)
    ensures InsertBySize(x, s, sizes)[0] == if s != [] && SizeOf(sizes, s[0]) >= SizeOf(sizes, x) then s[0] else x
  {
  }

  /** `sorted(act, key=subtree_size, reverse=True)`: insertion sort, taking
      the candidates in their original order. */
  function SortBySize(act: seq<char>, sizes: map<char, int>): seq<char> {
    if act == [] then []
    else InsertBySize(act[|act| - 1], SortBySize(act[..|act| - 1], sizes), sizes)
  }

  /** The candidates end up by descending size, and none is lost or added. */
  lemma {:induction false} SortBySizeSorts(act: seq<char>, sizes: map<char, int>)
    ensures Descending(SortBySize(act, sizes), sizes)
    ensures multiset(SortBySize(act, sizes)) == multiset(act)
    decreases |act|
  {
    if act != [] {
      SortBySizeSorts(act[..|act| - 1], sizes);
      InsertBySizeSorts(act[|act| - 1], SortBySize(act[..|act| - 1], sizes), sizes);
      InsertBySizeKeeps(act[|act| - 1], SortBySize(act[..|act| - 1], sizes), sizes);
      assert act == act[..|act| - 1] + [act[|act| - 1]];
    }
  }

  /** The random-number source: `rand(n, lo, hi)` is the n-th call of
      `randint(lo, hi)`, a value between lo and hi inclusive. */
  ghost predicate IsRandInt(rand: (nat, int, int) -> int) {
    forall n, lo, hi :: lo <= hi ==> lo <= rand(n, lo, hi) <= hi
  }

  /** Every inner node has at least one child: a walk cannot get stuck. */
  ghost predicate Grounded(t: Tree)
    decreases t
  {
    (t.isLeaf || t.children != map[]) && forall c | c in t.children :: Grounded(t.children[c])
  }

  /** The ordered candidates at an inner node, after draw `draw` (the
      diversity coin): nine draws in ten restrict the children to letters
      new to the word, and the candidates are ordered by descending subtree
      size. Each candidate is a child, and some child is always a candidate. */
  function Candidates(t: Tree, rand: (nat, int, int) -> int, draw: nat): (order: seq<char>)
    requires forall c | c in t.children :: IsLower(c)
    ensures forall c | c in order :: c in t.children
    ensures t.children != map[] ==> |order| > 0
  {
    var all := KeysFrom(t.children.Keys, 0);
    var act := if rand(draw, 0, 9) != 0 then Diversify(all, ChildPrefix(t)) else all;
    SortBySizeSorts(act, Sizes(t.children));
    assert forall c | c in t.children :: c in all;
    assert forall c :: c in SortBySize(act, Sizes(t.children)) <==> c in multiset(act);
    SortBySize(act, Sizes(t.children))
  }

  /** The log-weighted choice among k ordered candidates: index
      (k-1) - floor(log2(d)) for d drawn as number `draw` from [1, 2^k - 1].
      With no candidates there is nothing to draw from: the source's
      `randint(1, 0)` fails. */
  function Choose(order: seq<char>, rand: (nat, int, int) -> int, draw: nat): (r: Option<char>)
    requires IsRandInt(rand)
    ensures r.Some? <==> |order| > 0
    ensures r.Some? ==> r.value in order
  {
    var k := |order|;
    if k == 0 then None
    else
      var d := rand(draw, 1, Pow2(k) - 1);
      LogIndexInRange(k, d);
      Some(order[LogIndex(k, d)])
  }

  /** The child chosen at an inner node from draws `draw` and `draw + 1`.
      Whenever a child exists, one is chosen. */
  function Pick(t: Tree, rand: (nat, int, int) -> int, draw: nat): (r: Option<char>)
    requires IsRandInt(rand) && forall c | c in t.children :: IsLower(c)
    ensures r.Some? ==> r.value in t.children
    ensures t.children != map[] ==> r.Some?
  {
    Choose(Candidates(t, rand, draw), rand, draw + 1)
  }

  /** `select_with_tree_priority`: a leaf ends the word; an inner node picks
      a child with draws `draw` and `draw + 1` and hands `draw + 2` on. The
      word returned is always one the trie holds, and a walk through a
      grounded trie always returns one. */
  function Select(t: Tree, rand: (nat, int, int) -> int, draw: nat): (r: Option<string>)
    requires WellFormed(t) && IsRandInt(rand)
    ensures r.Some? ==> r.value in Words(t)
    ensures Grounded(t) ==> r.Some?
    decreases t
  {
    if t.isLeaf then
      InWords(t, []);
      Some([])
    else
      match Pick(t, rand, draw)
      case None => None
      case Some(c) =>
        match Select(t.children[c], rand, draw + 2)
        case None => None
        case Some(s) =>
          InWords(t, [c] + s);
          assert ([c] + s)[1..] == s;
          Some([c] + s)
  }

  /** After a purge every kept subtree is grounded, so the next walk cannot
      get stuck below the root. */
  lemma {:induction false} PurgeGrounded(t: Tree, cs: seq<Constraint>)
    requires |cs| == AlphabetSize && WellFormed(t) && Active(t, cs)
    requires t.isLeaf || Purge(t, cs).size > 0
    ensures Grounded(Purge(t, cs))
    decreases t
  {
    var r := Purge(t, cs);
    forall c | c in r.children ensures Grounded(r.children[c]) {
      PurgeGrounded(t.children[c], cs);
    }
    if !t.isLeaf && r.children == map[] {
      SumWeightsNone(r.children, AlphabetSize);
    }
  }
}
