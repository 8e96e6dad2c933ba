# WordleSolver core in Dafny

This project models the guessing engine of WordleSolver: the per-letter
constraint trackers (`LetterControl`), the pruned candidate trie
(`TreeNode`), the session object (`WordTree`), and, from `main.py`, the
feedback computation `compare_to_ans`, the validation and decoding of a
feedback line in `parse_response`, and the round loop of `guess_word`.

Modules and files:

- `common.dfy` (`Common`): the 26-letter alphabet, `Option`, letter counting, and the set of a list's elements.
- `letters.dfy` (`Letters`):
  - a tracker's state as the value `Constraint`;
  - what `mark_illegal_position`, `mark_legal_position` and `is_legal` do to it, as the functions `MarkIllegal`, `MarkLegal` and `Feasible`;
  - the class `LetterControl`, whose methods update its fields in place and are proved to follow those functions;
  - the registry `_control_blocks`, an explicit 26-slot array of trackers.
- `trie_spec.dfy` (`TrieSpec`):
  - the trie as a value `Tree`;
  - the words it holds, and what construction, purging, striking and selection do to it;
  - the properties of each of those operations.
- `trie.dfy` (`Trie`): the loops of `add_children`, `is_active` and `purge_inactive` as methods, proved equal to the `TrieSpec` functions.
- `engine.dfy` (`Engine`):
  - how a feedback list updates the 26 trackers, as the functions `Respond` and `RespondUpTo`;
  - the methods that perform those updates on the registry;
  - the class `WordTree`, with the registry, the trie and the letter-frequency table as fields.
- `game.dfy` (`Game`): `compare_to_ans`, `parse_response` and `guess_word`.

Conventions kept from the source:

- The root has no letter and stands at position -1.
- A node's `prefix` holds the letters above it.
- `subtree_size` counts the leaves strictly below a node. A leaf therefore has size 0, and its parent adds one for it.
- The three verdicts BLACK, YELLOW and GREEN are the datatype `Verdict`.
- The random source is the oracle `rand(n, lo, hi)`, the n-th call of `randint(lo, hi)`, which stays within [lo, hi].

## Model

| member | source | states |
|---|---|---|
| Letters.InitialConsistent | WordTree.py:11-19 | a fresh tracker (no positions, minimum 0, maximum word_len) satisfies the tracker invariant: disjoint position sets inside the word, maximum + number of excluded positions = word_len, minimum = confirmed positions + 1 if at large |
| Letters.LetterControl.constructor | WordTree.py:11-19 | a new tracker's fields hold the initial state of its letter |
| Letters.MarkIllegal | WordTree.py:30-38 | a no-op when the position is already excluded or confirmed; otherwise the position joins the excluded set and the maximum drops by exactly one; the minimum rises by one exactly when the mark is new, other_implied holds and the letter was not at large; confirmed positions never change; the invariant is kept for positions inside the word |
| Letters.LetterControl.MarkIllegalPosition | WordTree.py:30-38 | the tracker's new state is MarkIllegal of its old state |
| Letters.MarkLegal | WordTree.py:40-51 | the position joins the confirmed set (a no-op when already confirmed); an excluded position is un-excluded and gives back one unit of the maximum; the minimum rises by one exactly when the position is new and the letter was not at large, and never falls |
| Letters.MarkLegalConsistent | WordTree.py:40-51 | confirming a position inside the word keeps the tracker invariant (sets disjoint, maximum + excluded = word_len, minimum = confirmed + at-large flag) |
| Letters.LetterControl.MarkLegalPosition | WordTree.py:40-51 | the tracker's new state is MarkLegal of its old state |
| Letters.ReplayTightens | WordTree.py:30-51 | any sequence of marks inside the word keeps the invariant, loses no confirmed position, never lowers the minimum, and raises the maximum only by the number of un-exclusions |
| Letters.MisplacedRaisesMinOnce | WordTree.py:35-37 | any number of YELLOW marks raises the minimum by at most one, and not at all once the letter is at large |
| Letters.DemandCoversOwed | WordTree.py:22-26 | the summed owed count is at least one when the tested letter still owes an occurrence, so subtracting one for it never makes req_count negative |
| Letters.LetterControl.IsLegal | WordTree.py:21-28 | the loop over the 26 registry slots returns exactly Feasible: position not excluded, fewer copies in the prefix than the maximum, and owed occurrences (less one for this letter if it owes) fewer than the positions left; the registry is unchanged |
| Letters.Feasible | WordTree.py:21-28 | a feasible placement lies inside the word |
| Letters.FeasibleAlongSatisfyingWord | WordTree.py:21-28 | soundness of the test: each letter of a word that satisfies every tracker is legal at its position after the letters before it |
| TrieSpec.WordsCount | WordTree.py:86-89 | in a well-formed trie with consistent sizes, a node's size plus its leaf flag is the number of words at or below it |
| TrieSpec.BuildShape | WordTree.py:74-90 | the trie grown from equal-length lower-case suffixes is well formed (each child one position further down, its prefix the parent's prefix plus the parent's letter, leaves childless) and every size is the sum of its children's weights |
| TrieSpec.BuildWords | WordTree.py:74-90 | the grown trie holds exactly the given suffixes |
| TrieSpec.ChildrenWords | WordTree.py:83-89 | a node whose children are the first letters of the suffixes, each holding the tails below it, holds exactly the suffixes |
| TrieSpec.BuildHoldsVocabulary | WordTree.py:74-90 | construction holds exactly the vocabulary, is well formed and sized, and its root size is the number of distinct words |
| Trie.ListOf | WordTree.py:85 | the list handed to a child holds exactly the elements of the suffix set |
| Trie.Collect | WordTree.py:75-82 | the first loop creates one fresh child per first letter and files each longer suffix, minus its first letter, under that letter |
| Trie.CollectOne | WordTree.py:76-82 | one turn of the first loop extends the children and suffix table from the first i suffixes to the first i+1 |
| Trie.CollectStep | WordTree.py:76-82 | adding a suffix adds its first letter to the first letters and its tail to that letter's tails |
| Trie.GrowChild | WordTree.py:83-89 | one turn of the second loop grows letter j's child below it (or marks it a leaf) and adds its weight to the size |
| Trie.GrowDeep | WordTree.py:84-86 | a child with tails is grown recursively and its size added to the parent's |
| Trie.GrownLeaf | WordTree.py:87-89 | a child with no tails becomes a leaf and adds one to the parent's size |
| Trie.GrownEnd | WordTree.py:83-90 | after all 26 letters the node equals the trie Build describes |
| Trie.AddChildren | WordTree.py:74-90 | the method's result is exactly the trie Build describes for the suffix set |
| Trie.IsActive | WordTree.py:106-107 | a node is active iff it is the root or its letter is feasible at its position after its prefix |
| TrieSpec.ActiveInsideWord | WordTree.py:106-107 | Active, the test of `is_active`: an active node with a letter lies inside the word, and a node whose letter is excluded at its own position is not active |
| TrieSpec.Purge | WordTree.py:92-104 | purging keeps the node's letter, position, prefix and leaf flag, keeps a subset of the children and a well-formed trie; on an active node the sizes are consistent again and every surviving child is active and has leaves below it or is a leaf |
| Trie.KeepsChild | WordTree.py:98 | a purged child stays iff its size is non-zero or it is an active leaf |
| Trie.PurgeChild | WordTree.py:96-103 | one turn of the loop purges child i, drops or keeps it, adds its weight to the size and its frequency gain to the table |
| Trie.PurgeKids | WordTree.py:96-103 | the loop over all 26 letters leaves the survivors, the sum of their weights and the frequency table of the whole subtree |
| Trie.PurgeDone | WordTree.py:96-101 | the loop's children and size are exactly those of Purge |
| Trie.PurgeInactive | WordTree.py:92-104 | the method's trie is Purge of the node and its frequency table is PurgeFreq of the old table |
| TrieSpec.PurgeKeepsLiveWords | WordTree.py:92-104 | a word survives the purge of an active node iff it was in the trie and every node on its path is active |
| TrieSpec.PurgeSizeCountsLiveWords | WordTree.py:92-104 | the purged size of an active inner node is the number of words whose whole path is active |
| TrieSpec.SatisfyingWordIsLive | WordTree.py:92-107 | every node on the path of a word that satisfies all trackers is active |
| TrieSpec.PurgeIdempotent | WordTree.py:92-104 | purging twice under the same trackers gives the same trie as purging once |
| TrieSpec.PurgeFreqAdds | WordTree.py:102-103 | PurgeFreq, the frequency updates of `purge_inactive`, adds to each letter's frequency exactly the gain of its active nodes (size plus leaf flag), keeping the table's keys |
| TrieSpec.PurgeFreq | WordTree.py:102-103 | the table still has an entry for each of the 26 letters (the amounts added are stated by TrieSpec.PurgeFreqAdds) |
| TrieSpec.PurgeGrounded | WordTree.py:92-104 | after purging an active node with leaves below it, no inner node is left without children |
| TrieSpec.Strike | WordTree.py:133-139 | the walk succeeds iff the word's letters lead to a leaf; on an inner node the size drops by exactly one, the node reports empty iff its size reaches 0, and children off the path are untouched |
| TrieSpec.StrikeKeepsShape | WordTree.py:133-139 | striking a word of a well-formed sized trie keeps it well formed and sized and lowers the size by one |
| TrieSpec.StrikeRemovesWord | WordTree.py:133-139 | striking removes exactly that word, and the node reports empty iff no word is left below it |
| TrieSpec.StrikeOnlyWords | WordTree.py:133-139 | in a trie of equal-length words, a strike succeeds only on a word the trie holds |
| TrieSpec.StrikeKeepsGrounded | WordTree.py:133-139 | striking a word off a trie without dead ends leaves none while words remain |
| TrieSpec.FloorLog2Bounds | WordTree.py:129 | 2^floor(log2 d) <= d < 2^(floor(log2 d)+1) |
| TrieSpec.LogIndexInRange | WordTree.py:129 | for d in [1, 2^k - 1] the index (k-1) - floor(log2 d) lies in [0, k-1] |
| TrieSpec.LogIndexHits | WordTree.py:129 | index j is hit by exactly 2^(k-1-j) of the draws in [1, 2^k - 1] |
| TrieSpec.KeysFrom | WordTree.py:119 | the candidate list holds exactly the child letters |
| TrieSpec.Diversify | WordTree.py:121-124 | the letter filter never empties a non-empty list, keeps only candidates, and keeps exactly the letters new to the word when there are any |
| TrieSpec.SortBySizeSorts | WordTree.py:126 | the candidates are ordered by descending subtree size and are a permutation of the input |
| TrieSpec.InsertBySizeKeeps | WordTree.py:126 | inserting a candidate adds exactly that candidate |
| TrieSpec.Candidates | WordTree.py:119-126 | every ordered candidate is a child, and a node with children has a candidate |
| TrieSpec.Choose | WordTree.py:129-130 | a letter is chosen iff there are candidates, and it is one of them |
| TrieSpec.Pick | WordTree.py:115-130 | the chosen letter is a child, and a node with children always chooses one |
| TrieSpec.Select | WordTree.py:115-131 | the walk returns a word the trie holds, and always returns one in a trie without dead ends |
| Engine.ExcludeRunEffect | WordTree.py:172-174 | the BLACK loop excludes every position of the word that is not confirmed and keeps the tracker consistent |
| Engine.ExcludeRun | WordTree.py:173-174 | the run keeps the tracker's letter, word length and confirmed positions; a position ends up excluded iff it was excluded before, or it is one of 0 .. n-1 and not confirmed |
| Engine.ExcludeEverywhere | WordTree.py:173-174 | the loop leaves the letter's tracker at ExcludeRun of its old state and the others unchanged |
| Engine.ExcludeOne | WordTree.py:176 | a YELLOW entry leaves the letter's tracker marked illegal at idx with other_implied and the others unchanged |
| Engine.ConfirmOne | WordTree.py:179 | a GREEN entry confirms idx in the letter's tracker and leaves the others unchanged |
| Engine.ExcludeOthersAt | WordTree.py:180-182 | the loop excludes idx in every other letter's tracker |
| Engine.ExcludeOthers | WordTree.py:180-182 | every tracker keeps its letter, word length and confirmed positions; each other letter among the first n is excluded at the position unless confirmed there; the GREEN letter's tracker and the rest are untouched |
| Engine.ExcludeOtherStep | WordTree.py:180-182 | one turn of that loop takes the registry from the first i letters handled to the first i+1 |
| Engine.RespondEntry | WordTree.py:172-182 | one feedback entry changes the registry exactly as Respond describes |
| Engine.RespondEffect | WordTree.py:171-182 | Respond, one feedback entry: every tracker keeps its letter and word length, loses no confirmed position, and an excluded position stays excluded unless it becomes confirmed; BLACK and YELLOW touch only the letter's own tracker, BLACK excluding it at every position not confirmed and YELLOW at idx; GREEN confirms it at idx |
| Engine.RespondUpTo | WordTree.py:171-182 | after the first n entries of a response every tracker still has its letter and word length |
| Engine.RespondUpToTightens | WordTree.py:171-182 | feedback only tightens the trackers: after any number of entries every confirmed position stays confirmed, and every excluded position stays excluded or has become confirmed |
| Engine.RespondAll | WordTree.py:171-182 | the loop over the feedback list takes the registry through the successive Respond states |
| Engine.RespondAndRead | WordTree.py:171-182 | after the loop the registry holds RespondUpTo of its old states over the whole list |
| Engine.RespondConsistent | WordTree.py:170-182 | every feedback entry inside the word keeps all 26 trackers consistent |
| Engine.GreenRulesOutOthers | WordTree.py:178-182 | after a GREEN at idx the letter is confirmed there, and every other letter not confirmed at idx is excluded there and illegal at idx after any prefix |
| Engine.BlackRulesOutLetter | WordTree.py:172-174 | after a BLACK for a letter with no confirmed position its maximum is 0 and it is illegal everywhere, and the other trackers are unchanged |
| Engine.NewRegistry | WordTree.py:155-156 | 26 fresh trackers, slot i holding the initial state of the i-th letter |
| Engine.GrowRoot | WordTree.py:157-158 | the dummy root grown from the word list is well formed and sized, holds exactly the list's words, has the number of distinct words as size, and has no dead ends when the list is non-empty |
| Engine.PurgeRoot | WordTree.py:184 | the purged root is Purge of the old one with consistent sizes and a subset of its words, with the frequency table PurgeFreq over zeros, and has no dead ends when words are left |
| Engine.PurgeWordsSubset | WordTree.py:92-104 | a purge never adds a word |
| Engine.SatisfyingWordSurvives | WordTree.py:92-107 | a word of the trie that satisfies every tracker survives the purge |
| Engine.PurgeFreqIsGain | WordTree.py:102-103 | after the reset, each letter's frequency is the gain of that letter's active nodes |
| Engine.BuildGrounded | WordTree.py:74-90 | a trie grown from a non-empty vocabulary has no dead ends |
| Engine.StrikeReadsWordLength | WordTree.py:133-139 | in a trie of words of length n, a successful strike reads only the first n letters of its argument, which form a word of the trie |
| Engine.StrikeKeepsRoot | WordTree.py:133-139 | striking a word off the trie of a session leaves a well-formed, sized, letterless root without dead ends while it has words, one word smaller |
| Engine.WordTree.constructor | WordTree.py:148-158 | the frequency table counts each letter in the joined word list, the 26 trackers are fresh and in their initial states, and the trie is the one `add_children` grows from the list, holding exactly its words with root size the number of distinct words |
| Engine.WordTree.GetNextWord | WordTree.py:164-165 | the walk returns a remaining candidate word of the vocabulary of the word length, and always returns one while the trie holds a word |
| Engine.WordTree.StrikeWord | WordTree.py:167-168 | on success the trie loses exactly the word (its first word_len letters), the root size drops by one and the session stays valid, so later walks still find a word while one is left; on failure nothing changes |
| Engine.WordTree.UpdateTrackers | WordTree.py:171-182 | the trackers end in RespondUpTo of their old states over the feedback list, and trie and table are untouched |
| Engine.WordTree.Refresh | WordTree.py:183-184 | the frequency table is reset and the trie purged under the new trackers: root and table are Purge and PurgeFreq over zeros |
| Engine.WordTree.ProcessResponse | WordTree.py:170-185 | the trackers end in RespondUpTo of their old states, then the root is Purge of the old root and the table PurgeFreq over zeros, and the session stays valid |
| Game.UnmatchedLetters | main.py:49-50 | a letter occurs in the joined unmatched answer letters iff it sits in the answer at some position where guess and answer differ |
| Game.Unmatched | main.py:49 | the joined text has at most one letter per position, each a letter of the answer |
| Game.CompareToAns | main.py:42-56 | one pair per guess position carrying the guess letter; the verdict is GREEN iff the letters match, BLACK when the letter is absent from the answer, and otherwise YELLOW iff the letter sits at an unmatched answer position; the result is Feedback of guess and answer |
| Game.Feedback | main.py:42-56 | the feedback spells the guess, each verdict fits its position as above, and it is over lower-case letters when the guess is |
| Game.FeedbackUnique | main.py:42-56 | any response that spells the guess with fitting verdicts is the feedback: the verdicts are determined |
| Game.AbsentIsBlack | main.py:46-47 | a letter absent from the answer is neither a match nor at an unmatched position |
| Game.AbsentLetterBlack | main.py:46-47 | every verdict for a letter absent from the answer is BLACK |
| Game.StrideIndex | main.py:82-83 | the slice raw[k::3] has ceil((len-k)/3) elements, the j-th being raw[k+3j] |
| Game.Rep | main.py:87-88 | 'b' decodes to BLACK, 'g' to GREEN, anything else to YELLOW |
| Game.WellFormedLineShape | main.py:82-83 | WellFormedLine, the test of `parse_response`, accepts a line iff it has length 3L-1, codes from {b,y,g} at 0,3,..., the guess letters at 1,4,..., commas at 2,5,..., and L >= 2 |
| Game.Decode | main.py:90 | an accepted line decodes to one pair per group |
| Game.ParseResponse | main.py:79-90 | a line is accepted only with length 3L-1 and L >= 2 groups (so never for one-letter words), and then decodes to L pairs spelling the guess, with b, g and y read as BLACK, GREEN and YELLOW; None where the source asks again |
| Game.Encode | main.py:84 | the joined line of L groups has length 3L-1 |
| Game.EncodeShape | main.py:84 | the joined line has the accepted shape for the letters it spells |
| Game.DecodeEncode | main.py:90 | decoding a joined line gives back the pairs |
| Game.ParseEncode | main.py:79-90 | a line joined from two or more groups is accepted and parses back to the same pairs |
| Game.EncodeParse | main.py:82-90 | an accepted line is exactly the line its pairs join back to |
| Game.RepCode | main.py:87-88 | each verdict's code letter decodes to that verdict |
| Game.GuessWord | main.py:62-76 | the result and the guessed words are those of Rounds of Player from the trie of the whole list and fresh trackers; every guess is a vocabulary word; a win reports the first round i+1 <= n_guesses whose guess is the answer, after only misses; a loss reports n_guesses after n_guesses misses |
| Game.PlayRounds | main.py:67-76 | the loop over rounds on a session plays exactly Rounds of Player from the session's trie and trackers, and leaves the session valid |
| Game.RoundsStep | main.py:67-76 | Rounds goes as the loop does: out of rounds it reports (False, n_guesses); a walk that finds nothing ends it; guessing the answer in round k reports (True, k+1); a miss is followed by the game from the next round on |
| Game.RoundsReported | main.py:67-76 | a game whose every guess is a vocabulary word reports as Reported: the win at the first guess equal to the answer, the loss after n_guesses misses |
| Game.Play | main.py:68-74 | every word a round guesses is a word of the list |
| Game.GuessStep | main.py:68-74 | a guess of a session is a lower-case word of the list of the word length, its feedback is over lower-case letters, and missing with it leaves a session over the same list |
| Game.PlayRound | main.py:68-74 | a round on the session is Play from its trie, trackers and draw: the guess is Play's, and after a miss the session holds Play's next state, with the draws 2 * word_len further; a round that finds no word or the answer leaves trie and trackers as they were |
| Game.PlayGuess | main.py:68 | the guess of a round is the word the walk of the trie selects |
| Game.PlayMissed | main.py:69-74 | after a miss the next state is the trie purged under the trackers updated with the feedback, and the draws move on by 2 * word_len |
| Game.Answer | main.py:69-74 | the feedback of a missed guess against the answer updates the trackers and the trie is purged under them (Missed), and the session stays valid |
| Game.Feed | main.py:74 | the trackers take the whole feedback list and the trie is purged under them, and the session stays valid |

## Left out

- TreeNode: trie nodes are values (`TrieSpec.Tree`), not mutable objects, so node identity and in-place update are not captured. No node is ever shared, so only identity is lost. The loops of `add_children` and `purge_inactive` are methods over these values.
- Trie.PurgeInactive: reads a snapshot of the 26 tracker states rather than the registry objects. No step of the purge changes a tracker.
- `freq_dict`: it is a field of the session, initialised on every construction. The source's lazy class-level initialisation, which survives across sessions (WordTree.py:149-152), is not modelled.
- `get_tree_priority` (WordTree.py:161-162): left out. Its result at line 118 is never used.
- `select_random_trail` (WordTree.py:109-113): left out. Nothing calls it.
- Dictionary order: the children's iteration order (dictionary insertion order in the source) is taken to be alphabetical. It shows only in how equal sizes are tied in the sort at WordTree.py:126.
- `floor(log2(...))`: modelled as an integer floor-log2 on the integer draw. Floating-point rounding of `log2` is not modelled.
- Randomness: `randint` is the oracle `rand(n, lo, hi)`. A walk uses draws `draw`, `draw + 1`, ... two per level, and round i of the game starts at `draw + 2 * word_len * i`. `seed(time_ns())` is left out.
- Engine.WordTree.GetNextWord: returns None where the source's `randint(1, 0)` raises, on an inner node without children. It is a function that reads the session, as the walk changes nothing.
- Engine.WordTree.StrikeWord: returns false and keeps the trie where the source's dictionary lookup raises, for a word not in the trie.
- Engine.WordTree.ProcessResponse: requires at most word_len entries (the source never passes more), so every position a response names lies inside the word. It also requires lower-case letters, which the source asserts in `get_letter_ctrl`.
- Game.GuessWord: returns None where the source raises because the walk got stuck. The guesses it reports are a ghost output; the source only logs them.
- Game.Answer: the feedback of a winning guess is not computed. The source computes it before the win test (main.py:69) but only logs it.
- Game.Play: a state that is not a session plays no round (None). The loop never reaches one, because every round leaves a session.
- Vocabulary: words must be of equal length and made of the letters a-z. The source gets lower case from `lower=True` (main.py:29-30) and keeps words of length `WORD_LEN` passing `isalpha()` (main.py:31). `isalpha()` also accepts letters outside a-z; on those the assert in `get_letter_ctrl` (WordTree.py:61) fails, and the `requires` on the word list excludes them. `WORD_LEN` and `WORD_LIST` are parameters.
- `parse_response`: the `input()` retry loop is not modelled. A rejected line is None.
- Logging, `fmt_resp` and the colour constants are not part of this model.
- `init_wordlist` (a foreign word-list library), `select_random_words`, `interactive_main`, argparse and the statistics in `main` are not part of this model.
- Integers are unbounded, as in Python.
