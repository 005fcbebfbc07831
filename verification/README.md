# Generex core in Dafny

Generex produces strings that match a regular expression. It hands the expression
to an automaton library, which compiles it into a deterministic automaton over
16-bit characters. Generex then works on that automaton:

- it builds a **count tree**. The tree has one node per transition, and each node
  records how many strings pass through it. `matchedStringsSize` reads the total
  from the root. `getMatchedString(k)` walks the tree down to the k-th string in
  lexicographic order, and `getFirstMatch` follows the leftmost path;
- it **enumerates** strings with a depth-first walk (`getMatchedStrings(limit)`,
  `getAllMatchedStrings`). The walk is cut off by a visit counter;
- it **samples** a random string with a length in `[minLength, maxLength]`
  (`random`). The sampler draws transitions weighted by their character count.
  At each accepting state it decides to stop with a probability that grows with
  the depth;
- before compiling, it **requotes** the expression: every `\Q...\E` section is
  replaced by its text with the special characters backslash-escaped.

The Dafny modules follow that structure:

| module | file | contents |
|---|---|---|
| `Optional` | optional.dfy | `Option`, standing for a Java `null` or a thrown exception |
| `Automata` | automaton.dfy | automata, transitions, runs, acceptance, the string order |
| `WordLists` | wordlists.dfy | lists of words: prefixing, character blocks, sortedness |
| `Language` | language.dfy | `Lang`: the reference listing of the strings a state accepts, in order |
| `CountTree` | counttree.dfy | the count tree (`prepareTransactionNodes`, `buildRootNode`) and the strings a node spells |
| `Indexer` | indexer.dfy | rank lookup (`buildStringFromNode`, `getMatchedString`, `matchedStringsSize`, `getFirstMatch`) |
| `Enumeration` | enumeration.dfy | the depth-first walk (`generate`, `getMatchedStrings`, `getAllMatchedStrings`) |
| `CharLoops` | charloop.dfy | the 16-bit character loop of `generate`, as written and as intended |
| `Sampler` | sampler.dfy | the random sampler (`random`, `prepareRandom`, `shouldTerminate`, the weighted choice) |
| `Requote` | requote.dfy | `requote` and the escaping of quoted sections |

**The automaton.** The automaton comes from the library; its construction is not
modelled. It is a sequence of states. Each state has an accept flag and a list of
transitions `(min, max, dest)`, with characters as integers in `[0, 0xFFFF]`.

- **Finite language.** The counting and enumeration theorems assume the language
  is finite. This is stated as a topological numbering: every transition leads to
  a higher-numbered state.
- **No dead ends.** Every state either accepts or has a transition, as is true of
  a minimised automaton.
- **Order.** `getSortedTransitions(true)` is taken to return non-overlapping
  ranges in ascending order (`Ascending`). Only the ordering theorems need this.
- **Order of the sampler's candidates.** The sampler copies a state's transitions
  into a `HashSet`. The model walks them in list order, because hash order is not
  observable from the source.

**Reference definitions.** `Language.Lang` is the reference listing that the
traversals are proved against:

- the accept decision comes first;
- then each transition in order, and each character of its range in ascending
  order.

`Language.LangAccepts` proves it lists exactly the accepted words.
`Language.LangSorted` proves it is strictly ascending in the order Java's
`String.compareTo` gives (`Automata.Less`).

**Randomness.** Randomness is a parameter: `draws: nat -> nat` is an arbitrary
sequence of draws, and `nextInt(b)` is `draws(pos) % b`. The position `pos` is
threaded through every call, so each result holds for every seed.

**The sampler's fallback.** When no candidate's walk lands in range,
`prepareRandom` returns the longest result it saw, even when the current string
is itself accepted and in range. `Sampler.Random` takes a flag `keepCurrent`:
`false` is the code as written except for the 32-bit coin (see "## Findings"
row 3), and `true` falls back on the current string in that case. Both values
use the coin `Sampler.ShouldTerminate`, which does not wrap. `random(minLength)`
and `random()` are modelled with the corrected fallback and that coin (see
"## Findings" and "## Left out").

**The count tree.** Each node in the tree stores a character range `[lo, hi]` and
its children. The accept marker and the root use the placeholder character 0. The
`Node` class itself is not part of this model: a node's count is its width times
its children's total, or 1 for a node without children.

## Model

| member | source | states |
|---|---|---|
| CountTree.Prepare | src/main/java/com/mifmif/common/regex/Generex.java:254-278 | The node budget `Integer.MAX_VALUE / 2` is never exceeded, every node built has a non-empty character range, and once the budget is used up a state gets no child nodes |
| CountTree.PrepareShape | src/main/java/com/mifmif/common/regex/Generex.java:263-275 | A state's nodes are the accept marker first (when the state accepts), then one node per transition in list order, each carrying that transition's character range |
| CountTree.PrepareEdges | src/main/java/com/mifmif/common/regex/Generex.java:267-276 | The transition loop makes one valid node per transition, in list order, each carrying its transition's character range; the budget count only grows and stays within the budget |
| CountTree.PrepareIsChildren | src/main/java/com/mifmif/common/regex/Generex.java:254-278 | When the budget covers the walk, the nodes built are exactly the reference tree of the state, and the budget used is the number of states the walk visits |
| CountTree.BuildRootNode | src/main/java/com/mifmif/common/regex/Generex.java:216-225 | The root and every node below it have a non-empty character range, so every count in the tree is positive |
| CountTree.SpelledLength | src/main/java/com/mifmif/common/regex/Generex.java:221-224 | The count a node stores equals the number of strings it spells |
| CountTree.ChildrenSpellLang | src/main/java/com/mifmif/common/regex/Generex.java:254-278 | For a finite automaton, the strings spelled by a state's nodes, in order, are the state's language in lexicographic order, each ending in the placeholder |
| CountTree.EdgeNodesSpellLang | src/main/java/com/mifmif/common/regex/Generex.java:267-276 | The transition nodes of a state spell the strings that leave the state through those transitions, in transition order, each ending in the placeholder |
| Indexer.PickChar | src/main/java/com/mifmif/common/regex/Generex.java:151-160 | The character loop picks a character in the node's range. The rank splits into the strings of the characters before it plus a rank of 1..step inside it; a rank below 1 picks the first character |
| Indexer.PickChild | src/main/java/com/mifmif/common/regex/Generex.java:161-172 | The child loop picks a child. The remaining rank splits into the counts of the earlier children plus a rank of 1..count inside the chosen child |
| Indexer.BuildString | src/main/java/com/mifmif/common/regex/Generex.java:148-175 | The string built from a node is never empty, and has at least two characters when the node has children |
| Indexer.BuildStringRank | src/main/java/com/mifmif/common/regex/Generex.java:148-175 | For any rank k up to the node's count, the string built is the k-th string the node spells, with ranks below 1 read as 1 |
| Indexer.RootMatchRank | src/main/java/com/mifmif/common/regex/Generex.java:141-145 | With the framing characters stripped, rank k from a root that lists l gives the k-th word of l; 0 and negative ranks give the first word |
| Indexer.RootListsLang | src/main/java/com/mifmif/common/regex/Generex.java:216-225 | The root built for a finite automaton within the node budget lists that automaton's language |
| Indexer.MatchedStringsSize | src/main/java/com/mifmif/common/regex/Generex.java:208-211 | The count read from the root is positive and equals the number of strings the root spells |
| Indexer.RootMatch | src/main/java/com/mifmif/common/regex/Generex.java:141-145 | Rank 0 is read as rank 1, and the result is the string of that rank in the root's listing with its first and last placeholders stripped |
| Indexer.GetMatchedString | src/main/java/com/mifmif/common/regex/Generex.java:139-146 | The result is the string of rank k (0 read as 1) in the root's ordered listing, with the root's and the accept leaf's placeholder characters stripped |
| Indexer.FirstPath | src/main/java/com/mifmif/common/regex/Generex.java:196-199 | The loop collects nothing exactly at a node without children, and otherwise starts with the node's first character; `Indexer.FirstPathIsFirstSpelled` shows it is the first spelled string |
| Indexer.GetFirstMatch | src/main/java/com/mifmif/common/regex/Generex.java:192-202 | The result is the first string of the root's listing, with its two placeholder characters stripped |
| Indexer.MatchedStringsSizeIsLanguageSize | src/main/java/com/mifmif/common/regex/Generex.java:208-211 | `matchedStringsSize` is the length of the reference listing of the language, which lists a string once per accepting path that spells it |
| Indexer.MatchedStringsSizeCountsWords | src/main/java/com/mifmif/common/regex/Generex.java:204-211 | With ascending, non-overlapping transition lists, the listing holds every accepted string and none twice, so `matchedStringsSize` is the number of distinct accepted strings |
| Indexer.GetMatchedStringIsRank | src/main/java/com/mifmif/common/regex/Generex.java:139-146 | `getMatchedString(k)` is the k-th accepted string in lexicographic order, for every k up to the language size, with k <= 0 read as 1 |
| Indexer.GetMatchedStringAccepted | src/main/java/com/mifmif/common/regex/Generex.java:139-146 | Every string `getMatchedString` returns is accepted by the automaton |
| Indexer.GetMatchedStringAscending | src/main/java/com/mifmif/common/regex/Generex.java:132-146 | With ascending transition lists, a smaller rank gives a strictly smaller string, so distinct ranks give distinct strings |
| Indexer.GetMatchedStringOnto | src/main/java/com/mifmif/common/regex/Generex.java:132-146 | Every accepted string is `getMatchedString(k)` for some rank k between 1 and the language size |
| Indexer.FirstPathIsFirstSpelled | src/main/java/com/mifmif/common/regex/Generex.java:194-199 | Following the first child down collects the first string the node spells, without its final placeholder |
| Indexer.FirstMatchIsRankOne | src/main/java/com/mifmif/common/regex/Generex.java:189-202 | `getFirstMatch` equals `getMatchedString(1)` and `getMatchedString(0)` |
| Enumeration.Generate | src/main/java/com/mifmif/common/regex/Generex.java:229-246 | The visit counter only grows and never passes the limit, and the walk records at most one string per visit. This holds with the intended character loop (see "## Findings" row 1) |
| Enumeration.GenRange | src/main/java/com/mifmif/common/regex/Generex.java:241-245 | The loop over a transition's characters keeps the counter within the limit and records at most one string per visit |
| Enumeration.GenEdges | src/main/java/com/mifmif/common/regex/Generex.java:240-245 | The loop over a state's transitions, each walked by the intended character loop (see "## Findings" row 1): the visit counter only grows and never passes the limit, and at most one string is recorded per visit |
| Enumeration.GenerateAccepted | src/main/java/com/mifmif/common/regex/Generex.java:229-246 | In an automaton without dead ends, each recorded string extends the path read so far, and its remainder is accepted from the visited state |
| Enumeration.GenerateListsLang | src/main/java/com/mifmif/common/regex/Generex.java:229-246 | The walk records a prefix of the state's language, in order. It records all of it and advances the counter by exactly its number of visits when those fit under the limit; otherwise it stops with the counter at the limit. This holds with the intended character loop (see "## Findings" row 1) |
| Enumeration.GenRangeListsLang | src/main/java/com/mifmif/common/regex/Generex.java:241-245 | The character loop over `[c, hi]` records the strings starting with c, then c + 1, and so on, under the same limit rule |
| Enumeration.GenRangeWalksCharRange | src/main/java/com/mifmif/common/regex/Generex.java:241-245 | The character loop visits exactly the characters of the intended range [min, max], in ascending order |
| Enumeration.GetMatchedStrings | src/main/java/com/mifmif/common/regex/Generex.java:302-307 | A call returns at most as many strings as the visits left before the limit, and leaves the counter between its old value and the limit |
| Enumeration.GetAllMatchedStrings | src/main/java/com/mifmif/common/regex/Generex.java:288-293 | The same bound with the limit `Integer.MAX_VALUE` |
| Enumeration.GetMatchedStringsAccepted | src/main/java/com/mifmif/common/regex/Generex.java:302-307 | Every string returned is accepted by the automaton |
| Enumeration.GetMatchedStringsFreshListsLang | src/main/java/com/mifmif/common/regex/Generex.java:295-307 | From a fresh counter, the result is a prefix of the language in lexicographic order, and the whole language once the limit covers every visit. This holds with the intended character loop (see "## Findings" row 1) |
| Enumeration.GetAllMatchedStringsFreshIsLang | src/main/java/com/mifmif/common/regex/Generex.java:283-293 | From a fresh counter, `getAllMatchedStrings` is the whole language in order whenever the walk fits under `Integer.MAX_VALUE` visits. This holds with the intended character loop (see "## Findings" row 1) |
| Enumeration.GetMatchedStringsSecondCallEmpty | src/main/java/com/mifmif/common/regex/Generex.java:302-307 | The counter of line 227 is never reset. When one call runs out of visits, the same call repeated returns the empty list |
| CharLoops.Succ | src/main/java/com/mifmif/common/regex/Generex.java:242 | `++c` on a `char` steps to the next character and wraps from 0xFFFF to 0 |
| CharLoops.CharLoop | src/main/java/com/mifmif/common/regex/Generex.java:242 | Run for at most `fuel` iterations, the loop visits at most `fuel` characters, and uses all of them whenever it has not exited |
| CharLoops.CharLoopNeverExits | src/main/java/com/mifmif/common/regex/Generex.java:242 | With the range ending at 0xFFFF the loop test never fails, however many iterations it runs |
| CharLoops.CharLoopWraps | src/main/java/com/mifmif/common/regex/Generex.java:242 | Starting at 0xFFFF, the loop visits 0xFFFF and then 0 |
| CharLoops.CharRange | src/main/java/com/mifmif/common/regex/Generex.java:242 | The intended loop visits lo, lo + 1, ..., hi, each exactly once and in order |
| CharLoops.CharLoopAgrees | src/main/java/com/mifmif/common/regex/Generex.java:242 | Below 0xFFFF, the loop as written visits exactly the intended range and exits |
| Sampler.NextInt | src/main/java/com/mifmif/common/regex/Generex.java:430 | `nextInt(bound)` is below its bound |
| Sampler.TotalWeight | src/main/java/com/mifmif/common/regex/Generex.java:445-458 | The total weight of n candidates is at most 65536 n, since a range holds at most 65536 characters |
| Sampler.TotalWeightAtLeastCount | src/main/java/com/mifmif/common/regex/Generex.java:445-458 | Each transition weighs at least one character, so the total weight is at least the number of candidates |
| Sampler.TotalWeightRemove | src/main/java/com/mifmif/common/regex/Generex.java:377-379 | Subtracting the removed transition's weight from the running total leaves exactly the total of the candidates that remain |
| Sampler.WeightedScan | src/main/java/com/mifmif/common/regex/Generex.java:430-434 | The index the scan returns names one of the candidates |
| Sampler.WeightedScanSlice | src/main/java/com/mifmif/common/regex/Generex.java:430-434 | The scan returns the first candidate whose running weight total reaches the drawn value |
| Sampler.WeightedScanSelects | src/main/java/com/mifmif/common/regex/Generex.java:430-434 | Conversely, the first candidate whose running total reaches the value is the one returned |
| Sampler.WeightedScanFinds | src/main/java/com/mifmif/common/regex/Generex.java:428-440 | The scan finds a candidate exactly when there are candidates and the value is at most their total weight; otherwise it throws |
| Sampler.PickRandomWeightedTransition | src/main/java/com/mifmif/common/regex/Generex.java:428-440 | The choice is one of the candidates, and it uses exactly one draw |
| Sampler.PickRandomWeightedTransitionSucceeds | src/main/java/com/mifmif/common/regex/Generex.java:428-440 | The choice throws exactly when the total is not positive, or the draw exceeds the candidates' weight. Given the true total of a non-empty set it never throws |
| Sampler.ShouldTerminate | src/main/java/com/mifmif/common/regex/Generex.java:414-416 | Below the minimum length the walk never stops and draws nothing. At the minimum or above it uses one draw, and at the maximum length it always stops |
| Sampler.ShouldTerminateEitherWay | src/main/java/com/mifmif/common/regex/Generex.java:414-416 | Between the minimum and the maximum, some draws stop the walk and others do not |
| Sampler.Wrap32 | src/main/java/com/mifmif/common/regex/Generex.java:415 | A Java `int` result lies in [-2^31, 2^31), equals the mathematical value when that fits, and differs from it by a multiple of 2^32 |
| Sampler.ShouldTerminate32 | src/main/java/com/mifmif/common/regex/Generex.java:414-416 | With 32-bit arithmetic, below the minimum length the walk never stops and draws nothing; at the minimum or above a coin that does not throw uses one draw; at the maximum length it stops |
| Sampler.ShouldTerminate32Overflows | src/main/java/com/mifmif/common/regex/Generex.java:414-416 | With 32-bit arithmetic the coin throws exactly at depth 0 with minimum 0 and maximum `Integer.MAX_VALUE`, and agrees with the unbounded coin everywhere else |
| Sampler.RandomZeroThrows | src/main/java/com/mifmif/common/regex/Generex.java:414-416 | `shouldTerminate(0, 0, Integer.MAX_VALUE)` throws |
| Sampler.RandomChar | src/main/java/com/mifmif/common/regex/Generex.java:381 | The character drawn lies in the transition's range |
| Sampler.RandomCharOnto | src/main/java/com/mifmif/common/regex/Generex.java:381 | Every character of the range is drawn by some draw |
| Sampler.Turn | src/main/java/com/mifmif/common/regex/Generex.java:376-381 | One turn of the loop picks a candidate and a character inside that candidate's range |
| Sampler.Remove | src/main/java/com/mifmif/common/regex/Generex.java:379 | Removing the picked candidate leaves one candidate fewer |
| Sampler.RemoveTakesOne | src/main/java/com/mifmif/common/regex/Generex.java:379 | The candidates left are exactly the old ones with the picked candidate taken out once |
| Sampler.Longer | src/main/java/com/mifmif/common/regex/Generex.java:390 | The kept result is one of the two candidates, and at least as long as both |
| Sampler.TurnStep | src/main/java/com/mifmif/common/regex/Generex.java:381-382 | A walk from a transition's target, extended by one character of its range, is a walk from the source state |
| Sampler.RunWithinHeight | src/main/java/com/mifmif/common/regex/Generex.java:329-330 | No path from a state is longer than its height, the reference length of the longest path from it |
| Sampler.LongestRun | src/main/java/com/mifmif/common/regex/Generex.java:329-330 | In an automaton without dead ends, some accepted string from a state is as long as its height |
| Sampler.LongestRunAccepted | src/main/java/com/mifmif/common/regex/Generex.java:329-330 | In an automaton without dead ends, a path as long as the longest one is accepted |
| Sampler.PrepareRandom | src/main/java/com/mifmif/common/regex/Generex.java:361-394 | The result extends the current string by a path and is at most `maxLength + 1` long; when it is at most `maxLength` long in an automaton without dead ends, the path is accepted. In an acyclic automaton a result shorter than `minLength` is at least as long as the current string plus the longest path from the state. With the corrected fallback, the result is in range whenever some accepted continuation brings the length into range |
| Sampler.TryTransitions | src/main/java/com/mifmif/common/regex/Generex.java:374-394 | The loop keeps the walk property and the length bound. It returns the first result in range, or one at least as long as the best so far; below `minLength` it is as long as the longest path through the remaining candidates; with the corrected fallback it is in range whenever the current string or a candidate can reach the range |
| Sampler.AfterPick | src/main/java/com/mifmif/common/regex/Generex.java:383-390 | After the picked candidate's walk, a result in range is returned at once; otherwise the loop goes on with the longer of the two, with the same promises as the loop |
| Sampler.Random | src/main/java/com/mifmif/common/regex/Generex.java:345-350 | The result is never longer than `maxLength`; `keepCurrent` false is the fallback as written, true the corrected fallback; both use the coin that does not wrap |
| Sampler.RandomIsRun | src/main/java/com/mifmif/common/regex/Generex.java:345-350 | The result spells a path from the initial state |
| Sampler.RandomFits | src/main/java/com/mifmif/common/regex/Generex.java:345-350 | A sample that fits is returned unchanged, and one character too many is cut to exactly `maxLength`. A result of at most `maxLength` characters from an automaton without dead ends is accepted |
| Sampler.PrepareRandomLongest | src/main/java/com/mifmif/common/regex/Generex.java:361-394 | When no path from the state brings the current string up to `minLength`, the walk returns the current string followed by a longest path, and that path is accepted |
| Sampler.RandomLongestWhenShort | src/main/java/com/mifmif/common/regex/Generex.java:329-330 | When no path from the initial state reaches `minLength`, `random` returns an accepted string and no path is longer |
| Sampler.RandomTrims | src/main/java/com/mifmif/common/regex/Generex.java:326-328 | When no accepted string fits in `maxLength`, `random` returns a path from the initial state of exactly `maxLength` characters |
| Sampler.RandomFindsInRange | src/main/java/com/mifmif/common/regex/Generex.java:341-342 | With the corrected fallback, whenever some accepted string has a length in [minLength, maxLength], `random` returns an accepted string whose length is in that range |
| Sampler.RandomMissesShortWord | src/main/java/com/mifmif/common/regex/Generex.java:383-394 | For the language of `a` and `aaa`, `random(1, 2)` with every draw 1 returns `aa`, which is rejected although `a` is accepted and in range; the corrected sampler returns `a` |
| Sampler.RandomMin | src/main/java/com/mifmif/common/regex/Generex.java:318-320 | Uses the corrected fallback and the coin that does not wrap; the length is bounded by `Integer.MAX_VALUE` for a finite language and by 50 otherwise |
| Sampler.RandomAny | src/main/java/com/mifmif/common/regex/Generex.java:312-314 | The same bound, with minimum length 1; like `Sampler.RandomMin` it uses the corrected fallback and the coin that does not wrap |
| Sampler.RandomMinFinds | src/main/java/com/mifmif/common/regex/Generex.java:318-320 | When an accepted string has a length between `minLength` and the default maximum, `random(minLength)` returns an accepted string at least `minLength` long, and `random()` returns an accepted string |
| Requote.Requote | src/main/java/com/mifmif/common/regex/Generex.java:490-508 | The rewrite at most doubles the length of the expression, because escaping adds at most one backslash per character of a section |
| Requote.Escape | src/main/java/com/mifmif/common/regex/Generex.java:494-502 | Escaping adds at most one backslash per character |
| Requote.EscapeRoundTrip | src/main/java/com/mifmif/common/regex/Generex.java:494-502 | Escaped text has a backslash before every special character, and unescaping gives back the original, so escaping loses nothing |
| Requote.EscapeConcat | src/main/java/com/mifmif/common/regex/Generex.java:494-502 | Escaping works character by character: escaping a concatenation concatenates the escapes |
| Requote.EscapePlain | src/main/java/com/mifmif/common/regex/Generex.java:494-502 | Text without special characters is left unchanged |
| Requote.RunFrom | src/main/java/com/mifmif/common/regex/Generex.java:491 | The run of backslashes starting at i is maximal |
| Requote.FindEnd | src/main/java/com/mifmif/common/regex/Generex.java:491 | The lazy body ends at the first `\E` at or after its start, and there is no match when no `\E` follows |
| Requote.MatchAt | src/main/java/com/mifmif/common/regex/Generex.java:491 | A section matched at i starts at i, the two characters before its body are `\Q`, and its body ends at a `\E` that lies inside the string |
| Requote.FindSection | src/main/java/com/mifmif/common/regex/Generex.java:491-498 | `find` returns the leftmost match at or after the search position, and none exactly when no match attempt from there succeeds |
| Requote.RequoteSection | src/main/java/com/mifmif/common/regex/Generex.java:490-508 | A plain prefix, an even run of backslashes, a `\Q...\E` section without `\E` inside, then the rest: the prefix and the escaped backslash pairs are kept, the section body is escaped, and the rest is requoted |
| Requote.RequoteNoOpening | src/main/java/com/mifmif/common/regex/Generex.java:490-508 | When no position starts an odd run of backslashes followed by `Q`, `find` fails at once and the expression is returned unchanged |
| Requote.RequoteUnterminated | src/main/java/com/mifmif/common/regex/Generex.java:490-508 | An expression without `\E` is returned unchanged |
| Requote.RequoteWithoutQuote | src/main/java/com/mifmif/common/regex/Generex.java:490-508 | An expression without `\Q` is returned unchanged |
| Requote.RequoteMinion | src/main/java/com/mifmif/common/regex/Generex.java:484-485 | The documented example: `minion_\d{3}\Q@gru.evil\E` becomes `minion_\d{3}\@gru\.evil` |
| Requote.RequoteEscapedPairs | src/test/kotlin/com/mifmif/common/regex/KotlinTests.kt:103 | Five backslashes, `Q`, three backslashes, `E`: the two escaped pairs are kept and the section holding two backslashes becomes four, eight backslashes in all |
| Requote.RequoteEscapedBackslash | src/main/java/com/mifmif/common/regex/Generex.java:491 | `\\Q.\E` has an escaped backslash before `Q`, so it opens no section and is returned unchanged |

## Left out

- The regular-expression front end is not modelled: `createRegExp`, the predefined character classes and `isValidPattern`. The automaton library (compilation, minimisation, `isFinite`, `getSortedTransitions`) is not part of this model either. The automaton is an input, and whether its language is finite is a parameter of `Sampler.RandomMin`.
- `GenerexIterator` and `iterator()` are not part of this model.
- `setSeed` and `java.util.Random` are not modelled: the draws are a parameter, so the results hold for every seed. The distribution of lengths and strings is not modelled.
- The `HashSet` that `prepareRandom` copies the transitions into is walked in the automaton's list order, because hash order is not observable.
- The lazy build flag `isTransactionNodeBuilt` is not modelled: the root is a pure function of the automaton.
- Infinite languages are not modelled for counting and ranking. The source runs out of stack there; the model's theorems assume the topological numbering.
- Indexer.GetMatchedString: requires `index <= matchedStringsSize`, the documented range. The walk for a larger index is not modelled. Index n returns the last string, not an empty string as the Javadoc says; the model follows the code.
- Indexer.GetMatchedString: requires a non-empty language. For the empty language the source's `substring` throws, and this case is left out.
- Indexer.GetFirstMatch: requires a root with children. For the empty language the loop collects nothing and `substring(1)` at line 200 throws; that case is left out.
- Indexer.MatchedStringsSizeIsLanguageSize: the count is the number of accepting paths. It is the number of distinct strings only with ascending, non-overlapping transition lists (Indexer.MatchedStringsSizeCountsWords); a string reached along two paths is counted twice otherwise.
- Indexer.MatchedStringsSizeIsLanguageSize: counts are unbounded integers, so the `long` overflow of very large counts is not modelled.
- Enumeration.Generate: `limit` is the number of states visited, not the number of strings returned, as in the code. A limit of 5 on `a+` gives 4 strings, because the visit to the non-accepting initial state counts.
- Enumeration.Generate: the walk uses the intended character loop, which visits each character of a transition once. In the source, a transition ending at 0xFFFF wraps to 0 at line 242 and is walked again and again, so `generate`, `getMatchedStrings` and `getAllMatchedStrings` on `.` or `[^a]` never return, where the model returns a listing ("## Findings" row 1). The same holds for `Enumeration.GenEdges`, `Enumeration.GetMatchedStrings` and `Enumeration.GetAllMatchedStrings`.
- Enumeration.GetMatchedStrings: requires the counter not to be past the limit. A later call with a lower or negative limit finds the counter already past it, so the `==` test at line 230 never fires: the cap is skipped and the whole language is listed (an infinite language is walked without end). That case is not modelled.
- Sampler.Random: negative lengths are not modelled; every length is a natural number. With `minLength > maxLength`, `Random` does what the source does: every depth is below `minLength`, so no coin is drawn (the first ensures of `Sampler.ShouldTerminate`), and the walk stops only past `maxLength` or at a state without transitions.
- Sampler.Random: the coin is `Sampler.ShouldTerminate`, which does not wrap, for both values of `keepCurrent`. Where the 32-bit bound `maxLength - depth + 1` wraps (`random(0)` on `a?`, shown by `Sampler.RandomZeroThrows`), the source throws and the model returns a string.
- Sampler.RandomMin: models `random(minLength)` with two corrections, not as written. The fallback is the corrected one (`keepCurrent` true, "## Findings" row 4), and the coin does not wrap, so `random(0)` on `a?` returns a string where Generex.java:415 throws ("## Findings" row 3).
- Sampler.RandomAny: models `random()` through `Sampler.RandomMin`, with the same two corrections. On `a|a{51}b*` (infinite, maximum 50), a walk past 50 characters makes the source return fifty `a`s, which are rejected; the model falls back on `a`.
- Sampler.TotalWeightRemove: weights are unbounded integers; the 32-bit total of more than 32768 full-range transitions is not modelled.
- Requote.IsSpecial: the escaped set is the source's `.^$*+?(){|[\@`, exactly as written. The automaton library's own operators (`&`, `~`, `<`, `"`, `#`) are not escaped, and the model keeps that.

## Findings

| source | as written | input that shows it | evidently intended | confidence | as-written member | corrected member |
|---|---|---|---|---|---|---|
| src/main/java/com/mifmif/common/regex/Generex.java:242 | `for (char c = min; c <= max; ++c)` wraps from 0xFFFF to 0, so the test never fails when a transition ends at 0xFFFF | the pattern `.` or `[^a]` with `getMatchedStrings(10)`, or any walk whose limit is not reached first | visit each character of `[min, max]` once | high, not executed | CharLoops.CharLoop, shown by CharLoops.CharLoopNeverExits and CharLoops.CharLoopWraps | CharLoops.CharRange, proved equal below 0xFFFF by CharLoops.CharLoopAgrees; Enumeration.GenRange walks exactly its characters (Enumeration.GenRangeWalksCharRange), with Enumeration.GenRangeListsLang |
| src/main/java/com/mifmif/common/regex/Generex.java:302-307 | `matchedStringCounter` (line 227) is never reset, so once one call reaches the limit, the same call repeated returns an empty list | `[a-c]` with `getMatchedStrings(2)` called twice: the first call returns one string, the second none | each call counts its own visits from 0 | high, not executed | Enumeration.GetMatchedStrings, shown by Enumeration.GetMatchedStringsSecondCallEmpty | Enumeration.GetMatchedStringsFresh, proved by Enumeration.GetMatchedStringsFreshListsLang |
| src/main/java/com/mifmif/common/regex/Generex.java:414-416 | `maxLength - depth + 1` wraps to `Integer.MIN_VALUE` when `maxLength` is `Integer.MAX_VALUE` and the depth is 0, and `nextInt` throws `IllegalArgumentException` | `random(0)` on the finite pattern `a?`, whose initial state accepts | a bound of `maxLength - depth + 1` without wrap-around | medium, not executed | Sampler.ShouldTerminate32, shown by Sampler.RandomZeroThrows and Sampler.ShouldTerminate32Overflows | Sampler.ShouldTerminate, proved by Sampler.ShouldTerminateEitherWay and its own contract, and used by Sampler.PrepareRandom |
| src/main/java/com/mifmif/common/regex/Generex.java:383-394 | when no candidate's walk lands in [minLength, maxLength], the loop returns the longest result it saw, even when the current string is accepted and in range | the language of `a` and `aaa` with `random(1, 2)` and every draw 1: the coin at `a` says go on, the walk returns `aaa`, and `random` cuts it to `aa`, which is not accepted | return an accepted string in range whenever one exists, as lines 341-342 promise: fall back on the current string when it is accepted and in range | medium, not executed | Sampler.Random with `keepCurrent` false, shown by Sampler.RandomMissesShortWord | Sampler.Random with `keepCurrent` true, proved by Sampler.RandomFindsInRange and used by Sampler.RandomMin |
