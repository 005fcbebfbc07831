/**
 The order-statistic operations over the count tree: the number of matches,
 the match of a given 1-based rank, and the first match.
 */
module Indexer {
  import opened Automata
  import opened WordLists
  import opened Language
  import opened CountTree

  /**
   The character loop of `buildStringFromNode`: characters c, c+1, ... each own
   a bucket of `step` ranks; `passed` ranks lie before character c. Returns the
   character whose bucket holds rank `k` and the rank left within that bucket.
   A rank below the first bucket lands in it unchanged.
   */
  function PickChar(c: Code, hi: Code, step: nat, k: int, passed: int): (r: (Code, int))
    requires c <= hi && 1 <= step
    requires k - passed <= Offset(hi - c + 1, step)
    ensures c <= r.0 <= hi && r.1 <= step
    ensures k - passed < 1 ==> r == (c, k - passed)
    ensures k - passed >= 1 ==> 1 <= r.1 && k - passed == Offset(r.0 - c, step) + r.1
    decreases hi - c
  {
    if passed + step >= k then (c, k - passed)
    else
      assert Offset(hi - c + 1, step) == step + Offset(hi - c, step);
      assert c < hi;
      var r := PickChar(c + 1, hi, step, k, passed + step);
      assert Offset(r.0 - c, step) == step + Offset(r.0 - (c + 1), step);
      r
  }

  /**
   The child loop of `buildStringFromNode`: the child whose range of ranks holds
   rank `k` (with `passed` ranks before the first child), and the rank left
   within that child.
   */
  function PickChild(cs: seq<Node>, k: int, passed: int): (r: (nat, int))
    requires cs != [] && k - passed <= SumCounts(cs)
    ensures r.0 < |cs| && r.1 <= Count(cs[r.0])
    ensures k - passed < 1 ==> r == (0, k - passed)
    ensures k - passed >= 1 ==> 1 <= r.1 && k - passed == SumCounts(cs[..r.0]) + r.1
    decreases |cs|
  {
    if passed + Count(cs[0]) >= k then (0, k - passed)
    else
      assert SumCounts(cs) == Count(cs[0]) + SumCounts(cs[1..]);
      assert cs[1..] != [];
      var r := PickChild(cs[1..], k, passed + Count(cs[0]));
      assert cs[..r.0 + 1][1..] == cs[1..][..r.0];
      (r.0 + 1, r.1)
  }

  lemma MulAtLeast(x: nat, y: int)
    requires y >= 1
    ensures x * y >= x
  {
  }

  /** The division in `buildStringFromNode` is exact: a node's count over its width is its fanout. */
  lemma DivideProduct(w: nat, f: nat)
    requires w >= 1
    ensures (w * f) / w == f
  {
    var q := (w * f) / w;
    var r := (w * f) % w;
    assert w * f == w * q + r && 0 <= r < w;
    assert w * (f - q) == r;
    if f - q >= 1 {
      MulAtLeast(w, f - q);
    }
  }

  /** Each character of a valid node owns a bucket of exactly `Fanout(n)` ranks. */
  lemma StepIsFanout(n: Node)
    requires Valid(n)
    ensures NodeWidth(n) >= 1 && Fanout(n) >= 1
    ensures Count(n) / NodeWidth(n) == Fanout(n) && Count(n) == Offset(NodeWidth(n), Fanout(n))
  {
    ValidCountPositive(n);
    DivideProduct(NodeWidth(n), Fanout(n));
    OffsetIsProduct(NodeWidth(n), Fanout(n));
  }

  /**
   `buildStringFromNode`: the string of rank `k` below node `n`, one character
   per node on the path, the node's own character first.
   */
  function BuildString(n: Node, k: int): (r: Word)
    requires Valid(n) && k <= Count(n)
    ensures |r| >= 1 && (n.next != [] ==> |r| >= 2)
    decreases n
  {
    StepIsFanout(n);
    var step := Count(n) / NodeWidth(n);
    var picked := PickChar(n.lo, n.hi, step, k, 0);
    if n.next == [] then [picked.0]
    else
      var child := PickChild(n.next, picked.1, 0);
      [picked.0] + BuildString(n.next[child.0], child.1)
  }

  /** Ranks below 1 stand for rank 1. */
  function ClampRank(k: int): nat {
    if k < 1 then 1 else k
  }

  /** The rank left after picking a character, offset by the buckets before it, is the rank asked for. */
  lemma PickCharOffset(c: Code, hi: Code, step: nat, k: int, passed: int)
    requires c <= hi && 1 <= step && k - passed <= Offset(hi - c + 1, step)
    ensures ClampRank(k - passed) - 1 ==
            Offset(PickChar(c, hi, step, k, passed).0 - c, step) + ClampRank(PickChar(c, hi, step, k, passed).1) - 1
  {
    if k - passed < 1 {
      assert PickChar(c, hi, step, k, passed) == (c, k - passed);
      assert Offset(0, step) == 0;
    }
  }

  /** Picking a character and a remaining rank is indexing into the node's character blocks. */
  lemma PickCharIndex(c: Code, hi: Code, tails: seq<Word>, k: int, passed: int, r: (Code, int))
    requires c <= hi && 1 <= |tails| && k - passed <= Offset(hi - c + 1, |tails|)
    requires r == PickChar(c, hi, |tails|, k, passed)
    ensures ClampRank(k - passed) - 1 < |CharBlocks(c, hi, tails)|
    ensures ClampRank(r.1) - 1 < |tails|
    ensures CharBlocks(c, hi, tails)[ClampRank(k - passed) - 1] == [r.0] + tails[ClampRank(r.1) - 1]
  {
    PickCharOffset(c, hi, |tails|, k, passed);
    CharBlocksIndex(c, hi, tails, r.0, ClampRank(r.1) - 1);
  }

  /** Picking a child and a remaining rank is indexing into the children's concatenated listings. */
  lemma PickChildIndex(cs: seq<Node>, k: int, passed: int, r: (nat, int))
    requires cs != [] && AllValid(cs) && k - passed <= SumCounts(cs)
    requires r == PickChild(cs, k, passed)
    ensures ClampRank(k - passed) - 1 < |SpelledAll(cs)|
    ensures ClampRank(r.1) - 1 < |Spelled(cs[r.0])|
    ensures SpelledAll(cs)[ClampRank(k - passed) - 1] == Spelled(cs[r.0])[ClampRank(r.1) - 1]
  {
    var m := ClampRank(r.1) - 1;
    assert m < Count(cs[r.0]) by {
      ValidCountPositive(cs[r.0]);
    }
    var idx := ClampRank(k - passed) - 1;
    assert idx == SumCounts(cs[..r.0]) + m by {
      if k - passed < 1 {
        assert cs[..r.0] == [];
      }
    }
    assert idx < |SpelledAll(cs)| && m < |Spelled(cs[r.0])| && SpelledAll(cs)[idx] == Spelled(cs[r.0])[m] by {
      SpelledAllIndex(cs, r.0, m);
    }
  }

  /** `buildStringFromNode` returns the string of the requested rank in the node's ordered listing. */
  lemma {:induction false} BuildStringRank(n: Node, k: int)
    requires Valid(n) && k <= Count(n)
    ensures |Spelled(n)| == Count(n) >= 1
    ensures BuildString(n, k) == Spelled(n)[ClampRank(k) - 1]
    decreases n
  {
    ValidCountPositive(n);
    SpelledLength(n);
    StepIsFanout(n);
    var p := PickChar(n.lo, n.hi, Fanout(n), k, 0);
    assert Spelled(n)[ClampRank(k) - 1] == [p.0] + Tails(n)[ClampRank(p.1) - 1] by {
      PickCharIndex(n.lo, n.hi, Tails(n), k, 0, p);
    }
    if n.next != [] {
      var child := PickChild(n.next, p.1, 0);
      assert Tails(n)[ClampRank(p.1) - 1] == Spelled(n.next[child.0])[ClampRank(child.1) - 1] by {
        PickChildIndex(n.next, p.1, 0, child);
      }
      BuildStringRank(n.next[child.0], child.1);
    }
  }

  // ---------------------------------------------------------------------------
  // The public operations
  // ---------------------------------------------------------------------------

  /** `raw` is `w` between the root's placeholder and the acceptance leaf's placeholder. */
  predicate Framed(raw: Word, w: Word) {
    |raw| == |w| + 2 && raw[1..|raw| - 1] == w
  }

  /** `matchedStringsSize`: the root's count, which is the number of strings the root spells. */
  function MatchedStringsSize(a: Automaton): (r: nat)
    requires WellFormed(a)
    ensures r >= 1 && r == |Spelled(BuildRootNode(a))|
  {
    var root := BuildRootNode(a);
    ValidCountPositive(root);
    SpelledLength(root);
    Count(root)
  }

  /**
   The body of `getMatchedString` on a built root: rank 0 is read as rank 1,
   and the walk's first and last characters (the root's and the acceptance
   leaf's placeholders) are dropped.
   */
  function RootMatch(root: Node, index: int): (r: Word)
    requires Valid(root) && root.next != [] && index <= Count(root)
    ensures ClampRank(index) - 1 < |Spelled(root)|
    ensures Framed(Spelled(root)[ClampRank(index) - 1], r)
  {
    ValidCountPositive(root);
    var k := if index == 0 then 1 else index;
    BuildStringRank(root, k);
    var raw := BuildString(root, k);
    raw[1..|raw| - 1]
  }

  /** `getMatchedString`. */
  function GetMatchedString(a: Automaton, index: int): (r: Word)
    requires WellFormed(a) && BuildRootNode(a).next != []
    requires index <= MatchedStringsSize(a)
    ensures ClampRank(index) - 1 < |Spelled(BuildRootNode(a))|
    ensures Framed(Spelled(BuildRootNode(a))[ClampRank(index) - 1], r)
  {
    RootMatch(BuildRootNode(a), index)
  }

  /** The loop of `getFirstMatch`: follow child 0, collecting the character of every node that has children. */
  function FirstPath(n: Node): (r: Word)
    ensures r == [] <==> n.next == []
    ensures r != [] ==> r[0] == n.lo
    decreases n
  {
    if n.next == [] then [] else [n.lo] + FirstPath(n.next[0])
  }

  /** `getFirstMatch`: the first-child path without the root's placeholder. */
  function GetFirstMatch(a: Automaton): (r: Word)
    requires WellFormed(a) && BuildRootNode(a).next != []
    ensures |Spelled(BuildRootNode(a))| >= 1
    ensures Framed(Spelled(BuildRootNode(a))[0], r)
  {
    var root := BuildRootNode(a);
    FirstPathIsFirstSpelled(root);
    ValidCountPositive(root);
    BuildStringRank(root, 1);
    FirstPath(root)[1..]
  }

  // ---------------------------------------------------------------------------
  // Ranks on a root whose listing is known
  // ---------------------------------------------------------------------------

  /** `root` spells exactly the words of `l`, each between two placeholders. */
  ghost predicate Lists(root: Node, l: seq<Word>) {
    Valid(root) && root.next != [] && Spelled(root) == Prefix(Placeholder, AppendAll(l, Placeholder))
  }

  /** A word of the root's listing, stripped of its first and last characters, is the listed word. */
  lemma StripWord(l: seq<Word>, i: nat)
    requires i < |l|
    ensures |Prefix(Placeholder, AppendAll(l, Placeholder))[i]| >= 2
    ensures var raw := Prefix(Placeholder, AppendAll(l, Placeholder))[i]; raw[1..|raw| - 1] == l[i]
  {
    var raw := Prefix(Placeholder, AppendAll(l, Placeholder))[i];
    assert raw == [Placeholder] + (l[i] + [Placeholder]);
    assert raw[1..|raw| - 1] == l[i];
  }

  /** Rank `index` (0 read as 1) of a root that lists `l` is the word `l[index - 1]`. */
  lemma RootMatchRank(root: Node, l: seq<Word>, index: int)
    requires Lists(root, l) && index <= Count(root)
    ensures |l| == Count(root) >= 1
    ensures RootMatch(root, index) == l[ClampRank(index) - 1]
  {
    var k := if index == 0 then 1 else index;
    assert Count(root) >= 1 by {
      ValidCountPositive(root);
    }
    var raw := BuildString(root, k);
    assert raw == Prefix(Placeholder, AppendAll(l, Placeholder))[ClampRank(k) - 1] && |l| == Count(root) by {
      BuildStringRank(root, k);
    }
    StripWord(l, ClampRank(k) - 1);
  }

  /** Rank `k` between 1 and the count is the word `l[k - 1]`. */
  lemma RootMatchWord(root: Node, l: seq<Word>, k: int)
    requires Lists(root, l) && 1 <= k <= Count(root)
    ensures k - 1 < |l| && RootMatch(root, k) == l[k - 1]
  {
    RootMatchRank(root, l, k);
  }

  /** Two ranks of an ascending list name ascending, distinct words. */
  lemma SortedRanks(l: seq<Word>, u: Word, v: Word, i: int, j: int)
    requires Sorted(l) && 1 <= i < j <= |l| && u == l[i - 1] && v == l[j - 1]
    ensures Less(u, v) && u != v
  {
    SortedDistinct(l, i - 1, j - 1);
  }

  /** Over a root listing an ascending `l`, higher ranks give strictly later words. */
  lemma RootMatchAscending(root: Node, l: seq<Word>, i: int, j: int)
    requires Lists(root, l) && Sorted(l) && 1 <= i < j <= Count(root)
    ensures Less(RootMatch(root, i), RootMatch(root, j))
    ensures RootMatch(root, i) != RootMatch(root, j)
  {
    RootMatchWord(root, l, i);
    RootMatchWord(root, l, j);
    SortedRanks(l, RootMatch(root, i), RootMatch(root, j), i, j);
  }

  // ---------------------------------------------------------------------------
  // What the operations mean for the automaton's language
  // ---------------------------------------------------------------------------

  /** The automata the theorems are about: finite, and small enough that the node budget stays idle. */
  predicate Indexable(a: Automaton) {
    Finite(a) && Visits(a, a.initial) <= NodeBudget
  }

  /** The built root lists the automaton's language. */
  lemma RootListsLang(a: Automaton)
    requires Indexable(a)
    ensures Lists(BuildRootNode(a), Lang(a, a.initial))
  {
    PrepareIsChildren(a, a.initial, 0);
    ChildrenSpellLang(a, a.initial);
    var root := BuildRootNode(a);
    var tails := Tails(root);
    assert CharBlocks(Placeholder + 1, Placeholder, tails) == [];
    assert Spelled(root) == Prefix(Placeholder, tails) + [];
  }

  /** The root's count is the number of words the automaton accepts. */
  lemma MatchedStringsSizeIsLanguageSize(a: Automaton)
    requires Indexable(a)
    ensures MatchedStringsSize(a) == |Lang(a, a.initial)|
  {
    RootListsLang(a);
    SpelledLength(BuildRootNode(a));
  }

  /**
   With ascending, non-overlapping transition ranges, the count is the number
   of distinct accepted words: the listing it measures holds every accepted
   word and none twice. Without that order it counts accepting paths, and a
   word reached along two paths is counted twice.
   */
  lemma MatchedStringsSizeCountsWords(a: Automaton)
    requires Indexable(a) && Ascending(a)
    ensures forall i, j :: 0 <= i < j < |Lang(a, a.initial)| ==> Lang(a, a.initial)[i] != Lang(a, a.initial)[j]
    ensures forall w :: w in Words(Lang(a, a.initial)) <==> Accepts(a, a.initial, w)
    ensures MatchedStringsSize(a) == |Words(Lang(a, a.initial))|
  {
    var l := Lang(a, a.initial);
    MatchedStringsSizeIsLanguageSize(a);
    LangSorted(a, a.initial);
    forall i, j | 0 <= i < j < |l|
      ensures l[i] != l[j]
    {
      SortedDistinct(l, i, j);
    }
    forall w
      ensures w in Words(l) <==> Accepts(a, a.initial, w)
    {
      LangAccepts(a, a.initial, w);
    }
    DistinctCardinality(l);
  }

  /** Rank `index` (0 read as 1) names the `index`-th accepted word of the ordered listing. */
  lemma GetMatchedStringIsRank(a: Automaton, index: int)
    requires Indexable(a) && index <= MatchedStringsSize(a)
    ensures BuildRootNode(a).next != []
    ensures MatchedStringsSize(a) == |Lang(a, a.initial)| >= 1
    ensures GetMatchedString(a, index) == Lang(a, a.initial)[ClampRank(index) - 1]
  {
    RootListsLang(a);
    RootMatchRank(BuildRootNode(a), Lang(a, a.initial), index);
  }

  /** Every rank in range yields a word the automaton accepts. */
  lemma GetMatchedStringAccepted(a: Automaton, index: int)
    requires Indexable(a) && index <= MatchedStringsSize(a)
    ensures BuildRootNode(a).next != []
    ensures Accepts(a, a.initial, GetMatchedString(a, index))
  {
    GetMatchedStringIsRank(a, index);
    LangAccepts(a, a.initial, GetMatchedString(a, index));
  }

  /** Higher ranks give strictly later words, so distinct ranks give distinct words. */
  lemma GetMatchedStringAscending(a: Automaton, i: int, j: int)
    requires Indexable(a) && Ascending(a)
    requires 1 <= i < j <= MatchedStringsSize(a)
    ensures BuildRootNode(a).next != []
    ensures Less(GetMatchedString(a, i), GetMatchedString(a, j))
    ensures GetMatchedString(a, i) != GetMatchedString(a, j)
  {
    RootListsLang(a);
    LangSorted(a, a.initial);
    RootMatchAscending(BuildRootNode(a), Lang(a, a.initial), i, j);
  }

  /** The position of an accepted word in the listing. */
  lemma LangIndex(a: Automaton, w: Word) returns (i: nat)
    requires Indexable(a) && Accepts(a, a.initial, w)
    ensures i < |Lang(a, a.initial)| == MatchedStringsSize(a) && Lang(a, a.initial)[i] == w
  {
    LangAccepts(a, a.initial, w);
    MatchedStringsSizeIsLanguageSize(a);
    var l := Lang(a, a.initial);
    i :| 0 <= i < |l| && l[i] == w;
  }

  /** Every accepted word has a rank. */
  lemma GetMatchedStringOnto(a: Automaton, w: Word)
    requires Indexable(a) && Accepts(a, a.initial, w)
    ensures BuildRootNode(a).next != []
    ensures exists k :: 1 <= k <= MatchedStringsSize(a) && GetMatchedString(a, k) == w
  {
    var i := LangIndex(a, w);
    GetMatchedStringIsRank(a, i + 1);
    assert GetMatchedString(a, i + 1) == w;
  }

  /** The first-child path spells the first string of a node without its final stop character. */
  lemma {:induction false} FirstPathIsFirstSpelled(n: Node)
    requires Valid(n)
    ensures |Spelled(n)| >= 1
    ensures |Spelled(n)[0]| >= 1
    ensures FirstPath(n) == Spelled(n)[0][..|Spelled(n)[0]| - 1]
    decreases n
  {
    SpelledLength(n);
    ValidCountPositive(n);
    CharBlocksIndex(n.lo, n.hi, Tails(n), n.lo, 0);
    assert Spelled(n)[0] == [n.lo] + Tails(n)[0];
    if n.next != [] {
      var c := n.next[0];
      FirstPathIsFirstSpelled(c);
      ValidCountPositive(c);
      SpelledAllIndex(n.next, 0, 0);
      assert Tails(n)[0] == Spelled(c)[0];
    }
  }

  /** `getFirstMatch` agrees with `getMatchedString(1)` and `getMatchedString(0)`, on any automaton. */
  lemma FirstMatchIsRankOne(a: Automaton)
    requires WellFormed(a) && BuildRootNode(a).next != []
    ensures MatchedStringsSize(a) >= 1
    ensures GetFirstMatch(a) == GetMatchedString(a, 1) == GetMatchedString(a, 0)
  {
    var root := BuildRootNode(a);
    ValidCountPositive(root);
    BuildStringRank(root, 1);
    FirstPathIsFirstSpelled(root);
  }
}
