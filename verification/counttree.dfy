/**
 The count tree behind `matchedStringsSize`, `getMatchedString` and
 `getFirstMatch`. Each node stands for a choice point: a character range
 [lo, hi] followed by the continuations in `next`. A node without children is
 a stop. The root and the acceptance leaves are width-1 nodes whose character
 is a placeholder; the public operations strip those placeholders.
 */
module CountTree {
  import opened Automata
  import opened WordLists
  import opened Language

  datatype Node = Node(lo: Code, hi: Code, next: seq<Node>)

  /** The character the root and the acceptance leaves carry; it never reaches a caller. */
  const Placeholder: Code := 0

  /** The stop node added first among a state's children when the state accepts. */
  const Leaf: Node := Node(Placeholder, Placeholder, [])

  /** `Integer.MAX_VALUE / 2`: the number of states `prepareTransactionNodes` may expand. */
  const NodeBudget: nat := 0x7FFF_FFFF / 2

  function NodeWidth(n: Node): nat {
    if n.lo <= n.hi then n.hi - n.lo + 1 else 0
  }

  /** Number of strings through a node: its width times its children's total, or times 1 for a stop. */
  function Count(n: Node): nat
    decreases n, 1
  {
    NodeWidth(n) * Fanout(n)
  }

  function Fanout(n: Node): nat
    decreases n, 0
  {
    if n.next == [] then 1 else SumCounts(n.next)
  }

  function SumCounts(cs: seq<Node>): nat
    decreases cs
  {
    if cs == [] then 0 else Count(cs[0]) + SumCounts(cs[1..])
  }

  /** Every range is non-empty. */
  predicate Valid(n: Node)
    decreases n
  {
    n.lo <= n.hi && forall i :: 0 <= i < |n.next| ==> Valid(n.next[i])
  }

  predicate AllValid(cs: seq<Node>) {
    forall i :: 0 <= i < |cs| ==> Valid(cs[i])
  }

  // ---------------------------------------------------------------------------
  // The strings a node spells, in rank order (the reference the lookups meet)
  // ---------------------------------------------------------------------------

  function Spelled(n: Node): seq<Word>
    decreases n, 1
  {
    CharBlocks(n.lo, n.hi, Tails(n))
  }

  function Tails(n: Node): seq<Word>
    decreases n, 0
  {
    if n.next == [] then [[]] else SpelledAll(n.next)
  }

  function SpelledAll(cs: seq<Node>): seq<Word>
    decreases cs
  {
    if cs == [] then [] else Spelled(cs[0]) + SpelledAll(cs[1..])
  }

  lemma {:induction false} SpelledLength(n: Node)
    ensures |Spelled(n)| == Count(n)
    ensures |Tails(n)| == Fanout(n)
    decreases n, 1
  {
    if n.next != [] {
      SpelledAllLength(n.next);
    }
    CharBlocksLength(n.lo, n.hi, Tails(n));
  }

  lemma {:induction false} SpelledAllLength(cs: seq<Node>)
    ensures |SpelledAll(cs)| == SumCounts(cs)
    decreases cs, 0
  {
    if cs != [] {
      SpelledLength(cs[0]);
      SpelledAllLength(cs[1..]);
    }
  }

  lemma {:induction false} ValidCountPositive(n: Node)
    requires Valid(n)
    ensures Fanout(n) >= 1 && Count(n) >= 1
    decreases n, 1
  {
    if n.next != [] {
      ValidSumPositive(n.next);
    }
  }

  lemma {:induction false} ValidSumPositive(cs: seq<Node>)
    requires cs != [] && AllValid(cs)
    ensures SumCounts(cs) >= 1
    decreases cs, 0
  {
    ValidCountPositive(cs[0]);
  }

  lemma SpelledAllConcat(u: seq<Node>, v: seq<Node>)
    ensures SpelledAll(u + v) == SpelledAll(u) + SpelledAll(v)
    ensures SumCounts(u + v) == SumCounts(u) + SumCounts(v)
  {
    if u == [] {
      assert u + v == v;
    } else {
      assert (u + v)[0] == u[0];
      assert (u + v)[1..] == u[1..] + v;
      SpelledAllConcat(u[1..], v);
    }
  }

  /** Position `SumCounts(cs[..i]) + m` of a child list's strings lies in child `i`. */
  lemma {:induction false} SpelledAllIndex(cs: seq<Node>, i: nat, m: nat)
    requires i < |cs| && m < Count(cs[i])
    ensures |Spelled(cs[i])| == Count(cs[i])
    ensures SumCounts(cs[..i]) + m < |SpelledAll(cs)|
    ensures SpelledAll(cs)[SumCounts(cs[..i]) + m] == Spelled(cs[i])[m]
    decreases i
  {
    SpelledAllLength(cs);
    SpelledLength(cs[i]);
    SpelledLength(cs[0]);
    if i > 0 {
      SpelledAllIndex(cs[1..], i - 1, m);
      assert cs[..i][1..] == cs[1..][..i - 1];
      assert cs[1..][i - 1] == cs[i];
    }
  }

  // ---------------------------------------------------------------------------
  // Building the tree from an automaton
  // ---------------------------------------------------------------------------

  /**
   `prepareTransactionNodes`: the children of state `s` — the acceptance leaf
   when `s` accepts, then one node per transition in list order — together with
   the updated count of expanded states. Once `used` reaches the budget a state
   gets no children at all, which is what makes the build stop on any automaton.
   */
  function Prepare(a: Automaton, s: StateId, used: nat): (r: (seq<Node>, nat))
    requires WellFormed(a) && s < |a.states| && used <= NodeBudget
    ensures used <= r.1 <= NodeBudget
    ensures AllValid(r.0)
    ensures used == NodeBudget ==> r.0 == []
    decreases NodeBudget - used, 0
  {
    if used == NodeBudget then ([], used)
    else
      var head: seq<Node> := if a.states[s].accept then [Leaf] else [];
      var edges := PrepareEdges(a, a.states[s].transitions, used + 1);
      var nodes := head + edges.0;
      assert forall i :: 0 <= i < |nodes| ==> Valid(nodes[i]) by {
        forall i | 0 <= i < |nodes|
          ensures Valid(nodes[i])
        {
          if i >= |head| {
            assert nodes[i] == edges.0[i - |head|];
          }
        }
      }
      (nodes, edges.1)
  }

  /**
   Below the budget, a state gets the acceptance leaf when it accepts and then
   one node per transition, carrying that transition's character range.
   */
  lemma PrepareShape(a: Automaton, s: StateId, used: nat, r: seq<Node>)
    requires WellFormed(a) && s < |a.states| && used < NodeBudget
    requires r == Prepare(a, s, used).0
    ensures |r| == (if a.states[s].accept then 1 else 0) + |a.states[s].transitions|
    ensures a.states[s].accept ==> r[0] == Leaf
    ensures forall i :: 0 <= i < |a.states[s].transitions| ==>
              r[(if a.states[s].accept then 1 else 0) + i].lo == a.states[s].transitions[i].min &&
              r[(if a.states[s].accept then 1 else 0) + i].hi == a.states[s].transitions[i].max
  {
    var ts := a.states[s].transitions;
    var head: seq<Node> := if a.states[s].accept then [Leaf] else [];
    var edges := PrepareEdges(a, ts, used + 1).0;
    PrepareSplits(a, s, used, head, edges);
    RangesAfter(head, edges, ts);
  }

  /** Below the budget, the children are the acceptance leaf, if any, then the transitions' nodes. */
  lemma PrepareSplits(a: Automaton, s: StateId, used: nat, head: seq<Node>, edges: seq<Node>)
    requires WellFormed(a) && s < |a.states| && used < NodeBudget
    requires head == (if a.states[s].accept then [Leaf] else [])
    requires edges == PrepareEdges(a, a.states[s].transitions, used + 1).0
    ensures Prepare(a, s, used).0 == head + edges
  {
  }

  /** Nodes placed after `head` keep the ranges of the transitions they stand for. */
  lemma RangesAfter(head: seq<Node>, edges: seq<Node>, ts: seq<Transition>)
    requires |edges| == |ts|
    requires forall i :: 0 <= i < |ts| ==> edges[i].lo == ts[i].min && edges[i].hi == ts[i].max
    ensures forall i :: 0 <= i < |ts| ==> (head + edges)[|head| + i].lo == ts[i].min && (head + edges)[|head| + i].hi == ts[i].max
  {
    forall i | 0 <= i < |ts|
      ensures (head + edges)[|head| + i].lo == ts[i].min && (head + edges)[|head| + i].hi == ts[i].max
    {
      assert (head + edges)[|head| + i] == edges[i];
    }
  }

  /** The loop over the transitions in `prepareTransactionNodes`. */
  function PrepareEdges(a: Automaton, ts: seq<Transition>, used: nat): (r: (seq<Node>, nat))
    requires WellFormed(a) && ValidTransitions(ts, |a.states|) && used <= NodeBudget
    ensures used <= r.1 <= NodeBudget
    ensures AllValid(r.0)
    ensures |r.0| == |ts|
    ensures forall i :: 0 <= i < |ts| ==> r.0[i].lo == ts[i].min && r.0[i].hi == ts[i].max
    decreases NodeBudget - used, 1, |ts|
  {
    if ts == [] then ([], used)
    else
      var kids := Prepare(a, ts[0].dest, used);
      var rest := PrepareEdges(a, ts[1..], kids.1);
      ([Node(ts[0].min, ts[0].max, kids.0)] + rest.0, rest.1)
  }

  /** `buildRootNode`: a width-1 root over the initial state's children. */
  function BuildRootNode(a: Automaton): (root: Node)
    requires WellFormed(a)
    ensures Valid(root)
  {
    Node(Placeholder, Placeholder, Prepare(a, a.initial, 0).0)
  }

  /** The tree without the budget, for an acyclic automaton. */
  function Children(a: Automaton, s: StateId): seq<Node>
    requires WellFormed(a) && Acyclic(a) && s < |a.states|
    decreases |a.states| - s, 1
  {
    (if a.states[s].accept then [Leaf] else []) + EdgeNodes(a, s, a.states[s].transitions)
  }

  function EdgeNodes(a: Automaton, s: StateId, ts: seq<Transition>): seq<Node>
    requires WellFormed(a) && Acyclic(a) && s < |a.states|
    requires ValidTransitions(ts, |a.states|)
    requires forall i :: 0 <= i < |ts| ==> s < ts[i].dest
    decreases |a.states| - s, 0, |ts|
  {
    if ts == [] then []
    else [Node(ts[0].min, ts[0].max, Children(a, ts[0].dest))] + EdgeNodes(a, s, ts[1..])
  }

  /** How many states the unbudgeted build expands from `s`. */
  function Visits(a: Automaton, s: StateId): nat
    requires WellFormed(a) && Acyclic(a) && s < |a.states|
    decreases |a.states| - s, 1
  {
    1 + EdgeVisits(a, s, a.states[s].transitions)
  }

  function EdgeVisits(a: Automaton, s: StateId, ts: seq<Transition>): nat
    requires WellFormed(a) && Acyclic(a) && s < |a.states|
    requires ValidTransitions(ts, |a.states|)
    requires forall i :: 0 <= i < |ts| ==> s < ts[i].dest
    decreases |a.states| - s, 0, |ts|
  {
    if ts == [] then 0 else Visits(a, ts[0].dest) + EdgeVisits(a, s, ts[1..])
  }

  /** When the acyclic tree fits in the budget, the budget never cuts the build. */
  lemma {:induction false} PrepareIsChildren(a: Automaton, s: StateId, used: nat)
    requires WellFormed(a) && Acyclic(a) && s < |a.states|
    requires used + Visits(a, s) <= NodeBudget
    ensures Prepare(a, s, used) == (Children(a, s), used + Visits(a, s))
    decreases |a.states| - s, 1
  {
    PrepareEdgesIsEdgeNodes(a, s, a.states[s].transitions, used + 1);
  }

  lemma {:induction false} PrepareEdgesIsEdgeNodes(a: Automaton, s: StateId, ts: seq<Transition>, used: nat)
    requires WellFormed(a) && Acyclic(a) && s < |a.states|
    requires ValidTransitions(ts, |a.states|)
    requires forall i :: 0 <= i < |ts| ==> s < ts[i].dest
    requires used + EdgeVisits(a, s, ts) <= NodeBudget
    ensures PrepareEdges(a, ts, used) == (EdgeNodes(a, s, ts), used + EdgeVisits(a, s, ts))
    decreases |a.states| - s, 0, |ts|
  {
    if ts != [] {
      var kids := Prepare(a, ts[0].dest, used);
      assert kids == (Children(a, ts[0].dest), used + Visits(a, ts[0].dest)) by {
        PrepareIsChildren(a, ts[0].dest, used);
      }
      assert PrepareEdges(a, ts[1..], kids.1) == (EdgeNodes(a, s, ts[1..]), kids.1 + EdgeVisits(a, s, ts[1..])) by {
        PrepareEdgesIsEdgeNodes(a, s, ts[1..], kids.1);
      }
    }
  }

  /**
   The strings the children of state `s` spell are exactly the words the state
   accepts, in order, each followed by the acceptance leaf's placeholder.
   */
  lemma {:induction false} ChildrenSpellLang(a: Automaton, s: StateId)
    requires Finite(a) && s < |a.states|
    ensures Children(a, s) != []
    ensures SpelledAll(Children(a, s)) == AppendAll(Lang(a, s), Placeholder)
    decreases |a.states| - s, 1
  {
    var ts := a.states[s].transitions;
    var head: seq<Node> := if a.states[s].accept then [Leaf] else [];
    var empty: Word := [];
    var e: seq<Word> := if a.states[s].accept then [empty] else [];
    assert Children(a, s) == head + EdgeNodes(a, s, ts);
    assert Lang(a, s) == e + EdgesLang(a, s, ts);
    EdgeNodesSpellLang(a, s, ts);
    SpelledAllConcat(head, EdgeNodes(a, s, ts));
    AppendAllConcat(e, EdgesLang(a, s, ts), Placeholder);
    if a.states[s].accept {
      LeafSpellsPlaceholder();
      assert SpelledAll(head) == Spelled(Leaf) + SpelledAll([]);
      var ap := AppendAll(e, Placeholder);
      assert |ap| == 1 && ap[0] == empty + [Placeholder];
      assert empty + [Placeholder] == [Placeholder];
      assert ap == SpelledAll(head);
    } else {
      assert SpelledAll(head) == [] == AppendAll(e, Placeholder);
    }
  }

  lemma LeafSpellsPlaceholder()
    ensures Spelled(Leaf) == [[Placeholder]]
  {
    var empty: Word := [];
    var w: Word := [Placeholder];
    var p := Prefix(Placeholder, [empty]);
    assert |p| == 1 && p[0] == [Placeholder] + empty;
    assert [Placeholder] + empty == w;
    assert p == [w];
    assert CharBlocks(Placeholder, Placeholder, [[]]) == p + CharBlocks(Placeholder + 1, Placeholder, [[]]);
    assert Spelled(Leaf) == CharBlocks(Placeholder, Placeholder, [[]]);
  }

  lemma {:induction false} EdgeNodeSpellsBlocks(a: Automaton, t: Transition)
    requires Finite(a) && ValidTransition(t, |a.states|)
    ensures Spelled(Node(t.min, t.max, Children(a, t.dest))) ==
            AppendAll(CharBlocks(t.min, t.max, Lang(a, t.dest)), Placeholder)
    decreases |a.states| - t.dest, 2
  {
    var node := Node(t.min, t.max, Children(a, t.dest));
    ChildrenSpellLang(a, t.dest);
    assert Tails(node) == AppendAll(Lang(a, t.dest), Placeholder);
    CharBlocksAppend(t.min, t.max, Lang(a, t.dest), Placeholder);
  }

  lemma {:induction false} EdgeNodesSpellLang(a: Automaton, s: StateId, ts: seq<Transition>)
    requires Finite(a) && s < |a.states|
    requires ValidTransitions(ts, |a.states|)
    requires forall i :: 0 <= i < |ts| ==> s < ts[i].dest
    ensures |EdgeNodes(a, s, ts)| == |ts|
    ensures SpelledAll(EdgeNodes(a, s, ts)) == AppendAll(EdgesLang(a, s, ts), Placeholder)
    decreases |a.states| - s, 0, |ts|
  {
    if ts != [] {
      var t := ts[0];
      var node := Node(t.min, t.max, Children(a, t.dest));
      var rest := EdgeNodes(a, s, ts[1..]);
      assert EdgeNodes(a, s, ts) == [node] + rest;
      EdgeNodeSpellsBlocks(a, t);
      EdgeNodesSpellLang(a, s, ts[1..]);
      SpelledAllConcat([node], rest);
      assert SpelledAll([node]) == Spelled(node) + SpelledAll([]);
      AppendAllConcat(CharBlocks(t.min, t.max, Lang(a, t.dest)), EdgesLang(a, s, ts[1..]), Placeholder);
    }
  }
}
