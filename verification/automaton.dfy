/**
 The abstract finite automaton every Generex traversal reads: states with an
 accept flag and an ordered list of character-range transitions. The automaton
 itself is built elsewhere; this module only states what the traversals assume
 of it, what it means for a word to be accepted, and the order in which the
 traversals list words.
 */
module Automata {

  /** A UTF-16 code unit, the value range of a Java `char`. */
  type Code = c: int | 0 <= c <= 0xFFFF

  /** A word over code units. */
  type Word = seq<Code>

  type StateId = nat

  /** An edge labelled with the inclusive character range [min, max]. */
  datatype Transition = Transition(min: Code, max: Code, dest: StateId)

  datatype State = State(accept: bool, transitions: seq<Transition>)

  datatype Automaton = Automaton(states: seq<State>, initial: StateId)

  /** Number of characters a transition can produce (`getWeightedTransitions`). */
  function Width(t: Transition): int {
    t.max - t.min + 1
  }

  predicate ValidTransition(t: Transition, n: nat) {
    t.min <= t.max && t.dest < n
  }

  predicate ValidTransitions(ts: seq<Transition>, n: nat) {
    forall i :: 0 <= i < |ts| ==> ValidTransition(ts[i], n)
  }

  /** Every state id is in range and every range is non-empty. */
  predicate WellFormed(a: Automaton) {
    && a.initial < |a.states|
    && forall s :: 0 <= s < |a.states| ==> ValidTransitions(a.states[s].transitions, |a.states|)
  }

  /** No dead ends: a state without outgoing transitions accepts. */
  predicate Live(a: Automaton) {
    forall s :: 0 <= s < |a.states| ==> a.states[s].accept || |a.states[s].transitions| > 0
  }

  /**
   The language is finite: the states are numbered in topological order, so
   every transition leads to a higher-numbered state. Any acyclic automaton can
   be renumbered this way.
   */
  predicate Acyclic(a: Automaton) {
    forall s, i :: 0 <= s < |a.states| && 0 <= i < |a.states[s].transitions| ==>
      s < a.states[s].transitions[i].dest
  }

  /**
   The list of transitions leaving a state ascends by `min` and the ranges do
   not overlap. This is what the traversals assume of the list they are given.
   */
  predicate AscendingRanges(ts: seq<Transition>) {
    forall i :: 0 <= i < |ts| - 1 ==> ts[i].max < ts[i + 1].min
  }

  predicate Ascending(a: Automaton) {
    forall s :: 0 <= s < |a.states| ==> AscendingRanges(a.states[s].transitions)
  }

  /**
   What the counting and ranking theorems assume: a well-formed, acyclic
   automaton without dead ends, so every state reaches acceptance.
   */
  predicate Finite(a: Automaton) {
    WellFormed(a) && Live(a) && Acyclic(a)
  }

  /** `w` can be read from state `s` by following transitions (acceptance not required). */
  predicate IsRun(a: Automaton, s: StateId, w: Word)
    requires WellFormed(a) && s < |a.states|
    decreases |w|
  {
    var ts := a.states[s].transitions;
    w == [] ||
    exists i :: 0 <= i < |ts| && ts[i].min <= w[0] <= ts[i].max && IsRun(a, ts[i].dest, w[1..])
  }

  /** `w` leads from state `s` to an accepting state. */
  predicate Accepts(a: Automaton, s: StateId, w: Word)
    requires WellFormed(a) && s < |a.states|
    decreases |w|
  {
    var ts := a.states[s].transitions;
    if w == [] then a.states[s].accept
    else exists i :: 0 <= i < |ts| && ts[i].min <= w[0] <= ts[i].max && Accepts(a, ts[i].dest, w[1..])
  }

  /** Lexicographic order in which a proper prefix comes first. */
  predicate Less(u: Word, v: Word)
    decreases |u|
  {
    if u == [] then v != []
    else v != [] && (u[0] < v[0] || (u[0] == v[0] && Less(u[1..], v[1..])))
  }

  lemma {:induction false} LessIrreflexive(u: Word)
    ensures !Less(u, u)
    decreases |u|
  {
    if u != [] {
      LessIrreflexive(u[1..]);
    }
  }

  /** Every accepted word is a run. */
  lemma {:induction false} AcceptsIsRun(a: Automaton, s: StateId, w: Word)
    requires WellFormed(a) && s < |a.states|
    requires Accepts(a, s, w)
    ensures IsRun(a, s, w)
    decreases |w|
  {
    if w != [] {
      var ts := a.states[s].transitions;
      var i :| 0 <= i < |ts| && ts[i].min <= w[0] <= ts[i].max && Accepts(a, ts[i].dest, w[1..]);
      AcceptsIsRun(a, ts[i].dest, w[1..]);
    }
  }

  /** Runs are prefix-closed. */
  lemma {:induction false} RunPrefix(a: Automaton, s: StateId, w: Word, n: nat)
    requires WellFormed(a) && s < |a.states|
    requires IsRun(a, s, w) && n <= |w|
    ensures IsRun(a, s, w[..n])
    decreases n
  {
    if n > 0 {
      var ts := a.states[s].transitions;
      var i :| 0 <= i < |ts| && ts[i].min <= w[0] <= ts[i].max && IsRun(a, ts[i].dest, w[1..]);
      RunPrefix(a, ts[i].dest, w[1..], n - 1);
      assert w[..n][1..] == w[1..][..n - 1];
    }
  }
}
