/**
 The reference listing of an acyclic automaton's language, in the order the
 Generex traversals promise — a state's own (empty) word first, then its
 transitions in list order, and within one transition the characters in
 ascending order. A word is listed once per accepting path that spells it, so
 exactly once when each state's transition ranges ascend without overlap
 (`LangSorted`).
 */
module Language {
  import opened Automata
  import opened WordLists

  /** The words accepted from state `s`, in traversal order. */
  function Lang(a: Automaton, s: StateId): seq<Word>
    requires WellFormed(a) && Acyclic(a) && s < |a.states|
    decreases |a.states| - s, 1
  {
    (if a.states[s].accept then [[]] else []) + EdgesLang(a, s, a.states[s].transitions)
  }

  /** The words accepted through the transitions `ts` leaving state `s`. */
  function EdgesLang(a: Automaton, s: StateId, ts: seq<Transition>): seq<Word>
    requires WellFormed(a) && Acyclic(a) && s < |a.states|
    requires ValidTransitions(ts, |a.states|)
    requires forall i :: 0 <= i < |ts| ==> s < ts[i].dest
    decreases |a.states| - s, 0, |ts|
  {
    if ts == [] then []
    else CharBlocks(ts[0].min, ts[0].max, Lang(a, ts[0].dest)) + EdgesLang(a, s, ts[1..])
  }

  lemma {:induction false} EdgesLangMember(a: Automaton, s: StateId, ts: seq<Transition>, w: Word)
    requires WellFormed(a) && Acyclic(a) && s < |a.states|
    requires ValidTransitions(ts, |a.states|)
    requires forall i :: 0 <= i < |ts| ==> s < ts[i].dest
    ensures w in EdgesLang(a, s, ts) <==>
            |w| > 0 && exists i :: 0 <= i < |ts| && ts[i].min <= w[0] <= ts[i].max && w[1..] in Lang(a, ts[i].dest)
    decreases |ts|
  {
    if ts != [] {
      EdgesLangMember(a, s, ts[1..], w);
      CharBlocksMember(ts[0].min, ts[0].max, Lang(a, ts[0].dest), w);
      if |w| > 0 && (exists i :: 0 <= i < |ts| && ts[i].min <= w[0] <= ts[i].max && w[1..] in Lang(a, ts[i].dest)) {
        var i :| 0 <= i < |ts| && ts[i].min <= w[0] <= ts[i].max && w[1..] in Lang(a, ts[i].dest);
        if i > 0 {
          assert ts[1..][i - 1] == ts[i];
        }
      }
      if |w| > 0 && exists i :: 0 <= i < |ts[1..]| && ts[1..][i].min <= w[0] <= ts[1..][i].max && w[1..] in Lang(a, ts[1..][i].dest) {
        var i :| 0 <= i < |ts[1..]| && ts[1..][i].min <= w[0] <= ts[1..][i].max && w[1..] in Lang(a, ts[1..][i].dest);
        assert ts[i + 1] == ts[1..][i];
      }
    }
  }

  /** The listing holds exactly the accepted words. */
  lemma {:induction false} LangAccepts(a: Automaton, s: StateId, w: Word)
    requires WellFormed(a) && Acyclic(a) && s < |a.states|
    ensures w in Lang(a, s) <==> Accepts(a, s, w)
    decreases |a.states| - s
  {
    var ts := a.states[s].transitions;
    EdgesLangMember(a, s, ts, w);
    if w != [] {
      forall i | 0 <= i < |ts|
        ensures w[1..] in Lang(a, ts[i].dest) <==> Accepts(a, ts[i].dest, w[1..])
      {
        LangAccepts(a, ts[i].dest, w[1..]);
      }
    }
  }

  lemma {:induction false} EdgesLangSorted(a: Automaton, s: StateId, ts: seq<Transition>)
    requires WellFormed(a) && Acyclic(a) && Ascending(a) && s < |a.states|
    requires ValidTransitions(ts, |a.states|) && AscendingRanges(ts)
    requires forall i :: 0 <= i < |ts| ==> s < ts[i].dest
    ensures Sorted(EdgesLang(a, s, ts))
    ensures ts != [] ==> forall i :: 0 <= i < |EdgesLang(a, s, ts)| ==>
              |EdgesLang(a, s, ts)[i]| > 0 && ts[0].min <= EdgesLang(a, s, ts)[i][0]
    decreases |a.states| - s, 0, |ts|
  {
    if ts != [] {
      var t := ts[0];
      LangSorted(a, t.dest);
      CharBlocksSorted(t.min, t.max, Lang(a, t.dest));
      EdgesLangSorted(a, s, ts[1..]);
      var u := CharBlocks(t.min, t.max, Lang(a, t.dest));
      var v := EdgesLang(a, s, ts[1..]);
      forall i, j | 0 <= i < |u| && 0 <= j < |v|
        ensures Less(u[i], v[j])
      {
        assert ts[1..][0] == ts[1];
        FirstCharLess(u[i], v[j]);
      }
      SortedConcat(u, v);
    }
  }

  /** The listing is strictly ascending, so no word appears twice. */
  lemma {:induction false} LangSorted(a: Automaton, s: StateId)
    requires WellFormed(a) && Acyclic(a) && Ascending(a) && s < |a.states|
    ensures Sorted(Lang(a, s))
    decreases |a.states| - s, 1
  {
    var ts := a.states[s].transitions;
    EdgesLangSorted(a, s, ts);
    var e: seq<Word> := if a.states[s].accept then [[]] else [];
    var v := EdgesLang(a, s, ts);
    forall i, j | 0 <= i < |e| && 0 <= j < |v|
      ensures Less(e[i], v[j])
    {
    }
    SortedConcat(e, v);
  }
}
