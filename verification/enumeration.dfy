/**
 The depth-first enumeration behind `getMatchedStrings` and
 `getAllMatchedStrings`. The walk keeps one counter of visited states, shared
 by every call on the same object; a visit is refused once the counter has
 reached the limit. The counter is threaded through explicitly: each call takes
 the counter it starts from and returns the one it leaves behind.
 */
module Enumeration {
  import opened Automata
  import opened WordLists
  import opened Language
  import opened CharLoops

  /** `Integer.MAX_VALUE`, the limit `getAllMatchedStrings` passes. */
  const MaxLimit: nat := 0x7FFF_FFFF

  /**
   `generate`: visit state `s` having read `str`. Returns the words recorded
   and the counter after the visit.
   */
  function Generate(a: Automaton, str: Word, s: StateId, limit: nat, counter: nat): (r: (seq<Word>, nat))
    requires WellFormed(a) && s < |a.states| && counter <= limit
    ensures counter <= r.1 <= limit
    ensures |r.0| <= r.1 - counter
    decreases limit - counter, 0
  {
    if counter == limit then ([], counter)
    else
      var ts := a.states[s].transitions;
      if ts == [] then ([str], counter + 1)
      else
        var rest := GenEdges(a, str, ts, limit, counter + 1);
        ((if a.states[s].accept then [str] else []) + rest.0, rest.1)
  }

  /** The loop over the transitions of the visited state. */
  function GenEdges(a: Automaton, str: Word, ts: seq<Transition>, limit: nat, counter: nat): (r: (seq<Word>, nat))
    requires WellFormed(a) && ValidTransitions(ts, |a.states|) && counter <= limit
    ensures counter <= r.1 <= limit
    ensures |r.0| <= r.1 - counter
    decreases limit - counter, 2, |ts|
  {
    if ts == [] then ([], counter)
    else
      var first := GenRange(a, str, ts[0].min, ts[0].max, ts[0].dest, limit, counter);
      var rest := GenEdges(a, str, ts[1..], limit, first.1);
      (first.0 + rest.0, rest.1)
  }

  /**
   The loop over the characters [c, hi] of one transition, one recursive visit
   of `dest` per character. The counter `c` is an unbounded integer here; the
   16-bit loop variable of the original is modelled in `CharLoop`.
   */
  function GenRange(a: Automaton, str: Word, c: int, hi: Code, dest: StateId, limit: nat, counter: nat): (r: (seq<Word>, nat))
    requires WellFormed(a) && dest < |a.states| && 0 <= c && counter <= limit
    ensures counter <= r.1 <= limit
    ensures |r.0| <= r.1 - counter
    decreases limit - counter, 1, hi + 1 - c
  {
    if c > hi then ([], counter)
    else
      var first := Generate(a, str + [c], dest, limit, counter);
      var rest := GenRange(a, str, c + 1, hi, dest, limit, first.1);
      (first.0 + rest.0, rest.1)
  }

  /** The walk over the characters `cs`, in order: one visit of `dest` per character. */
  function GenChars(a: Automaton, str: Word, cs: seq<Code>, dest: StateId, limit: nat, counter: nat): (r: (seq<Word>, nat))
    requires WellFormed(a) && dest < |a.states| && counter <= limit
    ensures counter <= r.1 <= limit
    decreases |cs|
  {
    if cs == [] then ([], counter)
    else
      var first := Generate(a, str + [cs[0]], dest, limit, counter);
      var rest := GenChars(a, str, cs[1..], dest, limit, first.1);
      (first.0 + rest.0, rest.1)
  }

  /** The character loop walks exactly the characters of `CharRange(c, hi)`, in order, and no others. */
  lemma {:induction false} GenRangeWalksCharRange(a: Automaton, str: Word, c: int, hi: Code, dest: StateId, limit: nat, counter: nat)
    requires WellFormed(a) && dest < |a.states| && 0 <= c && counter <= limit
    ensures GenRange(a, str, c, hi, dest, limit, counter) == GenChars(a, str, CharRange(c, hi), dest, limit, counter)
    decreases hi + 1 - c
  {
    if c <= hi {
      var first := Generate(a, str + [c], dest, limit, counter);
      GenRangeWalksCharRange(a, str, c + 1, hi, dest, limit, first.1);
      var cs := CharRange(c, hi);
      assert cs[0] == c && cs[1..] == CharRange(c + 1, hi);
    }
  }

  /**
   `getMatchedStrings(limit)` as written: the walk starts from the counter the
   previous calls left behind. Returns the list and the new counter.
   */
  function GetMatchedStrings(a: Automaton, limit: nat, counter: nat): (r: (seq<Word>, nat))
    requires WellFormed(a) && counter <= limit
    ensures counter <= r.1 <= limit && |r.0| <= limit - counter
  {
    Generate(a, [], a.initial, limit, counter)
  }

  /** `getAllMatchedStrings` as written: `getMatchedStrings` with the limit `Integer.MAX_VALUE`. */
  function GetAllMatchedStrings(a: Automaton, counter: nat): (r: (seq<Word>, nat))
    requires WellFormed(a) && counter <= MaxLimit
    ensures counter <= r.1 <= MaxLimit && |r.0| <= MaxLimit - counter
  {
    GetMatchedStrings(a, MaxLimit, counter)
  }

  /** `getMatchedStrings` with the visit counter reset at the start of each call. */
  function GetMatchedStringsFresh(a: Automaton, limit: nat): (r: seq<Word>)
    requires WellFormed(a)
    ensures |r| <= limit
  {
    GetMatchedStrings(a, limit, 0).0
  }

  /** `getAllMatchedStrings` with the visit counter reset at the start of each call. */
  function GetAllMatchedStringsFresh(a: Automaton): (r: seq<Word>)
    requires WellFormed(a)
    ensures |r| <= MaxLimit
  {
    GetMatchedStringsFresh(a, MaxLimit)
  }

  // ---------------------------------------------------------------------------
  // Every recorded word is accepted
  // ---------------------------------------------------------------------------

  /** `w` starts with a character of one of the transitions `ts` and is accepted from that transition's target. */
  ghost predicate StepAccepts(a: Automaton, ts: seq<Transition>, w: Word)
    requires WellFormed(a) && ValidTransitions(ts, |a.states|)
  {
    |w| > 0 && exists e :: 0 <= e < |ts| && ts[e].min <= w[0] <= ts[e].max && Accepts(a, ts[e].dest, w[1..])
  }

  /** Every word the visit of `s` records extends `str` by a word accepted from `s`. */
  lemma {:induction false} GenerateAccepted(a: Automaton, str: Word, s: StateId, limit: nat, counter: nat)
    requires WellFormed(a) && Live(a) && s < |a.states| && counter <= limit
    ensures forall i :: 0 <= i < |Generate(a, str, s, limit, counter).0| ==>
              IsPrefix(str, Generate(a, str, s, limit, counter).0[i]) &&
              Accepts(a, s, Generate(a, str, s, limit, counter).0[i][|str|..])
    decreases limit - counter, 0
  {
    var ts := a.states[s].transitions;
    if counter < limit && ts != [] {
      var rest := GenEdges(a, str, ts, limit, counter + 1);
      GenEdgesAccepted(a, str, ts, limit, counter + 1);
      var out := Generate(a, str, s, limit, counter).0;
      forall i | 0 <= i < |out|
        ensures IsPrefix(str, out[i]) && Accepts(a, s, out[i][|str|..])
      {
        var w := out[i];
        if a.states[s].accept && i == 0 {
          assert w[|str|..] == [];
        } else {
          var j := if a.states[s].accept then i - 1 else i;
          assert w == rest.0[j];
          assert StepAccepts(a, ts, w[|str|..]);
        }
      }
    }
  }

  lemma {:induction false} GenEdgesAccepted(a: Automaton, str: Word, ts: seq<Transition>, limit: nat, counter: nat)
    requires WellFormed(a) && Live(a) && ValidTransitions(ts, |a.states|) && counter <= limit
    ensures forall i :: 0 <= i < |GenEdges(a, str, ts, limit, counter).0| ==>
              IsPrefix(str, GenEdges(a, str, ts, limit, counter).0[i]) &&
              StepAccepts(a, ts, GenEdges(a, str, ts, limit, counter).0[i][|str|..])
    decreases limit - counter, 2, |ts|
  {
    if ts != [] {
      var first := GenRange(a, str, ts[0].min, ts[0].max, ts[0].dest, limit, counter);
      GenRangeAccepted(a, str, ts[0].min, ts[0].max, ts[0].dest, limit, counter);
      GenEdgesAccepted(a, str, ts[1..], limit, first.1);
      var rest := GenEdges(a, str, ts[1..], limit, first.1);
      var out := GenEdges(a, str, ts, limit, counter).0;
      assert out == first.0 + rest.0;
      forall i | 0 <= i < |out|
        ensures IsPrefix(str, out[i]) && StepAccepts(a, ts, out[i][|str|..])
      {
        if i < |first.0| {
          assert out[i] == first.0[i];
          var w := out[i][|str|..];
          assert w[0] == out[i][|str|] && w[1..] == out[i][|str| + 1..];
          assert ts[0].min <= w[0] <= ts[0].max && Accepts(a, ts[0].dest, w[1..]);
        } else {
          assert out[i] == rest.0[i - |first.0|];
          var w := out[i][|str|..];
          assert StepAccepts(a, ts[1..], w);
          var e :| 0 <= e < |ts[1..]| && ts[1..][e].min <= w[0] <= ts[1..][e].max && Accepts(a, ts[1..][e].dest, w[1..]);
          assert ts[1..][e] == ts[e + 1];
        }
      }
    }
  }

  lemma {:induction false} GenRangeAccepted(a: Automaton, str: Word, c: int, hi: Code, dest: StateId, limit: nat, counter: nat)
    requires WellFormed(a) && Live(a) && dest < |a.states| && 0 <= c && counter <= limit
    ensures forall i :: 0 <= i < |GenRange(a, str, c, hi, dest, limit, counter).0| ==>
              |GenRange(a, str, c, hi, dest, limit, counter).0[i]| > |str| &&
              IsPrefix(str, GenRange(a, str, c, hi, dest, limit, counter).0[i]) &&
              c <= GenRange(a, str, c, hi, dest, limit, counter).0[i][|str|] <= hi &&
              Accepts(a, dest, GenRange(a, str, c, hi, dest, limit, counter).0[i][|str| + 1..])
    decreases limit - counter, 1, hi + 1 - c
  {
    if c <= hi {
      var first := Generate(a, str + [c], dest, limit, counter);
      GenerateAccepted(a, str + [c], dest, limit, counter);
      GenRangeAccepted(a, str, c + 1, hi, dest, limit, first.1);
      var rest := GenRange(a, str, c + 1, hi, dest, limit, first.1);
      var out := GenRange(a, str, c, hi, dest, limit, counter).0;
      assert out == first.0 + rest.0;
      forall i | 0 <= i < |out|
        ensures |out[i]| > |str| && IsPrefix(str, out[i]) && c <= out[i][|str|] <= hi &&
                Accepts(a, dest, out[i][|str| + 1..])
      {
        if i < |first.0| {
          var w := first.0[i];
          assert out[i] == w;
          assert IsPrefix(str + [c], w);
          assert w[..|str|] == (str + [c])[..|str|] == str;
          assert w[|str|] == c;
          assert w[|str| + 1..] == w[|str + [c]|..];
        } else {
          assert out[i] == rest.0[i - |first.0|];
        }
      }
    }
  }

  /** With a live automaton, every string `getMatchedStrings` returns is accepted. */
  lemma GetMatchedStringsAccepted(a: Automaton, limit: nat, counter: nat)
    requires WellFormed(a) && Live(a) && counter <= limit
    ensures forall i :: 0 <= i < |GetMatchedStrings(a, limit, counter).0| ==>
              Accepts(a, a.initial, GetMatchedStrings(a, limit, counter).0[i])
  {
    GenerateAccepted(a, [], a.initial, limit, counter);
    var out := GetMatchedStrings(a, limit, counter).0;
    forall i | 0 <= i < |out|
      ensures Accepts(a, a.initial, out[i])
    {
      assert out[i][0..] == out[i];
    }
  }

  // ---------------------------------------------------------------------------
  // On an acyclic automaton the walk lists a prefix of the language, in order
  // ---------------------------------------------------------------------------

  /** Number of visits `generate` makes below state `s`: one per state per character path. */
  function GenVisits(a: Automaton, s: StateId): (v: nat)
    requires WellFormed(a) && Acyclic(a) && s < |a.states|
    ensures v >= 1
    decreases |a.states| - s, 1
  {
    1 + GenEdgeVisits(a, s, a.states[s].transitions)
  }

  function GenEdgeVisits(a: Automaton, s: StateId, ts: seq<Transition>): nat
    requires WellFormed(a) && Acyclic(a) && s < |a.states|
    requires ValidTransitions(ts, |a.states|)
    requires forall i :: 0 <= i < |ts| ==> s < ts[i].dest
    decreases |a.states| - s, 0, |ts|
  {
    if ts == [] then 0
    else RangeVisits(ts[0].min, ts[0].max, GenVisits(a, ts[0].dest)) + GenEdgeVisits(a, s, ts[1..])
  }

  /** Visits of one state for every character of [c, hi]: `v` each. */
  function RangeVisits(c: int, hi: int, v: nat): nat {
    if c > hi then 0 else (hi + 1 - c) * v
  }

  lemma RangeVisitsStep(c: int, hi: int, v: nat)
    requires c <= hi
    ensures RangeVisits(c, hi, v) == v + RangeVisits(c + 1, hi, v)
  {
    MulSuccessor(hi - c, v);
  }

  lemma {:induction false} GenRangeAtLimit(a: Automaton, str: Word, c: int, hi: Code, dest: StateId, limit: nat)
    requires WellFormed(a) && dest < |a.states| && 0 <= c
    ensures GenRange(a, str, c, hi, dest, limit, limit) == ([], limit)
    decreases hi + 1 - c
  {
    if c <= hi {
      GenRangeAtLimit(a, str, c + 1, hi, dest, limit);
    }
  }

  lemma {:induction false} GenEdgesAtLimit(a: Automaton, str: Word, ts: seq<Transition>, limit: nat)
    requires WellFormed(a) && ValidTransitions(ts, |a.states|)
    ensures GenEdges(a, str, ts, limit, limit) == ([], limit)
    decreases |ts|
  {
    if ts != [] {
      GenRangeAtLimit(a, str, ts[0].min, ts[0].max, ts[0].dest, limit);
      GenEdgesAtLimit(a, str, ts[1..], limit);
    }
  }

  /**
   What a walk that has `visits` visits to make, starting at `counter`, does
   against the full list `full` it would record without a limit: it records a
   prefix of that list; all of it, ending at `counter + visits`, when the visits
   fit under the limit; and otherwise it ends with the counter at the limit.
   */
  ghost predicate Outcome(r: (seq<Word>, nat), full: seq<Word>, counter: nat, visits: nat, limit: nat) {
    && IsPrefix(r.0, full)
    && (counter + visits <= limit ==> r == (full, counter + visits))
    && (counter + visits > limit ==> r.1 == limit)
  }

  /** Two walks in sequence, the second starting where the first left the counter. */
  lemma CombineOutcome(r1: (seq<Word>, nat), full1: seq<Word>, v1: nat,
                       r2: (seq<Word>, nat), full2: seq<Word>, v2: nat, counter: nat, limit: nat)
    requires Outcome(r1, full1, counter, v1, limit)
    requires counter + v1 <= limit ==> Outcome(r2, full2, counter + v1, v2, limit)
    requires counter + v1 > limit ==> r2 == ([], limit)
    ensures Outcome((r1.0 + r2.0, r2.1), full1 + full2, counter, v1 + v2, limit)
  {
    if counter + v1 <= limit {
      assert (full1 + full2)[..|full1 + r2.0|] == full1 + full2[..|r2.0|];
    } else {
      assert r1.0 + r2.0 == r1.0;
      assert (full1 + full2)[..|r1.0|] == full1[..|r1.0|];
    }
  }

  /** A visit that records `head` and then makes the walk `r`. */
  lemma VisitOutcome(head: seq<Word>, r: (seq<Word>, nat), full: seq<Word>, counter: nat, visits: nat, limit: nat)
    requires counter < limit
    requires Outcome(r, full, counter + 1, visits, limit)
    ensures Outcome((head + r.0, r.1), head + full, counter, 1 + visits, limit)
  {
    assert (head + full)[..|head + r.0|] == head + full[..|r.0|];
  }

  /**
   The walk from state `s` lists the words of `Lang(a, s)`, each behind `str`,
   in order: all of them when the visits fit under the limit, and otherwise a
   prefix of them with the counter left at the limit.
   */
  lemma {:induction false} GenerateListsLang(a: Automaton, str: Word, s: StateId, limit: nat, counter: nat)
    requires Finite(a) && s < |a.states| && counter <= limit
    ensures Outcome(Generate(a, str, s, limit, counter), PrependAll(str, Lang(a, s)), counter, GenVisits(a, s), limit)
    decreases |a.states| - s, 2
  {
    var ts := a.states[s].transitions;
    var e: seq<Word> := if a.states[s].accept then [[]] else [];
    var edges := EdgesLang(a, s, ts);
    assert Lang(a, s) == e + edges;
    PrependAllConcat(str, e, edges);
    var head: seq<Word> := if a.states[s].accept then [str] else [];
    assert PrependAll(str, e) == head by {
      if a.states[s].accept {
        var empty: Word := [];
        assert e == [empty];
        assert PrependAll(str, [empty]) == [str + empty];
        assert str + empty == str;
      }
    }
    if counter < limit {
      if ts == [] {
        assert a.states[s].accept;
        assert PrependAll(str, edges) == [];
      } else {
        GenEdgesListsLang(a, s, str, ts, limit, counter + 1);
        var rest := GenEdges(a, str, ts, limit, counter + 1);
        VisitOutcome(head, rest, PrependAll(str, edges), counter, GenEdgeVisits(a, s, ts), limit);
      }
    }
  }

  lemma {:induction false} GenEdgesListsLang(a: Automaton, s: StateId, str: Word, ts: seq<Transition>, limit: nat, counter: nat)
    requires Finite(a) && s < |a.states| && counter <= limit
    requires ValidTransitions(ts, |a.states|)
    requires forall i :: 0 <= i < |ts| ==> s < ts[i].dest
    ensures Outcome(GenEdges(a, str, ts, limit, counter), PrependAll(str, EdgesLang(a, s, ts)), counter, GenEdgeVisits(a, s, ts), limit)
    decreases |a.states| - s, 1, |ts|
  {
    if ts != [] {
      var t := ts[0];
      var blocks := CharBlocks(t.min, t.max, Lang(a, t.dest));
      var later := EdgesLang(a, s, ts[1..]);
      assert EdgesLang(a, s, ts) == blocks + later;
      PrependAllConcat(str, blocks, later);
      var first := GenRange(a, str, t.min, t.max, t.dest, limit, counter);
      GenRangeListsLang(a, str, t.min, t.max, t.dest, limit, counter, first);
      var v1 := RangeVisits(t.min, t.max, GenVisits(a, t.dest));
      if counter + v1 <= limit {
        GenEdgesListsLang(a, s, str, ts[1..], limit, first.1);
      } else {
        GenEdgesAtLimit(a, str, ts[1..], limit);
      }
      var rest := GenEdges(a, str, ts[1..], limit, first.1);
      CombineOutcome(first, PrependAll(str, blocks), v1, rest, PrependAll(str, later), GenEdgeVisits(a, s, ts[1..]), counter, limit);
    }
  }

  lemma {:induction false} GenRangeListsLang(a: Automaton, str: Word, c: int, hi: Code, dest: StateId, limit: nat, counter: nat,
                                             r: (seq<Word>, nat))
    requires Finite(a) && dest < |a.states| && 0 <= c && counter <= limit
    requires r == GenRange(a, str, c, hi, dest, limit, counter)
    ensures Outcome(r, PrependAll(str, CharBlocks(c, hi, Lang(a, dest))),
                    counter, RangeVisits(c, hi, GenVisits(a, dest)), limit)
    decreases |a.states| - dest, 3, hi + 1 - c
  {
    if c <= hi {
      var l := Lang(a, dest);
      var v := GenVisits(a, dest);
      var first := Generate(a, str + [c], dest, limit, counter);
      var rest := GenRange(a, str, c + 1, hi, dest, limit, first.1);
      var fullFirst := PrependAll(str + [c], l);
      var fullRest := PrependAll(str, CharBlocks(c + 1, hi, l));
      assert Outcome(first, fullFirst, counter, v, limit) by {
        GenerateListsLang(a, str + [c], dest, limit, counter);
      }
      assert && (counter + v <= limit ==> Outcome(rest, fullRest, counter + v, RangeVisits(c + 1, hi, v), limit))
             && (counter + v > limit ==> rest == ([], limit)) by {
        if counter + v <= limit {
          GenRangeListsLang(a, str, c + 1, hi, dest, limit, first.1, rest);
        } else {
          GenRangeAtLimit(a, str, c + 1, hi, dest, limit);
        }
      }
      GenRangeStep(a, str, c, hi, dest, limit, counter, first, rest, r);
    } else {
      assert r == ([], counter);
      assert CharBlocks(c, hi, Lang(a, dest)) == [];
    }
  }

  /** One character of the range: the visit of `dest` for `c`, then the rest of the range. */
  lemma GenRangeStep(a: Automaton, str: Word, c: int, hi: Code, dest: StateId, limit: nat, counter: nat,
                     first: (seq<Word>, nat), rest: (seq<Word>, nat), r: (seq<Word>, nat))
    requires Finite(a) && dest < |a.states| && 0 <= c <= hi && counter <= limit
    requires first == Generate(a, str + [c], dest, limit, counter)
    requires rest == GenRange(a, str, c + 1, hi, dest, limit, first.1)
    requires Outcome(first, PrependAll(str + [c], Lang(a, dest)), counter, GenVisits(a, dest), limit)
    requires counter + GenVisits(a, dest) <= limit ==>
               Outcome(rest, PrependAll(str, CharBlocks(c + 1, hi, Lang(a, dest))),
                       counter + GenVisits(a, dest), RangeVisits(c + 1, hi, GenVisits(a, dest)), limit)
    requires counter + GenVisits(a, dest) > limit ==> rest == ([], limit)
    requires r == GenRange(a, str, c, hi, dest, limit, counter)
    ensures Outcome(r, PrependAll(str, CharBlocks(c, hi, Lang(a, dest))),
                    counter, RangeVisits(c, hi, GenVisits(a, dest)), limit)
  {
    var l := Lang(a, dest);
    var v := GenVisits(a, dest);
    RangeVisitsStep(c, hi, v);
    var fullFirst := PrependAll(str + [c], l);
    var fullRest := PrependAll(str, CharBlocks(c + 1, hi, l));
    assert PrependAll(str, CharBlocks(c, hi, l)) == fullFirst + fullRest by {
      PrependAllCharBlocks(str, c, hi, l);
    }
    assert r == (first.0 + rest.0, rest.1);
    CombineOutcome(first, fullFirst, v, rest, fullRest, RangeVisits(c + 1, hi, v), counter, limit);
  }

  lemma PrependAllEmpty(ws: seq<Word>)
    ensures PrependAll([], ws) == ws
  {
    var r := PrependAll([], ws);
    forall i | 0 <= i < |ws|
      ensures r[i] == ws[i]
    {
      assert [] + ws[i] == ws[i];
    }
  }

  /**
   From a fresh counter, `getMatchedStrings(limit)` returns the first words of
   the ordered language, and the whole language once the limit covers every
   visit of the walk.
   */
  lemma GetMatchedStringsFreshListsLang(a: Automaton, limit: nat)
    requires Finite(a)
    ensures IsPrefix(GetMatchedStringsFresh(a, limit), Lang(a, a.initial))
    ensures GenVisits(a, a.initial) <= limit ==> GetMatchedStringsFresh(a, limit) == Lang(a, a.initial)
  {
    GenerateListsLang(a, [], a.initial, limit, 0);
    PrependAllEmpty(Lang(a, a.initial));
    assert IsPrefix(GetMatchedStringsFresh(a, limit), PrependAll([], Lang(a, a.initial)));
  }

  /** `getAllMatchedStrings` from a fresh counter is the whole language when the walk fits under `Integer.MAX_VALUE` visits. */
  lemma GetAllMatchedStringsFreshIsLang(a: Automaton)
    requires Finite(a) && GenVisits(a, a.initial) <= MaxLimit
    ensures GetAllMatchedStringsFresh(a) == Lang(a, a.initial)
  {
    GetMatchedStringsFreshListsLang(a, MaxLimit);
  }

  /** A walk with more visits than the limit uses the limit up, so the repeated call comes back empty. */
  lemma GetMatchedStringsSecondCallEmpty(a: Automaton, limit: nat)
    requires Finite(a) && limit < GenVisits(a, a.initial)
    ensures GetMatchedStrings(a, limit, GetMatchedStrings(a, limit, 0).1).0 == []
  {
    GenerateListsLang(a, [], a.initial, limit, 0);
  }
}
