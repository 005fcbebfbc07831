/**
 The bounded random sampler (`random`, `prepareRandom` and their helpers).
 The random generator is an injected stream of naturals: `nextInt(bound)` is
 the next draw reduced into [0, bound), and the position of the next unused
 draw is threaded through every call. The candidate transitions of a state are
 taken in the order of the state's transition list, which stands for the fixed
 but unspecified iteration order of the `HashSet` copy the sampler draws from.
 */
module Sampler {
  import opened Automata
  import opened WordLists
  import opened Optional

  /** The random generator: the draw at each position. */
  type Draws = nat -> nat

  /** `Random.nextInt(bound)` at draw position `pos`. */
  function NextInt(draws: Draws, pos: nat, bound: nat): (r: nat)
    requires bound >= 1
    ensures r < bound
  {
    draws(pos) % bound
  }

  /** The default maximum length for a language that is not finite. */
  const DefaultInfiniteMaxLength: nat := 50

  /** `Integer.MAX_VALUE`, the maximum length used for a finite language. */
  const IntMax: nat := 0x7FFF_FFFF

  // ---------------------------------------------------------------------------
  // Weights
  // ---------------------------------------------------------------------------

  /** Every candidate range is non-empty. */
  predicate NonEmptyRanges(ts: seq<Transition>) {
    forall i :: 0 <= i < |ts| ==> ts[i].min <= ts[i].max
  }

  /** `calculateTotalWeightedTransitions`: the number of characters the candidates can produce together. */
  function TotalWeight(ts: seq<Transition>): (r: int)
    ensures r <= 0x1_0000 * |ts|
  {
    if ts == [] then 0 else Width(ts[0]) + TotalWeight(ts[1..])
  }

  /** Each non-empty range weighs at least 1, so the total is at least the number of candidates. */
  lemma {:induction false} TotalWeightAtLeastCount(ts: seq<Transition>)
    requires NonEmptyRanges(ts)
    ensures TotalWeight(ts) >= |ts|
  {
    if ts != [] {
      TotalWeightAtLeastCount(ts[1..]);
    }
  }

  /**
   Removing one candidate lowers the total by exactly its width: the update
   `totalWeightedTransitions -= subTransitions` keeps the total equal to the
   weight of the remaining candidates.
   */
  lemma {:induction false} TotalWeightRemove(ts: seq<Transition>, i: nat)
    requires i < |ts|
    ensures TotalWeight(ts) == Width(ts[i]) + TotalWeight(ts[..i] + ts[i + 1..])
    decreases i
  {
    var rest := ts[..i] + ts[i + 1..];
    if i == 0 {
      assert rest == ts[1..];
    } else {
      var tail := ts[1..];
      var restTail := tail[..i - 1] + tail[i..];
      assert rest[0] == ts[0] && rest[1..] == restTail;
      assert TotalWeight(tail) == Width(tail[i - 1]) + TotalWeight(restTail) by {
        TotalWeightRemove(tail, i - 1);
      }
      assert tail[i - 1] == ts[i];
    }
  }

  /** Removing the picked candidate keeps the others valid and lowers the weight by the candidate's width. */
  lemma RemoveCandidate(cands: seq<Transition>, i: nat, n: nat)
    requires i < |cands| && ValidTransitions(cands, n)
    ensures ValidTransitions(cands[..i] + cands[i + 1..], n)
    ensures forall t :: t in cands[..i] + cands[i + 1..] ==> t in cands
    ensures TotalWeight(cands) == Width(cands[i]) + TotalWeight(cands[..i] + cands[i + 1..])
  {
    var rest := cands[..i] + cands[i + 1..];
    forall j | 0 <= j < |rest|
      ensures rest[j] == cands[if j < i then j else j + 1]
    {
    }
    TotalWeightRemove(cands, i);
  }

  // ---------------------------------------------------------------------------
  // Weighted choice
  // ---------------------------------------------------------------------------

  /**
   The loop of `pickRandomWeightedTransition`: subtract each candidate's width
   from `value` and stop at the first candidate that brings it to zero or below.
   `None` is the `IllegalArgumentException` thrown when the loop runs out.
   */
  function WeightedScan(ts: seq<Transition>, value: int): (r: Option<nat>)
    ensures r.Some? ==> r.value < |ts|
    decreases |ts|
  {
    if ts == [] then None
    else if value - Width(ts[0]) <= 0 then Some(0)
    else
      match WeightedScan(ts[1..], value - Width(ts[0]))
      case None => None
      case Some(j) => Some(j + 1)
  }

  /** The candidate found is the one whose slice of the running weight total holds `value`. */
  lemma {:induction false} WeightedScanSlice(ts: seq<Transition>, value: int)
    requires WeightedScan(ts, value).Some?
    ensures var i := WeightedScan(ts, value).value;
            value <= TotalWeight(ts[..i + 1]) && (i > 0 ==> TotalWeight(ts[..i]) < value)
    decreases |ts|
  {
    var i := WeightedScan(ts, value).value;
    if value - Width(ts[0]) > 0 {
      var v := value - Width(ts[0]);
      WeightedScanSlice(ts[1..], v);
      assert i == WeightedScan(ts[1..], v).value + 1;
      assert TotalWeight(ts[..i + 1]) == Width(ts[0]) + TotalWeight(ts[1..][..i]) by {
        assert ts[..i + 1][1..] == ts[1..][..i];
      }
      assert TotalWeight(ts[..i]) == Width(ts[0]) + TotalWeight(ts[1..][..i - 1]) by {
        assert ts[..i][1..] == ts[1..][..i - 1];
      }
    } else {
      assert TotalWeight(ts[..1]) == Width(ts[0]) + TotalWeight(ts[1..][..0]) by {
        assert ts[..1][1..] == ts[1..][..0];
      }
    }
  }

  /**
   Conversely, every candidate is chosen for exactly the values in its slice:
   candidate `i` owns the `Width(ts[i])` values above the weight of the
   candidates before it.
   */
  lemma {:induction false} WeightedScanSelects(ts: seq<Transition>, i: nat, value: int)
    requires NonEmptyRanges(ts) && i < |ts|
    requires i > 0 ==> TotalWeight(ts[..i]) < value
    requires value <= TotalWeight(ts[..i + 1])
    ensures WeightedScan(ts, value) == Some(i)
    decreases i
  {
    assert TotalWeight(ts[..i + 1]) == Width(ts[0]) + TotalWeight(ts[1..][..i]) by {
      assert ts[..i + 1][1..] == ts[1..][..i];
    }
    if i > 0 {
      assert TotalWeight(ts[..i]) == Width(ts[0]) + TotalWeight(ts[1..][..i - 1]) by {
        assert ts[..i][1..] == ts[1..][..i - 1];
      }
      assert value - Width(ts[0]) > 0 by {
        TotalWeightAtLeastCount(ts[1..][..i - 1]);
      }
      WeightedScanSelects(ts[1..], i - 1, value - Width(ts[0]));
    } else {
      assert ts[1..][..0] == [];
    }
  }

  /** The scan finds a candidate exactly when `value` does not exceed the total weight. */
  lemma {:induction false} WeightedScanFinds(ts: seq<Transition>, value: int)
    requires NonEmptyRanges(ts)
    ensures WeightedScan(ts, value).Some? <==> ts != [] && value <= TotalWeight(ts)
    decreases |ts|
  {
    if ts != [] && value - Width(ts[0]) > 0 {
      WeightedScanFinds(ts[1..], value - Width(ts[0]));
    } else if ts != [] {
      TotalWeightAtLeastCount(ts[1..]);
    }
  }

  /**
   `pickRandomWeightedTransition`: a value drawn uniformly from [1, total]
   selects a candidate by width. `None` stands for both exceptions the source
   can throw: `nextInt` refusing a bound below 1, and a total larger than the
   candidates' weight. The result is an index into `ts`.
   */
  function PickRandomWeightedTransition(ts: seq<Transition>, total: int, draws: Draws, pos: nat): (r: (Option<nat>, nat))
    ensures r.0.Some? ==> r.0.value < |ts|
    ensures r.1 == pos + (if total >= 1 then 1 else 0)
  {
    if total < 1 then (None, pos)
    else (WeightedScan(ts, NextInt(draws, pos, total) + 1), pos + 1)
  }

  /**
   While the total equals the candidates' weight, the pick never throws; with a
   larger total it throws exactly when the drawn value lies beyond the weight.
   */
  lemma PickRandomWeightedTransitionSucceeds(ts: seq<Transition>, total: int, draws: Draws, pos: nat)
    requires NonEmptyRanges(ts)
    ensures PickRandomWeightedTransition(ts, total, draws, pos).0.Some? <==>
            total >= 1 && ts != [] && NextInt(draws, pos, total) + 1 <= TotalWeight(ts)
    ensures ts != [] && total == TotalWeight(ts) ==> PickRandomWeightedTransition(ts, total, draws, pos).0.Some?
  {
    TotalWeightAtLeastCount(ts);
    if total >= 1 {
      WeightedScanFinds(ts, NextInt(draws, pos, total) + 1);
    }
  }

  // ---------------------------------------------------------------------------
  // Termination coin and character choice
  // ---------------------------------------------------------------------------

  /**
   `shouldTerminate`: below the minimum length no draw is made and the walk goes
   on; otherwise the walk stops with chance 1 / (maxLength - depth + 1).
   */
  function ShouldTerminate(depth: nat, minLength: nat, maxLength: nat, draws: Draws, pos: nat): (r: (bool, nat))
    requires depth <= maxLength
    ensures depth < minLength ==> r == (false, pos)
    ensures minLength <= depth ==> r.1 == pos + 1
    ensures minLength <= depth == maxLength ==> r.0
  {
    if depth >= minLength then (NextInt(draws, pos, maxLength - depth + 1) == 0, pos + 1)
    else (false, pos)
  }

  /** A Java `int` result: `x` reduced into [-2^31, 2^31) with two's-complement wrap-around. */
  function Wrap32(x: int): (r: int)
    ensures -0x8000_0000 <= r < 0x8000_0000
    ensures -0x8000_0000 <= x < 0x8000_0000 ==> r == x
    ensures (x - r) % 0x1_0000_0000 == 0
  {
    (x + 0x8000_0000) % 0x1_0000_0000 - 0x8000_0000
  }

  /**
   `shouldTerminate` with the bound `maxLength - depth + 1` computed in 32-bit
   arithmetic, as the Java code does. `None` is the `IllegalArgumentException`
   of `nextInt` for a bound below 1.
   */
  function ShouldTerminate32(depth: nat, minLength: nat, maxLength: nat, draws: Draws, pos: nat): (r: Option<(bool, nat)>)
    requires depth <= maxLength <= IntMax
    ensures depth < minLength ==> r == Some((false, pos))
    ensures minLength <= depth && r.Some? ==> r.value.1 == pos + 1
    ensures minLength <= depth == maxLength ==> r == Some((true, pos + 1))
  {
    if depth >= minLength then
      var bound := Wrap32(maxLength - depth + 1);
      if bound < 1 then None else Some((NextInt(draws, pos, bound) == 0, pos + 1))
    else Some((false, pos))
  }

  /**
   The 32-bit coin throws exactly when a walk asks for it at depth 0 with
   maximum length `Integer.MAX_VALUE` (`random(0)` on a finite language whose
   start state accepts); everywhere else it is the unbounded coin.
   */
  lemma ShouldTerminate32Overflows(depth: nat, minLength: nat, maxLength: nat, draws: Draws, pos: nat)
    requires depth <= maxLength <= IntMax
    ensures ShouldTerminate32(depth, minLength, maxLength, draws, pos).None? <==>
            minLength == depth == 0 && maxLength == IntMax
    ensures ShouldTerminate32(depth, minLength, maxLength, draws, pos).Some? ==>
            ShouldTerminate32(depth, minLength, maxLength, draws, pos).value == ShouldTerminate(depth, minLength, maxLength, draws, pos)
  {
    if depth >= minLength && !(depth == 0 && maxLength == IntMax) {
      assert Wrap32(maxLength - depth + 1) == maxLength - depth + 1;
    }
  }

  /** The smallest witness: `random(0)` on a finite language whose start state accepts. */
  lemma RandomZeroThrows(draws: Draws, pos: nat)
    ensures ShouldTerminate32(0, 0, IntMax, draws, pos) == None
  {
    assert Wrap32(IntMax + 1) == -0x8000_0000;
  }

  /** The character `(char) (random.nextInt(width) + min)` drawn inside a transition's range. */
  function RandomChar(t: Transition, draws: Draws, pos: nat): (c: Code)
    requires t.min <= t.max
    ensures t.min <= c <= t.max
  {
    t.min + NextInt(draws, pos, Width(t))
  }

  /** Every character of the range is drawn by some generator. */
  lemma RandomCharOnto(t: Transition, c: Code, pos: nat)
    requires t.min <= c <= t.max
    ensures RandomChar(t, (_: nat) => c - t.min, pos) == c
  {
    var x: nat := c - t.min;
    var draws: Draws := (_: nat) => x;
    assert draws(pos) == x;
    assert x % Width(t) == x;
  }

  /** Between the minimum and the maximum length the coin can fall either way. */
  lemma ShouldTerminateEitherWay(depth: nat, minLength: nat, maxLength: nat, pos: nat)
    requires minLength <= depth < maxLength
    ensures ShouldTerminate(depth, minLength, maxLength, (_: nat) => 0, pos).0
    ensures !ShouldTerminate(depth, minLength, maxLength, (_: nat) => 1, pos).0
  {
    var zero: Draws := (_: nat) => 0;
    var one: Draws := (_: nat) => 1;
    assert zero(pos) == 0 && one(pos) == 1;
    assert 1 % (maxLength - depth + 1) == 1;
  }

  // ---------------------------------------------------------------------------
  // Longest paths
  // ---------------------------------------------------------------------------

  function Max(x: int, y: int): int {
    if x < y then y else x
  }

  /** Every transition in `ts` leads from `s` to a later state. */
  predicate Forward(a: Automaton, s: StateId, ts: seq<Transition>) {
    forall i :: 0 <= i < |ts| ==> s < ts[i].dest < |a.states|
  }

  /** In an acyclic automaton, the candidates of a state lead forward. */
  lemma FromForward(a: Automaton, s: StateId, cands: seq<Transition>)
    requires WellFormed(a) && Acyclic(a) && s < |a.states| && From(a, s, cands)
    ensures Forward(a, s, cands)
  {
    var ts := a.states[s].transitions;
    forall i | 0 <= i < |cands|
      ensures s < cands[i].dest < |a.states|
    {
      assert cands[i] in ts;
      var j :| 0 <= j < |ts| && ts[j] == cands[i];
    }
  }

  /** The length of the longest path from `s` in an acyclic automaton. */
  function Height(a: Automaton, s: StateId): (h: nat)
    requires WellFormed(a) && Acyclic(a) && s < |a.states|
    decreases |a.states| - s, 1
  {
    EdgeHeight(a, s, a.states[s].transitions)
  }

  /** The length of the longest path from `s` that starts with one of the transitions `ts`. */
  function EdgeHeight(a: Automaton, s: StateId, ts: seq<Transition>): (h: nat)
    requires WellFormed(a) && Acyclic(a) && s < |a.states| && Forward(a, s, ts)
    decreases |a.states| - s, 0, |ts|
  {
    if ts == [] then 0 else Max(1 + Height(a, ts[0].dest), EdgeHeight(a, s, ts[1..]))
  }

  /** A path through transition `i` is no longer than the longest. */
  lemma {:induction false} EdgeHeightAtLeast(a: Automaton, s: StateId, ts: seq<Transition>, i: nat)
    requires WellFormed(a) && Acyclic(a) && s < |a.states| && Forward(a, s, ts) && i < |ts|
    ensures EdgeHeight(a, s, ts) >= 1 + Height(a, ts[i].dest)
    decreases i
  {
    if i > 0 {
      EdgeHeightAtLeast(a, s, ts[1..], i - 1);
    }
  }

  /** The longest path through `ts` goes through one of them. */
  lemma {:induction false} EdgeHeightAttained(a: Automaton, s: StateId, ts: seq<Transition>) returns (i: nat)
    requires WellFormed(a) && Acyclic(a) && s < |a.states| && Forward(a, s, ts) && ts != []
    ensures i < |ts| && EdgeHeight(a, s, ts) == 1 + Height(a, ts[i].dest)
    decreases |ts|
  {
    if |ts| == 1 || 1 + Height(a, ts[0].dest) >= EdgeHeight(a, s, ts[1..]) {
      i := 0;
    } else {
      var j := EdgeHeightAttained(a, s, ts[1..]);
      i := j + 1;
    }
  }

  /** Removing a candidate from a list that leads forward leaves one that leads forward. */
  lemma ForwardRemove(a: Automaton, s: StateId, ts: seq<Transition>, i: nat)
    requires Forward(a, s, ts) && i < |ts|
    ensures Forward(a, s, Remove(ts, i))
  {
    var rest := Remove(ts, i);
    forall j | 0 <= j < |rest|
      ensures rest[j] == ts[if j < i then j else j + 1]
    {
    }
  }

  /** Removing a later candidate keeps the first and removes from the tail. */
  lemma RemoveTail(ts: seq<Transition>, i: nat)
    requires 0 < i < |ts|
    ensures Remove(ts, i)[0] == ts[0] && Remove(ts, i)[1..] == Remove(ts[1..], i - 1)
  {
    assert ts[..i] == [ts[0]] + ts[1..][..i - 1];
    assert ts[i + 1..] == ts[1..][i..];
  }

  /** Dropping one candidate leaves the longest path through the others. */
  lemma {:induction false} EdgeHeightRemove(a: Automaton, s: StateId, ts: seq<Transition>, i: nat)
    requires WellFormed(a) && Acyclic(a) && s < |a.states| && Forward(a, s, ts) && i < |ts|
    ensures Forward(a, s, Remove(ts, i))
    ensures EdgeHeight(a, s, ts) == Max(1 + Height(a, ts[i].dest), EdgeHeight(a, s, Remove(ts, i)))
    decreases i
  {
    ForwardRemove(a, s, ts, i);
    if i == 0 {
      assert Remove(ts, i) == ts[1..];
    } else {
      var tail := ts[1..];
      EdgeHeightRemove(a, s, tail, i - 1);
      RemoveTail(ts, i);
      assert tail[i - 1] == ts[i];
    }
  }

  /** In an acyclic automaton, the transitions of a state lead forward. */
  lemma ForwardIfAcyclic(a: Automaton, s: StateId)
    requires WellFormed(a) && s < |a.states|
    ensures Acyclic(a) ==> Forward(a, s, a.states[s].transitions)
  {
  }

  /**
   The length bookkeeping of one turn of the sampler's loop: when the picked
   candidate's walk falls short of the range, it is as long as the longest
   path through that candidate, and the rest of the loop returns one at least
   as long as the longest path through the others, the loop's result is as
   long as the longest path through all of them.
   */
  lemma LongestTurn(a: Automaton, s: StateId, ts: seq<Transition>, i: nat, cur: nat, sub: nat, r: nat,
                    minLength: nat, maxLength: nat)
    requires WellFormed(a) && s < |a.states| && i < |ts| && ValidTransitions(ts, |a.states|)
    requires Acyclic(a) && minLength <= maxLength ==> minLength <= sub || cur + 1 + Height(a, ts[i].dest) <= sub
    requires sub < minLength || maxLength < sub
    requires minLength <= r <= maxLength || sub <= r
    requires Acyclic(a) && Forward(a, s, Remove(ts, i)) && minLength <= maxLength ==>
               minLength <= r || cur + EdgeHeight(a, s, Remove(ts, i)) <= r
    ensures Acyclic(a) && Forward(a, s, ts) && minLength <= maxLength ==>
              minLength <= r || cur + EdgeHeight(a, s, ts) <= r
  {
    if Acyclic(a) && Forward(a, s, ts) && minLength <= maxLength {
      EdgeHeightRemove(a, s, ts, i);
    }
  }

  /** No path from `s` is longer than `Height(a, s)`. */
  lemma {:induction false} RunWithinHeight(a: Automaton, s: StateId, w: Word)
    requires WellFormed(a) && Acyclic(a) && s < |a.states| && IsRun(a, s, w)
    ensures |w| <= Height(a, s)
    decreases |w|
  {
    if w != [] {
      var ts := a.states[s].transitions;
      var i :| 0 <= i < |ts| && ts[i].min <= w[0] <= ts[i].max && IsRun(a, ts[i].dest, w[1..]);
      RunWithinHeight(a, ts[i].dest, w[1..]);
      EdgeHeightAtLeast(a, s, ts, i);
    }
  }

  /** Without dead ends, some accepted word from `s` is `Height(a, s)` long. */
  lemma {:induction false} LongestRun(a: Automaton, s: StateId) returns (w: Word)
    requires Finite(a) && s < |a.states|
    ensures |w| == Height(a, s) && Accepts(a, s, w)
    decreases |a.states| - s
  {
    var ts := a.states[s].transitions;
    if ts == [] {
      w := [];
    } else {
      var i := EdgeHeightAttained(a, s, ts);
      var rest := LongestRun(a, ts[i].dest);
      w := [ts[i].min] + rest;
      assert w[1..] == rest;
    }
  }

  // ---------------------------------------------------------------------------
  // Paths through the automaton
  // ---------------------------------------------------------------------------

  /** Every candidate is one of the state's transitions. */
  ghost predicate From(a: Automaton, s: StateId, cands: seq<Transition>)
    requires s < |a.states|
  {
    forall t :: t in cands ==> t in a.states[s].transitions
  }

  /** A string that extends `cur + [c]` extends `cur` by `c` and then the rest. */
  lemma ExtendStep(cur: Word, c: Code, w: Word)
    requires |w| >= |cur| + 1 && w[..|cur| + 1] == cur + [c]
    ensures w[..|cur|] == cur
    ensures w[|cur|..] == [c] + w[|cur| + 1..]
  {
    assert w[..|cur|] == w[..|cur| + 1][..|cur|];
    assert w[|cur|] == w[..|cur| + 1][|cur|];
  }

  /** One step of a run: a character of a transition of `s` followed by a run from its target. */
  lemma RunStep(a: Automaton, s: StateId, t: Transition, c: Code, w: Word)
    requires WellFormed(a) && s < |a.states| && t in a.states[s].transitions
    requires t.min <= c <= t.max && IsRun(a, t.dest, w)
    ensures IsRun(a, s, [c] + w)
  {
    var ts := a.states[s].transitions;
    var j :| 0 <= j < |ts| && ts[j] == t;
    assert ([c] + w)[1..] == w;
  }

  /** Acceptance through one transition. */
  lemma AcceptStep(a: Automaton, s: StateId, t: Transition, c: Code, w: Word)
    requires WellFormed(a) && s < |a.states| && t in a.states[s].transitions
    requires t.min <= c <= t.max && Accepts(a, t.dest, w)
    ensures Accepts(a, s, [c] + w)
  {
    var ts := a.states[s].transitions;
    var j :| 0 <= j < |ts| && ts[j] == t;
    assert ([c] + w)[1..] == w;
  }

  /**
   `w` is a walk from state `s` that continues `cur`: it extends `cur`, the
   part after `cur` is a path from `s`, and on an automaton without dead ends
   that part is accepted whenever `w` is at most `maxLength` long.
   */
  ghost predicate Walk(a: Automaton, s: StateId, cur: Word, w: Word, maxLength: nat)
    requires WellFormed(a) && s < |a.states|
  {
    && |cur| <= |w| && w[..|cur|] == cur && IsRun(a, s, w[|cur|..])
    && (Live(a) && |w| <= maxLength ==> Accepts(a, s, w[|cur|..]))
  }

  /**
   What one turn adds: a string that extends `cur + [c]` along a path from the
   target of `t`, with `c` in the range of `t`, extends `cur` along a path from
   `s`, and keeps its acceptance.
   */
  lemma TurnStep(a: Automaton, s: StateId, t: Transition, cur: Word, c: Code, w: Word, maxLength: nat)
    requires WellFormed(a) && s < |a.states| && t in a.states[s].transitions && t.min <= c <= t.max
    requires Walk(a, t.dest, cur + [c], w, maxLength)
    ensures Walk(a, s, cur, w, maxLength)
  {
    ExtendStep(cur, c, w);
    RunStep(a, s, t, c, w[|cur| + 1..]);
    if Live(a) && |w| <= maxLength {
      AcceptStep(a, s, t, c, w[|cur| + 1..]);
    }
  }

  /** Some word of length in [lo, hi] is accepted from `s`. */
  ghost predicate Reaches(a: Automaton, s: StateId, lo: int, hi: int)
    requires WellFormed(a) && s < |a.states|
  {
    exists w :: Accepts(a, s, w) && lo <= |w| <= hi
  }

  /** The target of one of the transitions `ts` reaches a word of length in [lo, hi]. */
  ghost predicate SomeReaches(a: Automaton, ts: seq<Transition>, lo: int, hi: int)
    requires WellFormed(a) && ValidTransitions(ts, |a.states|)
  {
    exists j :: 0 <= j < |ts| && Reaches(a, ts[j].dest, lo, hi)
  }

  /**
   A word of length in [lo, hi] accepted from `s` is either empty, when `s`
   accepts, or one character followed by a word of length in [lo - 1, hi - 1]
   accepted from the target of a transition of `s`.
   */
  lemma ReachesSplit(a: Automaton, s: StateId, lo: int, hi: int)
    requires WellFormed(a) && s < |a.states|
    ensures Reaches(a, s, lo, hi) ==>
              (a.states[s].accept && lo <= 0 <= hi) || SomeReaches(a, a.states[s].transitions, lo - 1, hi - 1)
  {
    if Reaches(a, s, lo, hi) {
      var w :| Accepts(a, s, w) && lo <= |w| <= hi;
      if w != [] {
        var ts := a.states[s].transitions;
        var i :| 0 <= i < |ts| && ts[i].min <= w[0] <= ts[i].max && Accepts(a, ts[i].dest, w[1..]);
        assert Reaches(a, ts[i].dest, lo - 1, hi - 1);
      }
    }
  }

  /** When the removed candidate reaches no such word, another one that does is still there. */
  lemma RemoveReaches(a: Automaton, ts: seq<Transition>, i: nat, lo: int, hi: int)
    requires WellFormed(a) && ValidTransitions(ts, |a.states|) && i < |ts|
    ensures ValidTransitions(Remove(ts, i), |a.states|)
    ensures SomeReaches(a, ts, lo, hi) && !Reaches(a, ts[i].dest, lo, hi) ==> SomeReaches(a, Remove(ts, i), lo, hi)
  {
    var rest := Remove(ts, i);
    forall j | 0 <= j < |rest|
      ensures rest[j] == ts[if j < i then j else j + 1]
    {
    }
    if SomeReaches(a, ts, lo, hi) && !Reaches(a, ts[i].dest, lo, hi) {
      var j :| 0 <= j < |ts| && Reaches(a, ts[j].dest, lo, hi);
      assert rest[if j < i then j else j - 1] == ts[j];
    }
  }

  // ---------------------------------------------------------------------------
  // The sampler
  // ---------------------------------------------------------------------------

  /**
   One turn of the candidate loop: the index of the candidate picked by
   weight, the character drawn uniformly in its range, and the next draw
   position.
   */
  function Turn(cands: seq<Transition>, total: int, draws: Draws, pos: nat): (r: (nat, Code, nat))
    requires NonEmptyRanges(cands) && cands != [] && total == TotalWeight(cands)
    ensures r.0 < |cands| && cands[r.0].min <= r.1 <= cands[r.0].max
  {
    PickRandomWeightedTransitionSucceeds(cands, total, draws, pos);
    var pick := PickRandomWeightedTransition(cands, total, draws, pos);
    (pick.0.value, RandomChar(cands[pick.0.value], draws, pick.1), pick.1 + 1)
  }

  /** The candidates left after `possibleTransitions.remove`. */
  function Remove(cands: seq<Transition>, i: nat): (r: seq<Transition>)
    requires i < |cands|
    ensures |r| == |cands| - 1
  {
    cands[..i] + cands[i + 1..]
  }

  /** `remove` takes out exactly the picked candidate and keeps every other one. */
  lemma RemoveTakesOne(cands: seq<Transition>, i: nat)
    requires i < |cands|
    ensures multiset(Remove(cands, i)) + multiset{cands[i]} == multiset(cands)
  {
    assert cands == cands[..i] + [cands[i]] + cands[i + 1..];
  }

  /** The longer of two strings, the first one on a tie. */
  function Longer(u: Word, v: Word): (r: Word)
    ensures |r| >= |u| && |r| >= |v| && (r == u || r == v)
  {
    if |u| < |v| then v else u
  }

  /**
   `prepareRandom`: extend `cur` from state `s`. A string longer than
   `maxLength` marks a dead branch and comes back unchanged; at an accepting
   state the coin may stop the walk; otherwise the state's transitions are
   tried one by one, by weighted choice. The result extends `cur` along a path
   from `s`, is at most one character longer than `maxLength`, and, on an
   automaton without dead ends, is accepted whenever its length lies in
   [minLength, maxLength]: a string that runs out of room is always one
   character too long or shorter than the minimum.

   With `keepCurrent` false this is the code as written. With `keepCurrent`
   true, a state that accepts the current string, when its length is already
   in range, falls back on that string rather than on a longer result out of
   range once its candidates are exhausted.
   */
  function PrepareRandom(a: Automaton, cur: Word, s: StateId, minLength: nat, maxLength: nat,
                         draws: Draws, pos: nat, keepCurrent: bool): (r: (Word, nat))
    requires WellFormed(a) && s < |a.states|
    ensures Walk(a, s, cur, r.0, maxLength)
    ensures |cur| <= maxLength + 1 ==> |r.0| <= maxLength + 1
    ensures Acyclic(a) && minLength <= maxLength ==> minLength <= |r.0| || |cur| + Height(a, s) <= |r.0|
    ensures keepCurrent && Reaches(a, s, minLength - |cur|, maxLength - |cur|) ==> minLength <= |r.0| <= maxLength
    decreases maxLength + 1 - |cur|, 1, 0, 0
  {
    assert cur[..|cur|] == cur && cur[|cur|..] == [];
    if |cur| > maxLength then (cur, pos)
    else
      var coin := if a.states[s].accept then ShouldTerminate(|cur|, minLength, maxLength, draws, pos) else (false, pos);
      if coin.0 then (cur, coin.1)
      else
        var ts := a.states[s].transitions;
        ForwardIfAcyclic(a, s);
        ReachesSplit(a, s, minLength - |cur|, maxLength - |cur|);
        TryTransitions(a, cur, s, ts, TotalWeight(ts), minLength, maxLength, draws, coin.1, cur, keepCurrent)
  }

  /**
   The `while` loop of `prepareRandom` over the remaining candidates `cands`
   of state `s`, whose weight is `total`: pick a candidate by weight, draw a
   character in its range and walk on from its target. When the candidates
   run out, `best`, the longest string seen so far, is returned (or `cur`
   itself, under `keepCurrent`, when `s` accepts it and its length is in
   range). Besides the walk property and the length bound, the result is in
   range, or at least as long as `best`; and in an acyclic automaton, a
   result shorter than `minLength` is at least as long as the longest path
   through the candidates.
   */
  function TryTransitions(a: Automaton, cur: Word, s: StateId, cands: seq<Transition>, total: int,
                          minLength: nat, maxLength: nat, draws: Draws, pos: nat, best: Word,
                          keepCurrent: bool): (r: (Word, nat))
    requires WellFormed(a) && s < |a.states| && ValidTransitions(cands, |a.states|) && total == TotalWeight(cands)
    requires From(a, s, cands)
    requires |cur| <= maxLength && |cur| <= |best| <= maxLength + 1
    requires (best == cur && cands == a.states[s].transitions) || Walk(a, s, cur, best, maxLength)
    ensures Walk(a, s, cur, r.0, maxLength) && |r.0| <= maxLength + 1
    ensures minLength <= |r.0| <= maxLength || |r.0| >= |best|
    ensures Acyclic(a) && Forward(a, s, cands) && minLength <= maxLength ==>
              minLength <= |r.0| || |cur| + EdgeHeight(a, s, cands) <= |r.0|
    ensures keepCurrent && ((a.states[s].accept && minLength <= |cur|) ||
                            SomeReaches(a, cands, minLength - (|cur| + 1), maxLength - (|cur| + 1))) ==>
              minLength <= |r.0| <= maxLength
    decreases maxLength + 1 - |cur|, 0, |cands|, 1
  {
    if cands == [] then
      if keepCurrent && a.states[s].accept && minLength <= |cur| then
        assert cur[..|cur|] == cur && cur[|cur|..] == [];
        (cur, pos)
      else
        assert best == cur ==> best[|cur|..] == [];
        (best, pos)
    else
      var turn := Turn(cands, total, draws, pos);
      var t := cands[turn.0];
      var c := turn.1;
      var sub := PrepareRandom(a, cur + [c], t.dest, minLength, maxLength, draws, turn.2, keepCurrent);
      TurnStep(a, s, t, cur, c, sub.0, maxLength);
      AfterPick(a, cur, s, cands, total, minLength, maxLength, draws, turn.0, sub, best, keepCurrent)
  }

  /**
   The rest of one turn of the loop, once the walk through the picked
   candidate `cands[i]` has returned `sub`: the first result whose length lies
   in [minLength, maxLength] is returned at once; otherwise the candidate is
   removed and the loop goes on with the longer of `best` and `sub`.
   */
  function AfterPick(a: Automaton, cur: Word, s: StateId, cands: seq<Transition>, total: int,
                     minLength: nat, maxLength: nat, draws: Draws, i: nat, sub: (Word, nat), best: Word,
                     keepCurrent: bool): (r: (Word, nat))
    requires WellFormed(a) && s < |a.states| && ValidTransitions(cands, |a.states|) && total == TotalWeight(cands)
    requires From(a, s, cands) && i < |cands|
    requires |cur| <= maxLength && |cur| <= |best| <= maxLength + 1
    requires (best == cur && cands == a.states[s].transitions) || Walk(a, s, cur, best, maxLength)
    requires Walk(a, s, cur, sub.0, maxLength) && |cur| < |sub.0| <= maxLength + 1
    requires Acyclic(a) && minLength <= maxLength ==>
               minLength <= |sub.0| || |cur| + 1 + Height(a, cands[i].dest) <= |sub.0|
    requires keepCurrent && Reaches(a, cands[i].dest, minLength - (|cur| + 1), maxLength - (|cur| + 1)) ==>
               minLength <= |sub.0| <= maxLength
    ensures Walk(a, s, cur, r.0, maxLength) && |r.0| <= maxLength + 1
    ensures minLength <= |r.0| <= maxLength || |r.0| >= |best|
    ensures Acyclic(a) && Forward(a, s, cands) && minLength <= maxLength ==>
              minLength <= |r.0| || |cur| + EdgeHeight(a, s, cands) <= |r.0|
    ensures keepCurrent && ((a.states[s].accept && minLength <= |cur|) ||
                            SomeReaches(a, cands, minLength - (|cur| + 1), maxLength - (|cur| + 1))) ==>
              minLength <= |r.0| <= maxLength
    ensures minLength <= |sub.0| <= maxLength ==> r == sub
    decreases maxLength + 1 - |cur|, 0, |cands|, 0
  {
    if minLength <= |sub.0| <= maxLength then sub
    else
      RemoveCandidate(cands, i, |a.states|);
      var longest := Longer(best, sub.0);
      assert longest != cur;
      var r := TryTransitions(a, cur, s, Remove(cands, i), total - Width(cands[i]), minLength, maxLength, draws, sub.1,
                              longest, keepCurrent);
      LongestTurn(a, s, cands, i, |cur|, |sub.0|, |r.0|, minLength, maxLength);
      RemoveReaches(a, cands, i, minLength - (|cur| + 1), maxLength - (|cur| + 1));
      r
  }

  /**
   `random(minLength, maxLength)`: the sampled string cut to at most
   `maxLength` characters. `keepCurrent` selects the corrected fallback of
   `PrepareRandom`.
   */
  function Random(a: Automaton, minLength: nat, maxLength: nat, draws: Draws, pos: nat, keepCurrent: bool): (r: (Word, nat))
    requires WellFormed(a)
    ensures |r.0| <= maxLength
  {
    var sampled := PrepareRandom(a, [], a.initial, minLength, maxLength, draws, pos, keepCurrent);
    (sampled.0[..if maxLength < |sampled.0| then maxLength else |sampled.0|], sampled.1)
  }

  /**
   `random(minLength)`: the maximum length is `Integer.MAX_VALUE` for a finite
   language and 50 otherwise. Whether the language is finite is decided by the
   automaton library and is passed in. It uses the corrected fallback and the
   coin that does not wrap, so it returns a string where the source would
   throw or return a cut, rejected string.
   */
  function RandomMin(a: Automaton, minLength: nat, finite: bool, draws: Draws, pos: nat): (r: (Word, nat))
    requires WellFormed(a)
    ensures |r.0| <= if finite then IntMax else DefaultInfiniteMaxLength
  {
    Random(a, minLength, if finite then IntMax else DefaultInfiniteMaxLength, draws, pos, true)
  }

  /**
   `random(minLength)` and `random()` keep the `@return` promise of the
   corrected sampler: an accepted string within the length bound is found
   whenever one exists.
   */
  lemma RandomMinFinds(a: Automaton, minLength: nat, finite: bool, draws: Draws, pos: nat, w: Word)
    requires WellFormed(a) && Live(a) && Accepts(a, a.initial, w)
    requires minLength <= |w| <= if finite then IntMax else DefaultInfiniteMaxLength
    ensures minLength <= |RandomMin(a, minLength, finite, draws, pos).0|
    ensures Accepts(a, a.initial, RandomMin(a, minLength, finite, draws, pos).0)
    ensures minLength == 1 ==> Accepts(a, a.initial, RandomAny(a, finite, draws, pos).0)
  {
    RandomFindsInRange(a, minLength, if finite then IntMax else DefaultInfiniteMaxLength, draws, pos, w);
  }

  /** `random()`: a minimum length of 1. */
  function RandomAny(a: Automaton, finite: bool, draws: Draws, pos: nat): (r: (Word, nat))
    requires WellFormed(a)
    ensures |r.0| <= if finite then IntMax else DefaultInfiniteMaxLength
  {
    RandomMin(a, 1, finite, draws, pos)
  }

  // ---------------------------------------------------------------------------
  // What `random` returns
  // ---------------------------------------------------------------------------

  /** The output of `random(minLength, maxLength)` is a path through the automaton from its initial state. */
  lemma RandomIsRun(a: Automaton, minLength: nat, maxLength: nat, draws: Draws, pos: nat, keepCurrent: bool)
    requires WellFormed(a)
    ensures IsRun(a, a.initial, Random(a, minLength, maxLength, draws, pos, keepCurrent).0)
  {
    var none: Word := [];
    var sampled := PrepareRandom(a, none, a.initial, minLength, maxLength, draws, pos, keepCurrent).0;
    assert sampled[|none|..] == sampled;
    RunPrefix(a, a.initial, sampled, if maxLength < |sampled| then maxLength else |sampled|);
  }

  /**
   `random(minLength, maxLength)` returns the sampled string itself when it fits
   in `maxLength`, and then, when the automaton has no dead ends, the string is
   accepted. A sample one character
   too long is cut to exactly `maxLength` characters.
   */
  lemma RandomFits(a: Automaton, minLength: nat, maxLength: nat, draws: Draws, pos: nat, keepCurrent: bool)
    requires WellFormed(a)
    ensures var sampled := PrepareRandom(a, [], a.initial, minLength, maxLength, draws, pos, keepCurrent).0;
            var r := Random(a, minLength, maxLength, draws, pos, keepCurrent).0;
            && |sampled| <= maxLength + 1
            && (|sampled| <= maxLength ==> r == sampled)
            && (|sampled| > maxLength ==> |r| == maxLength && r == sampled[..maxLength])
            && (Live(a) && |sampled| <= maxLength ==> Accepts(a, a.initial, r))
  {
    var none: Word := [];
    var sampled := PrepareRandom(a, none, a.initial, minLength, maxLength, draws, pos, keepCurrent).0;
    assert sampled[..|sampled|] == sampled;
    assert sampled[|none|..] == sampled;
  }

  // ---------------------------------------------------------------------------
  // What the documentation of `random(minLength, maxLength)` promises
  // ---------------------------------------------------------------------------

  /** A state whose longest path is empty has no transitions. */
  lemma HeightZero(a: Automaton, s: StateId)
    requires WellFormed(a) && Acyclic(a) && s < |a.states|
    ensures Height(a, s) == 0 ==> a.states[s].transitions == []
  {
    var ts := a.states[s].transitions;
    if ts != [] {
      EdgeHeightAtLeast(a, s, ts, 0);
    }
  }

  /** Without dead ends, a path as long as the longest one ends in an accepting state. */
  lemma {:induction false} LongestRunAccepted(a: Automaton, s: StateId, w: Word)
    requires Finite(a) && s < |a.states| && IsRun(a, s, w) && |w| == Height(a, s)
    ensures Accepts(a, s, w)
    decreases |w|
  {
    var ts := a.states[s].transitions;
    if w == [] {
      HeightZero(a, s);
    } else {
      var i :| 0 <= i < |ts| && ts[i].min <= w[0] <= ts[i].max && IsRun(a, ts[i].dest, w[1..]);
      RunWithinHeight(a, ts[i].dest, w[1..]);
      EdgeHeightAtLeast(a, s, ts, i);
      LongestRunAccepted(a, ts[i].dest, w[1..]);
    }
  }

  /**
   When every path from `s` is too short to reach `minLength` from `cur`, the
   walk returns `cur` followed by a longest path from `s`, and that path is
   accepted.
   */
  lemma PrepareRandomLongest(a: Automaton, cur: Word, s: StateId, minLength: nat, maxLength: nat,
                             draws: Draws, pos: nat, keepCurrent: bool)
    requires Finite(a) && s < |a.states| && |cur| + Height(a, s) < minLength <= maxLength
    ensures var r := PrepareRandom(a, cur, s, minLength, maxLength, draws, pos, keepCurrent).0;
            |cur| <= |r| && r[..|cur|] == cur && |r| == |cur| + Height(a, s) && Accepts(a, s, r[|cur|..])
  {
    var r := PrepareRandom(a, cur, s, minLength, maxLength, draws, pos, keepCurrent).0;
    RunWithinHeight(a, s, r[|cur|..]);
    LongestRunAccepted(a, s, r[|cur|..]);
  }

  /**
   If no string the automaton accepts reaches `minLength`, `random` returns a
   longest one: it is accepted, and no path from the initial state is longer.
   */
  lemma RandomLongestWhenShort(a: Automaton, minLength: nat, maxLength: nat, draws: Draws, pos: nat, keepCurrent: bool)
    requires Finite(a) && minLength <= maxLength
    requires forall w :: IsRun(a, a.initial, w) ==> |w| < minLength
    ensures var r := Random(a, minLength, maxLength, draws, pos, keepCurrent).0;
            Accepts(a, a.initial, r) && forall w :: IsRun(a, a.initial, w) ==> |w| <= |r|
  {
    var longest := LongestRun(a, a.initial);
    AcceptsIsRun(a, a.initial, longest);
    var none: Word := [];
    PrepareRandomLongest(a, none, a.initial, minLength, maxLength, draws, pos, keepCurrent);
    var sampled := PrepareRandom(a, none, a.initial, minLength, maxLength, draws, pos, keepCurrent).0;
    assert sampled[|none|..] == sampled && sampled[..|sampled|] == sampled;
    forall w | IsRun(a, a.initial, w)
      ensures |w| <= |sampled|
    {
      RunWithinHeight(a, a.initial, w);
    }
  }

  /**
   If the automaton accepts no string of at most `maxLength` characters,
   `random` returns a path from the initial state of exactly `maxLength`
   characters: the walk runs one character over and is cut.
   */
  lemma RandomTrims(a: Automaton, minLength: nat, maxLength: nat, draws: Draws, pos: nat, keepCurrent: bool)
    requires WellFormed(a) && Live(a)
    requires forall w :: |w| <= maxLength ==> !Accepts(a, a.initial, w)
    ensures var r := Random(a, minLength, maxLength, draws, pos, keepCurrent).0;
            |r| == maxLength && IsRun(a, a.initial, r)
  {
    RandomIsRun(a, minLength, maxLength, draws, pos, keepCurrent);
    var none: Word := [];
    var sampled := PrepareRandom(a, none, a.initial, minLength, maxLength, draws, pos, keepCurrent).0;
    assert sampled[|none|..] == sampled;
  }

  /**
   The corrected sampler keeps the documented promise: when the automaton
   accepts some string whose length lies in [minLength, maxLength], `random`
   returns an accepted string whose length lies there too.
   */
  lemma RandomFindsInRange(a: Automaton, minLength: nat, maxLength: nat, draws: Draws, pos: nat, w: Word)
    requires WellFormed(a) && Live(a) && Accepts(a, a.initial, w) && minLength <= |w| <= maxLength
    ensures var r := Random(a, minLength, maxLength, draws, pos, true).0;
            minLength <= |r| <= maxLength && Accepts(a, a.initial, r)
  {
    var none: Word := [];
    assert Reaches(a, a.initial, minLength - |none|, maxLength - |none|);
    var sampled := PrepareRandom(a, none, a.initial, minLength, maxLength, draws, pos, true).0;
    assert sampled[|none|..] == sampled && sampled[..|sampled|] == sampled;
  }

  // ---------------------------------------------------------------------------
  // The code as written can miss a string in range: `a|aaa` with random(1, 2)
  // ---------------------------------------------------------------------------

  /** A minimal automaton for `a|aaa`: states 1 and 3 accept. */
  const AOrAaa: Automaton :=
    Automaton([State(false, [Transition(97, 97, 1)]), State(true, [Transition(97, 97, 2)]),
               State(false, [Transition(97, 97, 3)]), State(true, [])], 0)

  /** A generator whose every draw is 1: the coin never stops a walk below the maximum. */
  const DrawOne: Draws := (_: nat) => 1

  /** A single one-character candidate is picked with the first draw and spells its character with the second. */
  lemma TurnSingle(t: Transition, pos: nat)
    requires t.min == t.max
    ensures Turn([t], 1, DrawOne, pos) == (0, t.min, pos + 2)
  {
    assert DrawOne(pos) == 1 && DrawOne(pos + 1) == 1;
    assert NextInt(DrawOne, pos, 1) == 0;
    assert WeightedScan([t], 1) == Some(0);
    assert NextInt(DrawOne, pos + 1, Width(t)) == 0;
  }

  /** From state 2, after "aa", the walk runs over to "aaa". */
  lemma AOrAaaFromTwo(pos: nat, keepCurrent: bool)
    ensures PrepareRandom(AOrAaa, [97, 97], 2, 1, 2, DrawOne, pos, keepCurrent).0 == [97, 97, 97]
  {
    var a := AOrAaa;
    AOrAaaShape();
    var ts := a.states[2].transitions;
    TurnSingle(ts[0], pos);
    var sub := PrepareRandom(a, [97, 97] + [97], 3, 1, 2, DrawOne, pos + 2, keepCurrent);
    assert [97, 97] + [97] == [97, 97, 97];
    assert sub == ([97, 97, 97], pos + 2);
    assert Remove(ts, 0) == [];
    assert TryTransitions(a, [97, 97], 2, ts, 1, 1, 2, DrawOne, pos, [97, 97], keepCurrent).0 == [97, 97, 97];
  }

  /** At state 1, after "a", the coin says go on, and the code as written falls back on "aaa". */
  lemma AOrAaaFromOne(pos: nat, keepCurrent: bool)
    ensures PrepareRandom(AOrAaa, [97], 1, 1, 2, DrawOne, pos, keepCurrent).0 == if keepCurrent then [97] else [97, 97, 97]
  {
    var a := AOrAaa;
    AOrAaaShape();
    var ts := a.states[1].transitions;
    assert DrawOne(pos) == 1 && NextInt(DrawOne, pos, 2) == 1;
    assert ShouldTerminate(1, 1, 2, DrawOne, pos) == (false, pos + 1);
    assert TotalWeight(ts) == 1;
    assert PrepareRandom(a, [97], 1, 1, 2, DrawOne, pos, keepCurrent)
        == TryTransitions(a, [97], 1, ts, 1, 1, 2, DrawOne, pos + 1, [97], keepCurrent);
    TurnSingle(ts[0], pos + 1);
    assert [97] + [97] == [97, 97];
    AOrAaaFromTwo(pos + 3, keepCurrent);
    var sub := PrepareRandom(a, [97, 97], 2, 1, 2, DrawOne, pos + 3, keepCurrent);
    assert TryTransitions(a, [97], 1, ts, 1, 1, 2, DrawOne, pos + 1, [97], keepCurrent)
        == AfterPick(a, [97], 1, ts, 1, 1, 2, DrawOne, 0, sub, [97], keepCurrent);
    assert Remove(ts, 0) == [] && Longer([97], sub.0) == [97, 97, 97];
    assert AfterPick(a, [97], 1, ts, 1, 1, 2, DrawOne, 0, sub, [97], keepCurrent)
        == TryTransitions(a, [97], 1, [], 0, 1, 2, DrawOne, sub.1, [97, 97, 97], keepCurrent);
  }

  /**
   `random(1, 2)` on `a|aaa`, with every draw 1: the code as written returns
   "aa", which the automaton rejects, although "a" is accepted and in range;
   the corrected sampler returns "a".
   */
  lemma RandomMissesShortWord()
    ensures Finite(AOrAaa) && Accepts(AOrAaa, 0, [97]) && !Accepts(AOrAaa, 0, [97, 97])
    ensures Random(AOrAaa, 1, 2, DrawOne, 0, false).0 == [97, 97]
    ensures Random(AOrAaa, 1, 2, DrawOne, 0, true).0 == [97]
  {
    AOrAaaShape();
    RandomOnAOrAaa(false);
    RandomOnAOrAaa(true);
  }

  /** `Random` on `AOrAaa`, as written, trims the walk "aaa" to "aa". */
  lemma RandomOnAOrAaa(keepCurrent: bool)
    ensures Random(AOrAaa, 1, 2, DrawOne, 0, keepCurrent).0 == if keepCurrent then [97] else [97, 97]
  {
    AOrAaaShape();
    var sampled := PrepareRandom(AOrAaa, [], AOrAaa.initial, 1, 2, DrawOne, 0, keepCurrent);
    AOrAaaSample(keepCurrent);
    Truncate(sampled.0, 2);
    TrimAaa();
  }

  lemma TrimAaa()
    ensures [97, 97, 97][..2] == [97, 97]
  {
  }

  /** The trimming step of `Random`. */
  lemma Truncate(w: Word, maxLength: nat)
    ensures w[..if maxLength < |w| then maxLength else |w|] == if maxLength < |w| then w[..maxLength] else w
  {
  }

  /** `AOrAaa` is well formed, finite, accepts "a" and rejects "aa". */
  lemma AOrAaaShape()
    ensures WellFormed(AOrAaa) && Finite(AOrAaa)
    ensures Accepts(AOrAaa, 0, [97]) && !Accepts(AOrAaa, 0, [97, 97])
  {
    var a := AOrAaa;
    forall s | 0 <= s < |a.states|
      ensures ValidTransitions(a.states[s].transitions, |a.states|)
    {
    }
    assert [97][1..] == [] && [97, 97][1..] == [97];
    assert Accepts(a, 1, []);
    assert a.states[0].transitions[0].min <= 97 <= a.states[0].transitions[0].max;
    assert !Accepts(a, 2, []) && !Accepts(a, 1, [97]);
  }

  /** The whole walk from the initial state of `AOrAaa`. */
  lemma AOrAaaSample(keepCurrent: bool)
    ensures PrepareRandom(AOrAaa, [], 0, 1, 2, DrawOne, 0, keepCurrent).0 == if keepCurrent then [97] else [97, 97, 97]
  {
    var a := AOrAaa;
    AOrAaaShape();
    var ts := a.states[0].transitions;
    var none: Word := [];
    assert TotalWeight(ts) == 1;
    assert PrepareRandom(a, none, 0, 1, 2, DrawOne, 0, keepCurrent)
        == TryTransitions(a, none, 0, ts, 1, 1, 2, DrawOne, 0, none, keepCurrent);
    TurnSingle(ts[0], 0);
    assert none + [97] == [97];
    AOrAaaFromOne(2, keepCurrent);
    var sub := PrepareRandom(a, [97], 1, 1, 2, DrawOne, 2, keepCurrent);
    assert TryTransitions(a, none, 0, ts, 1, 1, 2, DrawOne, 0, none, keepCurrent)
        == AfterPick(a, none, 0, ts, 1, 1, 2, DrawOne, 0, sub, none, keepCurrent);
    if !keepCurrent {
      assert Remove(ts, 0) == [] && Longer(none, sub.0) == [97, 97, 97];
      assert AfterPick(a, none, 0, ts, 1, 1, 2, DrawOne, 0, sub, none, keepCurrent)
          == TryTransitions(a, none, 0, [], 0, 1, 2, DrawOne, sub.1, [97, 97, 97], keepCurrent);
    }
  }
}
