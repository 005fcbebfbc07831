/**
 The character loop of `generate`, `for (char c = min; c <= max; ++c)`, with
 the 16-bit arithmetic of Java's `char` written out. Because `++c` wraps from
 0xFFFF to 0, the test `c <= max` can never fail when `max` is 0xFFFF, so a
 transition that reaches the top of the character range (as `.` or `[^a]` do)
 is looped over forever. `CharRange` is the loop over [min, max] the code
 evidently intends; the enumeration walks exactly those characters
 (`Enumeration.GenRangeWalksCharRange`).
 */
module CharLoops {
  import opened Automata

  /** `++c` on a Java `char`. */
  function Succ(c: Code): (r: Code)
    ensures c < 0xFFFF ==> r == c + 1
    ensures c == 0xFFFF ==> r == 0
  {
    (c + 1) % 0x10000
  }

  /**
   The loop as written, run for at most `fuel` iterations: the characters
   visited, and whether the test `c <= max` failed within those iterations.
   */
  function CharLoop(c: Code, max: Code, fuel: nat): (r: (seq<Code>, bool))
    ensures |r.0| <= fuel
    ensures !r.1 ==> |r.0| == fuel
    decreases fuel
  {
    if c > max then ([], true)
    else if fuel == 0 then ([], false)
    else
      var rest := CharLoop(Succ(c), max, fuel - 1);
      ([c] + rest.0, rest.1)
  }

  /** The characters lo, lo + 1, ..., hi in ascending order: the range the loop means to visit. */
  function CharRange(lo: int, hi: Code): (r: seq<Code>)
    requires 0 <= lo
    ensures |r| == if lo <= hi then hi - lo + 1 else 0
    ensures forall i :: 0 <= i < |r| ==> r[i] == lo + i
    decreases hi + 1 - lo
  {
    if lo > hi then [] else [lo] + CharRange(lo + 1, hi)
  }

  /** With `max` at the top of the range the loop never exits, however long it runs. */
  lemma {:induction false} CharLoopNeverExits(c: Code, fuel: nat)
    ensures !CharLoop(c, 0xFFFF, fuel).1
    decreases fuel
  {
    if fuel > 0 {
      CharLoopNeverExits(Succ(c), fuel - 1);
    }
  }

  /** The smallest witness: from 0xFFFF the loop visits 0xFFFF and then 0 again. */
  lemma CharLoopWraps()
    ensures CharLoop(0xFFFF, 0xFFFF, 2) == ([0xFFFF, 0], false)
  {
    var last := CharLoop(1, 0xFFFF, 0);
    assert last == ([], false);
    var second := CharLoop(Succ(0xFFFF), 0xFFFF, 1);
    assert Succ(0) == 1 && Succ(0xFFFF) == 0;
    assert second == ([0] + last.0, last.1);
    assert [0xFFFF] + ([0] + last.0) == [0xFFFF, 0];
  }

  /**
   Below the top of the range the loop as written is the intended one: given
   enough iterations it visits exactly [c, max] and exits.
   */
  lemma {:induction false} CharLoopAgrees(c: Code, max: Code, fuel: nat)
    requires max < 0xFFFF && max + 1 - c <= fuel
    ensures CharLoop(c, max, fuel) == (CharRange(c, max), true)
    decreases fuel
  {
    if c <= max {
      CharLoopAgrees(c + 1, max, fuel - 1);
    }
  }
}
