/**
 Ordered lists of words and the one shape every Generex traversal produces:
 for each character of a range in ascending order, the same list of
 continuations prefixed with that character.
 */
module WordLists {
  import opened Automata

  /** Prefixes every word of `ws` with the character `c`. */
  function Prefix(c: Code, ws: seq<Word>): (r: seq<Word>)
    ensures |r| == |ws|
    ensures forall i :: 0 <= i < |ws| ==> r[i] == [c] + ws[i]
  {
    if ws == [] then [] else [[c] + ws[0]] + Prefix(c, ws[1..])
  }

  /** Prepends the word `p` to every word of `ws`. */
  function PrependAll(p: Word, ws: seq<Word>): (r: seq<Word>)
    ensures |r| == |ws|
    ensures forall i :: 0 <= i < |ws| ==> r[i] == p + ws[i]
  {
    if ws == [] then [] else [p + ws[0]] + PrependAll(p, ws[1..])
  }

  /** Appends the character `c` to every word of `ws`. */
  function AppendAll(ws: seq<Word>, c: Code): (r: seq<Word>)
    ensures |r| == |ws|
    ensures forall i :: 0 <= i < |ws| ==> r[i] == ws[i] + [c]
  {
    if ws == [] then [] else [ws[0] + [c]] + AppendAll(ws[1..], c)
  }

  /**
   The words `[x] + t` for every character `x` of [c, hi] in ascending order
   and, within one character, every `t` of `tails` in order.
   */
  function CharBlocks(c: int, hi: Code, tails: seq<Word>): seq<Word>
    requires 0 <= c
    decreases hi + 1 - c
  {
    if c > hi then [] else Prefix(c, tails) + CharBlocks(c + 1, hi, tails)
  }

  /** Strictly ascending in `Less`, hence free of duplicates. */
  ghost predicate Sorted(ws: seq<Word>) {
    forall i, j :: 0 <= i < j < |ws| ==> Less(ws[i], ws[j])
  }

  predicate IsPrefix<T(==)>(p: seq<T>, s: seq<T>) {
    |p| <= |s| && s[..|p|] == p
  }

  lemma {:induction false} CharBlocksLength(c: int, hi: Code, tails: seq<Word>)
    requires 0 <= c
    ensures |CharBlocks(c, hi, tails)| == if c > hi then 0 else (hi - c + 1) * |tails|
    decreases hi + 1 - c
  {
    if c <= hi {
      CharBlocksLength(c + 1, hi, tails);
      assert (hi - c + 1) * |tails| == |tails| + (hi - c) * |tails| by {
        MulSuccessor(hi - c, |tails|);
      }
    }
  }

  lemma MulSuccessor(x: nat, y: nat)
    ensures (x + 1) * y == y + x * y
  {
  }

  /** The number of words in `j` blocks of `n` words each. */
  function Offset(j: nat, n: nat): nat {
    if j == 0 then 0 else n + Offset(j - 1, n)
  }

  lemma {:induction false} OffsetIsProduct(j: nat, n: nat)
    ensures Offset(j, n) == j * n
  {
    if j > 0 {
      OffsetIsProduct(j - 1, n);
      MulSuccessor(j - 1, n);
    }
  }

  /** The word for character `x` and continuation `tails[m]` follows the `x - c` whole blocks before it. */
  lemma {:induction false} CharBlocksIndex(c: int, hi: Code, tails: seq<Word>, x: Code, m: nat)
    requires 0 <= c <= x <= hi && m < |tails|
    ensures Offset(x - c, |tails|) + m < |CharBlocks(c, hi, tails)|
    ensures CharBlocks(c, hi, tails)[Offset(x - c, |tails|) + m] == [x] + tails[m]
    decreases x - c
  {
    if c < x {
      CharBlocksIndex(c + 1, hi, tails, x, m);
      BlockAfter(c, hi, tails, x, m);
    } else {
      BlockHere(c, hi, tails, x, m);
    }
  }

  /** The word at a position of the blocks after `c` sits one block further in the blocks from `c`. */
  lemma BlockAfter(c: int, hi: Code, tails: seq<Word>, x: Code, m: nat)
    requires 0 <= c < x <= hi && m < |tails|
    requires Offset(x - (c + 1), |tails|) + m < |CharBlocks(c + 1, hi, tails)|
    requires CharBlocks(c + 1, hi, tails)[Offset(x - (c + 1), |tails|) + m] == [x] + tails[m]
    ensures Offset(x - c, |tails|) + m < |CharBlocks(c, hi, tails)|
    ensures CharBlocks(c, hi, tails)[Offset(x - c, |tails|) + m] == [x] + tails[m]
  {
    CharBlocksStep(c, hi, tails);
    OffsetStep(x - c, x - (c + 1), |tails|);
    IndexAfter(CharBlocks(c, hi, tails), Prefix(c, tails), CharBlocks(c + 1, hi, tails),
      Offset(x - c, |tails|) + m, Offset(x - (c + 1), |tails|) + m, [x] + tails[m]);
  }

  /** The first block holds the words of character `c`. */
  lemma BlockHere(c: int, hi: Code, tails: seq<Word>, x: Code, m: nat)
    requires 0 <= c == x <= hi && m < |tails|
    ensures Offset(x - c, |tails|) + m < |CharBlocks(c, hi, tails)|
    ensures CharBlocks(c, hi, tails)[Offset(x - c, |tails|) + m] == [x] + tails[m]
  {
    assert Offset(x - c, |tails|) == 0;
    CharBlocksStep(c, hi, tails);
    IndexBefore(CharBlocks(c, hi, tails), Prefix(c, tails), CharBlocks(c + 1, hi, tails), m, [c] + tails[m]);
  }

  lemma CharBlocksStep(c: int, hi: Code, tails: seq<Word>)
    requires 0 <= c <= hi
    ensures CharBlocks(c, hi, tails) == Prefix(c, tails) + CharBlocks(c + 1, hi, tails)
  {
  }

  lemma OffsetStep(j: nat, i: nat, n: nat)
    requires j == i + 1
    ensures Offset(j, n) == n + Offset(i, n)
  {
  }

  /** Position `k` of the second part is position `o` of the whole, `o` being `k` past the first part. */
  lemma IndexAfter<T>(whole: seq<T>, p: seq<T>, q: seq<T>, i: nat, k: nat, w: T)
    requires whole == p + q && i == |p| + k && k < |q| && q[k] == w
    ensures i < |whole| && whole[i] == w
  {
  }

  lemma IndexBefore<T>(whole: seq<T>, p: seq<T>, q: seq<T>, k: nat, w: T)
    requires whole == p + q && k < |p| && p[k] == w
    ensures k < |whole| && whole[k] == w
  {
  }

  lemma PrefixMember(c: Code, tails: seq<Word>, w: Word)
    ensures w in Prefix(c, tails) <==> |w| > 0 && w[0] == c && w[1..] in tails
  {
    var p := Prefix(c, tails);
    if w in p {
      var i :| 0 <= i < |p| && p[i] == w;
      assert w[1..] == tails[i];
    }
    if |w| > 0 && w[0] == c && w[1..] in tails {
      var m :| 0 <= m < |tails| && tails[m] == w[1..];
      assert p[m] == w;
    }
  }

  lemma {:induction false} CharBlocksMember(c: int, hi: Code, tails: seq<Word>, w: Word)
    requires 0 <= c
    ensures w in CharBlocks(c, hi, tails) <==> |w| > 0 && c <= w[0] <= hi && w[1..] in tails
    decreases hi + 1 - c
  {
    if c <= hi {
      var first := Prefix(c, tails);
      var rest := CharBlocks(c + 1, hi, tails);
      assert CharBlocks(c, hi, tails) == first + rest;
      assert w in rest <==> |w| > 0 && c + 1 <= w[0] <= hi && w[1..] in tails by {
        CharBlocksMember(c + 1, hi, tails, w);
      }
      assert w in first <==> |w| > 0 && w[0] == c && w[1..] in tails by {
        PrefixMember(c, tails, w);
      }
    }
  }

  lemma {:induction false} CharBlocksAppend(c: int, hi: Code, tails: seq<Word>, x: Code)
    requires 0 <= c
    ensures CharBlocks(c, hi, AppendAll(tails, x)) == AppendAll(CharBlocks(c, hi, tails), x)
    decreases hi + 1 - c
  {
    if c <= hi {
      CharBlocksAppend(c + 1, hi, tails, x);
      AppendAllConcat(Prefix(c, tails), CharBlocks(c + 1, hi, tails), x);
      PrefixAppendAll(c, tails, x);
    }
  }

  lemma PrefixAppendAll(c: Code, tails: seq<Word>, x: Code)
    ensures Prefix(c, AppendAll(tails, x)) == AppendAll(Prefix(c, tails), x)
  {
    var l := Prefix(c, AppendAll(tails, x));
    var r := AppendAll(Prefix(c, tails), x);
    forall i | 0 <= i < |tails|
      ensures l[i] == r[i]
    {
      assert [c] + (tails[i] + [x]) == ([c] + tails[i]) + [x];
    }
  }

  lemma PrependAllPrefix(p: Word, c: Code, tails: seq<Word>)
    ensures PrependAll(p, Prefix(c, tails)) == PrependAll(p + [c], tails)
  {
    var l := PrependAll(p, Prefix(c, tails));
    var r := PrependAll(p + [c], tails);
    forall i | 0 <= i < |tails|
      ensures l[i] == r[i]
    {
      assert p + ([c] + tails[i]) == (p + [c]) + tails[i];
    }
  }

  lemma AppendAllConcat(u: seq<Word>, v: seq<Word>, x: Code)
    ensures AppendAll(u + v, x) == AppendAll(u, x) + AppendAll(v, x)
  {
  }

  lemma PrependAllConcat(p: Word, u: seq<Word>, v: seq<Word>)
    ensures PrependAll(p, u + v) == PrependAll(p, u) + PrependAll(p, v)
  {
  }

  lemma {:induction false} PrependAllCharBlocks(p: Word, c: int, hi: Code, tails: seq<Word>)
    requires 0 <= c
    ensures PrependAll(p, CharBlocks(c, hi, tails)) ==
            (if c > hi then [] else PrependAll(p + [c], tails) + PrependAll(p, CharBlocks(c + 1, hi, tails)))
  {
    if c <= hi {
      PrependAllConcat(p, Prefix(c, tails), CharBlocks(c + 1, hi, tails));
      PrependAllPrefix(p, c, tails);
    }
  }

  /** Two sorted lists whose every word of the first precedes every word of the second. */
  lemma SortedConcat(u: seq<Word>, v: seq<Word>)
    requires Sorted(u) && Sorted(v)
    requires forall i, j :: 0 <= i < |u| && 0 <= j < |v| ==> Less(u[i], v[j])
    ensures Sorted(u + v)
  {
    var w := u + v;
    forall i, j | 0 <= i < j < |w|
      ensures Less(w[i], w[j])
    {
      if j < |u| {
        assert Less(u[i], u[j]);
      } else if i >= |u| {
        assert Less(v[i - |u|], v[j - |u|]);
      } else {
        assert Less(u[i], v[j - |u|]);
      }
    }
  }

  /** Words whose first characters ascend are in `Less` order. */
  lemma FirstCharLess(u: Word, v: Word)
    requires |u| > 0 && |v| > 0 && u[0] < v[0]
    ensures Less(u, v)
  {
  }

  lemma PrefixSorted(c: Code, ws: seq<Word>)
    requires Sorted(ws)
    ensures Sorted(Prefix(c, ws))
  {
    var r := Prefix(c, ws);
    forall i, j | 0 <= i < j < |r|
      ensures Less(r[i], r[j])
    {
      assert Less(ws[i], ws[j]);
      assert r[i][1..] == ws[i] && r[j][1..] == ws[j];
    }
  }

  /**
   A character block of a sorted list is sorted, and all its words start with
   a character of the block's range.
   */
  lemma {:induction false} CharBlocksSorted(c: int, hi: Code, tails: seq<Word>)
    requires 0 <= c && Sorted(tails)
    ensures Sorted(CharBlocks(c, hi, tails))
    ensures forall i :: 0 <= i < |CharBlocks(c, hi, tails)| ==>
              |CharBlocks(c, hi, tails)[i]| > 0 && c <= CharBlocks(c, hi, tails)[i][0] <= hi
    decreases hi + 1 - c
  {
    if c <= hi {
      CharBlocksSorted(c + 1, hi, tails);
      var u := Prefix(c, tails);
      var v := CharBlocks(c + 1, hi, tails);
      PrefixSorted(c, tails);
      forall i, j | 0 <= i < |u| && 0 <= j < |v|
        ensures Less(u[i], v[j])
      {
        FirstCharLess(u[i], v[j]);
      }
      SortedConcat(u, v);
    }
  }

  lemma SortedDistinct(ws: seq<Word>, i: nat, j: nat)
    requires Sorted(ws) && i < |ws| && j < |ws| && i != j
    ensures ws[i] != ws[j]
  {
    if i < j {
      assert Less(ws[i], ws[j]);
      if ws[i] == ws[j] { LessIrreflexive(ws[i]); }
    } else {
      assert Less(ws[j], ws[i]);
      if ws[i] == ws[j] { LessIrreflexive(ws[i]); }
    }
  }

  /** The words of `ws` as a set. */
  ghost function Words(ws: seq<Word>): set<Word> {
    set w | w in ws
  }

  /** A list without repeated words has as many words as its set. */
  lemma {:induction false} DistinctCardinality(ws: seq<Word>)
    requires forall i, j :: 0 <= i < j < |ws| ==> ws[i] != ws[j]
    ensures |Words(ws)| == |ws|
  {
    if ws != [] {
      var rest := ws[1..];
      assert forall i, j :: 0 <= i < j < |rest| ==> rest[i] != rest[j] by {
        forall i, j | 0 <= i < j < |rest|
          ensures rest[i] != rest[j]
        {
          assert rest[i] == ws[i + 1] && rest[j] == ws[j + 1];
        }
      }
      DistinctCardinality(rest);
      assert Words(ws) == Words(rest) + {ws[0]};
      forall k | 0 <= k < |rest|
        ensures rest[k] != ws[0]
      {
        assert rest[k] == ws[k + 1];
      }
      assert ws[0] !in Words(rest);
    }
  }
}
