/**
 `requote`: the rewrite a pattern goes through before it is parsed. A quoted
 section `\Q…\E` is replaced by its text with every meta-character escaped by a
 backslash, so the automaton library, which has no `\Q…\E` syntax, reads the
 text literally. The Java code finds the sections with the regular expression
 `(?<!\\)(?:\\{2})*+\\Q(.*?)\\E` (dot matching newlines); the functions below
 spell out what that expression matches, position by position:
 - a section may start only at a backslash that does not follow a backslash;
 - the maximal run of backslashes starting there must have odd length and be
   followed by `Q`, because the even part of the run is a sequence of escaped
   backslashes that the rewrite keeps;
 - the section ends at the first `\E` after the `Q` (the group is lazy), and a
   `\Q` with no `\E` after it opens nothing.
 */
module Requote {
  import opened Optional

  const Backslash: char := '\\'

  /** The characters `requote` escapes inside a quoted section. */
  predicate IsSpecial(c: char) {
    || c == '.' || c == '^' || c == '$' || c == '*' || c == '+' || c == '?' || c == '('
    || c == ')' || c == '{' || c == '|' || c == '[' || c == Backslash || c == '@'
  }

  /** `w` is safe to read literally: each special character is the second of a backslash pair. */
  predicate Quoted(w: string) {
    if w == [] then true
    else if w[0] == Backslash then |w| >= 2 && Quoted(w[2..])
    else !IsSpecial(w[0]) && Quoted(w[1..])
  }

  /** Reading an escaped string back: a backslash stands for the character after it. */
  function Unescape(w: string): string {
    if w == [] then []
    else if w[0] == Backslash && |w| >= 2 then [w[1]] + Unescape(w[2..])
    else [w[0]] + Unescape(w[1..])
  }

  /**
   The replacement applied to a section's text: each special character gets a
   backslash in front of it, everything else is copied.
   */
  function Escape(w: string): (r: string)
    ensures |w| <= |r| <= 2 * |w|
  {
    if w == [] then []
    else (if IsSpecial(w[0]) then [Backslash, w[0]] else [w[0]]) + Escape(w[1..])
  }

  /** The escaped text contains no unescaped special character and reads back as the original text. */
  lemma {:induction false} EscapeRoundTrip(w: string)
    ensures Quoted(Escape(w))
    ensures Unescape(Escape(w)) == w
  {
    if w != [] {
      var rest := Escape(w[1..]);
      EscapeRoundTrip(w[1..]);
      if IsSpecial(w[0]) {
        assert ([Backslash, w[0]] + rest)[2..] == rest;
      } else {
        assert ([w[0]] + rest)[1..] == rest;
      }
    }
  }

  /** Escaping works character by character, so it distributes over concatenation. */
  lemma {:induction false} EscapeConcat(u: string, v: string)
    ensures Escape(u + v) == Escape(u) + Escape(v)
  {
    if u != [] {
      assert (u + v)[0] == u[0] && (u + v)[1..] == u[1..] + v;
      EscapeConcat(u[1..], v);
    } else {
      assert u + v == v;
    }
  }

  /** Text without special characters is left as it is. */
  lemma {:induction false} EscapePlain(w: string)
    requires forall k :: 0 <= k < |w| ==> !IsSpecial(w[k])
    ensures Escape(w) == w
  {
    if w != [] {
      assert !IsSpecial(w[0]);
      EscapePlain(w[1..]);
    }
  }

  // ---------------------------------------------------------------------------
  // Finding the sections
  // ---------------------------------------------------------------------------

  /** The length of the run of backslashes that starts at `i`. */
  function RunFrom(s: string, i: nat): (r: nat)
    requires i <= |s|
    ensures i + r <= |s|
    ensures forall k :: i <= k < i + r ==> s[k] == Backslash
    ensures i + r == |s| || s[i + r] != Backslash
    decreases |s| - i
  {
    if i < |s| && s[i] == Backslash then 1 + RunFrom(s, i + 1) else 0
  }

  /**
   A section can open at `i`: `i` starts a maximal run of backslashes of odd
   length, and a `Q` follows the run.
   */
  predicate OpensAt(s: string, i: nat)
    requires i <= |s|
  {
    && (i == 0 || s[i - 1] != Backslash)
    && RunFrom(s, i) % 2 == 1
    && i + RunFrom(s, i) < |s|
    && s[i + RunFrom(s, i)] == 'Q'
  }

  /** A `\E` starts at `k`. */
  predicate ClosesAt(s: string, k: nat) {
    k + 1 < |s| && s[k] == Backslash && s[k + 1] == 'E'
  }

  /** The first `\E` at or after `j`, if any. */
  function FindEnd(s: string, j: nat): (r: Option<nat>)
    requires j <= |s|
    ensures r.Some? ==> j <= r.value && ClosesAt(s, r.value)
    ensures r.Some? ==> forall k :: j <= k < r.value ==> !ClosesAt(s, k)
    ensures r.None? ==> forall k :: j <= k < |s| ==> !ClosesAt(s, k)
    decreases |s| - j
  {
    if j == |s| then None
    else if ClosesAt(s, j) then Some(j)
    else FindEnd(s, j + 1)
  }

  /**
   A match of the section pattern: it starts at `start` (the run of
   backslashes), the section's text is `s[body..close]`, and the `\E` sits at
   `close`. The two characters before `body` are the `\Q`.
   */
  datatype Section = Section(start: nat, body: nat, close: nat)

  /** The outcome of a match attempt: no section, or the section found. */
  datatype Hit = Miss | Hit(sec: Section)

  /** The match attempt at position `i`. */
  function MatchAt(s: string, i: nat): (r: Hit)
    requires i <= |s|
    ensures r.Hit? ==> r.sec.start == i && i + 2 <= r.sec.body <= r.sec.close && r.sec.close + 2 <= |s|
    ensures r.Hit? ==> s[r.sec.body - 2] == Backslash && s[r.sec.body - 1] == 'Q' && ClosesAt(s, r.sec.close)
  {
    if OpensAt(s, i) then
      var body := i + RunFrom(s, i) + 1;
      var close := FindEnd(s, body);
      if close.Some? then Hit(Section(i, body, close.value)) else Miss
    else Miss
  }

  /** `Matcher.find` from position `from`: the leftmost match starting at or after it. */
  function FindSection(s: string, from: nat): (r: Hit)
    requires from <= |s|
    ensures r.Hit? ==> from <= r.sec.start <= |s| && MatchAt(s, r.sec.start) == r
    ensures r.Hit? ==> forall i :: from <= i < r.sec.start ==> MatchAt(s, i).Miss?
    ensures r.Miss? ==> forall i :: from <= i <= |s| ==> MatchAt(s, i).Miss?
    decreases |s| - from
  {
    if MatchAt(s, from).Hit? then MatchAt(s, from)
    else if from == |s| then Miss
    else FindSection(s, from + 1)
  }

  // ---------------------------------------------------------------------------
  // The rewrite
  // ---------------------------------------------------------------------------

  /**
   `requote(regex)`. The Java loop keeps an `index` into the whole string and
   resumes `Matcher.find` at the end of the previous section; here the rewrite
   recurses on the text after the section instead. The two agree because the
   character before that text is the `E` of `\E`, which the look-behind treats
   like the start of the string.
   */
  function Requote(s: string): (r: string)
    ensures |r| <= 2 * |s|
    decreases |s|
  {
    match FindSection(s, 0)
    case Miss => s
    case Hit(sec) => Cut(s, sec, Requote(s[sec.close + 2..]))
  }

  /**
   The rewrite around one section, given the rewritten text after its `\E`:
   the text before its `\Q` is kept and its text is escaped.
   */
  function Cut(s: string, sec: Section, rest: string): string
    requires 2 <= sec.body <= sec.close && sec.close + 2 <= |s|
  {
    s[..sec.body - 2] + Escape(s[sec.body..sec.close]) + rest
  }

  // ---------------------------------------------------------------------------
  // What the rewrite does
  // ---------------------------------------------------------------------------

  /** A string without `\E` is left unchanged: an unterminated `\Q` opens nothing. */
  lemma RequoteUnterminated(s: string)
    requires forall k :: 0 <= k < |s| ==> !ClosesAt(s, k)
    ensures Requote(s) == s
  {
    forall i | 0 <= i <= |s|
      ensures MatchAt(s, i).Miss?
    {
      if OpensAt(s, i) {
        var e := FindEnd(s, i + RunFrom(s, i) + 1);
        assert e.None?;
      }
    }
  }

  /** A string where no position opens a section is left unchanged. */
  lemma RequoteNoOpening(s: string)
    requires forall i :: 0 <= i <= |s| ==> !OpensAt(s, i)
    ensures Requote(s) == s
  {
    assert forall i :: 0 <= i <= |s| ==> MatchAt(s, i).Miss?;
  }

  /** A string without `\Q` is left unchanged. */
  lemma RequoteWithoutQuote(s: string)
    requires forall k :: 0 <= k < |s| - 1 ==> !(s[k] == Backslash && s[k + 1] == 'Q')
    ensures Requote(s) == s
  {
    forall i | 0 <= i <= |s|
      ensures !OpensAt(s, i)
    {
      if i + RunFrom(s, i) < |s| && RunFrom(s, i) % 2 == 1 {
        assert s[i + RunFrom(s, i) - 1] == Backslash;
      }
    }
  }

  // ---------------------------------------------------------------------------
  // One section
  // ---------------------------------------------------------------------------

  /** `x` does not end with a backslash, so nothing after it can be escaped by it. */
  predicate Boundary(x: string) {
    x == [] || x[|x| - 1] != Backslash
  }

  /** The leftmost match is the one `FindSection` returns. */
  lemma FindSectionLeftmost(s: string, from: nat, sec: Section)
    requires from <= sec.start <= |s| && MatchAt(s, sec.start) == Hit(sec)
    requires forall i :: from <= i < sec.start ==> MatchAt(s, i).Miss?
    ensures FindSection(s, from) == Hit(sec)
  {
  }

  /** `p` holds no `\Q` and does not end with a backslash, so no section opens inside it or at its end. */
  predicate PlainPrefix(p: string) {
    Boundary(p) && forall k :: 0 <= k < |p| - 1 ==> !(p[k] == Backslash && p[k + 1] == 'Q')
  }

  /** `w` holds no `\E`, so a section holding `w` ends at the `\E` written after it. */
  predicate NoClose(w: string) {
    forall k :: 0 <= k < |w| ==> !ClosesAt(w, k)
  }

  lemma PlainPrefixOpensNothing(p: string, s: string, i: nat)
    requires PlainPrefix(p) && |p| <= |s| && s[..|p|] == p && i < |p|
    ensures !OpensAt(s, i)
  {
    var run := RunFrom(s, i);
    assert s[|p| - 1] == p[|p| - 1];
    assert i + run <= |p| - 1;
    if run > 0 {
      assert p[i + run - 1] == s[i + run - 1] && p[i + run] == s[i + run];
    }
  }

  /** `n` backslashes. */
  function Backslashes(n: nat): (r: string)
    ensures |r| == n
    ensures forall k :: 0 <= k < n ==> r[k] == Backslash
  {
    if n == 0 then [] else [Backslash] + Backslashes(n - 1)
  }

  /** A run of `n` backslashes at `i`, followed by something else, is the run `RunFrom` measures. */
  lemma RunFromKnown(s: string, i: nat, n: nat)
    requires i + n < |s| && s[i + n] != Backslash
    requires forall k :: i <= k < i + n ==> s[k] == Backslash
    ensures RunFrom(s, i) == n
  {
  }

  /** The pieces of a string holding one section, with `b` the backslashes before its `\Q`. */
  lemma SectionPieces(p: string, b: string, w: string, q: string)
    ensures var s := p + b + "\\Q" + w + "\\E" + q;
      var body := |p| + |b| + 2;
      && |s| == body + |w| + 2 + |q|
      && s[..|p|] == p && s[..body - 2] == p + b
      && (forall k :: 0 <= k < |b| ==> s[|p| + k] == b[k])
      && s[body - 2] == Backslash && s[body - 1] == 'Q'
      && (forall k :: 0 <= k < |w| ==> s[body + k] == w[k])
      && s[body..body + |w|] == w
      && s[body + |w|] == Backslash && s[body + |w| + 1] == 'E'
      && s[body + |w| + 2..] == q
  {
    var s := p + b + "\\Q" + w + "\\E" + q;
    assert s == (p + b) + ("\\Q" + (w + ("\\E" + q)));
  }

  /**
   At `start`, after a character other than a backslash, an even run of
   backslashes ends in `\Q`: a section opens there, with its text from `body`.
   */
  lemma OpensAfterPairs(s: string, start: nat, body: nat)
    requires start + 2 <= body < |s| && (body - start) % 2 == 0
    requires start == 0 || s[start - 1] != Backslash
    requires forall k :: start <= k < body - 1 ==> s[k] == Backslash
    requires s[body - 1] == 'Q'
    ensures OpensAt(s, start) && start + RunFrom(s, start) + 1 == body
    ensures forall i :: start < i < body - 1 ==> MatchAt(s, i).Miss?
  {
    RunFromKnown(s, start, body - 1 - start);
    forall i | start < i < body - 1
      ensures MatchAt(s, i).Miss?
    {
      assert s[i - 1] == Backslash;
    }
  }

  /** Text `w` without `\E` at `body`, followed by `\E`: the section's lazy body ends right after `w`. */
  lemma ClosesAfter(s: string, body: nat, w: string)
    requires NoClose(w) && body + |w| + 2 <= |s|
    requires forall k :: 0 <= k < |w| ==> s[body + k] == w[k]
    requires s[body + |w|] == Backslash && s[body + |w| + 1] == 'E'
    ensures FindEnd(s, body) == Some(body + |w|)
  {
    var close := body + |w|;
    forall k | body <= k < close
      ensures !ClosesAt(s, k)
    {
      assert s[k] == w[k - body];
      if k + 1 < close {
        assert s[k + 1] == w[k + 1 - body];
        assert !ClosesAt(w, k - body);
      }
    }
    assert ClosesAt(s, close);
  }

  /** The leftmost section of `p`, escaped pairs, `\Q`, `w`, `\E`, `q` is the one written out. */
  lemma SectionFound(p: string, b: string, w: string, q: string)
    requires PlainPrefix(p) && NoClose(w) && |b| % 2 == 0
    requires forall k :: 0 <= k < |b| ==> b[k] == Backslash
    ensures FirstSection(p + b + "\\Q" + w + "\\E" + q, |p| + |b| + 2, |p| + |b| + 2 + |w|)
  {
    var s := p + b + "\\Q" + w + "\\E" + q;
    PrefixNoMatch(p, s);
    PiecesOpen(p, b, w, q);
    PiecesText(p, b, w, q);
    SectionAt(s, |p|, |p| + |b| + 2, w);
    HitBounds(FindSection(s, 0), Section(|p|, |p| + |b| + 2, |p| + |b| + 2 + |w|));
  }

  /** The first section of `s` has its text at `s[body..close]`. */
  predicate FirstSection(s: string, body: nat, close: nat) {
    FindSection(s, 0).Hit? && FindSection(s, 0).sec.body == body && FindSection(s, 0).sec.close == close
  }

  /** No section opens inside a plain prefix `p` of `s`. */
  lemma PrefixNoMatch(p: string, s: string)
    requires PlainPrefix(p) && |p| <= |s| && s[..|p|] == p
    ensures forall i :: 0 <= i < |p| ==> MatchAt(s, i).Miss?
  {
    forall i | 0 <= i < |p|
      ensures MatchAt(s, i).Miss?
    {
      PlainPrefixOpensNothing(p, s, i);
    }
  }

  /** The start of the section: a boundary after `p`, then the backslashes of `b` and `\Q`. */
  lemma PiecesOpen(p: string, b: string, w: string, q: string)
    requires Boundary(p) && forall k :: 0 <= k < |b| ==> b[k] == Backslash
    ensures var s := p + b + "\\Q" + w + "\\E" + q;
      && |p| <= |s| && s[..|p|] == p
      && (|p| == 0 || s[|p| - 1] != Backslash)
      && (forall k :: |p| <= k < |p| + |b| + 1 ==> s[k] == Backslash)
      && s[|p| + |b| + 1] == 'Q'
  {
    var s := p + b + "\\Q" + w + "\\E" + q;
    SectionPieces(p, b, w, q);
    if |p| > 0 {
      assert s[|p| - 1] == p[|p| - 1];
    }
    forall k | |p| <= k < |p| + |b| + 1
      ensures s[k] == Backslash
    {
      if k < |p| + |b| {
        assert s[|p| + (k - |p|)] == b[k - |p|];
      }
    }
  }

  /** The end of the section: the text `w`, then `\E`. */
  lemma PiecesText(p: string, b: string, w: string, q: string)
    ensures var s := p + b + "\\Q" + w + "\\E" + q;
      var body := |p| + |b| + 2;
      && body + |w| + 2 <= |s|
      && (forall k :: 0 <= k < |w| ==> s[body + k] == w[k])
      && s[body + |w|] == Backslash && s[body + |w| + 1] == 'E'
  {
    SectionPieces(p, b, w, q);
  }

  /**
   No section opens before `start`; at `start` an even run of backslashes ends
   in `\Q`, and the text `w` after it holds no `\E` and is followed by one:
   that section is the first one found.
   */
  lemma SectionAt(s: string, start: nat, body: nat, w: string)
    requires start + 2 <= body && (body - start) % 2 == 0 && body + |w| + 2 <= |s|
    requires forall i :: 0 <= i < start ==> MatchAt(s, i).Miss?
    requires start == 0 || s[start - 1] != Backslash
    requires forall k :: start <= k < body - 1 ==> s[k] == Backslash
    requires s[body - 1] == 'Q'
    requires NoClose(w) && forall k :: 0 <= k < |w| ==> s[body + k] == w[k]
    requires s[body + |w|] == Backslash && s[body + |w| + 1] == 'E'
    ensures FindSection(s, 0) == Hit(Section(start, body, body + |w|))
  {
    OpensAfterPairs(s, start, body);
    ClosesAfter(s, body, w);
    FindSectionLeftmost(s, 0, Section(start, body, body + |w|));
  }

  /** The three pieces `requote` cuts out of a string holding one section. */
  lemma SectionSlices(p: string, b: string, w: string, q: string)
    ensures var s := p + b + "\\Q" + w + "\\E" + q;
      var body := |p| + |b| + 2;
      && s[..body - 2] == p + b && s[body..body + |w|] == w && s[body + |w| + 2..] == q
  {
    SectionPieces(p, b, w, q);
  }

  /**
   The promise of `requote`: text before a section is kept, and so are the
   escaped backslash pairs right before its `\Q`; the `\Q` and `\E` go, the
   section's text is escaped, and the rest is rewritten on its own.
   */
  lemma RequoteSection(p: string, pairs: nat, w: string, q: string)
    requires PlainPrefix(p) && NoClose(w)
    ensures Requote(p + Backslashes(2 * pairs) + "\\Q" + w + "\\E" + q) == p + Backslashes(2 * pairs) + Escape(w) + Requote(q)
  {
    var b := Backslashes(2 * pairs);
    SectionFound(p, b, w, q);
    RequoteSpliced(p, b, w, q);
  }

  /** Given where the section is, the rewrite keeps `p` and `b`, escapes `w` and rewrites `q`. */
  lemma RequoteSpliced(p: string, b: string, w: string, q: string)
    requires FirstSection(p + b + "\\Q" + w + "\\E" + q, |p| + |b| + 2, |p| + |b| + 2 + |w|)
    ensures Requote(p + b + "\\Q" + w + "\\E" + q) == p + b + Escape(w) + Requote(q)
  {
    var s := p + b + "\\Q" + w + "\\E" + q;
    var body := |p| + |b| + 2;
    var close := body + |w|;
    RequoteFirst(s, body, close);
    SectionSlices(p, b, w, q);
    var x := s[..body - 2];
    var y := s[body..close];
    var z := s[close + 2..];
    SameRewrite(y, w, z, q);
    Replace(Requote(s), x, Escape(y), Requote(z), p + b, Escape(w), Requote(q));
  }

  /** A hit on a given section has that section's bounds. */
  lemma HitBounds(h: Hit, sec: Section)
    requires h == Hit(sec)
    ensures h.Hit? && h.sec.body == sec.body && h.sec.close == sec.close
  {
  }

  /** Equal texts are escaped and rewritten alike. */
  lemma SameRewrite(y: string, w: string, z: string, q: string)
    requires y == w && z == q
    ensures Escape(y) == Escape(w) && Requote(z) == Requote(q)
  {
  }

  /** Equal pieces make equal concatenations. */
  lemma Replace(r: string, x: string, y: string, z: string, x': string, y': string, z': string)
    requires r == x + y + z && x == x' && y == y' && z == z'
    ensures r == x' + y' + z'
  {
  }

  /** The rewrite around the first section found, whose text is `s[body..close]`. */
  lemma RequoteFirst(s: string, body: nat, close: nat)
    requires FindSection(s, 0).Hit? && FindSection(s, 0).sec.body == body && FindSection(s, 0).sec.close == close
    ensures 2 <= body <= close && close + 2 <= |s|
    ensures Requote(s) == s[..body - 2] + Escape(s[body..close]) + Requote(s[close + 2..])
  {
    var sec := FindSection(s, 0).sec;
    HitInside(s);
    RequoteIsCut(s);
    CutIs(s, sec, Requote(s[sec.close + 2..]));
    SameBounds(s, sec.body, sec.close, body, close);
  }

  /** The rewrite around a section depends only on the section's bounds. */
  lemma SameBounds(s: string, body: nat, close: nat, body': nat, close': nat)
    requires 2 <= body <= close && close + 2 <= |s| && body == body' && close == close'
    ensures s[..body - 2] + Escape(s[body..close]) + Requote(s[close + 2..]) ==
            s[..body' - 2] + Escape(s[body'..close']) + Requote(s[close' + 2..])
  {
  }

  /** The first section found lies inside the text, and the rewrite cuts around it. */
  lemma RequoteIsCut(s: string)
    requires FindSection(s, 0).Hit?
    ensures Requote(s) == Cut(s, FindSection(s, 0).sec, Requote(s[FindSection(s, 0).sec.close + 2..]))
  {
  }

  /** The first section found lies inside the text. */
  lemma HitInside(s: string)
    requires FindSection(s, 0).Hit?
    ensures 2 <= FindSection(s, 0).sec.body <= FindSection(s, 0).sec.close && FindSection(s, 0).sec.close + 2 <= |s|
  {
  }

  /** What one cut is made of. */
  lemma CutIs(s: string, sec: Section, rest: string)
    requires 2 <= sec.body <= sec.close && sec.close + 2 <= |s|
    ensures Cut(s, sec, rest) == s[..sec.body - 2] + Escape(s[sec.body..sec.close]) + rest
  {
  }

  /** The example's input and output, cut where the section starts and ends. */
  lemma MinionText()
    ensures "minion_\\d{3}" + [] + "\\Q" + "@gru.evil" + "\\E" + "" == "minion_\\d{3}\\Q@gru.evil\\E"
    ensures "minion_\\d{3}" + [] + "\\@gru\\.evil" + "" == "minion_\\d{3}\\@gru\\.evil"
  {
  }

  /** The example's text before the section opens nothing, and its section text closes nothing. */
  lemma MinionPieces()
    ensures PlainPrefix("minion_\\d{3}") && NoClose("@gru.evil")
  {
    var p := "minion_\\d{3}";
    var w := "@gru.evil";
    assert forall k :: 0 <= k < |p| && k != 7 ==> p[k] != Backslash;
    assert forall k :: 0 <= k < |w| ==> w[k] != Backslash;
  }

  lemma EscapeMinionHead()
    ensures Escape("@gru") == "\\@gru"
  {
  }

  lemma EscapeMinionTail()
    ensures Escape(".evil") == "\\.evil"
  {
  }

  /** The section text of the documentation's example. */
  lemma EscapeMinion()
    ensures Escape("@gru.evil") == "\\@gru\\.evil"
  {
    assert "@gru.evil" == "@gru" + ".evil";
    EscapeConcat("@gru", ".evil");
    EscapeMinionHead();
    EscapeMinionTail();
    assert "\\@gru" + "\\.evil" == "\\@gru\\.evil";
  }

  /** The example of the documentation: `minion_\d{3}\Q@gru.evil\E` becomes `minion_\d{3}\@gru\.evil`. */
  lemma RequoteMinion()
    ensures Requote("minion_\\d{3}\\Q@gru.evil\\E") == "minion_\\d{3}\\@gru\\.evil"
  {
    var p := "minion_\\d{3}";
    var w := "@gru.evil";
    MinionText();
    MinionPieces();
    EscapeMinion();
    assert FindSection("", 0) == Miss;
    assert Backslashes(2 * 0) == [];
    RequoteSection(p, 0, w, "");
  }

  /**
   Escaped backslashes before a section are kept: `\\\\\Q\\\E` (two pairs,
   then a section holding two backslashes) becomes eight backslashes.
   */
  lemma RequoteEscapedPairs()
    ensures Requote("\\\\\\\\\\Q\\\\\\E") == "\\\\\\\\\\\\\\\\"
  {
    var w := "\\\\";
    PairsText();
    EscapePair();
    assert FindSection("", 0) == Miss;
    RequoteSection("", 2, w, "");
  }

  /** The pieces of the escaped-pairs example. */
  lemma PairsText()
    ensures Backslashes(2 * 2) == "\\\\\\\\"
    ensures "" + "\\\\\\\\" + "\\Q" + "\\\\" + "\\E" + "" == "\\\\\\\\\\Q\\\\\\E"
    ensures "" + "\\\\\\\\" + "\\\\\\\\" + "" == "\\\\\\\\\\\\\\\\"
  {
  }

  lemma EscapePair()
    ensures Escape("\\\\") == "\\\\\\\\"
  {
  }

  /**
   An escaped backslash does not open a section: in `\\Q.\E` the run before
   the `Q` has even length, so the text stays as it is.
   */
  lemma RequoteEscapedBackslash()
    ensures Requote("\\\\Q.\\E") == "\\\\Q.\\E"
  {
    var s := "\\\\Q.\\E";
    forall i | 0 <= i <= |s|
      ensures !OpensAt(s, i)
    {
      EscapedBackslashOpensNothing(i);
    }
    RequoteNoOpening(s);
  }

  /** No position of `\\Q.\E` opens a section. */
  lemma EscapedBackslashOpensNothing(i: nat)
    requires i <= 6
    ensures !OpensAt("\\\\Q.\\E", i)
  {
    var s := "\\\\Q.\\E";
    if i == 0 {
      assert RunFrom(s, 2) == 0;
      assert RunFrom(s, 0) == 2;
    } else if i == 1 || i == 5 {
      assert s[i - 1] == Backslash;
    } else if i == 4 {
      assert RunFrom(s, 5) == 0;
      assert s[5] == 'E';
    } else {
      assert i == |s| || s[i] != Backslash;
      assert RunFrom(s, i) == 0;
    }
  }
}
