/** The string operations of JavaScript that the page's input code relies on:
    `trim`, `toLowerCase`, `startsWith`, `endsWith`, `includes`, `substring`,
    `split(/\s+/)`, `split('.')` and `replace(/%s/g, ...)`. */
module Text {

  /** The characters `String.prototype.trim` strips and the regular-expression
      class `\s` matches: ECMAScript's WhiteSpace and LineTerminator code points. */
  predicate IsSpace(c: char) {
    || c == '\t' || c == '\n' || c == '\U{000B}' || c == '\U{000C}' || c == '\r' || c == ' '
    || c == '\U{00A0}' || c == '\U{1680}' || ('\U{2000}' <= c <= '\U{200A}')
    || c == '\U{2028}' || c == '\U{2029}' || c == '\U{202F}' || c == '\U{205F}'
    || c == '\U{3000}' || c == '\U{FEFF}'
  }

  predicate NoSpace(s: string) {
    forall i :: 0 <= i < |s| ==> !IsSpace(s[i])
  }

  /** `s` has no white space at either end, as the result of `trim` never has. */
  predicate Trimmed(s: string) {
    s == [] || (!IsSpace(s[0]) && !IsSpace(s[|s| - 1]))
  }

  function TrimStart(s: string): (r: string)
    ensures |r| <= |s| && r == s[|s| - |r|..]
    ensures r == [] || !IsSpace(r[0])
    ensures forall i :: 0 <= i < |s| - |r| ==> IsSpace(s[i])
  {
    if |s| > 0 && IsSpace(s[0]) then TrimStart(s[1..]) else s
  }

  function TrimEnd(s: string): (r: string)
    ensures |r| <= |s| && r == s[..|r|]
    ensures r == [] || !IsSpace(r[|r| - 1])
    ensures forall i :: |r| <= i < |s| ==> IsSpace(s[i])
  {
    if |s| > 0 && IsSpace(s[|s| - 1]) then TrimEnd(s[..|s| - 1]) else s
  }

  /** `String.prototype.trim`. */
  function Trim(s: string): (r: string)
    ensures Trimmed(r) && |r| <= |s|
    ensures r == [] <==> forall i :: 0 <= i < |s| ==> IsSpace(s[i])
  {
    var t := TrimStart(s);
    var r := TrimEnd(t);
    assert r != [] ==> !IsSpace(r[0]) by {
      if r != [] { assert r[0] == t[0]; }
    }
    r
  }

  /** A string without white space at its ends is its own trim. */
  lemma TrimOfTrimmed(s: string)
    requires Trimmed(s)
    ensures Trim(s) == s
  {
  }

  /** Appending one space to a trimmed string is undone by `trim`. */
  lemma TrimDropsTrailingSpace(s: string)
    requires Trimmed(s)
    ensures Trim(s + " ") == s
  {
    var t := s + " ";
    if s == [] {
      assert TrimStart(t) == TrimStart(t[1..]);
      assert t[1..] == [];
    } else {
      assert TrimStart(t) == t;
      assert t[..|t| - 1] == s;
    }
  }

  /** `String.prototype.toLowerCase` on one character. Only the Latin capitals
      A-Z, the Cyrillic capitals U+0400-U+042F (among them the Ukrainian Є, І and Ї)
      and Ґ (U+0490) are mapped. */
  function LowerChar(c: char): char {
    if 'A' <= c <= 'Z' then (c as int + 32) as char
    else if '\U{0410}' <= c <= '\U{042F}' then (c as int + 32) as char
    else if '\U{0400}' <= c <= '\U{040F}' then (c as int + 80) as char
    else if c == '\U{0490}' then '\U{0491}'
    else c
  }

  function Lower(s: string): (r: string)
    ensures |r| == |s|
  {
    seq(|s|, i requires 0 <= i < |s| => LowerChar(s[i]))
  }

  /** Lower-casing neither creates nor removes white space or slashes, so
      `trim` and the `//` test may be applied before or after it. */
  lemma LowerKeepsSpaceAndSlash(c: char)
    ensures IsSpace(LowerChar(c)) <==> IsSpace(c)
    ensures LowerChar(c) == '/' <==> c == '/'
  {
  }

  predicate StartsWith(s: string, p: string) {
    p <= s
  }

  lemma StartsWithSlashes(s: string)
    ensures StartsWith(s, "//") <==> |s| >= 2 && s[0] == '/' && s[1] == '/'
  {
    if |s| >= 2 && s[0] == '/' && s[1] == '/' {
      assert s[..2] == "//";
    }
  }

  /** Lower-casing keeps a leading `//` and adds none. */
  lemma LowerKeepsSlashes(s: string)
    ensures StartsWith(Lower(s), "//") <==> StartsWith(s, "//")
  {
    StartsWithSlashes(s);
    StartsWithSlashes(Lower(s));
    if |s| >= 2 {
      LowerKeepsSpaceAndSlash(s[0]);
      LowerKeepsSpaceAndSlash(s[1]);
    }
  }

  predicate EndsWith(s: string, p: string) {
    |p| <= |s| && s[|s| - |p|..] == p
  }

  /** `sub` occurs in `s` starting at index `i`. */
  predicate OccursAt(s: string, sub: string, i: int) {
    0 <= i && i + |sub| <= |s| && s[i..i + |sub|] == sub
  }

  /** `String.prototype.includes` with a string argument. */
  function Contains(s: string, sub: string): (b: bool)
    ensures b <==> exists i :: OccursAt(s, sub, i)
    decreases |s|
  {
    if sub <= s then
      assert OccursAt(s, sub, 0);
      true
    else if |s| == 0 then false
    else
      var rest := Contains(s[1..], sub);
      assert forall i :: OccursAt(s[1..], sub, i) ==> OccursAt(s, sub, i + 1);
      assert forall i :: OccursAt(s, sub, i) ==> i >= 1 && OccursAt(s[1..], sub, i - 1);
      rest
  }

  /** What the tail of `s` contains, `s` contains. */
  lemma ContainsInTail(s: string, sub: string)
    requires s != [] && Contains(s[1..], sub)
    ensures Contains(s, sub)
  {
    var i :| OccursAt(s[1..], sub, i);
    assert s[i + 1..i + 1 + |sub|] == s[1..][i..i + |sub|];
    assert OccursAt(s, sub, i + 1);
  }

  /** `String.prototype.substring(n)` for a non-negative `n`. */
  function Drop(s: string, n: nat): (r: string)
    ensures |r| == if |s| <= n then 0 else |s| - n
  {
    if |s| <= n then [] else s[n..]
  }

  /** The end of the run of characters without white space that starts at `i`. */
  function WordEnd(s: string, i: nat): (k: nat)
    requires i <= |s|
    ensures i <= k <= |s|
    decreases |s| - i
  {
    if i < |s| && !IsSpace(s[i]) then WordEnd(s, i + 1) else i
  }

  /** The end of the run of white space that starts at `i`. */
  function SpaceEnd(s: string, i: nat): (k: nat)
    requires i <= |s|
    ensures i <= k <= |s|
    decreases |s| - i
  {
    if i < |s| && IsSpace(s[i]) then SpaceEnd(s, i + 1) else i
  }

  /** A word run holds no white space, and only white space or the end stops it. */
  lemma {:induction false} WordEndFacts(s: string, i: nat)
    requires i <= |s|
    ensures forall k :: i <= k < WordEnd(s, i) ==> !IsSpace(s[k])
    ensures WordEnd(s, i) < |s| ==> IsSpace(s[WordEnd(s, i)])
    decreases |s| - i
  {
    if i < |s| && !IsSpace(s[i]) {
      WordEndFacts(s, i + 1);
    }
  }

  /** A space run holds only white space, and only another character or the end
      stops it. */
  lemma {:induction false} SpaceEndFacts(s: string, i: nat)
    requires i <= |s|
    ensures forall k :: i <= k < SpaceEnd(s, i) ==> IsSpace(s[k])
    ensures SpaceEnd(s, i) < |s| ==> !IsSpace(s[SpaceEnd(s, i)])
    decreases |s| - i
  {
    if i < |s| && IsSpace(s[i]) {
      SpaceEndFacts(s, i + 1);
    }
  }

  /** Conversely, a run without white space from `i` to `e`, followed by white
      space or the end, is the word run from `i`. */
  lemma {:induction false} WordEndAt(s: string, i: nat, e: nat)
    requires i <= e <= |s| && forall k :: i <= k < e ==> !IsSpace(s[k])
    requires e == |s| || IsSpace(s[e])
    ensures WordEnd(s, i) == e
    decreases e - i
  {
    if i < e {
      WordEndAt(s, i + 1, e);
    }
  }

  /** A run of white space from `i` to `e`, followed by another character or the
      end, is the space run from `i`. */
  lemma {:induction false} SpaceEndAt(s: string, i: nat, e: nat)
    requires i <= e <= |s| && forall k :: i <= k < e ==> IsSpace(s[k])
    requires e == |s| || !IsSpace(s[e])
    ensures SpaceEnd(s, i) == e
    decreases e - i
  {
    if i < e {
      SpaceEndAt(s, i + 1, e);
    }
  }

  /** `s.split(/\s+/)`: the pieces between maximal runs of white space. A leading
      or trailing run yields an empty first or last piece, as in JavaScript. */
  function SplitWs(s: string): (parts: seq<string>)
    ensures |parts| >= 1
    ensures parts[0] == s[..WordEnd(s, 0)]
    decreases |s|
  {
    var i := WordEnd(s, 0);
    if i == |s| then
      assert s[..i] == s;
      [s]
    else
      WordEndFacts(s, 0);
      var j := SpaceEnd(s, i);
      [s[..i]] + SplitWs(s[j..])
  }

  /** The split of a text with white space after its first run: that run, then
      the split of what follows the white space. */
  lemma SplitWsUnfold(s: string, i: int, j: int)
    requires i == WordEnd(s, 0) < |s| && j == SpaceEnd(s, i)
    ensures SplitWs(s) == [s[..i]] + SplitWs(s[j..])
  {
  }

  /** No piece of the split holds white space. */
  lemma {:induction false} SplitWsWords(s: string)
    ensures forall i :: 0 <= i < |SplitWs(s)| ==> NoSpace(SplitWs(s)[i])
    decreases |s|
  {
    var i := WordEnd(s, 0);
    WordEndFacts(s, 0);
    assert NoSpace(s[..i]) by {
      forall k | 0 <= k < i ensures !IsSpace(s[..i][k]) {
        assert s[..i][k] == s[k];
      }
    }
    if i < |s| {
      var j := SpaceEnd(s, i);
      SplitWsWords(s[j..]);
      SplitWsUnfold(s, i, j);
    }
  }

  /** On a trimmed string every piece of the split is a non-empty word. */
  lemma {:induction false} SplitWsOfTrimmed(s: string)
    requires s != [] && Trimmed(s)
    ensures forall i :: 0 <= i < |SplitWs(s)| ==> SplitWs(s)[i] != []
    decreases |s|
  {
    var i := WordEnd(s, 0);
    if i < |s| {
      var j := SpaceEnd(s, i);
      SplitStep(s, i, j);
      SplitWsOfTrimmed(s[j..]);
    }
  }

  /** One step of the split of a trimmed text that has white space in it: the
      first run is non-empty, the space run after it is a run, and what follows
      is trimmed and non-empty. */
  lemma SplitStep(s: string, i: int, j: int)
    requires s != [] && Trimmed(s) && i == WordEnd(s, 0) < |s| && j == SpaceEnd(s, i)
    ensures 0 < i < j < |s| && SpaceRun(s[i..j]) && Trimmed(s[j..])
    ensures SplitWs(s) == [s[..i]] + SplitWs(s[j..])
  {
    WordEndFacts(s, 0);
    SpaceEndFacts(s, i);
    assert i > 0 by { assert i < |s| ==> IsSpace(s[i]); }
    forall k | 0 <= k < j - i ensures IsSpace(s[i..j][k]) {
      assert s[i..j][k] == s[i + k];
    }
    var rest := s[j..];
    assert !IsSpace(s[|s| - 1]);
    assert rest[|rest| - 1] == s[|s| - 1];
    assert rest[0] == s[j];
    SplitWsUnfold(s, i, j);
  }

  /** A non-empty word without white space splits into itself alone. */
  lemma SplitWsOfWord(w: string)
    requires w != [] && NoSpace(w)
    ensures SplitWs(w) == [w]
  {
    WordEndAt(w, 0, |w|);
    assert w[..|w|] == w;
  }

  /** A non-empty run of white space, as `\s+` matches between two pieces. */
  predicate SpaceRun(sp: string) {
    sp != [] && forall i :: 0 <= i < |sp| ==> IsSpace(sp[i])
  }

  /** Every element of `ws` is a non-empty word without white space. */
  predicate Words(ws: seq<string>) {
    forall i :: 0 <= i < |ws| ==> ws[i] != [] && NoSpace(ws[i])
  }

  /** `seps` are runs of white space, one between each two neighbours of `ws`. */
  predicate SeparatedBy(ws: seq<string>, seps: seq<string>) {
    |ws| == |seps| + 1 && forall i :: 0 <= i < |seps| ==> SpaceRun(seps[i])
  }

  /** The words `ws` with the run `seps[i]` between `ws[i]` and `ws[i + 1]`. */
  function Interleave(ws: seq<string>, seps: seq<string>): (r: string)
    requires |ws| == |seps| + 1
    ensures StartsWith(r, ws[0]) && EndsWith(r, ws[|ws| - 1])
    decreases |seps|
  {
    if seps == [] then ws[0]
    else
      var rest := Interleave(ws[1..], seps[1..]);
      var r := ws[0] + seps[0] + rest;
      assert r[|r| - |rest|..] == rest;
      r
  }

  /** A word, a run of white space and text that does not start with white space
      split into the word followed by the split of that text. */
  lemma SplitWsCons(w: string, sp: string, rest: string)
    requires w != [] && NoSpace(w) && SpaceRun(sp) && (rest == [] || !IsSpace(rest[0]))
    ensures SplitWs(w + sp + rest) == [w] + SplitWs(rest)
  {
    var s := w + sp + rest;
    var i, j := |w|, |w| + |sp|;
    assert forall k :: 0 <= k < i ==> s[k] == w[k];
    assert forall k :: i <= k < j ==> s[k] == sp[k - i];
    assert s[i] == sp[0];
    assert j < |s| ==> s[j] == rest[0];
    WordEndAt(s, 0, i);
    SpaceEndAt(s, i, j);
    SplitWsUnfold(s, i, j);
    assert s[..i] == w && s[j..] == rest;
  }

  /** Splitting undoes interleaving: words separated by runs of white space split
      back into exactly those words, in order. */
  lemma {:induction false} SplitWsInterleave(ws: seq<string>, seps: seq<string>)
    requires SeparatedBy(ws, seps) && Words(ws)
    ensures SplitWs(Interleave(ws, seps)) == ws
    decreases |seps|
  {
    if seps == [] {
      SplitWsOfWord(ws[0]);
    } else {
      var rest := Interleave(ws[1..], seps[1..]);
      assert ws[1..][0] == ws[1];
      assert rest[0] == ws[1][0];
      SplitWsCons(ws[0], seps[0], rest);
      SplitWsInterleave(ws[1..], seps[1..]);
      assert ws == [ws[0]] + ws[1..];
    }
  }

  /** Interleaving undoes splitting: a trimmed text is its pieces put back together
      with the runs of white space that separated them. */
  lemma {:induction false} InterleaveSplitWs(s: string)
    requires s != [] && Trimmed(s)
    ensures exists seps :: SeparatedBy(SplitWs(s), seps) && Interleave(SplitWs(s), seps) == s
    decreases |s|
  {
    var i := WordEnd(s, 0);
    if i == |s| {
      assert s[..i] == s;
      assert SeparatedBy(SplitWs(s), []) && Interleave(SplitWs(s), []) == s;
    } else {
      var j := SpaceEnd(s, i);
      SplitStep(s, i, j);
      var rest := s[j..];
      InterleaveSplitWs(rest);
      var seps' :| SeparatedBy(SplitWs(rest), seps') && Interleave(SplitWs(rest), seps') == rest;
      JoinStep(s[..i], s[i..j], rest, SplitWs(rest), seps');
      SlicesJoin(s, i, j);
    }
  }

  /** Two words with a run of white space between them. */
  lemma TwoInterleaved(k: string, w: string, a: string)
    requires k != [] && NoSpace(k) && SpaceRun(w) && a != [] && NoSpace(a)
    ensures SeparatedBy([k, a], [w]) && Words([k, a]) && Interleave([k, a], [w]) == k + w + a
  {
    assert [k, a][1..] == [a];
  }

  lemma SlicesJoin(s: string, i: int, j: int)
    requires 0 <= i <= j <= |s|
    ensures s[..i] + s[i..j] + s[j..] == s
  {
  }

  /** Putting a word and a run in front of an interleaving. */
  lemma JoinStep(w: string, sp: string, rest: string, ws: seq<string>, seps: seq<string>)
    requires SpaceRun(sp) && SeparatedBy(ws, seps) && Interleave(ws, seps) == rest
    ensures SeparatedBy([w] + ws, [sp] + seps) && Interleave([w] + ws, [sp] + seps) == w + sp + rest
  {
    assert ([w] + ws)[1..] == ws && ([sp] + seps)[1..] == seps;
  }

  /** `s.split(c)` for a one-character separator. */
  function SplitOn(s: string, c: char): (parts: seq<string>)
    ensures |parts| >= 1
    ensures forall i :: 0 <= i < |parts| ==> c !in parts[i]
    decreases |s|
  {
    var i := SpanNot(s, c);
    if i == |s| then
      assert s[..i] == s;
      [s]
    else [s[..i]] + SplitOn(s[i + 1..], c)
  }

  /** A string without the separator is its own only piece. */
  lemma SplitOnNone(s: string, c: char)
    requires c !in s
    ensures SplitOn(s, c) == [s]
  {
    var k := SpanNot(s, c);
    assert k == |s|;
    assert s[..k] == s;
  }

  /** A piece without the separator, then the separator, is split off first. */
  lemma SplitOnCons(a: string, c: char, rest: string)
    requires c !in a
    ensures SplitOn(a + [c] + rest, c) == [a] + SplitOn(rest, c)
  {
    var s := a + [c] + rest;
    var k := SpanNot(s, c);
    assert s[|a|] == c;
    assert forall m :: 0 <= m < |a| ==> s[m] == a[m];
    assert k <= |a| by {
      assert forall m :: 0 <= m < k ==> s[m] == s[..k][m];
    }
    assert k == |a|;
    assert s[..k] == a;
    assert s[k + 1..] == rest;
  }

  /** Position of the first `c` in `s`, or `|s|` when there is none. */
  function SpanNot(s: string, c: char): (k: nat)
    ensures k <= |s| && c !in s[..k]
    ensures k < |s| ==> s[k] == c
  {
    if |s| > 0 && s[0] != c then
      var k := 1 + SpanNot(s[1..], c);
      assert s[..k] == [s[0]] + s[1..][..k - 1];
      k
    else 0
  }

  /** `s.replace(/pat/g, rep)` for a literal, non-empty pattern: every occurrence,
      found left to right without overlap, is replaced. (`rep` is inserted as it is;
      the `$` patterns of JavaScript's replacement strings are not modelled.) */
  function ReplaceAll(s: string, pat: string, rep: string): string
    requires pat != []
    decreases |s|
  {
    if |s| < |pat| then s
    else if s[..|pat|] == pat then rep + ReplaceAll(s[|pat|..], pat, rep)
    else [s[0]] + ReplaceAll(s[1..], pat, rep)
  }

  /** A string without the pattern is left as it is. */
  lemma {:induction false} ReplaceAllAbsent(s: string, pat: string, rep: string)
    requires pat != [] && !Contains(s, pat)
    ensures ReplaceAll(s, pat, rep) == s
    decreases |s|
  {
    if |s| >= |pat| {
      assert s[0..|pat|] == s[..|pat|];
      ReplaceAllAbsent(s[1..], pat, rep);
      assert s == [s[0]] + s[1..];
    }
  }

  /** A prefix that does not contain the pattern's first character passes through
      unchanged. */
  lemma {:induction false} ReplaceAllAfterPrefix(p: string, t: string, pat: string, rep: string)
    requires pat != [] && pat[0] !in p
    ensures ReplaceAll(p + t, pat, rep) == p + ReplaceAll(t, pat, rep)
    decreases |p|
  {
    if p != [] {
      var s := p + t;
      assert s[1..] == p[1..] + t;
      ReplaceAllAfterPrefix(p[1..], t, pat, rep);
      assert s[0] == p[0] && p[0] != pat[0];
      if |s| >= |pat| {
        assert s[..|pat|][0] == p[0];
        calc {
          ReplaceAll(s, pat, rep);
          [p[0]] + ReplaceAll(p[1..] + t, pat, rep);
          [p[0]] + (p[1..] + ReplaceAll(t, pat, rep));
          { assert p == [p[0]] + p[1..]; }
          p + ReplaceAll(t, pat, rep);
        }
      } else {
        assert ReplaceAll(t, pat, rep) == t;
      }
    } else {
      assert p + t == t;
    }
  }
}
