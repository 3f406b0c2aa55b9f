/** `isNewerVersion` (newtab/js/main.js:495-507): compares two dotted version
    strings component by component. */
module Version {
  import opened Text

  predicate IsDigit(c: char) {
    '0' <= c <= '9'
  }

  /** Length of the longest prefix of decimal digits. */
  function SpanDigits(s: string): (k: nat)
    ensures k <= |s|
    ensures forall i :: 0 <= i < k ==> IsDigit(s[i])
    ensures k < |s| ==> !IsDigit(s[k])
  {
    if |s| > 0 && IsDigit(s[0]) then 1 + SpanDigits(s[1..]) else 0
  }

  /** The longest prefix of `s` made of decimal digits. */
  function LeadingDigits(s: string): (d: string)
    ensures forall i :: 0 <= i < |d| ==> IsDigit(d[i])
  {
    var n := SpanDigits(s);
    assert forall i :: 0 <= i < n ==> s[..n][i] == s[i];
    s[..n]
  }

  /** The number a string of decimal digits denotes. */
  function DigitsValue(d: string): nat
    requires forall i :: 0 <= i < |d| ==> IsDigit(d[i])
  {
    if d == [] then 0
    else
      assert IsDigit(d[|d| - 1]);
      10 * DigitsValue(d[..|d| - 1]) + (d[|d| - 1] as int - '0' as int)
  }

  /** `parseInt(s, 10) || 0`: leading white space and one sign are skipped, then the
      longest run of digits is read; a string without leading digits gives `NaN`,
      which `|| 0` turns into 0. */
  function ParseIntOrZero(s: string): int {
    var t := TrimStart(s);
    var signed := |t| > 0 && (t[0] == '-' || t[0] == '+');
    var u := if signed then t[1..] else t;
    var d := LeadingDigits(u);
    var magnitude: int := DigitsValue(d);
    if d == [] then 0
    else if signed && t[0] == '-' then -magnitude
    else magnitude
  }

  /** `String(v || '0').split('.').map(x => parseInt(x, 10) || 0)`. */
  function Parts(v: string): (p: seq<int>)
    ensures |p| >= 1
  {
    var pieces := SplitOn(if v == "" then "0" else v, '.');
    seq(|pieces|, i requires 0 <= i < |pieces| => ParseIntOrZero(pieces[i]))
  }

  /** `parts[i] || 0`: a missing component counts as 0. */
  function At(p: seq<int>, i: nat): int {
    if i < |p| then p[i] else 0
  }

  /** The two versions agree on every component before `i`. */
  predicate AgreeBelow(r: seq<int>, l: seq<int>, i: nat) {
    forall j :: 0 <= j < i ==> At(r, j) == At(l, j)
  }

  /** `r` is newer than `l`: at the first component where they differ, `r` is larger. */
  ghost predicate NewerParts(r: seq<int>, l: seq<int>) {
    exists i: nat :: AgreeBelow(r, l, i) && At(r, i) > At(l, i)
  }

  lemma NotNewerAt(r: seq<int>, l: seq<int>, i: nat)
    requires AgreeBelow(r, l, i) && At(r, i) < At(l, i)
    ensures !NewerParts(r, l)
  {
    forall k: nat | AgreeBelow(r, l, k) ensures At(r, k) <= At(l, k) {
    }
  }

  lemma NotNewerBeyond(r: seq<int>, l: seq<int>, n: nat)
    requires |r| <= n && |l| <= n && AgreeBelow(r, l, n)
    ensures !NewerParts(r, l) && !NewerParts(l, r)
  {
  }

  /** `isNewerVersion(remote, local)`. */
  method IsNewerVersion(remote: string, local: string) returns (newer: bool)
    ensures newer <==> NewerParts(Parts(remote), Parts(local))
  {
    var rp := Parts(remote);
    var lp := Parts(local);
    var len := if |rp| > |lp| then |rp| else |lp|;
    for i := 0 to len
      invariant AgreeBelow(rp, lp, i)
    {
      var r := At(rp, i);
      var l := At(lp, i);
      if r > l {
        return true;
      }
      if r < l {
        NotNewerAt(rp, lp, i);
        return false;
      }
    }
    NotNewerBeyond(rp, lp, len);
    return false;
  }

  /** No version is newer than itself. */
  lemma NewerIrreflexive(p: seq<int>)
    ensures !NewerParts(p, p)
  {
  }

  /** Two versions are never each newer than the other. */
  lemma NewerAsymmetric(r: seq<int>, l: seq<int>)
    ensures !(NewerParts(r, l) && NewerParts(l, r))
  {
    if NewerParts(r, l) {
      var i: nat :| AgreeBelow(r, l, i) && At(r, i) > At(l, i);
      NotNewerAt(l, r, i);
    }
  }

  /** Newer is transitive. */
  lemma NewerTransitive(a: seq<int>, b: seq<int>, c: seq<int>)
    requires NewerParts(a, b) && NewerParts(b, c)
    ensures NewerParts(a, c)
  {
    var i: nat :| AgreeBelow(a, b, i) && At(a, i) > At(b, i);
    var j: nat :| AgreeBelow(b, c, j) && At(b, j) > At(c, j);
    var k := if i < j then i else j;
    assert AgreeBelow(a, c, k);
    assert At(a, k) > At(c, k);
  }

  /** Trailing zero components make no difference: `1.2` and `1.2.0` are the same
      version for the comparison. */
  lemma NewerIgnoresTrailingZero(r: seq<int>, l: seq<int>)
    ensures NewerParts(r + [0], l) <==> NewerParts(r, l)
    ensures NewerParts(l, r + [0]) <==> NewerParts(l, r)
  {
    assert forall i: nat :: At(r + [0], i) == At(r, i);
    assert forall i: nat :: AgreeBelow(r + [0], l, i) == AgreeBelow(r, l, i);
    assert forall i: nat :: AgreeBelow(l, r + [0], i) == AgreeBelow(l, r, i);
  }

  /** Versions that differ in some component are ordered one way or the other. */
  lemma {:induction false} NewerTotal(r: seq<int>, l: seq<int>, d: nat)
    requires At(r, d) != At(l, d)
    ensures NewerParts(r, l) || NewerParts(l, r)
    decreases d
  {
    if AgreeBelow(r, l, d) {
      if At(r, d) > At(l, d) {
        assert AgreeBelow(r, l, d) && At(r, d) > At(l, d);
      } else {
        assert AgreeBelow(l, r, d) && At(l, d) > At(r, d);
      }
    } else {
      var j :| 0 <= j < d && At(r, j) != At(l, j);
      NewerTotal(r, l, j);
    }
  }

  /** `1.2` is not newer than `1.2.0`, nor the other way round. */
  lemma SameVersionPadded()
    ensures !NewerParts(Parts("1.2"), Parts("1.2.0")) && !NewerParts(Parts("1.2.0"), Parts("1.2"))
  {
    assert "1.2" == "1" + "." + "2" && "1.2.0" == "1" + "." + "2" + "." + "0";
    ParseDigit('0');
    PiecesPadded("1", "2", "0");
  }

  /** `x.y` and `x.y.z`, where `z` reads as 0, are the same version. */
  lemma PiecesPadded(x: string, y: string, z: string)
    requires '.' !in x && '.' !in y && '.' !in z && ParseIntOrZero(z) == 0
    ensures var short := Parts(x + "." + y);
      var long := Parts(x + "." + y + "." + z);
      !NewerParts(short, long) && !NewerParts(long, short)
  {
    PiecesOfTwo(x, y);
    PiecesOfThree(x, y, z);
    PartsOfTwo(x + "." + y, x, y);
    PartsOfThree(x + "." + y + "." + z, x, y, z);
    SamePadded(ParseIntOrZero(x), ParseIntOrZero(y));
  }

  /** A version of two pieces splits into them. */
  lemma PiecesOfTwo(x: string, y: string)
    requires '.' !in x && '.' !in y
    ensures SplitOn(x + "." + y, '.') == [x, y]
  {
    SplitOnCons(x, '.', y);
    SplitOnNone(y, '.');
  }

  /** A version of three pieces splits into them. */
  lemma PiecesOfThree(x: string, y: string, z: string)
    requires '.' !in x && '.' !in y && '.' !in z
    ensures SplitOn(x + "." + y + "." + z, '.') == [x, y, z]
  {
    assert x + "." + y + "." + z == x + ['.'] + (y + "." + z);
    SplitOnCons(x, '.', y + "." + z);
    PiecesOfTwo(y, z);
  }

  lemma SamePadded(m: int, n: int)
    ensures !NewerParts([m, n], [m, n, 0]) && !NewerParts([m, n, 0], [m, n])
  {
    NewerIgnoresTrailingZero([m, n], [m, n]);
    assert [m, n, 0] == [m, n] + [0];
  }

  /** The components of a version of two pieces are those pieces read as numbers. */
  lemma PartsOfTwo(v: string, p0: string, p1: string)
    requires v != "" && SplitOn(v, '.') == [p0, p1]
    ensures Parts(v) == [ParseIntOrZero(p0), ParseIntOrZero(p1)]
  {
  }

  /** The same for three pieces. */
  lemma PartsOfThree(v: string, p0: string, p1: string, p2: string)
    requires v != "" && SplitOn(v, '.') == [p0, p1, p2]
    ensures Parts(v) == [ParseIntOrZero(p0), ParseIntOrZero(p1), ParseIntOrZero(p2)]
  {
  }

  /** A single digit reads as its value. */
  lemma ParseDigit(c: char)
    requires IsDigit(c)
    ensures ParseIntOrZero([c]) == c as int - '0' as int
  {
    assert !IsSpace(c);
    assert TrimStart([c]) == [c];
    assert [c][1..] == [];
    assert SpanDigits([c]) == 1;
    assert [c][..1] == [c];
    assert LeadingDigits([c]) == [c];
    assert [c][..0] == [];
    assert DigitsValue([c]) == c as int - '0' as int;
  }
}
