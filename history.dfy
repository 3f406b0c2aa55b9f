/** The search history kept under `search_history` (newtab/js/main.js:459-468). */
module History {
  import opened Seqs

  /** The history never grows beyond this many entries. */
  const MaxEntries: nat := 20

  /** `saveSearch(q)` applied to the stored history `h`: an empty query stores
      nothing; a new query is put in front; a known query keeps its place (it is
      not moved to the front); the list is then cut to `MaxEntries`. */
  function SaveSearch(h: seq<string>, q: string): (r: seq<string>)
    ensures q == "" ==> r == h
    ensures q != "" ==> |r| <= MaxEntries
    ensures q != "" ==> |r| == (var n := |h| + (if q in h then 0 else 1);
      if n > MaxEntries then MaxEntries else n)
    ensures q != "" && q !in h ==> |r| > 0 && r[0] == q && r[1..] <= h
    ensures q in h ==> r <= h
    ensures forall x :: x in r ==> x in h || x == q
  {
    if q == "" then h
    else
      var h1 := if q in h then h else [q] + h;
      if |h1| > MaxEntries then h1[..MaxEntries] else h1
  }

  /** Saving never creates a duplicate entry. */
  lemma SaveSearchNoDup(h: seq<string>, q: string)
    requires NoDup(h)
    ensures NoDup(SaveSearch(h, q))
  {
    if q != "" && q !in h {
      var h1 := [q] + h;
      assert forall i :: 1 <= i < |h1| ==> h1[i] == h[i - 1];
      assert NoDup(h1);
    }
  }

  /** A saved query is in the history afterwards unless it was already there,
      beyond the first `MaxEntries` places. */
  lemma SaveSearchKeeps(h: seq<string>, q: string)
    requires q != ""
    requires q !in h || FirstIndex(h, q) < MaxEntries
    ensures q in SaveSearch(h, q)
  {
    if q in h {
      var k := FirstIndex(h, q);
      assert SaveSearch(h, q)[k] == q;
    } else {
      assert SaveSearch(h, q)[0] == q;
    }
  }

  /** Saving the same query twice is the same as saving it once, provided the
      first save kept it. */
  lemma SaveSearchIdempotent(h: seq<string>, q: string)
    requires q in SaveSearch(h, q)
    ensures SaveSearch(SaveSearch(h, q), q) == SaveSearch(h, q)
  {
  }
}
