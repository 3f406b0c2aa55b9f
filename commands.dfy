/** The command registry `COMMANDS` (newtab/js/main.js:60-68) and the pure
    operations the input field performs on it. */
module Commands {
  import opened Wrappers
  import opened Text
  import opened Seqs

  /** One registry entry: the key typed after the `//` sentinel, a short label
      shown in the list, and a usage line that may contain a `<...>` placeholder. */
  datatype Command = Command(key: string, short: string, desc: string)

  /** The registry, in its declaration order. */
  const Table: seq<Command> := [
    Command("//bg", "Встановити фон (URL або файл)",
      "//bg <URL або Enter для файлу> — Вкажіть URL або натисніть Enter для вибору файлу."),
    Command("//addicon", "Додати іконку сайту",
      "//addicon <URL_сайту> — додає іконку-посилання на сайт (напр., //addicon google.com)."),
    Command("//save", "Примусово зберегти",
      "//save — примусово зберігає поточні налаштування."),
    Command("//clear", "Очистити",
      "//clear — очищує фон і елементи."),
    Command("//style", "Змінити стиль",
      "//style <1|2> — змінює візуальний стиль сторінки."),
    Command("//textcolor", "Встановити кольір тексту",
      "//textcolor <hex або назва> — напр., //textcolor #000000 або //textcolor red"),
    Command("//setsearch", "Встановити пошук за замовчуванням",
      "//setsearch <keyword|url_template> — приклад: //setsearch google або //setsearch https://duckduckgo.com/?q=%s")
  ]

  /** A key as the registry writes them: the sentinel `//`, then slashes and
      lower-case Latin letters only (the registry's keys use letters), so it is
      its own trim, its own lower-case form and one word. */
  predicate WellFormedKey(k: string) {
    |k| > 2 && k[..2] == "//" && KeyCharsFrom(k, 0)
  }

  /** From index `i` on, only slashes and letters from `a` to `z`. */
  predicate KeyCharsFrom(s: string, i: nat)
    decreases |s| - i
  {
    i >= |s| || ((s[i] == '/' || 'a' <= s[i] <= 'z') && KeyCharsFrom(s, i + 1))
  }

  lemma {:induction false} KeyCharsAt(s: string, j: nat, i: nat)
    requires KeyCharsFrom(s, j) && j <= i < |s|
    ensures s[i] == '/' || 'a' <= s[i] <= 'z'
    decreases i - j
  {
    if j < i { KeyCharsAt(s, j + 1, i); }
  }

  /** Every registry key is well formed and no two entries share one. */
  lemma TableKeys()
    ensures forall c :: c in Table ==> WellFormedKey(c.key)
    ensures forall i, j :: 0 <= i < j < |Table| ==> Table[i].key != Table[j].key
  {
    KeysWellFormed();
    KeysDistinct();
  }

  lemma KeysDistinct()
    ensures forall i, j :: 0 <= i < j < |Table| ==> Table[i].key != Table[j].key
  {
  }

  lemma KeysWellFormed()
    ensures forall c :: c in Table ==> WellFormedKey(c.key)
  {
    assert WellFormedKey("//bg") && WellFormedKey("//addicon") && WellFormedKey("//save");
    assert WellFormedKey("//clear") && WellFormedKey("//style");
    assert WellFormedKey("//textcolor") && WellFormedKey("//setsearch");
  }

  /** `COMMANDS.find(c => c.key === key)` over a list of entries. */
  function FindIn(cs: seq<Command>, key: string): (r: Option<Command>)
    ensures r.Some? ==> r.value in cs && r.value.key == key
  {
    if cs == [] then None
    else if cs[0].key == key then Some(cs[0])
    else FindIn(cs[1..], key)
  }

  /** `find` answers the first entry with the key, and nothing exactly when no
      entry has it. */
  lemma {:induction false} FindInFirst(cs: seq<Command>, key: string)
    ensures FindIn(cs, key).None? <==> forall c :: c in cs ==> c.key != key
    ensures FindIn(cs, key).Some? ==>
      forall j :: 0 <= j < FirstIndex(cs, FindIn(cs, key).value) ==> cs[j].key != key
  {
    if cs != [] && cs[0].key != key {
      FindInFirst(cs[1..], key);
      var r := FindIn(cs[1..], key);
      assert forall c :: c in cs <==> c == cs[0] || c in cs[1..];
      if r.Some? {
        assert FirstIndex(cs, r.value) == 1 + FirstIndex(cs[1..], r.value);
      }
    }
  }

  function Find(key: string): Option<Command> {
    FindIn(Table, key)
  }

  /** Every registered key is found, and it is found as its own entry. */
  lemma FindRegistered(c: Command)
    requires c in Table
    ensures Find(c.key) == Some(c)
  {
    KeysDistinct();
    FindDistinct(Table, c);
  }

  /** In a list whose keys are distinct, an entry's key finds that entry. */
  lemma FindDistinct(cs: seq<Command>, c: Command)
    requires c in cs
    requires forall i, j :: 0 <= i < j < |cs| ==> cs[i].key != cs[j].key
    ensures FindIn(cs, c.key) == Some(c)
  {
    FindInFirst(cs, c.key);
    var r := FindIn(cs, c.key);
    var k := FirstIndex(cs, r.value);
    var i := FirstIndex(cs, c);
    assert cs[k].key == c.key;
    assert k == i;
  }

  /** The text a command is matched against while typing:
      `(key.substring(2) + ' ' + short).toLowerCase()`. */
  function MatchText(c: Command): string {
    Lower(Drop(c.key, 2) + " " + c.short)
  }

  predicate Matches(c: Command, filter: string) {
    Contains(MatchText(c), filter)
  }

  /** `cs.filter(c => matches(c, filter))`: the entries kept stay in registry
      order. Which entries are kept is FilterInMembers. */
  function FilterIn(cs: seq<Command>, filter: string): (r: seq<Command>)
    ensures IsSubsequence(r, cs)
  {
    if cs == [] then []
    else
      var rest := FilterIn(cs[1..], filter);
      if Matches(cs[0], filter) then
        assert ([cs[0]] + rest)[1..] == rest;
        [cs[0]] + rest
      else
        SkipHead(rest, cs);
        rest
  }

  /** The filter keeps exactly the entries whose match text contains it. */
  lemma {:induction false} FilterInMembers(cs: seq<Command>, filter: string)
    ensures forall c :: c in FilterIn(cs, filter) <==> c in cs && Matches(c, filter)
  {
    if cs != [] {
      FilterInMembers(cs[1..], filter);
      assert forall c :: c in cs <==> c == cs[0] || c in cs[1..];
    }
  }

  lemma SkipHead(r: seq<Command>, cs: seq<Command>)
    requires cs != [] && IsSubsequence(r, cs[1..])
    ensures IsSubsequence(r, cs)
  {
    SubsequenceCons(r, cs[1..], cs[0]);
    assert [cs[0]] + cs[1..] == cs;
  }

  lemma {:induction false} SubsequenceCons(r: seq<Command>, s: seq<Command>, x: Command)
    requires IsSubsequence(r, s)
    ensures IsSubsequence(r, [x] + s)
    decreases |s|, 1
  {
    if r != [] && r[0] == x {
      // r[1..] is a subsequence of s because r is
      SubsequenceTail(r, s);
      assert ([x] + s)[1..] == s;
    } else if r != [] {
      assert ([x] + s)[1..] == s;
    }
  }

  lemma {:induction false} SubsequenceTail(r: seq<Command>, s: seq<Command>)
    requires r != [] && IsSubsequence(r, s)
    ensures IsSubsequence(r[1..], s)
    decreases |s|, 0
  {
    assert s != [];
    if r[0] == s[0] {
      SubsequenceCons(r[1..], s[1..], s[0]);
      assert [s[0]] + s[1..] == s;
    } else {
      SubsequenceTail(r, s[1..]);
      SubsequenceCons(r[1..], s[1..], s[0]);
      assert [s[0]] + s[1..] == s;
    }
  }

  /** The command suggestions for a filter: the registry entries whose match text
      contains it, in registry order. */
  function Suggest(filter: string): seq<Command> {
    FilterIn(Table, filter)
  }

  /** `desc.match(/<([^>]+)>/)`: the contents of the leftmost `<...>` whose inside is
      non-empty and free of `>`, or `None`. */
  function Placeholder(s: string): (r: Option<string>)
    ensures r.Some? ==> r.value != [] && '>' !in r.value && Contains(s, "<" + r.value + ">")
    ensures '<' !in s ==> r.None?
  {
    if |s| == 0 then None
    else
      var k := SpanNot(s[1..], '>');
      if s[0] == '<' && 0 < k < |s| - 1 then
        var p := s[1..1 + k];
        assert p == s[1..][..k];
        assert s[0..|p| + 2] == "<" + p + ">";
        assert OccursAt(s, "<" + p + ">", 0);
        Some(p)
      else
        var r := Placeholder(s[1..]);
        if r.Some? then ContainsInTail(s, "<" + r.value + ">"); r else r
  }

  /** `s` has `<p>` at index `i`, with `p` non-empty and free of `>`: a match of
      `/<([^>]+)>/` starting there, `p` its group. */
  predicate Bracketed(s: string, p: string, i: int) {
    p != [] && '>' !in p && OccursAt(s, "<" + p + ">", i)
  }

  /** The match found is the leftmost one, and there is none exactly when no
      index starts a match. */
  lemma {:induction false} PlaceholderLeftmost(s: string)
    ensures Placeholder(s).None? ==> forall i, p :: !Bracketed(s, p, i)
    ensures Placeholder(s).Some? ==>
      exists i :: Bracketed(s, Placeholder(s).value, i) && forall j, p :: 0 <= j < i ==> !Bracketed(s, p, j)
    decreases |s|
  {
    if |s| > 0 {
      var k := SpanNot(s[1..], '>');
      if s[0] == '<' && 0 < k < |s| - 1 {
        var p := s[1..1 + k];
        assert p == s[1..][..k];
        assert s[0..|p| + 2] == "<" + p + ">";
        assert Bracketed(s, p, 0);
      } else {
        forall p ensures !Bracketed(s, p, 0) {
          BracketAtStart(s, p);
        }
        var r := Placeholder(s[1..]);
        PlaceholderLeftmost(s[1..]);
        if r.None? {
          forall i, p ensures !Bracketed(s, p, i) {
            if i > 0 { BracketedShift(s, p, i - 1); }
          }
        } else {
          var i :| Bracketed(s[1..], r.value, i) && forall j, p :: 0 <= j < i ==> !Bracketed(s[1..], p, j);
          BracketedShift(s, r.value, i);
          forall j, p | 0 <= j < i + 1 ensures !Bracketed(s, p, j) {
            if j > 0 { BracketedShift(s, p, j - 1); }
          }
        }
      }
    }
  }

  /** A match at index 0 is `s[0] == '<'` with the group running up to the first `>`. */
  lemma BracketAtStart(s: string, p: string)
    ensures Bracketed(s, p, 0) ==>
      (|s| > 0 && s[0] == '<' && var k := SpanNot(s[1..], '>'); 0 < k < |s| - 1 && p == s[1..1 + k])
  {
    if Bracketed(s, p, 0) {
      var n := |p|;
      var t := s[1..];
      var w := "<" + p + ">";
      assert s[0..|w|] == w;
      assert s[0] == w[0];
      forall m | 0 <= m < n ensures t[m] == p[m] && t[m] != '>' {
        assert t[m] == s[m + 1] == w[m + 1] == p[m];
      }
      assert t[n] == s[n + 1] == w[n + 1] == '>';
      var k := SpanNot(t, '>');
      forall m | 0 <= m < k ensures t[m] != '>' {
        assert t[m] == t[..k][m];
      }
      assert k <= n;
      assert k >= n;
      assert p == t[..n] == s[1..1 + n];
    }
  }

  /** A match at `i + 1` in `s` is a match at `i` in its tail. */
  lemma BracketedShift(s: string, p: string, i: int)
    requires s != [] && i >= 0
    ensures Bracketed(s, p, i + 1) <==> Bracketed(s[1..], p, i)
  {
    var w := "<" + p + ">";
    if i + 1 + |w| <= |s| {
      assert s[i + 1..i + 1 + |w|] == s[1..][i..i + |w|];
    }
  }

  /** The ghost text shown after a complete key: the placeholder, or nothing. */
  function PlaceholderText(desc: string): string {
    match Placeholder(desc)
    case Some(p) => p
    case None => ""
  }
}
