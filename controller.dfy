/** The command/search input controller of newtab/js/main.js as values: the
    state its handlers read and write (`query.value`, the ghost text, the list's
    visibility, `state.selectedCmdIndex`, `state.currentDisplayedSuggestions`,
    `state.currentInlineSuggestion` and the part of `state` commands change),
    and one function per handler giving the state after it. The class
    `Page.InputSession` performs the same steps in place. */
module Controller {
  import opened Wrappers
  import opened Text
  import opened Seqs
  import opened Commands
  import opened History
  import opened SearchUrl

  /** An entry of the suggestion list: a registry command or a remote hint. */
  datatype Suggestion = CommandItem(command: Command) | HintItem(text: string)

  /** The keys the `keydown` handler distinguishes. */
  datatype Key = Enter | Tab | ArrowRight | ArrowDown | ArrowUp | Escape | OtherKey

  datatype BgType = NoBackground | Image | Video

  /** A board icon; the `Date.now()` identifier is not modelled. */
  datatype Item = Icon(linkUrl: string, iconUrl: string)

  /** The messages `runCmd` shows with `alert`. */
  datatype Notice = SavedNotice | StyleChanged(style: string) | StyleUsage | AddIconUsage | UnknownCommand

  /** Effects outside the modelled state, in the order they happen. */
  datatype Effect =
    | Navigate(url: string)      // window.open(url, '_self')
    | OpenFilePicker             // fileInput.click()
    | PersistState               // saveState()
    | ClearStore                 // dbClear()
    | Alert(notice: Notice)      // alert(...)

  /** The fields of `state` that commands change. */
  datatype App = App(bgType: BgType, bgData: Option<string>, items: seq<Item>, style: string)

  /** How a command ended: it ran, it was refused (the field keeps its text), or
      it stopped by an exception (`new URL(...)` on an address it cannot parse). */
  datatype Outcome = Executed | Rejected | Aborted

  /** What the controller uses but does not own: the search template, and the
      browser's `encodeURIComponent` and `new URL(u).hostname` (which may throw). */
  datatype Env = Env(template: string, encode: string -> string, hostOf: string -> Option<string>)

  /** The controller's state. `query` is the field's text, `ghostText` the overlay
      (`queryGhost.value`), `listVisible` is `cmdList.style.display !== 'none'`. */
  datatype View = View(
    query: string,
    ghostText: string,
    listVisible: bool,
    selected: int,
    suggestions: seq<Suggestion>,
    inline: Option<string>,
    app: App,
    history: seq<string>,
    log: seq<Effect>)

  /** The state at page load (newtab/js/main.js:70-82), with the stored history. */
  function Initial(history: seq<string>): View {
    View("", "", false, -1, [], None, App(NoBackground, None, [], "1"), history, [])
  }

  /** The list holds commands only or hints only. */
  predicate Homogeneous(s: seq<Suggestion>) {
    || (forall i :: 0 <= i < |s| ==> s[i].CommandItem?)
    || (forall i :: 0 <= i < |s| ==> s[i].HintItem?)
  }

  /** What every handler keeps: the selection is -1 or an index, the list is of
      one kind, a visible list is not empty, and an inline suggestion is a
      non-empty string that the ghost text shows. */
  predicate Inv(v: View) {
    && v.selected >= -1
    && Homogeneous(v.suggestions)
    && (v.listVisible ==> v.suggestions != [])
    && (v.inline.Some? ==> v.inline.value != "" && v.ghostText == v.inline.value)
  }

  /** JavaScript's truthiness of `state.currentInlineSuggestion`. */
  predicate Truthy(s: Option<string>) {
    s.Some? && s.value != ""
  }

  function CommandItems(cs: seq<Command>): (r: seq<Suggestion>)
    ensures |r| == |cs| && forall i :: 0 <= i < |r| ==> r[i] == CommandItem(cs[i])
  {
    seq(|cs|, i requires 0 <= i < |cs| => CommandItem(cs[i]))
  }

  function HintItems(hs: seq<string>): (r: seq<Suggestion>)
    ensures |r| == |hs| && forall i :: 0 <= i < |r| ==> r[i] == HintItem(hs[i])
  {
    seq(|hs|, i requires 0 <= i < |hs| => HintItem(hs[i]))
  }

  // ---------------------------------------------------------------- parsing

  datatype Parsed = Parsed(cmd: string, parts: seq<string>)

  /** `parseCommand` (newtab/js/main.js:157-164). */
  function ParseCommand(raw: string): (r: Option<Parsed>)
    ensures r.Some? <==> StartsWith(Trim(raw), "//")
    ensures r.Some? ==> StartsWith(r.value.cmd, "//") && |r.value.parts| >= 1
    ensures r.Some? ==> r.value.parts == SplitWs(Trim(raw)) && r.value.cmd == Lower(r.value.parts[0])
  {
    if raw == "" then None
    else
      var trimmed := Trim(raw);
      if !StartsWith(trimmed, "//") then None
      else Some(SplitCommand(trimmed))
  }

  /** The parts of the trimmed text `t` and its lower-cased first word. */
  function SplitCommand(t: string): (p: Parsed)
    requires StartsWith(t, "//")
    ensures StartsWith(p.cmd, "//") && |p.parts| >= 1
    ensures p.parts == SplitWs(t) && p.cmd == Lower(p.parts[0])
  {
    var parts := SplitWs(t);
    CommandWordStartsWithSlashes(t);
    Parsed(Lower(parts[0]), parts)
  }

  /** The parts of a command are non-empty words of the trimmed text. */
  lemma ParseCommandWords(raw: string)
    requires ParseCommand(raw).Some?
    ensures var parts := ParseCommand(raw).value.parts;
      forall i :: 0 <= i < |parts| ==> parts[i] != [] && NoSpace(parts[i])
  {
    SplitWsOfTrimmed(Trim(raw));
    SplitWsWords(Trim(raw));
  }

  /** Words after `//`, separated by any runs of white space, parse back into
      exactly those words: the later ones keep their case, and only the first is
      lower-cased to name the command. */
  lemma ParseCommandOfWords(raw: string, ws: seq<string>, seps: seq<string>)
    requires SeparatedBy(ws, seps) && Words(ws) && StartsWith(ws[0], "//")
    requires Trim(raw) == Interleave(ws, seps)
    ensures ParseCommand(raw) == Some(Parsed(Lower(ws[0]), ws))
  {
    SplitWsInterleave(ws, seps);
  }

  /** Conversely the parts are all the words of the trimmed text, in order: put
      back together with the runs of white space between them, they give it. */
  lemma ParseCommandRejoin(raw: string)
    requires ParseCommand(raw).Some?
    ensures var parts := ParseCommand(raw).value.parts;
      exists seps :: SeparatedBy(parts, seps) && Interleave(parts, seps) == Trim(raw)
  {
    InterleaveSplitWs(Trim(raw));
  }

  lemma CommandWordStartsWithSlashes(t: string)
    requires StartsWith(t, "//")
    ensures StartsWith(Lower(SplitWs(t)[0]), "//")
  {
    var k := WordEnd(t, 0);
    WordEndFacts(t, 0);
    assert !IsSpace(t[0]) && !IsSpace(t[1]);
    assert k >= 2 by {
      assert k < |t| ==> IsSpace(t[k]);
    }
    assert SplitWs(t)[0][..2] == "//";
  }

  /** `parts[n]`, with a missing part read as the falsy empty string. */
  function Arg(parts: seq<string>, n: nat): string {
    if n < |parts| then parts[n] else ""
  }

  // ---------------------------------------------------------------- commands

  function FaviconUrl(host: string): string {
    "https://www.google.com/s2/favicons?domain=" + host + "&sz=128"
  }

  /** The command branches of `runCmd` (newtab/js/main.js:369-407): the new
      application state, the effects, and whether the command executed. */
  function Execute(env: Env, app: App, cmd: string, parts: seq<string>): (res: (App, seq<Effect>, Outcome))
    ensures res.2 != Executed ==> res.0 == app
  {
    var arg := Arg(parts, 1);
    if cmd == "//bg" then
      if arg == "" then (app, [OpenFilePicker], Executed)
      else
        var kind := if EndsWith(Lower(arg), ".mp4") then Video else Image;
        (app.(bgType := kind, bgData := Some(arg)), [PersistState], Executed)
    else if cmd == "//addicon" then
      if arg == "" then (app, [Alert(AddIconUsage)], Rejected)
      else
        var linkUrl := if StartsWith(arg, "http") then arg else "https://" + arg;
        match env.hostOf(linkUrl)
        case None => (app, [], Aborted)
        case Some(host) =>
          (app.(items := app.items + [Icon(linkUrl, FaviconUrl(host))]), [PersistState], Executed)
    else if cmd == "//save" then (app, [PersistState, Alert(SavedNotice)], Executed)
    else if cmd == "//clear" then
      (app.(bgType := NoBackground, bgData := None, items := []), [ClearStore], Executed)
    else if cmd == "//style" then
      if arg == "1" || arg == "2" then
        (app.(style := arg), [PersistState, Alert(StyleChanged(arg))], Executed)
      else (app, [Alert(StyleUsage)], Rejected)
    else (app, [Alert(UnknownCommand)], Rejected)
  }

  // ---------------------------------------------------------------- handlers

  /** `hideSuggestions` (newtab/js/main.js:328-332). */
  function Hide(v: View): View {
    v.(listVisible := false, selected := -1, suggestions := [])
  }

  /** `runCmd(raw)` (newtab/js/main.js:354-412). */
  function RunCmdStep(env: Env, v: View, raw: string): View {
    RunParsedStep(env, Hide(v).(inline := None, ghostText := ""), raw, ParseCommand(raw))
  }

  /** The rest of `runCmd` once the list is hidden and the inline suggestion
      dropped: a search for the trimmed text when `raw` is no command, the
      command's branch otherwise. */
  function RunParsedStep(env: Env, v1: View, raw: string, parsed: Option<Parsed>): View {
    match parsed
    case None => SearchStep(env, v1, Trim(raw))
    case Some(p) => CommandStep(env, v1, p)
  }

  /** No command, `t` the trimmed text: a non-blank text is saved to the
      history and searched for; the field is emptied either way. */
  function SearchStep(env: Env, v1: View, t: string): View {
    var v2 := if t != "" then
      v1.(history := SaveSearch(v1.history, t),
          log := v1.log + [Navigate(BuildSearchUrl(env.template, env.encode, t))])
    else v1;
    v2.(query := "")
  }

  /** A command: its branch changes `state` and has its effects; the field is
      emptied only when it counts as executed. */
  function CommandStep(env: Env, v1: View, p: Parsed): View {
    var res := Execute(env, v1.app, p.cmd, p.parts);
    var v2 := v1.(app := res.0, log := v1.log + res.1);
    if res.2 == Executed then v2.(query := "") else v2
  }

  /** The `input` handler (newtab/js/main.js:239-288) after the field's text has
      become `raw`. `clearStaleInline` says whether a search-mode edit also clears
      the inline suggestion whose ghost text it clears: the page does not
      (`false`); the model's session does (`true`), see InputStep. */
  function InputStepWith(v: View, raw: string, clearStaleInline: bool): View {
    InputWithQuery(v, raw, Lower(Trim(raw)), clearStaleInline)
  }

  /** The same, given `q`, the field's text trimmed and lower-cased. */
  function InputWithQuery(v: View, raw: string, q: string, clearStaleInline: bool): View {
    if StartsWith(q, "//") then CommandInputKeyed(Table, v.(query := raw), raw, q, Lower(SplitWs(Trim(raw))[0]))
    else SearchInput(v.(query := raw), q, clearStaleInline)
  }

  /** Command mode (newtab/js/main.js:251-279): a complete registered key and a
      trailing space show the usage placeholder as ghost text; otherwise the
      registry is filtered by the text after `//`. */
  function CommandInput(v: View, raw: string): View {
    CommandInputIn(Table, v, raw)
  }

  /** Command mode over the registry `cs`. */
  function CommandInputIn(cs: seq<Command>, v: View, raw: string): View {
    CommandInputKeyed(cs, v, raw, Lower(Trim(raw)), Lower(SplitWs(Trim(raw))[0]))
  }

  /** Command mode for the field's text `raw`, given `q`, its trimmed lower-cased
      form, and `key`, its first word lower-cased. */
  function CommandInputKeyed(cs: seq<Command>, v: View, raw: string, q: string, key: string): View {
    var v1 := v.(inline := None);
    var found := FindIn(cs, key);
    if found.Some? && EndsWith(raw, " ") then
      v1.(listVisible := false, ghostText := raw + PlaceholderText(found.value.desc))
    else
      var v2 := v1.(ghostText := "");
      var matches := FilterIn(cs, Drop(q, 2));
      if matches == [] then v2.(listVisible := false)
      else v2.(suggestions := CommandItems(matches), selected := -1, listVisible := true)
  }

  /** Search mode and the empty field (newtab/js/main.js:247-249, 281-287); the
      debounced hint request itself is `HintsStep`. */
  function SearchInput(v: View, q: string, clearStaleInline: bool): View {
    var v1 := v.(ghostText := "", inline := if clearStaleInline then None else v.inline);
    if q == "" then v1.(listVisible := false, inline := None, ghostText := "")
    else v1
  }

  /** The `input` handler as this model runs it: the inline suggestion is cleared
      together with its ghost text (see the Findings of README.md). */
  function InputStep(v: View, raw: string): View {
    InputStepWith(v, raw, true)
  }

  /** The `input` handler exactly as newtab/js/main.js:247-249 writes it. */
  function InputStepAsWritten(v: View, raw: string): View {
    InputStepWith(v, raw, false)
  }

  /** The ghost-text test of newtab/js/main.js:299: the top hint is offered inline
      when, lower-cased, it starts with the query and is strictly longer. */
  predicate Extends(top: string, q: string) {
    top != "" && StartsWith(Lower(top), q) && |top| > |q|
  }

  /** The debounced fetch for `q` completing with `hints`
      (newtab/js/main.js:290-308). */
  function HintsStep(v: View, q: string, hints: seq<string>): View {
    var unique := Dedup(hints);
    var v1 := v.(inline := None, ghostText := "");
    if unique == [] then v1.(listVisible := false)
    else
      var top := unique[0];
      var v2 := if Extends(top, q) then v1.(inline := Some(top), ghostText := top) else v1;
      v2.(suggestions := HintItems(unique), selected := -1, listVisible := true)
  }

  /** `selectCurrentSuggestion` (newtab/js/main.js:334-352). */
  function SelectStep(env: Env, v: View): View {
    if v.selected < 0 || v.selected >= |v.suggestions| then v
    else
      var s := v.suggestions[v.selected];
      var h := Hide(v);
      match s
      case CommandItem(c) =>
        if '<' in c.desc then InputStep(h, c.key + " ") else RunCmdStep(env, h, c.key)
      case HintItem(t) => RunCmdStep(env, h, t)
  }

  /** JavaScript's `%`: the remainder takes the sign of the dividend. */
  function JsRem(a: int, b: int): int
    requires b != 0
  {
    if a >= 0 then a % b else -((-a) % b)
  }

  /** The arrow-key selection update of newtab/js/main.js:198-200: from no
      selection either arrow selects the first item; otherwise ArrowDown moves to
      the next item and wraps from the last to the first, ArrowUp moves to the
      previous one and wraps from the first to the last. */
  function ArrowIndex(k: Key, i: int, max: int): (j: int)
    requires k == ArrowDown || k == ArrowUp
    requires max > 0
    ensures i >= -1 ==> 0 <= j < max
    ensures i == -1 ==> j == 0
    ensures 0 <= i < max && k == ArrowDown ==> j == if i == max - 1 then 0 else i + 1
    ensures 0 <= i < max && k == ArrowUp ==> j == if i == 0 then max - 1 else i - 1
  {
    if i == -1 then 0
    else if k == ArrowDown then
      var a := i + 1;
      if 0 < a < max then RemOfSmall(a, max); JsRem(a, max)
      else if a == max then RemOfOnce(a, max); JsRem(a, max)
      else JsRem(a, max)
    else
      var a := i - 1 + max;
      if 0 <= i && a < max then RemOfSmall(a, max); JsRem(a, max)
      else if 0 < i < max then RemOfOnce(a, max); JsRem(a, max)
      else JsRem(a, max)
  }

  lemma RemOfSmall(a: int, m: int)
    requires 0 <= a < m
    ensures JsRem(a, m) == a
  {
  }

  lemma RemOfOnce(a: int, m: int)
    requires 0 < m <= a < 2 * m
    ensures JsRem(a, m) == a - m
  {
  }

  /** The `keydown` handler (newtab/js/main.js:168-222). */
  function KeyStep(env: Env, v: View, k: Key): View {
    if Truthy(v.inline) && InlineKey(k) then InlineKeyStep(env, v, k)
    else if v.listVisible && |v.suggestions| > 0 then ListKeyStep(env, v, k)
    else if k == Enter then
      var raw := Trim(v.query);
      if raw != "" then RunCmdStep(env, v, raw) else v
    else v
  }

  /** The keys an inline suggestion answers to. */
  predicate InlineKey(k: Key) {
    k == Enter || k == Tab || k == ArrowRight || k == Escape
  }

  /** An inline suggestion is shown: Enter runs it, Tab or the right arrow
      accept it into the field, Escape drops it. */
  function InlineKeyStep(env: Env, v: View, k: Key): View
    requires v.inline.Some?
  {
    if k == Enter then RunCmdStep(env, v, v.inline.value)
    else if k == Tab || k == ArrowRight then
      Hide(v.(query := v.inline.value, inline := None, ghostText := ""))
    else if k == Escape then v.(inline := None, ghostText := "")
    else v
  }

  /** The list is shown and not empty: the arrows move the selection, Tab and
      Enter select, Escape hides the list. */
  function ListKeyStep(env: Env, v: View, k: Key): View
    requires v.suggestions != []
  {
    var max := |v.suggestions|;
    if k == ArrowDown || k == ArrowUp then v.(selected := ArrowIndex(k, v.selected, max))
    else if k == Tab || k == Enter then SelectStep(env, v)
    else if k == Escape then Hide(v)
    else v
  }

  /** A click on the rendered item with `data-index` `i` (newtab/js/main.js:312-317). */
  function ClickStep(env: Env, v: View, i: nat): View {
    SelectStep(env, v.(selected := i))
  }
}
